/** The parts of `System.IO.Path` the blog uses, with Windows semantics
    (the store's folder is the Windows path `Data\Posts`): both `\` and `/`
    separate directories, and a path may start with a drive root `X:`. */
module Paths {
  import opened Slugs

  /** `PathInternal.IsDirectorySeparator` on Windows. */
  predicate IsSeparator(c: char) {
    c == '\\' || c == '/'
  }

  /** Where the last component of `path` starts: just past its last separator. */
  function NameStart(path: string): (k: nat)
    ensures k <= |path|
    ensures k > 0 ==> IsSeparator(path[k - 1])
    ensures forall i :: k <= i < |path| ==> !IsSeparator(path[i])
  {
    if path == [] then 0
    else if IsSeparator(path[|path| - 1]) then |path|
    else NameStart(path[..|path| - 1])
  }

  /** A drive letter and `:` at the start of the path, the root
      `Path.GetPathRoot` finds there when no separator follows it. */
  predicate HasDrive(path: string) {
    |path| >= 2 && IsAsciiLetter(path[0]) && path[1] == ':'
  }

  /** Where the file name starts: past the last separator and past the drive
      root, whichever is later. */
  function FileNameStart(path: string): (k: nat)
    ensures NameStart(path) <= k <= |path|
  {
    if HasDrive(path) && NameStart(path) < 2 then 2 else NameStart(path)
  }

  /** `Path.GetFileName`: what follows the last separator and the root. */
  function GetFileName(path: string): string {
    path[FileNameStart(path)..]
  }

  /** The file name is the separator-free tail of the path. It is the whole
      path, follows a separator, or follows the drive root; it never holds
      the drive root. */
  lemma GetFileNameShape(path: string)
    ensures var r := GetFileName(path);
      && |r| <= |path| && r == path[|path| - |r|..]
      && (forall i :: 0 <= i < |r| ==> !IsSeparator(r[i]))
      && (|r| < |path| ==> IsSeparator(path[|path| - |r| - 1]) || (HasDrive(path) && |r| == |path| - 2))
      && (HasDrive(path) ==> |r| <= |path| - 2)
  {
    var k := FileNameStart(path);
    forall i | 0 <= i < |path| - k ensures !IsSeparator(path[k..][i]) {
      assert path[k..][i] == path[k + i];
    }
    if HasDrive(path) {
      DriveNotSeparated(path);
    }
  }

  /** Neither the letter nor the `:` of a drive root is a separator, so the
      last separator of such a path, if any, comes after both. */
  lemma DriveNotSeparated(path: string)
    requires HasDrive(path)
    ensures NameStart(path) == 0 || NameStart(path) > 2
  {
    var k := NameStart(path);
    assert k > 0 ==> IsSeparator(path[k - 1]);
  }

  /** A drive root is cut from a file name that follows it directly:
      `C:photo.png` names `photo.png`. */
  lemma DriveRootCut(drive: char, name: string)
    requires IsAsciiLetter(drive) && forall i :: 0 <= i < |name| ==> !IsSeparator(name[i])
    ensures GetFileName([drive, ':'] + name) == name
  {
    var path := [drive, ':'] + name;
    var k := NameStart(path);
    assert k > 0 ==> IsSeparator(path[k - 1]);
    assert path[2..] == name;
  }

  /** `s.LastIndexOf(c)`: the index of the last `c`, or -1 if there is none. */
  function LastIndexOf(s: string, c: char): (k: int)
    ensures -1 <= k < |s|
    ensures k >= 0 ==> s[k] == c
    ensures forall i :: k < i < |s| ==> s[i] != c
  {
    LastIndexBelow(s, c, |s|)
  }

  /** The index of the last `c` before index `n`, or -1 if there is none. */
  function LastIndexBelow(s: string, c: char, n: nat): (k: int)
    requires n <= |s|
    ensures -1 <= k < n
    ensures k >= 0 ==> s[k] == c
    ensures forall i :: k < i < n ==> s[i] != c
  {
    if n == 0 then -1
    else if s[n - 1] == c then n - 1
    else LastIndexBelow(s, c, n - 1)
  }

  /** A file name cut at its last `.`: all of it when it has none. */
  function CutAtLastDot(name: string): (r: string)
    ensures |r| <= |name| && r == name[..|r|]
    ensures |r| < |name| ==> name[|r|] == '.' && forall i :: |r| < i < |name| ==> name[i] != '.'
    ensures |r| == |name| ==> '.' !in name
  {
    var dot := LastIndexOf(name, '.');
    if dot < 0 then
      assert forall i :: 0 <= i < |name| ==> name[i] != '.';
      name
    else name[..dot]
  }

  /** `Path.GetFileNameWithoutExtension`: the file name cut at its last `.`. */
  function GetFileNameWithoutExtension(path: string): (r: string)
    ensures var name := GetFileName(path);
      |r| <= |name| && r == name[..|r|]
      && (|r| < |name| ==> name[|r|] == '.' && forall i :: |r| < i < |name| ==> name[i] != '.')
      && (|r| == |name| ==> '.' !in name)
  {
    CutAtLastDot(GetFileName(path))
  }

  /** The backwards scan of `Path.GetExtension` from index `i`: the index of
      the `.` that stops it, or -1 when a separator or the start of the path
      stops it first. */
  function DotScan(path: string, i: int): (r: int)
    requires -1 <= i < |path|
    ensures -1 <= r <= i
    ensures r >= 0 ==> path[r] == '.'
    ensures r >= 0 ==> forall j :: r < j <= i ==> path[j] != '.' && !IsSeparator(path[j])
    decreases i + 1
  {
    if i < 0 then -1
    else if path[i] == '.' then i
    else if IsSeparator(path[i]) then -1
    else DotScan(path, i - 1)
  }

  /** `Path.GetExtension`: empty, or a `.` followed by at least one character
      that is neither `.` nor a separator, taken from the end of the path. */
  function GetExtension(path: string): (r: string)
    ensures r == [] || (|r| >= 2 && r[0] == '.' && |r| <= |path| && r == path[|path| - |r|..])
    ensures forall i :: 0 < i < |r| ==> r[i] != '.' && !IsSeparator(r[i])
  {
    var dot := DotScan(path, |path| - 1);
    if dot < 0 || dot == |path| - 1 then "" else path[dot..]
  }

  /** Within the last component, the scan of `GetExtension` finds the last `.`
      before it leaves the file name, or -1 when that `.` lies before the name. */
  lemma {:induction false} DotScanInName(path: string, i: int)
    requires NameStart(path) - 1 <= i < |path|
    ensures var m := LastIndexBelow(path, '.', i + 1);
      DotScan(path, i) == if m < NameStart(path) then -1 else m
    decreases i + 1
  {
    var k := NameStart(path);
    if i >= k && path[i] != '.' {
      assert !IsSeparator(path[i]);
      DotScanInName(path, i - 1);
    } else if i < k {
      assert i >= 0 ==> IsSeparator(path[i]);
    }
  }

  /** The last `c` of a suffix is the last `c` of the whole, if that lies in
      the suffix. */
  lemma {:induction false} LastIndexInSuffix(s: string, c: char, k: nat, n: nat)
    requires k + n <= |s|
    ensures var d := LastIndexBelow(s[k..], c, n); var m := LastIndexBelow(s, c, k + n);
      d == if m < k then -1 else m - k
  {
    if n > 0 {
      assert s[k..][n - 1] == s[k + n - 1];
      LastIndexInSuffix(s, c, k, n - 1);
    }
  }

  /** The extension starts at the last `.` of the file name, unless there is
      none or it is the final character. */
  lemma ExtensionFromLastDot(path: string)
    ensures var name := GetFileName(path); var d := LastIndexOf(name, '.');
      GetExtension(path) == if d < 0 || d == |name| - 1 then "" else name[d..]
  {
    ScanFindsLastDot(path);
    ExtensionAtScan(path, GetFileName(path), LastIndexOf(GetFileName(path), '.'));
  }

  /** The extension, from where the scan stops: at `d` in the final `name`. */
  lemma ExtensionAtScan(path: string, name: string, d: int)
    requires |name| <= |path| && name == path[|path| - |name|..] && -1 <= d < |name|
    requires DotScan(path, |path| - 1) == if d < 0 then -1 else |path| - |name| + d
    ensures GetExtension(path) == if d < 0 || d == |name| - 1 then "" else name[d..]
  {
    if 0 <= d < |name| - 1 {
      DropDrop(path, |path| - |name|, d);
    }
  }

  /** Scanning back from the end of the path stops at the last `.` of its
      file name, or finds none. */
  lemma ScanFindsLastDot(path: string)
    ensures var name := GetFileName(path); var d := LastIndexOf(name, '.');
      DotScan(path, |path| - 1) == if d < 0 then -1 else |path| - |name| + d
  {
    var k := FileNameStart(path);
    DotScanInName(path, |path| - 1);
    LastIndexInSuffix(path, '.', k, |path| - k);
    if k > NameStart(path) {
      var m := LastIndexBelow(path, '.', |path|);
      assert m >= 0 ==> path[m] == '.';
      assert path[0] != '.' && path[1] != '.';
    }
  }

  /** A file name splits into the name without its extension followed by the
      extension; the one exception is a name ending in `.`, whose extension is
      empty although that final `.` is cut from the name. */
  lemma NameAndExtension(path: string)
    ensures var name, stem, ext := GetFileName(path), GetFileNameWithoutExtension(path), GetExtension(path);
      stem + ext == name || (ext == [] && stem + "." == name)
  {
    ExtensionFromLastDot(path);
    CutAndExtension(GetFileName(path));
  }

  /** The same split, for one file name and its last `.`. */
  lemma CutAndExtension(name: string)
    ensures var d := LastIndexOf(name, '.'); var stem := CutAtLastDot(name);
      var ext := if d < 0 || d == |name| - 1 then "" else name[d..];
      stem + ext == name || (ext == [] && stem + "." == name)
  {
    var d := LastIndexOf(name, '.');
    if 0 <= d {
      SplitAt(name, d);
      if d == |name| - 1 {
        assert name[d..] == ".";
      }
    }
  }

  lemma DropDrop(s: string, a: nat, b: nat)
    requires a + b <= |s|
    ensures s[a..][b..] == s[a + b..]
  {
  }

  lemma SplitAt(s: string, d: nat)
    requires d <= |s|
    ensures s[..d] + s[d..] == s
  {
  }
}
