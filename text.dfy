/** The .NET string operations the blog relies on, over `string == seq<char>`:
    `char.IsWhiteSpace`, `Trim`, invariant lower-casing, ordinal-ignore-case
    equality, `Replace`, `Split(",", RemoveEmptyEntries)` and `string.Join`.

    Case mapping covers ASCII and the Latin-1 Supplement; every other character
    maps to itself. */
module Text {

  /** `char.IsWhiteSpace`: the Unicode White_Space characters. */
  predicate IsWhiteSpace(c: char) {
    ('\t' <= c <= '\r') || c == ' ' || c == '\U{0085}' || c == '\U{00A0}' || c == '\U{1680}'
    || ('\U{2000}' <= c <= '\U{200A}') || c == '\U{2028}' || c == '\U{2029}'
    || c == '\U{202F}' || c == '\U{205F}' || c == '\U{3000}'
  }

  /** `string.IsNullOrWhiteSpace` on a non-null string. */
  predicate IsNullOrWhiteSpace(s: string) {
    forall i :: 0 <= i < |s| ==> IsWhiteSpace(s[i])
  }

  /** `TrimStart()`: white space cut off the front. The facts about it are
      stated by `TrimStartShape`, so that code using `Trim` pays for them only
      where it asks. */
  function TrimStart(s: string): string {
    if s != [] && IsWhiteSpace(s[0]) then TrimStart(s[1..]) else s
  }

  /** `TrimEnd()`: white space cut off the back. */
  function TrimEnd(s: string): string {
    if s != [] && IsWhiteSpace(s[|s| - 1]) then TrimEnd(s[..|s| - 1]) else s
  }

  /** `TrimStart` keeps a suffix, cuts only white space, and leaves no white
      space in front. */
  lemma {:induction false} TrimStartShape(s: string)
    ensures var r := TrimStart(s);
      && |r| <= |s| && r == s[|s| - |r|..]
      && (forall i :: 0 <= i < |s| - |r| ==> IsWhiteSpace(s[i]))
      && (r == [] || !IsWhiteSpace(r[0]))
    decreases |s|
  {
    if s != [] && IsWhiteSpace(s[0]) {
      TrimStartShape(s[1..]);
      var r := TrimStart(s);
      forall i | 0 <= i < |s| - |r| ensures IsWhiteSpace(s[i]) {
        if i > 0 { assert s[i] == s[1..][i - 1]; }
      }
    }
  }

  /** `TrimEnd` keeps a prefix, cuts only white space, and leaves no white
      space at the back. */
  lemma {:induction false} TrimEndShape(s: string)
    ensures var r := TrimEnd(s);
      && |r| <= |s| && r == s[..|r|]
      && (forall i :: |r| <= i < |s| ==> IsWhiteSpace(s[i]))
      && (r == [] || !IsWhiteSpace(r[|r| - 1]))
    decreases |s|
  {
    if s != [] && IsWhiteSpace(s[|s| - 1]) {
      TrimEndShape(s[..|s| - 1]);
      var r := TrimEnd(s);
      forall i | |r| <= i < |s| ensures IsWhiteSpace(s[i]) {
        if i < |s| - 1 { assert s[i] == s[..|s| - 1][i]; }
      }
    }
  }

  /** Number of white-space characters at the start of `s`. */
  function LeadingBlanks(s: string): (n: nat)
    ensures n <= |s|
  {
    TrimStartShape(s);
    |s| - |TrimStart(s)|
  }

  /** `string.Trim()`: white space cut off both ends. */
  function Trim(s: string): string {
    TrimEnd(TrimStart(s))
  }

  /** `Trim` keeps the infix after the leading blanks, everything it cuts off
      is white space, the result neither starts nor ends with white space, and
      only an all-blank string trims to "". */
  lemma TrimShape(s: string)
    ensures var r := Trim(s);
      && (r == [] || (!IsWhiteSpace(r[0]) && !IsWhiteSpace(r[|r| - 1])))
      && (r == [] <==> IsNullOrWhiteSpace(s))
      && LeadingBlanks(s) + |r| <= |s| && r == s[LeadingBlanks(s)..LeadingBlanks(s) + |r|]
      && (forall i :: 0 <= i < LeadingBlanks(s) ==> IsWhiteSpace(s[i]))
      && (forall i :: LeadingBlanks(s) + |r| <= i < |s| ==> IsWhiteSpace(s[i]))
  {
    var t := TrimStart(s);
    TrimStartShape(s);
    TrimEndShape(t);
    var a := |s| - |t|;
    var r := TrimEnd(t);
    assert t == s[a..];
    assert r == s[a..a + |r|];
    assert r == [] ==> IsNullOrWhiteSpace(s) by {
      if r == [] {
        assert t == [];
      }
    }
    assert forall i :: a + |r| <= i < |s| ==> IsWhiteSpace(s[i]) by {
      forall i | a + |r| <= i < |s| ensures IsWhiteSpace(s[i]) {
        assert s[i] == t[i - a];
      }
    }
    if r != [] {
      assert r[0] == t[0];
    }
  }

  /** The two facts about `Trim` most callers need. */
  lemma TrimBlank(s: string)
    ensures Trim(s) == [] <==> IsNullOrWhiteSpace(s)
    ensures Trim(s) == [] || (!IsWhiteSpace(Trim(s)[0]) && !IsWhiteSpace(Trim(s)[|Trim(s)| - 1]))
  {
    TrimShape(s);
  }

  /** Trimming ignores white space added around a string, and is idempotent. */
  lemma {:induction false} TrimIgnoresPadding(w1: string, s: string, w2: string)
    requires IsNullOrWhiteSpace(w1) && IsNullOrWhiteSpace(w2)
    ensures Trim(w1 + s + w2) == Trim(s)
  {
    TrimStartPadding(w1, s + w2);
    assert w1 + s + w2 == w1 + (s + w2);
    TrimStartKeepsSuffix(s, w2);
    var t := TrimStart(s);
    assert TrimStart(s + w2) == t + w2 || (t == [] && TrimStart(s + w2) == TrimStart(w2));
    if t == [] && TrimStart(s + w2) == TrimStart(w2) {
      TrimStartShape(w2);
      TrimEndAllBlank(TrimStart(w2));
      TrimEndAllBlank(t);
    } else {
      TrimEndPadding(t, w2);
    }
  }

  lemma {:induction false} TrimStartPadding(w: string, s: string)
    requires IsNullOrWhiteSpace(w)
    ensures TrimStart(w + s) == TrimStart(s)
    decreases |w|
  {
    if w != [] {
      assert (w + s)[1..] == w[1..] + s;
      TrimStartPadding(w[1..], s);
    } else {
      assert w + s == s;
    }
  }

  lemma {:induction false} TrimStartKeepsSuffix(s: string, w: string)
    requires IsNullOrWhiteSpace(w)
    ensures TrimStart(s) != [] ==> TrimStart(s + w) == TrimStart(s) + w
    ensures TrimStart(s) == [] ==> TrimStart(s + w) == TrimStart(w)
    decreases |s|
  {
    if s == [] {
      assert s + w == w;
    } else if IsWhiteSpace(s[0]) {
      assert (s + w)[1..] == s[1..] + w;
      TrimStartKeepsSuffix(s[1..], w);
    } else {
      assert (s + w)[0] == s[0];
    }
  }

  lemma {:induction false} TrimEndPadding(s: string, w: string)
    requires IsNullOrWhiteSpace(w)
    ensures TrimEnd(s + w) == TrimEnd(s)
    decreases |w|
  {
    if w != [] {
      assert (s + w)[..|s + w| - 1] == s + w[..|w| - 1];
      TrimEndPadding(s, w[..|w| - 1]);
    } else {
      assert s + w == s;
    }
  }

  lemma TrimEndAllBlank(s: string)
    requires IsNullOrWhiteSpace(s)
    ensures TrimEnd(s) == []
  {
  }

  /** The invariant lower-case mapping of one character (ASCII and Latin-1). */
  function LowerChar(c: char): char {
    if 'A' <= c <= 'Z' || ('\U{00C0}' <= c <= '\U{00DE}' && c != '\U{00D7}')
    then (c as int + 32) as char
    else c
  }

  /** `ToLowerInvariant()` (and `ToLower()`, the culture being invariant here). */
  function Lower(s: string): string {
    seq(|s|, i requires 0 <= i < |s| => LowerChar(s[i]))
  }

  predicate IsLower(s: string) {
    Lower(s) == s
  }

  lemma LowerIsLower(s: string)
    ensures IsLower(Lower(s))
  {
  }

  lemma LowerConcat(a: string, b: string)
    ensures Lower(a + b) == Lower(a) + Lower(b)
  {
  }

  /** Lower-casing changes letters only: white space, `-`, and any character the
      mapping leaves alone are kept, and no other character becomes one of them. */
  lemma LowerCharFixes(c: char)
    ensures LowerChar(c) == c || ('a' <= LowerChar(c) <= 'z') || ('\U{00E0}' <= LowerChar(c) <= '\U{00FE}')
    ensures IsWhiteSpace(LowerChar(c)) <==> IsWhiteSpace(c)
  {
  }

  lemma {:induction false} TrimStartLower(s: string)
    ensures TrimStart(Lower(s)) == Lower(TrimStart(s))
    decreases |s|
  {
    if s != [] {
      assert Lower(s)[0] == LowerChar(s[0]);
      assert Lower(s)[1..] == Lower(s[1..]);
      LowerCharFixes(s[0]);
      TrimStartLower(s[1..]);
    }
  }

  lemma {:induction false} TrimEndLower(s: string)
    ensures TrimEnd(Lower(s)) == Lower(TrimEnd(s))
    decreases |s|
  {
    if s != [] {
      assert Lower(s)[|s| - 1] == LowerChar(s[|s| - 1]);
      assert Lower(s)[..|s| - 1] == Lower(s[..|s| - 1]);
      LowerCharFixes(s[|s| - 1]);
      TrimEndLower(s[..|s| - 1]);
    }
  }

  /** Lower-casing and trimming commute, since lower-casing keeps white space
      white and everything else non-white. */
  lemma TrimLowerCommute(s: string)
    ensures Trim(Lower(s)) == Lower(Trim(s))
  {
    TrimStartLower(s);
    TrimEndLower(TrimStart(s));
  }

  /** `a.Equals(b, StringComparison.OrdinalIgnoreCase)`. */
  predicate EqualsIgnoreCase(a: string, b: string) {
    Lower(a) == Lower(b)
  }

  /** `list.Contains(x, StringComparer.OrdinalIgnoreCase)`. */
  predicate ContainsIgnoreCase(list: seq<string>, x: string) {
    exists i :: 0 <= i < |list| && EqualsIgnoreCase(list[i], x)
  }

  /** `s.Replace(from, to)` for one-character strings. */
  function ReplaceChar(s: string, from: char, to: char): string {
    seq(|s|, i requires 0 <= i < |s| => if s[i] == from then to else s[i])
  }

  /** `s` without any character of `chars`, the rest kept in order. */
  function Without(s: string, chars: set<char>): (r: string)
    ensures |r| <= |s|
    ensures forall i :: 0 <= i < |r| ==> r[i] !in chars && r[i] in s
  {
    if s == [] then []
    else if s[0] in chars then Without(s[1..], chars)
    else [s[0]] + Without(s[1..], chars)
  }

  lemma {:induction false} WithoutConcat(a: string, b: string, chars: set<char>)
    ensures Without(a + b, chars) == Without(a, chars) + Without(b, chars)
    decreases |a|
  {
    if a == [] {
      assert a + b == b;
    } else {
      assert (a + b)[0] == a[0];
      assert (a + b)[1..] == a[1..] + b;
      WithoutConcat(a[1..], b, chars);
    }
  }

  /** Removing one set of characters after another removes their union. */
  lemma {:induction false} WithoutTwice(s: string, chars: set<char>, more: set<char>)
    ensures Without(Without(s, chars), more) == Without(s, chars + more)
    decreases |s|
  {
    if s != [] {
      WithoutTwice(s[1..], chars, more);
      if s[0] !in chars {
        assert Without(s, chars) == [s[0]] + Without(s[1..], chars);
        assert ([s[0]] + Without(s[1..], chars))[1..] == Without(s[1..], chars);
      }
    }
  }

  /** Removing no character changes nothing. */
  lemma {:induction false} WithoutNothing(s: string)
    ensures Without(s, {}) == s
    decreases |s|
  {
    if s != [] {
      WithoutNothing(s[1..]);
      assert [s[0]] + s[1..] == s;
    }
  }

  /** Removing characters the string does not have changes nothing. */
  lemma {:induction false} WithoutAbsent(s: string, chars: set<char>)
    requires forall i :: 0 <= i < |s| ==> s[i] !in chars
    ensures Without(s, chars) == s
    decreases |s|
  {
    if s != [] {
      WithoutAbsent(s[1..], chars);
      assert [s[0]] + s[1..] == s;
    }
  }

  /** What is left after removal comes from the input and is outside the set. */
  lemma {:induction false} WithoutMember(s: string, chars: set<char>, c: char)
    requires c in Without(s, chars)
    ensures c in s && c !in chars
    decreases |s|
  {
    if s[0] in chars || c != s[0] {
      WithoutMember(s[1..], chars, c);
    }
  }

  /** Removal keeps every character outside the set. */
  lemma {:induction false} WithoutKeeps(s: string, chars: set<char>, c: char)
    requires c in s && c !in chars
    ensures c in Without(s, chars)
    decreases |s|
  {
    if s[0] != c {
      WithoutKeeps(s[1..], chars, c);
    }
  }

  /** Index of the first `c` in `s`, or `|s|` if there is none. */
  function IndexOf(s: string, c: char): (k: nat)
    ensures k <= |s|
    ensures k < |s| ==> s[k] == c
    ensures forall i :: 0 <= i < k ==> s[i] != c
  {
    if s == [] then 0 else if s[0] == c then 0 else 1 + IndexOf(s[1..], c)
  }

  /** `s.Split(sep)`: the maximal pieces between separators, empty pieces included. */
  function Split(s: string, sep: char): (parts: seq<string>)
    ensures |parts| >= 1
    ensures forall i :: 0 <= i < |parts| ==> sep !in parts[i]
    decreases |s|
  {
    var k := IndexOf(s, sep);
    if k == |s| then [s] else [s[..k]] + Split(s[k + 1..], sep)
  }

  /** `string.Join(sep, parts)`. */
  function Join(parts: seq<string>, sep: char): string {
    if |parts| == 0 then ""
    else if |parts| == 1 then parts[0]
    else parts[0] + [sep] + Join(parts[1..], sep)
  }

  /** Splitting loses nothing: joining the pieces with the separator restores the text. */
  lemma {:induction false} JoinSplit(s: string, sep: char)
    ensures Join(Split(s, sep), sep) == s
    decreases |s|
  {
    var k := IndexOf(s, sep);
    if k < |s| {
      var rest := Split(s[k + 1..], sep);
      var parts := [s[..k]] + rest;
      assert Split(s, sep) == parts;
      assert parts[1..] == rest;
      JoinSplit(s[k + 1..], sep);
      assert Join(parts, sep) == s[..k] + [sep] + Join(rest, sep);
      assert s == s[..k] + [sep] + s[k + 1..];
    }
  }

  /** Joining is undone by splitting, when no piece holds the separator. */
  lemma {:induction false} SplitJoin(parts: seq<string>, sep: char)
    requires |parts| >= 1 && forall i :: 0 <= i < |parts| ==> sep !in parts[i]
    ensures Split(Join(parts, sep), sep) == parts
    decreases |parts|
  {
    if |parts| > 1 {
      var head := parts[0];
      var tail := parts[1..];
      NoneInTail(parts, sep);
      SplitJoin(tail, sep);
      assert Join(parts, sep) == head + [sep] + Join(tail, sep);
      SplitAfter(head, sep, Join(tail, sep));
      HeadTail(parts);
    }
  }

  /** A non-empty sequence is its head before its tail. */
  lemma HeadTail<T>(s: seq<T>)
    requires s != []
    ensures [s[0]] + s[1..] == s
  {
  }

  lemma NoneInTail(parts: seq<string>, sep: char)
    requires |parts| >= 1 && forall i :: 0 <= i < |parts| ==> sep !in parts[i]
    ensures forall i :: 0 <= i < |parts[1..]| ==> sep !in parts[1..][i]
  {
    forall i | 0 <= i < |parts[1..]| ensures sep !in parts[1..][i] {
      assert parts[1..][i] == parts[i + 1];
    }
  }

  /** A piece without the separator, the separator, then the rest: the piece
      comes first in the split. */
  lemma SplitAfter(head: string, sep: char, rest: string)
    requires sep !in head
    ensures Split(head + [sep] + rest, sep) == [head] + Split(rest, sep)
  {
    var s := head + [sep] + rest;
    IndexOfAfter(head, sep, rest);
    assert s[..|head|] == head && s[|head| + 1..] == rest;
  }

  /** The first separator of `a + [c] + b` is the one after `a` when `a` has none. */
  lemma {:induction false} IndexOfAfter(a: string, c: char, b: string)
    requires c !in a
    ensures IndexOf(a + [c] + b, c) == |a|
  {
    if a != [] {
      assert (a + [c] + b)[1..] == a[1..] + [c] + b;
      IndexOfAfter(a[1..], c, b);
    } else {
      assert (a + [c] + b)[0] == c;
    }
  }

  /** `StringSplitOptions.RemoveEmptyEntries`: drop the pieces that are exactly "". */
  function NonEmpty(parts: seq<string>): (r: seq<string>)
    ensures |r| <= |parts|
    ensures forall i :: 0 <= i < |r| ==> r[i] != [] && r[i] in parts
    ensures forall x :: x in parts && x != [] ==> x in r
    ensures multiset(r) == multiset(parts)[[] := 0]
  {
    if parts == [] then []
    else
      assert parts == [parts[0]] + parts[1..];
      if parts[0] == [] then NonEmpty(parts[1..])
      else [parts[0]] + NonEmpty(parts[1..])
  }

  /** `RemoveEmptyEntries` works piece by piece, so it keeps the order of
      the pieces it keeps. */
  lemma {:induction false} NonEmptyConcat(a: seq<string>, b: seq<string>)
    ensures NonEmpty(a + b) == NonEmpty(a) + NonEmpty(b)
  {
    if a != [] {
      assert (a + b)[0] == a[0] && (a + b)[1..] == a[1..] + b;
      NonEmptyConcat(a[1..], b);
    } else {
      assert a + b == b;
    }
  }

  /** Without empty pieces, `RemoveEmptyEntries` removes nothing. */
  lemma {:induction false} NonEmptyOfNonEmpty(parts: seq<string>)
    requires forall i :: 0 <= i < |parts| ==> parts[i] != []
    ensures NonEmpty(parts) == parts
  {
    if parts != [] {
      NonEmptyOfNonEmpty(parts[1..]);
      assert parts == [parts[0]] + parts[1..];
    }
  }
}
