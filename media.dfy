/** The rules of `SaveFilesToDisk`: which `<img ... />` tags of a post's
    content are rewritten, and into what.

    The content is given as the sequence of segments the tag search
    `<img[^>]+ />`, ignoring case, cuts it into: plain text, and image tags
    with the element name and attributes XML parsing finds in them (`None`
    when parsing fails). The
    data-URI search is the regular expression
    `data:[^/]+/(?<ext>[a-z]+);base64,(?<base64>.+)`, ignoring case, written
    out as the positions it forces. Base64 decoding is a parameter. */
module Media {
  import opened Wrappers
  import opened Text
  import opened Encoding
  import opened Ids
  import opened Paths
  import opened Slugs
  import opened Blog

  datatype Attr = Attr(name: string, value: string)

  /** A tag keeps the element name XML parsing gives it (`IMG` for `<IMG .../>`,
      since the search ignores case); `name` says nothing when `attrs` is `None`. */
  datatype Segment = Text(text: string) | Img(raw: string, name: string, attrs: Option<seq<Attr>>)

  function SegmentText(s: Segment): string {
    match s
    case Text(t) => t
    case Img(raw, _, _) => raw
  }

  /** The content the segments are cut from. */
  function Render(body: seq<Segment>): string {
    if body == [] then "" else Render(body[..|body| - 1]) + SegmentText(body[|body| - 1])
  }

  lemma {:induction false} RenderConcat(a: seq<Segment>, b: seq<Segment>)
    ensures Render(a + b) == Render(a) + Render(b)
    decreases |b|
  {
    if b == [] {
      assert a + b == a;
    } else {
      assert (a + b)[..|a + b| - 1] == a + b[..|b| - 1];
      RenderConcat(a, b[..|b| - 1]);
    }
  }

  /** XML forbids two attributes of one name; `LoadXml` refuses such a tag. */
  predicate UniqueNames(attrs: seq<Attr>) {
    forall i, j :: 0 <= i < j < |attrs| ==> attrs[i].name != attrs[j].name
  }

  /** The index of the attribute called `name`, or `|attrs|`. */
  function AttrIndex(attrs: seq<Attr>, name: string): (k: nat)
    ensures k <= |attrs|
    ensures k < |attrs| ==> attrs[k].name == name
    ensures forall j :: 0 <= j < k ==> attrs[j].name != name
  {
    if attrs == [] then 0 else if attrs[0].name == name then 0 else 1 + AttrIndex(attrs[1..], name)
  }

  /** `img.Attributes[name]`. */
  function Lookup(attrs: seq<Attr>, name: string): (r: Option<string>)
    ensures r.Some? <==> exists k :: 0 <= k < |attrs| && attrs[k].name == name
    ensures r.Some? ==> Attr(name, r.value) in attrs
  {
    var k := AttrIndex(attrs, name);
    if k == |attrs| then None else Some(attrs[k].value)
  }

  /** An attribute value as `OuterXml` writes it: `&`, `<`, `>` and `"`
      escaped, and line feed and carriage return written as character
      references. */
  function EscapeAttr(s: string): string {
    if s == [] then ""
    else
      var c := s[0];
      (if c == '&' then "&amp;" else if c == '<' then "&lt;" else if c == '>' then "&gt;"
       else if c == '"' then "&quot;" else if c == '\n' then "&#xA;" else if c == '\r' then "&#xD;"
       else [c]) + EscapeAttr(s[1..])
  }

  function AttrsXml(attrs: seq<Attr>): string {
    if attrs == [] then ""
    else " " + attrs[0].name + "=\"" + EscapeAttr(attrs[0].value) + "\"" + AttrsXml(attrs[1..])
  }

  /** `img.OuterXml` of an empty element: its own name, its attributes,
      then ` />`. */
  function OuterXml(name: string, attrs: seq<Attr>): (r: string)
    ensures |r| >= |name| + 4 && r[..|name| + 1] == "<" + name && r[|r| - 3..] == " />"
  {
    "<" + name + AttrsXml(attrs) + " />"
  }

  const AllowedExtensions: seq<string> := [".jpg", ".jpeg", ".gif", ".png", ".webp"]

  /** The number of ASCII letters at position `i` onwards. */
  function LetterRun(s: string, i: nat): (n: nat)
    requires i <= |s|
    ensures i + n <= |s|
    ensures forall j :: i <= j < i + n ==> IsAsciiLetter(s[j])
    ensures i + n < |s| ==> !IsAsciiLetter(s[i + n])
    decreases |s| - i
  {
    if i < |s| && IsAsciiLetter(s[i]) then 1 + LetterRun(s, i + 1) else 0
  }

  /** The first position at or after `i` holding `c`, or `|s|`. */
  function FindFrom(s: string, i: nat, c: char): (k: nat)
    requires i <= |s|
    ensures i <= k <= |s|
    ensures k < |s| ==> s[k] == c
    ensures forall j :: i <= j < k ==> s[j] != c
    decreases |s| - i
  {
    if i == |s| || s[i] == c then i else FindFrom(s, i + 1, c)
  }

  /** The first position holding `c` is the one the search finds. */
  lemma FindFromIs(s: string, i: nat, c: char, k: nat)
    requires i <= k <= |s| && (k < |s| ==> s[k] == c)
    requires forall j :: i <= j < k ==> s[j] != c
    ensures FindFrom(s, i, c) == k
  {
    var f := FindFrom(s, i, c);
    assert f < |s| ==> s[f] == c;
  }

  /** `literal` at position `i` of `s`, ignoring case. */
  predicate HasAt(s: string, i: nat, literal: string) {
    i + |literal| <= |s| && Lower(s[i..i + |literal|]) == literal
  }

  /** The `base64` group of the data-URI pattern matched at position `s`:
      `data:`, a non-empty run up to the first `/`, the letters after it,
      `;base64,`, then everything up to the end of the line, at least one
      character. */
  function DataUriAt(src: string, s: nat): (r: Option<string>)
    requires s <= |src|
    ensures r.Some? ==> r.value != [] && HasAt(src, s, "data:")
  {
    if !HasAt(src, s, "data:") then None
    else
      var a := s + 5;
      var slash := FindFrom(src, a, '/');
      if slash == a || slash == |src| then None
      else
        var e := slash + 1;
        var b := e + LetterRun(src, e);
        if b == e || !HasAt(src, b, ";base64,") then None
        else
          var p := b + 8;
          var end := FindFrom(src, p, '\n');
          if end == p then None else Some(src[p..end])
  }

  /** The payload ends at the end of its line. */
  lemma DataUriAtOneLine(src: string, s: nat)
    requires s <= |src|
    ensures DataUriAt(src, s).Some? ==> '\n' !in DataUriAt(src, s).value
  {
    var r := DataUriAt(src, s);
    if r.Some? {
      var p := r.value;
      forall j | 0 <= j < |p| ensures p[j] != '\n' {
        var e := FindFrom(src, s + 5, '/') + 1;
        var q := e + LetterRun(src, e) + 8;
        assert p == src[q..FindFrom(src, q, '\n')];
        assert p[j] == src[q + j];
      }
    }
  }

  /** `base64Regex.Match(src)`: the leftmost position the pattern matches at. */
  function DataUriFrom(src: string, s: nat): (r: Option<string>)
    requires s <= |src|
    ensures r.Some? ==> exists k :: FirstMatchAt(src, s, k) && DataUriAt(src, k) == r
    ensures r.None? ==> forall k :: s <= k <= |src| ==> DataUriAt(src, k).None?
    decreases |src| - s
  {
    if DataUriAt(src, s).Some? then
      assert FirstMatchAt(src, s, s);
      DataUriAt(src, s)
    else if s == |src| then None
    else
      var r := DataUriFrom(src, s + 1);
      assert r.Some? ==> exists k :: FirstMatchAt(src, s, k) && DataUriAt(src, k) == r by {
        if r.Some? {
          var k :| FirstMatchAt(src, s + 1, k) && DataUriAt(src, k) == r;
          forall j: nat | s <= j < k ensures DataUriAt(src, j).None? {
            if j != s {
              assert s + 1 <= j < k;
            }
          }
        }
      }
      r
  }

  /** `k` is a position at or after `s` where the pattern matches, and it
      matches at no position from `s` up to `k`. */
  predicate FirstMatchAt(src: string, s: nat, k: nat) {
    s <= k <= |src| && DataUriAt(src, k).Some? && forall j :: s <= j < k ==> DataUriAt(src, j).None?
  }

  function DataUri(src: string): Option<string> {
    DataUriFrom(src, 0)
  }

  /** The `src` an editor writes for an embedded image. */
  function EditorDataUri(mime: string, ext: string, data: string): string {
    ("data:" + mime + "/") + ext + (";base64," + data)
  }

  /** An editor's data URI yields its payload. */
  lemma DataUriPayload(mime: string, ext: string, data: string)
    requires mime != [] && '/' !in mime
    requires ext != [] && forall i :: 0 <= i < |ext| ==> IsAsciiLetter(ext[i])
    requires data != [] && '\n' !in data
    ensures DataUriAt(EditorDataUri(mime, ext, data), 0) == Some(data)
  {
    EditorUriParts(mime, ext, data);
    DataUriAtParts(EditorDataUri(mime, ext, data), |mime|, |ext|);
    PayloadEnds(mime, ext, data);
  }

  /** Where each part of an editor's data URI ends. */
  lemma EditorUriParts(mime: string, ext: string, data: string)
    requires mime != [] && '/' !in mime
    requires ext != [] && forall i :: 0 <= i < |ext| ==> IsAsciiLetter(ext[i])
    requires data != [] && '\n' !in data
    ensures PartsAt(EditorDataUri(mime, ext, data), |mime|, |ext|)
  {
    SchemeAt(mime, ext, data);
    MimeEnds(mime, ext, data);
    ExtensionEnds(mime, ext, data);
    MarkerAt(mime, ext, data);
    PayloadEnds(mime, ext, data);
  }

  lemma SchemeAt(mime: string, ext: string, data: string)
    ensures HasAt(EditorDataUri(mime, ext, data), 0, "data:")
  {
    assert EditorDataUri(mime, ext, data)[0..5] == "data:";
  }

  lemma MimeEnds(mime: string, ext: string, data: string)
    requires '/' !in mime
    ensures FindFrom(EditorDataUri(mime, ext, data), 5, '/') == 5 + |mime|
  {
    var src := EditorDataUri(mime, ext, data);
    forall j | 5 <= j < 5 + |mime| ensures src[j] != '/' {
      assert src[j] == mime[j - 5];
    }
    assert src[5 + |mime|] == '/';
    FindFromIs(src, 5, '/', 5 + |mime|);
  }

  lemma ExtensionEnds(mime: string, ext: string, data: string)
    requires forall i :: 0 <= i < |ext| ==> IsAsciiLetter(ext[i])
    ensures LetterRun(EditorDataUri(mime, ext, data), 6 + |mime|) == |ext|
  {
    LetterRunSplice("data:" + mime + "/", ext, ";base64," + data);
  }

  /** A run of letters followed by a non-letter. */
  lemma LetterRunSplice(a: string, ext: string, c: string)
    requires forall i :: 0 <= i < |ext| ==> IsAsciiLetter(ext[i])
    requires c != [] && !IsAsciiLetter(c[0])
    ensures LetterRun(a + ext + c, |a|) == |ext|
  {
    var s := a + ext + c;
    forall j | |a| <= j < |a| + |ext| ensures IsAsciiLetter(s[j]) {
      assert s[j] == ext[j - |a|];
    }
    assert s[|a| + |ext|] == c[0];
    LetterRunIs(s, |a|, |ext|);
  }

  lemma MarkerAt(mime: string, ext: string, data: string)
    ensures HasAt(EditorDataUri(mime, ext, data), 6 + |mime| + |ext|, ";base64,")
  {
    var b := 6 + |mime| + |ext|;
    assert EditorDataUri(mime, ext, data)[b..b + 8] == ";base64,";
  }

  lemma PayloadEnds(mime: string, ext: string, data: string)
    requires '\n' !in data
    ensures var src := EditorDataUri(mime, ext, data); var p := 6 + |mime| + |ext| + 8;
      p <= |src| && FindFrom(src, p, '\n') == |src| && src[p..] == data
  {
    var src := EditorDataUri(mime, ext, data);
    var p := 6 + |mime| + |ext| + 8;
    assert src[p..] == data;
    forall j | p <= j < |src| ensures src[j] != '\n' {
      assert src[j] == data[j - p];
    }
    FindFromIs(src, p, '\n', |src|);
  }

  /** The scheme, a media type of `m` characters up to its `/`, an extension
      of `x` letters, the marker, and a payload running to the end. */
  predicate PartsAt(src: string, m: nat, x: nat) {
    && HasAt(src, 0, "data:") && 0 < m && 6 + m <= |src| && FindFrom(src, 5, '/') == 5 + m
    && 0 < x && LetterRun(src, 6 + m) == x && HasAt(src, 6 + m + x, ";base64,")
    && 6 + m + x + 8 < |src| && FindFrom(src, 6 + m + x + 8, '\n') == |src|
  }

  /** `DataUriAt` at 0 from the positions each part of the pattern ends at,
      when the payload runs to the end of the text. */
  lemma DataUriAtParts(src: string, m: nat, x: nat)
    requires PartsAt(src, m, x)
    ensures DataUriAt(src, 0) == Some(src[6 + m + x + 8..])
  {
    var p := 6 + m + x + 8;
    assert src[p..|src|] == src[p..];
  }

  /** The first position not holding a letter is the end of the run. */
  lemma LetterRunIs(s: string, e: nat, n: nat)
    requires e + n < |s| && !IsAsciiLetter(s[e + n])
    requires forall j :: e <= j < e + n ==> IsAsciiLetter(s[j])
    ensures LetterRun(s, e) == n
  {
    var r := LetterRun(s, e);
    assert e + r < |s| ==> !IsAsciiLetter(s[e + r]);
  }

  /** An image the loop rewrites: it has a `src` and a `data-filename`, the
      file name has an allowed extension (ignoring case), and the `src` is a
      base64 data URI. */
  predicate Rehostable(attrs: seq<Attr>) {
    var src := Lookup(attrs, "src");
    var fileName := Lookup(attrs, "data-filename");
    src.Some? && fileName.Some?
    && ContainsIgnoreCase(AllowedExtensions, GetExtension(fileName.value))
    && DataUri(src.value).Some?
  }

  /** `srcNode.Value = path; img.Attributes.Remove(fileNameNode)`: the
      `src` attribute keeps its place with the new value, `data-filename`
      goes, every other attribute stays in order. */
  function Rehosted(attrs: seq<Attr>, path: string): (r: seq<Attr>)
    requires UniqueNames(attrs)
    ensures UniqueNames(r)
    ensures forall a :: a in r ==> a.name != "data-filename"
    ensures forall a :: a in r ==> (a.name == "src" ==> a.value == path)
    ensures forall a :: a in r ==> exists b :: b in attrs && b.name == a.name
    ensures forall a :: a in attrs && a.name != "src" && a.name != "data-filename" ==> a in r
    ensures (exists b :: b in attrs && b.name == "src") ==> Attr("src", path) in r
  {
    if attrs == [] then []
    else
      var a := attrs[0];
      assert UniqueNames(attrs[1..]) by {
        forall i, j | 0 <= i < j < |attrs[1..]| ensures attrs[1..][i].name != attrs[1..][j].name {
          assert attrs[1..][i] == attrs[i + 1] && attrs[1..][j] == attrs[j + 1];
        }
      }
      var rest := Rehosted(attrs[1..], path);
      assert forall b :: b in attrs[1..] ==> b.name != a.name by {
        forall b | b in attrs[1..] ensures b.name != a.name {
          var m :| 0 <= m < |attrs[1..]| && attrs[1..][m] == b;
          assert attrs[m + 1] == b;
        }
      }
      assert attrs == [a] + attrs[1..];
      var head := if a.name == "data-filename" then [] else if a.name == "src" then [Attr("src", path)] else [a];
      PrependName(head, rest, attrs[1..], a.name);
      head + rest
  }

  /** A head whose name the tail's source does not use keeps names unique. */
  lemma PrependName(head: seq<Attr>, rest: seq<Attr>, tail: seq<Attr>, name: string)
    requires |head| <= 1 && (forall a :: a in head ==> a.name == name)
    requires UniqueNames(rest)
    requires forall a :: a in rest ==> exists b :: b in tail && b.name == a.name
    requires forall b :: b in tail ==> b.name != name
    ensures UniqueNames(head + rest)
  {
    var r := head + rest;
    forall i, j | 0 <= i < j < |r| ensures r[i].name != r[j].name {
      if i < |head| {
        assert r[j] == rest[j - |head|] && r[j] in rest;
      } else {
        assert r[i] == rest[i - |head|] && r[j] == rest[j - |head|];
      }
    }
  }

  /** The tag a rewritten image becomes, the file saved at `now`: the same
      element name, with the rehosted attributes. */
  function Rewritten(seg: Segment, now: Ticks): (r: Segment)
    requires Rewrites(seg)
    ensures r.Img? && r.name == seg.name && r.attrs.Some? && r.raw == OuterXml(seg.name, r.attrs.value)
    ensures UniqueNames(r.attrs.value) && !Rehostable(r.attrs.value)
    ensures Lookup(r.attrs.value, "src") == Some(MediaUrlPrefix + MediaFileName(Lookup(seg.attrs.value, "data-filename").value, None, now))
    ensures forall a :: a in seg.attrs.value && a.name != "src" && a.name != "data-filename" ==> a in r.attrs.value
  {
    var attrs := seg.attrs.value;
    var path := MediaUrlPrefix + MediaFileName(Lookup(attrs, "data-filename").value, None, now);
    var rehosted := Rehosted(attrs, path);
    RehostedLookups(attrs, path);
    Img(OuterXml(seg.name, rehosted), seg.name, Some(rehosted))
  }

  /** After the rewrite `src` holds the new address and `data-filename` is
      gone. */
  lemma RehostedLookups(attrs: seq<Attr>, path: string)
    requires UniqueNames(attrs) && Lookup(attrs, "src").Some?
    ensures Lookup(Rehosted(attrs, path), "src") == Some(path)
    ensures Lookup(Rehosted(attrs, path), "data-filename").None?
  {
    var r := Rehosted(attrs, path);
    var k := AttrIndex(attrs, "src");
    assert attrs[k] in attrs;
    assert Attr("src", path) in r;
    var s := Lookup(r, "src");
    assert Attr("src", s.value) in r;
  }


  /** A tag the loop rewrites: it parses, with unique attribute names, and
      is rehostable. */
  predicate Rewrites(seg: Segment) {
    seg.Img? && seg.attrs.Some? && UniqueNames(seg.attrs.value) && Rehostable(seg.attrs.value)
  }

  /** A segment the loop gets past without an exception about its markup:
      text, or a tag that parses with unique attribute names. */
  predicate Parses(seg: Segment) {
    seg.Text? || (seg.attrs.Some? && UniqueNames(seg.attrs.value))
  }

  /** A segment a pass leaves as it is: text, or a parsed tag that is not
      rewritten. */
  predicate Settled(seg: Segment) {
    seg.Text? || (seg.attrs.Some? && UniqueNames(seg.attrs.value) && !Rehostable(seg.attrs.value))
  }

  /** A tag that parses and is not rewritten is settled. */
  lemma ParsedSettles(seg: Segment)
    requires Parses(seg) && !Rewrites(seg)
    ensures Settled(seg)
  {
  }

  /** The name the bytes of a rewritten tag are saved under at `now`. */
  function SavedName(seg: Segment, now: Ticks): string
    requires Rewrites(seg)
  {
    MediaFileName(Lookup(seg.attrs.value, "data-filename").value, None, now)
  }

  /** The bytes of a rewritten tag: its data URI's payload, decoded. */
  function SavedBytes(seg: Segment, decode: string -> Option<seq<byte>>): Option<seq<byte>>
    requires Rewrites(seg)
  {
    decode(DataUri(Lookup(seg.attrs.value, "src").value).value)
  }

  // The segments of the content

  /** `content.Replace(raw, tag, StringComparison.OrdinalIgnoreCase)` on the
      segments: every segment whose text is `raw`, ignoring case, becomes
      `tag`, wherever it is. */
  function ReplaceCopies(cur: seq<Segment>, raw: string, tag: Segment): (r: seq<Segment>)
    ensures |r| == |cur|
    ensures forall k :: 0 <= k < |cur| ==> r[k] == (if EqualsIgnoreCase(SegmentText(cur[k]), raw) then tag else cur[k])
  {
    seq(|cur|, k requires 0 <= k < |cur| => if EqualsIgnoreCase(SegmentText(cur[k]), raw) then tag else cur[k])
  }

  /** What each turn of the loop puts in place of the copies of its tag:
      the rewrite of a tag it rewrites, at the time of its turn, and nothing
      for any other. */
  function Plan(body: seq<Segment>, times: seq<Ticks>): (p: seq<Option<Segment>>)
    requires |times| >= |body|
    ensures |p| == |body|
  {
    seq(|body|, i requires 0 <= i < |body| => if Rewrites(body[i]) then Some(Rewritten(body[i], times[i])) else None)
  }

  /** The segments of the content after the first `n` turns of the loop,
      each turn putting what `plan` says in place of every segment with its
      tag's text, ignoring case. The tags are the ones the search found in
      the content before the loop: turn `i` works on `body[i]`, whatever
      earlier turns wrote over it. */
  function Segs(body: seq<Segment>, plan: seq<Option<Segment>>, n: nat): (r: seq<Segment>)
    requires n <= |body| == |plan|
    ensures |r| == |body|
    decreases n
  {
    if n == 0 then body
    else
      var cur := Segs(body, plan, n - 1);
      match plan[n - 1]
      case None => cur
      case Some(tag) => ReplaceCopies(cur, SegmentText(body[n - 1]), tag)
  }

  /** A segment whose text no tag of the plan has, ignoring case, stays as
      it was. */
  lemma {:induction false} SegsKeep(body: seq<Segment>, plan: seq<Option<Segment>>, n: nat, k: nat)
    requires n <= |body| == |plan| && k < |body|
    requires forall j :: 0 <= j < n && plan[j].Some? ==> !EqualsIgnoreCase(SegmentText(body[k]), SegmentText(body[j]))
    ensures Segs(body, plan, n)[k] == body[k]
    decreases n
  {
    if n > 0 {
      SegsKeep(body, plan, n - 1, k);
    }
  }

  /** Once a segment holds `tag`, it keeps it through every later turn of
      the plan whose tag does not have the text of `tag`, ignoring case. */
  lemma {:induction false} SegsHold(body: seq<Segment>, plan: seq<Option<Segment>>, i: nat, n: nat, k: nat, tag: Segment)
    requires i <= n <= |body| == |plan| && k < |body| && Segs(body, plan, i)[k] == tag
    requires forall j :: i <= j < n && plan[j].Some? ==> !EqualsIgnoreCase(SegmentText(tag), SegmentText(body[j]))
    ensures Segs(body, plan, n)[k] == tag
    decreases n
  {
    if i < n {
      SegsHold(body, plan, i, n - 1, k, tag);
    }
  }

  /** After `n` turns each segment is what the plan put there, or the
      segment as it was, and then the plan had nothing for it if its own
      turn has come. */
  lemma {:induction false} SegsShape(body: seq<Segment>, plan: seq<Option<Segment>>, n: nat, k: nat)
    requires n <= |body| == |plan| && k < |body|
    ensures var seg := Segs(body, plan, n)[k];
      || (seg == body[k] && (k < n ==> plan[k].None?))
      || exists i :: 0 <= i < n && plan[i] == Some(seg)
    decreases n
  {
    if n > 0 {
      SegsShape(body, plan, n - 1, k);
      var seg := Segs(body, plan, n - 1)[k];
      var next := Segs(body, plan, n)[k];
      if plan[n - 1].Some? && EqualsIgnoreCase(SegmentText(seg), SegmentText(body[n - 1])) {
        assert next == plan[n - 1].value;
        assert 0 <= n - 1 < n && plan[n - 1] == Some(next);
      } else {
        assert next == seg;
        if k == n - 1 && seg == body[k] {
          SelfMatch(seg);
        }
        if exists i :: 0 <= i < n - 1 && plan[i] == Some(seg) {
          var i :| 0 <= i < n - 1 && plan[i] == Some(seg);
          assert 0 <= i < n;
        }
      }
    }
  }

  /** The copies of a tag of the plan, in any case, that no earlier tag of
      the plan matches, hold its rewrite after the last turn, as long as no
      later tag of the plan has the text of that rewrite. */
  lemma {:induction false} SegsCopies(body: seq<Segment>, plan: seq<Option<Segment>>, i: nat, k: nat, tag: Segment)
    requires |body| == |plan| && i < |body| && k < |body| && plan[i] == Some(tag)
    requires EqualsIgnoreCase(SegmentText(body[k]), SegmentText(body[i]))
    requires forall j :: 0 <= j < i && plan[j].Some? ==> !EqualsIgnoreCase(SegmentText(body[k]), SegmentText(body[j]))
    requires forall j :: i < j < |body| && plan[j].Some? ==> !EqualsIgnoreCase(SegmentText(tag), SegmentText(body[j]))
    ensures Segs(body, plan, |body|)[k] == tag
  {
    SegsKeep(body, plan, i, k);
    assert Segs(body, plan, i + 1)[k] == tag;
    SegsHold(body, plan, i + 1, |body|, k, tag);
  }

  /** Every text equals itself, ignoring case. */
  lemma SelfMatch(seg: Segment)
    ensures EqualsIgnoreCase(SegmentText(seg), SegmentText(seg))
  {
  }

  /** A plan with nothing in it leaves the segments as they were. */
  lemma {:induction false} SegsEmptyPlan(body: seq<Segment>, plan: seq<Option<Segment>>, n: nat)
    requires n <= |body| == |plan| && forall i :: 0 <= i < n ==> plan[i].None?
    ensures Segs(body, plan, n) == body
    decreases n
  {
    if n > 0 {
      SegsEmptyPlan(body, plan, n - 1);
    }
  }

  /** Over settled segments the plan is empty. */
  lemma PlanSettled(body: seq<Segment>, times: seq<Ticks>)
    requires |times| >= |body| && forall i :: 0 <= i < |body| ==> Settled(body[i])
    ensures forall i :: 0 <= i < |body| ==> Plan(body, times)[i].None?
  {
  }

  // The media folder

  /** What one turn of the loop does about files: nothing, save `bytes`
      under `name` through `SaveFile`, or throw. */
  datatype FileTurn = NoFile | Throw(error: Error) | Store(name: string, bytes: seq<byte>)

  /** The turn for the tag `seg` at `now`: nothing for text and for a tag
      that is not rehostable; `FormatException` for markup that does not
      parse and for a payload that does not decode; otherwise the decoded
      bytes under the name `SaveFile` makes from the tag's file name. */
  function TurnFile(seg: Segment, decode: string -> Option<seq<byte>>, now: Ticks): FileTurn {
    match seg
    case Text(_) => NoFile
    case Img(raw, _, parsed) =>
      if parsed.None? || !UniqueNames(parsed.value) then Throw(BadFormat)
      else if !Rehostable(parsed.value) then NoFile
      else
        var attrs := parsed.value;
        match decode(DataUri(Lookup(attrs, "src").value).value)
        case None => Throw(BadFormat)
        case Some(bytes) => Store(MediaFileName(Lookup(attrs, "data-filename").value, None, now), bytes)
  }

  /** The turn, case by case: markup that does not parse throws, a settled
      segment saves nothing, and a tag the loop rewrites saves its bytes
      under its name or throws when they do not decode. */
  lemma TurnFileCases(seg: Segment, decode: string -> Option<seq<byte>>, now: Ticks)
    ensures !Parses(seg) ==> TurnFile(seg, decode, now) == Throw(BadFormat)
    ensures Settled(seg) ==> TurnFile(seg, decode, now) == NoFile
    ensures Rewrites(seg) ==> (TurnFile(seg, decode, now) ==
      (if SavedBytes(seg, decode).None? then Throw(BadFormat) else Store(SavedName(seg, now), SavedBytes(seg, decode).value)))
  {
  }

  /** A turn that saves a file is the turn of a tag the loop rewrites, and
      saves its bytes under its name. */
  lemma {:induction false} StoreRewrites(seg: Segment, decode: string -> Option<seq<byte>>, now: Ticks)
    requires TurnFile(seg, decode, now).Store?
    ensures Rewrites(seg) && SavedBytes(seg, decode).Some?
    ensures TurnFile(seg, decode, now) == Store(SavedName(seg, now), SavedBytes(seg, decode).value)
  {
    TurnFileCases(seg, decode, now);
    if Parses(seg) && !Rewrites(seg) {
      ParsedSettles(seg);
    }
  }

  /** `SaveFile` for a turn: `IOException` when the name is taken. */
  function SaveTurn(t: FileTurn, media: map<string, seq<byte>>): (r: Result<map<string, seq<byte>>, Error>)
    ensures r.Ok? ==> forall k :: k in media ==> k in r.value && r.value[k] == media[k]
  {
    match t
    case NoFile => Ok(media)
    case Throw(e) => Err(e)
    case Store(name, bytes) => if name in media then Err(FileExists) else Ok(media[name := bytes])
  }

  /** The turns of the loop, one per tag the search found, at the times of
      their turns. */
  function FilePlan(body: seq<Segment>, decode: string -> Option<seq<byte>>, times: seq<Ticks>): (p: seq<FileTurn>)
    requires |times| >= |body|
    ensures |p| == |body|
  {
    seq(|body|, i requires 0 <= i < |body| => TurnFile(body[i], decode, times[i]))
  }

  /** The media folder after the first `n` turns, or the exception that
      ended them. */
  function Saves(plan: seq<FileTurn>, media: map<string, seq<byte>>, n: nat): (r: Result<map<string, seq<byte>>, Error>)
    requires n <= |plan|
    ensures r.Ok? ==> forall k :: k in media ==> k in r.value && r.value[k] == media[k]
    decreases n
  {
    if n == 0 then Ok(media)
    else
      match Saves(plan, media, n - 1)
      case Err(e) => Err(e)
      case Ok(m) => SaveTurn(plan[n - 1], m)
  }

  /** The first exception ends the loop: once the first `j` turns fail, any
      longer run fails with the same exception. */
  lemma {:induction false} RehostStopsAtError(plan: seq<FileTurn>, media: map<string, seq<byte>>, j: nat, n: nat)
    requires j <= n <= |plan| && Saves(plan, media, j).Err?
    ensures Saves(plan, media, n) == Saves(plan, media, j)
    decreases n
  {
    if j < n {
      RehostStopsAtError(plan, media, j, n - 1);
    }
  }

  /** Turns that succeed throw at none of their tags. */
  lemma {:induction false} SavesNoThrow(plan: seq<FileTurn>, media: map<string, seq<byte>>, n: nat)
    requires n <= |plan| && Saves(plan, media, n).Ok?
    ensures forall i :: 0 <= i < n ==> !plan[i].Throw?
    decreases n
  {
    if n > 0 {
      SavesNoThrow(plan, media, n - 1);
    }
  }

  /** The turns before a turn that succeeds succeeded. */
  lemma {:induction false} SavesOkBefore(plan: seq<FileTurn>, media: map<string, seq<byte>>, j: nat, n: nat)
    requires j <= n <= |plan| && Saves(plan, media, n).Ok?
    ensures Saves(plan, media, j).Ok?
    decreases n
  {
    if j < n {
      SavesOkBefore(plan, media, j, n - 1);
    }
  }

  /** Turns that succeed keep every file the folder held before them. */
  lemma {:induction false} SavesKeepFrom(plan: seq<FileTurn>, media: map<string, seq<byte>>, j: nat, n: nat, name: string, bytes: seq<byte>)
    requires j <= n <= |plan| && Saves(plan, media, n).Ok? && Saves(plan, media, j).Ok?
    requires name in Saves(plan, media, j).value && Saves(plan, media, j).value[name] == bytes
    ensures name in Saves(plan, media, n).value && Saves(plan, media, n).value[name] == bytes
    decreases n
  {
    if j < n {
      SavesOkBefore(plan, media, n - 1, n);
      SavesKeepFrom(plan, media, j, n - 1, name, bytes);
    }
  }

  /** A turn that saves a file, among turns that succeed: the folder after
      them holds the file. */
  lemma {:induction false} SavesStoreAt(plan: seq<FileTurn>, media: map<string, seq<byte>>, n: nat, i: nat)
    requires i < n <= |plan| && Saves(plan, media, n).Ok? && plan[i].Store?
    ensures plan[i].name in Saves(plan, media, n).value && Saves(plan, media, n).value[plan[i].name] == plan[i].bytes
  {
    SavesOkBefore(plan, media, i + 1, n);
    assert Saves(plan, media, i + 1) == SaveTurn(plan[i], Saves(plan, media, i).value);
    SavesKeepFrom(plan, media, i + 1, n, plan[i].name, plan[i].bytes);
  }

  /** A file in the folder after the turns was there before them or was
      saved by one of them. */
  lemma {:induction false} SavesOnly(plan: seq<FileTurn>, media: map<string, seq<byte>>, n: nat, name: string)
    requires n <= |plan| && Saves(plan, media, n).Ok? && name in Saves(plan, media, n).value
    ensures name in media || exists i :: 0 <= i < n && plan[i].Store? && plan[i].name == name
    decreases n
  {
    if n > 0 {
      var prev := Saves(plan, media, n - 1).value;
      if name in prev {
        SavesOnly(plan, media, n - 1, name);
        if !(name in media) {
          var i :| 0 <= i < n - 1 && plan[i].Store? && plan[i].name == name;
          assert 0 <= i < n;
        }
      } else {
        assert 0 <= n - 1 < n && plan[n - 1].Store? && plan[n - 1].name == name;
      }
    }
  }

  /** Turns that all skip save nothing. */
  lemma {:induction false} SavesNoFile(plan: seq<FileTurn>, media: map<string, seq<byte>>, n: nat)
    requires n <= |plan| && forall i :: 0 <= i < n ==> plan[i] == NoFile
    ensures Saves(plan, media, n) == Ok(media)
    decreases n
  {
    if n > 0 {
      SavesNoFile(plan, media, n - 1);
    }
  }

  // The whole loop

  /** The whole loop: the segments of the content and the media folder
      after it, or the exception that ended it. */
  function Rehost(body: seq<Segment>, media: map<string, seq<byte>>, decode: string -> Option<seq<byte>>, times: seq<Ticks>)
    : (r: Result<(seq<Segment>, map<string, seq<byte>>), Error>)
    requires |times| >= |body|
    ensures r.Ok? ==> |r.value.0| == |body|
    ensures r.Ok? ==> forall k :: k in media ==> k in r.value.1 && r.value.1[k] == media[k]
  {
    match Saves(FilePlan(body, decode, times), media, |body|)
    case Err(e) => Err(e)
    case Ok(m) => Ok((Segs(body, Plan(body, times), |body|), m))
  }

  /** Where a loop that throws stops: its first `i` turns went through,
      leaving the folder `m` and the content `content`, and turn `i` throws,
      before it writes anything. */
  predicate StoppedAt(body: seq<Segment>, media: map<string, seq<byte>>, decode: string -> Option<seq<byte>>,
                      times: seq<Ticks>, i: nat, m: map<string, seq<byte>>, content: string)
    requires |times| >= |body|
  {
    && i < |body|
    && Saves(FilePlan(body, decode, times), media, i) == Ok(m)
    && Saves(FilePlan(body, decode, times), media, i + 1).Err?
    && content == Render(Segs(body, Plan(body, times), i))
  }

  /** A loop that stops throws the exception of the turn it stops at, and
      leaves every file the folder held, with only files that earlier turns
      saved added to them. */
  lemma {:induction false} StoppedThrows(body: seq<Segment>, media: map<string, seq<byte>>, decode: string -> Option<seq<byte>>,
                                         times: seq<Ticks>, i: nat, m: map<string, seq<byte>>, content: string)
    requires |times| >= |body| && StoppedAt(body, media, decode, times, i, m, content)
    ensures Rehost(body, media, decode, times) == Err(SaveTurn(FilePlan(body, decode, times)[i], m).error)
    ensures forall k :: k in media ==> k in m && m[k] == media[k]
    ensures forall k :: k in m && k !in media ==> exists j :: 0 <= j < i && FilePlan(body, decode, times)[j] == Store(k, m[k])
  {
    var plan := FilePlan(body, decode, times);
    RehostStopsAtError(plan, media, i + 1, |body|);
    forall k | k in m && k !in media
      ensures exists j :: 0 <= j < i && plan[j] == Store(k, m[k])
    {
      SavesOnly(plan, media, i, k);
      var j :| 0 <= j < i && plan[j].Store? && plan[j].name == k;
      SavesStoreAt(plan, media, i, j);
    }
  }

  /** Two turns that are each the first to throw are the same turn. */
  lemma {:induction false} ThrowsOnce(plan: seq<FileTurn>, media: map<string, seq<byte>>, i: nat, j: nat)
    requires i < |plan| && Saves(plan, media, i).Ok? && Saves(plan, media, i + 1).Err?
    requires j < |plan| && Saves(plan, media, j).Ok? && Saves(plan, media, j + 1).Err?
    ensures i == j
  {
    if i < j {
      RehostStopsAtError(plan, media, i + 1, j);
    } else if j < i {
      RehostStopsAtError(plan, media, j + 1, i);
    }
  }

  /** The first of `n` turns that throw to throw. */
  function ThrowTurn(plan: seq<FileTurn>, media: map<string, seq<byte>>, n: nat): (i: nat)
    requires n <= |plan| && Saves(plan, media, n).Err?
    ensures i < n && Saves(plan, media, i).Ok? && Saves(plan, media, i + 1).Err?
    decreases n
  {
    if Saves(plan, media, n - 1).Err? then ThrowTurn(plan, media, n - 1) else n - 1
  }

  /** The folder and the content a loop that throws leaves: those of the
      turns before the first that throws. No file the folder held is lost. */
  function Stopped(body: seq<Segment>, media: map<string, seq<byte>>, decode: string -> Option<seq<byte>>,
                   times: seq<Ticks>): (r: (map<string, seq<byte>>, string))
    requires |times| >= |body| && Rehost(body, media, decode, times).Err?
    ensures forall k :: k in media ==> k in r.0 && r.0[k] == media[k]
  {
    var plan := FilePlan(body, decode, times);
    var i := ThrowTurn(plan, media, |body|);
    (Saves(plan, media, i).value, Render(Segs(body, Plan(body, times), i)))
  }

  /** The turn a loop stops at is the first that throws, so the folder and
      the content it leaves are `Stopped`. */
  lemma {:induction false} StoppedIs(body: seq<Segment>, media: map<string, seq<byte>>, decode: string -> Option<seq<byte>>,
                                     times: seq<Ticks>, i: nat, m: map<string, seq<byte>>, content: string)
    requires |times| >= |body| && StoppedAt(body, media, decode, times, i, m, content)
    ensures Rehost(body, media, decode, times).Err?
    ensures Stopped(body, media, decode, times) == (m, content)
  {
    var plan := FilePlan(body, decode, times);
    RehostStopsAtError(plan, media, i + 1, |body|);
    ThrowsOnce(plan, media, i, ThrowTurn(plan, media, |body|));
  }

  /** A segment whose text no tag the loop rewrites has, ignoring case, is
      left as it was. */
  lemma {:induction false} RehostUntouched(body: seq<Segment>, media: map<string, seq<byte>>, decode: string -> Option<seq<byte>>, times: seq<Ticks>, k: nat)
    requires |times| >= |body| && Rehost(body, media, decode, times).Ok? && k < |body|
    requires forall j :: 0 <= j < |body| && Rewrites(body[j]) ==> !EqualsIgnoreCase(SegmentText(body[k]), SegmentText(body[j]))
    ensures Rehost(body, media, decode, times).value.0[k] == body[k]
  {
    PlanKeeps(body, times, k);
  }

  /** The plan leaves a segment whose text no tag the loop rewrites has. */
  lemma {:induction false} PlanKeeps(body: seq<Segment>, times: seq<Ticks>, k: nat)
    requires |times| >= |body| && k < |body|
    requires forall j :: 0 <= j < |body| && Rewrites(body[j]) ==> !EqualsIgnoreCase(SegmentText(body[k]), SegmentText(body[j]))
    ensures Segs(body, Plan(body, times), |body|)[k] == body[k]
  {
    SegsKeep(body, Plan(body, times), |body|, k);
  }

  /** A tag that occurs more than once, in any case: the first copy the loop
      rewrites has its rewrite, pointing at the file saved at its turn, put
      in place of every copy, earlier or later, as long as no later tag the
      loop rewrites has the text of that rewrite. */
  lemma {:induction false} RehostCopies(body: seq<Segment>, media: map<string, seq<byte>>, decode: string -> Option<seq<byte>>, times: seq<Ticks>,
                     i: nat, k: nat)
    requires |times| >= |body| && Rehost(body, media, decode, times).Ok? && i < |body| && k < |body|
    requires Rewrites(body[i]) && EqualsIgnoreCase(SegmentText(body[k]), SegmentText(body[i]))
    requires forall j :: 0 <= j < i && Rewrites(body[j]) ==> !EqualsIgnoreCase(SegmentText(body[k]), SegmentText(body[j]))
    requires forall j :: i < j < |body| && Rewrites(body[j]) ==>
      !EqualsIgnoreCase(SegmentText(Rewritten(body[i], times[i])), SegmentText(body[j]))
    ensures Rehost(body, media, decode, times).value.0[k] == Rewritten(body[i], times[i])
  {
    SegsCopies(body, Plan(body, times), i, k, Rewritten(body[i], times[i]));
  }

  /** Segment by segment, what a pass that succeeds leaves: each segment is
      settled, and is the segment as it was or the rewrite of a tag the loop
      rewrote. */
  lemma {:induction false} RehostSegments(body: seq<Segment>, media: map<string, seq<byte>>, decode: string -> Option<seq<byte>>, times: seq<Ticks>, k: nat)
    requires |times| >= |body| && Rehost(body, media, decode, times).Ok? && k < |body|
    ensures var out := Rehost(body, media, decode, times).value.0;
      && Settled(out[k])
      && (out[k] == body[k] || exists i :: 0 <= i < |body| && Rewrites(body[i]) && out[k] == Rewritten(body[i], times[i]))
  {
    var plan := Plan(body, times);
    var seg := Segs(body, plan, |body|)[k];
    SegsShape(body, plan, |body|, k);
    if exists i :: 0 <= i < |body| && plan[i] == Some(seg) {
      var i :| 0 <= i < |body| && plan[i] == Some(seg);
      assert Rewrites(body[i]) && seg == Rewritten(body[i], times[i]);
    } else {
      assert seg == body[k] && plan[k].None?;
      var files := FilePlan(body, decode, times);
      SavesNoThrow(files, media, |body|);
      assert !files[k].Throw?;
      TurnFileCases(body[k], decode, times[k]);
      ParsedSettles(body[k]);
    }
  }

  /** The media folder after a pass that succeeds: every file it held, and
      for each tag rewritten, the tag's bytes under the name saved at its
      turn, and nothing else. A tag that occurs twice stores its bytes
      twice. */
  lemma {:induction false} RehostFiles(body: seq<Segment>, media: map<string, seq<byte>>, decode: string -> Option<seq<byte>>, times: seq<Ticks>)
    requires |times| >= |body| && Rehost(body, media, decode, times).Ok?
    ensures var m := Rehost(body, media, decode, times).value.1;
      && (forall i :: 0 <= i < |body| && Rewrites(body[i]) ==>
            && SavedName(body[i], times[i]) in m && SavedBytes(body[i], decode).Some?
            && m[SavedName(body[i], times[i])] == SavedBytes(body[i], decode).value)
      && (forall name :: name in m ==> name in media || exists i :: 0 <= i < |body| && Rewrites(body[i]) && name == SavedName(body[i], times[i]))
  {
    var files := FilePlan(body, decode, times);
    var m := Rehost(body, media, decode, times).value.1;
    SavesNoThrow(files, media, |body|);
    forall i | 0 <= i < |body| && Rewrites(body[i])
      ensures SavedName(body[i], times[i]) in m && SavedBytes(body[i], decode).Some?
      ensures m[SavedName(body[i], times[i])] == SavedBytes(body[i], decode).value
    {
      assert files[i] == TurnFile(body[i], decode, times[i]) && !files[i].Throw?;
      TurnFileCases(body[i], decode, times[i]);
      SavesStoreAt(files, media, |body|, i);
    }
    forall name | name in m
      ensures name in media || exists i :: 0 <= i < |body| && Rewrites(body[i]) && name == SavedName(body[i], times[i])
    {
      SavesOnly(files, media, |body|, name);
      if name !in media {
        var i :| 0 <= i < |body| && files[i].Store? && files[i].name == name;
        assert files[i] == TurnFile(body[i], decode, times[i]);
        StoreRewrites(body[i], decode, times[i]);
      }
    }
  }

  /** A pass over settled segments changes nothing and saves nothing. */
  lemma {:induction false} RehostSettled(body: seq<Segment>, media: map<string, seq<byte>>, decode: string -> Option<seq<byte>>, times: seq<Ticks>)
    requires |times| >= |body| && forall i :: 0 <= i < |body| ==> Settled(body[i])
    ensures Rehost(body, media, decode, times) == Ok((body, media))
  {
    var files := FilePlan(body, decode, times);
    forall i | 0 <= i < |body| ensures files[i] == NoFile {
      TurnFileCases(body[i], decode, times[i]);
    }
    SavesNoFile(files, media, |body|);
    PlanSettled(body, times);
    SegsEmptyPlan(body, Plan(body, times), |body|);
  }

  /** Rehosting is idempotent: a second pass over the result, at any time
      and whatever the folder holds, changes no tag and saves no file. */
  lemma {:induction false} RehostIdempotent(body: seq<Segment>, media: map<string, seq<byte>>, decode: string -> Option<seq<byte>>,
                         times: seq<Ticks>, media2: map<string, seq<byte>>, times2: seq<Ticks>)
    requires |times| >= |body| && |times2| >= |body| && Rehost(body, media, decode, times).Ok?
    ensures var out := Rehost(body, media, decode, times).value.0;
      Rehost(out, media2, decode, times2) == Ok((out, media2))
  {
    var out := Rehost(body, media, decode, times).value.0;
    forall i | 0 <= i < |out| ensures Settled(out[i]) {
      RehostSegments(body, media, decode, times, i);
    }
    RehostSettled(out, media2, decode, times2);
  }
}
