/** The post file `SavePost` writes and `LoadPosts` reads, one per post,
    named after the post's id. The file is modelled by what the loader can
    find in it: each element or attribute is absent, present with a value,
    or (for the parsed ones) present with text the parser refuses. Dates are
    the milliseconds that `FormatDateTime` writes. Texts are the ones the
    XML reader gives back, with its line-end and white-space handling. */
module Storage {
  import opened Wrappers
  import opened Text
  import opened Ids
  import opened Comments
  import opened Posts

  /** An element or attribute whose text is parsed: `Guid`, `bool` or a date. */
  datatype Field<T> = Absent | Present(value: T) | Malformed

  /** A `<comment>` element: its `id` and `isAdmin` attributes and its
      `author`, `email`, `date` and `content` children. */
  datatype CommentFile = CommentFile(
    id: Field<Guid>,
    isAdmin: Field<bool>,
    author: Option<string>,
    email: Option<string>,
    date: Field<nat>,
    content: Option<string>)

  /** A `<post>` document. */
  datatype PostFile = PostFile(
    title: Option<string>,
    slug: Option<string>,
    pubDate: Field<nat>,
    lastModified: Field<nat>,
    excerpt: Option<string>,
    content: Option<string>,
    isPublished: Field<bool>,
    categories: Option<seq<string>>,
    tags: Option<seq<string>>,
    comments: Option<seq<CommentFile>>)

  const TicksPerSecond: nat := 10_000_000

  /** `DateTime.Parse(DateTime.UtcNow.ToString(InvariantCulture))`: the
      invariant format has no fraction of a second. */
  function ToTheSecond(now: Ticks): (t: Ticks)
    ensures t <= now < t + TicksPerSecond && t % TicksPerSecond == 0
  {
    now / TicksPerSecond * TicksPerSecond
  }

  /** XML's white space: space, tab, carriage return and line feed. */
  predicate IsXmlSpace(c: char) {
    c == ' ' || c == '\t' || c == '\r' || c == '\n'
  }

  predicate IsXmlBlank(s: string) {
    forall i :: 0 <= i < |s| ==> IsXmlSpace(s[i])
  }

  /** Line ends after writing and reading back: the writer puts its new-line
      text for every `\r\n`, `\r` and `\n`, and the reader reports each line
      end as `\n`. */
  function NewlinesNormalized(s: string): (r: string)
    ensures forall i :: 0 <= i < |r| ==> r[i] != '\r'
    decreases |s|
  {
    if s == [] then ""
    else if s[0] == '\r' then "\n" + NewlinesNormalized(if |s| >= 2 && s[1] == '\n' then s[2..] else s[1..])
    else [s[0]] + NewlinesNormalized(s[1..])
  }

  /** An element's text as `XElement.Load` gives it back: line ends
      normalised, and a text of white space only dropped, since the loader
      keeps no insignificant white space. */
  function LoadedText(s: string): (r: string)
    ensures forall i :: 0 <= i < |r| ==> r[i] != '\r'
    ensures r == [] || !IsXmlBlank(r)
  {
    if IsXmlBlank(s) then "" else
      BlankNormalized(s);
      NewlinesNormalized(s)
  }

  function LoadedTexts(xs: seq<string>): (r: seq<string>)
    ensures |r| == |xs|
  {
    seq(|xs|, i requires 0 <= i < |xs| => LoadedText(xs[i]))
  }

  /** Normalising line ends keeps a text blank or not blank. */
  lemma {:induction false} BlankNormalized(s: string)
    ensures IsXmlBlank(NewlinesNormalized(s)) <==> IsXmlBlank(s)
    decreases |s|
  {
    if s != [] {
      var rest := if s[0] == '\r' && |s| >= 2 && s[1] == '\n' then s[2..] else s[1..];
      BlankNormalized(rest);
      var head := if s[0] == '\r' then "\n" else [s[0]];
      assert NewlinesNormalized(s) == head + NewlinesNormalized(rest);
      BlankConcat(head, NewlinesNormalized(rest));
      if s[0] == '\r' && |s| >= 2 && s[1] == '\n' {
        BlankConcat(s[..2], s[2..]);
        assert s[..2] + s[2..] == s;
      } else {
        BlankConcat(s[..1], s[1..]);
        assert s[..1] + s[1..] == s;
      }
    }
  }

  lemma BlankConcat(a: string, b: string)
    ensures IsXmlBlank(a + b) <==> IsXmlBlank(a) && IsXmlBlank(b)
  {
    if IsXmlBlank(a) && IsXmlBlank(b) {
      forall i | 0 <= i < |a + b| ensures IsXmlSpace((a + b)[i]) {
        if i >= |a| {
          assert (a + b)[i] == b[i - |a|];
        }
      }
    }
    if IsXmlBlank(a + b) {
      forall i | 0 <= i < |b| ensures IsXmlSpace(b[i]) {
        assert (a + b)[|a| + i] == b[i];
      }
      forall i | 0 <= i < |a| ensures IsXmlSpace(a[i]) {
        assert (a + b)[i] == a[i];
      }
    }
  }

  /** Text without a carriage return keeps its line ends. */
  lemma {:induction false} NewlinesKept(s: string)
    requires forall i :: 0 <= i < |s| ==> s[i] != '\r'
    ensures NewlinesNormalized(s) == s
    decreases |s|
  {
    if s != [] {
      NewlinesKept(s[1..]);
      assert [s[0]] + s[1..] == s;
    }
  }

  /** Text without a carriage return that is not white space alone comes
      back from the file as it was written. */
  lemma LoadedTextKept(s: string)
    requires (forall i :: 0 <= i < |s| ==> s[i] != '\r') && !IsXmlBlank(s)
    ensures LoadedText(s) == s
  {
    NewlinesKept(s);
  }

  /** Text read back is read back the same again. */
  lemma LoadedTextStable(s: string)
    ensures LoadedText(LoadedText(s)) == LoadedText(s)
  {
    var r := LoadedText(s);
    if r != [] {
      LoadedTextKept(r);
    }
  }

  /** A lower-cased slug read back is read back the same again. */
  lemma LoadedLowerStable(s: string)
    ensures LoadedText(Lower(LoadedText(s))) == Lower(LoadedText(s))
  {
    var r := LoadedText(s);
    var l := Lower(r);
    if r != [] {
      var k :| 0 <= k < |r| && !IsXmlSpace(r[k]);
      assert !IsXmlSpace(l[k]);
      LoadedTextKept(l);
    }
  }

  /** The `<comment>` element `SavePost` writes for a comment. */
  function CommentToFile(c: Comment): CommentFile {
    CommentFile(Present(c.id), Present(c.isAdmin), Some(LoadedText(c.author)), Some(LoadedText(c.email)),
      Present(StoredMillis(c.publishDate)), Some(LoadedText(c.content)))
  }

  /** The post document `SavePost` writes; the author is not written. */
  function PostToFile(v: PostValue): PostFile {
    PostFile(Some(LoadedText(v.title)), Some(LoadedText(v.slug)), Present(StoredMillis(v.publishDate)),
      Present(StoredMillis(v.lastModified)), Some(LoadedText(v.excerpt)), Some(LoadedText(v.content)),
      Present(v.isPublished), Some(LoadedTexts(v.categories)), Some(LoadedTexts(v.tags)),
      Some(seq(|v.comments|, i requires 0 <= i < |v.comments| => CommentToFile(v.comments[i]))))
  }

  /** `LoadComments` for one element: a missing or unreadable id, and an
      unreadable flag or date, throw; a missing flag is `false`, a missing
      date 2000-01-01, missing text empty. */
  function ReadComment(f: CommentFile): (r: Result<Comment, Error>)
    ensures r.Ok? <==> f.id.Present? && !f.isAdmin.Malformed? && !f.date.Malformed?
    ensures r.Ok? ==> r.value.id == f.id.value
    ensures r.Err? ==> r.error == BadFormat
  {
    if !f.id.Present? || f.isAdmin.Malformed? || f.date.Malformed? then Err(BadFormat)
    else Ok(Comment(
      f.id.value,
      if f.isAdmin.Present? then f.isAdmin.value else false,
      f.author.GetOr(""),
      f.email.GetOr(""),
      f.content.GetOr(""),
      if f.date.Present? then FromMillis(f.date.value) else Year2000))
  }

  /** The comments of a `<comments>` element, in order; the first bad one throws. */
  function ReadComments(fs: seq<CommentFile>): (r: Result<seq<Comment>, Error>)
    ensures r.Ok? <==> forall i :: 0 <= i < |fs| ==> ReadComment(fs[i]).Ok?
    ensures r.Ok? ==> |r.value| == |fs| && forall i :: 0 <= i < |fs| ==> r.value[i] == ReadComment(fs[i]).value
    ensures r.Err? ==> r.error == BadFormat
  {
    if fs == [] then Ok([])
    else match (ReadComment(fs[0]), ReadComments(fs[1..]))
      case (Ok(c), Ok(rest)) => Ok([c] + rest)
      case (Err(e), _) => Err(e)
      case (_, Err(e)) => Err(e)
  }

  /** The object initializer of `LoadPosts`: the post's scalar fields, with
      empty lists. The slug is lower-cased, a missing `lastModified` is now
      (to the second), a missing `ispublished` is true; a missing or
      unreadable `pubDate` throws, as do unreadable flags and dates. */
  function ReadHeader(id: Guid, f: PostFile, now: Ticks): (r: Result<PostValue, Error>)
    ensures r.Ok? <==> f.pubDate.Present? && !f.lastModified.Malformed? && !f.isPublished.Malformed?
    ensures r.Ok? ==>
      && r.value.id == id && r.value.author == "" && IsLower(r.value.slug)
      && r.value.categories == [] && r.value.tags == [] && r.value.comments == []
    ensures r.Err? ==> r.error == BadFormat
  {
    if !f.pubDate.Present? || f.lastModified.Malformed? || f.isPublished.Malformed? then Err(BadFormat)
    else
      LowerIsLower(f.slug.GetOr(""));
      Ok(PostValue(
        id,
        f.title.GetOr(""),
        "",
        f.content.GetOr(""),
        f.excerpt.GetOr(""),
        Lower(f.slug.GetOr("")),
        [], [], [],
        if f.isPublished.Present? then f.isPublished.value else true,
        FromMillis(f.pubDate.value),
        if f.lastModified.Present? then FromMillis(f.lastModified.value) else ToTheSecond(now)))
  }

  /** A whole post file: the header, then the categories, tags and comments
      when their elements are there. */
  function ReadPost(id: Guid, f: PostFile, now: Ticks): (r: Result<PostValue, Error>)
    ensures r.Ok? <==> ReadHeader(id, f, now).Ok? && (f.comments.Some? ==> ReadComments(f.comments.value).Ok?)
    ensures r.Ok? ==> r.value.id == id
  {
    match ReadHeader(id, f, now)
    case Err(e) => Err(e)
    case Ok(h) =>
      var comments := if f.comments.Some? then ReadComments(f.comments.value) else Ok([]);
      match comments
      case Err(e) => Err(e)
      case Ok(cs) => Ok(h.(categories := f.categories.GetOr([]), tags := f.tags.GetOr([]), comments := cs))
  }

  /** A comment as it comes back from its file: its texts as read back, the
      date to the millisecond. */
  function ReloadedComment(c: Comment): Comment {
    c.(author := LoadedText(c.author), email := LoadedText(c.email), content := LoadedText(c.content),
       publishDate := FromMillis(StoredMillis(c.publishDate)))
  }

  /** A post as it comes back from its file: no author, its texts as read
      back, the slug lower-cased, dates to the millisecond; the rest as it
      was, lists in order. */
  function Reloaded(v: PostValue): PostValue {
    v.(author := "", title := LoadedText(v.title), excerpt := LoadedText(v.excerpt),
       content := LoadedText(v.content), slug := Lower(LoadedText(v.slug)),
       categories := LoadedTexts(v.categories), tags := LoadedTexts(v.tags),
       publishDate := FromMillis(StoredMillis(v.publishDate)),
       lastModified := FromMillis(StoredMillis(v.lastModified)),
       comments := seq(|v.comments|, i requires 0 <= i < |v.comments| => ReloadedComment(v.comments[i])))
  }

  /** Saving a post and loading it back gives the post as `Reloaded` says. */
  lemma SaveLoadRoundTrip(v: PostValue, now: Ticks)
    ensures ReadPost(v.id, PostToFile(v), now) == Ok(Reloaded(v))
  {
    var f := PostToFile(v);
    var cs := f.comments.value;
    forall i | 0 <= i < |cs| ensures ReadComment(cs[i]) == Ok(ReloadedComment(v.comments[i])) { }
    var r := ReadComments(cs);
    assert r.Ok?;
    assert r.value == Reloaded(v).comments;
  }

  /** A reloaded post is saved and loaded again unchanged. */
  lemma ReloadedIsStable(v: PostValue)
    ensures Reloaded(Reloaded(v)) == Reloaded(v)
  {
    LowerIsLower(LoadedText(v.slug));
    LoadedLowerStable(v.slug);
    forall t: Ticks ensures FromMillis(StoredMillis(FromMillis(StoredMillis(t)))) == FromMillis(StoredMillis(t)) {
      DateRoundTrip(t, StoredMillis(t));
    }
    forall s: string ensures LoadedText(LoadedText(s)) == LoadedText(s) {
      LoadedTextStable(s);
    }
  }

  /** Missing elements take their defaults. */
  lemma LoadDefaults(id: Guid, ms: nat, now: Ticks)
    ensures var f := PostFile(None, None, Present(ms), Absent, None, None, Absent, None, None, None);
      ReadPost(id, f, now) == Ok(PostValue(id, "", "", "", "", "", [], [], [], true, FromMillis(ms), ToTheSecond(now)))
  {
  }

  /** A comment with only an id takes its defaults: not an administrator's,
      dated 2000-01-01. */
  lemma CommentDefaults(g: Guid)
    ensures ReadComment(CommentFile(Present(g), Absent, None, None, Absent, None))
      == Ok(Comment(g, false, "", "", "", Year2000))
  {
  }
}
