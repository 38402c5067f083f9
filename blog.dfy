/** `FileBlogService`: the in-memory list of posts, loaded from one file per
    post and written back on every save, and the folder of media files.

    The posts folder is a map from post id to the post's file, the media
    folder a map from file name to bytes. The clock and whether the reader
    is the signed-in administrator are parameters. */
module Blog {
  import opened Wrappers
  import opened Text
  import opened Encoding
  import opened Ids
  import opened Paths
  import opened Sequences
  import opened Comments
  import opened Posts
  import opened Storage

  const PostsFolder: string := "Data\\Posts"
  const FilesFolder: string := "files"

  /** The address `SaveFile` returns files under: `/Data\Posts/files/`. */
  const MediaUrlPrefix: string := "/" + PostsFolder + "/" + FilesFolder + "/"

  /** The `where` clauses of the post queries. */
  datatype Filter = Visible | InCategory(category: string) | WithTag(tag: string)

  /** Every query shows a post not dated after `now`, and published unless
      the reader is the administrator; the category and tag queries also
      want the label among the post's, ignoring case. */
  predicate Passes(p: PostItem, f: Filter, now: Ticks, isAdmin: bool)
    reads p
  {
    p.ShownTo(now, isAdmin) &&
    match f
    case Visible => true
    case InCategory(c) => ContainsIgnoreCase(p.categories, c)
    case WithTag(t) => ContainsIgnoreCase(p.tags, t)
  }

  /** The posts of `ps` that pass the filter, in the order of `ps`. */
  function Query(ps: seq<PostItem>, f: Filter, now: Ticks, isAdmin: bool): (r: seq<PostItem>)
    reads ps
    ensures |r| <= |ps|
    ensures forall p :: p in r ==> p in ps && Passes(p, f, now, isAdmin)
    ensures forall p :: p in ps && Passes(p, f, now, isAdmin) ==> p in r
  {
    if ps == [] then []
    else (if Passes(ps[0], f, now, isAdmin) then [ps[0]] else []) + Query(ps[1..], f, now, isAdmin)
  }

  /** A query of two lists is the query of the first followed by the query
      of the second: results keep the store's order. */
  lemma {:induction false} QueryConcat(a: seq<PostItem>, b: seq<PostItem>, f: Filter, now: Ticks, isAdmin: bool)
    ensures Query(a + b, f, now, isAdmin) == Query(a, f, now, isAdmin) + Query(b, f, now, isAdmin)
    decreases |a|
  {
    if a == [] {
      assert a + b == b;
    } else {
      assert (a + b)[0] == a[0];
      assert (a + b)[1..] == a[1..] + b;
      QueryConcat(a[1..], b, f, now, isAdmin);
    }
  }

  /** A query drops nothing from a list of passing posts and keeps nothing of
      a list of failing ones. */
  lemma {:induction false} QueryAllOrNone(ps: seq<PostItem>, f: Filter, now: Ticks, isAdmin: bool)
    ensures (forall i :: 0 <= i < |ps| ==> Passes(ps[i], f, now, isAdmin)) ==> Query(ps, f, now, isAdmin) == ps
    ensures (forall i :: 0 <= i < |ps| ==> !Passes(ps[i], f, now, isAdmin)) ==> Query(ps, f, now, isAdmin) == []
  {
    if ps != [] {
      QueryAllOrNone(ps[1..], f, now, isAdmin);
      assert [ps[0]] + ps[1..] == ps;
    }
  }

  /** How `GetPostById` and `GetPostBySlug` pick their post: the text of the
      id, or the slug, equal ignoring case. */
  datatype Key = ById(id: string) | BySlug(slug: string)

  predicate KeyMatches(p: PostItem, key: Key)
    reads p
  {
    match key
    case ById(t) => EqualsIgnoreCase(GuidText(p.id), t)
    case BySlug(s) => EqualsIgnoreCase(p.slug, s)
  }

  /** `FirstOrDefault`: the index of the first post the key matches, or
      `|ps|` when there is none. */
  function FirstMatch(ps: seq<PostItem>, key: Key): (k: nat)
    reads ps
    ensures k <= |ps|
    ensures k < |ps| ==> KeyMatches(ps[k], key)
    ensures forall j :: 0 <= j < k ==> !KeyMatches(ps[j], key)
  {
    if ps == [] then 0 else if KeyMatches(ps[0], key) then 0 else 1 + FirstMatch(ps[1..], key)
  }

  /** The first match, unless it is hidden from the reader: a later match is
      never returned instead. */
  function Find(ps: seq<PostItem>, key: Key, now: Ticks, isAdmin: bool): (r: Option<PostItem>)
    reads ps
    ensures r.Some? ==> r.value in ps && KeyMatches(r.value, key) && r.value.ShownTo(now, isAdmin)
    ensures r.Some? ==> exists k :: 0 <= k < |ps| && ps[k] == r.value && forall j :: 0 <= j < k ==> !KeyMatches(ps[j], key)
    ensures r.None? ==> forall k :: 0 <= k < |ps| && KeyMatches(ps[k], key) && ps[k].ShownTo(now, isAdmin) ==>
      exists j :: 0 <= j < k && KeyMatches(ps[j], key)
  {
    var k := FirstMatch(ps, key);
    if k == |ps| || !ps[k].ShownTo(now, isAdmin) then None else Some(ps[k])
  }

  /** Looking a post up by the text of a Guid, in any case, finds the first
      post with exactly that id. */
  lemma FirstMatchOfGuid(ps: seq<PostItem>, t: string, g: Guid)
    requires EqualsIgnoreCase(t, GuidText(g))
    ensures var k := FirstMatch(ps, ById(t));
      (k < |ps| ==> ps[k].id == g) && forall j :: 0 <= j < k ==> ps[j].id != g
  {
    var k := FirstMatch(ps, ById(t));
    forall j | 0 <= j <= k && j < |ps|
      ensures KeyMatches(ps[j], ById(t)) <==> ps[j].id == g
    {
      GuidTextEqualsIgnoreCase(ps[j].id, g);
    }
  }

  /** Which labels of a post `GetCategories` and `GetTags` collect. */
  datatype LabelKind = CategoryLabels | TagLabels

  function LabelsOf(p: PostItem, kind: LabelKind): seq<string>
    reads p
  {
    match kind
    case CategoryLabels => p.categories
    case TagLabels => p.tags
  }

  function Lowered(xs: seq<string>): (r: seq<string>)
    ensures |r| == |xs| && forall i :: 0 <= i < |xs| ==> r[i] == Lower(xs[i]) && IsLower(r[i])
  {
    assert forall i :: 0 <= i < |xs| ==> IsLower(Lower(xs[i])) by {
      forall i | 0 <= i < |xs| ensures IsLower(Lower(xs[i])) { LowerIsLower(xs[i]); }
    }
    seq(|xs|, i requires 0 <= i < |xs| => Lower(xs[i]))
  }

  /** `Where(p => p.IsPublished || isAdmin).SelectMany(labels).Select(ToLowerInvariant)`:
      every label of a published post (of any post, for the administrator),
      lower-cased, whatever its date. */
  function Labels(ps: seq<PostItem>, kind: LabelKind, isAdmin: bool): (r: seq<string>)
    reads ps
    ensures forall x :: x in r ==> IsLower(x)
    ensures forall k, j :: 0 <= k < |ps| && (ps[k].isPublished || isAdmin) && 0 <= j < |LabelsOf(ps[k], kind)| ==>
      Lower(LabelsOf(ps[k], kind)[j]) in r
  {
    if ps == [] then []
    else
      var rest := Labels(ps[1..], kind, isAdmin);
      var own := if ps[0].isPublished || isAdmin then Lowered(LabelsOf(ps[0], kind)) else [];
      assert forall k :: 1 <= k < |ps| ==> ps[k] == ps[1..][k - 1];
      own + rest
  }

  /** A collected label comes from a post the reader may see the labels of. */
  lemma {:induction false} LabelsFrom(ps: seq<PostItem>, kind: LabelKind, isAdmin: bool, x: string)
    requires x in Labels(ps, kind, isAdmin)
    ensures exists k, j ::
      && 0 <= k < |ps| && (ps[k].isPublished || isAdmin) && 0 <= j < |LabelsOf(ps[k], kind)|
      && x == Lower(LabelsOf(ps[k], kind)[j])
  {
    var own := if ps[0].isPublished || isAdmin then Lowered(LabelsOf(ps[0], kind)) else [];
    assert Labels(ps, kind, isAdmin) == own + Labels(ps[1..], kind, isAdmin);
    if x in own {
      var j :| 0 <= j < |own| && own[j] == x;
      assert x == Lower(LabelsOf(ps[0], kind)[j]);
    } else {
      LabelsFrom(ps[1..], kind, isAdmin, x);
      var k, j :| 0 <= k < |ps[1..]| && (ps[1..][k].isPublished || isAdmin) && 0 <= j < |LabelsOf(ps[1..][k], kind)|
        && x == Lower(LabelsOf(ps[1..][k], kind)[j]);
      assert ps[1..][k] == ps[k + 1];
    }
  }

  /** The characters `Path.GetInvalidFileNameChars` and
      `Path.GetInvalidPathChars` return on Windows: the control characters
      and `"<>|:*?\/`. */
  const InvalidFileNameChars: set<char> :=
    (set n: int | 0 <= n < 32 :: n as char) + {'"', '<', '>', '|', ':', '*', '?', '\\', '/'}

  /** `CleanFromInvalidChars`: every invalid character removed, the rest kept
      in order. */
  function CleanFromInvalidChars(s: string): (r: string)
    ensures |r| <= |s|
    ensures forall i :: 0 <= i < |r| ==> r[i] !in InvalidFileNameChars && r[i] in s
    ensures forall c :: c in s && c !in InvalidFileNameChars ==> c in r
  {
    forall c | c in s && c !in InvalidFileNameChars ensures c in Without(s, InvalidFileNameChars) {
      WithoutKeeps(s, InvalidFileNameChars, c);
    }
    Without(s, InvalidFileNameChars)
  }

  /** Cleaning a clean name changes nothing. */
  lemma CleanIdempotent(s: string)
    ensures CleanFromInvalidChars(CleanFromInvalidChars(s)) == CleanFromInvalidChars(s)
  {
    WithoutTwice(s, InvalidFileNameChars, InvalidFileNameChars);
    assert InvalidFileNameChars + InvalidFileNameChars == InvalidFileNameChars;
  }

  /** No character of `s` is invalid in a file name. */
  predicate IsCleanName(s: string) {
    forall i :: 0 <= i < |s| ==> s[i] !in InvalidFileNameChars
  }

  lemma CleanConcat(a: string, b: string)
    requires IsCleanName(a) && IsCleanName(b)
    ensures IsCleanName(a + b)
  {
    assert forall i :: 0 <= i < |a + b| ==> (a + b)[i] == if i < |a| then a[i] else b[i - |a|];
  }

  /** The name `SaveFile` stores a file under: the cleaned name without its
      extension, `_`, the cleaned suffix (by default the clock's ticks in
      decimal), then the extension as it was. Only the extension may hold
      characters that are invalid in a file name. */
  function MediaFileName(fileName: string, suffix: Option<string>, now: Ticks): (r: string)
    ensures var ext := GetExtension(fileName);
      |r| > |ext| && r[|r| - |ext|..] == ext && IsCleanName(r[..|r| - |ext|])
  {
    var sfx := CleanFromInvalidChars(suffix.GetOr(Decimal(now)));
    var ext := GetExtension(fileName);
    var name := CleanFromInvalidChars(GetFileNameWithoutExtension(fileName));
    NameParts(name, sfx, ext);
    name + "_" + sfx + ext
  }

  lemma NameParts(name: string, sfx: string, ext: string)
    requires IsCleanName(name) && IsCleanName(sfx)
    ensures var r := name + "_" + sfx + ext;
      |r| > |ext| && r[|r| - |ext|..] == ext && IsCleanName(r[..|r| - |ext|])
  {
    assert IsCleanName("_") by {
      assert '_' !in InvalidFileNameChars;
    }
    CleanConcat(name, "_");
    CleanConcat(name + "_", sfx);
    var r := name + "_" + sfx + ext;
    assert r[..|r| - |ext|] == name + "_" + sfx;
  }

  /** The middle of `p + a + e` is `a`. */
  lemma MiddleOf(p: string, a: string, b: string, e: string)
    requires p + a + e == p + b + e
    ensures a == b
  {
    var x := p + a + e;
    assert |a| == |b|;
    assert x[|p|..|p| + |a|] == a;
    assert (p + b + e)[|p|..|p| + |b|] == b;
  }

  /** Without a suffix, two files saved at different ticks get different names. */
  lemma DefaultSuffixesDiffer(fileName: string, now: Ticks, later: Ticks)
    requires now != later
    ensures MediaFileName(fileName, None, now) != MediaFileName(fileName, None, later)
  {
    var name := CleanFromInvalidChars(GetFileNameWithoutExtension(fileName));
    var ext := GetExtension(fileName);
    var a, b := Decimal(now), Decimal(later);
    DigitsAreClean(a);
    DigitsAreClean(b);
    DecimalRoundTrip(now);
    DecimalRoundTrip(later);
    assert MediaFileName(fileName, None, now) == name + "_" + a + ext;
    assert MediaFileName(fileName, None, later) == name + "_" + b + ext;
    if name + "_" + a + ext == name + "_" + b + ext {
      MiddleOf(name + "_", a, b, ext);
    }
  }

  /** Decimal digits are valid in file names. */
  lemma DigitsAreClean(d: string)
    requires forall i :: 0 <= i < |d| ==> '0' <= d[i] <= '9'
    ensures CleanFromInvalidChars(d) == d
  {
    forall i | 0 <= i < |d| ensures d[i] !in InvalidFileNameChars {
      DigitIsValid(d[i]);
    }
    WithoutAbsent(d, InvalidFileNameChars);
  }

  lemma DigitIsValid(c: char)
    requires '0' <= c <= '9'
    ensures c !in InvalidFileNameChars
  {
  }

  class FileBlogService {
    /** `_posts`. */
    var posts: seq<PostItem>
    /** The posts folder: each post's file, named after its id. */
    var disk: map<Guid, PostFile>
    /** The `files` folder below it. */
    var media: map<string, seq<byte>>

    /** The list holds each post object at most once. */
    ghost predicate Valid()
      reads this`posts
    {
      Unique(posts)
    }

    /** The fields as the constructor finds them, before it loads the posts. */
    constructor (disk: map<Guid, PostFile>, media: map<string, seq<byte>>)
      ensures Valid() && posts == [] && this.disk == disk && this.media == media
    {
      posts := [];
      this.disk := disk;
      this.media := media;
    }

    /** `LoadPosts`: one new post per file, in the order the folder lists
        them (each file once), appended to the list. A file that does not
        parse throws; the posts read before it stay. The posts loaded have
        distinct ids, and when no file throws every file has its post. */
    method LoadPosts(order: seq<Guid>, now: Ticks) returns (o: Outcome<Error>)
      requires Valid()
      requires Unique(order) && forall g :: g in disk <==> g in order
      modifies this`posts
      ensures Valid()
      ensures old(|posts|) <= |posts| <= old(|posts|) + |order| && posts[..old(|posts|)] == old(posts)
      ensures forall k :: old(|posts|) <= k < |posts| ==>
        && fresh(posts[k])
        && ReadPost(order[k - old(|posts|)], disk[order[k - old(|posts|)]], now) == Ok(posts[k].Value())
      ensures forall j, k :: old(|posts|) <= j < k < |posts| ==> posts[j].id != posts[k].id
      ensures o.Pass? <==> forall i :: 0 <= i < |order| ==> ReadPost(order[i], disk[order[i]], now).Ok?
      ensures o.Pass? ==> |posts| == old(|posts|) + |order|
      ensures o.Pass? ==> forall g :: g in disk ==> exists k :: old(|posts|) <= k < |posts| && posts[k].id == g
      ensures o.Fail? ==>
        && o.error == BadFormat && |posts| < old(|posts|) + |order|
        && ReadPost(order[|posts| - old(|posts|)], disk[order[|posts| - old(|posts|)]], now).Err?
    {
      var n := |posts|;
      var i := 0;
      while i < |order|
        invariant 0 <= i <= |order|
        invariant Valid()
        invariant |posts| == n + i && posts[..n] == old(posts)
        invariant forall k :: n <= k < |posts| ==>
          && fresh(posts[k])
          && ReadPost(order[k - n], disk[order[k - n]], now) == Ok(posts[k].Value())
          && posts[k].id == order[k - n]
      {
        var post := LoadPost(order[i], disk[order[i]], now);
        if post.Err? {
          return Fail(post.error);
        }
        posts := posts + [post.value];
        i := i + 1;
      }
      forall j | 0 <= j < |order|
        ensures ReadPost(order[j], disk[order[j]], now).Ok? && posts[n + j].id == order[j]
      {
        var k := n + j;
        assert n <= k < |posts| && k - n == j;
        assert ReadPost(order[k - n], disk[order[k - n]], now) == Ok(posts[k].Value());
      }
      forall g | g in disk ensures exists k :: n <= k < |posts| && posts[k].id == g {
        var j :| 0 <= j < |order| && order[j] == g;
        assert posts[n + j].id == g;
      }
      o := Pass;
    }

    /** One turn of the loop of `LoadPosts`: the object initializer, then
        the categories, tags and comments. */
    static method LoadPost(id: Guid, f: PostFile, now: Ticks) returns (r: Result<PostItem, Error>)
      ensures r.Ok? <==> ReadPost(id, f, now).Ok?
      ensures r.Ok? ==> fresh(r.value) && r.value.Value() == ReadPost(id, f, now).value
      ensures r.Err? ==> r.error == BadFormat
    {
      var header := ReadHeader(id, f, now);
      if header.Err? {
        return Err(header.error);
      }
      var h := header.value;
      var post := NewPost(h, now);
      LoadCategories(post, f);
      LoadTags(post, f);
      ghost var listed := h.(categories := f.categories.GetOr([]), tags := f.tags.GetOr([]));
      assert post.Value() == listed;
      var loaded := LoadComments(post, f);
      if loaded.Fail? {
        return Err(loaded.error);
      }
      assert post.Value() == listed.(comments := post.comments);
      r := Ok(post);
    }

    /** The object initializer: a new post holding the header's fields. */
    static method NewPost(h: PostValue, now: Ticks) returns (post: PostItem)
      requires h.author == "" && h.categories == [] && h.tags == [] && h.comments == []
      ensures fresh(post) && post.Value() == h
    {
      post := new PostItem(h.id, now);
      post.title, post.excerpt, post.content, post.slug := h.title, h.excerpt, h.content, h.slug;
      post.publishDate, post.lastModified, post.isPublished := h.publishDate, h.lastModified, h.isPublished;
    }

    /** `LoadCategories`: a `<categories>` element replaces the list, in
        document order; without one the list stays. */
    static method LoadCategories(post: PostItem, f: PostFile)
      modifies post
      ensures post.Value() == old(post.Value()).(categories := f.categories.GetOr(old(post.categories)))
    {
      if f.categories.None? {
        return;
      }
      var names := f.categories.value;
      post.categories := [];
      for i := 0 to |names|
        invariant post.Value() == old(post.Value()).(categories := names[..i])
      {
        assert names[..i + 1] == names[..i] + [names[i]];
        post.categories := post.categories + [names[i]];
      }
      assert names[..|names|] == names;
    }

    /** `LoadTags`: the same for `<tags>`. */
    static method LoadTags(post: PostItem, f: PostFile)
      modifies post
      ensures post.Value() == old(post.Value()).(tags := f.tags.GetOr(old(post.tags)))
    {
      if f.tags.None? {
        return;
      }
      var names := f.tags.value;
      post.tags := [];
      for i := 0 to |names|
        invariant post.Value() == old(post.Value()).(tags := names[..i])
      {
        assert names[..i + 1] == names[..i] + [names[i]];
        post.tags := post.tags + [names[i]];
      }
      assert names[..|names|] == names;
    }

    /** `LoadComments`: each `<comment>` appended in document order; the first
        that does not parse throws. Only the comments change. */
    static method LoadComments(post: PostItem, f: PostFile) returns (o: Outcome<Error>)
      modifies post
      ensures post.Value() == old(post.Value()).(comments := post.comments)
      ensures o.Pass? <==> (f.comments.Some? ==> ReadComments(f.comments.value).Ok?)
      ensures o.Pass? ==> post.comments == old(post.comments) + (if f.comments.Some? then ReadComments(f.comments.value).value else [])
      ensures o.Fail? ==> o.error == BadFormat
    {
      if f.comments.None? {
        return Pass;
      }
      var nodes := f.comments.value;
      var i := 0;
      while i < |nodes|
        invariant 0 <= i <= |nodes|
        invariant post.Value() == old(post.Value()).(comments := post.comments)
        invariant |post.comments| == old(|post.comments|) + i
        invariant post.comments[..old(|post.comments|)] == old(post.comments)
        invariant forall k :: 0 <= k < i ==>
          && ReadComment(nodes[k]).Ok?
          && post.comments[old(|post.comments|) + k] == ReadComment(nodes[k]).value
      {
        var comment := ReadComment(nodes[i]);
        if comment.Err? {
          return Fail(comment.error);
        }
        post.comments := post.comments + [comment.value];
        i := i + 1;
      }
      var cs := ReadComments(nodes).value;
      assert post.comments == old(post.comments) + cs;
      o := Pass;
    }

    /** `GetPosts()`: the posts shown to the reader, in store order. */
    function GetPosts(now: Ticks, isAdmin: bool): (r: seq<PostItem>)
      reads this, posts
      ensures forall p :: p in r ==> p in posts && p.ShownTo(now, isAdmin)
      ensures forall p :: p in posts && p.ShownTo(now, isAdmin) ==> p in r
    {
      Query(posts, Visible, now, isAdmin)
    }

    /** `GetPosts(count, skip)`: of the posts shown, the first `skip` dropped
        and at most `count` of the rest. */
    function GetPostsPaged(count: int, skip: int, now: Ticks, isAdmin: bool): seq<PostItem>
      reads this, posts
    {
      Take(Skip(GetPosts(now, isAdmin), skip), count)
    }

    /** A page is a slice of the unpaged list: a negative `skip` drops
        nothing and a `count` of zero or less keeps nothing. */
    lemma GetPostsPagedSlice(count: int, skip: int, now: Ticks, isAdmin: bool)
      ensures var all := GetPosts(now, isAdmin);
        var lo := if skip <= 0 then 0 else if skip < |all| then skip else |all|;
        var hi := if count <= 0 then lo else if lo + count < |all| then lo + count else |all|;
        GetPostsPaged(count, skip, now, isAdmin) == all[lo..hi]
    {
      SkipTakeClamped(GetPosts(now, isAdmin), count, skip);
    }

    /** `GetPostsByCategory`: the posts shown that carry the category,
        ignoring case. */
    function GetPostsByCategory(category: string, now: Ticks, isAdmin: bool): (r: seq<PostItem>)
      reads this, posts
      ensures forall p :: p in r ==> p in posts && p.ShownTo(now, isAdmin) && ContainsIgnoreCase(p.categories, category)
      ensures forall p :: p in posts && p.ShownTo(now, isAdmin) && ContainsIgnoreCase(p.categories, category) ==> p in r
    {
      Query(posts, InCategory(category), now, isAdmin)
    }

    /** `GetPostsByTag`: the posts shown that carry the tag, ignoring case. */
    function GetPostsByTag(tag: string, now: Ticks, isAdmin: bool): (r: seq<PostItem>)
      reads this, posts
      ensures forall p :: p in r ==> p in posts && p.ShownTo(now, isAdmin) && ContainsIgnoreCase(p.tags, tag)
      ensures forall p :: p in posts && p.ShownTo(now, isAdmin) && ContainsIgnoreCase(p.tags, tag) ==> p in r
    {
      Query(posts, WithTag(tag), now, isAdmin)
    }

    /** `GetCategories`: each category of a published post (of any post, for
        the administrator), lower-cased, once; future posts count too. */
    function GetCategories(isAdmin: bool): (r: seq<string>)
      reads this, posts
      ensures forall i, j :: 0 <= i < j < |r| ==> r[i] != r[j]
      ensures forall x :: x in r ==> IsLower(x)
      ensures forall k, j :: 0 <= k < |posts| && (posts[k].isPublished || isAdmin) && 0 <= j < |posts[k].categories| ==>
        Lower(posts[k].categories[j]) in r
      ensures forall x :: x in r ==> x in Labels(posts, CategoryLabels, isAdmin)
    {
      assert forall k :: 0 <= k < |posts| ==> LabelsOf(posts[k], CategoryLabels) == posts[k].categories;
      Distinct(Labels(posts, CategoryLabels, isAdmin))
    }

    /** `GetTags`: the same for tags. */
    function GetTags(isAdmin: bool): (r: seq<string>)
      reads this, posts
      ensures forall i, j :: 0 <= i < j < |r| ==> r[i] != r[j]
      ensures forall x :: x in r ==> IsLower(x)
      ensures forall k, j :: 0 <= k < |posts| && (posts[k].isPublished || isAdmin) && 0 <= j < |posts[k].tags| ==>
        Lower(posts[k].tags[j]) in r
      ensures forall x :: x in r ==> x in Labels(posts, TagLabels, isAdmin)
    {
      assert forall k :: 0 <= k < |posts| ==> LabelsOf(posts[k], TagLabels) == posts[k].tags;
      Distinct(Labels(posts, TagLabels, isAdmin))
    }

    /** `GetPostById`: the first post whose id reads as `id` ignoring case,
        or nothing when that post is hidden from the reader. */
    function GetPostById(id: string, now: Ticks, isAdmin: bool): (r: Option<PostItem>)
      reads this, posts
      ensures r.Some? ==> r.value in posts && EqualsIgnoreCase(GuidText(r.value.id), id) && r.value.ShownTo(now, isAdmin)
      ensures r.Some? ==> exists k :: (0 <= k < |posts| && posts[k] == r.value
        && forall j :: 0 <= j < k ==> !EqualsIgnoreCase(GuidText(posts[j].id), id))
      ensures r.None? ==> forall k :: 0 <= k < |posts| && EqualsIgnoreCase(GuidText(posts[k].id), id) && posts[k].ShownTo(now, isAdmin) ==>
        exists j :: 0 <= j < k && EqualsIgnoreCase(GuidText(posts[j].id), id)
    {
      Find(posts, ById(id), now, isAdmin)
    }

    /** `GetPostBySlug`: the same, matching the slug. */
    function GetPostBySlug(slug: string, now: Ticks, isAdmin: bool): (r: Option<PostItem>)
      reads this, posts
      ensures r.Some? ==> r.value in posts && EqualsIgnoreCase(r.value.slug, slug) && r.value.ShownTo(now, isAdmin)
      ensures r.Some? ==> exists k :: (0 <= k < |posts| && posts[k] == r.value
        && forall j :: 0 <= j < k ==> !EqualsIgnoreCase(posts[j].slug, slug))
      ensures r.None? ==> forall k :: 0 <= k < |posts| && EqualsIgnoreCase(posts[k].slug, slug) && posts[k].ShownTo(now, isAdmin) ==>
        exists j :: 0 <= j < k && EqualsIgnoreCase(posts[j].slug, slug)
    {
      Find(posts, BySlug(slug), now, isAdmin)
    }

    /** `SavePost`: stamp the post, write its file, and add it to the list
        unless the list already holds that object. */
    method SavePost(post: PostItem?, now: Ticks) returns (o: Outcome<Error>)
      requires Valid()
      modifies this`disk, this`posts, post
      ensures Valid()
      ensures post == null ==> o == Fail(ArgumentNull) && posts == old(posts) && disk == old(disk)
      ensures post != null ==>
        && o == Pass
        && post.Value() == old(post.Value()).(lastModified := now)
        && disk == old(disk)[post.id := PostToFile(post.Value())]
        && posts == if post in old(posts) then old(posts) else old(posts) + [post]
    {
      if post == null {
        return Fail(ArgumentNull);
      }
      post.lastModified := now;
      disk := disk[post.id := PostToFile(post.Value())];
      if post !in posts {
        posts := posts + [post];
      }
      o := Pass;
    }

    /** `DeletePost`: remove the post's file and the post from the list;
        either being absent already is no error. */
    method DeletePost(post: PostItem?) returns (o: Outcome<Error>)
      requires Valid()
      modifies this`disk, this`posts
      ensures Valid()
      ensures post == null ==> o == Fail(ArgumentNull) && posts == old(posts) && disk == old(disk)
      ensures post != null ==> o == Pass && disk == old(disk) - {post.id} && posts == RemoveFirst(old(posts), post)
      ensures post != null ==> post !in posts && forall q :: q in old(posts) && q != post ==> q in posts
    {
      if post == null {
        return Fail(ArgumentNull);
      }
      DeleteFile(post.id);
      RemovePost(post);
      o := Pass;
    }

    /** The first half of `DeletePost`: the post's file deleted if it exists. */
    method DeleteFile(id: Guid)
      modifies this`disk
      ensures disk == old(disk) - {id}
    {
      if id in disk {
        disk := disk - {id};
      } else {
        assert disk == disk - {id};
      }
    }

    /** The second half of `DeletePost`: the post taken out of the list when
        it is there. */
    method RemovePost(p: PostItem)
      requires Valid()
      modifies this`posts
      ensures Valid() && posts == RemoveFirst(old(posts), p)
      ensures p !in posts && forall q :: q in old(posts) && q != p ==> q in posts
    {
      RemoveFromDistinct(posts, p);
      if p in posts {
        posts := RemoveFirst(posts, p);
      }
    }

    /** `SaveFile`: store the bytes under `MediaFileName` and return their
        address. The file is created new, so a name already taken fails. */
    method SaveFile(bytes: Option<seq<byte>>, fileName: string, suffix: Option<string>, now: Ticks)
      returns (r: Result<string, Error>)
      modifies this`media
      ensures var name := MediaFileName(fileName, suffix, now);
        && (bytes.None? ==> r == Err(ArgumentNull) && media == old(media))
        && (bytes.Some? && name in old(media) ==> r == Err(FileExists) && media == old(media))
        && (bytes.Some? && name !in old(media) ==> r == Ok(MediaUrlPrefix + name) && media == old(media)[name := bytes.value])
    {
      if bytes.None? {
        return Err(ArgumentNull);
      }
      var sfx := CleanFromInvalidChars(suffix.GetOr(Decimal(now)));
      var ext := GetExtension(fileName);
      var name := CleanFromInvalidChars(GetFileNameWithoutExtension(fileName));
      var fileNameWithSuffix := name + "_" + sfx + ext;
      if fileNameWithSuffix in media {
        return Err(FileExists);
      }
      media := media[fileNameWithSuffix := bytes.value];
      r := Ok("/" + PostsFolder + "/" + FilesFolder + "/" + fileNameWithSuffix);
    }
  }

  /** Saving then deleting a post that was not in the store leaves the list
      as it was, and the folder as it was without any file under its id. */
  lemma SaveThenDeleteRestores(ps: seq<PostItem>, p: PostItem, disk: map<Guid, PostFile>, f: PostFile)
    requires Unique(ps) && p !in ps
    ensures RemoveFirst(ps + [p], p) == ps
    ensures disk[p.id := f] - {p.id} == disk - {p.id}
  {
    assert FirstIndex(ps + [p], p) == |ps|;
    assert (ps + [p])[..|ps|] == ps;
  }
}
