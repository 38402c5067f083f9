/** The editing rules of `HomeController`: paging, adding and deleting
    comments, deleting and updating posts, and moving the images of an
    edited post into the media folder.

    The authenticated user is the administrator, so `[Authorize]` actions
    read the store as the administrator and the other actions as
    `isAuthenticated` says. A form field is the list of values posted under
    its name. Exceptions become `Err` results. */
module Home {
  import opened Wrappers
  import opened Text
  import opened Encoding
  import opened Ids
  import opened Sequences
  import opened Comments
  import opened Posts
  import opened Slugs
  import opened Storage
  import opened Blog
  import opened Media

  datatype ActionResult = View(name: string, model: Option<PostItem>) | NotFound | Redirect(url: string)

  const Int32Min: int := -0x8000_0000
  const Int32Max: int := 0x7FFF_FFFF

  predicate IsInt32(x: int) {
    Int32Min <= x <= Int32Max
  }

  /** The product of two `int`s as C# computes it, unchecked: the true
      product reduced into the 32-bit range. */
  function Wrap32(x: int): (r: int)
    ensures IsInt32(r)
    ensures IsInt32(x) ==> r == x
    decreases if x > Int32Max then x - Int32Max else if x < Int32Min then Int32Min - x else 0
  {
    if x > Int32Max then Wrap32(x - 0x1_0000_0000)
    else if x < Int32Min then Wrap32(x + 0x1_0000_0000)
    else x
  }

  /** The wrapped product is the true one reduced modulo 2^32 into the
      32-bit range. */
  lemma {:induction false} Wrap32Modulo(x: int)
    ensures Wrap32(x) == (x - Int32Min) % 0x1_0000_0000 + Int32Min
    decreases if x > Int32Max then x - Int32Max else if x < Int32Min then Int32Min - x else 0
  {
    if x > Int32Max {
      Wrap32Modulo(x - 0x1_0000_0000);
      assert (x - Int32Min) % 0x1_0000_0000 == (x - 0x1_0000_0000 - Int32Min) % 0x1_0000_0000;
    } else if x < Int32Min {
      Wrap32Modulo(x + 0x1_0000_0000);
      assert (x - Int32Min) % 0x1_0000_0000 == (x + 0x1_0000_0000 - Int32Min) % 0x1_0000_0000;
    }
  }

  /** `items.Skip(perPage * page).Take(perPage)`: a run of consecutive
      items, at most `perPage` of them. */
  function Page<T>(items: seq<T>, perPage: int, page: int): (r: seq<T>)
    requires IsInt32(perPage) && IsInt32(page)
    ensures |r| <= if perPage <= 0 then 0 else perPage
    ensures var lo := Clip(Wrap32(perPage * page), |items|); lo + |r| <= |items| && r == items[lo..lo + |r|]
  {
    var skipped := Skip(items, Wrap32(perPage * page));
    var r := Take(skipped, perPage);
    assert r == items[|items| - |skipped|..|items| - |skipped| + |r|];
    r
  }

  /** `n` brought into `[0, bound]`. */
  function Clip(n: int, bound: nat): (r: nat)
    ensures r <= bound && (0 <= n <= bound ==> r == n)
  {
    if n <= 0 then 0 else if n >= bound then bound else n
  }

  /** Without overflow, page `page` holds the items from `perPage * page` on. */
  lemma PageSlice<T>(items: seq<T>, perPage: int, page: int)
    requires IsInt32(perPage) && IsInt32(page) && perPage > 0 && page >= 0 && IsInt32(perPage * page)
    ensures Page(items, perPage, page) == items[Clip(perPage * page, |items|)..Clip(perPage * page + perPage, |items|)]
  {
    var q := perPage * page;
    MulSign(perPage, page);
    assert Wrap32(q) == q;
    assert Page(items, perPage, page) == Take(Skip(items, q), perPage);
    SkipTakeSlice(items, q, perPage);
  }

  /** A negative page number shows the first page. */
  lemma PageBeforeFirst<T>(items: seq<T>, perPage: int, page: int)
    requires IsInt32(perPage) && IsInt32(page) && perPage > 0 && page < 0 && IsInt32(perPage * page)
    ensures Page(items, perPage, page) == Page(items, perPage, 0)
  {
    MulSign(perPage, page);
  }

  lemma {:induction false} MulSign(a: int, b: int)
    requires a > 0
    ensures b >= 0 ==> a * b >= 0
    ensures b < 0 ==> a * b < 0
    decreases if b < 0 then -b else b
  {
    if b > 0 {
      MulSign(a, b - 1);
      assert a * b == a * (b - 1) + a;
    } else if b < 0 {
      MulSign(a, b + 1);
      assert a * b == a * (b + 1) - a;
    }
  }

  lemma MulSucc(a: int, m: nat)
    ensures a * (m + 1) == a * m + a
  {
  }

  /** Pages `0` to `n - 1`, one after the other. */
  function Pages<T>(items: seq<T>, perPage: int, n: nat): seq<T>
    requires IsInt32(perPage) && perPage > 0 && IsInt32(perPage * n)
  {
    if n == 0 then [] else Pages(items, perPage, n - 1) + Page(items, perPage, n - 1)
  }

  /** The first `n` pages are the first `n * perPage` items, each shown once,
      in order: paging loses and repeats nothing. */
  lemma {:induction false} PagesTile<T>(items: seq<T>, perPage: int, n: nat)
    requires IsInt32(perPage) && perPage > 0 && IsInt32(perPage * n)
    ensures Pages(items, perPage, n) == items[..Clip(perPage * n, |items|)]
  {
    if n > 0 {
      var m := n - 1;
      MulSucc(perPage, m);
      MulSign(perPage, m);
      PagesTile(items, perPage, m);
      PageSlice(items, perPage, m);
      TileStep(items, Pages(items, perPage, m), Page(items, perPage, m), perPage * m, perPage);
    }
  }

  /** A prefix followed by the slice after it is a longer prefix. */
  lemma TileStep<T>(items: seq<T>, a: seq<T>, b: seq<T>, q: nat, k: nat)
    requires a == items[..Clip(q, |items|)] && b == items[Clip(q, |items|)..Clip(q + k, |items|)]
    ensures a + b == items[..Clip(q + k, |items|)]
  {
  }

  /** A page number too large for the multiplication wraps around to an
      early page instead of showing an empty one. */
  lemma PageWrapsAround<T>(items: seq<T>)
    ensures Page(items, 10, 429_496_730) == Take(Skip(items, 4), 10)
  {
    assert Wrap32(10 * 429_496_730) == 4;
  }

  /** The string a form field converts to: `null` when it was not posted, its
      values joined by `,` otherwise. */
  function FormText(values: seq<string>): (r: Option<string>)
    ensures r.None? <==> values == []
  {
    if values == [] then None else Some(Join(values, ','))
  }

  /** Values without commas come back from the field's text unchanged when it
      is split at the commas again. */
  lemma FormTextSplit(values: seq<string>)
    requires values != [] && forall i :: 0 <= i < |values| ==> ',' !in values[i]
    ensures Split(FormText(values).value, ',') == values
  {
    SplitJoin(values, ',');
  }

  /** One piece of a form field made a category or a tag: trimmed and
      lower-cased. */
  function Label(piece: string): string {
    Lower(Trim(piece))
  }

  /** A label is lower-case and trimmed, reads as the trimmed piece ignoring
      case, is "" exactly when the piece was blank, and has a comma only if
      the piece had one. */
  lemma LabelShape(piece: string)
    ensures var r := Label(piece);
      && IsLower(r) && Trim(r) == r
      && EqualsIgnoreCase(r, Trim(piece))
      && (r == [] <==> IsNullOrWhiteSpace(piece))
      && (',' !in piece ==> ',' !in r)
  {
    var t := Trim(piece);
    TrimBlank(piece);
    LabelTrimmed(t);
    NoCommaAfterTrim(piece);
  }

  lemma LabelTrimmed(t: string)
    requires t == [] || (!IsWhiteSpace(t[0]) && !IsWhiteSpace(t[|t| - 1]))
    ensures IsLower(Lower(t)) && Trim(Lower(t)) == Lower(t) && EqualsIgnoreCase(Lower(t), t)
  {
    TrimTrimmed(t);
    TrimLowerCommute(t);
    LowerIsLower(t);
  }

  lemma NoCommaAfterTrim(piece: string)
    ensures ',' !in piece ==> ',' !in Lower(Trim(piece))
  {
    if ',' !in piece {
      TrimShape(piece);
      var t := Trim(piece);
      var a := LeadingBlanks(piece);
      forall j | 0 <= j < |t| ensures Lower(t)[j] != ',' {
        assert t[j] == piece[a + j];
      }
    }
  }

  /** `Trim` leaves a trimmed string alone. */
  lemma TrimTrimmed(s: string)
    requires s == [] || (!IsWhiteSpace(s[0]) && !IsWhiteSpace(s[|s| - 1]))
    ensures Trim(s) == s
  {
    TrimIgnoresPadding("", s, "");
    assert "" + s + "" == s;
    if s != [] {
      TrimStartShape(s);
      assert LeadingBlanks(s) == 0;
    }
  }

  /** The categories or tags `UpdatePost` makes of a form field's text: the
      pieces between commas, empty pieces dropped, each trimmed and
      lower-cased; a piece made of spaces survives as "". */
  function FormLabels(text: string): seq<string> {
    LabelAll(NonEmpty(Split(text, ',')))
  }

  /** Every label is lower-case, trimmed and without commas, and a non-empty
      one reads, ignoring case, as a trimmed piece of the text. */
  lemma FormLabelsShape(text: string)
    ensures var r := FormLabels(text);
      && (forall i :: 0 <= i < |r| ==> IsLower(r[i]) && Trim(r[i]) == r[i] && ',' !in r[i])
      && (forall x :: x in r && x != [] ==> exists piece :: piece in Split(text, ',') && EqualsIgnoreCase(x, Trim(piece)))
  {
    var parts := Split(text, ',');
    var pieces := NonEmpty(parts);
    var r := LabelAll(pieces);
    forall i | 0 <= i < |r|
      ensures IsLower(r[i]) && Trim(r[i]) == r[i] && ',' !in r[i]
      ensures r[i] != [] ==> pieces[i] in parts && EqualsIgnoreCase(r[i], Trim(pieces[i]))
    {
      var k :| 0 <= k < |parts| && parts[k] == pieces[i];
      LabelShape(pieces[i]);
    }
    forall x | x in r && x != []
      ensures exists piece :: piece in parts && EqualsIgnoreCase(x, Trim(piece))
    {
      var i :| 0 <= i < |r| && r[i] == x;
      assert pieces[i] in parts && EqualsIgnoreCase(x, Trim(pieces[i]));
    }
  }

  /** `Select(Label)`. */
  function LabelAll(pieces: seq<string>): (r: seq<string>)
    ensures |r| == |pieces| && forall i :: 0 <= i < |r| ==> r[i] == Label(pieces[i])
  {
    if pieces == [] then [] else [Label(pieces[0])] + LabelAll(pieces[1..])
  }

  /** Labels as the edit form shows them, joined by commas, come back
      unchanged when the post is saved. */
  lemma FormLabelsRoundTrip(labels: seq<string>)
    requires forall i :: 0 <= i < |labels| ==> labels[i] != [] && IsLower(labels[i]) && Trim(labels[i]) == labels[i] && ',' !in labels[i]
    ensures FormLabels(Join(labels, ',')) == labels
  {
    var text := Join(labels, ',');
    JoinedPieces(labels);
    assert FormLabels(text) == LabelAll(labels);
    forall i | 0 <= i < |labels| ensures Label(labels[i]) == labels[i] {
      assert Lower(Trim(labels[i])) == labels[i];
    }
  }

  /** Non-empty pieces without commas, joined by commas, split back into
      themselves, and no piece is dropped. */
  lemma JoinedPieces(labels: seq<string>)
    requires forall i :: 0 <= i < |labels| ==> labels[i] != [] && ',' !in labels[i]
    ensures NonEmpty(Split(Join(labels, ','), ',')) == labels
  {
    if labels != [] {
      SplitJoin(labels, ',');
      NonEmptyOfNonEmpty(labels);
    } else {
      assert Split(Join(labels, ','), ',') == [""];
      assert NonEmpty([""]) == NonEmpty([""][1..]);
    }
  }

  /** A piece of blanks between commas is not dropped: it becomes "". */
  lemma BlankLabelSurvives()
    ensures FormLabels(" ,News") == ["", "news"]
  {
    SplitBlankNews();
    NonEmptyOfNonEmpty([" ", "News"]);
    assert FormLabels(" ,News") == LabelAll([" ", "News"]);
    LabelBlank();
    LabelNews();
    assert LabelAll([" ", "News"]) == ["", "news"] by {
      assert [" ", "News"][1..] == ["News"];
    }
  }

  lemma SplitBlankNews()
    ensures Split(" ,News", ',') == [" ", "News"]
  {
    var text := " ,News";
    assert IndexOf(text, ',') == 1;
    assert text[..1] == " " && text[2..] == "News";
    assert IndexOf("News", ',') == 4;
  }

  lemma LabelBlank()
    ensures Label(" ") == ""
  {
    assert IsNullOrWhiteSpace(" ");
    LabelShape(" ");
  }

  lemma LabelNews()
    ensures Label("News") == "news"
  {
    TrimTrimmed("News");
    assert Lower("News") == "news";
  }

  /** `c.Id.ToString().Equals(commentId, StringComparison.OrdinalIgnoreCase)`. */
  predicate HasId(c: Comment, commentId: string) {
    EqualsIgnoreCase(GuidText(c.id), commentId)
  }

  /** The index of the first comment whose id reads as `commentId` ignoring
      case, or `|cs|`. */
  function CommentIndex(cs: seq<Comment>, commentId: string): (k: nat)
    ensures k <= |cs|
    ensures k < |cs| ==> HasId(cs[k], commentId)
    ensures forall j :: 0 <= j < k ==> !HasId(cs[j], commentId)
  {
    FirstWhere(cs, (c: Comment) => HasId(c, commentId))
  }

  /** The comments with the first match of `commentId` removed, or nothing
      when no comment matches. */
  function WithoutComment(cs: seq<Comment>, commentId: string): (r: Option<seq<Comment>>)
    ensures r.None? <==> forall j :: 0 <= j < |cs| ==> !HasId(cs[j], commentId)
    ensures r.Some? ==> exists k ::
      && 0 <= k < |cs|
      && HasId(cs[k], commentId)
      && (forall j :: 0 <= j < k ==> !HasId(cs[j], commentId))
      && r.value == cs[..k] + cs[k + 1..]
    ensures r.Some? ==> |r.value| == |cs| - 1
  {
    var k := CommentIndex(cs, commentId);
    if k == |cs| then None else Some(cs[..k] + cs[k + 1..])
  }

  /** Deleting the comment just added, by its id in any case, gives back the
      comments there were, when no other comment has that id. */
  lemma AddThenDeleteComment(cs: seq<Comment>, c: Comment, commentId: string)
    requires EqualsIgnoreCase(commentId, GuidText(c.id))
    requires forall j :: 0 <= j < |cs| ==> cs[j].id != c.id
    ensures WithoutComment(cs + [c], commentId) == Some(cs)
  {
    var all := cs + [c];
    forall j | 0 <= j < |all| ensures HasId(all[j], commentId) <==> j == |cs| {
      SameIdText(all[j], c, commentId);
    }
    var k := CommentIndex(all, commentId);
    assert HasId(all[|cs|], commentId);
    assert k < |all| ==> HasId(all[k], commentId);
    assert k == |cs|;
    assert all[..k] + all[k + 1..] == cs;
  }

  /** A comment answers to the text of `c`'s id exactly when it has `c`'s id. */
  lemma SameIdText(d: Comment, c: Comment, commentId: string)
    requires EqualsIgnoreCase(commentId, GuidText(c.id))
    ensures HasId(d, commentId) <==> d.id == c.id
  {
    GuidTextEqualsIgnoreCase(d.id, c.id);
  }

  /** The comment `AddComment` stores: the administrator's exactly when the
      writer is signed in, author, email and content trimmed. */
  function Received(c: Comment, isAuthenticated: bool): (r: Comment)
    ensures r.id == c.id && r.publishDate == c.publishDate && r.isAdmin == isAuthenticated
    ensures r.author == Trim(c.author)
    ensures r.email == Trim(c.email) && r.content == Trim(c.content)
  {
    c.(isAdmin := isAuthenticated, content := Trim(c.content), author := Trim(c.author), email := Trim(c.email))
  }

  /** The slug `UpdatePost` gives a post: the form's slug trimmed or, when
      it is blank, a slug made from `slugTitle`, the title the form post holds
      at that point. */
  function FormSlug(formSlug: string, slugTitle: string): (r: string)
    ensures !IsNullOrWhiteSpace(formSlug) ==> r == Trim(formSlug) && r != ""
    ensures IsNullOrWhiteSpace(formSlug) ==> r == SlugOf(Some(slugTitle))
  {
    TrimBlank(formSlug);
    if !IsNullOrWhiteSpace(formSlug) then Trim(formSlug) else SlugOf(Some(slugTitle))
  }

  /** What saving an edited post leaves behind, from the store's files,
      list and media folder before (`disk0`, `posts0`, `media0`) to its
      files, list and media folder after and the post's new fields `value`,
      when the images of `body` are rehosted. When the image loop throws,
      the files and list are as they were, and the post has its edited
      fields; its content and the media folder are what the loop had
      reached at the turn that threw. When it finishes, the post has the
      rewritten content and the time of the save, the images are in the
      media folder, the post's file is written and the post is in the
      list. */
  predicate SavedAs(disk0: map<Guid, PostFile>, posts0: seq<PostItem>, media0: map<string, seq<byte>>,
                    disk: map<Guid, PostFile>, posts: seq<PostItem>, media: map<string, seq<byte>>,
                    existing: PostItem, value: PostValue, edited: PostValue,
                    body: seq<Segment>, decode: string -> Option<seq<byte>>, times: seq<Ticks>, now: Ticks)
    requires |times| >= |body|
  {
    var expected := Rehost(body, media0, decode, times);
    && (expected.Err? ==>
          && disk == disk0 && posts == posts0
          && value == edited.(content := value.content)
          && (media, value.content) == Stopped(body, media0, decode, times))
    && (expected.Ok? ==>
          && value == edited.(content := Render(expected.value.0), lastModified := now)
          && media == expected.value.1
          && disk == disk0[value.id := PostToFile(value)]
          && posts == if existing in posts0 then posts0 else posts0 + [existing])
  }

  /** The fields `UpdatePost` gives the post it saves, before the images of
      its content are rehosted: the form's title, content and excerpt trimmed,
      its publication flag and the slug; the id, author, labels, comments and
      dates are the post's own. */
  function Edited(before: PostValue, title: string, slug: string, content: string, excerpt: string,
                  isPublished: bool): PostValue
  {
    before.(title := Trim(title), slug := slug, isPublished := isPublished,
            content := Trim(content), excerpt := Trim(excerpt))
  }

  /** A post saved from a valid form is valid in turn: trimming leaves the
      required fields non-blank, and nothing but the form's fields and the
      slug changes. */
  lemma EditedValid(before: PostValue, form: PostValue, slug: string)
    requires PostFormValid(form)
    ensures var r := Edited(before, form.title, slug, form.content, form.excerpt, form.isPublished);
      && PostFormValid(r)
      && r.(title := before.title, slug := before.slug, isPublished := before.isPublished,
            content := before.content, excerpt := before.excerpt) == before
  {
    var r := Edited(before, form.title, slug, form.content, form.excerpt, form.isPublished);
    TrimBlank(form.title);
    TrimBlank(form.content);
    TrimBlank(form.excerpt);
    assert !IsWhiteSpace(r.title[0]) && !IsWhiteSpace(r.content[0]) && !IsWhiteSpace(r.excerpt[0]);
  }

  /** The post an action found, as the set of objects it may change. */
  function Found(post: Option<PostItem>): (r: set<PostItem>)
    ensures post.Some? ==> r == {post.value}
    ensures post.None? ==> r == {}
  {
    if post.Some? then {post.value} else {}
  }

  class HomeController {
    const blog: FileBlogService
    /** `BlogSettings.PostsPerPage`. */
    const postsPerPage: int
    /** `BlogSettings.CommentsCloseAfterDays`. */
    const commentsCloseAfterDays: int

    constructor (blog: FileBlogService, postsPerPage: int, commentsCloseAfterDays: int)
      ensures this.blog == blog && this.postsPerPage == postsPerPage
      ensures this.commentsCloseAfterDays == commentsCloseAfterDays
    {
      this.blog := blog;
      this.postsPerPage := postsPerPage;
      this.commentsCloseAfterDays := commentsCloseAfterDays;
    }

    /** `Index(page)`: the page of the posts shown. */
    function Index(page: int, now: Ticks, isAdmin: bool): (r: seq<PostItem>)
      requires IsInt32(postsPerPage) && IsInt32(page)
      reads blog, blog.posts
      ensures forall p :: p in r ==> p in blog.posts && p.ShownTo(now, isAdmin)
      ensures |r| <= if postsPerPage <= 0 then 0 else postsPerPage
    {
      Page(blog.GetPosts(now, isAdmin), postsPerPage, page)
    }

    /** `Category(category, page)`: the page of the posts shown in the category. */
    function Category(category: string, page: int, now: Ticks, isAdmin: bool): (r: seq<PostItem>)
      requires IsInt32(postsPerPage) && IsInt32(page)
      reads blog, blog.posts
      ensures forall p :: p in r ==> p in blog.posts && p.ShownTo(now, isAdmin) && ContainsIgnoreCase(p.categories, category)
      ensures |r| <= if postsPerPage <= 0 then 0 else postsPerPage
    {
      Page(blog.GetPostsByCategory(category, now, isAdmin), postsPerPage, page)
    }

    /** `Tag(tag, page)`: the page of the posts shown with the tag. */
    function Tag(tag: string, page: int, now: Ticks, isAdmin: bool): (r: seq<PostItem>)
      requires IsInt32(postsPerPage) && IsInt32(page)
      reads blog, blog.posts
      ensures forall p :: p in r ==> p in blog.posts && p.ShownTo(now, isAdmin) && ContainsIgnoreCase(p.tags, tag)
      ensures |r| <= if postsPerPage <= 0 then 0 else postsPerPage
    {
      Page(blog.GetPostsByTag(tag, now, isAdmin), postsPerPage, page)
    }

    /** `Post(slug)`: the post with the slug, or not found. */
    function Post(slug: string, now: Ticks, isAdmin: bool): (r: ActionResult)
      reads blog, blog.posts
      ensures r == NotFound || r.View?
      ensures r.View? ==>
        && r.name == "Post" && r.model.Some? && r.model.value in blog.posts
        && EqualsIgnoreCase(r.model.value.slug, slug) && r.model.value.ShownTo(now, isAdmin)
    {
      match blog.GetPostBySlug(slug, now, isAdmin)
      case None => NotFound
      case Some(p) => View("Post", Some(p))
    }

    /** `AddComment`: an invalid form shows the post again; a post that is
        hidden or closed to comments is not found; otherwise the received
        comment is appended and the post saved, unless the `website` field
        (which only robots fill) was posted. */
    method AddComment(postId: string, comment: Option<Comment>, hasWebsite: bool, isAuthenticated: bool, now: Ticks)
      returns (r: Result<ActionResult, Error>)
      requires blog.Valid()
      modifies blog, Found(blog.GetPostById(postId, now, isAuthenticated))
      ensures blog.Valid() && blog.media == old(blog.media) && blog.posts == old(blog.posts)
      ensures var found := old(blog.GetPostById(postId, now, isAuthenticated));
        comment.Some? && !CommentFormValid(comment.value) ==> r == Ok(View("Post", found))
      ensures var found := old(blog.GetPostById(postId, now, isAuthenticated));
        (comment.None? || CommentFormValid(comment.value)) && found.None? ==> r == Ok(NotFound)
      ensures var found := old(blog.GetPostById(postId, now, isAuthenticated));
        (comment.None? || CommentFormValid(comment.value)) && found.Some? ==>
          var open := old(found.value.AreCommentsOpen(commentsCloseAfterDays, now));
          && (open.Err? ==> r == Err(open.error))
          && (open == Ok(false) ==> r == Ok(NotFound))
          && (open == Ok(true) && comment.None? ==> r == Err(ArgumentNull))
          && (open == Ok(true) && comment.Some? ==>
                r == Ok(Redirect(found.value.GetEncodedLink() + "#" + GuidText(comment.value.id))))
      ensures var found := old(blog.GetPostById(postId, now, isAuthenticated));
        !(&& (comment.Some? && CommentFormValid(comment.value)) && found.Some? && !hasWebsite
          && old(found.value.AreCommentsOpen(commentsCloseAfterDays, now)) == Ok(true))
        ==> unchanged(blog) && unchanged(blog.posts)
      ensures var found := old(blog.GetPostById(postId, now, isAuthenticated));
        && (comment.Some? && CommentFormValid(comment.value)) && found.Some? && !hasWebsite
        && old(found.value.AreCommentsOpen(commentsCloseAfterDays, now)) == Ok(true)
        ==>
          && found.value.Value() == old(found.value.Value()).(comments := old(found.value.comments) + [Received(comment.value, isAuthenticated)], lastModified := now)
          && blog.disk == old(blog.disk)[found.value.id := PostToFile(found.value.Value())]
    {
      var post := blog.GetPostById(postId, now, isAuthenticated);
      if comment.Some? && !CommentFormValid(comment.value) {
        return Ok(View("Post", post));
      }
      if post.None? {
        return Ok(NotFound);
      }
      var p := post.value;
      var open := p.AreCommentsOpen(commentsCloseAfterDays, now);
      if open.Err? {
        return Err(open.error);
      }
      if !open.value {
        return Ok(NotFound);
      }
      if comment.None? {
        return Err(ArgumentNull);
      }
      var c := Received(comment.value, isAuthenticated);
      if !hasWebsite {
        ReplaceComments(p, p.comments + [c], now);
      }
      r := Ok(Redirect(p.GetEncodedLink() + "#" + GuidText(c.id)));
    }

    /** `DeleteComment`: on the post with the id (as the administrator sees
        the store), remove the first comment whose id matches ignoring case
        and save; without such a post or comment, not found. */
    method DeleteComment(postId: string, commentId: string, now: Ticks) returns (r: ActionResult)
      requires blog.Valid()
      modifies blog, Found(blog.GetPostById(postId, now, true))
      ensures blog.Valid() && blog.media == old(blog.media) && blog.posts == old(blog.posts)
      ensures var found := old(blog.GetPostById(postId, now, true));
        && (found.None? ==> r == NotFound && unchanged(blog) && unchanged(blog.posts))
        && (found.Some? ==>
              var rest := WithoutComment(old(found.value.comments), commentId);
              && (rest.None? ==> r == NotFound && unchanged(blog) && unchanged(blog.posts))
              && (rest.Some? ==>
                    && r == Redirect(found.value.GetEncodedLink() + "#comments")
                    && found.value.Value() == old(found.value.Value()).(comments := rest.value, lastModified := now)
                    && blog.disk == old(blog.disk)[found.value.id := PostToFile(found.value.Value())]))
    {
      var post := blog.GetPostById(postId, now, true);
      if post.None? {
        return NotFound;
      }
      var p := post.value;
      var rest := WithoutComment(p.comments, commentId);
      if rest.None? {
        return NotFound;
      }
      ReplaceComments(p, rest.value, now);
      r := Redirect(p.GetEncodedLink() + "#comments");
    }

    /** The comment list of a stored post replaced, then `SavePost`. */
    method ReplaceComments(p: PostItem, cs: seq<Comment>, now: Ticks)
      requires blog.Valid() && p in blog.posts
      modifies blog, p
      ensures blog.Valid() && blog.media == old(blog.media) && blog.posts == old(blog.posts)
      ensures p.Value() == old(p.Value()).(comments := cs, lastModified := now)
      ensures blog.disk == old(blog.disk)[p.id := PostToFile(p.Value())]
    {
      p.comments := cs;
      var saved := blog.SavePost(p, now);
    }

    /** `UpdatePost`: an invalid form shows the editor again; otherwise the
        stored post with the form post's id (or, when there is none, the form
        post itself) takes the form's fields, its images are rehosted, it is
        saved, and the browser goes to the form post's link. A category or
        tag field that was not posted throws once the labels before it are
        set and its own list is cleared. */
    method UpdatePost(post: PostItem?, categories: seq<string>, tags: seq<string>,
                      body: seq<Segment>, decode: string -> Option<seq<byte>>, times: seq<Ticks>, now: Ticks)
      returns (r: Result<ActionResult, Error>)
      requires blog.Valid()
      requires post != null ==> Render(body) == Trim(post.content) && |times| >= |body|
      modifies blog, post, if post == null then {} else Found(blog.GetPostById(GuidText(post.id), now, true))
      ensures blog.Valid()
      ensures post == null ==> r == Err(ArgumentNull) && unchanged(blog)
      ensures post != null && !PostFormValid(old(post.Value())) ==>
        r == Ok(View("Edit", Some(post))) && unchanged(blog) && unchanged(post)
      ensures post != null && PostFormValid(old(post.Value())) ==>
        var existing := old(blog.GetPostById(GuidText(post.id), now, true)).GetOr(post);
        var cats := FormText(categories);
        var tagText := FormText(tags);
        && (existing != post ==> unchanged(post))
        && (cats.None? ==>
              && r == Err(NullReference) && unchanged(blog)
              && existing.Value() == old(existing.Value()).(categories := []))
        && (cats.Some? && tagText.None? ==>
              && r == Err(NullReference) && unchanged(blog)
              && existing.Value() == old(existing.Value()).(categories := FormLabels(cats.value), tags := []))
        && (cats.Some? && tagText.Some? ==>
              var slug := FormSlug(old(post.slug), if existing == post then Trim(old(post.title)) else old(post.title));
              var labelled := old(existing.Value()).(categories := FormLabels(cats.value), tags := FormLabels(tagText.value));
              var edited := Edited(labelled, old(post.title), slug, old(post.content), old(post.excerpt), old(post.isPublished));
              var expected := Rehost(body, old(blog.media), decode, times);
              && r == (if expected.Err? then Err(expected.error) else Ok(Redirect(post.GetEncodedLink())))
              && SavedAs(old(blog.disk), old(blog.posts), old(blog.media), blog.disk, blog.posts, blog.media, existing, existing.Value(), edited,
                 body, decode, times, now))
    {
      if post == null {
        return Err(ArgumentNull);
      }
      if !PostFormValid(post.Value()) {
        return Ok(View("Edit", Some(post)));
      }
      var found := blog.GetPostById(GuidText(post.id), now, true);
      var existing := found.GetOr(post);
      var cats := FormText(categories);
      var tagText := FormText(tags);
      r := UpdateExisting(existing, post, cats, tagText, body, decode, times, now);
    }

    /** `UpdatePost` once the post to change is known: the labels, the form's
        fields, the images and the save. */
    method UpdateExisting(existing: PostItem, post: PostItem, cats: Option<string>, tagText: Option<string>,
                          body: seq<Segment>, decode: string -> Option<seq<byte>>, times: seq<Ticks>, now: Ticks)
      returns (r: Result<ActionResult, Error>)
      requires blog.Valid()
      requires Render(body) == Trim(post.content) && |times| >= |body|
      modifies blog, existing
      ensures blog.Valid()
      ensures cats.None? ==>
        && r == Err(NullReference) && unchanged(blog)
        && existing.Value() == old(existing.Value()).(categories := [])
      ensures cats.Some? && tagText.None? ==>
        && r == Err(NullReference) && unchanged(blog)
        && existing.Value() == old(existing.Value()).(categories := FormLabels(cats.value), tags := [])
      ensures cats.Some? && tagText.Some? ==>
        var slug := FormSlug(old(post.slug), if existing == post then Trim(old(post.title)) else old(post.title));
        var labelled := old(existing.Value()).(categories := FormLabels(cats.value), tags := FormLabels(tagText.value));
        var edited := Edited(labelled, old(post.title), slug, old(post.content), old(post.excerpt), old(post.isPublished));
        var expected := Rehost(body, old(blog.media), decode, times);
        && r == (if expected.Err? then Err(expected.error) else Ok(Redirect(post.GetEncodedLink())))
        && SavedAs(old(blog.disk), old(blog.posts), old(blog.media), blog.disk, blog.posts, blog.media, existing, existing.Value(), edited,
                 body, decode, times, now)
    {
      var labelled := SetLabels(existing, cats, tagText);
      if labelled.Fail? {
        return Err(labelled.error);
      }
      assert existing.Value() == old(existing.Value()).(categories := FormLabels(cats.value), tags := FormLabels(tagText.value));
      assert blog.disk == old(blog.disk) && blog.posts == old(blog.posts) && blog.media == old(blog.media);
      assert post.Value() == old(post.Value()) || post == existing;
      var saved := SaveEdited(existing, post, body, decode, times, now);
      r := if saved.Fail? then Err(saved.error) else Ok(Redirect(post.GetEncodedLink()));
    }

    /** The labels of `UpdatePost`: clear the categories, fill them from the
        field's text, then the same for the tags; a field that was not posted
        throws once its list is cleared. */
    method SetLabels(existing: PostItem, cats: Option<string>, tagText: Option<string>) returns (o: Outcome<Error>)
      modifies existing`categories, existing`tags
      ensures cats.None? ==> o == Fail(NullReference) && existing.categories == [] && existing.tags == old(existing.tags)
      ensures cats.Some? && tagText.None? ==>
        o == Fail(NullReference) && existing.categories == FormLabels(cats.value) && existing.tags == []
      ensures cats.Some? && tagText.Some? ==>
        o == Pass && existing.categories == FormLabels(cats.value) && existing.tags == FormLabels(tagText.value)
    {
      existing.categories := [];
      if cats.None? {
        return Fail(NullReference);
      }
      existing.categories := FormLabels(cats.value);
      existing.tags := [];
      if tagText.None? {
        return Fail(NullReference);
      }
      existing.tags := FormLabels(tagText.value);
      o := Pass;
    }

    /** The rest of `UpdatePost` once the labels are set: the form's fields,
        the images, the save. */
    method SaveEdited(existing: PostItem, post: PostItem, body: seq<Segment>, decode: string -> Option<seq<byte>>,
                      times: seq<Ticks>, now: Ticks) returns (o: Outcome<Error>)
      requires blog.Valid()
      requires Render(body) == Trim(post.content) && |times| >= |body|
      modifies blog, existing
      ensures blog.Valid()
      ensures var slug := FormSlug(old(post.slug), if existing == post then Trim(old(post.title)) else old(post.title));
        var edited := Edited(old(existing.Value()), old(post.title), slug, old(post.content), old(post.excerpt), old(post.isPublished));
        var expected := Rehost(body, old(blog.media), decode, times);
        && o == (if expected.Err? then Fail(expected.error) else Pass)
        && SavedAs(old(blog.disk), old(blog.posts), old(blog.media), blog.disk, blog.posts, blog.media, existing, existing.Value(), edited,
                 body, decode, times, now)
    {
      TakeForm(existing, post);
      o := SaveRehosted(existing, body, decode, times, now);
    }

    /** The end of `UpdatePost`: the images of the post's content rehosted,
        then the post saved; the first image that throws ends it before the
        save. */
    method SaveRehosted(existing: PostItem, body: seq<Segment>, decode: string -> Option<seq<byte>>,
                        times: seq<Ticks>, now: Ticks) returns (o: Outcome<Error>)
      requires blog.Valid()
      requires Render(body) == existing.content && |times| >= |body|
      modifies blog, existing
      ensures blog.Valid()
      ensures var expected := Rehost(body, old(blog.media), decode, times);
        && o == (if expected.Err? then Fail(expected.error) else Pass)
        && SavedAs(old(blog.disk), old(blog.posts), old(blog.media), blog.disk, blog.posts, blog.media, existing, existing.Value(),
                   old(existing.Value()), body, decode, times, now)
    {
      ghost var edited, expected := existing.Value(), Rehost(body, blog.media, decode, times);
      var rehosted := SaveFilesToDisk(existing, body, decode, times);
      assert existing.Value() == edited.(content := existing.content);
      if rehosted.Fail? {
        assert expected.Err? && (blog.media, existing.content) == Stopped(body, old(blog.media), decode, times);
        return rehosted;
      }
      assert existing.content == Render(expected.value.0) && blog.media == expected.value.1;
      o := blog.SavePost(existing, now);
    }

    /** The field assignments of `UpdatePost` after the labels, in their
        order: the slug is made from the title `post` holds once `existing`
        has its new title, which when they are one object is the trimmed
        title. */
    method TakeForm(existing: PostItem, post: PostItem)
      modifies existing`title, existing`slug, existing`isPublished, existing`content, existing`excerpt
      ensures existing.Value() == Edited(old(existing.Value()), old(post.title),
        FormSlug(old(post.slug), if existing == post then Trim(old(post.title)) else old(post.title)),
        old(post.content), old(post.excerpt), old(post.isPublished))
    {
      var form := post.Value();
      existing.title := Trim(form.title);
      // `post.Title` read again: the new title when the two are one object
      var slug := TakeSlug(form.slug, post.title);
      existing.slug, existing.isPublished := slug, form.isPublished;
      existing.content, existing.excerpt := Trim(form.content), Trim(form.excerpt);
    }

    /** The slug assignment of `UpdatePost`: the form's slug trimmed, or
        `CreateSlug` of the title when it is blank. */
    static method TakeSlug(formSlug: string, slugTitle: string) returns (slug: string)
      ensures slug == FormSlug(formSlug, slugTitle)
    {
      if !IsNullOrWhiteSpace(formSlug) {
        slug := Trim(formSlug);
      } else {
        slug := CreateSlug(Some(slugTitle));
      }
    }

    /** `DeletePost`: delete the post with the id, as the administrator sees
        the store, and go home; without such a post, not found. */
    method DeletePost(id: string, now: Ticks) returns (r: ActionResult)
      requires blog.Valid()
      modifies blog
      ensures blog.Valid() && blog.media == old(blog.media)
      ensures var found := old(blog.GetPostById(id, now, true));
        && (found.None? ==> r == NotFound && unchanged(blog))
        && (found.Some? ==>
              && r == Redirect("/")
              && found.value !in blog.posts && found.value.id !in blog.disk
              && blog.posts == RemoveFirst(old(blog.posts), found.value)
              && blog.disk == old(blog.disk) - {found.value.id})
    {
      var post := blog.GetPostById(id, now, true);
      if post.None? {
        return NotFound;
      }
      var deleted := blog.DeletePost(post.value);
      assert blog.posts == RemoveFirst(old(blog.posts), post.value) && blog.disk == old(blog.disk) - {post.value.id};
      r := Redirect("/");
    }

    /** `SaveFilesToDisk`: the tags the search finds in the content, in
        order, each handled by one turn: its bytes saved through `SaveFile`
        at the time of its turn, and its rewrite put in place of every copy
        of it in the content; the first exception ends the loop. */
    method SaveFilesToDisk(post: PostItem, body: seq<Segment>, decode: string -> Option<seq<byte>>, times: seq<Ticks>)
      returns (o: Outcome<Error>)
      requires Render(body) == post.content && |times| >= |body|
      modifies post`content, blog`media
      ensures var expected := Rehost(body, old(blog.media), decode, times);
        && (o.Pass? <==> expected.Ok?)
        && (o.Pass? ==> post.content == Render(expected.value.0) && blog.media == expected.value.1)
        && (o.Fail? ==> o.error == expected.error)
        && (o.Fail? ==> (blog.media, post.content) == Stopped(body, old(blog.media), decode, times))
    {
      ghost var files, plan := FilePlan(body, decode, times), Plan(body, times);
      var cur := body;
      var i := 0;
      while i < |body|
        invariant 0 <= i <= |body|
        invariant Saves(files, old(blog.media), i) == Ok(blog.media)
        invariant cur == Segs(body, plan, i) && post.content == Render(cur)
      {
        var next := RehostTurn(post, body, decode, times, i, cur);
        if next.Err? {
          RehostStopsAtError(files, old(blog.media), i + 1, |body|);
          StoppedIs(body, old(blog.media), decode, times, i, blog.media, post.content);
          return Fail(next.error);
        }
        cur := next.value;
        i := i + 1;
      }
      o := Pass;
    }

    /** The turn of the loop for the tag `body[i]`: the folder as the turn
        says, and the content with the rewrite of the tag, when the loop
        rewrites it, in place of every copy of it. */
    method RehostTurn(post: PostItem, body: seq<Segment>, decode: string -> Option<seq<byte>>, times: seq<Ticks>,
                      i: nat, cur: seq<Segment>) returns (r: Result<seq<Segment>, Error>)
      requires i < |body| <= |times| && post.content == Render(cur)
      modifies post`content, blog`media
      ensures var expected := SaveTurn(FilePlan(body, decode, times)[i], old(blog.media));
        && (r.Ok? <==> expected.Ok?)
        && (r.Err? ==> r.error == expected.error && blog.media == old(blog.media) && post.content == old(post.content))
        && (r.Ok? ==> blog.media == expected.value && post.content == Render(r.value))
        && (r.Ok? ==> r.value == match Plan(body, times)[i]
                                 case None => cur
                                 case Some(tag) => ReplaceCopies(cur, SegmentText(body[i]), tag))
    {
      var next := RehostImage(body[i], decode, times[i]);
      if next.Err? {
        return Err(next.error);
      }
      r := Ok(cur);
      if next.value.Some? {
        r := Ok(ReplaceCopies(cur, SegmentText(body[i]), next.value.value));
        post.content := Render(r.value);
      }
    }

    /** The handling of one tag in `SaveFilesToDisk`: the folder as the
        tag's `TurnFile` says, the file saved through `SaveFile`, and the
        rewrite of a tag the loop rewrites; `None` when the loop goes on to
        the next tag. */
    method RehostImage(seg: Segment, decode: string -> Option<seq<byte>>, now: Ticks)
      returns (r: Result<Option<Segment>, Error>)
      modifies blog`media
      ensures var expected := SaveTurn(TurnFile(seg, decode, now), old(blog.media));
        && (r.Ok? <==> expected.Ok?)
        && (r.Ok? ==> blog.media == expected.value)
        && (r.Ok? ==> r.value == if Rewrites(seg) then Some(Rewritten(seg, now)) else None)
        && (r.Err? ==> r.error == expected.error && blog.media == old(blog.media))
    {
      match seg {
        case Text(_) =>
          return Ok(None);
        case Img(raw, _, parsed) =>
          if parsed.None? || !UniqueNames(parsed.value) {
            assert TurnFile(seg, decode, now) == Throw(BadFormat);
            return Err(BadFormat);
          }
          var attrs := parsed.value;
          if !Rehostable(attrs) {
            assert TurnFile(seg, decode, now) == NoFile;
            return Ok(None);
          }
          r := SaveImage(seg, decode, now);
      }
    }

    /** The turn of a tag the loop rewrites: `FormatException` when its
        payload does not decode, the exception of `SaveFile`, or the bytes
        saved and the rewrite of the tag. */
    method SaveImage(seg: Segment, decode: string -> Option<seq<byte>>, now: Ticks)
      returns (r: Result<Option<Segment>, Error>)
      requires Rewrites(seg)
      modifies blog`media
      ensures var expected := SaveTurn(TurnFile(seg, decode, now), old(blog.media));
        && (r.Ok? <==> expected.Ok?)
        && (r.Ok? ==> blog.media == expected.value && r.value == Some(Rewritten(seg, now)))
        && (r.Err? ==> r.error == expected.error && blog.media == old(blog.media))
    {
      var attrs := seg.attrs.value;
      var fileName := Lookup(attrs, "data-filename").value;
      var bytes := decode(DataUri(Lookup(attrs, "src").value).value);
      TurnFileCases(seg, decode, now);
      if bytes.None? {
        return Err(BadFormat);
      }
      var path := blog.SaveFile(bytes, fileName, None, now);
      if path.Err? {
        return Err(path.error);
      }
      var rehosted := Rehosted(attrs, path.value);
      var tag := Img(OuterXml(seg.name, rehosted), seg.name, Some(rehosted));
      assert Rewritten(seg, now) == tag;
      r := Ok(Some(tag));
    }
  }

  /** `UpdatePost` on a stored post dated after `now`: the lookup by id
      hides it even from the administrator, so `existing` is the form's
      own post object, and saving that object puts a second post with the
      same id in the list. */
  lemma FutureDatedEditDuplicates(ps: seq<PostItem>, q: PostItem, form: PostItem, now: Ticks)
    requires Unique(ps) && q in ps && form !in ps && form.id == q.id && q.publishDate > now
    requires forall p :: p in ps && p.id == q.id ==> p == q
    ensures Find(ps, ById(GuidText(form.id)), now, true).GetOr(form) == form
    ensures var saved := ps + [form];
      Unique(saved) && q in saved && form in saved && q != form && q.id == form.id
  {
    var k := FirstMatch(ps, ById(GuidText(form.id)));
    FirstMatchOfGuid(ps, GuidText(form.id), q.id);
    var i :| 0 <= i < |ps| && ps[i] == q;
    assert k <= i;
    var saved := ps + [form];
    forall a, b | 0 <= a < b < |saved| ensures saved[a] != saved[b] {
      if b == |ps| {
        assert saved[a] == ps[a] && saved[b] == form;
      } else {
        assert saved[a] == ps[a] && saved[b] == ps[b];
      }
    }
  }
}
