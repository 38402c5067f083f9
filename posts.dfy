/** `PostItem`: a blog post. The store hands out the very objects it keeps,
    and the controller edits them in place, so a post is a class. */
module Posts {
  import opened Wrappers
  import opened Text
  import opened Encoding
  import opened Ids
  import opened Comments

  /** `DateTime.MaxValue.Ticks`. */
  const MaxTicks: nat := 3_155_378_975_999_999_999

  /** The fields of a post, as one value. */
  datatype PostValue = PostValue(
    id: Guid,
    title: string,
    author: string,
    content: string,
    excerpt: string,
    slug: string,
    categories: seq<string>,
    tags: seq<string>,
    comments: seq<Comment>,
    isPublished: bool,
    publishDate: Ticks,
    lastModified: Ticks)

  const LinkPrefix: string := "/blog/"

  class PostItem {
    var id: Guid
    var title: string
    var author: string
    var content: string
    var excerpt: string
    var slug: string
    var categories: seq<string>
    var tags: seq<string>
    var comments: seq<Comment>
    var isPublished: bool
    var publishDate: Ticks
    var lastModified: Ticks

    /** `new PostItem()`, given the fresh `Guid.NewGuid()` and `DateTime.UtcNow`:
        published, dated now, with empty text and empty lists. */
    constructor (id: Guid, now: Ticks)
      ensures Value() == PostValue(id, "", "", "", "", "", [], [], [], true, now, now)
    {
      this.id := id;
      title, author, content, excerpt, slug := "", "", "", "", "";
      categories, tags, comments := [], [], [];
      isPublished := true;
      publishDate, lastModified := now, now;
    }

    function Value(): PostValue
      reads this
    {
      PostValue(id, title, author, content, excerpt, slug, categories, tags, comments,
        isPublished, publishDate, lastModified)
    }

    /** `IsVisible()`: published and not dated after `now`. */
    predicate IsVisible(now: Ticks)
      reads this
    {
      publishDate <= now && isPublished
    }

    /** The filter of the store's queries: not dated after `now`, and
        published unless the reader is the administrator. */
    predicate ShownTo(now: Ticks, isAdmin: bool)
      reads this
    {
      publishDate <= now && (isPublished || isAdmin)
    }

    /** `PublishDate.AddDays(days)`: out of `DateTime`'s range it throws. */
    function CommentsCloseAt(days: int): (r: Result<Ticks, Error>)
      reads this
      ensures r.Ok? <==> 0 <= publishDate + days * TicksPerDay <= MaxTicks
      ensures r.Ok? ==> r.value == publishDate + days * TicksPerDay
      ensures r.Err? ==> r.error == ArgumentOutOfRange
    {
      var t := publishDate + days * TicksPerDay;
      if 0 <= t <= MaxTicks then Ok(t) else Err(ArgumentOutOfRange)
    }

    /** `AreCommentsOpen(days)`: whether `now` is no later than `days` days
        after publication; the date arithmetic may throw. */
    function AreCommentsOpen(days: int, now: Ticks): (r: Result<bool, Error>)
      reads this
      ensures r.Ok? <==> CommentsCloseAt(days).Ok?
      ensures r.Ok? ==> (r.value <==> now <= publishDate + days * TicksPerDay)
    {
      match CommentsCloseAt(days)
      case Ok(close) => Ok(close >= now)
      case Err(e) => Err(e)
    }

    /** `GetLink()`: the slug between `/blog/` and `/`, unencoded. */
    function GetLink(): (r: string)
      reads this
      ensures |r| == |slug| + 7 && r[..6] == LinkPrefix && r[|r| - 1] == '/'
      ensures r[6..|r| - 1] == slug
    {
      LinkPrefix + slug + "/"
    }

    /** `GetEncodedLink()`: the URL-encoded slug between `/blog/` and `/`;
        the encoded slug has no `/`, `#` or `?`, so the link is one path
        segment under `/blog/`. */
    function GetEncodedLink(): (r: string)
      reads this
      ensures |r| >= 7 && r[..6] == LinkPrefix && r[|r| - 1] == '/'
      ensures r[6..|r| - 1] == UrlEncode(slug)
      ensures forall i :: 6 <= i < |r| - 1 ==> r[i] != '/' && r[i] != '#' && r[i] != '?'
    {
      var e := UrlEncode(slug);
      UrlEncodeAlphabet(slug);
      var r := LinkPrefix + e + "/";
      assert forall i :: 6 <= i < |r| - 1 ==> r[i] == e[i - 6];
      r
    }
  }

  /** A post is visible exactly when it is shown to a reader who is not the
      administrator; the administrator also sees unpublished posts, but not
      future-dated ones. */
  lemma VisibleIsShownToVisitors(p: PostItem, now: Ticks)
    ensures p.IsVisible(now) <==> p.ShownTo(now, false)
    ensures p.ShownTo(now, true) <==> p.publishDate <= now
    ensures p.ShownTo(now, false) ==> p.ShownTo(now, true)
  {
  }

  /** Comments that are open stay open for an earlier reader and for a longer
      closing period. */
  lemma CommentsOpenMonotone(p: PostItem, days: int, longer: int, now: Ticks, earlier: Ticks)
    requires p.AreCommentsOpen(days, now) == Ok(true)
    requires days <= longer && earlier <= now && p.CommentsCloseAt(longer).Ok?
    ensures p.AreCommentsOpen(longer, earlier) == Ok(true)
  {
    assert days * TicksPerDay <= longer * TicksPerDay;
  }

  /** A slug made of URL-safe characters links the same encoded or not. */
  lemma EncodedLinkOfSafeSlug(p: PostItem)
    requires forall i :: 0 <= i < |p.slug| ==> IsUrlSafe(p.slug[i])
    ensures p.GetEncodedLink() == p.GetLink()
  {
    UrlEncodeSafe(p.slug);
  }

  /** The model validation of the post form: `[Required]` refuses an empty or
      all-blank title, content or excerpt. */
  predicate PostFormValid(v: PostValue) {
    !IsNullOrWhiteSpace(v.title) && !IsNullOrWhiteSpace(v.content) && !IsNullOrWhiteSpace(v.excerpt)
  }
}
