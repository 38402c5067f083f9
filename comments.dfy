/** `CommentItem`: a comment on a post, its form validation and its Gravatar
    address. MD5 is a parameter producing a sixteen-byte digest. */
module Comments {
  import opened Wrappers
  import opened Text
  import opened Encoding
  import opened Ids

  /** A comment, as a value: the controller fills one from the form and the
      store keeps it in a post's list. */
  datatype Comment = Comment(
    id: Guid,
    isAdmin: bool,
    author: string,
    email: string,
    content: string,
    publishDate: Ticks)

  /** `new CommentItem()`, given the fresh `Guid.NewGuid()` and `DateTime.UtcNow`:
      not an administrator's, with empty author, email and content. */
  function NewComment(id: Guid, now: Ticks): (c: Comment)
    ensures c.id == id && c.publishDate == now
    ensures !c.isAdmin && c.author == "" && c.email == "" && c.content == ""
  {
    Comment(id, false, "", "", "", now)
  }

  /** `[EmailAddress]`: exactly one `@`, neither first nor last. */
  predicate IsEmailAddress(s: string) {
    var at := IndexOf(s, '@');
    0 < at < |s| - 1 && '@' !in s[at + 1..]
  }

  /** The model validation of the comment form: `[Required]` refuses an empty
      or all-blank author, email or content, and `[EmailAddress]` the email. */
  predicate CommentFormValid(c: Comment) {
    !IsNullOrWhiteSpace(c.author) && !IsNullOrWhiteSpace(c.email) && IsEmailAddress(c.email)
    && !IsNullOrWhiteSpace(c.content)
  }

  /** A comment left at its defaults does not pass validation. */
  lemma NewCommentInvalid(id: Guid, now: Ticks)
    ensures !CommentFormValid(NewComment(id, now))
  {
  }

  /** An email address has one `@` with text on both sides. */
  lemma {:induction false} EmailAddressShape(s: string)
    ensures IsEmailAddress(s) <==>
      exists k :: 0 < k < |s| - 1 && s[k] == '@' && '@' !in s[..k] && '@' !in s[k + 1..]
  {
    var at := IndexOf(s, '@');
    if IsEmailAddress(s) {
      assert '@' !in s[..at] by {
        forall i | 0 <= i < at ensures s[..at][i] != '@' { }
      }
    }
    if exists k :: 0 < k < |s| - 1 && s[k] == '@' && '@' !in s[..k] && '@' !in s[k + 1..] {
      var k :| 0 < k < |s| - 1 && s[k] == '@' && '@' !in s[..k] && '@' !in s[k + 1..];
      assert at == k;
    }
  }

  /** `RenderContent()`: the content as stored. */
  function RenderContent(c: Comment): string {
    c.content
  }

  type Digest = s: seq<byte> | |s| == 16 witness [0, 0, 0, 0, 0, 0, 0, 0, 0, 0, 0, 0, 0, 0, 0, 0]

  /** What the hash is taken of: the email, trimmed and lower-cased. */
  function GravatarKey(email: string): string {
    Lower(Trim(email))
  }

  const GravatarPrefix: string := "https://www.gravatar.com/avatar/"
  const GravatarSuffix: string := "?s=60&d=blank"

  /** The Gravatar address of a digest: the fixed prefix and suffix around the
      digest's lower-case hexadecimal form, which reads back as the digest. */
  function GravatarUrl(hash: seq<byte>): (url: string)
    ensures |url| == |GravatarPrefix| + 2 * |hash| + |GravatarSuffix|
    ensures url[..|GravatarPrefix|] == GravatarPrefix
    ensures url[|GravatarPrefix| + 2 * |hash|..] == GravatarSuffix
    ensures ParseHex(url[|GravatarPrefix|..|GravatarPrefix| + 2 * |hash|]) == Some(hash)
    ensures forall i :: |GravatarPrefix| <= i < |GravatarPrefix| + 2 * |hash| ==> IsLowerHexDigit(url[i])
  {
    var hex := HexLower(hash);
    var url := GravatarPrefix + hex + GravatarSuffix;
    assert url[|GravatarPrefix|..|GravatarPrefix| + 2 * |hash|] == hex;
    ParseHexLower(hash);
    HexLowerDigits(hash);
    assert forall i :: |GravatarPrefix| <= i < |GravatarPrefix| + 2 * |hash| ==> url[i] == hex[i - |GravatarPrefix|];
    url
  }

  /** `GetGravatar()`: hash the UTF-8 bytes of the key, append each byte as
      `X2`, lower-case the digits and put them in the address. */
  method GetGravatar(c: Comment, md5: seq<byte> -> Digest) returns (url: string)
    ensures url == GravatarUrl(md5(Utf8(GravatarKey(c.email))))
  {
    var inputBytes := Utf8(Lower(Trim(c.email)));
    var hashBytes := md5(inputBytes);
    var sb := "";
    for i := 0 to |hashBytes|
      invariant sb == HexUpper(hashBytes[..i])
    {
      HexUpperConcat(hashBytes[..i], [hashBytes[i]]);
      assert hashBytes[..i + 1] == hashBytes[..i] + [hashBytes[i]];
      assert HexUpper([hashBytes[i]]) == X2(hashBytes[i]);
      sb := sb + X2(hashBytes[i]);
    }
    assert hashBytes[..|hashBytes|] == hashBytes;
    LowerOfHexUpper(hashBytes);
    url := GravatarPrefix + Lower(sb) + GravatarSuffix;
  }

  /** Emails that differ only in case, or by white space around them, have
      the same key, hence the same Gravatar. */
  lemma GravatarKeyIgnoresCaseAndPadding(a: string, b: string, w1: string, w2: string)
    requires EqualsIgnoreCase(a, b)
    requires IsNullOrWhiteSpace(w1) && IsNullOrWhiteSpace(w2)
    ensures GravatarKey(w1 + a + w2) == GravatarKey(b)
  {
    TrimIgnoresPadding(w1, a, w2);
    TrimLowerCommute(a);
    TrimLowerCommute(b);
  }
}
