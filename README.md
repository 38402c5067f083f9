# CoreBlog store, editing rules and user check in Dafny

A model of the core of LearnMsNet.CoreBlog, a file-backed ASP.NET blog
engine, with proofs about it:

- the in-memory post store `FileBlogService`;
- the `PostItem` and `CommentItem` records;
- the user store `FileUserService`;
- the rules `HomeController` applies when a post is edited, a comment is
  added or deleted, a page of posts is shown, and the base64 images an
  editor embeds in a post are moved into files.

The store is a class. It has three fields:

- `posts`: the `List<PostItem>`, holding post objects;
- `disk`: the `Data\Posts` folder, a map from post id to the document the
  post's XML file holds;
- `media`: the `files` folder, a map from file name to bytes.

`PostItem` is a class too, because the controller changes stored posts in
place and the list is compared by reference. Comments, users and post
documents are values. The clock, the "is the caller signed in" test, MD5,
PBKDF2 and base64 decoding are parameters.

The library behaviour the code relies on is written out as functions with
proved properties:

- `Trim` and `ToLowerInvariant` (ASCII and Latin-1), `Split` with
  `RemoveEmptyEntries`, `Skip`/`Take`, `Distinct` and `List.Remove`;
- `Guid.ToString`, the `X2` and `BitConverter` hex renderings,
  `WebUtility.UrlEncode`, `Path.GetExtension` and
  `GetFileNameWithoutExtension` with Windows separators;
- form-D decomposition of the Latin-1 letters with diacritics;
- the data-URI regular expression.

Modules, one per file:

| module | models |
|---|---|
| `Wrappers` | `Option`, `Result`, `Outcome` and the exceptions the code throws |
| `Sequences` | the LINQ and `List<T>` operations |
| `Text` | white space, `Trim`, lower case, reserved-character removal, `Split`/`Join` |
| `Encoding` | UTF-8, hexadecimal renderings and their parser, decimal, URL encoding |
| `Ids` | tick timestamps and their millisecond storage; `Guid` and its text |
| `Paths` | `Path.GetFileName`, `GetExtension`, `GetFileNameWithoutExtension` |
| `Slugs` | `PostItem.CreateSlug`, `RemoveDiacritics`, `RemoveReservedUrlCharacters` |
| `Comments` | `CommentItem`, its validation and `GetGravatar` |
| `Posts` | `PostItem`: defaults, visibility, comments open, links |
| `Storage` | the post XML document as written by `SavePost` and read by `LoadPosts` |
| `Blog` | `FileBlogService` |
| `Media` | the image rewriting of `SaveFilesToDisk` |
| `Home` | `HomeController` |
| `Users` | `FileUserService` |

Choices where the code is easy to misread:

- A post dated in the future is hidden from every query, the
  administrator's included (`PublishDate <= now` is required alongside
  `IsPublished || isAdmin`).
- `SortPosts` throws `NotImplementedException` in the source. The model
  keeps the list in load order and leaves the posts it loads unsorted;
  see "Left out".

## Model

| member | source | states |
|---|---|---|
| Sequences.Skip | src/LearnMsNet.CoreBlog/Services/FileBlogService.cs:155 | `Skip(n)` keeps the last `|s| - n` elements; all of them when `n <= 0`, none when `n >= |s|` |
| Sequences.Take | src/LearnMsNet.CoreBlog/Services/FileBlogService.cs:156 | `Take(n)` keeps the first `n` elements, all when there are fewer, none when `n <= 0` |
| Sequences.SkipTakeSlice | src/LearnMsNet.CoreBlog/Services/FileBlogService.cs:153-157 | skipping `a` then taking `b` is the slice from `min(a, |s|)` to `min(a + b, |s|)` |
| Sequences.SkipTakeClamped | src/LearnMsNet.CoreBlog/Services/FileBlogService.cs:147-160 | the same slice for any integer counts, a negative skip dropping nothing and a non-positive count keeping nothing |
| Sequences.FirstIndex | src/LearnMsNet.CoreBlog/Services/FileBlogService.cs:94-96 | `IndexOf`: the first index holding `x`; it is `|s|` exactly when `x` is absent |
| Sequences.FirstWhere | src/LearnMsNet.CoreBlog/Services/FileBlogService.cs:117 | `FirstOrDefault`: the first index whose element satisfies the predicate, none before it does |
| Sequences.RemoveFirst | src/LearnMsNet.CoreBlog/Services/FileBlogService.cs:94-97 | `List.Remove`: one fewer element when present, the list unchanged when absent, the multiset less one `x` |
| Sequences.RemovedAt | src/LearnMsNet.CoreBlog/Services/FileBlogService.cs:96 | elements before the first occurrence stay in place; later ones move down by one |
| Sequences.RemoveFromDistinct | src/LearnMsNet.CoreBlog/Services/FileBlogService.cs:94-97 | in a list without repeats, removal leaves `x` absent, keeps every other element and adds no repeat |
| Sequences.Distinct | src/LearnMsNet.CoreBlog/Services/FileBlogService.cs:110 | `Distinct`: no repeats, exactly the input's members, never longer |
| Sequences.DistinctOfDistinct | src/LearnMsNet.CoreBlog/Services/FileBlogService.cs:194 | `Distinct` of a list without repeats is that list |
| Text.TrimStartShape | src/LearnMsNet.CoreBlog/Controllers/HomeController.cs:50-52 | `TrimStart` drops exactly the leading white space: a suffix of the input, all cut characters white space, the first kept one not |
| Text.TrimEndShape | src/LearnMsNet.CoreBlog/Controllers/HomeController.cs:50-52 | `TrimEnd` drops exactly the trailing white space |
| Text.TrimShape | src/LearnMsNet.CoreBlog/Controllers/HomeController.cs:232-236 | `Trim` is the slice between the leading and trailing white space; neither end of it is white space; it is empty exactly when the input is blank |
| Text.TrimBlank | src/LearnMsNet.CoreBlog/Controllers/HomeController.cs:233 | `Trim(s)` is empty iff `IsNullOrWhiteSpace(s)`, and otherwise starts and ends with non-white space |
| Text.TrimIgnoresPadding | src/LearnMsNet.CoreBlog/Models/CommentItem.cs:29 | white space added on either side does not change `Trim` |
| Text.TrimStartPadding | src/LearnMsNet.CoreBlog/Models/CommentItem.cs:29 | leading white space added does not change `TrimStart` |
| Text.TrimEndPadding | src/LearnMsNet.CoreBlog/Models/CommentItem.cs:29 | trailing white space added does not change `TrimEnd` |
| Text.LowerIsLower | src/LearnMsNet.CoreBlog/Services/FileBlogService.cs:61 | `ToLowerInvariant` is idempotent: its result is lower case |
| Text.LowerConcat | src/LearnMsNet.CoreBlog/Models/PostItem.cs:49-54 | lower-casing a concatenation lower-cases each part |
| Text.TrimLowerCommute | src/LearnMsNet.CoreBlog/Controllers/HomeController.cs:224 | trimming then lower-casing equals lower-casing then trimming |
| Text.Without | src/LearnMsNet.CoreBlog/Models/PostItem.cs:104 | removing a set of characters keeps only characters of the input outside the set |
| Text.WithoutConcat | src/LearnMsNet.CoreBlog/Models/PostItem.cs:102-105 | removal works piece by piece on a concatenation |
| Text.WithoutTwice | src/LearnMsNet.CoreBlog/Models/PostItem.cs:102-105 | removing one set and then another removes their union |
| Text.WithoutNothing | src/LearnMsNet.CoreBlog/Models/PostItem.cs:102-105 | removing no character changes nothing |
| Text.WithoutAbsent | src/LearnMsNet.CoreBlog/Models/PostItem.cs:104 | removing characters the text does not hold changes nothing |
| Text.WithoutMember | src/LearnMsNet.CoreBlog/Models/PostItem.cs:98-108 | removal never adds a character: what is left was in the input and is outside the set |
| Text.WithoutKeeps | src/LearnMsNet.CoreBlog/Models/PostItem.cs:98-108 | removal keeps every character outside the set |
| Text.IndexOf | src/LearnMsNet.CoreBlog/Controllers/HomeController.cs:223 | the first index of a character, `|s|` when there is none |
| Text.Split | src/LearnMsNet.CoreBlog/Controllers/HomeController.cs:223 | `Split(",")` gives at least one piece and no piece holds the separator |
| Text.JoinSplit | src/LearnMsNet.CoreBlog/Controllers/HomeController.cs:223 | joining the pieces with the separator gives back the text: splitting loses nothing |
| Text.SplitJoin | src/LearnMsNet.CoreBlog/Controllers/HomeController.cs:223 | splitting a join of pieces without the separator gives back the pieces |
| Text.NonEmpty | src/LearnMsNet.CoreBlog/Controllers/HomeController.cs:223 | `RemoveEmptyEntries` drops exactly the empty pieces: the result is the input's multiset with every empty piece removed, and holds only non-empty pieces of the input |
| Text.NonEmptyConcat | src/LearnMsNet.CoreBlog/Controllers/HomeController.cs:223 | `RemoveEmptyEntries` works piece by piece, so the kept pieces stay in their order |
| Text.NonEmptyOfNonEmpty | src/LearnMsNet.CoreBlog/Controllers/HomeController.cs:228 | with no empty piece, `RemoveEmptyEntries` changes nothing |
| Encoding.Utf8Char | src/LearnMsNet.CoreBlog/Models/CommentItem.cs:29 | a character is one to four UTF-8 bytes; one byte, its code, exactly for ASCII |
| Encoding.Utf8 | src/LearnMsNet.CoreBlog/Models/CommentItem.cs:29 | the UTF-8 bytes of a string number between one and four per character |
| Encoding.X2 | src/LearnMsNet.CoreBlog/Models/CommentItem.cs:36 | `ToString("X2")` is exactly two characters |
| Encoding.HexUpper | src/LearnMsNet.CoreBlog/Models/CommentItem.cs:33-37 | the loop's string has two characters per hash byte |
| Encoding.HexUpperConcat | src/LearnMsNet.CoreBlog/Models/CommentItem.cs:34-37 | the rendering of a concatenation is the renderings one after the other, in byte order |
| Encoding.HexLower | src/LearnMsNet.CoreBlog/Models/CommentItem.cs:39 | the lower-case rendering has two characters per byte |
| Encoding.HexUpperAt | src/LearnMsNet.CoreBlog/Models/CommentItem.cs:36 | characters `2i` and `2i + 1` are the upper-case digits of byte `i`'s high and low halves |
| Encoding.HexLowerAt | src/LearnMsNet.CoreBlog/Models/CommentItem.cs:39 | the same for the lower-case rendering |
| Encoding.LowerOfHexUpper | src/LearnMsNet.CoreBlog/Models/CommentItem.cs:36-39 | lower-casing the `X2` rendering gives the lower-case rendering |
| Encoding.HexLowerDigits | src/LearnMsNet.CoreBlog/Models/CommentItem.cs:39 | the lower-case rendering holds only `0-9a-f` |
| Encoding.HexUpperDigits | src/LearnMsNet.CoreBlog/Services/FileUserService.cs:100 | the `X2`/`BitConverter` digits are only `0-9A-F` |
| Encoding.ParseHex | src/LearnMsNet.CoreBlog/Models/CommentItem.cs:34-39 | the partner parser: a parsed string has two digits per byte |
| Encoding.ParseHexUpper | src/LearnMsNet.CoreBlog/Models/CommentItem.cs:34-37 | parsing the upper-case rendering gives back the bytes |
| Encoding.ParseHexLower | src/LearnMsNet.CoreBlog/Models/CommentItem.cs:39 | parsing the lower-case rendering gives back the bytes, so the Gravatar hex determines the hash |
| Encoding.BitConverterText | src/LearnMsNet.CoreBlog/Services/FileUserService.cs:100 | `BitConverter.ToString` of `n > 0` bytes has `3n - 1` characters |
| Encoding.BitConverterWithoutDashes | src/LearnMsNet.CoreBlog/Services/FileUserService.cs:100 | removing `-` from `BitConverter.ToString` gives the plain upper-case rendering |
| Encoding.Decimal | src/LearnMsNet.CoreBlog/Services/FileBlogService.cs:208 | the invariant decimal text of the ticks is non-empty and all digits |
| Encoding.DecimalRoundTrip | src/LearnMsNet.CoreBlog/Services/FileBlogService.cs:208 | the decimal text reads back as the number, so distinct ticks give distinct texts |
| Encoding.PercentEncode | src/LearnMsNet.CoreBlog/Models/PostItem.cs:41 | each UTF-8 byte of an unsafe character becomes three characters |
| Encoding.UrlEncode | src/LearnMsNet.CoreBlog/Models/PostItem.cs:41 | URL encoding never shortens a string |
| Encoding.UrlEncodeSafe | src/LearnMsNet.CoreBlog/Models/PostItem.cs:41 | a string of safe characters is its own URL encoding |
| Encoding.UrlEncodeAlphabet | src/LearnMsNet.CoreBlog/Models/PostItem.cs:41 | a URL encoding holds only safe characters, `+` and `%`, so never `/`, `#` or `?` |
| Ids.DateRoundTrip | src/LearnMsNet.CoreBlog/Services/FileBlogService.cs:362-369 | a date written to the millisecond reads back at most 1 ms early, exactly when it was a whole millisecond |
| Ids.GuidTextFormat | src/LearnMsNet.CoreBlog/Services/FileBlogService.cs:117 | `Guid.ToString()` is the 8-4-4-4-12 groups of lower-case hex digits separated by dashes |
| Ids.GuidTextLower | src/LearnMsNet.CoreBlog/Services/FileBlogService.cs:117 | `Guid.ToString()` is lower case |
| Ids.GuidTextInjective | src/LearnMsNet.CoreBlog/Services/FileBlogService.cs:117 | distinct Guids have distinct texts |
| Ids.GuidTextEqualsIgnoreCase | src/LearnMsNet.CoreBlog/Services/FileBlogService.cs:117 | comparing Guid texts ignoring case is comparing the Guids |
| Paths.GetFileNameShape | src/LearnMsNet.CoreBlog/Services/FileBlogService.cs:211 | `GetFileName` is the tail of the path after its last `\` or `/` and after a drive root `X:`; it holds no separator and never the drive root |
| Paths.FileNameStart | src/LearnMsNet.CoreBlog/Services/FileBlogService.cs:211 | the file name starts past the last separator, and past the drive root when that comes later |
| Paths.DriveRootCut | src/LearnMsNet.CoreBlog/Services/FileBlogService.cs:211 | `C:photo.png` names `photo.png`: a drive root directly before the name is cut |
| Paths.LastIndexOf | src/LearnMsNet.CoreBlog/Services/FileBlogService.cs:210 | the index of the last occurrence, or -1, none after it |
| Paths.CutAtLastDot | src/LearnMsNet.CoreBlog/Services/FileBlogService.cs:211 | a name cut at its last `.`, all of it when there is no `.` |
| Paths.GetFileNameWithoutExtension | src/LearnMsNet.CoreBlog/Services/FileBlogService.cs:57 | the file name, drive root cut, cut before its last `.` |
| Paths.DotScan | src/LearnMsNet.CoreBlog/Services/FileBlogService.cs:210 | the backward scan of `GetExtension` stops at a `.` with no `.` or separator after it |
| Paths.GetExtension | src/LearnMsNet.CoreBlog/Controllers/HomeController.cs:278 | the extension is empty, or a suffix of the path of two or more characters starting with its only `.` and holding no separator |
| Paths.ExtensionFromLastDot | src/LearnMsNet.CoreBlog/Controllers/HomeController.cs:278 | the extension is the file name from its last `.`, empty when there is no `.` or it is last |
| Paths.NameAndExtension | src/LearnMsNet.CoreBlog/Services/FileBlogService.cs:210-213 | name without extension followed by extension is the file name, save for a trailing `.` which is dropped |
| Slugs.CombiningMarksAre | src/LearnMsNet.CoreBlog/Models/PostItem.cs:88-89 | the set of characters dropped is exactly the non-spacing marks |
| Slugs.Decompose | src/LearnMsNet.CoreBlog/Models/PostItem.cs:83 | a character decomposes to itself, or to an ASCII letter and a non-spacing mark |
| Slugs.Decomposed | src/LearnMsNet.CoreBlog/Models/PostItem.cs:83 | form D is between one and two characters per character |
| Slugs.DecomposedConcat | src/LearnMsNet.CoreBlog/Models/PostItem.cs:83 | form D works character by character |
| Slugs.DecomposedChars | src/LearnMsNet.CoreBlog/Models/PostItem.cs:83 | a character of form D that is neither a letter nor a mark was in the input |
| Slugs.DecomposedPlain | src/LearnMsNet.CoreBlog/Models/PostItem.cs:83 | characters below U+00C0 are their own form D |
| Slugs.DiacriticDropped | src/LearnMsNet.CoreBlog/Models/PostItem.cs:83-95 | a letter with a diacritic leaves only its base letter |
| Slugs.RemoveDiacritics | src/LearnMsNet.CoreBlog/Models/PostItem.cs:81-96 | the loop keeps exactly the non-mark characters of form D, in order |
| Slugs.RemoveReservedUrlCharacters | src/LearnMsNet.CoreBlog/Models/PostItem.cs:98-108 | the text without any reserved character, the rest in order |
| Slugs.RemoveEach | src/LearnMsNet.CoreBlog/Models/PostItem.cs:100-105 | after the loop over the list, no character of the list is left |
| Slugs.LowerKeepsUnreserved | src/LearnMsNet.CoreBlog/Models/PostItem.cs:54 | the final lower-casing brings back no reserved character |
| Slugs.CreateSlug | src/LearnMsNet.CoreBlog/Models/PostItem.cs:47-55 | the slug is: lower case, space to dash, diacritics removed, reserved characters removed, lower case |
| Slugs.SlugOfNull | src/LearnMsNet.CoreBlog/Models/PostItem.cs:49-50 | a null title gives the empty slug |
| Slugs.SlugShape | src/LearnMsNet.CoreBlog/Models/PostItem.cs:47-55 | a slug is lower case and holds no space, no reserved character and no non-spacing mark |
| Slugs.PlainTitleSlug | src/LearnMsNet.CoreBlog/Models/PostItem.cs:47-55 | for a title of ASCII letters, digits and spaces the slug is the title lower-cased with dashes for spaces |
| Comments.NewComment | src/LearnMsNet.CoreBlog/Models/CommentItem.cs:8-21 | a new comment is not the administrator's, has empty author, email and content, and the current date |
| Comments.NewCommentInvalid | src/LearnMsNet.CoreBlog/Models/CommentItem.cs:11-18 | a comment left at its defaults fails the `[Required]` checks |
| Comments.EmailAddressShape | src/LearnMsNet.CoreBlog/Models/CommentItem.cs:14 | `[EmailAddress]` accepts exactly one `@` with text on both sides |
| Comments.GravatarUrl | src/LearnMsNet.CoreBlog/Models/CommentItem.cs:32-39 | the URL is the Gravatar prefix, two lower-case hex digits per hash byte that parse back to the hash, then `?s=60&d=blank` |
| Comments.GetGravatar | src/LearnMsNet.CoreBlog/Models/CommentItem.cs:27-40 | the loop's result is the URL of the MD5 of the trimmed, lower-cased email's UTF-8 bytes |
| Comments.GravatarKeyIgnoresCaseAndPadding | src/LearnMsNet.CoreBlog/Models/CommentItem.cs:29 | emails that differ only in case or surrounding blanks give the same hash input |
| Posts.PostItem.constructor | src/LearnMsNet.CoreBlog/Models/PostItem.cs:11-36 | a new post is published, has empty strings and lists, and both dates set to now |
| Posts.PostItem.CommentsCloseAt | src/LearnMsNet.CoreBlog/Models/PostItem.cs:38-39 | `AddDays`: the date `days` later, or an out-of-range error past `DateTime`'s range |
| Posts.PostItem.AreCommentsOpen | src/LearnMsNet.CoreBlog/Models/PostItem.cs:38-39 | comments are open iff `now <= publishDate + days`, and throw when `AddDays` does |
| Posts.PostItem.GetLink | src/LearnMsNet.CoreBlog/Models/PostItem.cs:43 | `/blog/` + slug + `/` |
| Posts.PostItem.GetEncodedLink | src/LearnMsNet.CoreBlog/Models/PostItem.cs:41 | `/blog/` + URL-encoded slug + `/`, no `/`, `#` or `?` inside |
| Posts.VisibleIsShownToVisitors | src/LearnMsNet.CoreBlog/Models/PostItem.cs:45 | `IsVisible` is the store's filter for a visitor; the administrator's filter only drops future posts |
| Posts.CommentsOpenMonotone | src/LearnMsNet.CoreBlog/Models/PostItem.cs:38-39 | comments open now are open earlier and under a longer limit |
| Posts.EncodedLinkOfSafeSlug | src/LearnMsNet.CoreBlog/Models/PostItem.cs:41-43 | for a slug of URL-safe characters both links are equal |
| Storage.ToTheSecond | src/LearnMsNet.CoreBlog/Services/FileBlogService.cs:68 | the default `lastModified` is now, truncated to the second by its invariant text |
| Storage.ReadComment | src/LearnMsNet.CoreBlog/Services/FileBlogService.cs:309-318 | a comment reads iff its id is present and its flag and date are well formed |
| Storage.ReadComments | src/LearnMsNet.CoreBlog/Services/FileBlogService.cs:307-321 | the comments read in order; the first bad one throws |
| Storage.ReadHeader | src/LearnMsNet.CoreBlog/Services/FileBlogService.cs:54-71 | a post header reads iff `pubDate` is present and the other parsed fields well formed; the slug is lower-cased and the author is empty |
| Storage.ReadPost | src/LearnMsNet.CoreBlog/Services/FileBlogService.cs:54-75 | a post reads iff its header and each of its comments do |
| Storage.NewlinesNormalized | src/LearnMsNet.CoreBlog/Services/FileBlogService.cs:54 | after writing and loading, every line end of a text is a line feed: no carriage return is left |
| Storage.LoadedText | src/LearnMsNet.CoreBlog/Services/FileBlogService.cs:54 | an element's text as loaded: line ends normalised, and empty when it was white space only |
| Storage.BlankNormalized | src/LearnMsNet.CoreBlog/Services/FileBlogService.cs:54 | normalising line ends keeps a text blank or not blank |
| Storage.LoadedTextKept | src/LearnMsNet.CoreBlog/Services/FileBlogService.cs:54 | a text without carriage returns that is not blank loads as written |
| Storage.LoadedTextStable | src/LearnMsNet.CoreBlog/Services/FileBlogService.cs:54 | a loaded text loads the same again |
| Storage.SaveLoadRoundTrip | src/LearnMsNet.CoreBlog/Services/FileBlogService.cs:237-275 | loading what `SavePost` writes gives back the post with its texts as loaded, its slug lower-cased, its dates to the millisecond and its author lost |
| Storage.ReloadedIsStable | src/LearnMsNet.CoreBlog/Services/FileBlogService.cs:237-275 | saving and loading a reloaded post changes nothing more |
| Storage.LoadedLowerStable | src/LearnMsNet.CoreBlog/Services/FileBlogService.cs:61 | a slug lower-cased after loading loads the same again |
| Storage.LoadDefaults | src/LearnMsNet.CoreBlog/Services/FileBlogService.cs:58-70 | missing elements read as empty strings and lists, published, `lastModified` now |
| Storage.CommentDefaults | src/LearnMsNet.CoreBlog/Services/FileBlogService.cs:311-316 | a comment's missing flag reads as not the administrator's, missing strings as empty, missing date as 2000-01-01 |
| Blog.Query | src/LearnMsNet.CoreBlog/Services/FileBlogService.cs:140-141 | the posts passing the filter: every one of them and no other |
| Blog.QueryConcat | src/LearnMsNet.CoreBlog/Services/FileBlogService.cs:140-141 | the filter works piece by piece, so results keep store order |
| Blog.QueryAllOrNone | src/LearnMsNet.CoreBlog/Services/FileBlogService.cs:140-141 | when all pass the result is the list; when none pass it is empty |
| Blog.FirstMatch | src/LearnMsNet.CoreBlog/Services/FileBlogService.cs:117 | the first post whose id or slug matches ignoring case |
| Blog.Find | src/LearnMsNet.CoreBlog/Services/FileBlogService.cs:114-134 | the first match, returned only when shown to the reader; otherwise null |
| Blog.FirstMatchOfGuid | src/LearnMsNet.CoreBlog/Services/FileBlogService.cs:117 | matching the text of a Guid finds the first post with that Guid |
| Blog.Lowered | src/LearnMsNet.CoreBlog/Services/FileBlogService.cs:109 | every label lower-cased, in order |
| Blog.Labels | src/LearnMsNet.CoreBlog/Services/FileBlogService.cs:104-111 | every label of every post published or seen by the administrator, lower-cased, and all lower case |
| Blog.LabelsFrom | src/LearnMsNet.CoreBlog/Services/FileBlogService.cs:188-195 | every collected label comes from such a post |
| Blog.CleanFromInvalidChars | src/LearnMsNet.CoreBlog/Services/FileBlogService.cs:352-360 | the characters invalid in file or path names removed, every other kept |
| Blog.CleanIdempotent | src/LearnMsNet.CoreBlog/Services/FileBlogService.cs:352-360 | cleaning a cleaned name changes nothing |
| Blog.MediaFileName | src/LearnMsNet.CoreBlog/Services/FileBlogService.cs:208-213 | the name ends in the original extension and is clean before it |
| Blog.DefaultSuffixesDiffer | src/LearnMsNet.CoreBlog/Services/FileBlogService.cs:208 | without a suffix, files saved at different ticks get different names |
| Blog.DigitsAreClean | src/LearnMsNet.CoreBlog/Services/FileBlogService.cs:208 | the decimal ticks are not changed by cleaning |
| Blog.FileBlogService.constructor | src/LearnMsNet.CoreBlog/Services/FileBlogService.cs:15-26 | the store starts with no posts, over the given folders |
| Blog.FileBlogService.LoadPosts | src/LearnMsNet.CoreBlog/Services/FileBlogService.cs:39-78 | the files are read in order into new posts appended to the list, no two with the same id; the first bad file throws, leaving the ones read before |
| Blog.FileBlogService.LoadPost | src/LearnMsNet.CoreBlog/Services/FileBlogService.cs:54-75 | a post object is made iff its document reads, holding what it reads as |
| Blog.FileBlogService.NewPost | src/LearnMsNet.CoreBlog/Services/FileBlogService.cs:55-71 | the object initializer holds the header's fields |
| Blog.FileBlogService.LoadCategories | src/LearnMsNet.CoreBlog/Services/FileBlogService.cs:338-350 | the categories are replaced by the `<categories>` list when there is one |
| Blog.FileBlogService.LoadTags | src/LearnMsNet.CoreBlog/Services/FileBlogService.cs:324-336 | the tags are replaced by the `<tags>` list when there is one |
| Blog.FileBlogService.LoadComments | src/LearnMsNet.CoreBlog/Services/FileBlogService.cs:296-322 | the `<comment>` elements are appended in order; a bad one throws |
| Blog.FileBlogService.GetPosts | src/LearnMsNet.CoreBlog/Services/FileBlogService.cs:136-145 | exactly the posts dated no later than now and published or seen by the administrator |
| Blog.FileBlogService.GetPostsPagedSlice | src/LearnMsNet.CoreBlog/Services/FileBlogService.cs:147-160 | `GetPosts(count, skip)` is the slice of `GetPosts()` from `skip` of at most `count` posts |
| Blog.FileBlogService.GetPostsByCategory | src/LearnMsNet.CoreBlog/Services/FileBlogService.cs:162-172 | exactly the posts shown that have the category, ignoring case |
| Blog.FileBlogService.GetPostsByTag | src/LearnMsNet.CoreBlog/Services/FileBlogService.cs:174-184 | exactly the posts shown that have the tag, ignoring case |
| Blog.FileBlogService.GetCategories | src/LearnMsNet.CoreBlog/Services/FileBlogService.cs:102-112 | distinct lower-case categories of the posts published or seen by the administrator, all of theirs; no date test |
| Blog.FileBlogService.GetTags | src/LearnMsNet.CoreBlog/Services/FileBlogService.cs:186-196 | the same for tags |
| Blog.FileBlogService.GetPostById | src/LearnMsNet.CoreBlog/Services/FileBlogService.cs:114-123 | a post returned is the first stored post with the id ignoring case and is shown to the reader; nothing is returned only when that first match is hidden or there is none |
| Blog.FileBlogService.GetPostBySlug | src/LearnMsNet.CoreBlog/Services/FileBlogService.cs:125-134 | the same, matching the slug ignoring case |
| Blog.FileBlogService.SavePost | src/LearnMsNet.CoreBlog/Services/FileBlogService.cs:227-287 | null throws; otherwise `LastModified` is now, the post's file is written and the post object is appended only if the list does not hold it, so no object is listed twice; two objects may share an id |
| Blog.FileBlogService.DeletePost | src/LearnMsNet.CoreBlog/Services/FileBlogService.cs:80-100 | null throws; otherwise the file and the list entry are gone and every other post stays |
| Blog.FileBlogService.DeleteFile | src/LearnMsNet.CoreBlog/Services/FileBlogService.cs:87-92 | the post's file is gone, whether or not it existed |
| Blog.FileBlogService.RemovePost | src/LearnMsNet.CoreBlog/Services/FileBlogService.cs:94-97 | the post leaves the list, every other stays, no duplicate appears |
| Blog.FileBlogService.SaveFile | src/LearnMsNet.CoreBlog/Services/FileBlogService.cs:198-225 | null bytes throw; an existing target throws (`CreateNew`); otherwise the file is stored under the built name and its address returned |
| Blog.SaveThenDeleteRestores | src/LearnMsNet.CoreBlog/Services/FileBlogService.cs:87-97 | deleting a post just saved as new restores the list, and leaves the folder as it was except that no file is left under the post's id |
| Users.CompareOrdinal | src/LearnMsNet.CoreBlog/Services/FileUserService.cs:36 | the comparison gives -1, 0 or 1, and 0 exactly for equal names |
| Users.CompareAntisymmetric | src/LearnMsNet.CoreBlog/Services/FileUserService.cs:35-36 | swapping the names negates the comparison |
| Users.CompareTransitive | src/LearnMsNet.CoreBlog/Services/FileUserService.cs:35-36 | the comparison is transitive |
| Users.Insert | src/LearnMsNet.CoreBlog/Services/FileUserService.cs:35-36 | inserting into a descending list keeps it descending and adds exactly the user |
| Users.SortDescending | src/LearnMsNet.CoreBlog/Services/FileUserService.cs:33-37 | the sorted users are a permutation of the input in descending name order |
| Users.SortedDescendingPairs | src/LearnMsNet.CoreBlog/Services/FileUserService.cs:33-37 | in a sorted list every earlier name compares at or above every later one |
| Users.FindUser | src/LearnMsNet.CoreBlog/Services/FileUserService.cs:108-109 | the first user whose name matches ignoring case |
| Users.FileUserService.constructor | src/LearnMsNet.CoreBlog/Services/FileUserService.cs:15-31 | initialization: the file (created with the administrator if missing) loaded and sorted |
| Users.FileUserService.LoadUsers | src/LearnMsNet.CoreBlog/Services/FileUserService.cs:39-58 | a missing file is created with the administrator; the users are the file's, unchanged when it holds null |
| Users.FileUserService.CreateAdminUser | src/LearnMsNet.CoreBlog/Services/FileUserService.cs:60-80 | the file holds the administrator alone |
| Users.FileUserService.SortUsers | src/LearnMsNet.CoreBlog/Services/FileUserService.cs:33-37 | the users are sorted descending |
| Users.FileUserService.HashPasswordShape | src/LearnMsNet.CoreBlog/Services/FileUserService.cs:87-103 | an empty or null password hashes to ""; another gives 64 upper-case hex digits that parse back to the derived key |
| Users.FileUserService.ValidateUser | src/LearnMsNet.CoreBlog/Services/FileUserService.cs:104-119 | true exactly when the first user with the name ignoring case has the password's hash |
| Users.Accepted | src/LearnMsNet.CoreBlog/Services/FileUserService.cs:108-118 | the same test over a list and a hash; unknown name and wrong password both give `false` |
| Users.AdminCanSignIn | src/LearnMsNet.CoreBlog/Services/FileUserService.cs:60-80 | after bootstrap, `admin`/`admin` signs in, and a password does iff it hashes as `admin` does |
| Users.EmptyPasswordRule | src/LearnMsNet.CoreBlog/Services/FileUserService.cs:90 | a null and an empty password are the same, and sign in only to a user stored with an empty hash |
| Users.NoUsersNoSignIn | src/LearnMsNet.CoreBlog/Services/FileUserService.cs:52-56 | with no users nobody signs in |
| Home.Wrap32 | src/LearnMsNet.CoreBlog/Controllers/HomeController.cs:175 | `PostsPerPage * page` wraps around as a 32-bit `int` |
| Home.Wrap32Modulo | src/LearnMsNet.CoreBlog/Controllers/HomeController.cs:175 | the wrap is the two's-complement remainder |
| Home.Page | src/LearnMsNet.CoreBlog/Controllers/HomeController.cs:175 | a page is a slice of the query result at the wrapped offset with at most `PostsPerPage` posts |
| Home.PageSlice | src/LearnMsNet.CoreBlog/Controllers/HomeController.cs:73 | without overflow, page `n` is the slice from `PostsPerPage * n` to `PostsPerPage * (n + 1)` |
| Home.PageBeforeFirst | src/LearnMsNet.CoreBlog/Controllers/HomeController.cs:94 | a negative page shows the first page |
| Home.PagesTile | src/LearnMsNet.CoreBlog/Controllers/HomeController.cs:175 | pages `0` to `n - 1` together are the first `n * PostsPerPage` posts: no post is skipped or shown twice |
| Home.PageWrapsAround | src/LearnMsNet.CoreBlog/Controllers/HomeController.cs:175 | page 429496730 of ten posts per page overflows to the page at offset 4 |
| Home.FormText | src/LearnMsNet.CoreBlog/Controllers/HomeController.cs:219-220 | a form field's text is null exactly when the field was not posted |
| Home.FormTextSplit | src/LearnMsNet.CoreBlog/Controllers/HomeController.cs:219-223 | a field posted several times splits back into its values |
| Home.LabelShape | src/LearnMsNet.CoreBlog/Controllers/HomeController.cs:224 | a label is trimmed and lower case, the piece's trimmed text ignoring case, empty iff the piece is blank |
| Home.FormLabelsShape | src/LearnMsNet.CoreBlog/Controllers/HomeController.cs:222-231 | every label is trimmed, lower case and free of commas, and comes from a piece of the field |
| Home.LabelAll | src/LearnMsNet.CoreBlog/Controllers/HomeController.cs:224 | every piece labelled, in order |
| Home.FormLabelsRoundTrip | src/LearnMsNet.CoreBlog/Controllers/HomeController.cs:222-231 | labels joined by commas are rebuilt exactly, in order |
| Home.JoinedPieces | src/LearnMsNet.CoreBlog/Controllers/HomeController.cs:223 | non-empty pieces without commas, joined by commas, split back into exactly themselves with none dropped |
| Home.BlankLabelSurvives | src/LearnMsNet.CoreBlog/Controllers/HomeController.cs:223-224 | a blank piece survives as an empty label: `" ,News"` gives `["", "news"]` |
| Home.CommentIndex | src/LearnMsNet.CoreBlog/Controllers/HomeController.cs:118 | the first comment whose id matches ignoring case |
| Home.WithoutComment | src/LearnMsNet.CoreBlog/Controllers/HomeController.cs:118-125 | null when no comment matches; otherwise the list without the first match |
| Home.AddThenDeleteComment | src/LearnMsNet.CoreBlog/Controllers/HomeController.cs:58 | deleting by its id a comment just appended restores the comments |
| Home.SameIdText | src/LearnMsNet.CoreBlog/Controllers/HomeController.cs:118 | a comment matches the text of an id exactly when it has that id |
| Home.Received | src/LearnMsNet.CoreBlog/Controllers/HomeController.cs:49-52 | the comment as stored: flagged as the administrator's iff signed in, author, email and content trimmed |
| Home.FormSlug | src/LearnMsNet.CoreBlog/Controllers/HomeController.cs:233 | the trimmed form slug when it is not blank, otherwise the title's slug |
| Home.EditedValid | src/LearnMsNet.CoreBlog/Controllers/HomeController.cs:232-236 | a post edited from a valid form is valid, and only title, slug, flag, content and excerpt change |
| Home.HomeController.constructor | src/LearnMsNet.CoreBlog/Controllers/HomeController.cs:16-26 | the controller over the store and settings |
| Home.HomeController.Index | src/LearnMsNet.CoreBlog/Controllers/HomeController.cs:167-187 | a page of the posts shown, no longer than `PostsPerPage` |
| Home.HomeController.Category | src/LearnMsNet.CoreBlog/Controllers/HomeController.cs:65-84 | a page of the posts shown that have the category |
| Home.HomeController.Tag | src/LearnMsNet.CoreBlog/Controllers/HomeController.cs:86-105 | a page of the posts shown that have the tag |
| Home.HomeController.Post | src/LearnMsNet.CoreBlog/Controllers/HomeController.cs:189-196 | the post shown with the slug, or not found |
| Home.HomeController.AddComment | src/LearnMsNet.CoreBlog/Controllers/HomeController.cs:28-63 | an invalid form shows the post; a hidden post or closed comments give not found; otherwise the received comment is appended and saved unless `website` was posted |
| Home.HomeController.DeleteComment | src/LearnMsNet.CoreBlog/Controllers/HomeController.cs:107-129 | not found without the post or a matching comment; otherwise only the first match is removed and the post saved |
| Home.HomeController.ReplaceComments | src/LearnMsNet.CoreBlog/Controllers/HomeController.cs:125-126 | the stored post's comments replaced and the post saved |
| Home.HomeController.UpdatePost | src/LearnMsNet.CoreBlog/Controllers/HomeController.cs:203-243 | null throws; an invalid form shows the editor; otherwise labels rebuilt, fields taken, images rehosted and the post saved |
| Home.HomeController.UpdateExisting | src/LearnMsNet.CoreBlog/Controllers/HomeController.cs:218-242 | the same once the post to change is known; a missing field throws after its list is cleared; after an image error the post files and list are as they were, and the media folder and content are those the loop reached (`Stopped`) |
| Home.HomeController.SetLabels | src/LearnMsNet.CoreBlog/Controllers/HomeController.cs:219-231 | categories, then tags, cleared and rebuilt from their fields |
| Home.HomeController.SaveEdited | src/LearnMsNet.CoreBlog/Controllers/HomeController.cs:232-240 | the form's fields taken, the images rehosted, then the post saved; an image error leaves the post files and the list as they were, the edited fields set, and the media folder and content as the loop reached them (`Stopped`) |
| Home.HomeController.SaveRehosted | src/LearnMsNet.CoreBlog/Controllers/HomeController.cs:238-240 | the images rehosted, then the post saved; the first image that throws ends it before the save, with the media folder and content `Stopped` gives |
| Home.HomeController.TakeForm | src/LearnMsNet.CoreBlog/Controllers/HomeController.cs:232-236 | title, content and excerpt trimmed, flag copied, slug from the form or the title |
| Home.HomeController.TakeSlug | src/LearnMsNet.CoreBlog/Controllers/HomeController.cs:233 | the slug rule |
| Home.HomeController.DeletePost | src/LearnMsNet.CoreBlog/Controllers/HomeController.cs:131-143 | not found without the post; otherwise its file and list entry are gone |
| Home.HomeController.SaveFilesToDisk | src/LearnMsNet.CoreBlog/Controllers/HomeController.cs:245-296 | the content and the files folder end as `Rehost` says; or the exception of the first turn that throws is thrown, and the folder and content are those the turns before it left (`Stopped`) |
| Home.HomeController.RehostTurn | src/LearnMsNet.CoreBlog/Controllers/HomeController.cs:257-294 | one turn: the folder as the tag's `TurnFile` says, and every copy of the tag, ignoring case, replaced by its rewrite when the loop rewrites it; a turn that throws changes neither the folder nor the content |
| Home.HomeController.RehostImage | src/LearnMsNet.CoreBlog/Controllers/HomeController.cs:264-292 | one tag: bad markup throws, text and tags not rewritten pass, a rewritten tag is saved as its `TurnFile` says and its rewrite returned; a throw leaves the folder as it was |
| Home.HomeController.SaveImage | src/LearnMsNet.CoreBlog/Controllers/HomeController.cs:286-292 | a rewritten tag: its payload decoded and saved through `SaveFile`, its rewrite returned; a bad payload or a taken name throws before anything is written |
| Home.FutureDatedEditDuplicates | src/LearnMsNet.CoreBlog/Controllers/HomeController.cs:203-243 | editing a stored post dated after now saves the form's own object, so two listed posts share an id |
| Media.Lookup | src/LearnMsNet.CoreBlog/Controllers/HomeController.cs:268-269 | `Attributes[name]`: present exactly when some attribute has the name, with its value |
| Media.OuterXml | src/LearnMsNet.CoreBlog/Controllers/HomeController.cs:293 | the rewritten tag is an empty element that starts with `<` and the element's own parsed name (such as `IMG`) and ends with ` />` |
| Media.LetterRun | src/LearnMsNet.CoreBlog/Controllers/HomeController.cs:248 | the run of ASCII letters `[a-z]` matches ignoring case |
| Media.FindFrom | src/LearnMsNet.CoreBlog/Controllers/HomeController.cs:248 | the first position holding a character, none before it |
| Media.DataUriAt | src/LearnMsNet.CoreBlog/Controllers/HomeController.cs:248 | a match starts with `data:` and has a non-empty payload |
| Media.DataUriAtOneLine | src/LearnMsNet.CoreBlog/Controllers/HomeController.cs:248 | `.+` stops at the end of the line |
| Media.DataUriFrom | src/LearnMsNet.CoreBlog/Controllers/HomeController.cs:286 | `Match` gives the payload at a position where the pattern matches with no match before it, or fails when no position matches |
| Media.DataUriPayload | src/LearnMsNet.CoreBlog/Controllers/HomeController.cs:286-289 | an editor's `data:mime/ext;base64,payload` yields exactly the payload |
| Media.Rehosted | src/LearnMsNet.CoreBlog/Controllers/HomeController.cs:290-292 | `src` becomes the saved address, `data-filename` goes, every other attribute stays |
| Media.RehostedLookups | src/LearnMsNet.CoreBlog/Controllers/HomeController.cs:290-292 | after the rewrite `src` is the address and there is no `data-filename` |
| Media.Rewritten | src/LearnMsNet.CoreBlog/Controllers/HomeController.cs:288-293 | the rewritten tag keeps the element name, is its `OuterXml`, points at the saved file, keeps the other attributes, and is not rewritten again |
| Media.ReplaceCopies | src/LearnMsNet.CoreBlog/Controllers/HomeController.cs:293 | `Replace(match.Value, img.OuterXml, OrdinalIgnoreCase)` on the segments: each segment whose text is the tag's ignoring case becomes the rewrite, every other stays |
| Media.TurnFileCases | src/LearnMsNet.CoreBlog/Controllers/HomeController.cs:264-290 | markup that does not parse throws; text and tags not rewritten save nothing; a rewritten tag saves its decoded payload under the `SaveFile` name of its `data-filename` at its time, or throws when the payload does not decode |
| Media.StoreRewrites | src/LearnMsNet.CoreBlog/Controllers/HomeController.cs:273-290 | a file is saved only at the turn of a tag the loop rewrites, with its bytes under its name |
| Media.SaveTurn | src/LearnMsNet.CoreBlog/Services/FileBlogService.cs:198-225 | `SaveFile` with `CreateNew`: a taken name throws; no stored file is dropped or changed |
| Media.Saves | src/LearnMsNet.CoreBlog/Controllers/HomeController.cs:257-295 | the folder after the first turns keeps every file it held |
| Media.Rehost | src/LearnMsNet.CoreBlog/Controllers/HomeController.cs:257-295 | the loop keeps one segment per segment and never drops or changes a stored file |
| Media.RehostStopsAtError | src/LearnMsNet.CoreBlog/Controllers/HomeController.cs:257-295 | the first exception ends the loop: later turns change nothing |
| Media.SavesNoThrow | src/LearnMsNet.CoreBlog/Controllers/HomeController.cs:257-295 | when the loop succeeds, no turn threw |
| Media.SavesOkBefore | src/LearnMsNet.CoreBlog/Controllers/HomeController.cs:257-295 | when the loop succeeds, every shorter run of it succeeded |
| Media.SavesKeepFrom | src/LearnMsNet.CoreBlog/Services/FileBlogService.cs:218-221 | a file saved at one turn stays through the later turns |
| Media.SavesStoreAt | src/LearnMsNet.CoreBlog/Controllers/HomeController.cs:289-290 | every turn that saves a file leaves it in the folder at the end |
| Media.SavesOnly | src/LearnMsNet.CoreBlog/Controllers/HomeController.cs:257-295 | every file in the folder at the end was there before or was saved by a turn |
| Media.SavesNoFile | src/LearnMsNet.CoreBlog/Controllers/HomeController.cs:257-295 | turns that save nothing leave the folder as it was |
| Media.StoppedThrows | src/LearnMsNet.CoreBlog/Controllers/HomeController.cs:257-295 | a loop that stops at a turn throws that turn's exception, keeps every file the folder held, and adds only files that earlier turns saved |
| Media.ThrowsOnce | src/LearnMsNet.CoreBlog/Controllers/HomeController.cs:257-295 | at most one turn is the first to throw |
| Media.ThrowTurn | src/LearnMsNet.CoreBlog/Controllers/HomeController.cs:257-295 | a loop that throws has a first turn that throws, with every turn before it going through |
| Media.Stopped | src/LearnMsNet.CoreBlog/Controllers/HomeController.cs:257-295 | the folder and content a throwing loop leaves; no file the folder held is lost |
| Media.StoppedIs | src/LearnMsNet.CoreBlog/Controllers/HomeController.cs:257-295 | wherever a loop stops, it is at its first throwing turn, and what it leaves is `Stopped` |
| Media.SegsKeep | src/LearnMsNet.CoreBlog/Controllers/HomeController.cs:293 | a segment that no planned tag matches, ignoring case, stays as it was |
| Media.SegsHold | src/LearnMsNet.CoreBlog/Controllers/HomeController.cs:293 | a segment holding a rewrite keeps it through the turns whose tags do not match it |
| Media.SegsShape | src/LearnMsNet.CoreBlog/Controllers/HomeController.cs:257-293 | after the turns each segment is a planned rewrite, or the segment as it was with nothing planned for it |
| Media.SegsCopies | src/LearnMsNet.CoreBlog/Controllers/HomeController.cs:293 | every copy of a planned tag, in any case, that no earlier tag matched holds its rewrite at the end, unless a later tag matches the rewrite |
| Media.SegsEmptyPlan | src/LearnMsNet.CoreBlog/Controllers/HomeController.cs:257-295 | with nothing planned no segment changes |
| Media.PlanKeeps | src/LearnMsNet.CoreBlog/Controllers/HomeController.cs:273-293 | a segment that no rewritten tag matches, ignoring case, is left as it was by the turns |
| Media.PlanSettled | src/LearnMsNet.CoreBlog/Controllers/HomeController.cs:273-284 | over settled segments no rewrite is planned |
| Media.RehostUntouched | src/LearnMsNet.CoreBlog/Controllers/HomeController.cs:273-293 | after the loop, a segment that no rewritten tag matches, ignoring case, is as it was |
| Media.RehostCopies | src/LearnMsNet.CoreBlog/Controllers/HomeController.cs:293 | every copy of a rewritten tag, in any case, earlier or later, ends as the rewrite made at the turn of the first copy the loop rewrites, unless a later rewritten tag matches that rewrite |
| Media.RehostSegments | src/LearnMsNet.CoreBlog/Controllers/HomeController.cs:264-293 | after the loop each segment is settled, and is the segment as it was or the rewrite of a rewritten tag made at that tag's turn |
| Media.RehostFiles | src/LearnMsNet.CoreBlog/Controllers/HomeController.cs:286-290 | after the loop the folder holds, for each rewritten tag, its decoded bytes under the name saved at its turn, and only those files and the ones it held |
| Media.RehostSettled | src/LearnMsNet.CoreBlog/Controllers/HomeController.cs:273-284 | a pass over settled segments changes nothing and saves nothing |
| Media.RehostIdempotent | src/LearnMsNet.CoreBlog/Controllers/HomeController.cs:273-294 | a second pass over the result, at any time and over any folder, changes no tag and saves no file |

## Left out

- File system, XML and JSON I/O. The post folder is a map from id to document and the files folder a map from name to bytes. The XML text itself (escaping, element order, `XElement.Load` failures) is not modelled.
- `DateTime` parsing and formatting. Dates are ticks, written and read back to the millisecond. `DateTime.UtcNow` is a parameter.
- `Guid.NewGuid`. Ids are given.
- MD5, PBKDF2 and `Convert.FromBase64String` are parameters: MD5 gives 16 bytes, PBKDF2 32 bytes, and base64 decoding may fail. The PBKDF2 parameter takes the salt as a string, so it also covers its UTF-8 encoding.
- The `<img[^>]+ />` search and XML parsing of each tag. The content is given as the segments the search cuts it into, each tag with its parsed element name and attributes or `None` when parsing fails, and the content is the concatenation of the segments.
- Home.HomeController.SaveFilesToDisk / Media.Rehost: the `Replace` of each tag is modelled at the level of segments. Every segment whose text is the tag's, ignoring case, is replaced, as the source does for every copy; a copy of the tag's text that is only part of a longer segment, or that spans two segments, is not.
- Unicode beyond Latin-1. Lower-casing covers ASCII and Latin-1, and form D covers the Latin-1 letters with diacritics. The Kelvin sign and the dotted capital I, which `IgnoreCase` also matches to `k` and `i`, are not treated specially. `ToLower()` in `ValidateUser` is taken to be the invariant culture.
- Blog.FileBlogService.LoadPosts: the list is not sorted afterwards. The source's `SortPosts` throws `NotImplementedException`, so construction and saving a new post would fail there.
- Blog.FileBlogService.SavePost: the exception `SortPosts` throws after appending a new post is not modelled.
- Blog.FileBlogService.SavePost: the store's invariant `Valid()` keeps post objects distinct by reference only, as `_posts.Contains` compares them; it does not promise distinct ids. Editing a post dated in the future adds a second post with the same id (Home.FutureDatedEditDuplicates).
- Storage.SaveLoadRoundTrip: characters that XML cannot hold (most control characters, lone surrogates) make `Save` throw after `FileMode.Create` has emptied the file; the model assumes every text can be written.
- Storage.ReloadedIsStable: a comment without a `date` element reads as 2000-01-01 with an unspecified kind, which the next save writes shifted by the local offset from UTC; the model has no time zone and treats the date as UTC.
- Paths.GetFileName: UNC roots (`\\server\share`) and device paths (`\\?\`) are treated as ordinary separators; only the drive root `X:` is cut.
- Users.FileUserService.SortUsers: names compare by ordinal character codes, not the culture-sensitive `CompareTo`. Equal names keep their order, which `List.Sort` does not promise.
- The author of a post is not written to its file, so a reloaded post has an empty author (as in the source).
- `PostItem.RenderContent`, which rewrites images and YouTube links for the view. `CommentItem.RenderContent` is the content as stored.
- `Edit`, `Redirects`, the view data of `Index`/`Category`/`Tag` (titles, counts, previous and next links) and the model-state binding. Binding is modelled only as the `[Required]` and `[EmailAddress]` checks.
- MetaWeblog, robots/feeds and account sign-in controllers.
- The `[Authorize]` actions run for a signed-in user. The store's `IsAdmin()` is then true, so they query the store as the administrator.
- Home.HomeController.UpdatePost: the redirect uses the posted form's slug, as the source does, not the slug saved.
- Media.DataUriAt: the payload `.+` is taken to end at the first line feed. The other line terminators are not treated specially.
- Asynchrony and concurrency: every call runs to completion before the next.
