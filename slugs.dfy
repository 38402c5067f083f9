/** `PostItem.CreateSlug` and its two helpers, `RemoveDiacritics` and
    `RemoveReservedUrlCharacters`.

    Canonical decomposition (Normalization Form D) is given for the Latin-1
    letters that carry a diacritic; every other character decomposes to
    itself. The non-spacing marks are the Combining Diacritical Marks block,
    U+0300 to U+036F. */
module Slugs {
  import opened Wrappers
  import opened Text

  /** `UnicodeCategory.NonSpacingMark`, over the combining diacritical marks. */
  predicate IsNonSpacingMark(c: char) {
    '\U{0300}' <= c <= '\U{036F}'
  }

  const CombiningMarks: set<char> := set n: int | 0x300 <= n < 0x370 :: n as char

  lemma CombiningMarksAre(c: char)
    ensures c in CombiningMarks <==> IsNonSpacingMark(c)
  {
    if IsNonSpacingMark(c) {
      assert (c as int) as char == c;
    }
  }

  /** Base letters and combining marks of U+00C0..U+00DF, offset by offset;
      a space stands for "no decomposition" (Æ, Ð, ×, Ø, Þ, ß). */
  const DecomposedBase: string := "AAAAAA CEEEEIIII NOOOOO  UUUUY  "
  const DecomposedMark: string :=
    "\U{0300}\U{0301}\U{0302}\U{0303}\U{0308}\U{030A} \U{0327}"
    + "\U{0300}\U{0301}\U{0302}\U{0308}\U{0300}\U{0301}\U{0302}\U{0308}"
    + " \U{0303}\U{0300}\U{0301}\U{0302}\U{0303}\U{0308}  "
    + "\U{0300}\U{0301}\U{0302}\U{0308}\U{0301}  "

  predicate IsAsciiLetter(c: char) {
    ('a' <= c <= 'z') || ('A' <= c <= 'Z')
  }

  /** The canonical decomposition of one character: itself, or a Latin base
      letter followed by one combining mark. */
  function Decompose(c: char): (d: string)
    ensures d == [c] || (|d| == 2 && IsAsciiLetter(d[0]) && IsNonSpacingMark(d[1]) && !IsNonSpacingMark(c))
  {
    var n := c as int;
    if n == 0xFF then ['y', '\U{0308}']
    else if 0xC0 <= n < 0x100 then
      var o := (n - 0xC0) % 32;
      TableEntry(o);
      var base := DecomposedBase[o];
      if base == ' ' then [c]
      else [if n >= 0xE0 then LowerChar(base) else base, DecomposedMark[o]]
    else [c]
  }

  /** Each entry of the tables is a blank or an upper-case base letter with
      its combining mark. */
  lemma TableEntry(o: nat)
    requires o < 32
    ensures DecomposedBase[o] == ' ' || ('A' <= DecomposedBase[o] <= 'Z' && IsNonSpacingMark(DecomposedMark[o]))
  {
  }

  /** `s.Normalize(NormalizationForm.FormD)`. */
  function Decomposed(s: string): (r: string)
    ensures |s| <= |r| <= 2 * |s|
  {
    if s == [] then [] else Decompose(s[0]) + Decomposed(s[1..])
  }

  lemma {:induction false} DecomposedConcat(a: string, b: string)
    ensures Decomposed(a + b) == Decomposed(a) + Decomposed(b)
    decreases |a|
  {
    if a == [] {
      assert a + b == b;
    } else {
      assert (a + b)[1..] == a[1..] + b;
      DecomposedConcat(a[1..], b);
    }
  }

  /** Decomposition adds no character that is a space, a dash or outside the
      input except base letters and marks. */
  lemma {:induction false} DecomposedChars(s: string, c: char)
    requires c in Decomposed(s) && !IsAsciiLetter(c) && !IsNonSpacingMark(c)
    ensures c in s
    decreases |s|
  {
    if c !in Decompose(s[0]) {
      DecomposedChars(s[1..], c);
    }
  }

  /** `RemoveDiacritics`: decompose, keep every character that is not a
      non-spacing mark, in order. Recomposition (`FormC`) has nothing to
      combine once the marks are gone, so it leaves the text as it is. */
  method RemoveDiacritics(text: string) returns (r: string)
    ensures r == Without(Decomposed(text), CombiningMarks)
  {
    var normalized := Decomposed(text);
    var sb := "";
    for i := 0 to |normalized|
      invariant sb == Without(normalized[..i], CombiningMarks)
    {
      var c := normalized[i];
      CombiningMarksAre(c);
      WithoutConcat(normalized[..i], [c], CombiningMarks);
      assert normalized[..i + 1] == normalized[..i] + [c];
      if !IsNonSpacingMark(c) {
        sb := sb + [c];
      }
    }
    assert normalized[..|normalized|] == normalized;
    r := sb;
  }

  /** The list `RemoveReservedUrlCharacters` walks, `'` appearing twice. */
  const ReservedCharacters: seq<char> :=
    ['!', '#', '$', '&', '\'', '(', ')', '*', ',', '/', ':', ';', '=', '?', '@', '[', ']', '"',
     '%', '.', '<', '>', '\\', '^', '_', '\'', '{', '}', '|', '~', '`', '+']

  /** The characters of the first `n` entries of a list. */
  function Listed(chars: seq<char>, n: nat): set<char>
    requires n <= |chars|
  {
    set j | 0 <= j < n :: chars[j]
  }

  const Reserved: set<char> := Listed(ReservedCharacters, |ReservedCharacters|)

  /** One more entry adds its character. */
  lemma ListedStep(chars: seq<char>, n: nat)
    requires n < |chars|
    ensures Listed(chars, n + 1) == Listed(chars, n) + {chars[n]}
  {
  }

  /** No reserved character is a letter, so lower-casing neither makes nor
      unmakes one. */
  lemma LowerKeepsUnreserved(c: char)
    requires c !in Reserved
    ensures LowerChar(c) !in Reserved
  {
    LowerCharFixes(c);
    forall j | 0 <= j < |ReservedCharacters|
      ensures !('a' <= ReservedCharacters[j] <= 'z') && ReservedCharacters[j] < '\U{00E0}'
    {
    }
  }

  /** `RemoveReservedUrlCharacters`: one `Replace(chr, "")` per listed
      character; for these characters, none a letter, ignoring case changes
      nothing. Together the passes remove every reserved character. */
  method RemoveReservedUrlCharacters(text: string) returns (r: string)
    ensures r == Without(text, Reserved)
  {
    r := RemoveEach(text, ReservedCharacters);
  }

  /** The `foreach` of `RemoveReservedUrlCharacters` over a list of
      characters: after the passes, none of them is left. */
  method RemoveEach(text: string, chars: seq<char>) returns (r: string)
    ensures r == Without(text, Listed(chars, |chars|))
  {
    r := text;
    WithoutNothing(text);
    assert Listed(chars, 0) == {};
    for i := 0 to |chars|
      invariant r == Without(text, Listed(chars, i))
    {
      WithoutTwice(text, Listed(chars, i), {chars[i]});
      ListedStep(chars, i);
      r := Without(r, {chars[i]});
    }
  }

  /** The slug `CreateSlug` computes for a title (`None` standing for null). */
  function SlugOf(title: Option<string>): string {
    var spaced := match title
      case Some(t) => ReplaceChar(Lower(t), ' ', '-')
      case None => "";
    Lower(Without(Without(Decomposed(spaced), CombiningMarks), Reserved))
  }

  /** `PostItem.CreateSlug`. */
  method CreateSlug(title: Option<string>) returns (slug: string)
    ensures slug == SlugOf(title)
  {
    var t := match title
      case Some(s) => ReplaceChar(Lower(s), ' ', '-')
      case None => "";
    t := RemoveDiacritics(t);
    t := RemoveReservedUrlCharacters(t);
    slug := Lower(t);
  }

  /** A null title gives the empty slug. */
  lemma SlugOfNull()
    ensures SlugOf(None) == ""
  {
  }

  /** The text a slug is lower-cased from: its characters are outside the
      reserved set, no combining mark, and no space. */
  lemma SlugCharsBeforeLower(spaced: string, c: char)
    requires ' ' !in spaced
    requires c in Without(Without(Decomposed(spaced), CombiningMarks), Reserved)
    ensures c != ' ' && c !in Reserved && !IsNonSpacingMark(c)
  {
    WithoutMember(Without(Decomposed(spaced), CombiningMarks), Reserved, c);
    WithoutMember(Decomposed(spaced), CombiningMarks, c);
    CombiningMarksAre(c);
    if c == ' ' {
      DecomposedChars(spaced, ' ');
    }
  }

  /** A slug is lower case and has no space, no reserved character and no
      combining mark. */
  lemma SlugShape(title: Option<string>)
    ensures var s := SlugOf(title);
      IsLower(s)
      && forall i :: 0 <= i < |s| ==> s[i] != ' ' && s[i] !in Reserved && !IsNonSpacingMark(s[i])
  {
    var spaced := match title
      case Some(t) => ReplaceChar(Lower(t), ' ', '-')
      case None => "";
    assert ' ' !in spaced;
    var w := Without(Without(Decomposed(spaced), CombiningMarks), Reserved);
    LowerIsLower(w);
    forall i | 0 <= i < |w| ensures var c := LowerChar(w[i]); c != ' ' && c !in Reserved && !IsNonSpacingMark(c) {
      LowerCharFixes(w[i]);
      SlugCharsBeforeLower(spaced, w[i]);
      LowerKeepsUnreserved(w[i]);
    }
  }

  /** Characters below U+00C0 have no decomposition. */
  lemma {:induction false} DecomposedPlain(s: string)
    requires forall i :: 0 <= i < |s| ==> s[i] < '\U{00C0}'
    ensures Decomposed(s) == s
    decreases |s|
  {
    if s != [] {
      DecomposedPlain(s[1..]);
      assert [s[0]] + s[1..] == s;
    }
  }

  /** A letter with a diacritic leaves only its base letter. */
  lemma DiacriticDropped(c: char)
    requires |Decompose(c)| == 2
    ensures Without(Decomposed([c]), CombiningMarks) == [Decompose(c)[0]]
  {
    var d := Decompose(c);
    assert Decomposed([c]) == d + Decomposed([]);
    CombiningMarksAre(d[0]);
    CombiningMarksAre(d[1]);
    assert d[1..] == [d[1]];
  }

  predicate IsPlainTitleChar(c: char) {
    IsAsciiLetter(c) || ('0' <= c <= '9') || c == ' '
  }

  /** A lower-case letter, a digit or `-` is neither a mark nor reserved. */
  lemma PlainKept(c: char)
    requires ('a' <= c <= 'z') || ('0' <= c <= '9') || c == '-'
    ensures c !in CombiningMarks && c !in Reserved
  {
    CombiningMarksAre(c);
    forall j | 0 <= j < |ReservedCharacters| ensures ReservedCharacters[j] != c { }
  }

  /** A title of ASCII letters, digits and spaces keeps every character: its
      slug is the title lower-cased with each space turned into `-`. */
  lemma PlainTitleSlug(t: string)
    requires forall i :: 0 <= i < |t| ==> IsPlainTitleChar(t[i])
    ensures SlugOf(Some(t)) == ReplaceChar(Lower(t), ' ', '-')
  {
    var spaced := ReplaceChar(Lower(t), ' ', '-');
    assert forall i :: 0 <= i < |spaced| ==>
      ('a' <= spaced[i] <= 'z') || ('0' <= spaced[i] <= '9') || spaced[i] == '-';
    DecomposedPlain(spaced);
    forall i | 0 <= i < |spaced| ensures spaced[i] !in CombiningMarks && spaced[i] !in Reserved {
      PlainKept(spaced[i]);
    }
    WithoutAbsent(spaced, CombiningMarks);
    WithoutAbsent(spaced, Reserved);
  }
}
