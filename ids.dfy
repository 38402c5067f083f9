/** Identifiers and time as the blog stores them.

    A `DateTime` is its tick count (100 ns units since 0001-01-01, UTC); post files
    keep dates in the format `yyyy-MM-ddTHH:mm:ss.fffZ`, so a date survives a
    save and a reload only to the millisecond.

    A `Guid` is its sixteen bytes in the order its canonical text shows them;
    `ToString()` is the lower-case `8-4-4-4-12` hexadecimal form. */
module Ids {
  import opened Text
  import opened Encoding

  type Ticks = nat

  const TicksPerMillisecond: nat := 10_000
  const TicksPerDay: nat := 864_000_000_000

  /** `DateTime.Parse("2000-01-01")`, the date a comment without one is given. */
  const Year2000: Ticks := 630_822_816_000_000_000

  /** The milliseconds `FormatDateTime` writes for a date. */
  function StoredMillis(t: Ticks): nat {
    t / TicksPerMillisecond
  }

  /** The date `DateTime.Parse` reads back from the written milliseconds. */
  function FromMillis(ms: nat): Ticks {
    ms * TicksPerMillisecond
  }

  /** Writing then reading a date truncates it to the millisecond below,
      and a date already on a millisecond comes back unchanged. */
  lemma DateRoundTrip(t: Ticks, ms: nat)
    ensures FromMillis(StoredMillis(t)) <= t < FromMillis(StoredMillis(t)) + TicksPerMillisecond
    ensures t % TicksPerMillisecond == 0 ==> FromMillis(StoredMillis(t)) == t
    ensures StoredMillis(FromMillis(ms)) == ms
  {
  }

  type GuidBytes = s: seq<byte> | |s| == 16 witness [0, 0, 0, 0, 0, 0, 0, 0, 0, 0, 0, 0, 0, 0, 0, 0]

  datatype Guid = Guid(bytes: GuidBytes)

  /** The canonical text puts a dash before bytes 4, 6, 8 and 10. */
  predicate DashBefore(i: nat) {
    i == 4 || i == 6 || i == 8 || i == 10
  }

  /** The two lower-case hexadecimal digits of a byte. */
  function ByteHex(x: byte): string {
    [LowerDigits[x / 16], LowerDigits[x % 16]]
  }

  /** What byte `i` contributes to the text: its digits, after a dash when it
      opens a group. */
  function Piece(b: seq<byte>, i: nat): string
    requires i < |b|
  {
    if DashBefore(i) then "-" + ByteHex(b[i]) else ByteHex(b[i])
  }

  /** The text of the bytes from `i` on, byte by byte. */
  function GuidDigits(b: seq<byte>, i: nat): string
    requires i <= |b|
    decreases |b| - i
  {
    if i == |b| then "" else Piece(b, i) + GuidDigits(b, i + 1)
  }

  /** `Guid.ToString()`. */
  function GuidText(g: Guid): string {
    GuidDigits(g.bytes, 0)
  }

  /** Bytes `i` to `j`, inside a group, give their hexadecimal digits in a row. */
  lemma {:induction false} GuidDigitsRun(b: seq<byte>, i: nat, j: nat)
    requires i <= j <= |b|
    requires forall k :: i <= k < j ==> !DashBefore(k)
    ensures GuidDigits(b, i) == HexLower(b[i..j]) + GuidDigits(b, j)
    decreases j - i
  {
    if i < j {
      var g := b[i..j];
      assert g[0] == b[i] && g[1..] == b[i + 1..j];
      GuidDigitsRun(b, i + 1, j);
      Associative(ByteHex(b[i]), HexLower(b[i + 1..j]), GuidDigits(b, j));
    }
  }

  /** The group of bytes `i` to `j`, `i` opening it: a dash, then the digits. */
  lemma GuidDigitsGroup(b: seq<byte>, i: nat, j: nat)
    requires i < j <= |b| && DashBefore(i)
    requires forall k :: i < k < j ==> !DashBefore(k)
    ensures GuidDigits(b, i) == "-" + (HexLower(b[i..j]) + GuidDigits(b, j))
  {
    var g := b[i..j];
    assert g[0] == b[i] && g[1..] == b[i + 1..j];
    GuidDigitsRun(b, i + 1, j);
    Associative(ByteHex(b[i]), HexLower(b[i + 1..j]), GuidDigits(b, j));
    Associative("-", ByteHex(b[i]), HexLower(b[i + 1..j]) + GuidDigits(b, j));
  }

  /** Appending the empty string changes nothing. */
  lemma NothingAppended(s: string)
    ensures s + "" == s
  {
  }

  /** Regrouping a sum of three strings. */
  lemma Associative(a: string, b: string, c: string)
    ensures a + b + c == a + (b + c)
  {
  }

  /** A Guid's text is the `8-4-4-4-12` form: the hexadecimal digits of its
      bytes in groups of 4, 2, 2, 2 and 6 bytes, a dash between groups. */
  lemma GuidTextFormat(g: Guid)
    ensures var b := g.bytes;
      GuidText(g) == HexLower(b[0..4]) + ("-" + (HexLower(b[4..6]) + ("-" + (HexLower(b[6..8])
        + ("-" + (HexLower(b[8..10]) + ("-" + HexLower(b[10..16]))))))))
  {
    GuidDigitsRun(g.bytes, 0, 4);
    GuidTextLastGroups(g.bytes);
  }

  /** The text from byte 4 on: the last four groups, each after its dash. */
  lemma GuidTextLastGroups(b: GuidBytes)
    ensures GuidDigits(b, 4) == "-" + (HexLower(b[4..6]) + ("-" + (HexLower(b[6..8])
      + ("-" + (HexLower(b[8..10]) + ("-" + HexLower(b[10..16])))))))
  {
    GuidDigitsGroup(b, 4, 6);
    GuidDigitsGroup(b, 6, 8);
    GuidDigitsGroup(b, 8, 10);
    GuidDigitsGroup(b, 10, 16);
    assert GuidDigits(b, 16) == "";
    NothingAppended(HexLower(b[10..16]));
  }

  /** The text from byte `i` on is lower case. */
  lemma {:induction false} GuidDigitsLower(b: seq<byte>, i: nat)
    requires i <= |b|
    ensures IsLower(GuidDigits(b, i))
    decreases |b| - i
  {
    if i < |b| {
      GuidDigitsLower(b, i + 1);
      HexLowerDigits([b[i]]);
      assert HexLower([b[i]]) == ByteHex(b[i]);
      assert IsLower(ByteHex(b[i]));
      LowerConcat("-", ByteHex(b[i]));
      LowerConcat(Piece(b, i), GuidDigits(b, i + 1));
    }
  }

  /** The text of a Guid is lower case. */
  lemma GuidTextLower(g: Guid)
    ensures IsLower(GuidText(g))
  {
    GuidDigitsLower(g.bytes, 0);
  }

  /** Equal texts from byte `i` on come from equal bytes from `i` on. */
  lemma {:induction false} GuidDigitsInjective(b: seq<byte>, c: seq<byte>, i: nat)
    requires |b| == |c| && i <= |b|
    requires GuidDigits(b, i) == GuidDigits(c, i)
    ensures b[i..] == c[i..]
    decreases |b| - i
  {
    if i < |b| {
      SplitEqual(Piece(b, i), GuidDigits(b, i + 1), Piece(c, i), GuidDigits(c, i + 1));
      if DashBefore(i) {
        SplitEqual("-", ByteHex(b[i]), "-", ByteHex(c[i]));
      }
      ByteHexInjective(b[i], c[i]);
      GuidDigitsInjective(b, c, i + 1);
      assert b[i..] == [b[i]] + b[i + 1..] && c[i..] == [c[i]] + c[i + 1..];
    }
  }

  /** Two strings made of an equally long first part and a rest are equal
      part by part. */
  lemma SplitEqual(p: string, r: string, q: string, s: string)
    requires |p| == |q| && p + r == q + s
    ensures p == q && r == s
  {
    assert p == (p + r)[..|p|] && q == (q + s)[..|q|];
    assert r == (p + r)[|p|..] && s == (q + s)[|q|..];
  }

  /** Distinct bytes have distinct digits. */
  lemma ByteHexInjective(x: byte, y: byte)
    requires ByteHex(x) == ByteHex(y)
    ensures x == y
  {
    assert ByteHex(x)[0] == ByteHex(y)[0] && ByteHex(x)[1] == ByteHex(y)[1];
    DigitFacts(x / 16);
    DigitFacts(x % 16);
    DigitFacts(y / 16);
    DigitFacts(y % 16);
  }

  /** Distinct Guids have distinct texts. */
  lemma GuidTextInjective(g: Guid, h: Guid)
    requires GuidText(g) == GuidText(h)
    ensures g == h
  {
    GuidDigitsInjective(g.bytes, h.bytes, 0);
    assert g.bytes == g.bytes[0..] && h.bytes == h.bytes[0..];
  }

  /** Comparing Guid texts ignoring case is comparing the Guids. */
  lemma GuidTextEqualsIgnoreCase(g: Guid, h: Guid)
    ensures EqualsIgnoreCase(GuidText(g), GuidText(h)) <==> g == h
  {
    GuidTextLower(g);
    GuidTextLower(h);
    if GuidText(g) == GuidText(h) {
      GuidTextInjective(g, h);
    }
  }
}
