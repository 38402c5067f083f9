/** Byte-level renderings used by the blog: UTF-8 (`Encoding.UTF8.GetBytes`),
    two-digit hexadecimal (`byte.ToString("X2")`, `BitConverter.ToString`),
    decimal (`long.ToString`) and `WebUtility.UrlEncode`. */
module Encoding {
  import opened Wrappers
  import opened Text

  type byte = b: int | 0 <= b < 256

  /** UTF-8 encoding of one Unicode scalar value. */
  function Utf8Char(c: char): (bs: seq<byte>)
    ensures 1 <= |bs| <= 4
    ensures |bs| == 1 <==> c as int < 0x80
    ensures |bs| == 1 ==> bs[0] == c as int
  {
    var n := c as int;
    if n < 0x80 then [n]
    else if n < 0x800 then [0xC0 + n / 0x40, 0x80 + n % 0x40]
    else if n < 0x10000 then [0xE0 + n / 0x1000, 0x80 + (n / 0x40) % 0x40, 0x80 + n % 0x40]
    else [0xF0 + n / 0x40000, 0x80 + (n / 0x1000) % 0x40, 0x80 + (n / 0x40) % 0x40, 0x80 + n % 0x40]
  }

  /** `Encoding.UTF8.GetBytes(s)`. */
  function Utf8(s: string): (bs: seq<byte>)
    ensures |s| <= |bs| <= 4 * |s|
  {
    if s == [] then [] else Utf8Char(s[0]) + Utf8(s[1..])
  }

  const UpperDigits: string := "0123456789ABCDEF"
  const LowerDigits: string := "0123456789abcdef"

  /** `b.ToString("X2")`: exactly two upper-case hexadecimal digits. */
  function X2(b: byte): (r: string)
    ensures |r| == 2
  {
    [UpperDigits[b / 16], UpperDigits[b % 16]]
  }

  /** The upper-case hexadecimal rendering of a byte string, two digits per byte, in order. */
  function HexUpper(bs: seq<byte>): (r: string)
    ensures |r| == 2 * |bs|
  {
    if bs == [] then "" else X2(bs[0]) + HexUpper(bs[1..])
  }

  /** Rendering a concatenation renders the parts one after the other. */
  lemma {:induction false} HexUpperConcat(a: seq<byte>, b: seq<byte>)
    ensures HexUpper(a + b) == HexUpper(a) + HexUpper(b)
    decreases |a|
  {
    if a != [] {
      assert (a + b)[1..] == a[1..] + b;
      HexUpperConcat(a[1..], b);
    } else {
      assert a + b == b;
    }
  }

  /** The lower-case rendering, digit for digit. */
  function HexLower(bs: seq<byte>): (r: string)
    ensures |r| == 2 * |bs|
  {
    if bs == [] then "" else [LowerDigits[bs[0] / 16], LowerDigits[bs[0] % 16]] + HexLower(bs[1..])
  }

  lemma {:induction false} HexUpperAt(bs: seq<byte>, i: nat)
    requires i < |bs|
    ensures HexUpper(bs)[2 * i] == UpperDigits[bs[i] / 16]
    ensures HexUpper(bs)[2 * i + 1] == UpperDigits[bs[i] % 16]
  {
    if i > 0 {
      HexUpperAt(bs[1..], i - 1);
    }
  }

  lemma {:induction false} HexLowerAt(bs: seq<byte>, i: nat)
    requires i < |bs|
    ensures HexLower(bs)[2 * i] == LowerDigits[bs[i] / 16]
    ensures HexLower(bs)[2 * i + 1] == LowerDigits[bs[i] % 16]
  {
    if i > 0 {
      HexLowerAt(bs[1..], i - 1);
    }
  }

  /** The sixteen digits: each is read back as its value, and lower-casing an
      upper-case digit gives the lower-case digit. */
  lemma DigitFacts(d: int)
    requires 0 <= d < 16
    ensures DigitValue(UpperDigits[d]) == Some(d) && DigitValue(LowerDigits[d]) == Some(d)
    ensures LowerChar(UpperDigits[d]) == LowerDigits[d]
  {
    if d < 10 {
      assert UpperDigits[d] == LowerDigits[d] == ('0' as int + d) as char;
    } else {
      assert UpperDigits[d] == ('A' as int + d - 10) as char;
      assert LowerDigits[d] == ('a' as int + d - 10) as char;
    }
  }

  /** Lower-casing the upper-case rendering gives the lower-case rendering. */
  lemma {:induction false} LowerOfHexUpper(bs: seq<byte>)
    ensures Lower(HexUpper(bs)) == HexLower(bs)
  {
    if bs != [] {
      LowerOfHexUpper(bs[1..]);
      LowerConcat(X2(bs[0]), HexUpper(bs[1..]));
      DigitFacts(bs[0] / 16);
      DigitFacts(bs[0] % 16);
      assert Lower(X2(bs[0])) == [LowerDigits[bs[0] / 16], LowerDigits[bs[0] % 16]];
    }
  }

  predicate IsLowerHexDigit(c: char) {
    ('0' <= c <= '9') || ('a' <= c <= 'f')
  }

  predicate IsUpperHexDigit(c: char) {
    ('0' <= c <= '9') || ('A' <= c <= 'F')
  }

  /** Every character of the lower-case rendering is one of `0-9a-f`. */
  lemma HexLowerDigits(bs: seq<byte>)
    ensures forall k :: 0 <= k < |HexLower(bs)| ==> IsLowerHexDigit(HexLower(bs)[k])
  {
    forall k | 0 <= k < |HexLower(bs)| ensures IsLowerHexDigit(HexLower(bs)[k]) {
      HexLowerAt(bs, k / 2);
      assert k == 2 * (k / 2) || k == 2 * (k / 2) + 1;
    }
  }

  /** Every character of the upper-case rendering is one of `0-9A-F`. */
  lemma HexUpperDigits(bs: seq<byte>)
    ensures forall k :: 0 <= k < |HexUpper(bs)| ==> IsUpperHexDigit(HexUpper(bs)[k])
  {
    forall k | 0 <= k < |HexUpper(bs)| ensures IsUpperHexDigit(HexUpper(bs)[k]) {
      HexUpperAt(bs, k / 2);
      assert k == 2 * (k / 2) || k == 2 * (k / 2) + 1;
    }
  }

  /** The value of a hexadecimal digit of either case. */
  function DigitValue(c: char): Option<int> {
    if '0' <= c <= '9' then Some(c as int - '0' as int)
    else if 'a' <= c <= 'f' then Some(c as int - 'a' as int + 10)
    else if 'A' <= c <= 'F' then Some(c as int - 'A' as int + 10)
    else None
  }

  /** Reads a hexadecimal rendering back into bytes; the partner of `HexUpper` and `HexLower`. */
  function ParseHex(s: string): (r: Option<seq<byte>>)
    ensures r.Some? ==> 2 * |r.value| == |s|
    decreases |s|
  {
    if s == [] then Some([])
    else if |s| == 1 then None
    else match (DigitValue(s[0]), DigitValue(s[1]), ParseHex(s[2..]))
      case (Some(h), Some(l), Some(rest)) => Some([16 * h + l] + rest)
      case _ => None
  }

  lemma {:induction false} ParseHexUpper(bs: seq<byte>)
    ensures ParseHex(HexUpper(bs)) == Some(bs)
  {
    if bs != [] {
      ParseHexUpper(bs[1..]);
      DigitFacts(bs[0] / 16);
      DigitFacts(bs[0] % 16);
      ParseHexPair(UpperDigits[bs[0] / 16], UpperDigits[bs[0] % 16], HexUpper(bs[1..]), bs[0], bs[1..]);
      assert [bs[0]] + bs[1..] == bs;
    }
  }

  lemma {:induction false} ParseHexLower(bs: seq<byte>)
    ensures ParseHex(HexLower(bs)) == Some(bs)
  {
    if bs != [] {
      ParseHexLower(bs[1..]);
      DigitFacts(bs[0] / 16);
      DigitFacts(bs[0] % 16);
      ParseHexPair(LowerDigits[bs[0] / 16], LowerDigits[bs[0] % 16], HexLower(bs[1..]), bs[0], bs[1..]);
      assert [bs[0]] + bs[1..] == bs;
    }
  }

  /** Two digits of a byte's value, ahead of the rendering of the rest, read
      back as that byte ahead of the rest. */
  lemma ParseHexPair(c0: char, c1: char, t: string, x: byte, rest: seq<byte>)
    requires DigitValue(c0) == Some(x / 16) && DigitValue(c1) == Some(x % 16)
    requires ParseHex(t) == Some(rest)
    ensures ParseHex([c0, c1] + t) == Some([x] + rest)
  {
    var s := [c0, c1] + t;
    assert s[0] == c0 && s[1] == c1 && s[2..] == t;
    assert 16 * (x / 16) + x % 16 == x;
  }

  /** `BitConverter.ToString(bs)`: the two-digit renderings joined by `-`. */
  function BitConverterText(bs: seq<byte>): (r: string)
    ensures |bs| > 0 ==> |r| == 3 * |bs| - 1
  {
    if bs == [] then ""
    else if |bs| == 1 then X2(bs[0])
    else X2(bs[0]) + "-" + BitConverterText(bs[1..])
  }

  /** Removing the dashes from `BitConverter.ToString` leaves the plain rendering. */
  lemma {:induction false} BitConverterWithoutDashes(bs: seq<byte>)
    ensures Without(BitConverterText(bs), {'-'}) == HexUpper(bs)
  {
    if |bs| == 1 {
      assert X2(bs[0]) == [X2(bs[0])[0]] + [X2(bs[0])[1]];
      assert Without(X2(bs[0]), {'-'}) == X2(bs[0]) by {
        HexUpperDigits([bs[0]]);
        assert HexUpper([bs[0]]) == X2(bs[0]);
        assert X2(bs[0])[1..] == [X2(bs[0])[1]];
      }
      assert HexUpper(bs) == X2(bs[0]) + HexUpper([]);
    } else if |bs| > 1 {
      BitConverterWithoutDashes(bs[1..]);
      HexUpperDigits([bs[0]]);
      assert HexUpper([bs[0]]) == X2(bs[0]);
      WithoutConcat(X2(bs[0]) + "-", BitConverterText(bs[1..]), {'-'});
      WithoutConcat(X2(bs[0]), "-", {'-'});
      assert X2(bs[0])[1..] == [X2(bs[0])[1]];
      assert Without(X2(bs[0]), {'-'}) == X2(bs[0]);
    }
  }

  /** `n.ToString(CultureInfo.InvariantCulture)` for a non-negative integer. */
  function Decimal(n: nat): (r: string)
    ensures |r| >= 1
    ensures forall i :: 0 <= i < |r| ==> '0' <= r[i] <= '9'
  {
    if n < 10 then [UpperDigits[n]] else Decimal(n / 10) + [UpperDigits[n % 10]]
  }

  /** The value of a string of decimal digits. */
  function DecimalValue(s: string): nat
    requires forall i :: 0 <= i < |s| ==> '0' <= s[i] <= '9'
  {
    if s == [] then 0 else 10 * DecimalValue(s[..|s| - 1]) + (s[|s| - 1] as int - '0' as int)
  }

  /** The decimal rendering reads back as the number it renders. */
  lemma {:induction false} DecimalRoundTrip(n: nat)
    ensures DecimalValue(Decimal(n)) == n
  {
    if n >= 10 {
      DecimalRoundTrip(n / 10);
      assert Decimal(n)[..|Decimal(n)| - 1] == Decimal(n / 10);
    }
  }

  /** The characters `WebUtility.UrlEncode` passes through unchanged. */
  predicate IsUrlSafe(c: char) {
    ('a' <= c <= 'z') || ('A' <= c <= 'Z') || ('0' <= c <= '9')
    || c == '-' || c == '_' || c == '.' || c == '!' || c == '*' || c == '(' || c == ')'
  }

  /** `%XX` for every byte, upper-case digits. */
  function PercentEncode(bs: seq<byte>): (r: string)
    ensures |r| == 3 * |bs|
  {
    if bs == [] then "" else ['%'] + X2(bs[0]) + PercentEncode(bs[1..])
  }

  /** `WebUtility.UrlEncode(s)`: safe characters kept, space as `+`, every other
      character as the `%XX` escapes of its UTF-8 bytes. */
  function UrlEncode(s: string): (r: string)
    ensures |r| >= |s|
  {
    if s == [] then ""
    else (if IsUrlSafe(s[0]) then [s[0]] else if s[0] == ' ' then "+" else PercentEncode(Utf8Char(s[0])))
         + UrlEncode(s[1..])
  }

  /** A string made only of safe characters is its own URL encoding. */
  lemma {:induction false} UrlEncodeSafe(s: string)
    requires forall i :: 0 <= i < |s| ==> IsUrlSafe(s[i])
    ensures UrlEncode(s) == s
  {
    if s != [] {
      UrlEncodeSafe(s[1..]);
    }
  }

  /** Every character of a URL encoding is safe, `+`, `%` or an upper-case hex digit. */
  lemma {:induction false} UrlEncodeAlphabet(s: string)
    ensures forall i :: 0 <= i < |UrlEncode(s)| ==>
      var c := UrlEncode(s)[i]; IsUrlSafe(c) || c == '+' || c == '%'
  {
    if s != [] {
      UrlEncodeAlphabet(s[1..]);
      if !IsUrlSafe(s[0]) && s[0] != ' ' {
        PercentAlphabet(Utf8Char(s[0]));
      }
    }
  }

  lemma {:induction false} PercentAlphabet(bs: seq<byte>)
    ensures forall i :: 0 <= i < |PercentEncode(bs)| ==>
      var c := PercentEncode(bs)[i]; IsUrlSafe(c) || c == '%'
  {
    if bs != [] {
      PercentAlphabet(bs[1..]);
      HexUpperDigits([bs[0]]);
      assert HexUpper([bs[0]]) == X2(bs[0]);
    }
  }
}
