/**
 The text and byte encodings the decoder produces: `0x` hexadecimal text, decimal text, and
 fixed-width big-endian words. Each comes with its parser and the two are proved inverse.
 */
module Encoding {
  import opened Wrappers

  type Byte = b: int | 0 <= b < 256
  type Bytes = seq<Byte>

  /******* Big-endian words *******/

  function Power256(n: nat): (p: nat)
    ensures p >= 1
  {
    if n == 0 then 1 else 256 * Power256(n - 1)
  }

  function FromBigEndian(bs: Bytes): (n: nat)
    ensures n < Power256(|bs|)
  {
    if bs == [] then 0 else 256 * FromBigEndian(bs[..|bs| - 1]) + bs[|bs| - 1]
  }

  function ToBigEndian(n: nat, width: nat): (bs: Bytes)
    ensures |bs| == width
  {
    if width == 0 then [] else ToBigEndian(n / 256, width - 1) + [n % 256]
  }

  lemma {:induction false} BigEndianOfBytes(bs: Bytes)
    ensures ToBigEndian(FromBigEndian(bs), |bs|) == bs
  {
    if bs == [] {
    } else {
      var init, last := bs[..|bs| - 1], bs[|bs| - 1];
      BigEndianOfBytes(init);
      var n := FromBigEndian(bs);
      assert n / 256 == FromBigEndian(init) && n % 256 == last;
      assert bs == init + [last];
    }
  }

  lemma {:induction false} BigEndianOfNumber(n: nat, width: nat)
    requires n < Power256(width)
    ensures FromBigEndian(ToBigEndian(n, width)) == n
  {
    if width == 0 {
    } else {
      var high, low := n / 256, n % 256;
      assert high < Power256(width - 1) && n == 256 * high + low;
      BigEndianOfNumber(high, width - 1);
      var init := ToBigEndian(high, width - 1);
      assert (init + [low])[..width - 1] == init;
    }
  }

  /******* Decimal text *******/

  predicate IsDigit(c: char) {
    '0' <= c <= '9'
  }

  function Digit(d: nat): (c: char)
    requires d < 10
    ensures IsDigit(c) && c as int == '0' as int + d
  {
    '0' + d as char
  }

  /** Python's `str` of a natural number. */
  function Decimal(n: nat): (s: string)
    ensures s != [] && forall c | c in s :: IsDigit(c)
  {
    if n < 10 then [Digit(n)] else Decimal(n / 10) + [Digit(n % 10)]
  }

  function DecimalValue(s: string): nat
    requires forall c | c in s :: IsDigit(c)
  {
    if s == [] then 0
    else
      var last := s[|s| - 1];
      assert last in s && IsDigit(last);
      10 * DecimalValue(s[..|s| - 1]) + (last as int - '0' as int)
  }

  lemma {:induction false} DecimalRoundTrip(n: nat)
    ensures DecimalValue(Decimal(n)) == n
  {
    var s := Decimal(n);
    if n < 10 {
      assert s[..|s| - 1] == [];
    } else {
      DecimalRoundTrip(n / 10);
      assert s[..|s| - 1] == Decimal(n / 10);
    }
  }

  /** Python's `str` of an integer. */
  function IntText(i: int): (s: string)
    ensures s != []
  {
    if i < 0 then "-" + Decimal(-i) else Decimal(i)
  }

  function ParseInt(s: string): Option<int> {
    if s == [] then None
    else if s[0] == '-' then
      if forall c | c in s[1..] :: IsDigit(c) then Some(0 - DecimalValue(s[1..])) else None
    else
      if forall c | c in s :: IsDigit(c) then Some(DecimalValue(s)) else None
  }

  lemma IntRoundTrip(i: int)
    ensures ParseInt(IntText(i)) == Some(i)
  {
    var s := IntText(i);
    if i < 0 {
      DecimalRoundTrip(-i);
      assert s[1..] == Decimal(-i);
    } else {
      DecimalRoundTrip(i);
      assert s[0] in s;
    }
  }

  /** No superfluous zero in front. */
  predicate IsCanonicalDecimal(s: string) {
    s != [] && (forall c | c in s :: IsDigit(c)) && (|s| > 1 ==> s[0] != '0')
  }

  /** The text `str` gives: no sign on zero or on what is positive. */
  predicate IsCanonicalInt(s: string) {
    IsCanonicalDecimal(s) || (|s| > 1 && s[0] == '-' && s[1] != '0' && IsCanonicalDecimal(s[1..]))
  }

  lemma {:induction false} DecimalStart(n: nat)
    ensures Decimal(n)[0] == '0' <==> n == 0
    ensures IsCanonicalDecimal(Decimal(n))
  {
    if n < 10 {
    } else {
      DecimalStart(n / 10);
      assert Decimal(n)[0] == Decimal(n / 10)[0];
    }
  }

  lemma {:induction false} DecimalOfValue(s: string)
    requires IsCanonicalDecimal(s)
    ensures Decimal(DecimalValue(s)) == s
    ensures DecimalValue(s) == 0 <==> s[0] == '0'
  {
    var init, last := s[..|s| - 1], s[|s| - 1];
    assert last in s;
    if |s| == 1 {
      assert init == [] && s == [last];
    } else {
      assert forall c | c in init :: c in s;
      DecimalOfValue(init);
      var d := last as int - '0' as int;
      var n := DecimalValue(s);
      assert n == 10 * DecimalValue(init) + d && n / 10 == DecimalValue(init) && n % 10 == d;
      assert s == init + [last];
    }
  }

  /** A text is the decimal text of an integer exactly if it is canonical and reads back to it. */
  lemma IntTextIff(s: string, i: int)
    ensures s == IntText(i) <==> IsCanonicalInt(s) && ParseInt(s) == Some(i)
  {
    if s == IntText(i) {
      IntRoundTrip(i);
      DecimalStart(if i < 0 then -i else i);
      if i < 0 {
        assert s[1..] == Decimal(-i);
      }
    }
    if IsCanonicalInt(s) && ParseInt(s) == Some(i) {
      if s[0] == '-' {
        assert !IsDigit('-') && s[0] in s;
        DecimalOfValue(s[1..]);
        assert s == "-" + s[1..];
      } else {
        DecimalOfValue(s);
      }
    }
  }

  /******* Hexadecimal text *******/

  const HEX_DIGITS: string := "0123456789abcdef"

  function HexDigit(d: nat): char
    requires d < 16
  {
    HEX_DIGITS[d]
  }

  function HexDigitValue(c: char): Option<nat> {
    if '0' <= c <= '9' then Some(c as int - '0' as int)
    else if 'a' <= c <= 'f' then Some(c as int - 'a' as int + 10)
    else None
  }

  function HexBody(bs: Bytes): (s: string)
    ensures |s| == 2 * |bs|
  {
    if bs == [] then [] else [HexDigit(bs[0] / 16), HexDigit(bs[0] % 16)] + HexBody(bs[1..])
  }

  /** `to_0x_hex_str`: the `0x` prefix and two lower-case digits for each byte. */
  function Hex(bs: Bytes): (s: string)
    ensures |s| == 2 + 2 * |bs|
  {
    "0x" + HexBody(bs)
  }

  function ParseHexBody(s: string): Option<Bytes> {
    if s == [] then Some([])
    else if |s| == 1 then None
    else
      match (HexDigitValue(s[0]), HexDigitValue(s[1]), ParseHexBody(s[2..]))
      case (Some(high), Some(low), Some(rest)) =>
        var b := 16 * high + low;
        if b < 256 then Some([b] + rest) else None
      case _ => None
  }

  /** `HexBytes` on text that carries the prefix and whole bytes. */
  function ParseHex(s: string): Option<Bytes> {
    if |s| >= 2 && s[..2] == "0x" then ParseHexBody(s[2..]) else None
  }

  lemma HexDigitRoundTrip(d: nat)
    requires d < 16
    ensures HexDigitValue(HexDigit(d)) == Some(d)
  {
  }

  lemma ParseHexPair(high: char, low: char, rest: string)
    ensures ParseHexBody([high, low] + rest) ==
            match (HexDigitValue(high), HexDigitValue(low), ParseHexBody(rest))
            case (Some(h), Some(l), Some(bs)) => if 16 * h + l < 256 then Some([16 * h + l] + bs) else None
            case _ => None
  {
  }

  lemma {:induction false} HexBodyRoundTrip(bs: Bytes)
    ensures ParseHexBody(HexBody(bs)) == Some(bs)
  {
    if bs == [] {
    } else {
      var high, low := bs[0] / 16, bs[0] % 16;
      HexBodyRoundTrip(bs[1..]);
      HexDigitRoundTrip(high);
      HexDigitRoundTrip(low);
      var rest := HexBody(bs[1..]);
      assert HexBody(bs) == [HexDigit(high), HexDigit(low)] + rest;
      ParseHexPair(HexDigit(high), HexDigit(low), rest);
      assert 16 * high + low == bs[0] && bs == [bs[0]] + bs[1..];
    }
  }

  lemma HexRoundTrip(bs: Bytes)
    ensures ParseHex(Hex(bs)) == Some(bs)
  {
    HexBodyRoundTrip(bs);
    assert Hex(bs)[..2] == "0x" && Hex(bs)[2..] == HexBody(bs);
  }

  lemma HexDigitOfValue(c: char)
    requires HexDigitValue(c).Some?
    ensures HexDigitValue(c).value < 16 && HexDigit(HexDigitValue(c).value) == c
  {
    var d := HexDigitValue(c).value;
    assert d < 10 ==> HEX_DIGITS[d] == "0123456789"[d];
    assert d >= 10 ==> HEX_DIGITS[d] == "abcdef"[d - 10];
  }

  lemma {:induction false} HexBodyOfBytes(s: string)
    requires ParseHexBody(s).Some?
    ensures HexBody(ParseHexBody(s).value) == s
    decreases |s|
  {
    if s == [] {
    } else {
      HexBodyOfBytes(s[2..]);
      HexDigitOfValue(s[0]);
      HexDigitOfValue(s[1]);
      var high, low := HexDigitValue(s[0]).value, HexDigitValue(s[1]).value;
      var bs := ParseHexBody(s).value;
      assert bs[0] == 16 * high + low && bs[0] / 16 == high && bs[0] % 16 == low;
      assert bs[1..] == ParseHexBody(s[2..]).value;
      assert s == [s[0], s[1]] + s[2..];
    }
  }

  /** A text is the hexadecimal text of the bytes exactly if it reads back to them. */
  lemma HexIff(s: string, bs: Bytes)
    ensures s == Hex(bs) <==> ParseHex(s) == Some(bs)
  {
    HexRoundTrip(bs);
    if ParseHex(s) == Some(bs) {
      HexBodyOfBytes(s[2..]);
      assert s == s[..2] + s[2..];
    }
  }
}
