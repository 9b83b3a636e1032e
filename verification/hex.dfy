/**
 * Lower-case hexadecimal numerals and a fixed-width hexadecimal encoding
 * of strings: the alphabet of the token serialization. Neither contains a
 * space or a dot, so encoded fields survive the splits the server makes.
 */
module Hex {
  import opened Wrappers

  predicate IsDigit(c: char) {
    '0' <= c <= '9' || 'a' <= c <= 'f'
  }

  predicate AllDigits(s: string) {
    forall i :: 0 <= i < |s| ==> IsDigit(s[i])
  }

  function DigitValue(c: char): (v: nat)
    requires IsDigit(c)
    ensures v < 16
  {
    if c <= '9' then c as int - '0' as int else c as int - 'a' as int + 10
  }

  function DigitChar(v: nat): (c: char)
    requires v < 16
    ensures IsDigit(c) && DigitValue(c) == v
  {
    if v < 10 then ('0' as int + v) as char else ('a' as int + v - 10) as char
  }

  lemma DigitCharOfValue(c: char)
    requires IsDigit(c)
    ensures DigitChar(DigitValue(c)) == c
  {
  }

  function Pow16(w: nat): nat
  {
    if w == 0 then 1 else 16 * Pow16(w - 1)
  }

  /** The number a string of digits denotes, most significant digit first. */
  function ValueOf(s: string): nat
    requires AllDigits(s)
    decreases |s|
  {
    if |s| == 0 then 0 else ValueOf(s[..|s| - 1]) * 16 + DigitValue(s[|s| - 1])
  }

  /** The shortest numeral of `n`: no leading zero except for zero itself. */
  function FromNat(n: nat): (s: string)
    ensures |s| >= 1 && AllDigits(s)
    ensures |s| > 1 ==> s[0] != '0'
    decreases n
  {
    if n < 16 then [DigitChar(n)] else FromNat(n / 16) + [DigitChar(n % 16)]
  }

  /** Parses a shortest numeral; anything else (empty, a foreign character,
      a leading zero) is refused. */
  function ToNat(s: string): (r: Option<nat>)
    ensures r.Some? <==> |s| >= 1 && AllDigits(s) && (|s| > 1 ==> s[0] != '0')
  {
    if |s| >= 1 && AllDigits(s) && (|s| > 1 ==> s[0] != '0') then Some(ValueOf(s)) else None
  }

  /** `w` digits of `n`, most significant first, keeping only `n` modulo 16^w. */
  function FromNatFixed(n: nat, w: nat): (s: string)
    ensures |s| == w && AllDigits(s)
    decreases w
  {
    if w == 0 then [] else FromNatFixed(n / 16, w - 1) + [DigitChar(n % 16)]
  }

  lemma ValueOfSnoc(s: string, c: char)
    requires AllDigits(s) && IsDigit(c)
    ensures AllDigits(s + [c]) && ValueOf(s + [c]) == ValueOf(s) * 16 + DigitValue(c)
  {
    assert (s + [c])[..|s|] == s;
  }

  lemma {:induction false} ValueOfFromNat(n: nat)
    ensures ValueOf(FromNat(n)) == n
    decreases n
  {
    if n >= 16 {
      ValueOfFromNat(n / 16);
      ValueOfSnoc(FromNat(n / 16), DigitChar(n % 16));
    }
  }

  /** Printing then parsing a number gives it back. */
  lemma ToNatFromNat(n: nat)
    ensures ToNat(FromNat(n)) == Some(n)
  {
    ValueOfFromNat(n);
  }

  /** A numeral whose first digit is not zero denotes a positive number. */
  lemma {:induction false} LeadingDigitPositive(s: string)
    requires |s| >= 1 && AllDigits(s) && s[0] != '0'
    ensures ValueOf(s) >= 1
    decreases |s|
  {
    if |s| > 1 {
      LeadingDigitPositive(s[..|s| - 1]);
    }
  }

  /** The numeral a parse accepts is the one that prints its value: parsing is canonical. */
  lemma {:induction false} FromNatToNat(s: string)
    requires ToNat(s).Some?
    ensures FromNat(ToNat(s).value) == s
    decreases |s|
  {
    var n := ValueOf(s);
    if |s| == 1 {
      assert s[..|s| - 1] == [] && s[|s| - 1] == s[0];
      assert ValueOf(s[..|s| - 1]) == 0;
      DigitCharOfValue(s[0]);
      assert FromNat(n) == [s[0]];
    } else {
      var p := s[..|s| - 1];
      var c := s[|s| - 1];
      assert p[0] == s[0];
      LeadingDigitPositive(p);
      assert n == ValueOf(p) * 16 + DigitValue(c);
      assert n / 16 == ValueOf(p) && n % 16 == DigitValue(c);
      FromNatToNat(p);
      DigitCharOfValue(c);
      assert p + [c] == s;
    }
  }

  lemma {:induction false} ValueOfFixed(n: nat, w: nat)
    requires n < Pow16(w)
    ensures ValueOf(FromNatFixed(n, w)) == n
    decreases w
  {
    if w > 0 {
      assert n / 16 < Pow16(w - 1);
      ValueOfFixed(n / 16, w - 1);
      ValueOfSnoc(FromNatFixed(n / 16, w - 1), DigitChar(n % 16));
    }
  }

  lemma {:induction false} FixedOfValue(s: string)
    requires AllDigits(s)
    ensures FromNatFixed(ValueOf(s), |s|) == s
    decreases |s|
  {
    if |s| > 0 {
      var p := s[..|s| - 1];
      var c := s[|s| - 1];
      var n := ValueOf(s);
      assert n / 16 == ValueOf(p) && n % 16 == DigitValue(c);
      FixedOfValue(p);
      DigitCharOfValue(c);
      assert p + [c] == s;
    }
  }

  /** Digits per character: 16^6 exceeds the largest Unicode scalar value. */
  const CharWidth: nat := 6

  predicate IsCharValue(v: int) {
    0 <= v < 0xD800 || 0xE000 <= v < 0x11_0000
  }

  /** Each character becomes the six-digit numeral of its code point. */
  function FromString(s: string): (e: string)
    ensures |e| == CharWidth * |s| && AllDigits(e)
    decreases |s|
  {
    if |s| == 0 then [] else FromNatFixed(s[0] as nat, CharWidth) + FromString(s[1..])
  }

  /** Decodes six digits at a time; a short group or a value that is not a
      Unicode scalar value is refused. */
  function ToString(e: string): (r: Option<string>)
    decreases |e|
  {
    if |e| == 0 then Some([])
    else if |e| < CharWidth || !AllDigits(e[..CharWidth]) then None
    else
      var v := ValueOf(e[..CharWidth]);
      if !IsCharValue(v) then None
      else
        match ToString(e[CharWidth..])
        case None => None
        case Some(rest) => Some([v as char] + rest)
  }

  /** Encoding then decoding a string gives it back. */
  lemma {:induction false} ToStringFromString(s: string)
    ensures ToString(FromString(s)) == Some(s)
    decreases |s|
  {
    if |s| > 0 {
      var head := FromNatFixed(s[0] as nat, CharWidth);
      var e := FromString(s);
      assert e == head + FromString(s[1..]);
      assert e[..CharWidth] == head;
      assert e[CharWidth..] == FromString(s[1..]);
      assert Pow16(CharWidth) == 0x100_0000;
      ValueOfFixed(s[0] as nat, CharWidth);
      ToStringFromString(s[1..]);
      assert [s[0]] + s[1..] == s;
    }
  }

  /** A string the decoder accepts is the encoding of what it decodes to. */
  lemma {:induction false} FromStringToString(e: string)
    requires ToString(e).Some?
    ensures FromString(ToString(e).value) == e
    decreases |e|
  {
    if |e| > 0 {
      var v := ValueOf(e[..CharWidth]);
      FixedOfValue(e[..CharWidth]);
      FromStringToString(e[CharWidth..]);
      assert e[..CharWidth] + e[CharWidth..] == e;
    }
  }

  lemma DigitsAvoid(s: string, c: char)
    requires AllDigits(s) && !IsDigit(c)
    ensures c !in s
  {
  }
}
