/** Positional numerals as the backtrace dumper prints them: lower-case digits, most
    significant first, no leading zeros. `Numeral` is the specification that the
    digit loops of the dump buffer are proved against; `ReadNumeral` is its reader. */
module Numerals {

  /** The d-th character of "0123456789abcdef". */
  function DigitChar(d: nat): char
    requires d < 16
  {
    if d < 10 then ('0' as int + d) as char else ('a' as int + d - 10) as char
  }

  /** The two bases in use. Arithmetic is spelled out per base so that it stays linear. */
  datatype Radix = Decimal | Hexadecimal {
    function Base(): nat { if Decimal? then 10 else 16 }
    function Scale(x: nat): nat { if Decimal? then x * 10 else x * 16 }
    function Quotient(v: nat): nat { if Decimal? then v / 10 else v / 16 }
    function Remainder(v: nat): (d: nat)
      ensures d < Base() && v == Scale(Quotient(v)) + d
      ensures v > 0 ==> Quotient(v) < v
    {
      if Decimal? then v % 10 else v % 16
    }
  }

  function Numeral(v: nat, r: Radix): string
    decreases v
  {
    if v < r.Base() then [DigitChar(v)]
    else
      var d := r.Remainder(v);
      Numeral(r.Quotient(v), r) + [DigitChar(d)]
  }

  function DigitValue(c: char): nat {
    if '0' <= c <= '9' then c as nat - '0' as nat
    else if 'a' <= c <= 'f' then c as nat - 'a' as nat + 10
    else 16
  }

  predicate IsNumeral(s: string, r: Radix) {
    && s != []
    && (forall i :: 0 <= i < |s| ==> DigitValue(s[i]) < r.Base())
    && (s[0] == '0' ==> |s| == 1)
  }

  function ReadNumeral(s: string, r: Radix): nat {
    if s == [] then 0 else r.Scale(ReadNumeral(s[..|s| - 1], r)) + DigitValue(s[|s| - 1])
  }

  function Power(r: Radix, k: nat): nat {
    if k == 0 then 1 else r.Scale(Power(r, k - 1))
  }

  lemma DigitValueOf(d: nat)
    requires d < 16
    ensures DigitValue(DigitChar(d)) == d
    ensures DigitChar(d) == '0' <==> d == 0
  {
  }

  lemma DigitsInOrder(d: nat)
    requires d < 16
    ensures DigitChar(d) == "0123456789abcdef"[d]
  {
  }

  lemma DigitOfValue(c: char)
    requires DigitValue(c) < 16
    ensures DigitChar(DigitValue(c)) == c
  {
  }

  /** Reading back what was printed gives the value, for every value and base, and what was
      printed is a numeral: digits of the base only, with no leading zero. */
  lemma {:induction false} NumeralRoundTrip(v: nat, r: Radix)
    ensures IsNumeral(Numeral(v, r), r)
    ensures ReadNumeral(Numeral(v, r), r) == v
    ensures Numeral(v, r)[0] == '0' <==> v == 0
    decreases v
  {
    if v < r.Base() {
      DigitValueOf(v);
      assert ReadNumeral([DigitChar(v)][..0], r) == 0;
    } else {
      var d := r.Remainder(v);
      NumeralRoundTrip(r.Quotient(v), r);
      AppendDigit(Numeral(r.Quotient(v), r), d, r);
    }
  }

  lemma AppendDigit(hi: string, d: nat, r: Radix)
    requires IsNumeral(hi, r) && hi[0] != '0' && d < r.Base()
    ensures IsNumeral(hi + [DigitChar(d)], r)
    ensures ReadNumeral(hi + [DigitChar(d)], r) == r.Scale(ReadNumeral(hi, r)) + d
  {
    DigitValueOf(d);
    var s := hi + [DigitChar(d)];
    assert s[..|s| - 1] == hi;
  }

  /** The converse: a numeral is determined by the value it reads as. */
  lemma {:induction false} NumeralUnique(s: string, r: Radix)
    requires IsNumeral(s, r)
    ensures Numeral(ReadNumeral(s, r), r) == s
    decreases |s|
  {
    var last := s[|s| - 1];
    var d := DigitValue(last);
    DigitOfValue(last);
    var hi := s[..|s| - 1];
    assert s == hi + [last];
    if |s| == 1 {
      assert ReadNumeral(hi, r) == 0;
    } else {
      assert IsNumeral(hi, r);
      NumeralUnique(hi, r);
      NumeralRoundTrip(ReadNumeral(hi, r), r);
      AppendToNumeral(ReadNumeral(hi, r), d, r);
    }
  }

  lemma AppendToNumeral(h: nat, d: nat, r: Radix)
    requires h > 0 && d < r.Base()
    ensures Numeral(r.Scale(h) + d, r) == Numeral(h, r) + [DigitChar(d)]
  {
    var v := r.Scale(h) + d;
    assert r.Quotient(v) == h && r.Remainder(v) == d;
  }

  /** The digits of `v` without the sole zero that stands for nothing. */
  function Leading(v: nat, r: Radix): string {
    if v == 0 then [] else Numeral(v, r)
  }

  lemma NumeralStep(v: nat, r: Radix)
    requires v > 0
    ensures Numeral(v, r) == Leading(r.Quotient(v), r) + [DigitChar(r.Remainder(v))]
  {
  }

  /** A value below the k-th power of the base prints in at most k digits. */
  lemma {:induction false} NumeralLength(v: nat, r: Radix, k: nat)
    requires k >= 1 && v < Power(r, k)
    ensures 1 <= |Numeral(v, r)| <= k
    decreases k
  {
    if v >= r.Base() {
      assert k > 1;
      NumeralLength(r.Quotient(v), r, k - 1);
    }
  }

  lemma WordPowers()
    ensures Power(Hexadecimal, 16) == 0x1_0000_0000_0000_0000
    ensures Power(Decimal, 10) == 10_000_000_000
  {
    assert Power(Hexadecimal, 4) == 0x1_0000;
    assert Power(Hexadecimal, 8) == 0x1_0000_0000;
    assert Power(Hexadecimal, 12) == 0x1_0000_0000_0000;
    assert Power(Decimal, 4) == 10_000;
    assert Power(Decimal, 8) == 100_000_000;
  }

  /** Signed decimal, as printed for `si_code`. */
  function SignedNumeral(v: int): string {
    if v < 0 then ['-'] + Numeral(-v, Decimal) else Numeral(v, Decimal)
  }

  function ReadSigned(s: string): int {
    if s != [] && s[0] == '-' then -(ReadNumeral(s[1..], Decimal) as int) else ReadNumeral(s, Decimal)
  }

  lemma SignedRoundTrip(v: int)
    ensures ReadSigned(SignedNumeral(v)) == v
  {
    if v < 0 {
      NumeralRoundTrip(-v, Decimal);
      assert SignedNumeral(v)[1..] == Numeral(-v, Decimal);
    } else {
      NumeralRoundTrip(v, Decimal);
      var s := Numeral(v, Decimal);
      assert DigitValue(s[0]) < 10;
    }
  }
}
