/** Positional numerals as byte strings, most significant digit first, and what they denote. */
module Numerals {
  import opened Words
  import opened Division

  const ZERO: byte := 48
  const NINE: byte := 57
  const LETTER_A: byte := 65
  const MINUS: byte := 45
  /** The base is an 8-bit number. */
  const MAX_BASE: nat := 255
  /** Digits 10, 11, ... print as A, B, ...; the one for 201 is the NUL byte. */
  const NUL_DIGIT: nat := 201

  function DigitChar(d: nat): byte
    requires d < MAX_BASE
  {
    if d > 9 then (d - 10 + LETTER_A) % 0x100 else ZERO + d
  }

  function DigitOf(c: byte): nat {
    if c >= LETTER_A then c - LETTER_A + 10 else if c >= ZERO then c - ZERO else 0
  }

  /** The numeral of i in a base. */
  function Numeral(i: nat, base: nat): (s: seq<byte>)
    requires 2 <= base <= MAX_BASE
    ensures s != []
    decreases i
  {
    if i < base then [DigitChar(i)] else Numeral(Quot(i, base), base) + [DigitChar(Rem(i, base))]
  }

  lemma HighByte(d: nat)
    requires d < NUL_DIGIT
    ensures DigitChar(d) >= ZERO
  {
  }

  /** Up to base 201, neither NUL nor a minus sign is a digit. */
  lemma {:induction false} OnlyDigits(i: nat, base: nat)
    requires 2 <= base <= NUL_DIGIT
    ensures forall k :: 0 <= k < |Numeral(i, base)| ==> Numeral(i, base)[k] >= ZERO
    decreases i
  {
    var d := Rem(i, base);
    HighByte(d);
    if i >= base {
      var head := Numeral(Quot(i, base), base);
      OnlyDigits(Quot(i, base), base);
      assert Numeral(i, base) == head + [DigitChar(d)];
    }
  }

  /** The number a digit string denotes. */
  function Value(s: seq<byte>, base: nat): nat {
    if s == [] then 0 else Value(s[..|s| - 1], base) * base + DigitOf(s[|s| - 1])
  }

  lemma ValueSnoc(s: seq<byte>, c: byte, base: nat)
    ensures Value(s + [c], base) == Value(s, base) * base + DigitOf(c)
  {
    assert (s + [c])[..|s|] == s;
  }

  function Power(base: nat, k: nat): nat {
    if k == 0 then 1 else base * Power(base, k - 1)
  }

  lemma DigitReads(d: nat)
    requires d < NUL_DIGIT
    ensures DigitOf(DigitChar(d)) == d && (DigitChar(d) == ZERO <==> d == 0)
  {
  }

  /** The usual digits, up to base 36. */
  function Alphabet(): (s: string)
    ensures |s| == 36
  {
    "0123456789ABCDEFGHIJKLMNOPQRSTUVWXYZ"
  }

  /** They are what is printed; beyond them, the bytes that follow. */
  lemma DigitsAre(d: nat)
    requires d < MAX_BASE
    ensures d < 36 ==> DigitChar(d) == Alphabet()[d] as int
    ensures d >= 36 ==> DigitChar(d) == (d + 55) % 0x100
  {
  }

  /** A digit byte. */
  ghost predicate Usual(c: byte, base: nat) {
    exists d :: 0 <= d < base && d < 36 && c == Alphabet()[d] as int && DigitOf(c) == d
  }

  /** Up to base 36 a numeral consists of the usual digits, and they are read as what they are. */
  lemma {:induction false} NumeralIsUsual(i: nat, base: nat)
    requires 2 <= base <= 36
    ensures forall k :: 0 <= k < |Numeral(i, base)| ==> Usual(Numeral(i, base)[k], base)
    decreases i
  {
    var d := Rem(i, base);
    DigitsAre(d);
    DigitReads(d);
    assert Usual(DigitChar(d), base);
    if i >= base {
      NumeralIsUsual(Quot(i, base), base);
    }
  }

  /** A digit counts for the power of the base given by its place from the end. */
  lemma {:induction false} ValuePlaces(c: byte, s: seq<byte>, base: nat)
    ensures Value([c] + s, base) == DigitOf(c) * Power(base, |s|) + Value(s, base)
  {
    if s == [] {
      ValueSnoc([], c, base);
      assert [] + [c] == [c] + s;
    } else {
      var n := |s| - 1;
      var head, last := s[..n], s[n];
      ValuePlaces(c, head, base);
      ValueSnoc([c] + head, last, base);
      ValueSnoc(head, last, base);
      assert [c] + s == ([c] + head) + [last] && s == head + [last];
      PlaceStep(DigitOf(c), Power(base, n), Value(head, base), base);
    }
  }

  lemma PlaceStep(d: nat, p: nat, v: nat, base: nat)
    ensures (d * p + v) * base == d * (base * p) + v * base
  {
    assert d * p * base == d * (base * p);
  }

  /** Printing then reading gives the number back, in every base up to 201, with no leading zero. */
  lemma {:induction false} NumeralDenotes(i: nat, base: nat)
    requires 2 <= base <= NUL_DIGIT
    ensures Value(Numeral(i, base), base) == i
    ensures |Numeral(i, base)| > 1 ==> Numeral(i, base)[0] != ZERO
    ensures i > 0 ==> Numeral(i, base)[0] != ZERO
    ensures forall k :: 0 <= k < |Numeral(i, base)| ==> DigitOf(Numeral(i, base)[k]) < base
  {
    if i < base {
      DigitReads(i);
      assert Numeral(i, base)[..0] == [];
    } else {
      var head, d := Numeral(Quot(i, base), base), DigitChar(Rem(i, base));
      QuotRem(i, base);
      NumeralDenotes(Quot(i, base), base);
      DigitReads(Rem(i, base));
      ValueSnoc(head, d, base);
    }
  }

  /** A number below base^k prints in at most k digits. */
  lemma {:induction false} NumeralFits(i: nat, base: nat, k: nat)
    requires 2 <= base <= MAX_BASE && k > 0 && i < Power(base, k)
    ensures |Numeral(i, base)| <= k
  {
    if i >= base {
      QuotientBelow(i, base, Power(base, k - 1));
      if k > 1 {
        NumeralFits(Quot(i, base), base, k - 1);
      }
    }
  }

  lemma QuotientBelow(i: nat, base: nat, p: nat)
    requires base > 0 && i < base * p
    ensures Quot(i, base) < p
  {
    QuotRem(i, base);
    if Quot(i, base) >= p {
      MulGrows(p, Quot(i, base), base);
    }
  }

  lemma WordFits(i: u32)
    ensures |Numeral(i, 10)| <= 10
    ensures |Numeral(i, 16)| <= 8
  {
    assert Power(10, 10) == 10_000_000_000 by {
      assert Power(10, 5) == 100_000;
    }
    assert Power(16, 8) == TWO32 by {
      assert Power(16, 4) == 0x1_0000;
    }
    NumeralFits(i, 10, 10);
    NumeralFits(i, 16, 8);
  }

  predicate IsDigit(c: byte) { ZERO <= c <= NINE }

  /** The longest prefix of decimal digits. */
  function DigitPrefix(s: seq<byte>): (p: seq<byte>)
    ensures |p| <= |s| && p == s[..|p|]
    ensures forall k :: 0 <= k < |p| ==> 48 <= p[k] <= 57
    ensures |p| < |s| ==> !(48 <= s[|p|] <= 57)
  {
    if s == [] || !IsDigit(s[0]) then [] else [s[0]] + DigitPrefix(s[1..])
  }

  lemma {:induction false} DigitPrefixIs(p: seq<byte>, s: seq<byte>)
    requires |p| < |s| && s[..|p|] == p && (forall k :: 0 <= k < |p| ==> IsDigit(p[k])) && !IsDigit(s[|p|])
    ensures DigitPrefix(s) == p
  {
    if p != [] {
      assert s[0] == p[0] && s[1..][..|p| - 1] == p[1..];
      DigitPrefixIs(p[1..], s[1..]);
    }
  }
}
