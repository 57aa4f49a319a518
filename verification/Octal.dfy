/** The eleven-digit octal size field of an archive header: how it is written, and how
    tar_get_size reads it from the last digit to the first. */
module Octal {
  import opened Words

  const DIGITS: nat := 11
  const ZERO: byte := 48

  /** A byte read as a (signed) char. */
  function SignedChar(b: byte): int {
    if b < 128 then b else b - 256
  }

  function Digit(b: byte): int { SignedChar(b) - ZERO }

  /** The number a digit string denotes, most significant digit first. Any bytes are accepted. */
  function Value(s: seq<byte>): int {
    if s == [] then 0 else 8 * Value(s[..|s| - 1]) + Digit(s[|s| - 1])
  }

  function Pow8(k: nat): (p: nat)
    ensures p > 0
  {
    if k == 0 then 1 else 8 * Pow8(k - 1)
  }

  /** The k-digit octal numeral of n. */
  function Numeral(n: nat, k: nat): (s: seq<byte>)
    ensures |s| == k
  {
    if k == 0 then [] else Numeral(n / 8, k - 1) + [ZERO + n % 8]
  }

  lemma {:induction false} NumeralValue(n: nat, k: nat)
    requires n < Pow8(k)
    ensures Value(Numeral(n, k)) == n
  {
    if k > 0 {
      NumeralValue(n / 8, k - 1);
      assert Numeral(n, k)[..k - 1] == Numeral(n / 8, k - 1);
    }
  }

  /** A digit counts for the power of eight given by its place from the end. */
  lemma {:induction false} ValuePlaces(c: byte, s: seq<byte>)
    ensures Value([c] + s) == Digit(c) * Pow8(|s|) + Value(s)
    ensures Digit(c) == (if c < 128 then c as int else c as int - 256) - '0' as int
  {
    var t := [c] + s;
    if s == [] {
      assert t[..0] == [];
    } else {
      var n := |s| - 1;
      ValuePlaces(c, s[..n]);
      assert t[..|t| - 1] == [c] + s[..n] && t[|t| - 1] == s[n];
      PlaceStep(Digit(c), Pow8(n), Value(s[..n]));
    }
  }

  lemma PlaceStep(d: int, p: int, v: int)
    ensures 8 * (d * p + v) == d * (8 * p) + 8 * v
  {
    assert 8 * (d * p) == d * (8 * p);
  }

  /** The archiver's digits are octal, and eleven of them hold 2^33 numbers. */
  lemma {:induction false} NumeralIsOctal(n: nat, k: nat)
    ensures forall j :: 0 <= j < k ==> '0' as int <= Numeral(n, k)[j] <= '7' as int
    ensures Pow8(11) == 0x2_0000_0000
  {
    assert Pow8(11) == 0x2_0000_0000;
    if k > 0 {
      NumeralIsOctal(n / 8, k - 1);
    }
  }

  /** Adding one more digit to a running sum, with sum and weight kept in 32 bits. */
  lemma DigitStep(exact: int, d: int, p: nat, rest: int)
    ensures Wrap(Wrap(exact) + d * p) == Wrap(exact + d * p)
    ensures (8 * rest + d) * p == rest * (8 * p) + d * p
  {
    WrapInner(d * p, exact);
  }

  lemma {:induction false} Pow8Small(k: nat)
    requires k < DIGITS
    ensures Pow8(k) <= 0x4000_0000
  {
    assert Pow8(10) == 0x4000_0000;
    if k < 10 {
      Pow8Grows(k, 10);
    }
  }

  lemma {:induction false} Pow8Grows(j: nat, k: nat)
    requires j <= k
    ensures Pow8(j) <= Pow8(k)
    decreases k
  {
    if j < k {
      Pow8Grows(j, k - 1);
    }
  }

  /** The loop state: `exact` is the true value of the digits from j on, of which `size` keeps 32
      bits, and `count` keeps 32 bits of the weight of digit j - 1. */
  ghost predicate Reading(field: seq<byte>, j: nat, count: u32, size: u32, exact: int)
    requires j <= DIGITS <= |field|
  {
    && count == Wrap(Pow8(DIGITS - j))
    && size == Wrap(exact)
    && Value(field[..DIGITS]) == Value(field[..j]) * Pow8(DIGITS - j) + exact
  }

  lemma ReadsOn(field: seq<byte>, j: nat, count: u32, size: u32, exact: int)
    requires 0 < j <= DIGITS <= |field| && Reading(field, j, count, size, exact)
    ensures var d := Digit(field[j - 1]);
      Reading(field, j - 1, Wrap(count * 8), Wrap(size + d * count), exact + d * Pow8(DIGITS - j))
  {
    var d, p := Digit(field[j - 1]), Pow8(DIGITS - j);
    Pow8Small(DIGITS - j);
    WrapSmall(p);
    DigitStep(exact, d, p, Value(field[..j - 1]));
    assert field[..j][..j - 1] == field[..j - 1];
    assert Pow8(DIGITS - (j - 1)) == 8 * p;
  }

  /** tar_get_size: the field's octal value modulo 2^32, whatever the bytes. */
  method TarGetSize(field: seq<byte>) returns (size: u32)
    requires DIGITS <= |field|
    ensures size == Wrap(Value(field[..DIGITS]))
  {
    size := 0;
    var count: u32 := 1;
    var j := DIGITS;
    ghost var exact: int := 0;
    StartReading(field);
    while j > 0
      invariant 0 <= j <= DIGITS
      invariant Reading(field, j, count, size, exact)
    {
      ReadsOn(field, j, count, size, exact);
      exact := exact + Digit(field[j - 1]) * Pow8(DIGITS - j);
      size := Wrap(size + Digit(field[j - 1]) * count);
      j, count := j - 1, Wrap(count * 8);
    }
    assert field[..0] == [];
  }

  lemma StartReading(field: seq<byte>)
    requires DIGITS <= |field|
    ensures Reading(field, DIGITS, 1, 0, 0)
  {
    WrapSmall(0);
    WrapSmall(1);
  }

  /** Reading back what an archiver wrote. */
  lemma FieldRoundTrip(n: u32, after: seq<byte>)
    ensures Wrap(Value((Numeral(n, DIGITS) + after)[..DIGITS])) == n
  {
    assert Pow8(DIGITS) == 0x2_0000_0000;
    NumeralValue(n, DIGITS);
    assert (Numeral(n, DIGITS) + after)[..DIGITS] == Numeral(n, DIGITS);
  }
}
