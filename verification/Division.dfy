/** Quotient and remainder by repeated subtraction, which proofs can unfold, and their equality
    with the operators of the code. */
module Division {
  function Quot(i: nat, base: nat): (q: nat)
    requires base > 0
    ensures q <= i
    ensures base >= 2 && i >= base ==> 0 < q < i
  {
    if i < base then 0 else 1 + Quot(i - base, base)
  }

  function Rem(i: nat, base: nat): (r: nat)
    requires base > 0
    ensures r < base && r <= i
  {
    if i < base then i else Rem(i - base, base)
  }

  lemma {:induction false} QuotRem(i: nat, base: nat)
    requires base > 0
    ensures i == Quot(i, base) * base + Rem(i, base)
  {
    if i >= base {
      QuotRem(i - base, base);
    }
  }

  lemma DivisionUnique(i: int, base: int, q: int, r: int)
    requires base > 0 && 0 <= r < base && i == q * base + r
    ensures i / base == q && i % base == r
  {
    var d := i / base - q;
    assert d * base == r - i % base;
    if d >= 1 {
      MulGrows(1, d, base);
    } else if d <= -1 {
      MulGrows(d, -1, base);
    }
  }

  lemma MulGrows(a: int, b: int, c: nat)
    requires a <= b
    ensures a * c <= b * c
  {
  }

  /** They are the operators of the code. */
  lemma QuotRemAre(i: nat, base: nat)
    requires base > 0
    ensures i / base == Quot(i, base) && i % base == Rem(i, base)
  {
    QuotRem(i, base);
    DivisionUnique(i, base, Quot(i, base), Rem(i, base));
  }
}
