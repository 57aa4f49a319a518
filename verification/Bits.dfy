/** The bitwise operators of the bitmap macros on register values, defined digit by digit in
    base two, and what they do to single bits. */
module Bits {
  import opened Words

  const BITS: nat := 32
  const FULL: u32 := 0xFFFF_FFFF

  function And(a: nat, b: nat): nat {
    if a == 0 then 0 else 2 * And(a / 2, b / 2) + (if a % 2 == 1 && b % 2 == 1 then 1 else 0)
  }

  function Or(a: nat, b: nat): nat
    decreases a + b
  {
    if a == 0 && b == 0 then 0 else 2 * Or(a / 2, b / 2) + (if a % 2 == 1 || b % 2 == 1 then 1 else 0)
  }

  /** a & ~b. */
  function AndNot(a: nat, b: nat): nat {
    if a == 0 then 0 else 2 * AndNot(a / 2, b / 2) + (if a % 2 == 1 && b % 2 == 0 then 1 else 0)
  }

  /** 1 << j. */
  function Bit(j: nat): (b: nat)
    ensures b > 0
  {
    if j == 0 then 1 else 2 * Bit(j - 1)
  }

  /** Bit j of w is set: the frame is taken. */
  predicate Has(w: nat, j: nat) {
    if j == 0 then w % 2 == 1 else Has(w / 2, j - 1)
  }

  lemma {:induction false} AndZero(a: nat)
    ensures And(a, 0) == 0
  {
    if a > 0 {
      AndZero(a / 2);
    }
  }

  lemma {:induction false} ZeroHas(j: nat)
    ensures !Has(0, j)
  {
    if j > 0 {
      ZeroHas(j - 1);
    }
  }

  /** test_bit(w, 1 << j) looks at bit j. */
  lemma {:induction false} TestIs(w: nat, j: nat)
    ensures And(w, Bit(j)) != 0 <==> Has(w, j)
  {
    if w == 0 {
      ZeroHas(j);
    } else if j == 0 {
      AndZero(w / 2);
    } else {
      TestIs(w / 2, j - 1);
    }
  }

  lemma {:induction false} OrHas(a: nat, b: nat, k: nat)
    ensures Has(Or(a, b), k) <==> Has(a, k) || Has(b, k)
  {
    if a == 0 && b == 0 {
    } else if k > 0 {
      OrHas(a / 2, b / 2, k - 1);
    }
  }

  lemma {:induction false} AndNotHas(a: nat, b: nat, k: nat)
    ensures Has(AndNot(a, b), k) <==> Has(a, k) && !Has(b, k)
  {
    if a == 0 {
      ZeroHas(k);
    } else if k > 0 {
      AndNotHas(a / 2, b / 2, k - 1);
    }
  }

  lemma {:induction false} BitHas(j: nat, k: nat)
    ensures Has(Bit(j), k) <==> j == k
  {
    if j == 0 {
      if k > 0 {
        ZeroHas(k - 1);
      }
    } else if k > 0 {
      BitHas(j - 1, k - 1);
    }
  }

  lemma {:induction false} OrBelow(a: nat, b: nat, n: nat)
    requires a < Bit(n) && b < Bit(n)
    ensures Or(a, b) < Bit(n)
  {
    if n > 0 {
      OrBelow(a / 2, b / 2, n - 1);
    }
  }

  lemma {:induction false} AndNotBelow(a: nat, b: nat)
    ensures AndNot(a, b) <= a
  {
    if a > 0 {
      AndNotBelow(a / 2, b / 2);
    }
  }

  lemma {:induction false} BitsGrow(j: nat, n: nat)
    requires j < n
    ensures Bit(j) < Bit(n)
  {
    if j < n - 1 {
      BitsGrow(j, n - 1);
    }
  }

  /** A word is its bits. */
  lemma {:induction false} SameBits(w: nat, v: nat, n: nat)
    requires w < Bit(n) && v < Bit(n)
    requires forall k :: 0 <= k < n ==> Has(w, k) == Has(v, k)
    ensures w == v
  {
    if n > 0 {
      assert Has(w, 0) == Has(v, 0);
      forall k | 0 <= k < n - 1 ensures Has(w / 2, k) == Has(v / 2, k) {
        assert Has(w, k + 1) == Has(v, k + 1);
      }
      SameBits(w / 2, v / 2, n - 1);
    }
  }

  lemma {:induction false} OnesHave(n: nat, k: nat)
    requires k < n
    ensures Has(Bit(n) - 1, k)
  {
    if k > 0 {
      OnesHave(n - 1, k - 1);
    }
  }

  lemma WordBound()
    ensures Bit(32) == TWO32
  {
    assert Bit(4) == 16;
    FourMore(4);
    FourMore(8);
    FourMore(12);
    FourMore(16);
    FourMore(20);
    FourMore(24);
    FourMore(28);
  }

  lemma FourMore(n: nat)
    ensures Bit(n + 4) == 16 * Bit(n)
  {
    assert Bit(n + 2) == 4 * Bit(n);
  }

  predicate AllSet(w: nat) {
    forall k :: 0 <= k < BITS ==> Has(w, k)
  }

  /** A word equals 0xffffFFFF exactly when all its 32 bits are set. */
  lemma FullIff(w: u32)
    ensures w == FULL <==> AllSet(w)
  {
    WordBound();
    var ones := Bit(BITS) - 1;
    forall k | 0 <= k < BITS ensures Has(ones, k) {
      OnesHave(BITS, k);
    }
    if AllSet(w) {
      SameBits(w, ones, BITS);
    }
  }

  function SetBit(w: u32, j: nat): (r: u32)
    requires j < BITS
    ensures forall k :: 0 <= k < BITS ==> Has(r, k) == (Has(w, k) || k == j)
  {
    WordBound();
    BitsGrow(j, BITS);
    OrBelow(w, Bit(j), BITS);
    assert forall k :: 0 <= k < BITS ==> Has(Or(w, Bit(j)), k) == (Has(w, k) || k == j) by {
      forall k | 0 <= k < BITS ensures Has(Or(w, Bit(j)), k) == (Has(w, k) || k == j) {
        OrHas(w, Bit(j), k);
        BitHas(j, k);
      }
    }
    Or(w, Bit(j))
  }

  function ClearBit(w: u32, j: nat): (r: u32)
    requires j < BITS
    ensures forall k :: 0 <= k < BITS ==> Has(r, k) == (Has(w, k) && k != j)
  {
    AndNotBelow(w, Bit(j));
    assert forall k :: 0 <= k < BITS ==> Has(AndNot(w, Bit(j)), k) == (Has(w, k) && k != j) by {
      forall k | 0 <= k < BITS ensures Has(AndNot(w, Bit(j)), k) == (Has(w, k) && k != j) {
        AndNotHas(w, Bit(j), k);
        BitHas(j, k);
      }
    }
    AndNot(w, Bit(j))
  }

  /** Set, or clear, `count` bits upwards from bit f, one after the other. */
  function Fill(w: u32, f: nat, count: nat): (r: u32)
    requires f + count <= BITS
    decreases count
    ensures forall k :: 0 <= k < BITS ==> Has(r, k) == (Has(w, k) || f <= k < f + count)
  {
    if count == 0 then w else Fill(SetBit(w, f), f + 1, count - 1)
  }

  function Empty(w: u32, f: nat, count: nat): (r: u32)
    requires f + count <= BITS
    decreases count
    ensures forall k :: 0 <= k < BITS ==> Has(r, k) == (Has(w, k) && !(f <= k < f + count))
  {
    if count == 0 then w else Empty(ClearBit(w, f), f + 1, count - 1)
  }

  lemma EmptyUndoesFill(w: u32, f: nat, count: nat)
    requires f + count <= BITS
    requires forall k :: f <= k < f + count ==> !Has(w, k)
    ensures Empty(Fill(w, f, count), f, count) == w
  {
    WordBound();
    SameBits(Empty(Fill(w, f, count), f, count), w, BITS);
  }

  /** next_bit keeps the mask in step with the bit number while the number is below 31. */
  lemma NextBit(j: nat)
    requires j < 31
    ensures Wrap(2 * Bit(j)) == Bit(j + 1)
  {
    WordBound();
    BitsGrow(j + 1, BITS);
  }

  /** The set loop of frame_alloc. */
  method SetRun(word: u32, f: nat, count: nat) returns (w: u32)
    requires f < BITS && f + count <= BITS
    ensures w == Fill(word, f, count)
  {
    w := word;
    var bit := Bit(f);
    var k := 0;
    while k < count
      invariant 0 <= k <= count
      invariant k < count ==> bit == Bit(f + k)
      invariant Fill(w, f + k, count - k) == Fill(word, f, count)
    {
      assert SetBit(w, f + k) == Or(w, bit);
      w := Or(w, bit);
      if f + k < 31 {
        NextBit(f + k);
      }
      bit := Wrap(2 * bit);
      k := k + 1;
    }
  }

  /** The clear loop of frame_free. */
  method ClearRun(word: u32, f: nat, count: nat) returns (w: u32)
    requires f < BITS && f + count <= BITS
    ensures w == Empty(word, f, count)
  {
    w := word;
    var bit := Bit(f);
    var k := 0;
    while k < count
      invariant 0 <= k <= count
      invariant k < count ==> bit == Bit(f + k)
      invariant Empty(w, f + k, count - k) == Empty(word, f, count)
    {
      assert ClearBit(w, f + k) == AndNot(w, bit);
      w := AndNot(w, bit);
      if f + k < 31 {
        NextBit(f + k);
      }
      bit := Wrap(2 * bit);
      k := k + 1;
    }
  }
}
