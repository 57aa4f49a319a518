/** How a block chain is spelled in memory: each block's header holds, little-endian and
    in-band, the address of the next block, a task number, the free flag and the size.
    These lemmas carry the spelling across the three header updates the heap makes. */
module HeapImage {
  import opened Words
  import opened HeapChain
  import opened HeapOps

  /** Offsets of the header words. */
  const NEXT: nat := 0
  const TASK: nat := 4
  const FREE: nat := 8
  const SIZE: nat := 12

  const NULL: nat := 0

  function Word(m: seq<byte>, a: nat): (w: u32)
    requires a + 4 <= |m|
  {
    var b0: nat, b1: nat, b2: nat, b3: nat := m[a], m[a + 1], m[a + 2], m[a + 3];
    b0 + 0x100 * b1 + 0x1_0000 * b2 + 0x100_0000 * b3
  }

  /** m and m' agree outside [a, b). */
  ghost predicate SameOutside(m: seq<byte>, m': seq<byte>, a: nat, b: nat) {
    |m'| == |m| && forall x :: 0 <= x < |m| && !(a <= x < b) ==> m'[x] == m[x]
  }

  /** The address stored in the link of block i. */
  function NextAddr(bs: seq<Block>, i: nat): nat
    requires i < |bs|
  {
    if i + 1 < |bs| then bs[i + 1].addr else NULL
  }

  /** A header lies at a, with these words. */
  ghost predicate HeaderIs(m: seq<byte>, a: nat, size: nat, next: nat, free: nat) {
    && a + HEADER <= |m|
    && Word(m, a + NEXT) == next
    && Word(m, a + FREE) == free
    && Word(m, a + SIZE) == size
  }

  /** The header at a belongs to task 0. */
  ghost predicate TaskCleared(m: seq<byte>, a: nat) {
    a + HEADER <= |m| && Word(m, a + TASK) == 0
  }

  function Flag(b: bool): nat { if b then 1 else 0 }

  /** The header at block i's address spells out block i and its link. */
  ghost predicate Stored(m: seq<byte>, bs: seq<Block>, i: nat)
    requires i < |bs|
  {
    HeaderIs(m, bs[i].addr, bs[i].size, NextAddr(bs, i), Flag(bs[i].free))
  }

  /** The memory holds the chain, which tiles [lo, hi). */
  ghost predicate Spells(m: seq<byte>, bs: seq<Block>, lo: nat, hi: nat) {
    && |m| <= TWO32 && 0 < lo && hi <= |m|
    && bs != [] && Tiles(bs, lo, hi)
    && forall i :: 0 <= i < |bs| ==> Stored(m, bs, i)
  }

  /** The header in memory: link, task, flag and size, each four bytes, least significant first. */
  lemma HeaderLayout(m: seq<byte>, a: nat, size: nat, next: nat, free: nat)
    ensures HeaderIs(m, a, size, next, free) <==>
      && a + 16 <= |m|
      && next == m[a] as int + 0x100 * (m[a + 1] as int)
         + 0x1_0000 * (m[a + 2] as int) + 0x100_0000 * (m[a + 3] as int)
      && free == m[a + 8] as int + 0x100 * (m[a + 9] as int)
         + 0x1_0000 * (m[a + 10] as int) + 0x100_0000 * (m[a + 11] as int)
      && size == m[a + 12] as int + 0x100 * (m[a + 13] as int)
         + 0x1_0000 * (m[a + 14] as int) + 0x100_0000 * (m[a + 15] as int)
    ensures TaskCleared(m, a) <==> a + 16 <= |m| && m[a + 4] == m[a + 5] == m[a + 6] == m[a + 7] == 0
  {
  }

  /** A store to one word leaves another as it is. */
  lemma WordKept(m: seq<byte>, m': seq<byte>, stored: nat, a: nat)
    requires SameOutside(m, m', stored, stored + 4) && a + 4 <= |m| && (a + 4 <= stored || stored + 4 <= a)
    ensures Word(m', a) == Word(m, a)
  {
  }

  lemma HeaderKept(m: seq<byte>, m': seq<byte>, lo: nat, hi: nat, a: nat, size: nat, next: nat, free: nat)
    requires SameOutside(m, m', lo, hi) && HeaderIs(m, a, size, next, free) && (a + HEADER <= lo || hi <= a)
    ensures HeaderIs(m', a, size, next, free)
    ensures Word(m', a + TASK) == Word(m, a + TASK)
  {
  }

  lemma Apart(bs: seq<Block>, lo: nat, hi: nat, i: nat, k: nat)
    requires Tiles(bs, lo, hi) && i < |bs| && k < |bs| && i != k
    ensures bs[i].End() <= bs[k].addr || bs[k].End() <= bs[i].addr
  {
    Ordered(bs, lo, hi, if i < k then i else k, if i < k then k else i);
  }

  /** A header is spelled as before when its bytes and its block's link are. */
  lemma StoredKept(m: seq<byte>, bs: seq<Block>, i: nat, m': seq<byte>, bs': seq<Block>, i': nat)
    requires i < |bs| && i' < |bs'| && Stored(m, bs, i) && |m'| == |m|
    requires bs'[i'] == bs[i] && NextAddr(bs', i') == NextAddr(bs, i)
    requires forall x :: bs[i].addr <= x < bs[i].Data() ==> m'[x] == m[x]
    ensures Stored(m', bs', i')
  {
  }

  lemma MarkSpelled(m: seq<byte>, m': seq<byte>, bs: seq<Block>, k: nat, lo: nat, hi: nat)
    requires Spells(m, bs, lo, hi) && k < |bs|
    requires SameOutside(m, m', bs[k].addr, bs[k].Data())
    requires HeaderIs(m', bs[k].addr, bs[k].size, NextAddr(bs, k), 1)
    ensures Spells(m', bs[k := bs[k].(free := true)], lo, hi)
  {
    var bs' := bs[k := bs[k].(free := true)];
    MarkFree(bs, k, lo, hi);
    forall i | 0 <= i < |bs| ensures Stored(m', bs', i) {
      assert Stored(m, bs, i);
      if i != k {
        Apart(bs, lo, hi, i, k);
        StoredKept(m, bs, i, m', bs', i);
      }
    }
  }

  lemma MergeSpelled(m: seq<byte>, m': seq<byte>, bs: seq<Block>, k: nat, lo: nat, hi: nat)
    requires Spells(m, bs, lo, hi) && k + 1 < |bs| && bs[k].free && bs[k + 1].free
    requires SameOutside(m, m', bs[k].addr, bs[k].Data())
    requires HeaderIs(m', bs[k].addr, bs[k].size + HEADER + bs[k + 1].size, NextAddr(bs, k + 1), 1)
    ensures Spells(m', Merge(bs, k), lo, hi)
  {
    var bs' := Merge(bs, k);
    MergeSound(bs, k, lo, hi);
    forall i | 0 <= i < |bs'| ensures Stored(m', bs', i) {
      var j := if i <= k then i else i + 1;
      assert Stored(m, bs, j);
      if i != k {
        Apart(bs, lo, hi, j, k);
        StoredKept(m, bs, j, m', bs', i);
      }
    }
  }

  lemma SplitSpelled(m: seq<byte>, m': seq<byte>, bs: seq<Block>, k: nat, n: u32, lo: nat, hi: nat)
    requires Spells(m, bs, lo, hi) && k < |bs| && Fits(bs[k], n)
    requires SameOutside(m, m', bs[k].addr, bs[k].End())
    requires HeaderIs(m', bs[k].addr, n, bs[k].addr + HEADER + n, 0)
    requires HeaderIs(m', bs[k].addr + HEADER + n, bs[k].size - HEADER - n, NextAddr(bs, k), 1)
    ensures Spells(m', Split(bs, k, n), lo, hi)
  {
    var bs' := Split(bs, k, n);
    SplitTiles(bs, k, n, lo, hi);
    forall i | 0 <= i < |bs'| ensures Stored(m', bs', i) {
      if i == k {
        assert NextAddr(bs', i) == bs'[k + 1].addr;
      } else if i == k + 1 {
        assert NextAddr(bs', i) == NextAddr(bs, k);
      } else {
        var j := if i < k then i else i - 1;
        assert Stored(m, bs, j);
        Apart(bs, lo, hi, j, k);
        StoredKept(m, bs, j, m', bs', i);
      }
    }
  }

  // ---------------------------------------------------------------- payload bytes

  /** Every byte outside the heap [lo, hi), and of every live payload other than p's, is as it was. */
  ghost predicate PayloadsKept(bs: seq<Block>, lo: nat, hi: nat, m: seq<byte>, m': seq<byte>, p: nat) {
    && SameOutside(m, m', lo, hi)
    && forall b, x :: b in Live(bs) && b.Data() != p && b.Data() <= x < b.End() && x < |m| ==> m'[x] == m[x]
  }

  lemma ChangeKeepsPayloads(bs: seq<Block>, m: seq<byte>, m': seq<byte>, k: nat, lo: nat, hi: nat)
    requires Tiles(bs, lo, hi) && k < |bs| && bs[k].free
    requires SameOutside(m, m', bs[k].addr, bs[k].End())
    ensures PayloadsKept(bs, lo, hi, m, m', 0)
  {
    InHeap(bs, lo, hi, k);
    forall b, x | b in Live(bs) && b.Data() <= x < b.End() && x < |m| ensures m'[x] == m[x] {
      PayloadsDisjoint(bs, lo, hi, b, bs[k]);
    }
  }

  lemma HeaderKeepsPayloads(bs: seq<Block>, m: seq<byte>, m': seq<byte>, k: nat, lo: nat, hi: nat)
    requires Tiles(bs, lo, hi) && k < |bs|
    requires SameOutside(m, m', bs[k].addr, bs[k].Data())
    ensures PayloadsKept(bs, lo, hi, m, m', 0)
  {
    InHeap(bs, lo, hi, k);
    forall b, x | b in Live(bs) && b.Data() <= x < b.End() && x < |m| ensures m'[x] == m[x] {
      if b != bs[k] {
        PayloadsDisjoint(bs, lo, hi, b, bs[k]);
      }
    }
  }

  lemma PayloadsKeptTwice(bs: seq<Block>, cs: seq<Block>, m: seq<byte>, m': seq<byte>, m'': seq<byte>,
                          lo: nat, hi: nat, p: nat)
    requires forall b :: b in Live(bs) && b.Data() != p ==> b in Live(cs)
    requires PayloadsKept(bs, lo, hi, m, m', p) && PayloadsKept(cs, lo, hi, m', m'', 0)
    ensures PayloadsKept(bs, lo, hi, m, m'', p)
  {
  }

  /** A store into a live payload leaves the chain as it is spelled. */
  lemma ClientStoreSpelled(m: seq<byte>, m': seq<byte>, bs: seq<Block>, b: Block, lo: nat, hi: nat)
    requires Spells(m, bs, lo, hi) && b in bs && SameOutside(m, m', b.Data(), b.End())
    ensures Spells(m', bs, lo, hi)
  {
    forall i | 0 <= i < |bs| ensures Stored(m', bs, i) {
      assert Stored(m, bs, i);
      if bs[i] != b {
        PayloadsDisjoint(bs, lo, hi, bs[i], b);
      }
      StoredKept(m, bs, i, m', bs, i);
    }
  }
}
