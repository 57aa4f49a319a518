/** The pointer arithmetic of kaligned_alloc. The header declares `uint8_t* data[0]`, an array of
    pointers, so `second->data + size` and `third->data - block->data` count units of 4 bytes,
    while the sizes written at boot and by merge_blocks count bytes. The functions take the unit
    as a parameter: 4 is the declaration, 1 the correction to `uint8_t data[0]`. */
module HeapUnits {
  import opened Words
  import opened HeapChain
  import opened HeapOps

  const DECLARED_UNIT: nat := 4
  const BYTE_UNIT: nat := 1

  /** third: the header split off behind a payload of n units. */
  function ThirdAddr(unit: nat, block: nat, n: nat): u32 {
    Wrap(block + HEADER + unit * n)
  }

  /** third->size: what remains of the block, the pointer difference counted in units. */
  function ThirdSize(unit: nat, block: nat, size: nat, n: nat): u32
    requires unit > 0
  {
    Wrap(size - Signed(Wrap(ThirdAddr(unit, block, n) - block)) / unit)
  }

  /** The test of kaligned_alloc at alignment 1, in 32-bit arithmetic. */
  predicate Passes(b: Block, n: nat) {
    b.free && b.size >= Wrap(1 + HEADER + n)
  }

  /** The test asks for n + 17 bytes, but above 2^32 - 18 for 2^32 less: hardly any. */
  lemma PassesMeans(b: Block, n: u32)
    ensures Passes(b, n) <==> b.free && b.size >= if n <= 0xFFFF_FFEE then n + 17 else n + 17 - 0x1_0000_0000
  {
    if n <= 0xFFFF_FFEE {
      WrapSmall(n + 17);
    } else {
      WrapMultiple(n + 17 - TWO32, 1);
      WrapSmall(n + 17 - TWO32);
    }
  }

  function FirstPassing(bs: seq<Block>, n: nat): (i: nat)
    ensures i <= |bs|
    ensures i < |bs| ==> Passes(bs[i], n)
    ensures forall k :: 0 <= k < i ==> !Passes(bs[k], n)
  {
    if bs == [] || Passes(bs[0], n) then 0 else 1 + FirstPassing(bs[1..], n)
  }

  function SplitAs(unit: nat, bs: seq<Block>, i: nat, n: nat): seq<Block>
    requires unit > 0 && i < |bs|
  {
    var b := bs[i];
    bs[..i]
    + [Block(b.addr, n, false), Block(ThirdAddr(unit, b.addr, n), ThirdSize(unit, b.addr, b.size, n), true)]
    + bs[i + 1..]
  }

  /** kmalloc as compiled, for any unit and any 32-bit size. */
  function MallocAs(unit: nat, bs: seq<Block>, n: nat): (seq<Block>, nat)
    requires unit > 0
  {
    var i := FirstPassing(bs, n);
    if n == 0 || i == |bs| then (bs, 0) else (SplitAs(unit, bs, i, n), bs[i].Data())
  }

  lemma ByteUnits(block: nat, size: nat, n: nat)
    requires block + HEADER + size <= TWO32 && size >= 1 + HEADER + n
    ensures ThirdAddr(BYTE_UNIT, block, n) == block + HEADER + n
    ensures ThirdSize(BYTE_UNIT, block, size, n) == size - HEADER - n
  {
  }

  lemma DeclaredMisses(block: nat, n: u32)
    requires n > 0
    ensures ThirdAddr(DECLARED_UNIT, block, n) != block + HEADER + n
  {
  }

  lemma SplitAsTiles(unit: nat, bs: seq<Block>, i: nat, n: u32, lo: nat, hi: nat)
    requires unit == BYTE_UNIT || unit == DECLARED_UNIT
    requires Tiles(bs, lo, hi) && 0 < lo && hi <= TWO32 && i < |bs| && Passes(bs[i], n) && n > 0
    ensures Tiles(SplitAs(unit, bs, i, n), lo, hi) <==> unit == BYTE_UNIT && n <= TWO32 - 18
    ensures unit == BYTE_UNIT && n <= TWO32 - 18 ==> Fits(bs[i], n) && SplitAs(unit, bs, i, n) == Split(bs, i, n)
  {
    InHeap(bs, lo, hi, i);
    var cs := SplitAs(unit, bs, i, n);
    if unit == BYTE_UNIT && n <= TWO32 - 18 {
      ByteUnits(bs[i].addr, bs[i].size, n);
      SplitTiles(bs, i, n, lo, hi);
    } else {
      DeclaredMisses(bs[i].addr, n);
      assert cs[i + 1].addr != cs[i].End();
    }
  }

  lemma {:induction false} SameSearch(bs: seq<Block>, n: nat)
    requires n <= TWO32 - 18
    ensures FirstPassing(bs, n) == FirstFit(bs, n)
  {
    if bs != [] && !Passes(bs[0], n) {
      SameSearch(bs[1..], n);
    }
  }

  /** As compiled, a call keeps the chain tiling the heap exactly when it returns NULL, or `data`
      is byte-typed and the size does not wrap the fit test; and then the call is Malloc. So with
      the declaration as it stands every successful kmalloc leaves the chain not tiling the heap. */
  lemma CompiledMallocTiles(unit: nat, bs: seq<Block>, n: u32, lo: nat, hi: nat)
    requires unit == BYTE_UNIT || unit == DECLARED_UNIT
    requires Canonical(bs, lo, hi) && 0 < lo && hi <= TWO32
    ensures Tiles(MallocAs(unit, bs, n).0, lo, hi)
      <==> n == 0 || FirstPassing(bs, n) == |bs| || (unit == BYTE_UNIT && n <= TWO32 - 18)
    ensures unit == BYTE_UNIT && n <= TWO32 - 18 ==> MallocAs(unit, bs, n) == Malloc(bs, n)
  {
    var i := FirstPassing(bs, n);
    if n <= TWO32 - 18 {
      SameSearch(bs, n);
    }
    if n != 0 && i < |bs| {
      SplitAsTiles(unit, bs, i, n, lo, hi);
    }
  }

  /** With the declaration as it stands, kmalloc(n) on the boot chain puts the header of the rest
      behind 4 * n bytes and takes n + 4 off its size, and kfree does not restore the chain: the one
      free block comes back 12 bytes larger than the heap. */
  lemma DeclaredUnitsGrowHeap(lo: nat, hi: nat, n: nat)
    requires 0 < lo && lo + HEADER + 1 + HEADER + n <= hi && n > 0
    requires n < 0x1000_0000 && hi <= TWO31
    ensures var (cs, p) := MallocAs(DECLARED_UNIT, Fresh(lo, hi), n);
      && cs == [Block(lo, n, false), Block(lo + 16 + 4 * n, hi - lo - 16 - n - 4, true)] && p == lo + 16
      && Free(cs, p) == [Block(lo, hi - lo - 16 + 12, true)]
  {
    DeclaredSplits(lo, hi, n);
    var b, c := Block(lo, n, false), Block(lo + 16 + 4 * n, hi - lo - 16 - n - 4, true);
    FreesFirst(b, c);
  }

  lemma DeclaredSplits(lo: nat, hi: nat, n: nat)
    requires 0 < lo && lo + HEADER + 1 + HEADER + n <= hi && n > 0
    requires n < 0x1000_0000 && hi <= TWO31
    ensures MallocAs(DECLARED_UNIT, Fresh(lo, hi), n) ==
      ([Block(lo, n, false), Block(lo + 16 + 4 * n, hi - lo - 16 - n - 4, true)], lo + 16)
  {
    var bs, d := Fresh(lo, hi), 16 + 4 * n;
    assert FirstPassing(bs, n) == 0;
    WrapSmall(lo + d);
    WrapSmall(d);
    WrapSmall(hi - lo - 16 - n - 4);
    assert d / 4 == n + 4;
    assert ThirdSize(DECLARED_UNIT, lo, hi - lo - 16, n) == hi - lo - 16 - n - 4;
    assert SplitAs(DECLARED_UNIT, bs, 0, n) == [Block(lo, n, false), Block(lo + d, hi - lo - 16 - n - 4, true)];
  }

  lemma FreesFirst(b: Block, c: Block)
    requires !b.free && c.free
    ensures Free([b, c], b.addr + 16) == [Block(b.addr, b.size + 16 + c.size, true)]
  {
    var marked := b.(free := true);
    assert Find([b, c], b.addr + 16) == 0;
    CoalesceTwo(marked, c);
    assert [b, c][0 := marked] == [marked, c];
  }

  lemma CoalesceTwo(b: Block, c: Block)
    requires b.free && c.free
    ensures Coalesce([b, c]) == [Block(b.addr, b.size + HEADER + c.size, true)]
  {
    var both := [b, c];
    assert both[1..] == [c] && [c][1..] == [];
    assert Coalesce([c]) == [c];
  }
}
