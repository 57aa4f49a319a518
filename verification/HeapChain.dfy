/** The kernel heap as a value: a chain of blocks, each a 16-byte header followed by
    its payload, and the list surgery that kmalloc and kfree perform on that chain. */
module HeapChain {
  /** sizeof(mem_block_t): the link, the task number, the flag and the size. */
  const HEADER: nat := 16

  datatype Block = Block(addr: nat, size: nat, free: bool) {
    function Data(): nat { addr + HEADER }
    function End(): nat { addr + HEADER + size }
  }

  /** The blocks cover [lo, hi) exactly, in address order, each starting where its predecessor ends. */
  ghost predicate Tiles(bs: seq<Block>, lo: nat, hi: nat) {
    && (if bs == [] then lo == hi else bs[0].addr == lo && bs[|bs| - 1].End() == hi)
    && forall i, j :: 0 <= i < j < |bs| && j == i + 1 ==> bs[j].addr == bs[i].End()
  }

  ghost predicate NoAdjacentFree(bs: seq<Block>) {
    forall i, j :: 0 <= i < j < |bs| && j == i + 1 ==> !(bs[i].free && bs[j].free)
  }

  ghost predicate Canonical(bs: seq<Block>, lo: nat, hi: nat) {
    Tiles(bs, lo, hi) && NoAdjacentFree(bs)
  }

  /** The allocations a caller holds. */
  ghost function Live(bs: seq<Block>): set<Block> {
    set b | b in bs && !b.free
  }

  /** Bytes owned by the chain, headers included. */
  function Extent(bs: seq<Block>): nat {
    if bs == [] then 0 else HEADER + bs[0].size + Extent(bs[1..])
  }

  lemma {:induction false} Ordered(bs: seq<Block>, lo: nat, hi: nat, i: nat, j: nat)
    requires Tiles(bs, lo, hi) && i < j < |bs|
    ensures bs[i].End() <= bs[j].addr
    decreases j - i
  {
    if i + 1 < j {
      Ordered(bs, lo, hi, i, j - 1);
    }
  }

  lemma {:induction false} AllOrdered(bs: seq<Block>, lo: nat, hi: nat)
    requires Tiles(bs, lo, hi)
    ensures forall i, j :: 0 <= i < j < |bs| ==> bs[i].End() <= bs[j].addr
    ensures forall i :: 0 <= i < |bs| ==> lo <= bs[i].addr && bs[i].End() <= hi
  {
    forall i, j | 0 <= i < j < |bs| ensures bs[i].End() <= bs[j].addr {
      Ordered(bs, lo, hi, i, j);
    }
  }

  lemma InHeap(bs: seq<Block>, lo: nat, hi: nat, i: nat)
    requires Tiles(bs, lo, hi) && i < |bs|
    ensures lo <= bs[i].addr && bs[i].End() <= hi
  {
    AllOrdered(bs, lo, hi);
  }

  /** Live payloads lie in the heap, and are disjoint from one another and from every header. */
  lemma PayloadsDisjoint(bs: seq<Block>, lo: nat, hi: nat, b: Block, c: Block)
    requires Tiles(bs, lo, hi) && b in bs && c in bs && b != c
    ensures lo <= b.addr && b.End() <= hi
    ensures b.End() <= c.addr || c.End() <= b.addr
  {
    AllOrdered(bs, lo, hi);
    var i :| 0 <= i < |bs| && bs[i] == b;
    var j :| 0 <= j < |bs| && bs[j] == c;
    assert i < j || j < i;
  }

  lemma TilesTail(bs: seq<Block>, lo: nat, hi: nat)
    requires Tiles(bs, lo, hi) && bs != []
    ensures Tiles(bs[1..], bs[0].End(), hi)
  {
    var tail := bs[1..];
    assert forall i :: 0 <= i < |tail| ==> tail[i] == bs[i + 1];
  }

  /** Conservation: headers and payloads always add up to the heap. */
  lemma {:induction false} TilesExtent(bs: seq<Block>, lo: nat, hi: nat)
    requires Tiles(bs, lo, hi)
    ensures lo + Extent(bs) == hi
  {
    if bs == [] {
    } else {
      TilesTail(bs, lo, hi);
      TilesExtent(bs[1..], bs[0].End(), hi);
    }
  }

  // ---------------------------------------------------------------- canonical form

  lemma LiveTail(bs: seq<Block>, lo: nat, hi: nat)
    requires Tiles(bs, lo, hi) && bs != []
    ensures Live(bs[1..]) == Live(bs) - {bs[0]}
  {
    AllOrdered(bs, lo, hi);
    var tail := bs[1..];
    assert bs == [bs[0]] + tail;
    forall b | b in tail ensures b != bs[0] {
      var i :| 0 <= i < |tail| && tail[i] == b;
      assert b == bs[i + 1];
    }
  }

  /** If both chains open with a free block, neither free block can be the shorter one. */
  lemma FirstGap(bs: seq<Block>, cs: seq<Block>, lo: nat, hi: nat)
    requires Canonical(bs, lo, hi) && Canonical(cs, lo, hi) && Live(bs) == Live(cs)
    requires bs != [] && cs != [] && bs[0].free && cs[0].free
    ensures bs[0].size >= cs[0].size
  {
    AllOrdered(cs, lo, hi);
    // a live block right after bs[0] is also a block of cs, so it cannot start inside cs[0]
    assert |bs| > 1 ==> bs[1] in Live(bs);
  }

  lemma FirstEqual(bs: seq<Block>, cs: seq<Block>, lo: nat, hi: nat)
    requires Canonical(bs, lo, hi) && Canonical(cs, lo, hi) && Live(bs) == Live(cs)
    requires bs != [] && cs != []
    ensures bs[0] == cs[0]
  {
    AllOrdered(bs, lo, hi);
    AllOrdered(cs, lo, hi);
    if bs[0].free && cs[0].free {
      FirstGap(bs, cs, lo, hi);
      FirstGap(cs, bs, lo, hi);
    } else if !bs[0].free {
      assert bs[0] in Live(cs);
    } else {
      assert cs[0] in Live(bs);
    }
  }

  /** The heap extent and the set of live allocations determine the whole block list. */
  lemma {:induction false} CanonicalUnique(bs: seq<Block>, cs: seq<Block>, lo: nat, hi: nat)
    requires Canonical(bs, lo, hi) && Canonical(cs, lo, hi)
    requires Live(bs) == Live(cs)
    ensures bs == cs
  {
    AllOrdered(bs, lo, hi);
    AllOrdered(cs, lo, hi);
    if bs == [] || cs == [] {
      assert bs == cs;
    } else {
      FirstEqual(bs, cs, lo, hi);
      LiveTail(bs, lo, hi);
      LiveTail(cs, lo, hi);
      TilesTail(bs, lo, hi);
      TilesTail(cs, lo, hi);
      CanonicalUnique(bs[1..], cs[1..], bs[0].End(), hi);
      assert bs == [bs[0]] + bs[1..] && cs == [cs[0]] + cs[1..];
    }
  }
}
