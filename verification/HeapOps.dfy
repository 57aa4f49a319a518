/** kmalloc and kfree as functions on the block chain, and what every run of them keeps.
    The functions are the reference the machine-level heap is proved against. */
module HeapOps {
  import opened HeapChain

  /** A free block serves a request of n bytes when it holds a one-byte alignment
      allowance, the header split off behind the payload, and the payload. */
  predicate Fits(b: Block, n: nat) {
    b.free && b.size >= 1 + HEADER + n
  }

  /** Index of the first block that serves the request, or the length of the chain. */
  function FirstFit(bs: seq<Block>, n: nat): (i: nat)
    ensures i <= |bs|
    ensures i < |bs| ==> Fits(bs[i], n)
    ensures forall k :: 0 <= k < i ==> !Fits(bs[k], n)
  {
    if bs == [] || Fits(bs[0], n) then 0 else 1 + FirstFit(bs[1..], n)
  }

  function Split(bs: seq<Block>, i: nat, n: nat): seq<Block>
    requires i < |bs| && Fits(bs[i], n)
  {
    var b := bs[i];
    bs[..i] + [Block(b.addr, n, false), Block(b.addr + HEADER + n, b.size - HEADER - n, true)] + bs[i + 1..]
  }

  /** The chain after kmalloc(n) and the payload address it returns, 0 for NULL. */
  function Malloc(bs: seq<Block>, n: nat): (seq<Block>, nat) {
    var i := FirstFit(bs, n);
    if n == 0 || i == |bs| then (bs, 0) else (Split(bs, i, n), bs[i].Data())
  }

  /** Put a block before a chain, absorbing the chain's first block when both are free. */
  function Glue(b: Block, rest: seq<Block>): seq<Block> {
    if b.free && rest != [] && rest[0].free
    then [Block(b.addr, b.size + HEADER + rest[0].size, true)] + rest[1..]
    else [b] + rest
  }

  /** Glue every run of adjacent free blocks. */
  function Coalesce(bs: seq<Block>): seq<Block> {
    if bs == [] then [] else Glue(bs[0], Coalesce(bs[1..]))
  }

  /** Block i absorbs its successor. */
  function Merge(bs: seq<Block>, i: nat): seq<Block>
    requires i + 1 < |bs|
  {
    bs[..i] + [Block(bs[i].addr, bs[i].size + HEADER + bs[i + 1].size, true)] + bs[i + 2..]
  }

  function Find(bs: seq<Block>, p: nat): (k: nat)
    ensures k <= |bs|
    ensures k < |bs| ==> bs[k].Data() == p
    ensures forall i :: 0 <= i < k ==> bs[i].Data() != p
  {
    if bs == [] || bs[0].Data() == p then 0 else 1 + Find(bs[1..], p)
  }

  /** The chain after kfree(p). A pointer that is no block's payload changes nothing. */
  function Free(bs: seq<Block>, p: nat): seq<Block> {
    var k := Find(bs, p);
    if p == 0 || k == |bs| then bs else Coalesce(bs[k := bs[k].(free := true)])
  }

  /** The chain the boot code writes: one free block over the whole heap. */
  function Fresh(lo: nat, hi: nat): seq<Block>
    requires lo + HEADER <= hi
  {
    [Block(lo, hi - lo - HEADER, true)]
  }

  // ---------------------------------------------------------------- one call

  lemma SplitTiles(bs: seq<Block>, i: nat, n: nat, lo: nat, hi: nat)
    requires Tiles(bs, lo, hi) && i < |bs| && Fits(bs[i], n)
    ensures Tiles(Split(bs, i, n), lo, hi)
  {
    var cs := Split(bs, i, n);
    assert forall k :: 0 <= k < i ==> cs[k] == bs[k];
    assert forall k :: i + 1 < k < |cs| ==> cs[k] == bs[k - 1];
  }

  lemma SplitLive(bs: seq<Block>, i: nat, n: nat)
    requires i < |bs| && Fits(bs[i], n)
    ensures Live(Split(bs, i, n)) == Live(bs) + {Block(bs[i].addr, n, false)}
  {
    var cs := Split(bs, i, n);
    forall b | b in Live(bs) ensures b in Live(cs) {
      var k :| 0 <= k < |bs| && bs[k] == b;
      assert cs[if k < i then k else k + 1] == b;
    }
    assert cs[i] in cs;
    forall b | b in Live(cs) ensures b in Live(bs) + {cs[i]} {
      var k :| 0 <= k < |cs| && cs[k] == b;
      assert k < i ==> b == bs[k];
      assert k > i + 1 ==> b == bs[k - 1];
    }
  }

  lemma SplitSound(bs: seq<Block>, i: nat, n: nat, lo: nat, hi: nat)
    requires Canonical(bs, lo, hi) && i < |bs| && Fits(bs[i], n)
    ensures Canonical(Split(bs, i, n), lo, hi)
    ensures Live(Split(bs, i, n)) == Live(bs) + {Block(bs[i].addr, n, false)}
  {
    SplitTiles(bs, i, n, lo, hi);
    SplitLive(bs, i, n);
    var cs := Split(bs, i, n);
    assert forall k :: 0 <= k < i ==> cs[k] == bs[k];
    assert forall k :: i + 1 < k < |cs| ==> cs[k] == bs[k - 1];
  }

  /** kmalloc adds exactly the new allocation and keeps the chain canonical. */
  lemma MallocSound(bs: seq<Block>, n: nat, lo: nat, hi: nat)
    requires Canonical(bs, lo, hi)
    ensures var (cs, p) := Malloc(bs, n);
      && Canonical(cs, lo, hi)
      && (p == 0 ==> cs == bs) && (n == 0 ==> p == 0)
      && (p != 0 ==> Live(cs) == Live(bs) + {Block(p - HEADER, n, false)})
      && (p != 0 ==> forall b :: b in Live(bs) ==> b.addr != p - HEADER)
  {
    var i := FirstFit(bs, n);
    if n != 0 && i < |bs| {
      SplitSound(bs, i, n, lo, hi);
      AllOrdered(bs, lo, hi);
    }
  }

  lemma LiveCons(b: Block, bs: seq<Block>)
    ensures Live([b] + bs) == Live(bs) + if b.free then {} else {b}
  {
    assert forall c :: c in [b] + bs <==> c == b || c in bs;
  }

  lemma GlueSound(b: Block, rest: seq<Block>, hi: nat)
    requires Canonical(rest, b.End(), hi)
    ensures Canonical(Glue(b, rest), b.addr, hi)
    ensures Live(Glue(b, rest)) == Live([b] + rest)
  {
    var cs := Glue(b, rest);
    LiveCons(b, rest);
    if b.free && rest != [] && rest[0].free {
      assert forall i :: 1 <= i < |cs| ==> cs[i] == rest[i];
      assert rest == [rest[0]] + rest[1..];
      LiveCons(rest[0], rest[1..]);
      LiveCons(cs[0], rest[1..]);
    } else {
      assert forall i :: 1 <= i < |cs| ==> cs[i] == rest[i - 1];
    }
  }

  lemma {:induction false} CoalesceSound(bs: seq<Block>, lo: nat, hi: nat)
    requires Tiles(bs, lo, hi)
    ensures Canonical(Coalesce(bs), lo, hi)
    ensures Live(Coalesce(bs)) == Live(bs)
  {
    if bs == [] {
    } else {
      TilesTail(bs, lo, hi);
      CoalesceSound(bs[1..], bs[0].End(), hi);
      GlueSound(bs[0], Coalesce(bs[1..]), hi);
      LiveCons(bs[0], bs[1..]);
      LiveCons(bs[0], Coalesce(bs[1..]));
      assert bs == [bs[0]] + bs[1..];
    }
  }

  lemma MergeSound(bs: seq<Block>, i: nat, lo: nat, hi: nat)
    requires Tiles(bs, lo, hi) && i + 1 < |bs| && bs[i].free && bs[i + 1].free
    ensures Tiles(Merge(bs, i), lo, hi)
    ensures Live(Merge(bs, i)) == Live(bs)
  {
    var cs := Merge(bs, i);
    assert forall k :: i < k < |cs| ==> cs[k] == bs[k + 1];
    forall b | b in Live(bs) ensures b in Live(cs) {
      var k :| 0 <= k < |bs| && bs[k] == b;
      assert cs[if k < i then k else k - 1] == b;
    }
    forall b | b in Live(cs) ensures b in Live(bs) {
      var k :| 0 <= k < |cs| && cs[k] == b;
      assert bs[if k < i then k else k + 1] == b;
    }
  }

  lemma MarkFree(bs: seq<Block>, k: nat, lo: nat, hi: nat)
    requires Tiles(bs, lo, hi) && k < |bs|
    ensures Tiles(bs[k := bs[k].(free := true)], lo, hi)
    ensures Live(bs[k := bs[k].(free := true)]) == set b | b in Live(bs) && b.Data() != bs[k].Data()
  {
    AllOrdered(bs, lo, hi);
    MarkLive(bs, k);
  }

  lemma MarkLive(bs: seq<Block>, k: nat)
    requires k < |bs| && forall i, j :: 0 <= i < j < |bs| ==> bs[i].End() <= bs[j].addr
    ensures Live(bs[k := bs[k].(free := true)]) == set b | b in Live(bs) && b.Data() != bs[k].Data()
  {
    var cs := bs[k := bs[k].(free := true)];
    forall b | b in Live(cs) ensures b in Live(bs) && b.Data() != bs[k].Data() {
      var i :| 0 <= i < |cs| && cs[i] == b;
      assert i != k && bs[i] == b;
    }
    forall b | b in Live(bs) && b.Data() != bs[k].Data() ensures b in Live(cs) {
      var i :| 0 <= i < |bs| && bs[i] == b;
      assert cs[i] == b;
    }
  }

  /** kfree removes exactly the allocation at the given address, if any, and keeps the chain canonical. */
  lemma FreeSound(bs: seq<Block>, p: nat, lo: nat, hi: nat)
    requires Canonical(bs, lo, hi)
    ensures Canonical(Free(bs, p), lo, hi)
    ensures Live(Free(bs, p)) == set b | b in Live(bs) && b.Data() != p
  {
    var k := Find(bs, p);
    if p != 0 && k < |bs| {
      MarkFree(bs, k, lo, hi);
      CoalesceSound(bs[k := bs[k].(free := true)], lo, hi);
    }
  }

  /** kfree of a pointer that names no live allocation changes nothing. */
  lemma FreeOfNothing(bs: seq<Block>, p: nat, lo: nat, hi: nat)
    requires Canonical(bs, lo, hi)
    requires forall b :: b in Live(bs) ==> b.Data() != p
    ensures Free(bs, p) == bs
  {
    FreeSound(bs, p, lo, hi);
    CanonicalUnique(Free(bs, p), bs, lo, hi);
  }

  /** kfree undoes kmalloc: the block list is the one before the allocation. */
  lemma FreeUndoesMalloc(bs: seq<Block>, n: nat, lo: nat, hi: nat)
    requires Canonical(bs, lo, hi)
    ensures Free(Malloc(bs, n).0, Malloc(bs, n).1) == bs
  {
    var (cs, p) := Malloc(bs, n);
    MallocSound(bs, n, lo, hi);
    if p != 0 {
      FreeSound(cs, p, lo, hi);
      CanonicalUnique(Free(cs, p), bs, lo, hi);
    }
  }

  /** Two frees commute, whatever the pointers. */
  lemma FreesCommute(bs: seq<Block>, p: nat, q: nat, lo: nat, hi: nat)
    requires Canonical(bs, lo, hi)
    ensures Free(Free(bs, p), q) == Free(Free(bs, q), p)
  {
    FreeSound(bs, p, lo, hi);
    FreeSound(bs, q, lo, hi);
    FreeSound(Free(bs, p), q, lo, hi);
    FreeSound(Free(bs, q), p, lo, hi);
    CanonicalUnique(Free(Free(bs, p), q), Free(Free(bs, q), p), lo, hi);
  }

  // ---------------------------------------------------------------- completeness

  /** An interval of the heap that touches no live block, header or payload. */
  ghost predicate Gap(bs: seq<Block>, lo: nat, hi: nat, x: nat, len: nat) {
    lo <= x && x + len <= hi && forall b :: b in Live(bs) ==> x + len <= b.addr || b.End() <= x
  }

  ghost predicate Room(bs: seq<Block>, lo: nat, hi: nat, len: nat) {
    exists x: nat :: Gap(bs, lo, hi, x, len)
  }

  lemma {:induction false} BlockAt(bs: seq<Block>, lo: nat, hi: nat, x: nat) returns (k: nat)
    requires Tiles(bs, lo, hi) && lo <= x < hi
    ensures k < |bs| && bs[k].addr <= x < bs[k].End()
  {
    if x < bs[0].End() {
      k := 0;
    } else {
      TilesTail(bs, lo, hi);
      k := BlockAt(bs[1..], bs[0].End(), hi, x);
      k := k + 1;
    }
  }

  lemma NoGapWithoutFit(bs: seq<Block>, n: nat, lo: nat, hi: nat, x: nat)
    requires Canonical(bs, lo, hi) && Gap(bs, lo, hi, x, n + 33)
    ensures exists k :: 0 <= k < |bs| && Fits(bs[k], n)
  {
    AllOrdered(bs, lo, hi);
    var k := BlockAt(bs, lo, hi, x);
    assert k + 1 < |bs| && !bs[k + 1].free ==> bs[k + 1] in Live(bs);
    assert Fits(bs[k], n);
  }

  /** kmalloc(n) fails exactly when no gap between live blocks holds n + 33 bytes: two headers,
      the payload, and the byte of alignment allowance. It never fails through fragmentation
      among free blocks. When it succeeds it uses the lowest block that fits. */
  lemma MallocComplete(bs: seq<Block>, n: nat, lo: nat, hi: nat)
    requires Canonical(bs, lo, hi) && n > 0
    ensures Malloc(bs, n).1 == 0 <==> !Room(bs, lo, hi, n + 33)
    ensures Malloc(bs, n).1 != 0 ==>
      forall b :: b in bs && Fits(b, n) ==> Malloc(bs, n).1 <= b.Data()
  {
    AllOrdered(bs, lo, hi);
    var i := FirstFit(bs, n);
    if i < |bs| {
      forall b | b in Live(bs) ensures bs[i].End() <= b.addr || b.End() <= bs[i].addr {
        PayloadsDisjoint(bs, lo, hi, bs[i], b);
      }
      assert Gap(bs, lo, hi, bs[i].addr, n + 33);
      forall b | b in bs && Fits(b, n) ensures bs[i].Data() <= b.Data() {
        var j :| 0 <= j < |bs| && bs[j] == b;
        assert i <= j;
      }
    } else {
      if Room(bs, lo, hi, n + 33) {
        var x: nat :| Gap(bs, lo, hi, x, n + 33);
        NoGapWithoutFit(bs, n, lo, hi, x);
      }
    }
  }

  // ---------------------------------------------------------------- runs

  datatype Op = OpMalloc(n: nat) | OpFree(p: nat)

  function Step(bs: seq<Block>, op: Op): seq<Block> {
    match op
    case OpMalloc(n) => Malloc(bs, n).0
    case OpFree(p) => Free(bs, p)
  }

  function Run(bs: seq<Block>, ops: seq<Op>): seq<Block>
    decreases ops
  {
    if ops == [] then bs else Run(Step(bs, ops[0]), ops[1..])
  }

  lemma {:induction false} RunCanonical(bs: seq<Block>, ops: seq<Op>, lo: nat, hi: nat)
    requires Canonical(bs, lo, hi)
    ensures Canonical(Run(bs, ops), lo, hi)
    ensures Extent(Run(bs, ops)) == Extent(bs)
    decreases ops
  {
    TilesExtent(bs, lo, hi);
    if ops == [] {
    } else {
      match ops[0] {
        case OpMalloc(n) => MallocSound(bs, n, lo, hi);
        case OpFree(p) => FreeSound(bs, p, lo, hi);
      }
      RunCanonical(Step(bs, ops[0]), ops[1..], lo, hi);
      TilesExtent(Step(bs, ops[0]), lo, hi);
    }
  }

  /** Any two runs from boot that leave the same allocations live leave the same block list. */
  lemma ReachableDeterminedByLive(lo: nat, hi: nat, ops1: seq<Op>, ops2: seq<Op>)
    requires lo + HEADER <= hi
    requires Live(Run(Fresh(lo, hi), ops1)) == Live(Run(Fresh(lo, hi), ops2))
    ensures Run(Fresh(lo, hi), ops1) == Run(Fresh(lo, hi), ops2)
  {
    RunCanonical(Fresh(lo, hi), ops1, lo, hi);
    RunCanonical(Fresh(lo, hi), ops2, lo, hi);
    CanonicalUnique(Run(Fresh(lo, hi), ops1), Run(Fresh(lo, hi), ops2), lo, hi);
  }

  function Frees(ps: seq<nat>): (ops: seq<Op>)
    ensures |ops| == |ps| && forall i :: 0 <= i < |ps| ==> ops[i] == OpFree(ps[i])
  {
    seq(|ps|, i requires 0 <= i < |ps| => OpFree(ps[i]))
  }

  lemma {:induction false} FreesLive(bs: seq<Block>, ps: seq<nat>, lo: nat, hi: nat)
    requires Canonical(bs, lo, hi)
    ensures Live(Run(bs, Frees(ps))) == set b | b in Live(bs) && b.Data() !in ps
    decreases ps
  {
    if ps == [] {
    } else {
      FreeSound(bs, ps[0], lo, hi);
      FreesLive(Free(bs, ps[0]), ps[1..], lo, hi);
      assert Frees(ps)[1..] == Frees(ps[1..]);
      assert ps == [ps[0]] + ps[1..];
    }
  }

  /** After any run, freeing every live payload, in any order, restores the boot chain. */
  lemma FreeingAllRestoresBoot(lo: nat, hi: nat, ops: seq<Op>, ps: seq<nat>)
    requires lo + HEADER <= hi
    requires forall b :: b in Live(Run(Fresh(lo, hi), ops)) ==> b.Data() in ps
    ensures Run(Run(Fresh(lo, hi), ops), Frees(ps)) == Fresh(lo, hi)
  {
    var bs := Run(Fresh(lo, hi), ops);
    RunCanonical(Fresh(lo, hi), ops, lo, hi);
    RunCanonical(bs, Frees(ps), lo, hi);
    FreesLive(bs, ps, lo, hi);
    CanonicalUnique(Run(bs, Frees(ps)), Fresh(lo, hi), lo, hi);
  }
}
