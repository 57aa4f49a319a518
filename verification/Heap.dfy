/** The kernel heap in place: kmalloc and kfree walk and overwrite the in-band headers of the
    byte memory. Each is proved to leave the memory spelling exactly the chain that its
    function in HeapOps computes, and to touch no byte of any other live payload. */
module Heap {
  import opened Words
  import opened HeapChain
  import opened HeapOps
  import opened HeapImage
  import opened HeapClients
  import opened HeapUnits

  function Load(m: array<byte>, a: nat): (w: u32)
    requires a + 4 <= m.Length
    reads m
    ensures w == Word(m[..], a)
  {
    Word(m[..], a)
  }

  lemma Recompose(w: u32)
    ensures w / 0x100_0000 < 0x100
    ensures w % 0x100 + 0x100 * (w / 0x100 % 0x100) + 0x1_0000 * (w / 0x1_0000 % 0x100) + 0x100_0000 * (w / 0x100_0000)
      == w
  {
    assert w / 0x100 / 0x100 == w / 0x1_0000 && w / 0x1_0000 / 0x100 == w / 0x100_0000;
  }

  /** A word is its bytes. */
  lemma SameWord(m: seq<byte>, m': seq<byte>, a: nat)
    requires a + 4 <= |m| && SameOutside(m, m', a, a + 4) && Word(m', a) == Word(m, a)
    ensures m' == m
  {
    var b0: nat, b1: nat, b2: nat, b3: nat := m[a], m[a + 1], m[a + 2], m[a + 3];
    var c0: nat, c1: nat, c2: nat, c3: nat := m'[a], m'[a + 1], m'[a + 2], m'[a + 3];
    assert b3 == c3 && b2 == c2 && b1 == c1 && b0 == c0;
    assert m' == m;
  }

  method Store(m: array<byte>, a: nat, w: u32)
    requires a + 4 <= m.Length
    modifies m
    ensures Word(m[..], a) == w
    ensures SameOutside(old(m[..]), m[..], a, a + 4)
  {
    Recompose(w);
    m[a] := w % 0x100;
    m[a + 1] := w / 0x100 % 0x100;
    m[a + 2] := w / 0x1_0000 % 0x100;
    m[a + 3] := w / 0x100_0000;
  }

  /** The three stores kmalloc makes to a header, in its order; the task word is left alone. */
  method StoreHeader(m: array<byte>, a: nat, size: u32, next: u32, free: u32)
    requires a + HEADER <= m.Length
    modifies m
    ensures HeaderIs(m[..], a, size, next, free)
    ensures Word(m[..], a + TASK) == old(Word(m[..], a + TASK))
    ensures SameOutside(old(m[..]), m[..], a, a + HEADER)
  {
    Store(m, a + SIZE, size);
    Store(m, a + NEXT, next);
    Store(m, a + FREE, free);
  }

  /** tmemset. */
  method SetBytes(m: array<byte>, p: nat, n: byte, size: nat)
    requires p + size <= m.Length
    modifies m
    ensures forall x :: p <= x < p + size ==> m[x] == n
    ensures SameOutside(old(m[..]), m[..], p, p + size)
  {
    var i := 0;
    while i < size
      invariant i <= size
      invariant forall x :: p <= x < p + i ==> m[x] == n
      invariant forall x :: 0 <= x < m.Length && !(p <= x < p + size) ==> m[x] == old(m[x])
    {
      m[p + i] := n;
      i := i + 1;
    }
  }

  /** The body of merge_blocks' loop: block takes over the size and the link of its successor. */
  method Absorb(m: array<byte>, block: nat, ghost size: nat, ghost size2: nat, ghost after: nat)
    requires block + HEADER <= m.Length && size + HEADER + size2 < TWO32
    requires HeaderIs(m[..], block, size, Word(m[..], block + NEXT), 1)
    requires var next := Word(m[..], block + NEXT);
      && block + HEADER <= next && next + HEADER <= m.Length
      && Word(m[..], next + SIZE) == size2 && Word(m[..], next + NEXT) == after
    modifies m
    ensures HeaderIs(m[..], block, size + HEADER + size2, after, 1)
    ensures SameOutside(old(m[..]), m[..], block, block + HEADER)
  {
    var next := Load(m, block + NEXT);
    ghost var m0 := m[..];
    var sum := Wrap(Load(m, block + SIZE) + Load(m, next + SIZE) + HEADER);
    WrapSmall(size + HEADER + size2);
    Store(m, block + SIZE, sum);
    ghost var m1 := m[..];
    WordKept(m0, m1, block + SIZE, next + NEXT);
    if Load(m, next + NEXT) != NULL {
      Store(m, block + NEXT, Load(m, next + NEXT));
    } else {
      Store(m, block + NEXT, NULL);
    }
    SizeAndLinkStored(m0, m1, m[..], block);
  }

  lemma SizeAndLinkStored(m0: seq<byte>, m1: seq<byte>, m2: seq<byte>, block: nat)
    requires block + HEADER <= |m0|
    requires SameOutside(m0, m1, block + SIZE, block + SIZE + 4)
    requires SameOutside(m1, m2, block + NEXT, block + NEXT + 4)
    ensures Word(m2, block + SIZE) == Word(m1, block + SIZE) && Word(m2, block + FREE) == Word(m0, block + FREE)
    ensures SameOutside(m0, m2, block, block + HEADER)
  {
    WordKept(m1, m2, block + NEXT, block + SIZE);
    WordKept(m0, m1, block + SIZE, block + FREE);
    WordKept(m1, m2, block + NEXT, block + FREE);
  }

  /** The stores of kaligned_alloc's success branch, the split-off header first. At alignment 1
      `second` is `block`. */
  method Carve(m: array<byte>, block: u32, n: u32, ghost size: nat, ghost next: nat)
    requires block + HEADER + size <= m.Length <= TWO32 && size >= 1 + HEADER + n
    requires HeaderIs(m[..], block, size, next, 1)
    modifies m
    ensures HeaderIs(m[..], block, n, block + HEADER + n, 0)
    ensures HeaderIs(m[..], block + HEADER + n, size - HEADER - n, next, 1)
    ensures Word(m[..], block + TASK) == 0 && Word(m[..], block + HEADER + n + TASK) == 0
    ensures SameOutside(old(m[..]), m[..], block, block + HEADER + size)
  {
    ByteUnits(block, size, n);
    var second, third := block, ThirdAddr(1, block, n);
    CarveThird(m, block, third, n, size, next);
    ghost var m1 := m[..];
    CarveSecond(m, second, n, third);
    HeaderKept(m1, m[..], second, second + HEADER, third, size - HEADER - n, next, 1);
  }

  method CarveSecond(m: array<byte>, second: u32, n: u32, third: u32)
    requires second + HEADER <= m.Length
    modifies m
    ensures HeaderIs(m[..], second, n, third, 0) && Word(m[..], second + TASK) == 0
    ensures SameOutside(old(m[..]), m[..], second, second + HEADER)
  {
    StoreHeader(m, second, n, third, 0);
    ghost var stored := m[..];
    Store(m, second + TASK, 0);
    WordKept(stored, m[..], second + TASK, second + NEXT);
    WordKept(stored, m[..], second + TASK, second + FREE);
    WordKept(stored, m[..], second + TASK, second + SIZE);
  }

  method CarveThird(m: array<byte>, block: u32, third: u32, n: u32, ghost size: nat, ghost next: nat)
    requires block + HEADER + size <= m.Length <= TWO32 && size >= 1 + HEADER + n
    requires third == block + HEADER + n
    requires HeaderIs(m[..], block, size, next, 1)
    modifies m
    ensures HeaderIs(m[..], third, size - HEADER - n, next, 1)
    ensures Word(m[..], third + TASK) == 0
    ensures SameOutside(old(m[..]), m[..], third, third + HEADER)
  {
    ByteUnits(block, size, n);
    SetBytes(m, third, 0, HEADER);
    HeaderKept(old(m[..]), m[..], third, third + HEADER, block, size, next, 1);
    StoreHeader(m, third, ThirdSize(1, block, Load(m, block + SIZE), n), Load(m, block + NEXT), 1);
  }

  method SetFree(m: array<byte>, block: nat, ghost size: nat, ghost next: nat)
    requires block + HEADER <= m.Length
    requires HeaderIs(m[..], block, size, next, Word(m[..], block + FREE))
    modifies m
    ensures HeaderIs(m[..], block, size, next, 1)
    ensures SameOutside(old(m[..]), m[..], block, block + HEADER)
    ensures old(Word(m[..], block + FREE)) == 1 ==> m[..] == old(m[..])
  {
    Store(m, block + FREE, 1);
    if old(Word(m[..], block + FREE)) == 1 {
      SameWord(old(m[..]), m[..], block + FREE);
    }
  }

  /** None of the first i blocks is free together with its successor. */
  ghost predicate NoFreePair(bs: seq<Block>, i: nat) {
    forall k, j :: 0 <= k < i && j == k + 1 < |bs| ==> !(bs[k].free && bs[j].free)
  }

  lemma NoFreePairNext(bs: seq<Block>, cs: seq<Block>, i: nat)
    requires NoFreePair(bs, i) && i < |bs| && i < |cs| && cs[..i] == bs[..i] && cs[i].free == bs[i].free
    requires i + 1 < |cs| ==> !(cs[i].free && cs[i + 1].free)
    ensures NoFreePair(cs, i + 1)
  {
    assert forall k :: 0 <= k < i ==> cs[k] == cs[..i][k] == bs[k];
  }

  /** What the two headers written by kmalloc make of the heap. */
  lemma SplitDone(m: seq<byte>, m': seq<byte>, bs: seq<Block>, i: nat, n: u32, lo: nat, hi: nat)
    requires Spells(m, bs, lo, hi) && NoAdjacentFree(bs) && i < |bs| && Fits(bs[i], n)
    requires SameOutside(m, m', bs[i].addr, bs[i].End())
    requires HeaderIs(m', bs[i].addr, n, bs[i].addr + HEADER + n, 0)
    requires HeaderIs(m', bs[i].addr + HEADER + n, bs[i].size - HEADER - n, NextAddr(bs, i), 1)
    ensures Spells(m', Split(bs, i, n), lo, hi) && NoAdjacentFree(Split(bs, i, n))
    ensures PayloadsKept(bs, lo, hi, m, m', NULL)
  {
    SplitSpelled(m, m', bs, i, n, lo, hi);
    SplitSound(bs, i, n, lo, hi);
    ChangeKeepsPayloads(bs, m, m', i, lo, hi);
  }

  class KernelHeap {
    const mem: array<byte>
    const base: nat
    const limit: nat
    var first: nat
    ghost var blocks: seq<Block>

    /** The memory spells the chain `blocks`, which tiles the heap. */
    ghost predicate Linked()
      reads this, mem
    {
      first == base && Spells(mem[..], blocks, base, limit)
    }

    /** What holds between calls. */
    ghost predicate Valid()
      reads this, mem
    {
      Linked() && NoAdjacentFree(blocks)
    }

    /** Boot-time set-up: one free block over [start, start + total). */
    constructor (memory: array<byte>, start: nat, total: nat)
      requires memory.Length <= TWO32 && 0 < start && HEADER <= total && start + total <= memory.Length
      modifies memory
      ensures Valid()
      ensures mem == memory && base == start && limit == start + total
      ensures blocks == Fresh(start, start + total)
      ensures SameOutside(old(memory[..]), memory[..], start, start + HEADER)
    {
      mem, base, limit, first := memory, start, start + total, start;
      blocks := Fresh(start, start + total);
      new;
      Store(mem, first + FREE, 1);
      Store(mem, first + SIZE, total - HEADER);
      Store(mem, first + NEXT, NULL);
      assert Stored(mem[..], blocks, 0);
    }

    /** block->next, for block i of the chain. */
    function Next(block: nat, ghost i: nat): (next: nat)
      requires Linked() && i < |blocks| && blocks[i].addr == block
      reads this, mem
      ensures next == NextAddr(blocks, i)
      ensures next != NULL <==> i + 1 < |blocks|
    {
      assert Stored(mem[..], blocks, i);
      assert i + 1 < |blocks| ==> base <= blocks[i + 1].addr by {
        AllOrdered(blocks, base, limit);
      }
      Load(mem, block + NEXT)
    }

    /** One turn of merge_blocks' loop. */
    method MergeNext(block: nat, ghost i: nat)
      requires Linked()
      requires i + 1 < |blocks| && blocks[i].addr == block && blocks[i].free && blocks[i + 1].free
      modifies this`blocks, mem
      ensures Linked()
      ensures blocks == Merge(old(blocks), i)
      ensures SameOutside(old(mem[..]), mem[..], block, block + HEADER)
    {
      ghost var m := mem[..];
      assert Stored(m, blocks, i) && Stored(m, blocks, i + 1);
      Ordered(blocks, base, limit, i, i + 1);
      Absorb(mem, block, blocks[i].size, blocks[i + 1].size, NextAddr(blocks, i + 1));
      MergeSpelled(m, mem[..], blocks, i, base, limit);
      blocks := Merge(blocks, i);
    }

    /** merge_blocks: absorb the free blocks that follow block i. */
    method MergeBlocks(start: nat, ghost i: nat)
      requires Linked()
      requires i < |blocks| && blocks[i].addr == start
      modifies this`blocks, mem
      ensures Linked()
      ensures |blocks| <= |old(blocks)| && Live(blocks) == Live(old(blocks))
      ensures i < |blocks| && blocks[..i] == old(blocks)[..i] && blocks[i].addr == start
      ensures blocks[i].free == old(blocks)[i].free
      ensures i + 1 < |blocks| ==> !(blocks[i].free && blocks[i + 1].free)
      ensures PayloadsKept(old(blocks), base, limit, old(mem[..]), mem[..], NULL)
      ensures NoAdjacentFree(old(blocks)) ==> blocks == old(blocks) && mem[..] == old(mem[..])
    {
      ghost var m, bs := mem[..], blocks;
      assert Stored(mem[..], blocks, i);
      if Load(mem, start + FREE) == 0 {
        return;
      }
      var block := start;
      while LinkedToFree(block, i)
        invariant Linked()
        invariant |blocks| <= |old(blocks)| && Live(blocks) == Live(old(blocks))
        invariant i < |blocks| && blocks[i].addr == start && blocks[i].free && blocks[..i] == old(blocks)[..i]
        invariant SameOutside(old(mem[..]), mem[..], start, start + HEADER)
        invariant NoAdjacentFree(old(blocks)) ==> blocks == old(blocks) && mem[..] == old(mem[..])
        decreases |blocks|
      {
        MergeSound(blocks, i, base, limit);
        MergeNext(block, i);
      }
      HeaderKeepsPayloads(bs, m, mem[..], i, base, limit);
    }

    /** The guard of merge_blocks' loop. */
    predicate LinkedToFree(block: nat, ghost i: nat)
      requires Linked() && i < |blocks| && blocks[i].addr == block
      reads this, mem
      ensures LinkedToFree(block, i) == (i + 1 < |blocks| && blocks[i + 1].free)
    {
      assert Stored(mem[..], blocks, i);
      assert i + 1 < |blocks| ==> Stored(mem[..], blocks, i + 1);
      Load(mem, block + NEXT) != NULL && Load(mem, Load(mem, block + NEXT) + FREE) != 0
    }

    /** The test of kaligned_alloc at alignment 1, whose sum wraps for sizes above 2^32 - 18. */
    predicate Suits(block: nat, ghost i: nat, size: u32)
      requires Linked() && i < |blocks| && blocks[i].addr == block
      requires size <= TWO32 - 18
      reads this, mem
      ensures Suits(block, i, size) == Fits(blocks[i], size)
    {
      assert Stored(mem[..], blocks, i);
      Load(mem, block + FREE) != 0 && Load(mem, block + SIZE) >= Wrap(1 + HEADER + size)
    }

    /** The success branch of kaligned_alloc at alignment 1, where `second` is `block`. */
    method SplitBlock(block: nat, ghost i: nat, size: u32)
      requires Valid()
      requires i < |blocks| && blocks[i].addr == block && Fits(blocks[i], size)
      modifies this`blocks, mem
      ensures Valid()
      ensures blocks == Split(old(blocks), i, size)
      ensures TaskCleared(mem[..], block) && TaskCleared(mem[..], block + HEADER + size)
      ensures PayloadsKept(old(blocks), base, limit, old(mem[..]), mem[..], NULL)
    {
      ghost var m := mem[..];
      assert Stored(m, blocks, i);
      InHeap(blocks, base, limit, i);
      Carve(mem, block, size, blocks[i].size, NextAddr(blocks, i));
      SplitDone(m, mem[..], blocks, i, size, base, limit);
      blocks := Split(blocks, i, size);
    }

    /** kmalloc: kaligned_alloc at alignment 1. */
    method KMalloc(size: u32) returns (p: nat)
      requires Valid()
      requires size <= TWO32 - 18
      modifies this`blocks, mem
      ensures Valid()
      ensures (blocks, p) == Malloc(old(blocks), size)
      ensures p == NULL ==> mem[..] == old(mem[..])
      ensures p != NULL ==> TaskCleared(mem[..], p - HEADER) && TaskCleared(mem[..], p + size)
      ensures PayloadsKept(old(blocks), base, limit, old(mem[..]), mem[..], NULL)
    {
      if size == 0 {
        return NULL;
      }
      var block := first;
      ghost var i := 0;
      while block != NULL
        invariant Valid() && blocks == old(blocks) && mem[..] == old(mem[..])
        invariant i <= |blocks|
        invariant i < |blocks| <==> block != NULL
        invariant block == if i < |blocks| then blocks[i].addr else NULL
        invariant forall k :: 0 <= k < i ==> !Fits(blocks[k], size)
        decreases |blocks| - i
      {
        if Suits(block, i, size) {
          SplitBlock(block, i, size);
          return block + HEADER;
        }
        block := Next(block, i);
        i := i + 1;
      }
      return NULL;
    }

    /** block->free = 1. */
    method MarkBlock(block: nat, ghost k: nat)
      requires Linked()
      requires k < |blocks| && blocks[k].addr == block
      modifies this`blocks, mem
      ensures Linked()
      ensures blocks == old(blocks)[k := old(blocks)[k].(free := true)]
      ensures SameOutside(old(mem[..]), mem[..], block, block + HEADER)
      ensures old(blocks)[k].free ==> mem[..] == old(mem[..])
    {
      ghost var m := mem[..];
      assert Stored(m, blocks, k);
      SetFree(mem, block, blocks[k].size, NextAddr(blocks, k));
      MarkSpelled(m, mem[..], blocks, k, base, limit);
      blocks := blocks[k := blocks[k].(free := true)];
    }

    /** The sweep in kfree: merge at every block in turn. */
    method Sweep()
      requires Linked()
      modifies this`blocks, mem
      ensures Valid()
      ensures Live(blocks) == Live(old(blocks))
      ensures PayloadsKept(old(blocks), base, limit, old(mem[..]), mem[..], NULL)
      ensures NoAdjacentFree(old(blocks)) ==> blocks == old(blocks) && mem[..] == old(mem[..])
    {
      var blk := first;
      ghost var i := 0;
      while blk != NULL
        invariant Linked()
        invariant i <= |blocks| <= |old(blocks)|
        invariant i < |blocks| <==> blk != NULL
        invariant blk == if i < |blocks| then blocks[i].addr else NULL
        invariant PayloadsKept(old(blocks), base, limit, old(mem[..]), mem[..], NULL)
        invariant NoFreePair(blocks, i)
        invariant Live(blocks) == Live(old(blocks))
        invariant NoAdjacentFree(old(blocks)) ==> blocks == old(blocks) && mem[..] == old(mem[..])
        decreases |old(blocks)| - i
      {
        ghost var m, bs := mem[..], blocks;
        MergeBlocks(blk, i);
        NoFreePairNext(bs, blocks, i);
        PayloadsKeptTwice(old(blocks), bs, old(mem[..]), m, mem[..], base, limit, NULL);
        blk := Next(blk, i);
        i := i + 1;
      }
    }

    /** kfree. */
    method KFree(p: u32)
      requires Valid()
      modifies this`blocks, mem
      ensures Valid()
      ensures blocks == Free(old(blocks), p)
      ensures PayloadsKept(old(blocks), base, limit, old(mem[..]), mem[..], p)
      ensures (forall b :: b in Live(old(blocks)) ==> b.Data() != p) ==> mem[..] == old(mem[..])
    {
      if p == NULL {
        return;
      }
      var block, prev := first, NULL;
      ghost var k := 0;
      while block != NULL
        invariant Valid() && blocks == old(blocks) && mem[..] == old(mem[..])
        invariant k <= |blocks|
        invariant k < |blocks| <==> block != NULL
        invariant k > 0 <==> prev != NULL
        invariant block == if k < |blocks| then blocks[k].addr else NULL
        invariant k > 0 ==> prev == blocks[k - 1].addr
        invariant forall i :: 0 <= i < k ==> blocks[i].Data() != p
        decreases |blocks| - k
      {
        if block + HEADER == p {
          FreeBlock(block, prev, k, p);
          return;
        }
        prev := block;
        block := Next(block, k);
        k := k + 1;
      }
    }

    /** The two steps of kfree that glue blocks together. */
    method MergeAndSweep(start: nat, ghost i: nat)
      requires Linked() && i < |blocks| && blocks[i].addr == start
      modifies this`blocks, mem
      ensures Valid()
      ensures Live(blocks) == Live(old(blocks))
      ensures PayloadsKept(old(blocks), base, limit, old(mem[..]), mem[..], NULL)
      ensures NoAdjacentFree(old(blocks)) ==> mem[..] == old(mem[..])
    {
      MergeBlocks(start, i);
      ghost var m, bs := mem[..], blocks;
      Sweep();
      PayloadsKeptTwice(old(blocks), bs, old(mem[..]), m, mem[..], base, limit, NULL);
    }

    /** What kfree does once it has found the block. */
    method FreeBlock(block: nat, prev: nat, ghost k: nat, ghost p: nat)
      requires Valid()
      requires k < |blocks| && blocks[k].addr == block && block + HEADER == p
      requires k > 0 <==> prev != NULL
      requires k > 0 ==> prev == blocks[k - 1].addr
      requires forall i :: 0 <= i < k ==> blocks[i].Data() != p
      modifies this`blocks, mem
      ensures Valid()
      ensures blocks == Free(old(blocks), p)
      ensures PayloadsKept(old(blocks), base, limit, old(mem[..]), mem[..], p)
      ensures old(blocks)[k].free ==> mem[..] == old(mem[..])
    {
      FreeSound(blocks, p, base, limit);
      MarkFree(blocks, k, base, limit);
      MarkBlock(block, k);
      HeaderKeepsPayloads(old(blocks), old(mem[..]), mem[..], k, base, limit);
      ghost var m, bs := mem[..], blocks;
      MergeAndSweep(if prev != NULL then prev else block, if k > 0 then k - 1 else 0);
      PayloadsKeptTwice(old(blocks), bs, old(mem[..]), m, mem[..], base, limit, p);
      CanonicalUnique(blocks, Free(old(blocks), p), base, limit);
    }

    method Call(op: Op)
      requires Valid()
      requires Callable(op)
      modifies this`blocks, mem
      ensures Valid()
      ensures blocks == Step(old(blocks), op)
      ensures PayloadsKept(old(blocks), base, limit, old(mem[..]), mem[..], Freed(op))
      ensures forall b :: b in Live(old(blocks)) && b.Data() != Freed(op) ==> b in Live(blocks)
    {
      match op {
        case OpMalloc(n) =>
          MallocSound(blocks, n, base, limit);
          var _ := KMalloc(n);
        case OpFree(p) =>
          FreeSound(blocks, p, base, limit);
          KFree(p);
      }
    }

    /** A caller stores a byte into a live payload. */
    method Poke(a: nat, v: byte)
      requires Valid()
      requires LawfulEvent(blocks, HeapClients.Poke(a, v))
      modifies mem
      ensures Valid()
      ensures a < |old(mem[..])| && mem[..] == old(mem[..])[a := v]
    {
      ghost var b :| b in Live(blocks) && b.Data() <= a < b.End();
      AllOrdered(blocks, base, limit);
      ghost var m := mem[..];
      mem[a] := v;
      ClientStoreSpelled(m, mem[..], blocks, b, base, limit);
    }

    method Handle(e: Event)
      requires Valid() && LawfulEvent(blocks, e)
      modifies this`blocks, mem
      ensures Valid()
      ensures blocks == After(old(blocks), e)
      ensures Spares(old(blocks), blocks, old(mem[..]), mem[..], e, base, limit)
    {
      match e {
        case Call(op) => Call(op);
        case Poke(a, v) => Poke(a, v);
      }
    }

    /** Any sequence of calls by any callers, who store into the payloads they hold in between. The
        memory ends up spelling the chain of the whole run, and a payload that none of the calls
        frees is still live and holds, byte by byte, what was last stored there. */
    method Serve(es: seq<Event>)
      requires Valid() && Lawful(blocks, es)
      modifies this`blocks, mem
      ensures Valid()
      ensures blocks == Run(old(blocks), Calls(es))
      ensures Survive(old(blocks), blocks, old(mem[..]), mem[..], es)
    {
      ghost var m0, bs0 := mem[..], blocks;
      var i := 0;
      while i < |es|
        invariant 0 <= i <= |es| && Valid()
        invariant Lawful(blocks, es[i..])
        invariant Run(blocks, Calls(es[i..])) == Run(bs0, Calls(es))
        invariant Survive(bs0, blocks, m0, mem[..], es[..i])
      {
        ghost var m, bs := mem[..], blocks;
        NextEvent(es, i, bs);
        Handle(es[i]);
        SurviveMore(bs0, bs, blocks, m0, m, mem[..], es[..i], es[i], base, limit);
        i := i + 1;
      }
      assert es[..i] == es && es[i..] == [];
    }

    static lemma NextEvent(es: seq<Event>, i: nat, bs: seq<Block>)
      requires i < |es| && Lawful(bs, es[i..])
      ensures LawfulEvent(bs, es[i]) && Lawful(After(bs, es[i]), es[i + 1..])
      ensures Run(bs, Calls(es[i..])) == Run(After(bs, es[i]), Calls(es[i + 1..]))
      ensures es[..i + 1] == es[..i] + [es[i]]
    {
      assert es[i..][0] == es[i] && es[i..][1..] == es[i + 1..];
      if es[i].Call? {
        assert ([es[i].op] + Calls(es[i + 1..]))[1..] == Calls(es[i + 1..]);
      } else {
        assert [] + Calls(es[i + 1..]) == Calls(es[i + 1..]);
      }
    }
  }
}
