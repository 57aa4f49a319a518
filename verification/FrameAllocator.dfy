/** frame_alloc and frame_free on the chain of region records, with bitmap words and hints
    overwritten in place, proved against the functions in Frames. */
module FrameAllocator {
  import opened Words
  import opened Bits
  import opened Division
  import opened FrameSearch
  import opened Frames

  /** bitmap_list_t. */
  class RegionNode {
    const base: u32
    const blocks: nat
    const words: array<u32>
    var hint: nat

    constructor (base: u32, blocks: nat, words: array<u32>, hint: nat)
      ensures this.base == base && this.blocks == blocks && this.words == words && this.hint == hint
    {
      this.base, this.blocks, this.words, this.hint := base, blocks, words, hint;
    }

    ghost function View(): Region
      reads this, words
    {
      Region(base, blocks, words[..], hint)
    }

    /** The for loop of frame_alloc over one region's words. */
    method SearchWords(fixed: bool, count: nat, align: nat) returns (i: nat, f: nat)
      requires align > 0 && 1 <= count <= BITS && View().Ok()
      modifies this`hint, words
      ensures i == FirstWord(fixed, old(words[..]), old(hint), count, align)
      ensures i < words.Length ==> f == Search(fixed, old(words[..])[i], count, align).found
      ensures View() == Outcome(fixed, old(View()), count, align)
    {
      ghost var ws, h := words[..], hint;
      ghost var goal, seen := FirstWord(fixed, ws, h, count, align), FirstSeen(fixed, ws, h, count, align);
      var isnotset := true;
      i, f := hint, NONE;
      while i < blocks / 32 + 1
        invariant h <= i <= goal && words[..] == ws
        invariant isnotset <==> i <= seen
        invariant hint == if isnotset then h else seen
      {
        var saw;
        f, saw := SearchWord(fixed, words[i], count, align);
        FoundSaw(fixed, ws[i], count, align);
        if saw && isnotset {
          hint := i;
          isnotset := false;
        }
        if f < BITS {
          MarkRun(fixed, i, f, count, align);
          return;
        }
        i := i + 1;
      }
    }

    method MarkRun(fixed: bool, i: nat, f: nat, count: nat, align: nat)
      requires align > 0 && 1 <= count <= BITS && i < words.Length
      requires f == Search(fixed, words[i], count, align).found < BITS
      modifies words
      ensures words[..] == old(words[..])[i := Take(fixed, old(words[..])[i], count, align)]
    {
      ScanFits(fixed, words[i], count, align, 0, 1, 0, 0, false);
      var w := SetRun(words[i], f, count);
      words[i] := w;
    }

    /** The clear branch of frame_free for one region. */
    method ClearFrames(fixed: bool, addr: u32, count: nat)
      requires 1 <= count <= 32 && View().Ok() && InRange(fixed, View(), addr)
      modifies words
      ensures View() == FreeRun(fixed, old(View()), (addr - base) / 4096, count)
    {
      var d := (addr - base) / 4096;
      QuotRemAre(d, 31);
      var bitn := if fixed then d % 32 else d % 31;
      var bitmapn := (d - bitn) / 32;
      if 32 - bitn < count {
        return;
      }
      WordInside(fixed, View(), addr);
      var w := ClearRun(words[bitmapn], bitn, count);
      words[bitmapn] := w;
      assert words[..] == old(words[..])[bitmapn := w];
    }
  }

  /** An accepted address always names a word of the bitmap. */
  lemma WordInside(fixed: bool, r: Region, addr: u32)
    requires r.Ok() && InRange(fixed, r, addr)
    ensures WordOf(fixed, (addr - r.base) / 4096) < |r.words|
  {
    var d := (addr - r.base) / 4096;
    assert d <= r.blocks;
    assert WordOf(fixed, d) <= d / 32 <= r.blocks / 32;
  }

  /** Two records of a chain share nothing. */
  predicate Separate(nodes: seq<RegionNode>, j: nat, k: nat) {
    j < |nodes| && k < |nodes| && nodes[j] != nodes[k] && nodes[j].words != nodes[k].words
  }

  /** The chain hanging off `firstblock`, record by record; `regions` is its value. */
  class FrameMap {
    const fixed: bool
    var nodes: seq<RegionNode>
    ghost var regions: seq<Region>

    ghost var repr: set<object>

    ghost predicate Valid()
      reads this, repr
    {
      && this !in repr
      && nodes != [] && |regions| == |nodes|
      && (forall k :: 0 <= k < |nodes| ==> Shown(k))
      && (forall j, k :: 0 <= j < k < |nodes| ==> Separate(nodes, j, k))
      && AllOk(regions)
    }

    /** Record k is the k-th region. */
    ghost predicate Shown(k: nat)
      reads this, repr
    {
      && k < |nodes| == |regions|
      && nodes[k] in repr && nodes[k].words in repr
      && regions[k] == nodes[k].View()
    }

    /** Only record k has changed, and become the region it should. */
    twostate lemma OthersShown(k: nat)
      requires old(Valid()) && nodes == old(nodes) && repr == old(repr) && k < |nodes| && Shown(k)
      requires |regions| == |nodes|
      requires forall j :: 0 <= j < |nodes| && j != k ==> regions[j] == old(regions[j])
      requires forall o: object :: o in repr && o != nodes[k] && o != nodes[k].words ==> unchanged(o)
      ensures forall j :: 0 <= j < |nodes| ==> Shown(j)
    {
      forall j | 0 <= j < |nodes| ensures Shown(j) {
        assert old(Shown(j));
        if j < k {
          assert Separate(nodes, j, k);
        } else if j > k {
          assert Separate(nodes, k, j);
        }
      }
    }

    constructor (fixed: bool, node: RegionNode)
      requires node.View().Ok()
      ensures Valid() && this.fixed == fixed
      ensures nodes == [node] && regions == [node.View()] && repr == {node, node.words}
    {
      this.fixed, nodes, regions, repr := fixed, [node], [node.View()], {node, node.words};
      new;
      assert Shown(0);
    }

    /** oldblock->next = newblock, for the last record of the chain. */
    method Append(node: RegionNode)
      requires Valid() && node.View().Ok() && {node, node.words} !! repr && this !in {node, node.words}
      modifies `nodes, `regions, `repr
      ensures Valid() && nodes == old(nodes) + [node] && regions == old(regions) + [node.View()]
      ensures repr == old(repr) + {node, node.words}
    {
      ghost var was := nodes;
      nodes, regions, repr := nodes + [node], regions + [node.View()], repr + {node, node.words};
      forall k | 0 <= k < |nodes| ensures Shown(k) {
        assert k < |was| ==> old(Shown(k));
      }
      forall j, k | 0 <= j < k < |nodes| ensures Separate(nodes, j, k) {
        assert old(Shown(j));
        assert k < |was| ==> Separate(was, j, k);
      }
    }

    /** frame_alloc. */
    method FrameAlloc(count: nat, alignUp: nat) returns (addr: u32)
      requires Valid()
      modifies `regions, repr
      ensures Valid() && repr == old(repr)
      ensures var (rs, place) := Alloc(fixed, old(regions), count, alignUp);
        && regions == rs && addr == Returned(old(regions), place)
        && (match place
            case Nowhere => addr == 0
            case At(k, i, f) => k < |rs| && addr == Wrap(rs[k].base + (32 * i + f) * 4096))
    {
      if count == 0 || count > 32 {
        return 0;
      }
      ghost var rs := regions;
      ghost var place;
      addr, place := SearchChain(count, Alignment(alignUp));
      AllocMarks(fixed, rs, count, Alignment(alignUp));
    }

    /** The outer loop of frame_alloc. */
    method SearchChain(count: nat, align: nat) returns (addr: u32, ghost place: Place)
      requires Valid() && align > 0 && 1 <= count <= BITS
      modifies `regions, repr
      ensures Valid() && repr == old(repr)
      ensures AllocIn(fixed, old(regions), count, align) == (regions, place)
      ensures addr == Returned(regions, place)
    {
      ghost var rs := regions;
      PassedNone(fixed, rs, count, align);
      var k := 0;
      while k < |nodes|
        invariant 0 <= k <= |nodes|
        invariant Valid()
        invariant Passed(fixed, rs, regions, k, count, align)
      {
        var found;
        found, addr, place := Visit(k, rs, count, align);
        if found {
          return;
        }
        k := k + 1;
      }
      PassedAll(fixed, rs, regions, count, align);
      return 0, Nowhere;
    }

    /** The search of region k, the regions before it having been searched in vain. */
    method Visit(k: nat, ghost rs: seq<Region>, count: nat, align: nat)
      returns (found: bool, addr: u32, ghost place: Place)
      requires Valid() && k < |nodes| && align > 0 && 1 <= count <= BITS
      requires AllOk(rs) && Passed(fixed, rs, regions, k, count, align)
      modifies `regions, repr
      ensures Valid()
      ensures found ==> AllocIn(fixed, rs, count, align) == (regions, place) && addr == Returned(regions, place)
      ensures !found ==> Passed(fixed, rs, regions, k + 1, count, align)
    {
      assert Shown(k);
      ghost var now := regions;
      var i, f := SearchOne(nodes[k], k, count, align);
      SearchNext(fixed, rs, now, regions, k, count, align);
      found, addr, place := i < nodes[k].words.Length, Address(nodes[k].base, i, f), At(k, i, f);
    }

    /** The search of one region, seen from the chain. */
    method SearchOne(cur: RegionNode, ghost k: nat, count: nat, align: nat) returns (i: nat, f: nat)
      requires Valid() && k < |nodes| && cur == nodes[k] && align > 0 && 1 <= count <= BITS
      modifies `regions, cur`hint, cur.words
      ensures Valid()
      ensures regions == old(regions)[k := Outcome(fixed, old(regions)[k], count, align)]
      ensures i == FirstWord(fixed, old(regions)[k].words, old(regions)[k].hint, count, align)
      ensures i < |old(regions)[k].words| ==> f == Search(fixed, old(regions)[k].words[i], count, align).found
      ensures cur.base == old(regions)[k].base && cur.words.Length == |old(regions)[k].words|
    {
      assert Shown(k);
      AllocOutcomeOk(fixed, regions[k], count, align);
      i, f := cur.SearchWords(fixed, count, align);
      regions := regions[k := Outcome(fixed, regions[k], count, align)];
      OthersShown(k);
    }

    /** frame_free. */
    method FrameFree(addr: u32, count: nat)
      requires Valid()
      modifies `regions, repr
      ensures Valid() && repr == old(repr)
      ensures regions == Free(fixed, old(regions), addr, count)
    {
      if count == 0 || count > 32 {
        return;
      }
      var k := 0;
      while k < |nodes| && !Accepts(k, addr)
        invariant 0 <= k <= |nodes|
        invariant k <= OwnerOf(fixed, regions, 0, addr)
      {
        k := k + 1;
      }
      if k < |nodes| {
        assert Shown(k);
        FreeHere(nodes[k], k, addr, count);
      }
    }

    /** The address test of frame_free. */
    predicate Accepts(k: nat, addr: u32)
      requires Valid() && k < |nodes|
      reads this, repr
      ensures Accepts(k, addr) == InRange(fixed, regions[k], addr)
    {
      assert Shown(k);
      addr >= nodes[k].base &&
      if fixed then addr < nodes[k].base + nodes[k].blocks * 4096 else addr <= Wrap(nodes[k].base + nodes[k].blocks)
    }

    method FreeHere(cur: RegionNode, ghost k: nat, addr: u32, count: nat)
      requires Valid() && k < |nodes| && cur == nodes[k] && 1 <= count <= 32
      requires InRange(fixed, regions[k], addr)
      modifies `regions, cur.words
      ensures Valid()
      ensures regions == old(regions)[k := FreeRun(fixed, old(regions)[k], (addr - old(regions)[k].base) / 4096, count)]
    {
      assert Shown(k);
      cur.ClearFrames(fixed, addr, count);
      regions := regions[k := FreeRun(fixed, regions[k], (addr - regions[k].base) / 4096, count)];
      OthersShown(k);
    }
  }
}
