/** Who owns which frame: what one frame_alloc keeps, and exactly which frees keep it too. */
module FrameOwnership {
  import opened Words
  import opened Bits
  import opened FrameSearch
  import opened Division
  import opened Frames
  import opened FrameDecode

  /** `count` frames from frame `start` of region k. */
  datatype Range = Range(k: nat, start: nat, count: nat) {
    predicate Has(x: nat) { start <= x < start + count }
  }

  ghost predicate Covered(live: set<Range>, k: nat, x: nat) {
    exists g :: g in live && g.k == k && g.Has(x)
  }

  /** The capacities of the regions' bitmaps: their frames, or all their bits. Boot leaves every
      bit clear, so that every bit may be handed out; with the tail bits set, only the frames. */
  function FrameCounts(rs: seq<Region>): (caps: seq<nat>)
    ensures |caps| == |rs| && forall k :: 0 <= k < |rs| ==> caps[k] == rs[k].blocks
  {
    seq(|rs|, k requires 0 <= k < |rs| => rs[k].blocks)
  }

  function BitCounts(rs: seq<Region>): (caps: seq<nat>)
    ensures |caps| == |rs| && forall k :: 0 <= k < |rs| ==> caps[k] == 32 * |rs[k].words|
  {
    seq(|rs|, k requires 0 <= k < |rs| => 32 * |rs[k].words|)
  }

  /** A range lies below its region's capacity and inside one bitmap word. */
  predicate Inside(caps: seq<nat>, g: Range) {
    && g.k < |caps| && 1 <= g.count <= 32
    && g.start % 32 + g.count <= 32
    && g.start + g.count <= caps[g.k]
  }

  /** The bitmaps say exactly what is live: a bit is set if and only if it is beyond the region's
      capacity or in a live range; and live ranges do not overlap. */
  ghost predicate Owned(rs: seq<Region>, caps: seq<nat>, live: set<Range>) {
    && AllOk(rs) && |caps| == |rs|
    && (forall k :: 0 <= k < |rs| ==> caps[k] <= 32 * |rs[k].words|)
    && (forall g :: g in live ==> Inside(caps, g))
    && (forall g, h :: g in live && h in live && g != h && g.k == h.k ==>
         g.start + g.count <= h.start || h.start + h.count <= g.start)
    && (forall k, x :: 0 <= k < |rs| && 0 <= x < 32 * |rs[k].words| ==>
         (Taken(rs[k].words, x) <==> x >= caps[k] || Covered(live, k, x)))
  }

  lemma FillTakes(ws: seq<u32>, i: nat, f: nat, count: nat, x: nat)
    requires i < |ws| && f + count <= 32 && x < 32 * |ws|
    ensures Taken(ws[i := Fill(ws[i], f, count)], x) <==> Taken(ws, x) || 32 * i + f <= x < 32 * i + f + count
  {
    assert x == 32 * (x / 32) + x % 32;
  }

  lemma EmptyGives(ws: seq<u32>, i: nat, f: nat, count: nat, x: nat)
    requires i < |ws| && f + count <= 32 && x < 32 * |ws|
    ensures Taken(ws[i := Empty(ws[i], f, count)], x) <==> Taken(ws, x) && !(32 * i + f <= x < 32 * i + f + count)
  {
    assert x == 32 * (x / 32) + x % 32;
  }

  function RangeAt(place: Place, count: nat): Range
    requires place.At?
  {
    Range(place.k, 32 * place.i + place.f, count)
  }

  /** The frames of a successful allocation are below the capacity, and nobody owns one of them. */
  lemma AllocatedIsNew(rs: seq<Region>, caps: seq<nat>, live: set<Range>, count: nat, align: nat, place: Place)
    requires Owned(rs, caps, live) && align > 0 && 1 <= count <= 32
    requires place.At? && FirstFit(rs, count, align, place)
    ensures Inside(caps, RangeAt(place, count))
    ensures forall x :: RangeAt(place, count).Has(x) ==> !Covered(live, place.k, x)
  {
    var g := RangeAt(place, count);
    var ws := rs[place.k].words;
    assert g.start / 32 == place.i && g.start % 32 == place.f;
    forall x: nat | g.Has(x) ensures x < caps[place.k] && !Covered(live, place.k, x) {
      assert x / 32 == place.i && x % 32 == place.f + (x - g.start);
      assert !Taken(ws, x);
    }
    assert g.Has(g.start + count - 1);
  }

  lemma AllocKeepsOwned(fixed: bool, rs: seq<Region>, caps: seq<nat>, live: set<Range>, count: nat, align: nat)
    requires Owned(rs, caps, live) && align > 0 && InStep(fixed, align) && 1 <= count <= 32
    ensures var (rs', place) := AllocIn(fixed, rs, count, align);
      Owned(rs', caps, if place.At? then live + {RangeAt(place, count)} else live)
  {
    var (rs', place) := AllocIn(fixed, rs, count, align);
    AllocMarks(fixed, rs, count, align);
    AllocFirstFit(fixed, rs, count, align);
    if place.At? {
      AllocatedIsNew(rs, caps, live, count, align, place);
      MarkedOwned(rs, rs', caps, live, count, place);
    }
  }

  lemma MarkedOwned(rs: seq<Region>, rs': seq<Region>, caps: seq<nat>, live: set<Range>, count: nat, place: Place)
    requires Owned(rs, caps, live) && place.At? && AllOk(rs') && Marks(rs, rs', count, place)
    requires Inside(caps, RangeAt(place, count))
    requires forall x :: RangeAt(place, count).Has(x) ==> !Covered(live, place.k, x)
    ensures Owned(rs', caps, live + {RangeAt(place, count)})
  {
    var g := RangeAt(place, count);
    var live' := live + {g};
    forall h | h in live && h.k == g.k && h != g
      ensures g.start + g.count <= h.start || h.start + h.count <= g.start
    {
      if h.start <= g.start < h.start + h.count {
        assert g.Has(g.start) && h.Has(g.start);
      } else if g.start <= h.start < g.start + g.count {
        assert g.Has(h.start) && h.Has(h.start);
      }
    }
    forall k, x | 0 <= k < |rs'| && 0 <= x < 32 * |rs'[k].words|
      ensures Taken(rs'[k].words, x) <==> x >= caps[k] || Covered(live', k, x)
    {
      assert Covered(live', k, x) <==> Covered(live, k, x) || (k == g.k && g.Has(x)) by {
        assert g in live';
      }
      if k == place.k {
        FillTakes(rs[k].words, place.i, place.f, count, x);
      }
    }
  }

  // ---------------------------------------------------------------- frame_free

  function AddressOf(rs: seq<Region>, g: Range): nat
    requires g.k < |rs|
  {
    rs[g.k].base + g.start * 4096
  }

  /** What frame_free makes of an address in a frame, whichever of its bytes it is: the run of its
      own region is cleared from the decoded bit on, or, as written, nothing is. */
  lemma FreeFinds(fixed: bool, rs: seq<Region>, g: Range, addr: u32)
    requires AllOk(rs) && Findable(fixed, rs) && g.k < |rs| && g.start < rs[g.k].blocks
    requires AddressOf(rs, g) <= addr < AddressOf(rs, g) + 4096
    ensures FreeIn(fixed, rs, addr, g.count) ==
      if fixed || addr - rs[g.k].base <= rs[g.k].blocks
      then rs[g.k := FreeRun(fixed, rs[g.k], g.start, g.count)] else rs
  {
    OwnerIs(fixed, rs, g.k, g.start, addr - AddressOf(rs, g));
    assert (addr - rs[g.k].base) / 4096 == g.start;
  }

  /** Giving back a live range that starts at a frame of its region keeps the bitmaps right exactly
      when that frame is decoded correctly. */
  lemma FreeKeepsOwnedIff(fixed: bool, rs: seq<Region>, caps: seq<nat>, live: set<Range>, g: Range, addr: u32)
    requires Owned(rs, caps, live) && Findable(fixed, rs) && g in live && g.start < rs[g.k].blocks
    requires addr == AddressOf(rs, g)
    ensures Owned(Free(fixed, rs, addr, g.count), caps, live - {g}) <==> Returnable(fixed, rs[g.k], g.start)
  {
    FreeFinds(fixed, rs, g, addr);
    var r' := FreeRun(fixed, rs[g.k], g.start, g.count);
    DecodeRightIff(g.start);
    if !fixed && g.start * 4096 > rs[g.k].blocks {
      StillMarked(rs, caps, live, g, rs, g.start);
    } else if Returnable(fixed, rs[g.k], g.start) {
      assert r' == rs[g.k].(words := Cleared(rs[g.k].words, g));
      ClearedOwned(rs, caps, live, g);
    } else {
      var x := MissedFrame(fixed, rs[g.k], g);
      assert Covered(live, g.k, x);
      StillMarked(rs, caps, live, g, rs[g.k := r'], x);
    }
  }

  /** A frame of g that is still marked spoils the bitmaps. */
  lemma StillMarked(rs: seq<Region>, caps: seq<nat>, live: set<Range>, g: Range, rs': seq<Region>, x: nat)
    requires Owned(rs, caps, live) && g in live && g.Has(x)
    requires |rs'| == |rs| && |rs'[g.k].words| == |rs[g.k].words|
    requires x < 32 * |rs[g.k].words| && Taken(rs'[g.k].words, x)
    ensures !Owned(rs', caps, live - {g})
  {
    NotTwice(rs, caps, live, g, x);
  }

  /** Decoded wrongly, some frame of a marked run is missed. */
  lemma MissedFrame(fixed: bool, r: Region, g: Range) returns (x: nat)
    requires 1 <= g.count <= 32 && g.start % 32 + g.count <= 32 && g.start + g.count <= 32 * |r.words|
    requires forall y :: g.start <= y < g.start + g.count ==> Taken(r.words, y)
    requires !(BitOf(fixed, g.start) == g.start % 32 && WordOf(fixed, g.start) == g.start / 32)
    ensures g.Has(x) && x < 32 * |r.words| && |FreeRun(fixed, r, g.start, g.count).words| == |r.words|
    ensures Taken(FreeRun(fixed, r, g.start, g.count).words, x)
  {
    var b, i := BitOf(fixed, g.start), WordOf(fixed, g.start);
    x := g.start;
    if 32 - b >= g.count && i < |r.words| {
      DivisionUnique(32 * i + b, 32, i, b);
      x := g.start + g.count - 1;
      EmptyGives(r.words, i, b, g.count, x);
    }
    assert Taken(r.words, x);
  }

  /** The words of a region without the marks of g. */
  function Cleared(ws: seq<u32>, g: Range): seq<u32>
    requires g.start % 32 + g.count <= 32 && g.start / 32 < |ws|
  {
    ws[g.start / 32 := Empty(ws[g.start / 32], g.start % 32, g.count)]
  }

  lemma ClearedOwned(rs: seq<Region>, caps: seq<nat>, live: set<Range>, g: Range)
    requires Owned(rs, caps, live) && g in live && g.start / 32 < |rs[g.k].words|
    ensures Owned(rs[g.k := rs[g.k].(words := Cleared(rs[g.k].words, g))], caps, live - {g})
  {
    var rs' := rs[g.k := rs[g.k].(words := Cleared(rs[g.k].words, g))];
    var live' := live - {g};
    forall k, x | 0 <= k < |rs'| && 0 <= x < 32 * |rs'[k].words|
      ensures Taken(rs'[k].words, x) <==> x >= caps[k] || Covered(live', k, x)
    {
      if k == g.k {
        EmptyGives(rs[k].words, g.start / 32, g.start % 32, g.count, x);
        NotTwice(rs, caps, live, g, x);
      } else {
        assert rs'[k] == rs[k];
        assert forall h :: h in live && h.k == k ==> h in live';
      }
    }
  }

  /** A frame of a live range is covered by that range alone. */
  lemma NotTwice(rs: seq<Region>, caps: seq<nat>, live: set<Range>, g: Range, x: nat)
    requires Owned(rs, caps, live) && g in live
    ensures Covered(live - {g}, g.k, x) <==> Covered(live, g.k, x) && !g.Has(x)
  {
    forall h | h in live && h.k == g.k && h.Has(x) && !g.Has(x) ensures h in live - {g} {
    }
  }

  // ---------------------------------------------------------------- addresses of other frames

  /** A free at this address would clear a bit that is set. */
  predicate Touches(fixed: bool, rs: seq<Region>, addr: u32, count: nat) {
    var k := OwnerOf(fixed, rs, 0, addr);
    k < |rs| && TouchesRun(fixed, rs[k], (addr - rs[k].base) / 4096, count)
  }

  predicate TouchesRun(fixed: bool, r: Region, d: nat, count: nat) {
    var b, i := BitOf(fixed, d), WordOf(fixed, d);
    b + count <= 32 && i < |r.words| && exists x :: b <= x < b + count && Has(r.words[i], x)
  }

  lemma UntouchedSame(fixed: bool, r: Region, d: nat, count: nat)
    requires !TouchesRun(fixed, r, d, count)
    ensures FreeRun(fixed, r, d, count) == r
  {
    var b, i := BitOf(fixed, d), WordOf(fixed, d);
    if b + count <= 32 && i < |r.words| {
      WordBound();
      SameBits(Empty(r.words[i], b, count), r.words[i], BITS);
      assert r.words[i := r.words[i]] == r.words;
    }
  }

  lemma TouchedBit(fixed: bool, r: Region, d: nat, count: nat) returns (x: nat)
    requires TouchesRun(fixed, r, d, count)
    ensures x < 32 * |r.words| && |FreeRun(fixed, r, d, count).words| == |r.words|
    ensures Taken(r.words, x) && !Taken(FreeRun(fixed, r, d, count).words, x)
  {
    var b, i := BitOf(fixed, d), WordOf(fixed, d);
    var f :| b <= f < b + count && Has(r.words[i], f);
    x := 32 * i + f;
    DivisionUnique(x, 32, i, f);
    EmptyGives(r.words, i, b, count, x);
  }

  /** A free at any address leaves every live range alone exactly when it clears no bit that is set. */
  lemma StrayFreeIff(fixed: bool, rs: seq<Region>, now: seq<Region>, caps: seq<nat>, live: set<Range>,
                     addr: u32, count: nat)
    requires Owned(rs, caps, live) && 1 <= count <= 32 && now == Free(fixed, rs, addr, count)
    ensures Owned(now, caps, live) <==> !Touches(fixed, rs, addr, count)
  {
    var k := OwnerOf(fixed, rs, 0, addr);
    if k < |rs| {
      StrayRunIff(fixed, rs, now, caps, live, k, (addr - rs[k].base) / 4096, count);
    }
  }

  lemma StrayRunIff(fixed: bool, rs: seq<Region>, now: seq<Region>, caps: seq<nat>, live: set<Range>,
                    k: nat, d: nat, count: nat)
    requires Owned(rs, caps, live) && k < |rs| && now == rs[k := FreeRun(fixed, rs[k], d, count)]
    ensures Owned(now, caps, live) <==> !TouchesRun(fixed, rs[k], d, count)
  {
    if TouchesRun(fixed, rs[k], d, count) {
      var x := TouchedBit(fixed, rs[k], d, count);
      BitLost(rs, caps, live, k, FreeRun(fixed, rs[k], d, count), x);
    } else {
      UntouchedSame(fixed, rs[k], d, count);
      assert now == rs;
    }
  }

  lemma BitLost(rs: seq<Region>, caps: seq<nat>, live: set<Range>, k: nat, r: Region, x: nat)
    requires Owned(rs, caps, live) && k < |rs| && x < 32 * |rs[k].words| && |r.words| == |rs[k].words|
    requires Taken(rs[k].words, x) && !Taken(r.words, x)
    ensures !Owned(rs[k := r], caps, live)
  {
    assert x >= caps[k] || Covered(live, k, x);
    assert rs[k := r][k] == r;
  }
}
