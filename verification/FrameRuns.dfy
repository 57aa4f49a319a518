/** Whole runs of frame_alloc and frame_free: what they keep, when the frames handed out are frames
    of the regions, and that their addresses then differ. */
module FrameRuns {
  import opened Words
  import opened Bits
  import opened FrameSearch
  import opened Frames
  import opened FrameDecode
  import opened FrameOwnership

  datatype Op = Take(count: nat, alignUp: nat) | Give(g: Range)

  /** A range given back is no longer live, unless it starts at a tail bit: its address is no frame
      of its region, and the range stays marked. */
  ghost function Step(fixed: bool, rs: seq<Region>, live: set<Range>, op: Op): (seq<Region>, set<Range>) {
    match op
    case Take(count, alignUp) =>
      if !AllOk(rs) then (rs, live)
      else
        var (rs', place) := Alloc(fixed, rs, count, alignUp);
        (rs', if place.At? then live + {RangeAt(place, count)} else live)
    case Give(g) =>
      if g.k >= |rs| then (rs, live)
      else (Free(fixed, rs, Wrap(AddressOf(rs, g)), g.count), if g.start < rs[g.k].blocks then live - {g} else live)
  }

  /** Alignments from 2 to 31 are asked only of the corrected frame_alloc. A live range may be given
      back when frame_free, as written or corrected, decodes its frame; a range at a tail bit, when
      what is at its address has no bit to lose. */
  ghost predicate LegalOp(fixed: bool, rs: seq<Region>, live: set<Range>, op: Op) {
    match op
    case Take(count, alignUp) => InStep(fixed, alignUp)
    case Give(g) =>
      && Findable(fixed, rs) && g in live && g.k < |rs|
      && (if g.start < rs[g.k].blocks then Returnable(fixed, rs[g.k], g.start)
          else !Touches(fixed, rs, Wrap(AddressOf(rs, g)), g.count))
  }

  ghost predicate Legal(fixed: bool, rs: seq<Region>, live: set<Range>, ops: seq<Op>)
    decreases ops
  {
    ops == [] ||
    (LegalOp(fixed, rs, live, ops[0]) &&
     var (rs', live') := Step(fixed, rs, live, ops[0]);
     Legal(fixed, rs', live', ops[1..]))
  }

  ghost function Run(fixed: bool, rs: seq<Region>, live: set<Range>, ops: seq<Op>): (seq<Region>, set<Range>)
    decreases ops
  {
    if ops == [] then (rs, live)
    else
      var (rs', live') := Step(fixed, rs, live, ops[0]);
      Run(fixed, rs', live', ops[1..])
  }

  /** The regions are where they were. */
  ghost predicate SameBounds(rs: seq<Region>, rs': seq<Region>) {
    |rs'| == |rs| && forall k :: 0 <= k < |rs| ==> rs'[k].base == rs[k].base && rs'[k].blocks == rs[k].blocks
  }

  lemma StepKeepsBounds(fixed: bool, rs: seq<Region>, live: set<Range>, op: Op)
    ensures SameBounds(rs, Step(fixed, rs, live, op).0)
  {
    if op.Take? && AllOk(rs) && 1 <= op.count <= 32 {
      AllocMarks(fixed, rs, op.count, Alignment(op.alignUp));
    }
  }

  lemma {:induction false} RunKeepsBounds(fixed: bool, rs: seq<Region>, live: set<Range>, ops: seq<Op>)
    ensures SameBounds(rs, Run(fixed, rs, live, ops).0)
    decreases ops
  {
    if ops != [] {
      StepKeepsBounds(fixed, rs, live, ops[0]);
      var (rs', live') := Step(fixed, rs, live, ops[0]);
      RunKeepsBounds(fixed, rs', live', ops[1..]);
    }
  }

  /** Giving back a live range keeps the bitmaps right exactly when it is legal. */
  lemma GiveKeepsOwnedIff(fixed: bool, rs: seq<Region>, caps: seq<nat>, live: set<Range>, g: Range)
    requires Owned(rs, caps, live) && Findable(fixed, rs) && g in live
    ensures var (rs', live') := Step(fixed, rs, live, Give(g));
      Owned(rs', caps, live') <==> LegalOp(fixed, rs, live, Give(g))
  {
    var addr := Wrap(AddressOf(rs, g));
    if g.start < rs[g.k].blocks {
      WrapSmall(AddressOf(rs, g));
      FreeKeepsOwnedIff(fixed, rs, caps, live, g, addr);
    } else {
      StrayFreeIff(fixed, rs, Free(fixed, rs, addr, g.count), caps, live, addr, g.count);
    }
  }

  lemma StepKeepsOwned(fixed: bool, rs: seq<Region>, caps: seq<nat>, live: set<Range>, op: Op)
    requires Owned(rs, caps, live) && LegalOp(fixed, rs, live, op)
    ensures var (rs', live') := Step(fixed, rs, live, op); Owned(rs', caps, live')
  {
    match op {
      case Take(count, alignUp) =>
        if 1 <= count <= 32 {
          AllocKeepsOwned(fixed, rs, caps, live, count, Alignment(alignUp));
        }
      case Give(g) =>
        GiveKeepsOwnedIff(fixed, rs, caps, live, g);
    }
  }

  /** Over any run, live ranges stay disjoint and below the capacities, and the bitmaps say exactly
      which bits are live. With the corrections this takes any alignment and any matching frees of
      frames; without them, alignments 0, 1, or at least 32, and frees of frames that are decoded
      correctly. */
  lemma {:induction false} RunOwned(fixed: bool, rs: seq<Region>, caps: seq<nat>, live: set<Range>, ops: seq<Op>)
    requires Owned(rs, caps, live) && Legal(fixed, rs, live, ops)
    ensures var (rs', live') := Run(fixed, rs, live, ops); Owned(rs', caps, live')
    decreases ops
  {
    if ops != [] {
      StepKeepsOwned(fixed, rs, caps, live, ops[0]);
      var (rs', live') := Step(fixed, rs, live, ops[0]);
      RunOwned(fixed, rs', caps, live', ops[1..]);
    }
  }

  // ---------------------------------------------------------------- inside the regions

  ghost predicate HasRun(r: Region, count: nat, align: nat)
    requires align > 0 && r.Ok()
  {
    !NoRun(r.words, r.hint, |r.words|, count, align)
  }

  /** Region k is the first whose bitmap has a run. */
  ghost predicate IsFirst(rs: seq<Region>, count: nat, align: nat, k: nat)
    requires align > 0 && AllOk(rs) && k < |rs|
  {
    HasRun(rs[k], count, align) && forall j :: 0 <= j < k ==> !HasRun(rs[j], count, align)
  }

  /** From the hint on, some run has `need` frames of the region from its start. */
  ghost predicate FitsWithin(r: Region, count: nat, align: nat, need: nat)
    requires align > 0 && r.Ok()
  {
    exists i, f :: r.hint <= i < |r.words| && 0 <= f < 32 &&
      Suitable(r.words[i], count, align, f) && 32 * i + f + need <= r.blocks
  }

  /** The first region whose bitmap has a run has one with `need` frames. */
  ghost predicate FirstFitsWithin(rs: seq<Region>, count: nat, align: nat, need: nat)
    requires align > 0 && AllOk(rs)
  {
    forall k :: 0 <= k < |rs| && IsFirst(rs, count, align, k) ==> FitsWithin(rs[k], count, align, need)
  }

  /** An answer has `need` frames of its region from its start. */
  predicate Within(rs: seq<Region>, place: Place, need: nat) {
    place.At? ==> place.k < |rs| && 32 * place.i + place.f + need <= rs[place.k].blocks
  }

  /** When frame_alloc's answer consists of frames of the region (need == count), or starts at one
      (need == 1), whatever the tail bits. */
  lemma AllocWithinIff(fixed: bool, rs: seq<Region>, count: nat, align: nat, need: nat)
    requires align > 0 && InStep(fixed, align) && 1 <= count <= BITS && AllOk(rs)
    ensures Within(rs, AllocIn(fixed, rs, count, align).1, need) <==> FirstFitsWithin(rs, count, align, need)
  {
    AllocFirstFit(fixed, rs, count, align);
    var place := AllocIn(fixed, rs, count, align).1;
    if place.At? {
      FirstIsLowest(rs, count, align, need, place);
    }
  }

  lemma FirstIsLowest(rs: seq<Region>, count: nat, align: nat, need: nat, place: Place)
    requires align > 0 && AllOk(rs) && place.At? && FirstFit(rs, count, align, place)
    ensures Within(rs, place, need) <==> FirstFitsWithin(rs, count, align, need)
  {
    var r := rs[place.k];
    assert Suitable(r.words[place.i], count, align, place.f);
    assert HasRun(r, count, align);
    assert FitsWithin(r, count, align, need) <==> Within(rs, place, need);
  }

  /** The request, if it is one, finds a run of the region's own frames first. */
  ghost predicate OpFits(rs: seq<Region>, op: Op)
    requires AllOk(rs)
  {
    op.Take? && 1 <= op.count <= 32 ==> FirstFitsWithin(rs, op.count, Alignment(op.alignUp), op.count)
  }

  ghost predicate FitsThroughout(fixed: bool, rs: seq<Region>, live: set<Range>, ops: seq<Op>)
    decreases ops
  {
    ops != [] && AllOk(rs) ==>
      && OpFits(rs, ops[0])
      && var (rs', live') := Step(fixed, rs, live, ops[0]);
         FitsThroughout(fixed, rs', live', ops[1..])
  }

  ghost predicate AllInside(rs: seq<Region>, live: set<Range>) {
    forall g :: g in live ==> Inside(FrameCounts(rs), g)
  }

  /** At every point of the run, all live ranges are frames of their regions. */
  ghost predicate AlwaysInside(fixed: bool, rs: seq<Region>, live: set<Range>, ops: seq<Op>)
    decreases ops
  {
    && AllInside(rs, live)
    && (ops != [] ==>
         var (rs', live') := Step(fixed, rs, live, ops[0]);
         AlwaysInside(fixed, rs', live', ops[1..]))
  }

  lemma AllocInsideIff(fixed: bool, rs: seq<Region>, caps: seq<nat>, live: set<Range>, count: nat, align: nat)
    requires Owned(rs, caps, live) && align > 0 && InStep(fixed, align) && 1 <= count <= 32
    ensures var place := AllocIn(fixed, rs, count, align).1;
      && (place.At? ==> (Inside(FrameCounts(rs), RangeAt(place, count)) <==> FirstFitsWithin(rs, count, align, count)))
      && (!place.At? ==> FirstFitsWithin(rs, count, align, count))
  {
    AllocWithinIff(fixed, rs, count, align, count);
    AllocFirstFit(fixed, rs, count, align);
    var place := AllocIn(fixed, rs, count, align).1;
    if place.At? {
      AllocatedIsNew(rs, caps, live, count, align, place);
    }
  }

  lemma StepInsideIff(fixed: bool, rs: seq<Region>, caps: seq<nat>, live: set<Range>, op: Op)
    requires Owned(rs, caps, live) && LegalOp(fixed, rs, live, op) && AllInside(rs, live)
    ensures var (rs', live') := Step(fixed, rs, live, op); AllInside(rs', live') <==> OpFits(rs, op)
  {
    StepKeepsBounds(fixed, rs, live, op);
    assert FrameCounts(Step(fixed, rs, live, op).0) == FrameCounts(rs);
    if op.Take? && 1 <= op.count <= 32 {
      AllocInsideIff(fixed, rs, caps, live, op.count, Alignment(op.alignUp));
      var place := AllocIn(fixed, rs, op.count, Alignment(op.alignUp)).1;
      if place.At? {
        var g := RangeAt(place, op.count);
        assert forall h :: h in live + {g} <==> h in live || h == g;
      }
    }
  }

  /** A run hands out frames of the regions only, exactly when at each allocation the first region
      with a run has one among its own frames. */
  lemma {:induction false} RunInsideIff(fixed: bool, rs: seq<Region>, caps: seq<nat>, live: set<Range>, ops: seq<Op>)
    requires Owned(rs, caps, live) && Legal(fixed, rs, live, ops)
    ensures AlwaysInside(fixed, rs, live, ops) <==> AllInside(rs, live) && FitsThroughout(fixed, rs, live, ops)
    decreases ops
  {
    if ops != [] && AllInside(rs, live) {
      StepKeepsOwned(fixed, rs, caps, live, ops[0]);
      StepInsideIff(fixed, rs, caps, live, ops[0]);
      var (rs', live') := Step(fixed, rs, live, ops[0]);
      RunInsideIff(fixed, rs', caps, live', ops[1..]);
    }
  }

  lemma {:induction false} AlwaysThenEnd(fixed: bool, rs: seq<Region>, live: set<Range>, ops: seq<Op>)
    requires AlwaysInside(fixed, rs, live, ops)
    ensures var (rs', live') := Run(fixed, rs, live, ops); AllInside(rs', live')
    decreases ops
  {
    if ops != [] {
      var (rs', live') := Step(fixed, rs, live, ops[0]);
      AlwaysThenEnd(fixed, rs', live', ops[1..]);
    }
  }

  // ---------------------------------------------------------------- addresses

  /** The bytes [a, a + count * 4096) are none of g's. */
  predicate AwayFrom(rs: seq<Region>, a: nat, count: nat, g: Range)
    requires g.k < |rs|
  {
    a + count * 4096 <= AddressOf(rs, g) || AddressOf(rs, g) + g.count * 4096 <= a
  }

  /** No byte of memory is in two live ranges. */
  ghost predicate AddressesDisjoint(rs: seq<Region>, live: set<Range>) {
    forall g, h :: g in live && h in live && g != h ==>
      g.k < |rs| && h.k < |rs| && AwayFrom(rs, AddressOf(rs, g), g.count, h)
  }

  /** Ranges of frames of regions that are apart are apart themselves. */
  lemma OwnedApart(rs: seq<Region>, caps: seq<nat>, live: set<Range>)
    requires Owned(rs, caps, live) && Apart(rs) && AllInside(rs, live)
    ensures AddressesDisjoint(rs, live)
  {
    forall g, h | g in live && h in live && g != h ensures AwayFrom(rs, AddressOf(rs, g), g.count, h) {
      assert Inside(FrameCounts(rs), g) && Inside(FrameCounts(rs), h);
    }
  }

  /** Over any run that hands out frames of the regions only, no byte is ever in two live ranges. */
  lemma RunAddresses(fixed: bool, rs: seq<Region>, caps: seq<nat>, live: set<Range>, ops: seq<Op>)
    requires Owned(rs, caps, live) && Apart(rs) && Legal(fixed, rs, live, ops)
    requires AllInside(rs, live) && FitsThroughout(fixed, rs, live, ops)
    ensures var (rs', live') := Run(fixed, rs, live, ops);
      Owned(rs', caps, live') && AllInside(rs', live') && AddressesDisjoint(rs', live')
  {
    var (rs', live') := Run(fixed, rs, live, ops);
    RunOwned(fixed, rs, caps, live, ops);
    RunInsideIff(fixed, rs, caps, live, ops);
    AlwaysThenEnd(fixed, rs, live, ops);
    RunKeepsBounds(fixed, rs, live, ops);
    BoundsApart(rs, rs');
    OwnedApart(rs', caps, live');
  }

  lemma BoundsApart(rs: seq<Region>, rs': seq<Region>)
    requires Apart(rs) && SameBounds(rs, rs')
    ensures Apart(rs')
  {
  }
}
