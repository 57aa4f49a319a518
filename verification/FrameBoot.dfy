/** The bitmaps boot leaves, tail bits clear, as the start of runs: what such runs keep, when they
    stay inside the regions, and when no byte of memory is handed out twice. */
module FrameBoot {
  import opened Words
  import opened Bits
  import opened FrameSearch
  import opened Frames
  import opened FrameDecode
  import opened FrameOwnership
  import opened FrameRuns

  /** A region as boot leaves it: every bitmap word zero, the tail bits too. */
  function Boot(base: u32, blocks: nat): (r: Region)
    requires 0 < base && base + blocks * 4096 <= TWO32
    ensures r.Ok() && r.base == base && r.blocks == blocks
  {
    Region(base, blocks, seq(blocks / 32 + 1, _ => 0), 0)
  }

  ghost predicate AsBooted(rs: seq<Region>) {
    AllOk(rs) && forall k :: 0 <= k < |rs| ==> rs[k] == Boot(rs[k].base, rs[k].blocks)
  }

  lemma BootIsClear(base: u32, blocks: nat, x: nat)
    requires 0 < base && base + blocks * 4096 <= TWO32 && x < 32 * (blocks / 32 + 1)
    ensures !Taken(Boot(base, blocks).words, x)
  {
    ZeroHas(x % 32);
  }

  /** A region whose tail bits are set and whose frames are all free. */
  function Sealed(base: u32, blocks: nat): Region
    requires 0 < base && base + blocks * 4096 <= TWO32
  {
    var r := Boot(base, blocks);
    r.(words := r.words[blocks / 32 := Fill(0, blocks % 32, 32 - blocks % 32)])
  }

  /** Such a region starts the ownership runs that stay inside it; the region boot leaves, with
      clear tail bits, never does. */
  lemma SealedIsOwned(base: u32, blocks: nat)
    requires 0 < base && base + blocks * 4096 <= TWO32
    ensures var rs := [Sealed(base, blocks)]; Owned(rs, FrameCounts(rs), {}) && Apart(rs)
    ensures var rs := [Boot(base, blocks)]; !Owned(rs, FrameCounts(rs), {})
  {
    var r, b := Sealed(base, blocks), Boot(base, blocks);
    forall x | 0 <= x < 32 * |b.words| ensures !Taken(b.words, x) && (Taken(r.words, x) <==> x >= blocks) {
      BootIsClear(base, blocks, x);
      FillTakes(b.words, blocks / 32, blocks % 32, 32 - blocks % 32, x);
      assert blocks == 32 * (blocks / 32) + blocks % 32;
    }
    assert [r][0] == r && [b][0] == b;
    assert !Taken([b][0].words, blocks);
  }

  lemma BootIsOwned(rs: seq<Region>)
    requires AsBooted(rs)
    ensures Owned(rs, BitCounts(rs), {})
  {
    forall k, x | 0 <= k < |rs| && 0 <= x < 32 * |rs[k].words| ensures !Taken(rs[k].words, x) {
      BootIsClear(rs[k].base, rs[k].blocks, x);
    }
  }

  /** From boot, over any chain of regions and any run: live ranges are disjoint and a bit is set
      exactly when it is in one of them. They are always frames of their regions exactly when at
      each allocation the first region with a run has one among its own frames; and then, if the
      regions are apart, no byte of memory is in two of them. */
  lemma BootRunOwned(fixed: bool, rs: seq<Region>, ops: seq<Op>)
    requires AsBooted(rs) && Legal(fixed, rs, {}, ops)
    ensures var (rs', live') := Run(fixed, rs, {}, ops);
      && Owned(rs', BitCounts(rs), live')
      && (AlwaysInside(fixed, rs, {}, ops) <==> FitsThroughout(fixed, rs, {}, ops))
      && (Apart(rs) && FitsThroughout(fixed, rs, {}, ops) ==> AddressesDisjoint(rs', live'))
  {
    BootIsOwned(rs);
    RunOwned(fixed, rs, BitCounts(rs), {}, ops);
    RunInsideIff(fixed, rs, BitCounts(rs), {}, ops);
    if Apart(rs) && FitsThroughout(fixed, rs, {}, ops) {
      RunAddresses(fixed, rs, BitCounts(rs), {}, ops);
    }
  }

  // ---------------------------------------------------------------- frames handed out twice

  /** The first word of a lone region serves the request. */
  lemma FirstWordServes(r: Region, count: nat, align: nat)
    requires r.Ok() && r.hint == 0 && align > 0 && 1 <= count <= BITS
    requires Search(false, r.words[0], count, align).found < BITS
    ensures var f := Search(false, r.words[0], count, align).found;
      f + count <= BITS && AllocIn(false, [r], count, align) ==
        ([r.(words := r.words[0 := Fill(r.words[0], f, count)])], At(0, 0, f))
  {
    FoundSaw(false, r.words[0], count, align);
    ScanFits(false, r.words[0], count, align, 0, 1, 0, 0, false);
    assert [r][0] == r;
    assert FirstWord(false, r.words, 0, count, align) == 0 == FirstSeen(false, r.words, 0, count, align);
    assert FirstRegion(false, [r], 0, count, align) == 0;
    assert Partly(false, [r], 0, count, align) == [r];
    assert Partly(false, [r], 1, count, align) == [Outcome(false, r, count, align)];
  }

  /** From boot, the first single frame. */
  lemma FirstFrame(base: u32, blocks: nat)
    requires 0 < base && base + blocks * 4096 <= TWO32
    ensures var r := Boot(base, blocks);
      && AllocIn(false, [r], 1, 1) == ([TakeFrame(r, 0)], At(0, 0, 0)) && Primed(TakeFrame(r, 0))
  {
    var r := Boot(base, blocks);
    assert !Has(0, 0) && !Has(0, 1) by {
      ZeroHas(0);
      ZeroHas(1);
    }
    SingleSearch(false, 0);
    FirstWordServes(r, 1, 1);
  }

  /** The region with frame f < 32 marked. */
  function TakeFrame(r: Region, f: nat): Region
    requires r.Ok() && f < 32
  {
    r.(words := r.words[0 := Fill(r.words[0], f, 1)])
  }

  /** Frame 0 is taken, frame 1 is not, and the search starts at word 0. */
  ghost predicate Primed(r: Region) {
    r.Ok() && r.hint == 0 && Has(r.words[0], 0) && !Has(r.words[0], 1)
  }

  lemma AlignedFrame(r: Region, align: nat)
    requires Primed(r) && 2 <= align < BITS
    ensures AllocIn(false, [r], 1, align) == ([TakeFrame(r, align)], At(0, 0, align))
    ensures Primed(TakeFrame(r, align)) && Has(TakeFrame(r, align).words[0], align)
  {
    SkipsToAlignment(r.words[0], align);
    FirstWordServes(r, 1, align);
  }

  lemma TakenAlready(r: Region, f: nat)
    requires r.Ok() && f < BITS && Has(r.words[0], f)
    ensures TakeFrame(r, f) == r
  {
    WordBound();
    SameBits(Fill(r.words[0], f, 1), r.words[0], BITS);
    assert r.words[0 := r.words[0]] == r.words;
  }

  /** From boot, one frame and then one frame at an alignment from 2 to 31, asked for twice: both
      times the answer is frame `align`. */
  lemma SameFrameTwice(base: u32, blocks: nat, align: nat)
    requires 0 < base && base + blocks * 4096 <= TWO32 && 2 <= align < BITS
    ensures var rs1 := Alloc(false, [Boot(base, blocks)], 1, 0).0;
      && AllOk(rs1)
      && var (rs2, place) := Alloc(false, rs1, 1, align);
         && place == At(0, 0, align) && AllOk(rs2)
         && Alloc(false, rs2, 1, align) == (rs2, place)
  {
    FirstFrame(base, blocks);
    var r1 := TakeFrame(Boot(base, blocks), 0);
    AlignedFrame(r1, align);
    var r2 := TakeFrame(r1, align);
    AlignedFrame(r2, align);
    TakenAlready(r2, align);
  }

  /** Every allocation of the run, as written, yields memory that no live range has. */
  ghost predicate Disjointly(rs: seq<Region>, live: set<Range>, ops: seq<Op>)
    decreases ops
  {
    ops != [] && AllOk(rs) ==>
      && (ops[0].Take? ==> NewMemory(rs, live, Alloc(false, rs, ops[0].count, ops[0].alignUp).1, ops[0].count))
      && var (rs', live') := Step(false, rs, live, ops[0]);
         Disjointly(rs', live', ops[1..])
  }

  /** The bytes from the answer on are in no live range. */
  ghost predicate NewMemory(rs: seq<Region>, live: set<Range>, place: Place, count: nat) {
    place.At? ==> forall g :: g in live && g.k < |rs| ==> AwayFrom(rs, Returned(rs, place), count, g)
  }

  /** Only allocations, at alignment 0 or `align`. */
  ghost predicate Asks(ops: seq<Op>, align: nat) {
    forall i :: 0 <= i < |ops| ==> ops[i].Take? && (ops[i].alignUp == 0 || ops[i].alignUp == align)
  }

  lemma {:induction false} RunDisjoint(rs: seq<Region>, caps: seq<nat>, live: set<Range>, ops: seq<Op>, align: nat)
    requires Owned(rs, caps, live) && Apart(rs) && AllInside(rs, live)
    requires Asks(ops, align) && InStep(false, align) && FitsThroughout(false, rs, live, ops)
    ensures Disjointly(rs, live, ops)
    decreases ops
  {
    if ops != [] {
      assert Asks(ops[1..], align) by {
        assert forall i :: 0 <= i < |ops| - 1 ==> ops[1..][i] == ops[i + 1];
      }
      assert LegalOp(false, rs, live, ops[0]);
      StepKeepsOwned(false, rs, caps, live, ops[0]);
      StepInsideIff(false, rs, caps, live, ops[0]);
      StepKeepsBounds(false, rs, live, ops[0]);
      var (rs', live') := Step(false, rs, live, ops[0]);
      BoundsApart(rs, rs');
      OwnedApart(rs', caps, live');
      AllocIsNew(rs, caps, live, ops[0].count, ops[0].alignUp);
      RunDisjoint(rs', caps, live', ops[1..], align);
    }
  }

  lemma AllocIsNew(rs: seq<Region>, caps: seq<nat>, live: set<Range>, count: nat, alignUp: nat)
    requires Owned(rs, caps, live) && Apart(rs) && AllInside(rs, live)
    requires InStep(false, alignUp) && OpFits(rs, Take(count, alignUp))
    ensures NewMemory(rs, live, Alloc(false, rs, count, alignUp).1, count)
  {
    if 1 <= count <= 32 {
      AllocFirstFit(false, rs, count, Alignment(alignUp));
      AllocWithinIff(false, rs, count, Alignment(alignUp), count);
      var place := Alloc(false, rs, count, alignUp).1;
      if place.At? {
        AllocatedIsNew(rs, caps, live, count, Alignment(alignUp), place);
        NewIsAway(rs, live, place, count);
      }
    }
  }

  lemma NewIsAway(rs: seq<Region>, live: set<Range>, place: Place, count: nat)
    requires AllOk(rs) && Apart(rs) && AllInside(rs, live)
    requires place.At? && count >= 1 && Within(rs, place, count) && place.k < |rs|
    requires forall x :: RangeAt(place, count).Has(x) ==> !Covered(live, place.k, x)
    ensures NewMemory(rs, live, place, count)
  {
    var d := 32 * place.i + place.f;
    AddressIs(rs[place.k], d, Returned(rs, place));
    forall g | g in live && g.k < |rs| ensures AwayFrom(rs, Returned(rs, place), count, g) {
      assert Inside(FrameCounts(rs), g);
      if g.k == place.k {
        RangesAway(live, g, RangeAt(place, count));
      }
    }
  }

  lemma RangesAway(live: set<Range>, g: Range, h: Range)
    requires g in live && g.count >= 1 && h.count >= 1 && g.k == h.k
    requires forall x :: h.Has(x) ==> !Covered(live, h.k, x)
    ensures g.start + g.count <= h.start || h.start + h.count <= g.start
  {
    if g.start <= h.start < g.start + g.count {
      assert h.Has(h.start) && g.Has(h.start);
    } else if h.start <= g.start < h.start + h.count {
      assert h.Has(g.start) && g.Has(g.start);
    }
  }

  lemma LastCollides(rs: seq<Region>, live: set<Range>, align: nat)
    requires AllOk(rs) && |rs| == 1 && rs[0].base + (align + 1) * 4096 <= TWO32
    requires Alloc(false, rs, 1, align).1 == At(0, 0, align) && Range(0, align, 1) in live
    ensures !Disjointly(rs, live, [Take(1, align)])
  {
    SameAddress(rs, live, align);
  }

  lemma SameAddress(rs: seq<Region>, live: set<Range>, align: nat)
    requires |rs| == 1 && rs[0].base + (align + 1) * 4096 <= TWO32 && Range(0, align, 1) in live
    ensures !NewMemory(rs, live, At(0, 0, align), 1)
  {
    WrapSmall(rs[0].base + align * 4096);
    assert Returned(rs, At(0, 0, align)) == AddressOf(rs, Range(0, align, 1));
  }

  /** If the tail of a run collides, the run does. */
  lemma CollidesLater(rs: seq<Region>, live: set<Range>, op: Op, ops: seq<Op>)
    requires AllOk(rs)
    requires !Disjointly(Step(false, rs, live, op).0, Step(false, rs, live, op).1, ops)
    ensures !Disjointly(rs, live, [op] + ops)
  {
    assert ([op] + ops)[1..] == ops;
  }

  lemma PairCollides(rs: seq<Region>, rs': seq<Region>, live: set<Range>, align: nat)
    requires AllOk(rs) && AllOk(rs') && Alloc(false, rs, 1, align) == (rs', At(0, 0, align))
    requires |rs'| == 1 && rs'[0].base + (align + 1) * 4096 <= TWO32
    requires Alloc(false, rs', 1, align).1 == At(0, 0, align)
    ensures !Disjointly(rs, live, [Take(1, align)] + [Take(1, align)])
  {
    assert RangeAt(At(0, 0, align), 1) == Range(0, align, 1);
    LastCollides(rs', live + {Range(0, align, 1)}, align);
    CollidesLater(rs, live, Take(1, align), [Take(1, align)]);
  }

  /** One frame, then one at the alignment, twice. */
  function Thrice(align: nat): seq<Op> { [Take(1, 0)] + ([Take(1, align)] + [Take(1, align)]) }

  lemma ThriceCollides(base: u32, blocks: nat, align: nat)
    requires 0 < base && base + blocks * 4096 <= TWO32 && 2 <= align < BITS && align < blocks
    ensures !Disjointly([Boot(base, blocks)], {}, Thrice(align))
  {
    SameFrameTwice(base, blocks, align);
    var rs := [Boot(base, blocks)];
    var (rs1, live1) := Step(false, rs, {}, Take(1, 0));
    var rs2 := Alloc(false, rs1, 1, align).0;
    AllocMarks(false, rs, 1, 1);
    AllocMarks(false, rs1, 1, align);
    PairCollides(rs1, rs2, live1, align);
    CollidesLater(rs, {}, Take(1, 0), [Take(1, align)] + [Take(1, align)]);
  }

  // ---------------------------------------------------------------- the run of three fits

  /** Word 1 is clear and holds frames of the region. */
  ghost predicate Roomy(r: Region) {
    r.Ok() && r.hint == 0 && |r.words| > 1 && r.words[1] == 0 && r.blocks > 32
  }

  lemma RoomyFits(r: Region, align: nat)
    requires Roomy(r) && align > 0
    ensures FirstFitsWithin([r], 1, align, 1)
  {
    ZeroHas(0);
    assert Suitable(r.words[1], 1, align, 0);
    assert [r][0] == r;
  }

  lemma ThriceFits(base: u32, blocks: nat, align: nat)
    requires 0 < base && base + blocks * 4096 <= TWO32 && 2 <= align < BITS && blocks > 32
    ensures FitsThroughout(false, [Boot(base, blocks)], {}, Thrice(align))
  {
    FirstFrame(base, blocks);
    var r := Boot(base, blocks);
    var r1 := TakeFrame(r, 0);
    AlignedFrame(r1, align);
    var r2 := TakeFrame(r1, align);
    RoomyFits(r, 1);
    RoomyFits(r1, align);
    RoomyFits(r2, align);
    var none: set<Range> := {};
    var live1 := none + {Range(0, 0, 1)};
    var live2 := live1 + {Range(0, align, 1)};
    StepTakes(r, none, 0, r1, 0);
    StepTakes(r1, live1, align, r2, align);
    FitsLast(r2, live2, align);
    FitsLater([r1], live1, Take(1, align), [Take(1, align)], [r2], live2);
    FitsLater([r], none, Take(1, 0), [Take(1, align)] + [Take(1, align)], [r1], live1);
  }

  lemma StepTakes(r: Region, live: set<Range>, alignUp: nat, r': Region, f: nat)
    requires r.Ok() && AllocIn(false, [r], 1, Alignment(alignUp)) == ([r'], At(0, 0, f))
    ensures Step(false, [r], live, Take(1, alignUp)) == ([r'], live + {Range(0, f, 1)})
  {
    assert RangeAt(At(0, 0, f), 1) == Range(0, f, 1);
  }

  lemma FitsLast(r: Region, live: set<Range>, align: nat)
    requires Roomy(r) && align > 0 && FirstFitsWithin([r], 1, align, 1)
    ensures FitsThroughout(false, [r], live, [Take(1, align)])
  {
  }

  lemma FitsLater(rs: seq<Region>, live: set<Range>, op: Op, ops: seq<Op>, rs': seq<Region>, live': set<Range>)
    requires AllOk(rs) && OpFits(rs, op) && Step(false, rs, live, op) == (rs', live')
    requires FitsThroughout(false, rs', live', ops)
    ensures FitsThroughout(false, rs, live, [op] + ops)
  {
    assert ([op] + ops)[1..] == ops;
  }

  // ---------------------------------------------------------------- the alignments that are safe

  /** From boot, regions being apart, no run of allocations at this alignment, with unaligned ones
      between, hands out a byte of memory twice, as long as it hands out frames of the regions. */
  ghost predicate NeverTwice(align: nat) {
    forall rs, ops :: AsBooted(rs) && Apart(rs) && Asks(ops, align) && FitsThroughout(false, rs, {}, ops) ==>
      Disjointly(rs, {}, ops)
  }

  lemma ThriceIsRun(align: nat)
    ensures AsBooted([Boot(4096, 64)]) && Apart([Boot(4096, 64)]) && Asks(Thrice(align), align)
  {
  }

  /** Without corrections, that is so exactly when the alignment is not in 2..31. */
  lemma NeverTwiceIff(align: nat)
    ensures NeverTwice(align) <==> align <= 1 || align >= BITS
  {
    if align <= 1 || align >= BITS {
      forall rs, ops | AsBooted(rs) && Apart(rs) && Asks(ops, align) && FitsThroughout(false, rs, {}, ops)
        ensures Disjointly(rs, {}, ops)
      {
        BootIsOwned(rs);
        RunDisjoint(rs, BitCounts(rs), {}, ops, align);
      }
    } else {
      Twice(align);
    }
  }

  lemma Twice(align: nat)
    requires 2 <= align < BITS
    ensures !NeverTwice(align)
  {
    var rs, ops := [Boot(4096, 64)], Thrice(align);
    ThriceIsRun(align);
    ThriceFits(4096, 64, align);
    ThriceCollides(4096, 64, align);
    assert AsBooted(rs) && Apart(rs) && Asks(ops, align) && !Disjointly(rs, {}, ops);
  }

  // ---------------------------------------------------------------- what tail bits do

  /** A region of 30 frames, its bitmap in the page behind them, and another region from the next
      page on. */
  ghost predicate Neighbours(rs: seq<Region>, base: u32) {
    && 0 < base && base + 95 * 4096 <= TWO32
    && |rs| == 2 && rs[0] == Boot(base, 30) && rs[1] == Boot(base + 31 * 4096, 64)
  }

  /** A region with a single clear word, followed by one whose first word is clear. */
  ghost predicate ShortThenClear(rs: seq<Region>) {
    && AllOk(rs) && |rs| == 2
    && |rs[0].words| == 1 && rs[0].words[0] == 0
    && rs[1].hint == 0 && rs[1].words[0] == 0
  }

  lemma TakesShort(rs: seq<Region>, count: nat, align: nat)
    requires ShortThenClear(rs) && count == BITS && align == 1
    ensures var (rs1, place) := AllocIn(false, rs, count, align);
      && place == At(0, 0, 0) && AllOk(rs1) && |rs1| == 2
      && rs1[1] == rs[1] && rs1[0].base == rs[0].base
      && |rs1[0].words| == 1 && AllSet(rs1[0].words[0])
  {
    EmptyWordFits(rs[0].words[0], count, align);
    AllocFirstFit(false, rs, count, align);
    AllocMarks(false, rs, count, align);
    PartlyAt(false, rs, 1, count, align, 1);
  }

  lemma TakesNext(rs: seq<Region>, count: nat, align: nat)
    requires AllOk(rs) && |rs| == 2 && |rs[0].words| == 1 && AllSet(rs[0].words[0])
    requires rs[1].hint == 0 && rs[1].words[0] == 0 && count == 1 && align == 1
    ensures AllocIn(false, rs, count, align).1 == At(1, 0, 0)
  {
    EmptyWordFits(rs[1].words[0], count, align);
    AllocFirstFit(false, rs, count, align);
    forall f | 0 <= f < 32 ensures !Suitable(rs[0].words[0], count, align, f) {
      assert Has(rs[0].words[0], f);
    }
  }

  lemma NeighboursClear(rs: seq<Region>, base: u32)
    requires Neighbours(rs, base)
    ensures ShortThenClear(rs) && AsBooted(rs) && Apart(rs) && rs[1].base == rs[0].base + 31 * 4096
  {
  }

  lemma FirstAddress(rs: seq<Region>, k: nat)
    requires k < |rs|
    ensures Returned(rs, At(k, 0, 0)) == rs[k].base
  {
    WrapSmall(rs[k].base);
  }

  /** Regions being apart does not suffice: from boot, 32 frames and then one, both unaligned. The
      first answer takes the tail bits of the first region, and its last page is the second answer. */
  lemma TailSharesAddress(rs: seq<Region>, base: u32, many: nat, one: nat)
    requires Neighbours(rs, base) && many == 32 && one == 1
    ensures AsBooted(rs) && Apart(rs)
    ensures var (rs1, p1) := Alloc(false, rs, many, 0);
      && AllOk(rs1) && p1 == At(0, 0, 0)
      && var p2 := Alloc(false, rs1, one, 0).1;
         p2 == At(1, 0, 0) && Returned(rs1, p2) == Returned(rs, p1) + 31 * 4096
  {
    NeighboursClear(rs, base);
    TakesShort(rs, many, Alignment(0));
    var rs1 := AllocIn(false, rs, many, Alignment(0)).0;
    TakesNext(rs1, one, Alignment(0));
    FirstAddress(rs, 0);
    FirstAddress(rs1, 1);
  }

  lemma EmptyWordFits(w: u32, count: nat, align: nat)
    requires w == 0 && count <= 32 && align == 1
    ensures Suitable(w, count, align, 0)
  {
    forall k | 0 <= k < count ensures !Has(w, k) {
      ZeroHas(k);
    }
  }
}
