/** What boot hands to the two allocators: which maps of memory give a heap and regions that lie
    where they should, and what the frame allocator makes of such regions. */
module BootMap {
  import opened Words
  import opened RegionSetup
  import opened MemoryMap
  import opened Frames
  import opened FrameDecode
  import opened FrameOwnership
  import opened FrameRuns
  import opened FrameBoot

  /** The entries boot looks at. */
  function Available(es: seq<MapEntry>): seq<Chunk> {
    if es == [] then []
    else
      var before, e := Available(es[..|es| - 1]), es[|es| - 1];
      if e.available then before + [e.chunk] else before
  }

  /** Entry i is set up knowing whether an earlier one gave up the heap. */
  lemma {:induction false} MadeAt(es: seq<MapEntry>, kernelEnd: u32, i: nat)
    requires i < |Made(es, kernelEnd)|
    ensures |Available(es)| == |Made(es, kernelEnd)|
    ensures Made(es, kernelEnd)[i] == Init(Available(es)[i], kernelEnd, HasHeap(Made(es, kernelEnd)[..i]))
  {
    var before, e := es[..|es| - 1], es[|es| - 1];
    var made := Made(before, kernelEnd);
    SameLength(es, kernelEnd);
    SameLength(before, kernelEnd);
    if i < |made| {
      MadeAt(before, kernelEnd, i);
      assert Made(es, kernelEnd)[..i] == made[..i];
    } else {
      assert Made(es, kernelEnd)[..i] == made;
    }
  }

  lemma {:induction false} SameLength(es: seq<MapEntry>, kernelEnd: u32)
    ensures |Available(es)| == |Made(es, kernelEnd)|
  {
    if es != [] {
      SameLength(es[..|es| - 1], kernelEnd);
    }
  }

  /** No entry reaches the end of the address space. */
  ghost predicate Bounded(es: seq<MapEntry>) {
    forall i :: 0 <= i < |Available(es)| ==> Available(es)[i].addr + Available(es)[i].len < TWO32
  }

  ghost predicate Separated(es: seq<MapEntry>) {
    forall i, j :: 0 <= i < j < |Available(es)| ==>
      var a, b := Available(es)[i], Available(es)[j];
      a.addr + a.len <= b.addr || b.addr + b.len <= a.addr
  }

  // ---------------------------------------------------------------- which maps are set up right

  /** What is made of the entry lies in it, behind the kernel, and in order. */
  ghost predicate Right(e: Chunk, kernelEnd: u32, s: Setup) {
    && (s.carved ==> e.addr <= s.heap && kernelEnd <= s.heap && s.heap + MB <= e.addr + e.len)
    && (s.accepted ==> LaidOut(e, kernelEnd, s))
  }

  /** If anything is made of the entry, it contains the kernel's end, and has room for a bitmap. */
  predicate Fit(e: Chunk, kernelEnd: u32, heapReady: bool) {
    var s := Init(e, kernelEnd, heapReady);
    && (s.carved || s.accepted ==> AtKernelEnd(e, kernelEnd))
    && (s.accepted ==> PageCeil(Behind(e, kernelEnd, heapReady)) + 4 <= e.addr + e.len)
  }

  lemma RightIff(e: Chunk, kernelEnd: u32, heapReady: bool)
    requires MB <= kernelEnd <= TWO31 && e.addr + e.len < TWO32
    ensures Right(e, kernelEnd, Init(e, kernelEnd, heapReady)) <==> Fit(e, kernelEnd, heapReady)
  {
    InitLaysOutIff(e, kernelEnd, heapReady);
    if AtKernelEnd(e, kernelEnd) {
      CutsLeave(e, kernelEnd);
      InitHeap(e, kernelEnd, heapReady);
    } else {
      ElsewhereHeap(e, kernelEnd, heapReady, Init(e, kernelEnd, heapReady));
    }
  }

  ghost predicate MapRight(es: seq<MapEntry>, kernelEnd: u32) {
    |Available(es)| == |Made(es, kernelEnd)| &&
    forall i :: 0 <= i < |Available(es)| ==> Right(Available(es)[i], kernelEnd, Made(es, kernelEnd)[i])
  }

  ghost predicate MapFits(es: seq<MapEntry>, kernelEnd: u32) {
    |Available(es)| == |Made(es, kernelEnd)| &&
    forall i :: 0 <= i < |Available(es)| ==> Fit(Available(es)[i], kernelEnd, HasHeap(Made(es, kernelEnd)[..i]))
  }

  /** Boot sets up a whole map as meant exactly when it makes nothing of an entry that does not
      contain the kernel's end, and no region without room for its bitmap. */
  lemma MapRightIff(es: seq<MapEntry>, kernelEnd: u32)
    requires MB <= kernelEnd <= TWO31 && Bounded(es)
    ensures MapRight(es, kernelEnd) <==> MapFits(es, kernelEnd)
  {
    SameLength(es, kernelEnd);
    forall i | 0 <= i < |Available(es)|
      ensures Right(Available(es)[i], kernelEnd, Made(es, kernelEnd)[i])
        <==> Fit(Available(es)[i], kernelEnd, HasHeap(Made(es, kernelEnd)[..i]))
    {
      MadeAt(es, kernelEnd, i);
      RightIff(Available(es)[i], kernelEnd, HasHeap(Made(es, kernelEnd)[..i]));
    }
  }

  /** Entry i contains the kernel's end with room for a bitmap, and all others end below 1 MiB. */
  ghost predicate Ordinary(es: seq<MapEntry>, kernelEnd: u32, i: nat) {
    && i < |Available(es)|
    && (forall j :: 0 <= j < |Available(es)| && j != i ==> Available(es)[j].addr + Available(es)[j].len < 0x10_0000)
    && AtKernelEnd(Available(es)[i], kernelEnd)
    && PageCeil(Behind(Available(es)[i], kernelEnd, false)) + 4 <= Available(es)[i].addr + Available(es)[i].len
  }

  lemma LowMakesNothing(es: seq<MapEntry>, kernelEnd: u32, j: nat)
    requires MB <= kernelEnd <= TWO31 && Bounded(es) && j < |Made(es, kernelEnd)| == |Available(es)|
    requires Available(es)[j].addr + Available(es)[j].len < 0x10_0000
    ensures !Made(es, kernelEnd)[j].carved && !Made(es, kernelEnd)[j].accepted
  {
    MadeAt(es, kernelEnd, j);
    BelowNothing(Available(es)[j], kernelEnd, HasHeap(Made(es, kernelEnd)[..j]));
  }

  /** Boot sets up such a map as meant, from its addresses alone; the one entry becomes the region,
      and gives up the heap if it has 1 MiB behind the kernel. */
  lemma OrdinaryMapFits(es: seq<MapEntry>, kernelEnd: u32, i: nat)
    requires MB <= kernelEnd <= TWO31 && Bounded(es) && Ordinary(es, kernelEnd, i)
    ensures MapFits(es, kernelEnd) && i < |Made(es, kernelEnd)|
    ensures var s, e := Made(es, kernelEnd)[i], Available(es)[i];
      s.accepted && (s.carved <==> e.addr + e.len - kernelEnd >= 0x10_0000)
  {
    SameLength(es, kernelEnd);
    var made := Made(es, kernelEnd);
    HasHeapIff(made[..i]);
    forall j | 0 <= j < i ensures !made[..i][j].carved {
      LowMakesNothing(es, kernelEnd, j);
    }
    MadeAt(es, kernelEnd, i);
    InitMakesIff(Available(es)[i], kernelEnd, false, made[i]);
    AtKernelEndGives(Available(es)[i], kernelEnd);
    forall j | 0 <= j < |made| ensures Fit(Available(es)[j], kernelEnd, HasHeap(made[..j])) {
      MadeAt(es, kernelEnd, j);
      if j != i {
        LowMakesNothing(es, kernelEnd, j);
      }
    }
  }

  lemma AtKernelEndGives(e: Chunk, kernelEnd: u32)
    requires MB <= kernelEnd <= TWO31 && AtKernelEnd(e, kernelEnd) && e.addr + e.len < TWO32
    requires PageCeil(Behind(e, kernelEnd, false)) + 4 <= e.addr + e.len
    ensures GivesRegion(e, kernelEnd, false)
    ensures GivesHeap(e, kernelEnd, false) <==> e.addr + e.len - kernelEnd >= 0x10_0000
  {
  }

  // ---------------------------------------------------------------- a second region

  /** A region without the heap in front of it starts within a page of the kernel's end, or below. */
  lemma StartsLow(e: Chunk, kernelEnd: u32, heapReady: bool)
    requires MB <= kernelEnd <= TWO31 && e.addr + e.len < TWO32
    ensures var s := Init(e, kernelEnd, heapReady);
      s.accepted && !s.carved ==>
        s.frames < kernelEnd + 4096 && (e.addr + e.len > kernelEnd ==> kernelEnd <= s.frames)
  {
    WrapSmall(e.addr + e.len);
    if e.addr + e.len >= MB {
      InitHeap(e, kernelEnd, heapReady);
      CutLowIs(e);
      PageUpIff(CutKernel(CutLow(e), kernelEnd).addr);
    }
  }

  /** The region behind the heap. */
  lemma StartsBehindHeap(e: Chunk, kernelEnd: u32, heapReady: bool)
    requires MB <= kernelEnd <= TWO31 && AtKernelEnd(e, kernelEnd) && e.addr + e.len < TWO32
    ensures var s := Init(e, kernelEnd, heapReady);
      s.carved ==> s.heap == kernelEnd && (s.accepted ==> kernelEnd + MB <= s.frames)
  {
    CutsLeave(e, kernelEnd);
    InitHeap(e, kernelEnd, heapReady);
    var b := Chunk(kernelEnd, e.addr + e.len - kernelEnd);
    HeapLeaves(b, heapReady);
    PageUpIff(AfterHeap(b, heapReady).addr);
  }

  /** Once the entry with the kernel's end has given up the heap, the regions keep clear of it
      exactly when that entry is the only one a region is made of. A further entry that ends above
      the kernel is moved down onto the heap. */
  lemma ClearOfHeapIff(es: seq<MapEntry>, kernelEnd: u32, i: nat)
    requires MB <= kernelEnd <= TWO31 && Bounded(es)
    requires i < |Made(es, kernelEnd)| == |Available(es)|
    requires Made(es, kernelEnd)[i].carved && AtKernelEnd(Available(es)[i], kernelEnd)
    ensures var made := Made(es, kernelEnd);
      && ((forall j :: 0 <= j < |made| && made[j].accepted ==> made[i].heap + MB <= made[j].frames)
          <==> (forall j :: 0 <= j < |made| && made[j].accepted ==> j == i))
      && (forall j :: 0 <= j < |made| && made[j].accepted && j != i
                      && Available(es)[j].addr + Available(es)[j].len > kernelEnd ==>
            made[i].heap <= made[j].frames < made[i].heap + MB)
  {
    var made := Made(es, kernelEnd);
    MadeAt(es, kernelEnd, i);
    StartsBehindHeap(Available(es)[i], kernelEnd, HasHeap(made[..i]));
    forall j | 0 <= j < |made| && made[j].accepted && j != i
      ensures made[j].frames < made[i].heap + MB
      ensures Available(es)[j].addr + Available(es)[j].len > kernelEnd ==> made[i].heap <= made[j].frames
    {
      OneHeap(es, kernelEnd, if i < j then i else j, if i < j then j else i);
      MadeAt(es, kernelEnd, j);
      StartsLow(Available(es)[j], kernelEnd, HasHeap(made[..j]));
    }
  }

  // ---------------------------------------------------------------- the hand-over

  /** The address frame_alloc hands out for the first tail bit is that of the bitmap itself. */
  lemma TailIsBitmap(start: u32, blocks: u32)
    ensures Address(start, blocks / 32, blocks % 32) == BitmapAt(start, blocks)
  {
    assert blocks / 32 * 32 + blocks % 32 == blocks;
  }

  predicate Usable(s: Setup) {
    0 < s.frames && s.frames + s.blocks * 4096 <= TWO32
  }

  function RegionOf(s: Setup): (r: Region)
    requires Usable(s)
    ensures r.Ok() && r == Boot(s.frames, s.blocks)
  {
    Boot(s.frames, s.blocks)
  }

  predicate AllUsable(ss: seq<Setup>) {
    forall k :: 0 <= k < |ss| ==> Usable(ss[k])
  }

  /** The chain the frame allocator starts with. */
  function Chained(ss: seq<Setup>): (rs: seq<Region>)
    requires AllUsable(ss)
    ensures |rs| == |ss| && forall k :: 0 <= k < |ss| ==> rs[k] == RegionOf(ss[k])
  {
    seq(|ss|, k requires 0 <= k < |ss| => RegionOf(ss[k]))
  }

  lemma ChainedIs(ss: seq<Setup>)
    requires AllUsable(ss) && |ss| <= 1
    ensures AsBooted(Chained(ss)) && Apart(Chained(ss))
  {
  }

  lemma {:induction false} RegionFrom(made: seq<Setup>, k: nat) returns (j: nat)
    requires k < |Regions(made)|
    ensures j < |made| && made[j].accepted && made[j] == Regions(made)[k]
  {
    var before := made[..|made| - 1];
    if k < |Regions(before)| {
      j := RegionFrom(before, k);
    } else {
      j := |made| - 1;
    }
  }

  /** At most one entry yields a region. */
  ghost predicate AtMostOne(flags: seq<bool>) {
    forall i, j :: 0 <= i < j < |flags| ==> !(flags[i] && flags[j])
  }

  lemma {:induction false} OneCounted(flags: seq<bool>)
    requires AtMostOne(flags)
    ensures Count(flags) <= 1
  {
    if flags != [] {
      var before := flags[..|flags| - 1];
      OneCounted(before);
      if Count(before) > 0 {
        var i := SomeAccepted(before);
        assert flags[i];
      }
    }
  }

  lemma OneChained(flags: seq<bool>)
    requires AtMostOne(flags)
    ensures FirstRun(flags) == Count(flags) <= 1
  {
    OneCounted(flags);
    AllChainedIff(flags);
  }

  /** Something is made of the entry. */
  predicate Used(s: Setup) { s.carved || s.accepted }

  /** Entries that share no memory cannot both contain the kernel's end. */
  lemma OneAtKernelEnd(es: seq<MapEntry>, kernelEnd: u32, made: seq<Setup>, i: nat, j: nat)
    requires MapFits(es, kernelEnd) && Separated(es) && made == Made(es, kernelEnd)
    requires i < j < |made| && Used(made[i])
    ensures !Used(made[j])
  {
    MadeAt(es, kernelEnd, i);
    MadeAt(es, kernelEnd, j);
    var a, b := Available(es)[i], Available(es)[j];
    assert Fit(a, kernelEnd, HasHeap(made[..i])) && Fit(b, kernelEnd, HasHeap(made[..j]));
    assert AtKernelEnd(a, kernelEnd);
  }

  lemma OneAccepted(es: seq<MapEntry>, kernelEnd: u32, made: seq<Setup>)
    requires MapFits(es, kernelEnd) && Separated(es) && made == Made(es, kernelEnd)
    ensures FirstRun(Accepted(made)) == |Regions(made)| <= 1
  {
    var flags := Accepted(made);
    forall i, j | 0 <= i < j < |flags| ensures !(flags[i] && flags[j]) {
      if flags[i] {
        OneAtKernelEnd(es, kernelEnd, made, i, j);
      }
    }
    OneChained(flags);
    RegionsCount(made);
  }

  lemma RegionsUsable(es: seq<MapEntry>, kernelEnd: u32, made: seq<Setup>)
    requires MB <= kernelEnd && MapRight(es, kernelEnd) && Bounded(es) && made == Made(es, kernelEnd)
    ensures AllUsable(Regions(made))
  {
    forall k | 0 <= k < |Regions(made)| ensures Usable(Regions(made)[k]) {
      var j := RegionFrom(made, k);
      assert Right(Available(es)[j], kernelEnd, made[j]);
    }
  }

  /** Boot leaves the chain of at most one region, wholly chained, as the frame allocator's theorems
      want it. */
  lemma HandsOver(es: seq<MapEntry>, kernelEnd: u32, made: seq<Setup>)
    requires MB <= kernelEnd <= TWO31 && Bounded(es) && Separated(es)
    requires MapFits(es, kernelEnd) && made == Made(es, kernelEnd)
    ensures FirstRun(Accepted(made)) == |Regions(made)| <= 1
    ensures AllUsable(Regions(made)) && AsBooted(Chained(Regions(made))) && Apart(Chained(Regions(made)))
  {
    MapRightIff(es, kernelEnd);
    OneAccepted(es, kernelEnd, made);
    RegionsUsable(es, kernelEnd, made);
    ChainedIs(Regions(made));
  }

  /** The heap, if there is one, lies between the kernel and the region. */
  lemma HeapComesFirst(es: seq<MapEntry>, kernelEnd: u32, made: seq<Setup>, i: nat, j: nat)
    requires MB <= kernelEnd <= TWO31 && Bounded(es) && Separated(es)
    requires MapFits(es, kernelEnd) && made == Made(es, kernelEnd)
    requires i < |made| && j < |made| && made[i].carved && made[j].accepted
    ensures i == j && kernelEnd <= made[i].heap && made[i].heap + MB <= made[j].frames
  {
    MapRightIff(es, kernelEnd);
    if i < j {
      OneAtKernelEnd(es, kernelEnd, made, i, j);
    } else if j < i {
      OneAtKernelEnd(es, kernelEnd, made, j, i);
    }
    assert Right(Available(es)[j], kernelEnd, made[j]);
  }

  /** The range lies in the frames of a region that boot made, below its bitmap and behind every
      heap and the kernel. */
  ghost predicate InRam(made: seq<Setup>, kernelEnd: u32, a: nat, count: nat) {
    exists j :: 0 <= j < |made| && made[j].accepted
      && made[j].frames <= a && a + count * 4096 <= made[j].bitmap && kernelEnd <= a
      && forall i :: 0 <= i < |made| && made[i].carved ==> made[i].heap + MB <= a
  }

  /** From the memory map on: over any run that hands out frames of the regions, no byte is in two
      live ranges, and all of them are memory behind the kernel and the heap, bitmaps excepted. */
  lemma BootRunsInRam(es: seq<MapEntry>, kernelEnd: u32, made: seq<Setup>, rs: seq<Region>, fixed: bool, ops: seq<Op>)
    requires MB <= kernelEnd <= TWO31 && Bounded(es) && Separated(es)
    requires MapFits(es, kernelEnd) && made == Made(es, kernelEnd)
    requires AllUsable(Regions(made)) && rs == Chained(Regions(made))
    requires Legal(fixed, rs, {}, ops) && FitsThroughout(fixed, rs, {}, ops)
    ensures var (rs', live') := Run(fixed, rs, {}, ops);
      && AddressesDisjoint(rs', live')
      && forall g :: g in live' ==> g.k < |rs'| && InRam(made, kernelEnd, AddressOf(rs', g), g.count)
  {
    HandsOver(es, kernelEnd, made);
    BootIsOwned(rs);
    RunAddresses(fixed, rs, BitCounts(rs), {}, ops);
    RunKeepsBounds(fixed, rs, {}, ops);
    var (rs', live') := Run(fixed, rs, {}, ops);
    forall g | g in live' ensures g.k < |rs'| && InRam(made, kernelEnd, AddressOf(rs', g), g.count) {
      assert Inside(FrameCounts(rs'), g);
      FramesInRam(es, kernelEnd, made, g.k, AddressOf(rs', g), g.count);
    }
  }

  lemma FramesInRam(es: seq<MapEntry>, kernelEnd: u32, made: seq<Setup>, k: nat, a: nat, count: nat)
    requires MB <= kernelEnd <= TWO31 && Bounded(es) && Separated(es)
    requires MapFits(es, kernelEnd) && made == Made(es, kernelEnd) && k < |Regions(made)|
    requires var s := Regions(made)[k]; s.frames <= a && a + count * 4096 <= s.frames + s.blocks * 4096
    ensures InRam(made, kernelEnd, a, count)
  {
    MapRightIff(es, kernelEnd);
    var j := RegionFrom(made, k);
    assert Right(Available(es)[j], kernelEnd, made[j]);
    forall i | 0 <= i < |made| && made[i].carved ensures made[i].heap + MB <= a {
      HeapComesFirst(es, kernelEnd, made, i, j);
    }
  }
}
