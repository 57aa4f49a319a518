/** How boot turns one entry of the memory map into a region: the cuts that keep low memory and
    the kernel image out, the heap taken from the front, and the split of the rest into frames and
    bitmap words. All in 32-bit arithmetic, as the code has it. */
module RegionSetup {
  import opened Words
  import opened Division

  const MB: u32 := 0x10_0000

  // ---------------------------------------------------------------- frames and bitmap words

  /** calcsize, for `blocks` frames and their bitmap words. */
  function CalcSize(blocks: u32): u32 {
    Wrap(blocks * 4096 + (blocks / 32 + 1) * 4)
  }

  /** At this many frames the computed size wraps to zero, so the loop cannot pass it. */
  const BARRIER: nat := 0xF_FFE0

  /** calc_blocks_and_bitmaps' loop. It runs down through zero and on from 2^32 - 1. */
  function Calc(blocks: u32, size: u32): u32
    decreases if blocks < BARRIER then blocks + TWO32 else blocks
  {
    if CalcSize(blocks) <= size then blocks else Calc(if blocks == 0 then TWO32 - 1 else blocks - 1, size)
  }

  /** Frames and bitmap words for `blocks` frames, without wrap-around. */
  function Needed(blocks: nat): nat { blocks * 4096 + (blocks / 32 + 1) * 4 }

  /** The greatest number of frames that fits, bitmap included. */
  ghost predicate Optimal(blocks: nat, size: int) {
    Needed(blocks) <= size && forall c :: c > blocks ==> Needed(c) > size
  }

  lemma NeededGrows(b: nat, c: nat)
    requires b <= c
    ensures Needed(b) <= Needed(c)
  {
  }

  /** Without wrap-around the loop stops at the greatest fit. */
  lemma {:induction false} CalcFinds(blocks: u32, size: u32)
    requires blocks < BARRIER && size >= 4
    requires forall c :: c > blocks ==> Needed(c) > size
    ensures Calc(blocks, size) <= blocks && Optimal(Calc(blocks, size), size)
    decreases blocks
  {
    NoWrapBelowBarrier(blocks);
    if Needed(blocks) > size {
      CalcFinds(blocks - 1, size);
    }
  }

  lemma NoWrapBelowBarrier(blocks: nat)
    requires blocks < BARRIER
    ensures CalcSize(blocks) == Needed(blocks) < TWO32
  {
  }

  /** The loop run and its result are right exactly for sizes from 4 up to 2^32 - 2^17: below there
      is no room for a bitmap word, above the first computed size wraps and is accepted. */
  lemma SizingOptimalIff(size: u32)
    ensures Optimal(Calc(size / 4096, size), size) <==> 4 <= size < TWO32 - 0x2_0000
  {
    var b := size / 4096;
    if size < 4 {
      assert forall c: nat :: Needed(c) >= 4;
    } else if size < TWO32 - 0x2_0000 {
      forall c: nat | c > b ensures Needed(c) > size {
        NeededGrows(b + 1, c);
      }
      CalcFinds(b, size);
    } else {
      WrapsAbove(b, size);
    }
  }

  lemma WrapsAbove(b: nat, size: u32)
    requires b == size / 4096 && size >= TWO32 - 0x2_0000
    ensures CalcSize(b) <= size && Needed(b) > size
  {
    assert b >= BARRIER;
    assert TWO32 <= Needed(b) < 2 * TWO32;
  }

  /** At most one frame is given up for every 1024 bitmap words, so at most 32. */
  lemma SizingSteps(size: u32)
    requires 4 <= size < TWO32 - 0x2_0000
    ensures var b := size / 4096;
      && b - Calc(b, size) <= (b / 32 + 1 + 1023) / 1024 <= 32
  {
    SizingOptimalIff(size);
    var b := size / 4096;
    var d := (b / 32 + 1 + 1023) / 1024;
    assert b / 32 + 1 <= 1024 * d && d <= 32;
    if b >= d {
      StepsSuffice(b, d, size);
    }
  }

  /** d frames make room for the bitmap words of b frames. */
  lemma StepsSuffice(b: nat, d: nat, size: nat)
    requires d <= b && b * 4096 <= size && b / 32 + 1 <= 1024 * d
    ensures Needed(b - d) <= size
  {
    assert (b - d) / 32 <= b / 32;
  }

  /** calc_blocks_and_bitmaps. */
  method CalcBlocksAndBitmaps(size: u32) returns (blocks: u32, bitmaps: u32)
    ensures blocks == Calc(size / 4096, size) && bitmaps == blocks / 32 + 1
  {
    blocks := size / 4096;
    bitmaps := blocks / 32 + 1;
    while Wrap(blocks * 4096 + bitmaps * 4) > size
      invariant bitmaps == blocks / 32 + 1
      invariant Calc(blocks, size) == Calc(size / 4096, size)
      decreases if blocks < BARRIER then blocks + TWO32 else blocks
    {
      blocks := if blocks == 0 then TWO32 - 1 else blocks - 1;
      bitmaps := blocks / 32 + 1;
    }
  }

  // ---------------------------------------------------------------- cutting an entry

  /** An entry of the memory map: start and length. */
  datatype Chunk = Chunk(addr: u32, len: u32) {
    /** block_getend. */
    function End(): u32 { Wrap(addr + len) }
  }

  /** block_setstart: the length is reduced by the distance moved, in either direction. */
  function SetStart(b: Chunk, start: u32): Chunk {
    var moved := Signed(Wrap(start - b.addr));
    Chunk(start, if moved > 0 then Wrap(b.len - moved) else Wrap(b.len - Wrap(-moved)))
  }

  /** Moving the start keeps the end exactly when it moves up, by at most 2^31. */
  lemma SetStartKeepsEndIff(b: Chunk, start: u32)
    ensures SetStart(b, start).End() == b.End() <==> Wrap(start - b.addr) <= TWO31
  {
    if Wrap(start - b.addr) <= TWO31 {
      UpKeepsEnd(b, start, Wrap(start - b.addr));
    } else {
      DownMovesEnd(b, start, Wrap(start - b.addr));
    }
  }

  lemma UpKeepsEnd(b: Chunk, start: u32, d: u32)
    requires d == Wrap(start - b.addr) <= TWO31
    ensures SetStart(b, start).End() == b.End()
  {
    StartIs(b.addr, start);
    UpwardLength(b, start, d);
    WrapSum(b.addr + d, b.len - d);
  }

  lemma DownMovesEnd(b: Chunk, start: u32, d: u32)
    requires d == Wrap(start - b.addr) > TWO31
    ensures SetStart(b, start).End() != b.End()
  {
    StartIs(b.addr, start);
    DownwardLength(b, start, d);
    WrapSum(b.addr + d, b.len + d);
    NotAMultiple(b.addr + b.len, 2 * d);
  }

  lemma StartIs(addr: u32, start: u32)
    ensures start == Wrap(addr + Wrap(start - addr))
  {
    WrapSum(addr, start - addr);
    WrapSmall(addr);
    WrapSmall(start);
  }

  lemma UpwardLength(b: Chunk, start: u32, d: u32)
    requires d == Wrap(start - b.addr) <= TWO31
    ensures SetStart(b, start).len == Wrap(b.len - d)
  {
    if d == TWO31 {
      WrapSmall(TWO31);
    }
  }

  lemma DownwardLength(b: Chunk, start: u32, d: u32)
    requires d == Wrap(start - b.addr) > TWO31
    ensures SetStart(b, start).len == Wrap(b.len + d)
  {
    assert Wrap(TWO32 - d) == TWO32 - d;
    WrapMultiple(b.len + d, -1);
  }

  lemma NotAMultiple(x: int, k: nat)
    requires TWO32 < k < 2 * TWO32
    ensures Wrap(x + k) != Wrap(x)
  {
    WrapMultiple(x + k, -1);
  }

  /** The upward move, where nothing wraps. */
  lemma SetStartUp(b: Chunk, start: u32)
    requires b.addr <= start <= b.addr + b.len < TWO32
    requires start - b.addr <= TWO31
    ensures SetStart(b, start) == Chunk(start, b.addr + b.len - start)
  {
  }

  /** align_up. */
  function AlignUp(address: u32, align: u32): u32 {
    if align == 0 || address % align == 0 then address else Wrap(address + align - address % align)
  }

  /** Unless it wraps, align_up is the least multiple at or above; no alignment leaves the address. */
  lemma AlignUpMeans(address: u32, align: u32)
    ensures align == 0 ==> AlignUp(address, align) == address
    ensures align > 0 && address + align <= TWO32 ==>
      var a := AlignUp(address, align); a % align == 0 && address <= a < address + align
  {
    if align > 0 && address + align <= TWO32 && address % align != 0 {
      var q, r := address / align, address % align;
      assert address + align - r == (q + 1) * align;
      DivisionUnique(address + align - r, align, q + 1, 0);
      WrapSmall(address + align - r);
    }
  }

  /** The least page boundary at or above x. */
  function PageCeil(x: nat): (p: nat)
    ensures p % 4096 == 0 && x <= p < x + 4096
  {
    if x % 4096 == 0 then x else x + 4096 - x % 4096
  }

  /** align_up finds it exactly below the last page of the address space; above, it wraps to 0. */
  lemma PageUpIff(address: u32)
    ensures AlignUp(address, 4096) == PageCeil(address) <==> address <= TWO32 - 4096
    ensures AlignUp(address, 4096) == if PageCeil(address) < TWO32 then PageCeil(address) else 0
  {
  }

  /** The kernel image is linked at 1 MiB. */
  const KERNEL_START: u32 := MB

  /** Low memory is cut off an entry that reaches above it. */
  function CutLow(b: Chunk): Chunk {
    if b.End() >= MB && b.addr < MB then SetStart(b, MB) else b
  }

  /** The cut meant to keep the kernel image out. */
  function CutKernel(b: Chunk, kernelEnd: u32): Chunk {
    if b.End() > kernelEnd then SetStart(b, kernelEnd)
    else if b.addr < KERNEL_START then Chunk(b.addr, Wrap(KERNEL_START - b.addr))
    else b
  }

  /** What is left lies inside the entry and clear of the kernel. */
  ghost predicate CutRight(b: Chunk, c: Chunk, kernelEnd: u32) {
    b.addr <= c.addr && c.addr + c.len <= b.addr + b.len && kernelEnd <= c.addr
  }

  /** The kernel cut is right exactly for the entry that contains the kernel's end. An entry
      wholly above the kernel has its start moved down to the kernel's end, one within the image is
      left as it is, and of one that starts below the image the part below it is left. */
  lemma KernelCutRightIff(b: Chunk, kernelEnd: u32)
    requires 0 < b.len && b.addr + b.len < TWO32 && MB < kernelEnd <= TWO31
    ensures var c := CutKernel(b, kernelEnd);
      && (CutRight(b, c, kernelEnd) <==> b.addr <= kernelEnd < b.addr + b.len)
      && (b.addr + b.len <= kernelEnd ==>
           c.addr == b.addr && c.addr + c.len == if b.addr < 0x10_0000 then 0x10_0000 else b.addr + b.len)
      && (b.addr + b.len > kernelEnd ==> c.addr == kernelEnd)
  {
    WrapSmall(b.addr + b.len);
    if b.addr <= kernelEnd < b.addr + b.len {
      SetStartUp(b, kernelEnd);
    } else if b.addr < MB {
      WrapSmall(MB - b.addr);
    }
  }

  /** What mm_initmemblock makes of an entry. */
  datatype Setup = Setup(carved: bool, heap: u32, accepted: bool, frames: u32, blocks: u32, bitmap: u32)

  /** The heap comes first, if there is none yet and it fits. */
  function Carves(b: Chunk, heapReady: bool): bool { b.len >= MB && !heapReady }

  function AfterHeap(b: Chunk, heapReady: bool): Chunk {
    if Carves(b, heapReady) then SetStart(b, Wrap(b.addr + MB)) else b
  }

  /** The frames and the bitmap of what is left, from the first page boundary on. */
  function Divide(rest: Chunk, carved: bool, heap: u32): Setup {
    var start := AlignUp(rest.addr, 4096);
    if start >= rest.End() then Setup(carved, heap, false, 0, 0, 0)
    else
      var len := SetStart(rest, start).len;
      var blocks := Calc(len / 4096, len);
      Setup(carved, heap, true, start, blocks, BitmapAt(start, blocks))
  }

  /** The address of the bitmap words, behind the frames. */
  function BitmapAt(start: u32, blocks: u32): u32 {
    Wrap(start + blocks * 4096)
  }

  function Init(entry: Chunk, kernelEnd: u32, heapReady: bool): Setup {
    if entry.End() < MB then Setup(false, 0, false, 0, 0, 0)
    else
      var b := CutKernel(CutLow(entry), kernelEnd);
      Divide(AfterHeap(b, heapReady), Carves(b, heapReady), b.addr)
  }

  /** Heap, frames and bitmap follow one another, disjoint, inside the entry, above 1 MiB and clear
      of the kernel; frames are page-aligned and as many as fit. */
  ghost predicate LaidOut(entry: Chunk, kernelEnd: u32, s: Setup) {
    && MB <= kernelEnd && entry.addr <= s.heap && kernelEnd <= s.heap
    && (if s.carved then s.heap + MB else s.heap) <= s.frames
    && s.frames % 4096 == 0
    && s.bitmap == s.frames + s.blocks * 4096
    && s.bitmap + (s.blocks / 32 + 1) * 4 <= entry.addr + entry.len
    && Optimal(s.blocks, entry.addr + entry.len - s.frames)
  }

  lemma CutsLeave(entry: Chunk, kernelEnd: u32)
    requires MB <= kernelEnd <= TWO31
    requires entry.addr <= kernelEnd < entry.addr + entry.len < TWO32
    ensures CutKernel(CutLow(entry), kernelEnd) == Chunk(kernelEnd, entry.addr + entry.len - kernelEnd)
  {
    WrapSmall(entry.addr + entry.len);
    if entry.addr < MB {
      SetStartUp(entry, MB);
      SetStartUp(Chunk(MB, entry.addr + entry.len - MB), kernelEnd);
    } else {
      SetStartUp(entry, kernelEnd);
    }
  }

  lemma HeapLeaves(b: Chunk, heapReady: bool)
    requires b.addr + b.len < TWO32
    ensures AfterHeap(b, heapReady) == if Carves(b, heapReady) then Chunk(b.addr + MB, b.len - MB) else b
  {
    if Carves(b, heapReady) {
      WrapSmall(b.addr + MB);
      SetStartUp(b, b.addr + MB);
    }
  }

  lemma SplitLaidOut(start: u32, len: u32)
    requires 4 <= len < TWO32 - 0x2_0000 && start + len < TWO32
    ensures var blocks := Calc(len / 4096, len);
      && Optimal(blocks, len) && BitmapAt(start, blocks) == start + blocks * 4096
      && start + blocks * 4096 + (blocks / 32 + 1) * 4 <= start + len
  {
    SizingOptimalIff(len);
    WrapSmall(start + Calc(len / 4096, len) * 4096);
  }

  /** The first byte behind the kernel, and behind the heap if that is taken from this entry. */
  function Behind(entry: Chunk, kernelEnd: u32, heapReady: bool): nat {
    if entry.addr + entry.len - kernelEnd >= MB && !heapReady then kernelEnd + MB else kernelEnd
  }

  /** The entry contains the kernel's end. */
  predicate AtKernelEnd(entry: Chunk, kernelEnd: u32) {
    entry.addr <= kernelEnd < entry.addr + entry.len
  }

  /** An entry becomes a region laid out as meant exactly when it contains the kernel's end and room
      for one bitmap word is left behind the next page boundary. */
  lemma InitLaysOutIff(entry: Chunk, kernelEnd: u32, heapReady: bool)
    requires MB <= kernelEnd <= TWO31 && entry.addr + entry.len < TWO32
    ensures var s := Init(entry, kernelEnd, heapReady);
      s.accepted && LaidOut(entry, kernelEnd, s) <==>
        (AtKernelEnd(entry, kernelEnd) &&
         PageCeil(Behind(entry, kernelEnd, heapReady)) + 4 <= entry.addr + entry.len)
  {
    if AtKernelEnd(entry, kernelEnd) {
      KernelEndLaidOutIff(entry, kernelEnd, heapReady);
    } else {
      ElsewhereHeap(entry, kernelEnd, heapReady, Init(entry, kernelEnd, heapReady));
    }
  }

  /** An entry without the kernel's end: what is left of it starts inside the kernel image, or
      below the entry. */
  lemma ElsewhereHeap(entry: Chunk, kernelEnd: u32, heapReady: bool, s: Setup)
    requires MB <= kernelEnd <= TWO31 && entry.addr + entry.len < TWO32 && !AtKernelEnd(entry, kernelEnd)
    requires s == Init(entry, kernelEnd, heapReady)
    ensures s.carved || s.accepted ==> s.heap < kernelEnd || s.heap < entry.addr
  {
    InitMakesIff(entry, kernelEnd, heapReady, s);
    if entry.addr + entry.len <= kernelEnd {
      WrapSmall(entry.addr + entry.len);
    }
  }

  lemma CutLowIs(entry: Chunk)
    requires MB <= entry.addr + entry.len < TWO32
    ensures CutLow(entry) == if entry.addr < MB then Chunk(MB, entry.addr + entry.len - MB) else entry
  {
    WrapSmall(entry.addr + entry.len);
    if entry.addr < MB {
      SetStartUp(entry, MB);
    }
  }

  /** The heap, and what follows it, starts where the cuts leave the entry. */
  lemma InitHeap(entry: Chunk, kernelEnd: u32, heapReady: bool)
    requires MB <= entry.addr + entry.len < TWO32
    ensures var b := CutKernel(CutLow(entry), kernelEnd);
      && Init(entry, kernelEnd, heapReady) == Divide(AfterHeap(b, heapReady), Carves(b, heapReady), b.addr)
      && Init(entry, kernelEnd, heapReady).heap == b.addr
      && Init(entry, kernelEnd, heapReady).carved == Carves(b, heapReady)
      && (entry.addr + entry.len > kernelEnd ==> b.addr == kernelEnd)
      && (entry.addr + entry.len <= kernelEnd ==> b == CutLow(entry))
  {
    WrapSmall(entry.addr + entry.len);
    CutLowIs(entry);
  }

  lemma KernelEndLaidOutIff(entry: Chunk, kernelEnd: u32, heapReady: bool)
    requires MB <= kernelEnd <= TWO31 && entry.addr + entry.len < TWO32 && AtKernelEnd(entry, kernelEnd)
    ensures var s := Init(entry, kernelEnd, heapReady);
      s.accepted && LaidOut(entry, kernelEnd, s) <==>
        PageCeil(Behind(entry, kernelEnd, heapReady)) + 4 <= entry.addr + entry.len
  {
    CutsLeave(entry, kernelEnd);
    WrapSmall(entry.addr + entry.len);
    var b := Chunk(kernelEnd, entry.addr + entry.len - kernelEnd);
    HeapLeaves(b, heapReady);
    var rest, carved := AfterHeap(b, heapReady), Carves(b, heapReady);
    assert Init(entry, kernelEnd, heapReady) == Divide(rest, carved, kernelEnd);
    DivideLaidOutIff(entry, kernelEnd, rest, carved);
  }

  lemma DivideLaidOutIff(entry: Chunk, kernelEnd: u32, rest: Chunk, carved: bool)
    requires MB <= kernelEnd && entry.addr <= kernelEnd
    requires rest.addr == (if carved then kernelEnd + MB else kernelEnd)
    requires rest.addr + rest.len == entry.addr + entry.len < TWO32
    ensures var s := Divide(rest, carved, kernelEnd);
      s.accepted && LaidOut(entry, kernelEnd, s) <==> PageCeil(rest.addr) + 4 <= rest.addr + rest.len
  {
    if PageCeil(rest.addr) + 4 <= rest.addr + rest.len {
      DivideLaysOut(rest, carved, kernelEnd);
    } else {
      NoRoom(rest, carved, kernelEnd);
    }
  }

  lemma DivideLaysOut(rest: Chunk, carved: bool, heap: u32)
    requires MB <= rest.addr && rest.addr + rest.len < TWO32
    requires PageCeil(rest.addr) + 4 <= rest.addr + rest.len
    ensures var s := Divide(rest, carved, heap);
      && s.accepted && s.carved == carved && s.heap == heap
      && s.frames == PageCeil(rest.addr) && s.bitmap == s.frames + s.blocks * 4096
      && s.bitmap + (s.blocks / 32 + 1) * 4 <= rest.addr + rest.len
      && Optimal(s.blocks, rest.addr + rest.len - s.frames)
  {
    PageUpIff(rest.addr);
    var start := PageCeil(rest.addr);
    var end := rest.addr + rest.len;
    WrapSmall(end);
    assert rest.End() == end && start < end;
    SetStartUp(rest, start);
    SplitLaidOut(start, end - start);
    var blocks := Calc((end - start) / 4096, end - start);
    assert Divide(rest, carved, heap) == Setup(carved, heap, true, start, blocks, BitmapAt(start, blocks));
  }

  /** Too little is left: no region, one without room for its bitmap, or one at address 0. */
  lemma NoRoom(rest: Chunk, carved: bool, heap: u32)
    requires 0 < heap <= rest.addr && rest.addr + rest.len < TWO32
    requires PageCeil(rest.addr) + 4 > rest.addr + rest.len
    ensures var s := Divide(rest, carved, heap);
      s.accepted ==> s.heap > s.frames || !Optimal(s.blocks, rest.addr + rest.len - s.frames)
  {
    PageUpIff(rest.addr);
    WrapSmall(rest.addr + rest.len);
    var s := Divide(rest, carved, heap);
    if s.accepted && PageCeil(rest.addr) < TWO32 {
      assert s.frames == PageCeil(rest.addr);
      NoWordFits(s.blocks, rest.addr + rest.len - s.frames);
    }
  }

  lemma NoWordFits(blocks: nat, size: int)
    requires size < 4
    ensures !Optimal(blocks, size)
  {
  }

  // ---------------------------------------------------------------- what is made of an entry

  /** Where the cuts leave an entry that reaches 1 MiB: at its own start, at 1 MiB, or, if it ends
      above the kernel, at the kernel's end. */
  function LeftStart(entry: Chunk, kernelEnd: u32): nat {
    if entry.addr + entry.len > kernelEnd then kernelEnd
    else if entry.addr < MB then MB else entry.addr
  }

  /** How much they leave. An entry wholly above the kernel loses as much as its start has moved down,
      and that from 2^32 if it is more than there is; unless the move is above 2^31, which 32-bit
      arithmetic takes for one upwards. */
  function LeftLen(entry: Chunk, kernelEnd: u32): int {
    var end, moved := entry.addr + entry.len, entry.addr - kernelEnd;
    if end <= kernelEnd || moved <= 0 then end - LeftStart(entry, kernelEnd)
    else if moved > TWO31 then entry.len + moved
    else if moved <= entry.len then entry.len - moved
    else TWO32 + entry.len - moved
  }

  lemma MovedDown(b: Chunk, start: u32)
    requires start < b.addr && b.addr + b.len < TWO32
    ensures var d := b.addr - start;
      SetStart(b, start) ==
        Chunk(start, if d > TWO31 then b.len + d else if d <= b.len then b.len - d else TWO32 + b.len - d)
  {
    var d := b.addr - start;
    WrapMultiple(-d, 1);
    WrapSmall(TWO32 - d);
    if d <= TWO31 {
      WrapSmall(d);
      if d > b.len {
        WrapMultiple(b.len - d, 1);
        WrapSmall(TWO32 + b.len - d);
      } else {
        WrapSmall(b.len - d);
      }
    } else {
      WrapMultiple(b.len + d, -1);
      WrapSmall(b.len + d);
    }
  }

  lemma CutsTo(entry: Chunk, kernelEnd: u32)
    requires MB <= kernelEnd <= TWO31 && MB <= entry.addr + entry.len < TWO32
    ensures 0 <= LeftLen(entry, kernelEnd) < TWO32
    ensures CutKernel(CutLow(entry), kernelEnd) == Chunk(LeftStart(entry, kernelEnd), LeftLen(entry, kernelEnd))
  {
    CutLowIs(entry);
    WrapSmall(entry.addr + entry.len);
    if AtKernelEnd(entry, kernelEnd) {
      CutsLeave(entry, kernelEnd);
    } else if entry.addr > kernelEnd {
      MovedDown(entry, kernelEnd);
    }
  }

  /** The heap is taken from an entry that reaches 1 MiB, of which 1 MiB is left, if there is none yet. */
  predicate GivesHeap(entry: Chunk, kernelEnd: u32, heapReady: bool) {
    entry.addr + entry.len >= MB && LeftLen(entry, kernelEnd) >= MB && !heapReady
  }

  /** A region is made of one that reaches 1 MiB and beyond the next page boundary after the cuts and
      the heap, on 32-bit addresses. */
  predicate GivesRegion(entry: Chunk, kernelEnd: u32, heapReady: bool) {
    var start := LeftStart(entry, kernelEnd);
    var first := PageCeil(start + if GivesHeap(entry, kernelEnd, heapReady) then MB else 0);
    entry.addr + entry.len >= MB && first < (start + LeftLen(entry, kernelEnd)) % TWO32
  }

  lemma InitDivides(entry: Chunk, kernelEnd: u32, heapReady: bool, b: Chunk, s: Setup)
    requires MB <= kernelEnd <= TWO31 && MB <= entry.addr + entry.len < TWO32
    requires b.addr == LeftStart(entry, kernelEnd) && b.len == LeftLen(entry, kernelEnd)
    requires s == Init(entry, kernelEnd, heapReady)
    ensures b.addr <= TWO31 && s == Divide(AfterHeap(b, heapReady), Carves(b, heapReady), b.addr)
  {
    CutsTo(entry, kernelEnd);
    InitHeap(entry, kernelEnd, heapReady);
    assert b == CutKernel(CutLow(entry), kernelEnd);
  }

  lemma BelowNothing(entry: Chunk, kernelEnd: u32, heapReady: bool)
    requires entry.addr + entry.len < MB
    ensures !Init(entry, kernelEnd, heapReady).carved && !Init(entry, kernelEnd, heapReady).accepted
  {
    WrapSmall(entry.addr + entry.len);
  }

  /** What becomes of every entry, told from its address and length, the kernel's end, and whether
      there is a heap. In particular nothing is made of one below 1 MiB. */
  lemma InitMakesIff(entry: Chunk, kernelEnd: u32, heapReady: bool, s: Setup)
    requires MB <= kernelEnd <= TWO31 && entry.addr + entry.len < TWO32 && s == Init(entry, kernelEnd, heapReady)
    ensures s.carved <==> GivesHeap(entry, kernelEnd, heapReady)
    ensures s.accepted <==> GivesRegion(entry, kernelEnd, heapReady)
    ensures s.carved || s.accepted ==> s.heap == LeftStart(entry, kernelEnd)
    ensures s.accepted ==> s.frames == PageCeil(if s.carved then s.heap + MB else s.heap)
    ensures entry.addr + entry.len < MB ==> !s.carved && !s.accepted
  {
    if entry.addr + entry.len < MB {
      BelowNothing(entry, kernelEnd, heapReady);
    } else {
      CutsTo(entry, kernelEnd);
      var b := Chunk(LeftStart(entry, kernelEnd), LeftLen(entry, kernelEnd));
      InitDivides(entry, kernelEnd, heapReady, b, s);
      DividesIff(b, heapReady, s);
    }
  }

  /** What is made of what the cuts leave. */
  lemma DividesIff(b: Chunk, heapReady: bool, s: Setup)
    requires b.addr <= TWO31 && s == Divide(AfterHeap(b, heapReady), Carves(b, heapReady), b.addr)
    ensures s.carved <==> b.len >= MB && !heapReady
    ensures s.accepted <==> PageCeil(b.addr + if s.carved then MB else 0) < (b.addr + b.len) % TWO32
    ensures s.accepted ==> s.frames == PageCeil(b.addr + if s.carved then MB else 0)
    ensures s.heap == b.addr
  {
    if Carves(b, heapReady) {
      WrapSmall(b.addr + MB);
      WrapSmall(MB);
      SetStartKeepsEndIff(b, b.addr + MB);
      PageUpIff(b.addr + MB);
    } else {
      PageUpIff(b.addr);
    }
  }

  // ---------------------------------------------------------------- the entry in place

  /** memblock_entry_t: the entry of the memory map that boot narrows down in place. */
  class MemBlock {
    var addr: u32
    var len: u32
    var available: bool

    function Value(): Chunk
      reads this
    {
      Chunk(addr, len)
    }

    constructor (addr: u32, len: u32)
      ensures Value() == Chunk(addr, len) && available
    {
      this.addr, this.len, this.available := addr, len, true;
    }

    /** block_setstart. */
    method MoveStart(start: u32)
      modifies this`addr, this`len
      ensures Value() == SetStart(old(Value()), start)
    {
      var moved := Signed(Wrap(start - addr));
      addr := start;
      len := if moved > 0 then Wrap(len - moved) else Wrap(len - Wrap(-moved));
    }

    /** mm_initmemblock. The entry is marked reserved exactly when no region comes of it. */
    method InitMemBlock(kernelEnd: u32, heapReady: bool) returns (s: Setup)
      modifies this
      ensures s == Init(old(Value()), kernelEnd, heapReady)
      ensures available == (old(available) && s.accepted)
      ensures s.accepted ==> addr == s.frames && s.blocks == Calc(len / 4096, len)
    {
      if Value().End() < MB {
        available := false;
        return Setup(false, 0, false, 0, 0, 0);
      }
      CutLowOff();
      CutKernelOut(kernelEnd);
      var heap := addr;
      var carved := TakeHeap(heapReady);
      s := DivideUp(carved, heap);
    }

    method CutLowOff()
      modifies this`addr, this`len
      ensures Value() == CutLow(old(Value()))
    {
      if Value().End() >= MB && addr < MB {
        MoveStart(MB);
      }
    }

    /** The heap, if there is none yet and it fits. */
    method TakeHeap(heapReady: bool) returns (carved: bool)
      modifies this`addr, this`len
      ensures carved == Carves(old(Value()), heapReady) && Value() == AfterHeap(old(Value()), heapReady)
    {
      carved := len >= MB && !heapReady;
      if carved {
        MoveStart(Wrap(addr + MB));
      }
    }

    /** mm_initmemblock from the page alignment on. */
    method DivideUp(carved: bool, heap: u32) returns (s: Setup)
      modifies this
      ensures s == Divide(old(Value()), carved, heap)
      ensures available == (old(available) && s.accepted)
      ensures s.accepted ==> addr == s.frames && s.blocks == Calc(len / 4096, len)
    {
      var start := AlignUp(addr, 4096);
      if start >= Value().End() {
        available := false;
        return Setup(carved, heap, false, 0, 0, 0);
      }
      MoveStart(start);
      var blocks, _ := CalcBlocksAndBitmaps(len);
      return Setup(carved, heap, true, addr, blocks, BitmapAt(addr, blocks));
    }

    method CutKernelOut(kernelEnd: u32)
      modifies this`addr, this`len
      ensures Value() == CutKernel(old(Value()), kernelEnd)
    {
      var b, t := addr < KERNEL_START, Wrap(addr + len) > kernelEnd;
      if (b && t) || t {
        MoveStart(kernelEnd);
      } else if b {
        len := Wrap(KERNEL_START - addr);
      }
    }
  }
}
