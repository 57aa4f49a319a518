/** The physical frame allocator as a value: a chain of regions, each with a bitmap of its frames
    and a search hint, and what frame_alloc and frame_free do to it. `fixed` says whether the
    declared corrections are in place: the mask kept in step with the bit number in frame_alloc,
    and `% 32` and the strict bound in bytes in frame_free. */
module Frames {
  import opened Words
  import opened Bits
  import opened Division
  import opened FrameSearch
  import opened FrameDrift

  datatype Region = Region(base: u32, blocks: nat, words: seq<u32>, hint: nat) {
    predicate Ok() {
      && 0 < base && base + blocks * 4096 <= TWO32
      && |words| == blocks / 32 + 1
      && hint < |words|
    }
  }

  /** Frame x of the region is marked in the bitmap. */
  predicate Taken(words: seq<u32>, x: nat)
    requires x < 32 * |words|
  {
    Has(words[x / 32], x % 32)
  }

  /** Where an allocation was made: region, word, bit. */
  datatype Place = Nowhere | At(k: nat, i: nat, f: nat)

  /** The first word from i on that holds a run, and the first whose search saw a clear bit. */
  function FirstWord(fixed: bool, ws: seq<u32>, i: nat, count: nat, align: nat): (r: nat)
    requires align > 0 && i <= |ws|
    ensures i <= r <= |ws|
    ensures r < |ws| ==> Search(fixed, ws[r], count, align).found < BITS
    ensures forall x :: i <= x < r ==> Search(fixed, ws[x], count, align).found >= BITS
    decreases |ws| - i
  {
    if i == |ws| || Search(fixed, ws[i], count, align).found < BITS then i
    else FirstWord(fixed, ws, i + 1, count, align)
  }

  function FirstSeen(fixed: bool, ws: seq<u32>, i: nat, count: nat, align: nat): (r: nat)
    requires align > 0 && i <= |ws|
    ensures i <= r <= |ws|
    ensures r < |ws| ==> Search(fixed, ws[r], count, align).saw
    ensures forall x :: i <= x < r ==> !Search(fixed, ws[x], count, align).saw
    decreases |ws| - i
  {
    if i == |ws| || Search(fixed, ws[i], count, align).saw then i else FirstSeen(fixed, ws, i + 1, count, align)
  }

  /** The region after a search: the hint moves to the first word seen to have a clear bit. */
  function Searched(fixed: bool, r: Region, count: nat, align: nat): Region
    requires align > 0 && r.hint <= |r.words|
  {
    var h := FirstSeen(fixed, r.words, r.hint, count, align);
    if h < |r.words| then r.(hint := h) else r
  }

  predicate AllOk(rs: seq<Region>) {
    forall k :: 0 <= k < |rs| ==> rs[k].Ok()
  }

  /** What searching one region leaves of it. */
  function Outcome(fixed: bool, r: Region, count: nat, align: nat): Region
    requires align > 0 && 1 <= count <= BITS && r.Ok()
  {
    var i := FirstWord(fixed, r.words, r.hint, count, align);
    var r' := Searched(fixed, r, count, align);
    if i < |r.words| then r'.(words := r.words[i := Take(fixed, r.words[i], count, align)]) else r'
  }

  /** No word of the region, from its hint on, holds a run. */
  predicate Exhausted(fixed: bool, r: Region, count: nat, align: nat)
    requires align > 0 && r.Ok()
  {
    FirstWord(fixed, r.words, r.hint, count, align) == |r.words|
  }

  /** The first region that can serve the request, or the number of regions. */
  function FirstRegion(fixed: bool, rs: seq<Region>, from: nat, count: nat, align: nat): (k: nat)
    requires align > 0 && AllOk(rs) && from <= |rs|
    ensures from <= k <= |rs|
    ensures k < |rs| ==> !Exhausted(fixed, rs[k], count, align)
    ensures forall j :: from <= j < k ==> Exhausted(fixed, rs[j], count, align)
    decreases |rs| - from
  {
    if from == |rs| || !Exhausted(fixed, rs[from], count, align) then from
    else FirstRegion(fixed, rs, from + 1, count, align)
  }

  /** The chain once its first k regions have been searched. */
  function Partly(fixed: bool, rs: seq<Region>, k: nat, count: nat, align: nat): (now: seq<Region>)
    requires align > 0 && 1 <= count <= BITS && AllOk(rs) && k <= |rs|
    ensures |now| == |rs|
  {
    if k == 0 then rs else Partly(fixed, rs, k - 1, count, align)[k - 1 := Outcome(fixed, rs[k - 1], count, align)]
  }

  lemma {:induction false} PartlyAt(fixed: bool, rs: seq<Region>, k: nat, count: nat, align: nat, j: nat)
    requires align > 0 && 1 <= count <= BITS && AllOk(rs) && k <= |rs| && j < |rs|
    ensures Partly(fixed, rs, k, count, align)[j] == if j < k then Outcome(fixed, rs[j], count, align) else rs[j]
  {
    if k > 0 {
      PartlyAt(fixed, rs, k - 1, count, align, j);
    }
  }

  function AllocIn(fixed: bool, rs: seq<Region>, count: nat, align: nat): (seq<Region>, Place)
    requires align > 0 && 1 <= count <= BITS && AllOk(rs)
  {
    var k := FirstRegion(fixed, rs, 0, count, align);
    if k == |rs| then (Partly(fixed, rs, k, count, align), Nowhere)
    else
      var i := FirstWord(fixed, rs[k].words, rs[k].hint, count, align);
      (Partly(fixed, rs, k + 1, count, align), At(k, i, Search(fixed, rs[k].words[i], count, align).found))
  }

  /** The address of frame 32 * i + f of a region. */
  function Address(base: u32, i: nat, f: nat): u32 {
    Wrap(base + (i * 32 + f) * 4096)
  }

  /** An alignment of 0 asks for none. */
  function Alignment(alignUp: nat): (align: nat)
    ensures align > 0
  {
    if alignUp == 0 then 1 else alignUp
  }

  /** frame_alloc: the regions afterwards, where the run is, and the address returned. */
  function Alloc(fixed: bool, rs: seq<Region>, count: nat, alignUp: nat): (seq<Region>, Place)
    requires AllOk(rs)
  {
    if count == 0 || count > 32 then (rs, Nowhere)
    else AllocIn(fixed, rs, count, Alignment(alignUp))
  }

  /** The address handed to the caller. */
  function Returned(rs: seq<Region>, place: Place): u32 {
    match place
    case Nowhere => 0
    case At(k, i, f) => if k < |rs| then Address(rs[k].base, i, f) else 0
  }

  /** The region accepts the address as one of its frames. */
  predicate InRange(fixed: bool, r: Region, addr: u32) {
    addr >= r.base && (if fixed then addr < r.base + r.blocks * 4096 else addr <= Wrap(r.base + r.blocks))
  }

  /** The bit and the word frame_free derives from a frame number: as written, modulo 31. */
  function BitOf(fixed: bool, d: nat): nat { if fixed then d % 32 else Rem(d, 31) }

  function WordOf(fixed: bool, d: nat): nat { (d - BitOf(fixed, d)) / 32 }

  function FreeRun(fixed: bool, r: Region, d: nat, count: nat): Region {
    var b, i := BitOf(fixed, d), WordOf(fixed, d);
    if 32 - b < count || i >= |r.words| then r else r.(words := r.words[i := Empty(r.words[i], b, count)])
  }

  /** The first region from index `from` on that accepts the address, or the number of regions. */
  function OwnerOf(fixed: bool, rs: seq<Region>, from: nat, addr: u32): (k: nat)
    requires from <= |rs|
    ensures from <= k <= |rs|
    ensures k < |rs| ==> InRange(fixed, rs[k], addr)
    ensures forall j :: from <= j < k ==> !InRange(fixed, rs[j], addr)
    decreases |rs| - from
  {
    if from == |rs| || InRange(fixed, rs[from], addr) then from else OwnerOf(fixed, rs, from + 1, addr)
  }

  function FreeIn(fixed: bool, rs: seq<Region>, addr: u32, count: nat): seq<Region> {
    var k := OwnerOf(fixed, rs, 0, addr);
    if k == |rs| then rs else rs[k := FreeRun(fixed, rs[k], (addr - rs[k].base) / 4096, count)]
  }

  /** frame_free. */
  function Free(fixed: bool, rs: seq<Region>, addr: u32, count: nat): seq<Region> {
    if count == 0 || count > 32 then rs else FreeIn(fixed, rs, addr, count)
  }

  // ---------------------------------------------------------------- frame_alloc

  /** No suitable run starts in words [lo, hi). */
  ghost predicate NoRun(ws: seq<u32>, lo: nat, hi: nat, count: nat, align: nat)
    requires align > 0 && hi <= |ws|
  {
    forall i, f :: lo <= i < hi && 0 <= f < 32 ==> !Suitable(ws[i], count, align, f)
  }

  /** Only hints move, and only upwards. */
  ghost predicate HintsOnly(r: Region, r': Region) {
    r'.base == r.base && r'.blocks == r.blocks && r'.words == r.words && r.hint <= r'.hint < |r.words|
  }

  /** The allocation is the first that fits, counted from each region's hint. */
  ghost predicate FirstFit(rs: seq<Region>, count: nat, align: nat, place: Place)
    requires align > 0 && AllOk(rs)
  {
    match place
    case Nowhere => forall k :: 0 <= k < |rs| ==> NoRun(rs[k].words, rs[k].hint, |rs[k].words|, count, align)
    case At(k, i, f) =>
      && k < |rs| && rs[k].hint <= i < |rs[k].words| && f < 32
      && Suitable(rs[k].words[i], count, align, f)
      && (forall f' :: 0 <= f' < f ==> !Suitable(rs[k].words[i], count, align, f'))
      && NoRun(rs[k].words, rs[k].hint, i, count, align)
      && forall k' :: 0 <= k' < k ==> NoRun(rs[k'].words, rs[k'].hint, |rs[k'].words|, count, align)
  }

  /** Exactly the run at the place is marked, and nothing else in any bitmap. */
  ghost predicate Marks(rs: seq<Region>, rs': seq<Region>, count: nat, place: Place) {
    && |rs'| == |rs|
    && (forall k :: 0 <= k < |rs| && !(place.At? && place.k == k) ==> HintsOnly(rs[k], rs'[k]))
    && (place.At? ==>
         && place.k < |rs| && place.i < |rs[place.k].words| && place.f + count <= 32
         && var ws := rs[place.k].words;
            HintsOnly(rs[place.k].(words := ws[place.i := Fill(ws[place.i], place.f, count)]), rs'[place.k]))
  }

  lemma WordsRight(fixed: bool, ws: seq<u32>, lo: nat, hi: nat, count: nat, align: nat)
    requires align > 0 && InStep(fixed, align) && 1 <= count <= BITS && hi <= |ws|
    requires forall x :: lo <= x < hi ==> Search(fixed, ws[x], count, align).found >= BITS
    ensures NoRun(ws, lo, hi, count, align)
  {
    forall i, f | lo <= i < hi && 0 <= f < 32 ensures !Suitable(ws[i], count, align, f) {
      SearchRight(fixed, ws[i], count, align);
    }
  }

  /** Searching a region moves its hint, never down, and marks at most the run found. */
  lemma OutcomeMarks(fixed: bool, r: Region, count: nat, align: nat)
    requires align > 0 && 1 <= count <= BITS && r.Ok()
    ensures var r' := Outcome(fixed, r, count, align);
      var i := FirstWord(fixed, r.words, r.hint, count, align);
      && r'.Ok()
      && (i == |r.words| ==> HintsOnly(r, r'))
      && (i < |r.words| ==>
           var f := Search(fixed, r.words[i], count, align).found;
           f + count <= BITS && HintsOnly(r.(words := r.words[i := Fill(r.words[i], f, count)]), r'))
  {
    var i := FirstWord(fixed, r.words, r.hint, count, align);
    if i < |r.words| {
      FoundSaw(fixed, r.words[i], count, align);
      ScanFits(fixed, r.words[i], count, align, 0, 1, 0, 0, false);
    }
  }

  /** frame_alloc marks exactly the run it reports, whatever the alignment; hints never decrease
      and stay below the word count. */
  lemma AllocMarks(fixed: bool, rs: seq<Region>, count: nat, align: nat)
    requires align > 0 && 1 <= count <= BITS && AllOk(rs)
    ensures var (rs', place) := AllocIn(fixed, rs, count, align); Marks(rs, rs', count, place) && AllOk(rs')
  {
    var k := FirstRegion(fixed, rs, 0, count, align);
    var (rs', place) := AllocIn(fixed, rs, count, align);
    forall j | 0 <= j < |rs|
      ensures rs'[j].Ok() && (j != k ==> HintsOnly(rs[j], rs'[j]))
    {
      PartlyAt(fixed, rs, if k < |rs| then k + 1 else k, count, align, j);
      OutcomeMarks(fixed, rs[j], count, align);
    }
    if k < |rs| {
      PartlyAt(fixed, rs, k + 1, count, align, k);
      OutcomeMarks(fixed, rs[k], count, align);
    }
  }

  /** frame_alloc is first fit, and complete, from the hints upwards. */
  lemma AllocFirstFit(fixed: bool, rs: seq<Region>, count: nat, align: nat)
    requires align > 0 && InStep(fixed, align) && 1 <= count <= BITS && AllOk(rs)
    ensures FirstFit(rs, count, align, AllocIn(fixed, rs, count, align).1)
  {
    var k := FirstRegion(fixed, rs, 0, count, align);
    forall j | 0 <= j < k ensures NoRun(rs[j].words, rs[j].hint, |rs[j].words|, count, align) {
      WordsRight(fixed, rs[j].words, rs[j].hint, |rs[j].words|, count, align);
    }
    if k < |rs| {
      var i := FirstWord(fixed, rs[k].words, rs[k].hint, count, align);
      WordsRight(fixed, rs[k].words, rs[k].hint, i, count, align);
      SearchRight(fixed, rs[k].words[i], count, align);
    }
  }

  /** The hint after a region has been searched: the first word from the old hint on in which the
      search sees a clear bit, or the old hint if there is none. */
  ghost predicate HintMoves(fixed: bool, r: Region, r': Region, count: nat, align: nat)
    requires align > 0
  {
    && r.hint <= r'.hint < |r.words|
    && (forall i :: r.hint <= i < r'.hint ==> !Visible(fixed, r.words[i], count, align))
    && (Visible(fixed, r.words[r'.hint], count, align) ||
        (r'.hint == r.hint && forall i :: r.hint <= i < |r.words| ==> !Visible(fixed, r.words[i], count, align)))
  }

  lemma OutcomeHint(fixed: bool, r: Region, count: nat, align: nat)
    requires align > 0 && 1 <= count <= BITS && r.Ok()
    ensures HintMoves(fixed, r, Outcome(fixed, r, count, align), count, align)
  {
    forall i | r.hint <= i < |r.words|
      ensures Search(fixed, r.words[i], count, align).saw <==> Visible(fixed, r.words[i], count, align)
    {
      SawIffVisible(fixed, r.words[i], count, align);
    }
  }

  /** frame_alloc moves the hint of every region it searches in that way, and no other. */
  lemma AllocHints(fixed: bool, rs: seq<Region>, count: nat, align: nat, j: nat)
    requires align > 0 && 1 <= count <= BITS && AllOk(rs) && j < |rs|
    ensures var (rs', place) := AllocIn(fixed, rs, count, align);
      && |rs'| == |rs|
      && (place.At? ==> place.k < |rs|)
      && (if place.At? && j > place.k then rs'[j] == rs[j] else HintMoves(fixed, rs[j], rs'[j], count, align))
  {
    var k := FirstRegion(fixed, rs, 0, count, align);
    PartlyAt(fixed, rs, if k < |rs| then k + 1 else k, count, align, j);
    OutcomeHint(fixed, rs[j], count, align);
  }

  /** frame_alloc as it is called: 1 to 32 frames or NULL, alignment 0 for none. */
  lemma AllocRight(fixed: bool, rs: seq<Region>, count: nat, alignUp: nat)
    requires AllOk(rs) && InStep(fixed, alignUp)
    ensures count == 0 || count > 32 ==> Alloc(fixed, rs, count, alignUp) == (rs, Nowhere)
    ensures 1 <= count <= 32 ==>
      var (rs', place) := Alloc(fixed, rs, count, alignUp);
      FirstFit(rs, count, if alignUp == 0 then 1 else alignUp, place) && Marks(rs, rs', count, place)
  {
    if 1 <= count <= 32 {
      AllocFirstFit(fixed, rs, count, Alignment(alignUp));
      AllocMarks(fixed, rs, count, Alignment(alignUp));
    }
  }

  // ---------------------------------------------------------------- region by region

  /** Searching a region leaves it well-formed. */
  lemma AllocOutcomeOk(fixed: bool, r: Region, count: nat, align: nat)
    requires align > 0 && 1 <= count <= BITS && r.Ok()
    ensures Outcome(fixed, r, count, align).Ok()
  {
  }

  /** Region j of the chain `now`, when the first k regions of rs have been searched in vain. */
  ghost predicate Turned(fixed: bool, rs: seq<Region>, now: seq<Region>, k: nat, count: nat, align: nat, j: nat)
    requires align > 0 && 1 <= count <= BITS
  {
    && j < |rs| == |now| && rs[j].Ok()
    && (if j < k then now[j] == Outcome(fixed, rs[j], count, align) else now[j] == rs[j])
    && (j < k ==> Exhausted(fixed, rs[j], count, align))
  }

  ghost predicate Passed(fixed: bool, rs: seq<Region>, now: seq<Region>, k: nat, count: nat, align: nat)
    requires align > 0 && 1 <= count <= BITS
  {
    k <= |rs| == |now| && forall j :: 0 <= j < |rs| ==> Turned(fixed, rs, now, k, count, align, j)
  }

  lemma PassedNone(fixed: bool, rs: seq<Region>, count: nat, align: nat)
    requires align > 0 && 1 <= count <= BITS && AllOk(rs)
    ensures Passed(fixed, rs, rs, 0, count, align)
  {
  }

  /** So far the search is that of the chain. */
  lemma PassedPartly(fixed: bool, rs: seq<Region>, now: seq<Region>, k: nat, count: nat, align: nat)
    requires align > 0 && 1 <= count <= BITS && Passed(fixed, rs, now, k, count, align)
    ensures AllOk(rs) && now == Partly(fixed, rs, k, count, align) && k <= FirstRegion(fixed, rs, 0, count, align)
  {
    forall j | 0 <= j < |rs| ensures rs[j].Ok() {
      assert Turned(fixed, rs, now, k, count, align, j);
    }
    forall j | 0 <= j < k ensures Exhausted(fixed, rs[j], count, align) {
      assert Turned(fixed, rs, now, k, count, align, j);
    }
    forall j | 0 <= j < |rs| ensures now[j] == Partly(fixed, rs, k, count, align)[j] {
      assert Turned(fixed, rs, now, k, count, align, j);
      PartlyAt(fixed, rs, k, count, align, j);
    }
  }

  lemma PassedAll(fixed: bool, rs: seq<Region>, now: seq<Region>, count: nat, align: nat)
    requires align > 0 && 1 <= count <= BITS && Passed(fixed, rs, now, |rs|, count, align)
    ensures AllOk(rs) && AllocIn(fixed, rs, count, align) == (now, Nowhere)
  {
    PassedPartly(fixed, rs, now, |rs|, count, align);
  }

  lemma PassOn(fixed: bool, rs: seq<Region>, now: seq<Region>, k: nat, count: nat, align: nat)
    requires align > 0 && 1 <= count <= BITS && Passed(fixed, rs, now, k, count, align) && k < |rs|
    requires rs[k].Ok() && Exhausted(fixed, rs[k], count, align)
    ensures Passed(fixed, rs, now[k := Outcome(fixed, rs[k], count, align)], k + 1, count, align)
  {
    var next := now[k := Outcome(fixed, rs[k], count, align)];
    var passed := k + 1;
    forall j | 0 <= j < |rs| ensures Turned(fixed, rs, next, passed, count, align, j) {
      assert Turned(fixed, rs, now, k, count, align, j);
    }
  }

  lemma StopAt(fixed: bool, rs: seq<Region>, now: seq<Region>, k: nat, count: nat, align: nat)
    requires align > 0 && 1 <= count <= BITS && Passed(fixed, rs, now, k, count, align) && k < |rs|
    requires rs[k].Ok() && !Exhausted(fixed, rs[k], count, align)
    ensures AllOk(rs)
    ensures var i := FirstWord(fixed, rs[k].words, rs[k].hint, count, align);
      AllocIn(fixed, rs, count, align) ==
        (now[k := Outcome(fixed, rs[k], count, align)], At(k, i, Search(fixed, rs[k].words[i], count, align).found))
  {
    PassedPartly(fixed, rs, now, k, count, align);
    assert FirstRegion(fixed, rs, 0, count, align) == k;
  }

  /** Region k is searched next: the request is served there, or the search goes on. */
  lemma SearchNext(fixed: bool, rs: seq<Region>, now: seq<Region>, next: seq<Region>, k: nat, count: nat, align: nat)
    requires align > 0 && 1 <= count <= BITS && Passed(fixed, rs, now, k, count, align) && k < |rs|
    requires now[k].Ok() && next == now[k := Outcome(fixed, now[k], count, align)]
    ensures var i := FirstWord(fixed, now[k].words, now[k].hint, count, align);
      && (i < |now[k].words| ==>
           && AllOk(rs)
           && AllocIn(fixed, rs, count, align) == (next, At(k, i, Search(fixed, now[k].words[i], count, align).found)))
      && (i == |now[k].words| ==> Passed(fixed, rs, next, k + 1, count, align))
  {
    assert Turned(fixed, rs, now, k, count, align, k);
    if Exhausted(fixed, rs[k], count, align) {
      PassOn(fixed, rs, now, k, count, align);
    } else {
      StopAt(fixed, rs, now, k, count, align);
    }
  }
}
