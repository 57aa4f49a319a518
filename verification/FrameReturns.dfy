/** Whether frame_free gives back what frame_alloc took, as written and with the corrections. */
module FrameReturns {
  import opened Words
  import opened Bits
  import opened Division
  import opened Frames
  import opened FrameDecode
  import opened FrameOwnership
  import opened FrameRuns

  // ---------------------------------------------------------------- one region's words

  lemma StillTaken(ws: seq<u32>, ws': seq<u32>, d: nat, count: nat, d': nat)
    requires 1 <= count <= 32 && d % 32 + count <= 32 && d + count <= 32 * |ws|
    requires d' % 32 + count <= 32 && d' / 32 < |ws| && d' != d
    requires forall x :: d <= x < d + count ==> !Taken(ws, x)
    requires ws' == ws[d / 32 := Fill(ws[d / 32], d % 32, count)]
    ensures ws'[d' / 32 := Empty(ws'[d' / 32], d' % 32, count)] != ws
  {
    var x := if d < d' then d else d + count - 1;
    FillTakes(ws, d / 32, d % 32, count, x);
    EmptyGives(ws', d' / 32, d' % 32, count, x);
    assert !Taken(ws, x);
  }

  lemma RunIsClear(ws: seq<u32>, d: nat, count: nat)
    requires d % 32 + count <= 32 && d + count <= 32 * |ws|
    requires d / 32 < |ws| && forall x :: d <= x < d + count ==> !Taken(ws, x)
    ensures Empty(Fill(ws[d / 32], d % 32, count), d % 32, count) == ws[d / 32]
  {
    forall k | d % 32 <= k < d % 32 + count ensures !Has(ws[d / 32], k) {
      assert !Taken(ws, d - d % 32 + k);
    }
    EmptyUndoesFill(ws[d / 32], d % 32, count);
  }

  /** Frames [d, d + count), clear in ws, are set in the region r. */
  ghost predicate Filled(ws: seq<u32>, r: Region, d: nat, count: nat) {
    && 1 <= count <= 32 && d % 32 + count <= 32 && d + count <= 32 * |ws|
    && (forall x :: d <= x < d + count ==> !Taken(ws, x))
    && r.words == ws[d / 32 := Fill(ws[d / 32], d % 32, count)]
  }

  lemma FilledDiffers(ws: seq<u32>, r: Region, d: nat, count: nat)
    requires Filled(ws, r, d, count)
    ensures r.words != ws
  {
    FillTakes(ws, d / 32, d % 32, count, d);
    assert Taken(r.words, d) && !Taken(ws, d);
  }

  /** Clearing the run at frame number d' restores the words exactly when d' is decoded to the bit
      and word of d. */
  lemma ClearingRestoresIff(fixed: bool, ws: seq<u32>, r: Region, d: nat, count: nat, d': nat)
    requires Filled(ws, r, d, count)
    ensures FreeRun(fixed, r, d', count).words == ws <==> BitOf(fixed, d') == d % 32 && WordOf(fixed, d') == d / 32
  {
    FilledDiffers(ws, r, d, count);
    var b, i := BitOf(fixed, d'), WordOf(fixed, d');
    if b == d % 32 && i == d / 32 {
      RunIsClear(ws, d, count);
    } else if 32 - b >= count && i < |ws| {
      DivisionUnique(32 * i + b, 32, i, b);
      StillTaken(ws, r.words, d, count, 32 * i + b);
    }
  }

  // ---------------------------------------------------------------- all regions' words

  ghost predicate RestoredAll(rs: seq<Region>, rs': seq<Region>) {
    |rs'| == |rs| && forall k :: 0 <= k < |rs| ==> rs'[k].words == rs[k].words
  }

  /** The words of region k, and of no other, have changed. */
  ghost predicate ChangedAt(rs: seq<Region>, now: seq<Region>, k: nat) {
    |now| == |rs| && k < |rs| && forall j :: 0 <= j < |rs| ==> (now[j].words == rs[j].words <==> j != k)
  }

  lemma FreedThere(fixed: bool, rs: seq<Region>, now: seq<Region>, k: nat, addr: u32, count: nat)
    requires ChangedAt(rs, now, k) && 1 <= count <= 32 && OwnerOf(fixed, now, 0, addr) == k
    ensures RestoredAll(rs, Free(fixed, now, addr, count)) <==>
      FreeRun(fixed, now[k], (addr - now[k].base) / 4096, count).words == rs[k].words
  {
    var r := FreeRun(fixed, now[k], (addr - now[k].base) / 4096, count);
    assert Free(fixed, now, addr, count) == now[k := r];
    assert now[k := r][k].words == rs[k].words <==> r.words == rs[k].words;
  }

  lemma FreedElsewhere(fixed: bool, rs: seq<Region>, now: seq<Region>, k: nat, addr: u32, count: nat)
    requires ChangedAt(rs, now, k) && 1 <= count <= 32 && OwnerOf(fixed, now, 0, addr) != k
    ensures !RestoredAll(rs, Free(fixed, now, addr, count))
  {
    assert Free(fixed, now, addr, count)[k] == now[k];
  }

  /** Freeing the address of frame d of region k. */
  lemma OwnAddressFreed(fixed: bool, rs: seq<Region>, now: seq<Region>, k: nat, d: nat, count: nat, addr: u32)
    requires AllOk(now) && Findable(fixed, now)
    requires ChangedAt(rs, now, k) && 1 <= count <= 32 && d < now[k].blocks
    requires addr == now[k].base + d * 4096
    ensures RestoredAll(rs, Free(fixed, now, addr, count)) <==>
      (fixed || d * 4096 <= now[k].blocks) && FreeRun(fixed, now[k], d, count).words == rs[k].words
  {
    OwnerIs(fixed, now, k, d, 0);
    assert (addr - now[k].base) / 4096 == d;
    if fixed || d * 4096 <= now[k].blocks {
      FreedThere(fixed, rs, now, k, addr, count);
    } else {
      FreedElsewhere(fixed, rs, now, k, addr, count);
    }
  }

  /** Frame d of region k is decoded to its own bit and word. */
  lemma FilledClearedIff(fixed: bool, ws: seq<u32>, r: Region, d: nat, count: nat)
    requires Filled(ws, r, d, count)
    ensures FreeRun(fixed, r, d, count).words == ws <==> fixed || d % 992 < 31
  {
    DecodeRightIff(d);
    ClearingRestoresIff(fixed, ws, r, d, count, d);
  }

  /** The regions with frames [d, d + count) of region k set. */
  function FillAt(rs: seq<Region>, k: nat, d: nat, count: nat): seq<Region>
    requires AllOk(rs) && k < |rs| && d % 32 + count <= 32 && d < rs[k].blocks
  {
    rs[k := rs[k].(words := rs[k].words[d / 32 := Fill(rs[k].words[d / 32], d % 32, count)])]
  }

  lemma FillAtIs(rs: seq<Region>, k: nat, d: nat, count: nat)
    requires AllOk(rs) && k < |rs| && 1 <= count && d % 32 + count <= 32 && d < rs[k].blocks
    requires forall x :: d <= x < d + count ==> !Taken(rs[k].words, x)
    ensures var now := FillAt(rs, k, d, count);
      && AllOk(now) && ChangedAt(rs, now, k) && Filled(rs[k].words, now[k], d, count)
      && now[k].base == rs[k].base && now[k].blocks == rs[k].blocks
      && forall f :: Findable(f, rs) ==> Findable(f, now)
  {
    FilledDiffers(rs[k].words, FillAt(rs, k, d, count)[k], d, count);
  }

  /** With the corrections, freeing always restores the bitmaps. As written it does so exactly when
      the frame number is below 31 modulo 992 and passes the range test, which compares a byte
      distance with the number of frames. */
  lemma RestoredIff(fixed: bool, rs: seq<Region>, now: seq<Region>, k: nat, d: nat, count: nat, addr: u32)
    requires AllOk(rs) && Findable(fixed, rs)
    requires k < |rs| && 1 <= count && d % 32 + count <= 32 && d < rs[k].blocks
    requires forall x :: d <= x < d + count ==> !Taken(rs[k].words, x)
    requires now == FillAt(rs, k, d, count) && addr == rs[k].base + d * 4096
    ensures RestoredAll(rs, Free(fixed, now, addr, count)) <==>
      Returnable(fixed, rs[k], d)
  {
    FillAtIs(rs, k, d, count);
    FilledFreedIff(fixed, rs, now, k, d, count, addr);
  }

  lemma FilledFreedIff(fixed: bool, rs: seq<Region>, now: seq<Region>, k: nat, d: nat, count: nat, addr: u32)
    requires AllOk(now) && Findable(fixed, now)
    requires ChangedAt(rs, now, k) && Filled(rs[k].words, now[k], d, count) && d < now[k].blocks
    requires addr == now[k].base + d * 4096
    ensures RestoredAll(rs, Free(fixed, now, addr, count)) <==>
      Returnable(fixed, now[k], d)
  {
    FilledClearedIff(fixed, rs[k].words, now[k], d, count);
    OwnAddressFreed(fixed, rs, now, k, d, count, addr);
  }

  // ---------------------------------------------------------------- frame_alloc, then frame_free

  /** Freeing the address of bit d of region k, a frame's or a tail bit's. */
  lemma AnswerFreed(rs: seq<Region>, now: seq<Region>, k: nat, d: nat, count: nat, addr: u32)
    requires AllOk(now) && Apart(now) && ChangedAt(rs, now, k) && 1 <= count <= 32
    requires d < now[k].blocks ==> addr == now[k].base + d * 4096
    requires d >= now[k].blocks ==> !InRange(true, now[k], addr)
    requires FreeRun(true, now[k], d, count).words == rs[k].words
    ensures RestoredAll(rs, Free(true, now, addr, count)) <==> d < now[k].blocks
  {
    if d < now[k].blocks {
      OwnAddressFreed(true, rs, now, k, d, count, addr);
    } else {
      FreedElsewhere(true, rs, now, k, addr, count);
    }
  }

  lemma MarkedFilled(rs: seq<Region>, rs': seq<Region>, count: nat, align: nat, place: Place)
    requires AllOk(rs) && align > 0 && 1 <= count <= 32
    requires place.At? && Marks(rs, rs', count, place) && FirstFit(rs, count, align, place)
    ensures Filled(rs[place.k].words, rs'[place.k], 32 * place.i + place.f, count)
    ensures ChangedAt(rs, rs', place.k)
  {
    var ws, d := rs[place.k].words, 32 * place.i + place.f;
    DivisionUnique(d, 32, place.i, place.f);
    forall x | d <= x < d + count ensures !Taken(ws, x) {
      DivisionUnique(x, 32, place.i, x - 32 * place.i);
    }
    FilledDiffers(ws, rs'[place.k], d, count);
  }

  /** The regions after an allocation, and its answer. */
  lemma AllocFreedIff(rs: seq<Region>, rs': seq<Region>, count: nat, align: nat, place: Place)
    requires AllOk(rs) && AllOk(rs') && Apart(rs') && align > 0 && 1 <= count <= 32
    requires Marks(rs, rs', count, place) && FirstFit(rs, count, align, place)
    ensures RestoredAll(rs, Free(true, rs', Returned(rs, place), count)) <==> Within(rs, place, 1)
  {
    if place.At? {
      MarkedFilled(rs, rs', count, align, place);
      AddressIs(rs'[place.k], 32 * place.i + place.f, Returned(rs, place));
      FilledClearedIff(true, rs[place.k].words, rs'[place.k], 32 * place.i + place.f, count);
      AnswerFreed(rs, rs', place.k, 32 * place.i + place.f, count, Returned(rs, place));
    } else {
      NullHasNoOwner(true, rs');
    }
  }

  /** With the corrections: freeing the answer of an allocation, NULL included, restores every
      bitmap word of every region exactly when the first region with a run has one that starts at
      one of its frames. */
  lemma FreeUndoesAllocIff(rs: seq<Region>, count: nat, align: nat)
    requires AllOk(rs) && Apart(rs) && align > 0 && 1 <= count <= 32
    ensures var (rs', place) := AllocIn(true, rs, count, align);
      RestoredAll(rs, Free(true, rs', Returned(rs, place), count)) <==> FirstFitsWithin(rs, count, align, 1)
  {
    var (rs', place) := AllocIn(true, rs, count, align);
    AllocMarks(true, rs, count, align);
    AllocFirstFit(true, rs, count, align);
    BoundsApart(rs, rs');
    AllocWithinIff(true, rs, count, align, 1);
    AllocFreedIff(rs, rs', count, align, place);
  }
}
