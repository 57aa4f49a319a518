/** The search of frame_alloc inside one bitmap word: the lowest aligned run of clear bits. */
module FrameSearch {
  import opened Words
  import opened Bits

  /** What the search of one word yields: the bit where the run starts, or 32 for none, and
      whether it saw any clear bit on the way. */
  datatype Probe = Probe(found: nat, saw: bool)

  const NONE: nat := 32

  /** The loop over j. `bit` is the mask under test; skipping an unaligned j leaves it behind,
      unless the declared correction `synced` moves it along with j. */
  function Scan(synced: bool, w: u32, count: nat, align: nat, j: nat, bit: u32, streak: nat, first: nat, saw: bool)
    : Probe
    requires align > 0
    decreases BITS - j
  {
    if j >= BITS then Probe(NONE, saw)
    else if streak == 0 && BITS - j < count then Probe(NONE, saw)
    else if streak == 0 && j % align != 0 then
      Scan(synced, w, count, align, j + 1, if synced then Wrap(2 * bit) else bit, streak, first, saw)
    else if And(w, bit) == 0 then
      var first' := if streak == 0 then j else first;
      if streak + 1 == count then Probe(first', true)
      else Scan(synced, w, count, align, j + 1, Wrap(2 * bit), streak + 1, first', true)
    else Scan(synced, w, count, align, j + 1, Wrap(2 * bit), 0, first, saw)
  }

  /** The search of one word; a full word is passed over without a look at its bits. */
  function Search(synced: bool, w: u32, count: nat, align: nat): Probe
    requires align > 0
  {
    if w == FULL then Probe(NONE, false) else Scan(synced, w, count, align, 0, 1, 0, 0, false)
  }

  lemma {:induction false} ScanFits(synced: bool, w: u32, count: nat, align: nat, j: nat, bit: u32, streak: nat,
                                    first: nat, saw: bool)
    requires align > 0 && j <= BITS && 1 <= count && (streak > 0 ==> first + streak == j)
    ensures var p := Scan(synced, w, count, align, j, bit, streak, first, saw);
      p.found < BITS ==> p.found + count <= BITS
    decreases BITS - j
  {
    if j == BITS || (streak == 0 && BITS - j < count) {
    } else if streak == 0 && j % align != 0 {
      ScanFits(synced, w, count, align, j + 1, if synced then Wrap(2 * bit) else bit, streak, first, saw);
    } else if And(w, bit) == 0 {
      if streak + 1 != count {
        ScanFits(synced, w, count, align, j + 1, Wrap(2 * bit), streak + 1, if streak == 0 then j else first, true);
      }
    } else {
      ScanFits(synced, w, count, align, j + 1, Wrap(2 * bit), 0, first, saw);
    }
  }

  /** The word after a successful search has set its run; unchanged when there was none. */
  function Take(synced: bool, w: u32, count: nat, align: nat): u32
    requires align > 0 && 1 <= count <= BITS
  {
    ScanFits(synced, w, count, align, 0, 1, 0, 0, false);
    var f := Search(synced, w, count, align).found;
    if f < BITS then Fill(w, f, count) else w
  }

  method SearchWord(synced: bool, w: u32, count: nat, align: nat) returns (found: nat, saw: bool)
    requires align > 0 && 1 <= count <= BITS
    ensures Probe(found, saw) == Search(synced, w, count, align)
  {
    if w == FULL {
      return NONE, false;
    }
    var bit: u32 := 1;
    var streak, first, j := 0, 0, 0;
    saw := false;
    while j < BITS
      invariant 0 <= j <= BITS && 0 <= streak
      invariant Scan(synced, w, count, align, j, bit, streak, first, saw) == Search(synced, w, count, align)
    {
      if streak == 0 {
        if BITS - j < count {
          break;
        }
        if j % align != 0 {
          bit := if synced then Wrap(2 * bit) else bit;
          j := j + 1;
          continue;
        }
      }
      if And(w, bit) == 0 {
        if streak == 0 {
          first := j;
        }
        streak := streak + 1;
        saw := true;
        if streak == count {
          return first, saw;
        }
      } else {
        streak := 0;
      }
      bit := Wrap(2 * bit);
      j := j + 1;
    }
    return NONE, saw;
  }

  // ---------------------------------------------------------------- meaning

  /** An aligned run of `count` clear bits at f. */
  ghost predicate Suitable(w: u32, count: nat, align: nat, f: nat)
    requires align > 0
  {
    f + count <= BITS && f % align == 0 && forall k :: f <= k < f + count ==> !Has(w, k)
  }

  /** The search is right: the lowest suitable run, or none when there is none. */
  ghost predicate Right(w: u32, count: nat, align: nat, found: nat)
    requires align > 0
  {
    && (found < BITS ==> Suitable(w, count, align, found))
    && (forall f :: 0 <= f < found && f < BITS ==> !Suitable(w, count, align, f))
  }

  /** The alignments for which mask and bit number stay together wherever it matters. */
  predicate InStep(synced: bool, align: nat) {
    synced || align <= 1 || align >= BITS
  }

  /** The loop invariant: the mask names bit j, except that with a large alignment and no streak
      nothing will be tested any more. */
  ghost predicate Ready(synced: bool, w: u32, count: nat, align: nat, j: nat, bit: u32, streak: nat, first: nat)
    requires align > 0
  {
    && 1 <= count && streak < count
    && (j < BITS ==> bit == Bit(j) || (streak == 0 && j > 0 && align >= BITS))
    && (streak > 0 ==> first + streak == j && first % align == 0 && first + count <= BITS
                       && forall k :: first <= k < j ==> !Has(w, k))
    && (forall f :: 0 <= f < BITS && f < (if streak > 0 then first else j) ==> !Suitable(w, count, align, f))
  }

  lemma SmallMod(j: nat, align: nat)
    requires 0 < j < align
    ensures j % align == j
  {
  }

  /** A clear bit broken by a taken one: no run can start between the streak's start and j. */
  lemma BrokenStreak(w: u32, count: nat, align: nat, j: nat, lo: nat, f: nat)
    requires align > 0 && j < lo + count && Has(w, j) && lo <= f <= j
    ensures !Suitable(w, count, align, f)
  {
  }

  lemma {:induction false} ScanRight(synced: bool, w: u32, count: nat, align: nat, j: nat, bit: u32, streak: nat,
                                     first: nat, saw: bool)
    requires align > 0 && InStep(synced, align) && j <= BITS
    requires Ready(synced, w, count, align, j, bit, streak, first)
    ensures Right(w, count, align, Scan(synced, w, count, align, j, bit, streak, first, saw).found)
    decreases BITS - j
  {
    if j == BITS {
    } else if streak == 0 && BITS - j < count {
    } else if streak == 0 && j % align != 0 {
      if j < 31 { NextBit(j); }
      ScanRight(synced, w, count, align, j + 1, if synced then Wrap(2 * bit) else bit, streak, first, saw);
    } else {
      if bit != Bit(j) {
        SmallMod(j, align);
      }
      TestIs(w, j);
      if j < 31 { NextBit(j); }
      if And(w, bit) == 0 {
        var first' := if streak == 0 then j else first;
        if streak + 1 != count {
          ScanRight(synced, w, count, align, j + 1, Wrap(2 * bit), streak + 1, first', true);
        }
      } else {
        var lo := if streak > 0 then first else j;
        forall f | 0 <= f < BITS && f < j + 1 ensures !Suitable(w, count, align, f) {
          if f >= lo {
            BrokenStreak(w, count, align, j, lo, f);
          }
        }
        ScanRight(synced, w, count, align, j + 1, Wrap(2 * bit), 0, first, saw);
      }
    }
  }

  lemma FullHasNone(w: u32, count: nat, align: nat, f: nat)
    requires w == FULL && align > 0 && count >= 1
    ensures !Suitable(w, count, align, f)
  {
    FullIff(w);
    if f < BITS {
      assert Has(w, f);
    }
  }

  /** First fit inside a word, complete: skipping past a broken streak loses no candidate. */
  lemma SearchRight(synced: bool, w: u32, count: nat, align: nat)
    requires align > 0 && InStep(synced, align) && 1 <= count <= BITS
    ensures Right(w, count, align, Search(synced, w, count, align).found)
  {
    if w == FULL {
      forall f | 0 <= f < BITS ensures !Suitable(w, count, align, f) {
        FullHasNone(w, count, align, f);
      }
    } else {
      ScanRight(synced, w, count, align, 0, 1, 0, 0, false);
    }
  }

  // ---------------------------------------------------------------- the skipped mask

  /** Skipped numbers move j but not the mask. */
  lemma {:induction false} SkipsTo(w: u32, align: nat, j: nat)
    requires 1 <= j <= align < BITS
    ensures Scan(false, w, 1, align, j, 2, 0, 0, false) == Scan(false, w, 1, align, align, 2, 0, 0, false)
    decreases align - j
  {
    if j < align {
      SmallMod(j, align);
      SkipsTo(w, align, j + 1);
    }
  }

  /** Bit 0 taken and bit 1 clear: for single frames at such an alignment the code tests bit 1 in
      place of bit `align`, and hands out `align` whatever its own bit says. */
  lemma SkipsToAlignment(w: u32, align: nat)
    requires 2 <= align < BITS && Has(w, 0) && !Has(w, 1)
    ensures Search(false, w, 1, align).found == align
  {
    FullIff(w);
    assert Bit(0) == 1 && Bit(1) == 2;
    TestIs(w, 0);
    TestIs(w, 1);
    assert And(w, 1) != 0 && And(w, 2) == 0;
    SkipsTo(w, align, 1);
    assert Wrap(2 * 1) == 2;
    assert Scan(false, w, 1, align, 0, 1, 0, 0, false) == Scan(false, w, 1, align, 1, 2, 0, 0, false);
  }

  /** A word whose bits 0 and `align` are taken and all others free. */
  function Victim(align: nat): (w: u32)
    requires align < BITS
    ensures forall k :: 0 <= k < BITS ==> (Has(w, k) <==> k == 0 || k == align)
  {
    assert forall k :: 0 <= k < BITS ==> !Has(0, k) by {
      forall k | 0 <= k < BITS ensures !Has(0, k) {
        ZeroHas(k);
      }
    }
    SetBit(SetBit(0, 0), align)
  }

  lemma HandsOutTaken(align: nat)
    requires 2 <= align < BITS
    ensures Search(false, Victim(align), 1, align).found == align
    ensures Has(Victim(align), align)
  {
    SkipsToAlignment(Victim(align), align);
  }

  /** As written, the search is right for every word and count exactly when no alignment from 2 to
      31 is asked for. */
  lemma AlignedSearchRightIff(align: nat)
    requires align > 0
    ensures align <= 1 || align >= BITS <==>
      forall w: u32, count: nat :: 1 <= count <= BITS ==> Right(w, count, align, Search(false, w, count, align).found)
  {
    if align <= 1 || align >= BITS {
      forall w: u32, count: nat | 1 <= count <= BITS
        ensures Right(w, count, align, Search(false, w, count, align).found)
      {
        SearchRight(false, w, count, align);
      }
    } else {
      HandsOutTaken(align);
      assert !Right(Victim(align), 1, align, Search(false, Victim(align), 1, align).found);
    }
  }

  // ---------------------------------------------------------------- what the hint learns

  /** A clear bit was seen only if there is one. */
  lemma {:induction false} SawClear(synced: bool, w: u32, count: nat, align: nat, j: nat, bit: u32, streak: nat,
                                    first: nat, saw: bool)
    requires align > 0 && 1 <= count && j <= BITS
    ensures saw ==> Scan(synced, w, count, align, j, bit, streak, first, saw).saw
    ensures Scan(synced, w, count, align, j, bit, streak, first, saw).found < BITS ==>
      Scan(synced, w, count, align, j, bit, streak, first, saw).saw
    decreases BITS - j
  {
    if j < BITS && !(streak == 0 && BITS - j < count) {
      if streak == 0 && j % align != 0 {
        SawClear(synced, w, count, align, j + 1, if synced then Wrap(2 * bit) else bit, streak, first, saw);
      } else if And(w, bit) == 0 {
        if streak + 1 != count {
          SawClear(synced, w, count, align, j + 1, Wrap(2 * bit), streak + 1, if streak == 0 then j else first, true);
        }
      } else {
        SawClear(synced, w, count, align, j + 1, Wrap(2 * bit), 0, first, saw);
      }
    }
  }

  lemma FoundSaw(synced: bool, w: u32, count: nat, align: nat)
    requires align > 0 && 1 <= count <= BITS
    ensures Search(synced, w, count, align).found < BITS ==> Search(synced, w, count, align).saw
  {
    if w != FULL {
      SawClear(synced, w, count, align, 0, 1, 0, 0, false);
    }
  }

  /** For single unaligned frames, the search sees a clear bit exactly when it finds one. */
  lemma {:induction false} SingleScan(synced: bool, w: u32, j: nat, bit: u32, first: nat)
    requires j <= BITS
    ensures Scan(synced, w, 1, 1, j, bit, 0, first, false).saw
      <==> Scan(synced, w, 1, 1, j, bit, 0, first, false).found < BITS
    decreases BITS - j
  {
    if j < BITS && And(w, bit) != 0 {
      SingleScan(synced, w, j + 1, Wrap(2 * bit), first);
    }
  }

  lemma SingleSearch(synced: bool, w: u32)
    ensures var p := Search(synced, w, 1, 1);
      && (p.saw <==> p.found < BITS)
      && (p.found < BITS <==> !AllSet(w))
      && (p.found < BITS ==> !Has(w, p.found) && forall k :: 0 <= k < p.found ==> Has(w, k))
  {
    var p := Search(synced, w, 1, 1);
    SearchRight(synced, w, 1, 1);
    if w != FULL {
      SingleScan(synced, w, 0, 1, 0);
    }
    forall k | 0 <= k < BITS && k < p.found ensures Has(w, k) {
      assert !Suitable(w, 1, 1, k);
    }
    if p.found < BITS {
      assert Suitable(w, 1, 1, p.found);
      assert !Has(w, p.found);
    }
  }

  /** Bit f or a later one is clear, aligned, and has room for the run in the word. */
  ghost predicate SeeableFrom(w: u32, count: nat, align: nat, j: nat)
    requires align > 0
  {
    exists f :: j <= f && f + count <= BITS && f % align == 0 && !Has(w, f)
  }

  ghost predicate Seeable(w: u32, count: nat, align: nat)
    requires align > 0
  {
    SeeableFrom(w, count, align, 0)
  }

  lemma SeeableNext(w: u32, count: nat, align: nat, j: nat)
    requires align > 0 && (j % align != 0 || Has(w, j))
    ensures SeeableFrom(w, count, align, j) <==> SeeableFrom(w, count, align, j + 1)
  {
    if SeeableFrom(w, count, align, j) {
      var f :| j <= f && f + count <= BITS && f % align == 0 && !Has(w, f);
      assert f != j;
    }
  }

  lemma {:induction false} ScanSees(synced: bool, w: u32, count: nat, align: nat, j: nat, bit: u32, first: nat)
    requires align > 0 && InStep(synced, align) && j <= BITS && count >= 1
    requires j < BITS ==> bit == Bit(j) || (j > 0 && align >= BITS)
    ensures Scan(synced, w, count, align, j, bit, 0, first, false).saw <==> SeeableFrom(w, count, align, j)
    decreases BITS - j
  {
    if j == BITS || BITS - j < count {
    } else if j % align != 0 {
      if j < 31 { NextBit(j); }
      SeeableNext(w, count, align, j);
      ScanSees(synced, w, count, align, j + 1, if synced then Wrap(2 * bit) else bit, first);
    } else {
      if bit != Bit(j) {
        SmallMod(j, align);
      }
      TestIs(w, j);
      if j < 31 { NextBit(j); }
      if And(w, bit) != 0 {
        SeeableNext(w, count, align, j);
        ScanSees(synced, w, count, align, j + 1, Wrap(2 * bit), first);
      } else if count != 1 {
        SawClear(synced, w, count, align, j + 1, Wrap(2 * bit), 1, j, true);
      }
    }
  }

  /** The search sees a clear bit exactly when one is aligned and has room for the run. */
  lemma SeesIff(synced: bool, w: u32, count: nat, align: nat)
    requires align > 0 && InStep(synced, align) && 1 <= count <= BITS
    ensures Search(synced, w, count, align).saw <==> Seeable(w, count, align)
  {
    if w == FULL {
      FullIff(w);
    } else {
      assert Bit(0) == 1;
      ScanSees(synced, w, count, align, 0, 1, 0);
    }
  }
}
