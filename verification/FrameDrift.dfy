/** What the search of one word computes as written, for every alignment: the bits are tested one
    after the other, but the numbers they are known by run ahead. */
module FrameDrift {
  import opened Words
  import opened Bits
  import opened Division
  import opened FrameSearch

  /** The least multiple of the alignment at or above j. */
  function Up(j: nat, align: nat): (u: nat)
    requires align > 0
    ensures u >= j
  {
    if j % align == 0 then j else j + (align - j % align)
  }

  /** The number the code has reached when it tests bit m: after a taken bit it goes on at the next
      aligned number. */
  function Label(w: u32, align: nat, m: nat): nat
    requires align > 0
  {
    if m == 0 then 0
    else if Has(w, m - 1) then Up(Label(w, align, m - 1) + 1, align)
    else Label(w, align, m - 1) + 1
  }

  lemma {:induction false} LabelsGrow(w: u32, align: nat, m: nat, k: nat)
    requires align > 0 && m <= k
    ensures Label(w, align, m) + (k - m) <= Label(w, align, k)
    decreases k
  {
    if m < k {
      LabelsGrow(w, align, m, k - 1);
    }
  }

  /** `count` clear bits from bit m on, whatever the alignment. */
  ghost predicate RunAt(w: u32, count: nat, m: nat) {
    forall k :: m <= k < m + count ==> !Has(w, k)
  }

  ghost predicate NoneBelow(w: u32, count: nat, m: nat) {
    forall k :: 0 <= k < m ==> !RunAt(w, count, k)
  }

  ghost predicate LowestRun(w: u32, count: nat, m: nat) {
    RunAt(w, count, m) && NoneBelow(w, count, m)
  }

  /** The answer is the number of the lowest run, if the run still has room in the word there. */
  ghost predicate Drifted(w: u32, count: nat, align: nat, found: nat)
    requires align > 0
  {
    && (found < BITS ==>
         exists m: nat :: LowestRun(w, count, m) && Label(w, align, m) == found && found + count <= BITS)
    && (found >= BITS ==> forall m: nat :: LowestRun(w, count, m) ==> Label(w, align, m) + count > BITS)
  }

  /** The state of the loop at number j, with bit m to be tested next. */
  ghost predicate Drifting(w: u32, count: nat, align: nat, j: nat, m: nat, bit: u32, streak: nat, first: nat)
    requires align > 0
  {
    && m <= j && streak <= m && streak < count && (j < BITS ==> bit == Bit(m))
    && NoneBelow(w, count, m - streak)
    && (if streak == 0 then Up(j, align) == Label(w, align, m)
        else j == Label(w, align, m) && first + streak == j && first == Label(w, align, m - streak)
             && first + count <= BITS && forall k :: m - streak <= k < m ==> !Has(w, k))
  }

  lemma TakenBreaks(w: u32, count: nat, m: nat, streak: nat)
    requires streak <= m && streak < count && Has(w, m) && NoneBelow(w, count, m - streak)
    ensures NoneBelow(w, count, m + 1)
  {
    forall k | 0 <= k < m + 1 ensures !RunAt(w, count, k) {
      if k >= m - streak {
        assert k <= m < k + count;
      }
    }
  }

  lemma TooLate(w: u32, count: nat, align: nat, j: nat, m: nat)
    requires align > 0 && NoneBelow(w, count, m) && j <= Label(w, align, m) && j + count > BITS
    ensures Drifted(w, count, align, NONE)
  {
    forall k: nat | LowestRun(w, count, k) ensures Label(w, align, k) + count > BITS {
      assert k >= m;
      LabelsGrow(w, align, m, k);
    }
  }

  /** A number is passed over, */
  lemma Skips(w: u32, count: nat, align: nat, j: nat, m: nat, bit: u32, first: nat)
    requires align > 0 && j < BITS && Drifting(w, count, align, j, m, bit, 0, first) && j % align != 0
    ensures Drifting(w, count, align, j + 1, m, bit, 0, first)
  {
    NextUp(j, align);
  }

  /** a taken bit is tested, */
  lemma SeesTaken(w: u32, count: nat, align: nat, j: nat, m: nat, bit: u32, streak: nat, first: nat)
    requires align > 0 && j < BITS && Drifting(w, count, align, j, m, bit, streak, first)
    requires (streak > 0 || j % align == 0) && Has(w, m)
    ensures Drifting(w, count, align, j + 1, m + 1, Wrap(2 * bit), 0, first)
  {
    if m < 31 { NextBit(m); }
    TakenBreaks(w, count, m, streak);
  }

  /** or a clear one. */
  lemma SeesClear(w: u32, count: nat, align: nat, j: nat, m: nat, bit: u32, streak: nat, first: nat, first': nat)
    requires align > 0 && j < BITS && Drifting(w, count, align, j, m, bit, streak, first)
    requires (streak > 0 || (j % align == 0 && j + count <= BITS)) && !Has(w, m)
    requires first' == (if streak == 0 then j else first)
    ensures streak + 1 < count ==> Drifting(w, count, align, j + 1, m + 1, Wrap(2 * bit), streak + 1, first')
    ensures streak + 1 == count ==> Drifted(w, count, align, first')
  {
    if m < 31 { NextBit(m); }
    if streak + 1 == count {
      assert LowestRun(w, count, m - streak);
    }
  }

  lemma {:induction false} DriftScan(w: u32, count: nat, align: nat, j: nat, m: nat, bit: u32, streak: nat,
                                     first: nat, saw: bool, p: Probe)
    requires align > 0 && 1 <= count && j <= BITS && Drifting(w, count, align, j, m, bit, streak, first)
    requires p == Scan(false, w, count, align, j, bit, streak, first, saw)
    ensures Drifted(w, count, align, p.found)
    decreases BITS - j
  {
    if j == BITS || (streak == 0 && BITS - j < count) {
      TooLate(w, count, align, j, m);
    } else if streak == 0 && j % align != 0 {
      Skips(w, count, align, j, m, bit, first);
      DriftScan(w, count, align, j + 1, m, bit, streak, first, saw, p);
    } else {
      TestIs(w, m);
      if And(w, bit) != 0 {
        SeesTaken(w, count, align, j, m, bit, streak, first);
        DriftScan(w, count, align, j + 1, m + 1, Wrap(2 * bit), 0, first, saw, p);
      } else {
        var first' := if streak == 0 then j else first;
        SeesClear(w, count, align, j, m, bit, streak, first, first');
        if streak + 1 != count {
          DriftScan(w, count, align, j + 1, m + 1, Wrap(2 * bit), streak + 1, first', true, p);
        }
      }
    }
  }

  lemma NextUp(j: nat, align: nat)
    requires align > 0 && j % align != 0
    ensures Up(j + 1, align) == Up(j, align)
  {
    var q, r := j / align, j % align;
    assert j + 1 == q * align + (r + 1);
    if r + 1 < align {
      DivisionUnique(j + 1, align, q, r + 1);
    } else {
      assert j + 1 == (q + 1) * align;
      DivisionUnique(j + 1, align, q + 1, 0);
    }
  }

  /** As written and for every alignment, the search answers with the number it has reached at the
      lowest run of clear bits, aligned or not, and with none exactly when there is no room there. */
  lemma SearchDrifts(w: u32, count: nat, align: nat)
    requires align > 0 && 1 <= count <= BITS
    ensures Drifted(w, count, align, Search(false, w, count, align).found)
  {
    if w == FULL {
      FullIff(w);
      forall m: nat | LowestRun(w, count, m) ensures Label(w, align, m) + count > BITS {
        LabelsGrow(w, align, 0, m);
        assert m < BITS ==> Has(w, m);
      }
    } else {
      assert Bit(0) == 1;
      DriftScan(w, count, align, 0, 0, 1, 0, 0, false, Search(false, w, count, align));
    }
  }

  // ---------------------------------------------------------------- what it sees

  ghost predicate FirstClear(w: u32, m: nat, k: nat) {
    m <= k && !Has(w, k) && forall i :: m <= i < k ==> Has(w, i)
  }

  /** The first clear bit from bit m on is tested while there is room for a run. */
  ghost predicate Reached(w: u32, count: nat, align: nat, m: nat)
    requires align > 0
  {
    exists k: nat :: FirstClear(w, m, k) && Label(w, align, k) + count <= BITS
  }

  lemma NotReached(w: u32, count: nat, align: nat, j: nat, m: nat)
    requires align > 0 && j <= Label(w, align, m) && j + count > BITS
    ensures !Reached(w, count, align, m)
  {
    forall k: nat | FirstClear(w, m, k) ensures Label(w, align, k) + count > BITS {
      LabelsGrow(w, align, m, k);
    }
  }

  lemma ReachedNext(w: u32, count: nat, align: nat, m: nat)
    requires align > 0 && Has(w, m)
    ensures Reached(w, count, align, m) <==> Reached(w, count, align, m + 1)
  {
    if Reached(w, count, align, m) {
      var k: nat :| FirstClear(w, m, k) && Label(w, align, k) + count <= BITS;
      assert FirstClear(w, m + 1, k);
    }
    if Reached(w, count, align, m + 1) {
      var k: nat :| FirstClear(w, m + 1, k) && Label(w, align, k) + count <= BITS;
      assert FirstClear(w, m, k);
    }
  }

  lemma {:induction false} DriftSees(w: u32, count: nat, align: nat, j: nat, m: nat, bit: u32, first: nat)
    requires align > 0 && 1 <= count && j <= BITS && Drifting(w, count, align, j, m, bit, 0, first)
    ensures Scan(false, w, count, align, j, bit, 0, first, false).saw <==> Reached(w, count, align, m)
    decreases BITS - j
  {
    if j == BITS || BITS - j < count {
      NotReached(w, count, align, j, m);
    } else if j % align != 0 {
      Skips(w, count, align, j, m, bit, first);
      DriftSees(w, count, align, j + 1, m, bit, first);
    } else {
      TestIs(w, m);
      if And(w, bit) != 0 {
        SeesTaken(w, count, align, j, m, bit, 0, first);
        ReachedNext(w, count, align, m);
        DriftSees(w, count, align, j + 1, m + 1, Wrap(2 * bit), first);
      } else {
        assert FirstClear(w, m, m);
        if count != 1 {
          SawClear(false, w, count, align, j + 1, Wrap(2 * bit), 1, j, true);
        }
      }
    }
  }

  /** As written the search sees a clear bit exactly when it tests the lowest one in time. */
  lemma SeesDrifting(w: u32, count: nat, align: nat)
    requires align > 0 && 1 <= count <= BITS
    ensures Search(false, w, count, align).saw <==> Reached(w, count, align, 0)
  {
    if w == FULL {
      FullIff(w);
      forall k: nat | FirstClear(w, 0, k) ensures Label(w, align, k) + count > BITS {
        LabelsGrow(w, align, 0, k);
        assert k < BITS ==> Has(w, k);
      }
    } else {
      assert Bit(0) == 1;
      DriftSees(w, count, align, 0, 0, 1, 0);
    }
  }

  /** The search sees a clear bit in the word: with mask and number in step, one that is aligned and
      has room for the run; drifting, the lowest one, tested in time. */
  ghost predicate Visible(synced: bool, w: u32, count: nat, align: nat)
    requires align > 0
  {
    if InStep(synced, align) then Seeable(w, count, align) else Reached(w, count, align, 0)
  }

  lemma SawIffVisible(synced: bool, w: u32, count: nat, align: nat)
    requires align > 0 && 1 <= count <= BITS
    ensures Search(synced, w, count, align).saw <==> Visible(synced, w, count, align)
  {
    if InStep(synced, align) {
      SeesIff(synced, w, count, align);
    } else {
      SeesDrifting(w, count, align);
    }
  }
}
