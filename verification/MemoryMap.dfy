/** How mm_init makes regions of the entries of the memory map and links their records. The records
    are numbered in the order they are made; `accepted` says, for each available entry, whether
    it yielded a record. */
module MemoryMap {
  import opened Words
  import opened RegionSetup

  datatype Link = Null | To(r: nat)

  /** The records' `next` fields, `firstblock`, and the variable `newblock`. */
  datatype Records = Records(next: seq<Link>, first: Link, newblock: Link)

  /** One turn of mm_init's loop. */
  function Entry(s: Records, accepted: bool): Records
    requires s.newblock.To? ==> s.newblock.r < |s.next|
  {
    var made := if accepted then To(|s.next|) else Null;
    var next := if accepted then s.next + [Null] else s.next;
    Records(
      if s.newblock.To? then next[s.newblock.r := made] else next,
      if accepted && s.first == Null then made else s.first,
      made)
  }

  /** The records reached from one by following `next`, which always leads to a later record. */
  ghost predicate Chain(next: seq<Link>, from: Link, path: seq<nat>)
    decreases path
  {
    if path == [] then from == Null
    else from == To(path[0]) && path[0] < |next| && Chain(next, next[path[0]], path[1..])
  }

  function Count(accepted: seq<bool>): nat {
    if accepted == [] then 0 else (if accepted[|accepted| - 1] then 1 else 0) + Count(accepted[..|accepted| - 1])
  }

  /** How many of the entries are accepted before the first rejection that follows an acceptance. */
  function FirstRun(accepted: seq<bool>): nat {
    if accepted == [] then 0
    else
      var before := accepted[..|accepted| - 1];
      if accepted[|accepted| - 1] && !Broken(before) then FirstRun(before) + 1 else FirstRun(before)
  }

  /** Some entry was rejected after another had been accepted. */
  predicate Broken(accepted: seq<bool>) {
    exists i, j :: 0 <= i < j < |accepted| && accepted[i] && !accepted[j]
  }

  function UpTo(from: nat, to: nat): (s: seq<nat>)
    requires from <= to
    ensures |s| == to - from && forall i :: 0 <= i < |s| ==> s[i] == from + i
  {
    seq(to - from, i => from + i)
  }

  /** The first `run` records are chained one to the next; if the run is over, its last record
      points nowhere, and later records are linked among themselves only. */
  ghost predicate Linked(s: Records, made: nat, run: nat, broken: bool) {
    && |s.next| == made && run <= made
    && s.first == (if made == 0 then Null else To(0))
    && (made > 0 ==> run > 0) && (broken ==> made > 0)
    && (forall i, j :: 0 <= i < j < run && j == i + 1 ==> s.next[i] == To(j))
    && (run > 0 ==> s.next[run - 1] == Null)
    && (!broken ==> run == made && s.newblock == (if made == 0 then Null else To(made - 1)))
    && (broken && s.newblock.To? ==> run <= s.newblock.r < made)
  }

  lemma BrokenStep(before: seq<bool>, a: bool)
    ensures Broken(before + [a]) <==> Broken(before) || (Count(before) > 0 && !a)
    decreases before
  {
    var all := before + [a];
    if Broken(before) {
      var i, j :| 0 <= i < j < |before| && before[i] && !before[j];
      assert all[i] && !all[j];
    }
    if Count(before) > 0 && !a {
      var i := SomeAccepted(before);
      assert all[i] && !all[|before|];
    }
    if Broken(all) {
      var i, j :| 0 <= i < j < |all| && all[i] && !all[j];
      if j < |before| {
        assert before[i] && !before[j];
      } else {
        assert before[i];
        NoneAccepted(before, i);
      }
    }
  }

  lemma {:induction false} SomeAccepted(s: seq<bool>) returns (i: nat)
    requires Count(s) > 0
    ensures i < |s| && s[i]
  {
    if s[|s| - 1] { i := |s| - 1; } else { i := SomeAccepted(s[..|s| - 1]); }
  }

  lemma {:induction false} NoneAccepted(s: seq<bool>, i: nat)
    requires i < |s| && s[i]
    ensures Count(s) > 0
  {
    if i < |s| - 1 {
      NoneAccepted(s[..|s| - 1], i);
    }
  }

  lemma LinkedStep(s: Records, before: seq<bool>, a: bool)
    requires Linked(s, Count(before), FirstRun(before), Broken(before))
    ensures s.newblock.To? ==> s.newblock.r < |s.next|
    ensures Linked(Entry(s, a), Count(before + [a]), FirstRun(before + [a]), Broken(before + [a]))
  {
    BrokenStep(before, a);
    assert (before + [a])[..|before|] == before;
  }

  lemma {:induction false} ChainUpTo(next: seq<Link>, i: nat, run: nat)
    requires i < run <= |next|
    requires forall k, j :: 0 <= k < j < run && j == k + 1 ==> next[k] == To(j)
    requires next[run - 1] == Null
    ensures Chain(next, To(i), UpTo(i, run))
    decreases run - i
  {
    var path := UpTo(i, run);
    if i + 1 < run {
      ChainUpTo(next, i + 1, run);
      assert path[1..] == UpTo(i + 1, run);
    } else {
      assert path[1..] == [];
    }
  }

  // ---------------------------------------------------------------- the entries

  datatype MapEntry = MapEntry(chunk: Chunk, available: bool)

  /** What becomes of the available entries, in order: the heap is taken from the first that has
      room for it. */
  function Made(es: seq<MapEntry>, kernelEnd: u32): seq<Setup> {
    if es == [] then []
    else
      var before, e := Made(es[..|es| - 1], kernelEnd), es[|es| - 1];
      if e.available then before + [Init(e.chunk, kernelEnd, HasHeap(before))] else before
  }

  function HasHeap(made: seq<Setup>): bool {
    made != [] && (made[|made| - 1].carved || HasHeap(made[..|made| - 1]))
  }

  /** There is a heap once an entry has given it up. */
  lemma {:induction false} HasHeapIff(made: seq<Setup>)
    ensures HasHeap(made) <==> exists j :: 0 <= j < |made| && made[j].carved
  {
    if made != [] {
      var before := made[..|made| - 1];
      HasHeapIff(before);
      if HasHeap(before) {
        var j :| 0 <= j < |before| && before[j].carved;
        assert made[j].carved;
      }
      if exists j :: 0 <= j < |made| && made[j].carved {
        var j :| 0 <= j < |made| && made[j].carved;
        assert j < |before| ==> before[j].carved;
      }
    }
  }

  function Accepted(made: seq<Setup>): (flags: seq<bool>)
    ensures |flags| == |made| && forall k :: 0 <= k < |made| ==> flags[k] == made[k].accepted
  {
    seq(|made|, k requires 0 <= k < |made| => made[k].accepted)
  }

  /** The regions of the records, in the order they are made. */
  function Regions(made: seq<Setup>): seq<Setup> {
    if made == [] then []
    else
      var before, s := Regions(made[..|made| - 1]), made[|made| - 1];
      if s.accepted then before + [s] else before
  }

  /** An accepted entry's record has the number of accepted entries before it. */
  lemma {:induction false} RegionOfRecord(made: seq<Setup>, j: nat)
    requires j < |made| && made[j].accepted
    ensures var r := Count(Accepted(made[..j])); r < |Regions(made)| && Regions(made)[r] == made[j]
  {
    var n := |made| - 1;
    var before := made[..n];
    RegionsCount(before);
    assert Accepted(made)[..n] == Accepted(before);
    if j < n {
      RegionOfRecord(before, j);
      assert before[..j] == made[..j];
    }
  }

  lemma {:induction false} RegionsCount(made: seq<Setup>)
    ensures |Regions(made)| == Count(Accepted(made))
  {
    if made != [] {
      var n := |made| - 1;
      assert Accepted(made)[..n] == Accepted(made[..n]);
      RegionsCount(made[..n]);
    }
  }

  /** The records link the regions made so far. */
  ghost predicate Linking(s: Records, made: seq<Setup>) {
    Linked(s, Count(Accepted(made)), FirstRun(Accepted(made)), Broken(Accepted(made)))
  }

  lemma MadeStep(s: Records, made: seq<Setup>, setup: Setup)
    requires Linking(s, made)
    ensures s.newblock.To? ==> s.newblock.r < |s.next|
    ensures Linking(Entry(s, setup.accepted), made + [setup])
    ensures HasHeap(made + [setup]) == (setup.carved || HasHeap(made))
    ensures Regions(made + [setup]) == if setup.accepted then Regions(made) + [setup] else Regions(made)
  {
    assert (made + [setup])[..|made|] == made;
    assert Accepted(made + [setup]) == Accepted(made) + [setup.accepted];
    LinkedStep(s, Accepted(made), setup.accepted);
  }

  /** At most one entry gives up the heap. */
  lemma {:induction false} OneHeap(es: seq<MapEntry>, kernelEnd: u32, j: nat, k: nat)
    requires j < k < |Made(es, kernelEnd)|
    ensures !(Made(es, kernelEnd)[j].carved && Made(es, kernelEnd)[k].carved)
  {
    var before := Made(es[..|es| - 1], kernelEnd);
    if k < |before| {
      OneHeap(es[..|es| - 1], kernelEnd, j, k);
    } else if before[j].carved {
      CarvedHasHeap(before, j);
    }
  }

  lemma {:induction false} CarvedHasHeap(made: seq<Setup>, j: nat)
    requires j < |made| && made[j].carved
    ensures HasHeap(made)
  {
    if j < |made| - 1 {
      CarvedHasHeap(made[..|made| - 1], j);
    }
  }

  predicate Holds(b: MemBlock, e: MapEntry)
    reads b
  {
    e == MapEntry(b.Value(), b.available)
  }

  function Snapshot(entries: seq<MemBlock>): (es: seq<MapEntry>)
    reads entries
    ensures |es| == |entries|
    ensures forall k :: 0 <= k < |entries| ==> Holds(entries[k], es[k])
  {
    seq(|entries|, k requires 0 <= k < |entries| reads entries => MapEntry(entries[k].Value(), entries[k].available))
  }

  /** The variables of mm_init after these entries. */
  ghost predicate Tracking(made: seq<Setup>, heapReady: bool, s: Records, regions: seq<Setup>) {
    heapReady == HasHeap(made) && regions == Regions(made) && Linking(s, made)
  }

  /** BITMAP_STACK_SIZE: the records come from a fixed pool. */
  const POOL: nat := 32

  /** One available entry is set up, and its record linked. If the pool is exhausted there is no
      record: the code writes through a null pointer, and the model stops. */
  method TakeEntry(b: MemBlock, kernelEnd: u32, ghost made: seq<Setup>, heapReady: bool, s: Records,
                   regions: seq<Setup>)
    returns (ok: bool, ghost now: seq<Setup>, heapReady': bool, s': Records, regions': seq<Setup>)
    requires Tracking(made, heapReady, s, regions) && |regions| <= POOL
    modifies b
    ensures now == made + [Init(old(b.Value()), kernelEnd, HasHeap(made))]
    ensures ok <==> |Regions(now)| <= POOL
    ensures ok ==> Tracking(now, heapReady', s', regions')
  {
    var setup := b.InitMemBlock(kernelEnd, heapReady);
    MadeStep(s, made, setup);
    now := made + [setup];
    if setup.accepted && |regions| == POOL {
      return false, now, heapReady, s, regions;
    }
    ok, s' := true, Entry(s, setup.accepted);
    heapReady' := heapReady || setup.carved;
    regions' := if setup.accepted then regions + [setup] else regions;
  }

  /** Further entries make further regions. */
  lemma {:induction false} RegionsGrow(es: seq<MapEntry>, kernelEnd: u32, i: nat)
    requires i <= |es|
    ensures |Regions(Made(es[..i], kernelEnd))| <= |Regions(Made(es, kernelEnd))|
    decreases |es|
  {
    if i < |es| {
      var before := es[..|es| - 1];
      RegionsGrow(before, kernelEnd, i);
      assert before[..i] == es[..i];
      if es[|es| - 1].available {
        var made := Made(before, kernelEnd);
        OneMore(made, Init(es[|es| - 1].chunk, kernelEnd, HasHeap(made)));
      }
    } else {
      assert es[..i] == es;
    }
  }

  lemma OneMore(made: seq<Setup>, setup: Setup)
    ensures Regions(made + [setup]) == if setup.accepted then Regions(made) + [setup] else Regions(made)
  {
    assert (made + [setup])[..|made|] == made;
  }

  lemma MadeNext(es: seq<MapEntry>, kernelEnd: u32, i: nat)
    requires i < |es|
    ensures var made := Made(es[..i], kernelEnd);
      Made(es[..i + 1], kernelEnd) ==
        if es[i].available then made + [Init(es[i].chunk, kernelEnd, HasHeap(made))] else made
  {
    assert es[..i + 1][..i] == es[..i];
  }

  /** mm_init. If the entries yield more regions than the pool has records, it fails. Otherwise
      records 0, 1, ... up to the first rejection after an acceptance are chained from `firstblock`,
      in order; the records made after that are not. */
  method MmInit(entries: seq<MemBlock>, kernelEnd: u32) returns (ok: bool, s: Records, regions: seq<Setup>)
    requires forall j, k :: 0 <= j < k < |entries| ==> entries[j] != entries[k]
    modifies entries
    ensures var made := Made(old(Snapshot(entries)), kernelEnd);
      && (ok <==> |Regions(made)| <= 32)
      && (ok ==> regions == Regions(made) && |s.next| == |regions|
                 && Chain(s.next, s.first, UpTo(0, FirstRun(Accepted(made)))))
  {
    ghost var es := Snapshot(entries);
    ghost var made: seq<Setup> := [];
    var heapReady := false;
    ok, s, regions := true, Records([], Null, Null), [];
    var i := 0;
    while i < |entries|
      invariant 0 <= i <= |entries| && |regions| <= POOL
      invariant forall k :: i <= k < |entries| ==> Holds(entries[k], es[k])
      invariant made == Made(es[..i], kernelEnd) && Tracking(made, heapReady, s, regions)
    {
      MadeNext(es, kernelEnd, i);
      assert Holds(entries[i], es[i]);
      if entries[i].available {
        ok, made, heapReady, s, regions := TakeEntry(entries[i], kernelEnd, made, heapReady, s, regions);
        if !ok {
          RegionsGrow(es, kernelEnd, i + 1);
          return;
        }
      }
      i := i + 1;
    }
    ok := true;
    assert es[..i] == es;
    AllLinked(s, made);
  }

  lemma AllLinked(s: Records, made: seq<Setup>)
    requires Linking(s, made)
    ensures |s.next| == |Regions(made)| && Chain(s.next, s.first, UpTo(0, FirstRun(Accepted(made))))
  {
    RegionsCount(made);
    LinkedChains(s, Accepted(made));
  }

  lemma LinkedChains(s: Records, accepted: seq<bool>)
    requires Linked(s, Count(accepted), FirstRun(accepted), Broken(accepted))
    ensures |s.next| == Count(accepted) && Chain(s.next, s.first, UpTo(0, FirstRun(accepted)))
  {
    if FirstRun(accepted) > 0 {
      ChainUpTo(s.next, 0, FirstRun(accepted));
    }
  }

  /** Every region is in the chain frame_alloc walks exactly when no entry is accepted after the
      chain has been broken by a rejection. */
  lemma {:induction false} AllChainedIff(accepted: seq<bool>)
    ensures FirstRun(accepted) <= Count(accepted)
    ensures FirstRun(accepted) == Count(accepted) <==>
      forall k :: 0 <= k < |accepted| && accepted[k] ==> !Broken(accepted[..k])
  {
    if accepted == [] {
    } else {
      var n := |accepted| - 1;
      var before := accepted[..n];
      AllChainedIff(before);
      assert forall k :: 0 <= k <= n ==> before[..k] == accepted[..k];
    }
  }

  lemma BrokenStays(s: seq<bool>, k: nat)
    requires k <= |s|
    ensures Broken(s[..k]) ==> Broken(s)
  {
    if Broken(s[..k]) {
      var i, j :| 0 <= i < j < k && s[..k][i] && !s[..k][j];
      assert s[i] && !s[j];
    }
  }

  /** The chain ends with the records made before entry b, if b is rejected and the first to be so
      after an acceptance. */
  lemma {:induction false} FirstRunStops(accepted: seq<bool>, b: nat)
    requires b < |accepted| && !accepted[b] && Count(accepted[..b]) > 0 && !Broken(accepted[..b])
    ensures FirstRun(accepted) == Count(accepted[..b])
  {
    var n := |accepted| - 1;
    var before := accepted[..n];
    assert before + [accepted[n]] == accepted;
    if b < n {
      assert before[..b] == accepted[..b];
      FirstRunStops(before, b);
      var i := SomeAccepted(accepted[..b]);
      assert before[i] && !before[b];
    } else {
      AllChainedIff(before);
      forall k | 0 <= k < |before| && before[k] ensures !Broken(before[..k]) {
        BrokenStays(before, k);
      }
    }
  }
}
