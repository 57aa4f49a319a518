/** What the search hint is worth: in runs of single-frame requests without frees it skips only
    full words, so the hinted search is the plain one, and a fresh region hands out its frames in
    address order. */
module FrameHints {
  import opened Words
  import opened Bits
  import opened FrameSearch
  import opened Frames
  import opened FrameOwnership
  import opened FrameRuns
  import opened FrameBoot

  /** Every word below the hint is full. */
  ghost predicate FullBelow(r: Region) {
    forall i :: 0 <= i < r.hint && i < |r.words| ==> AllSet(r.words[i])
  }

  ghost predicate AllFullBelow(rs: seq<Region>) {
    forall k :: 0 <= k < |rs| ==> FullBelow(rs[k])
  }

  /** For single frames the first word that holds one is the first seen to have a clear bit. */
  lemma {:induction false} SeenIsFound(fixed: bool, ws: seq<u32>, i: nat)
    requires i <= |ws|
    ensures FirstSeen(fixed, ws, i, 1, 1) == FirstWord(fixed, ws, i, 1, 1)
    ensures var h := FirstWord(fixed, ws, i, 1, 1); forall x :: i <= x < h ==> AllSet(ws[x])
    decreases |ws| - i
  {
    if i < |ws| {
      SingleSearch(fixed, ws[i]);
      SeenIsFound(fixed, ws, i + 1);
    }
  }

  lemma OutcomeFullBelow(fixed: bool, r: Region)
    requires r.Ok() && FullBelow(r)
    ensures FullBelow(Outcome(fixed, r, 1, 1))
  {
    SeenIsFound(fixed, r.words, r.hint);
  }

  /** A single-frame request keeps every word below every hint full. */
  lemma SingleKeepsFullBelow(fixed: bool, rs: seq<Region>)
    requires AllOk(rs) && AllFullBelow(rs)
    ensures AllFullBelow(AllocIn(fixed, rs, 1, 1).0)
  {
    forall k | 0 <= k < |rs| ensures FullBelow(AllocIn(fixed, rs, 1, 1).0[k]) {
      var n := FirstRegion(fixed, rs, 0, 1, 1);
      PartlyAt(fixed, rs, if n < |rs| then n + 1 else n, 1, 1, k);
      OutcomeFullBelow(fixed, rs[k]);
    }
  }

  lemma {:induction false} FirstWordFromZero(fixed: bool, ws: seq<u32>, lo: nat, hi: nat)
    requires lo <= hi <= |ws| && forall i :: lo <= i < hi ==> AllSet(ws[i])
    ensures FirstWord(fixed, ws, lo, 1, 1) == FirstWord(fixed, ws, hi, 1, 1)
    decreases hi - lo
  {
    if lo < hi {
      SingleSearch(fixed, ws[lo]);
      FirstWordFromZero(fixed, ws, lo + 1, hi);
    }
  }

  /** The same regions, searched from word 0. */
  function Unhinted(rs: seq<Region>): (us: seq<Region>)
    ensures |us| == |rs| && forall k :: 0 <= k < |rs| ==> us[k] == rs[k].(hint := 0)
  {
    seq(|rs|, k requires 0 <= k < |rs| => rs[k].(hint := 0))
  }

  lemma {:induction false} SameFirstRegion(fixed: bool, rs: seq<Region>, from: nat)
    requires AllOk(rs) && AllFullBelow(rs) && from <= |rs|
    ensures FirstRegion(fixed, rs, from, 1, 1) == FirstRegion(fixed, Unhinted(rs), from, 1, 1)
    decreases |rs| - from
  {
    if from < |rs| {
      FirstWordFromZero(fixed, rs[from].words, 0, rs[from].hint);
      SameFirstRegion(fixed, rs, from + 1);
    }
  }

  /** The hinted search agrees with a search of every word. */
  lemma HintRefinesPlainSearch(fixed: bool, rs: seq<Region>)
    requires AllOk(rs) && AllFullBelow(rs)
    ensures AllocIn(fixed, rs, 1, 1).1 == AllocIn(fixed, Unhinted(rs), 1, 1).1
  {
    SameFirstRegion(fixed, rs, 0);
    var k := FirstRegion(fixed, rs, 0, 1, 1);
    if k < |rs| {
      FirstWordFromZero(fixed, rs[k].words, 0, rs[k].hint);
    }
  }

  // ---------------------------------------------------------------- a fresh region

  /** Exactly the first n frames are taken, and the words below the hint are full. */
  ghost predicate Prefix(r: Region, n: nat) {
    && r.Ok() && FullBelow(r)
    && forall x :: 0 <= x < 32 * |r.words| ==> (Taken(r.words, x) <==> x < n)
  }

  lemma BootPrefix(base: u32, blocks: nat)
    requires 0 < base && base + blocks * 4096 <= TWO32
    ensures Prefix(Boot(base, blocks), 0)
  {
    var r := Boot(base, blocks);
    forall x | 0 <= x < 32 * |r.words| ensures !Taken(r.words, x) {
      ZeroHas(x % 32);
    }
  }

  lemma NextPlace(r: Region, n: nat, place: Place)
    requires Prefix(r, n) && n < 32 * |r.words| && FirstFit([r], 1, 1, place)
    ensures place == At(0, n / 32, n % 32)
  {
    var w := n / 32;
    assert !Taken(r.words, n);
    assert w >= r.hint;
    assert Suitable(r.words[w], 1, 1, n % 32);
    assert [r][0] == r;
    assert place.At? && place.k == 0;
    var x := 32 * place.i + place.f;
    assert x / 32 == place.i && x % 32 == place.f;
    assert !Taken(r.words, x);
  }

  /** A request then takes frame n, the lowest free one. */
  lemma NextFrame(fixed: bool, r: Region, n: nat)
    requires Prefix(r, n) && n < 32 * |r.words|
    ensures var (rs', place) := AllocIn(fixed, [r], 1, 1);
      place == At(0, n / 32, n % 32) && |rs'| == 1 && Prefix(rs'[0], n + 1)
      && rs'[0].base == r.base && rs'[0].blocks == r.blocks
  {
    var (rs', place) := AllocIn(fixed, [r], 1, 1);
    AllocMarks(fixed, [r], 1, 1);
    AllocFirstFit(fixed, [r], 1, 1);
    SingleKeepsFullBelow(fixed, [r]);
    NextPlace(r, n, place);
    var ws' := r.words[n / 32 := Fill(r.words[n / 32], n % 32, 1)];
    assert rs'[0].words == ws';
    forall y | 0 <= y < 32 * |r.words| ensures Taken(ws', y) <==> y < n + 1 {
      FillTakes(r.words, n / 32, n % 32, 1, y);
    }
  }

  /** A request yields frame n of the lone region r, at its address. The bitmap has more bits than
      the region has frames, so this is a frame of the region exactly when n < blocks. */
  ghost predicate Answers(fixed: bool, r: Region, n: nat)
    requires r.Ok()
  {
    IsFrame(r, Alloc(fixed, [r], 1, 0).1, n)
  }

  predicate IsFrame(r: Region, place: Place, n: nat) {
    && place.At? && RangeAt(place, 1) == Range(0, n, 1)
    && Returned([r], place) == Wrap(r.base + n * 4096)
    && (Within([r], place, 1) <==> n < r.blocks)
  }

  lemma PlaceIsFrame(r: Region, n: nat, i: nat, f: nat)
    requires n == 32 * i + f
    ensures IsFrame(r, At(0, i, f), n)
  {
  }

  lemma NextAnswer(fixed: bool, r: Region, n: nat)
    requires Prefix(r, n) && n < 32 * |r.words|
    ensures Answers(fixed, r, n)
  {
    NextFrame(fixed, r, n);
    PlaceIsFrame(r, n, n / 32, n % 32);
  }

  /** A lone region after one single-frame request. */
  function Next(fixed: bool, r: Region): (r': Region)
    requires r.Ok()
    ensures r'.Ok()
  {
    AllocMarks(fixed, [r], 1, Alignment(0));
    Alloc(fixed, [r], 1, 0).0[0]
  }

  lemma NextPrefix(fixed: bool, r: Region, n: nat)
    requires Prefix(r, n) && n < 32 * |r.words|
    ensures Prefix(Next(fixed, r), n + 1) && |Next(fixed, r).words| == |r.words|
  {
    NextFrame(fixed, r, n);
  }

  /** A lone region before each of a run of single-frame requests. */
  ghost predicate Trace(fixed: bool, trace: seq<Region>) {
    forall i :: 0 < i < |trace| ==> Follows(fixed, trace, i)
  }

  ghost predicate Follows(fixed: bool, trace: seq<Region>, i: nat) {
    0 < i < |trace| && trace[i - 1].Ok() && trace[i] == Next(fixed, trace[i - 1])
  }

  lemma FollowsPrefix(fixed: bool, trace: seq<Region>, n: nat)
    requires 0 < n && Follows(fixed, trace, n) && Prefix(trace[n - 1], n - 1) && n <= 32 * |trace[n - 1].words|
    ensures Prefix(trace[n], n) && |trace[n].words| == |trace[n - 1].words|
  {
    NextPrefix(fixed, trace[n - 1], n - 1);
  }

  lemma {:induction false} TracePrefix(fixed: bool, trace: seq<Region>, n: nat)
    requires Trace(fixed, trace) && n < |trace| <= 32 * |trace[0].words| && Prefix(trace[0], 0)
    ensures Prefix(trace[n], n) && |trace[n].words| == |trace[0].words|
    decreases n
  {
    if n > 0 {
      TracePrefix(fixed, trace, n - 1);
      assert Follows(fixed, trace, n);
      FollowsPrefix(fixed, trace, n);
    }
  }

  /** After boot, the n-th unaligned single-frame request (counting from 0) yields frame n, for every bit the
      bitmap has. */
  lemma ConsecutiveFrames(fixed: bool, trace: seq<Region>, n: nat)
    requires Trace(fixed, trace) && n < |trace| <= 32 * |trace[0].words| && Prefix(trace[0], 0)
    ensures Prefix(trace[n], n) && Answers(fixed, trace[n], n)
  {
    var r := trace[n];
    TracePrefix(fixed, trace, n);
    NextAnswer(fixed, r, n);
  }
}
