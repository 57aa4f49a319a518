/** tmemcpyw and tmemsetw: 16-bit copy and fill inside one buffer, index by index upwards. */
module MemWords {
  type cell = n: nat | n < 0x1_0000

  /** The buffer after the upward copy has moved the first k of its words from s to d. */
  function Copied(b: seq<cell>, d: nat, s: nat, k: nat): (r: seq<cell>)
    requires d + k <= |b| && s + k <= |b|
    ensures |r| == |b|
  {
    if k == 0 then b
    else var c := Copied(b, d, s, k - 1); c[d + k - 1 := c[s + k - 1]]
  }

  /** What a copy is meant to do: the destination holds what the source held, all else is kept. */
  ghost predicate IsMove(b: seq<cell>, r: seq<cell>, d: nat, s: nat, n: nat)
    requires d + n <= |b| && s + n <= |b|
  {
    && |r| == |b|
    && (forall x :: d <= x < d + n ==> r[x] == b[s + (x - d)])
    && (forall x :: 0 <= x < |b| && !(d <= x < d + n) ==> r[x] == b[x])
  }

  lemma {:induction false} CopiedMoves(b: seq<cell>, d: nat, s: nat, n: nat, k: nat)
    requires d + n <= |b| && s + n <= |b| && k <= n
    requires d <= s || s + n <= d
    ensures IsMove(b, Copied(b, d, s, k), d, s, k)
  {
    if k > 0 {
      CopiedMoves(b, d, s, n, k - 1);
      var c := Copied(b, d, s, k - 1);
      assert c[s + k - 1] == b[s + k - 1];
    }
  }

  /** When the destination overlaps the source from above, word d - s of the destination
      receives a copy of word 0 instead of its own source. */
  lemma {:induction false} OverlapRepeats(b: seq<cell>, d: nat, s: nat, k: nat)
    requires s < d && d + k <= |b| && d - s < k
    ensures Copied(b, d, s, k)[d + (d - s)] == b[s]
    ensures Copied(b, d, s, k)[d] == b[s]
  {
    CopiedMoves(b, d, s, d - s, d - s);
    if k > d - s + 1 {
      OverlapRepeats(b, d, s, k - 1);
    }
  }

  lemma OverlapWitness(len: nat, d: nat, s: nat, n: nat) returns (b: seq<cell>)
    requires d + n <= len && s < d < s + n
    ensures |b| == len && !IsMove(b, Copied(b, d, s, n), d, s, n)
  {
    b := seq(len, i requires 0 <= i < len => if i == s then 1 else 0);
    OverlapRepeats(b, d, s, n);
    var x := d + (d - s);
    assert Copied(b, d, s, n)[x] != b[s + (x - d)];
  }

  /** The upward copy is a correct move of every buffer exactly when the destination does not
      start strictly inside the source. */
  lemma CopyCorrectIff(len: nat, d: nat, s: nat, n: nat)
    requires d + n <= len && s + n <= len
    ensures (forall b: seq<cell> :: |b| == len ==> IsMove(b, Copied(b, d, s, n), d, s, n))
      <==> d <= s || s + n <= d
  {
    if d <= s || s + n <= d {
      forall b: seq<cell> | |b| == len ensures IsMove(b, Copied(b, d, s, n), d, s, n) {
        CopiedMoves(b, d, s, n, n);
      }
    } else {
      var b := OverlapWitness(len, d, s, n);
    }
  }

  /** The value of the 16-bit counter after k turns of the loop. */
  function Counter(k: nat): (i: cell) {
    if k == 0 then 0 else (Counter(k - 1) + 1) % 0x1_0000
  }

  lemma {:induction false} CountsUp(k: nat)
    requires k <= 0xFFFF
    ensures Counter(k) == k
  {
    if k > 0 {
      CountsUp(k - 1);
    }
  }

  /** The loop of tmemcpyw ends exactly for counts up to 65535. */
  lemma CopyEndsIff(n: nat)
    ensures (exists k :: Counter(k) >= n) <==> n <= 0xFFFF
  {
    if n <= 0xFFFF {
      CountsUp(n);
    }
  }

  /** tmemcpyw, where it ends. */
  method CopyWords(b: array<cell>, d: nat, s: nat, n: nat)
    requires d + n <= b.Length && s + n <= b.Length
    requires n <= 0xFFFF
    modifies b
    ensures b[..] == Copied(old(b[..]), d, s, n)
  {
    var i := 0;
    while i < n
      invariant i <= n
      invariant b[..] == Copied(old(b[..]), d, s, i)
    {
      b[d + i] := b[s + i];
      i := (i + 1) % 0x1_0000;
    }
  }

  /** tmemsetw. */
  method SetWords(b: array<cell>, p: nat, w: cell, n: nat)
    requires p + n <= b.Length
    modifies b
    ensures b[..] == old(b[..p]) + seq(n, _ => w) + old(b[p + n..])
  {
    var i := 0;
    while i < n
      invariant i <= n
      invariant forall x :: p <= x < p + i ==> b[x] == w
      invariant forall x :: 0 <= x < b.Length && !(p <= x < p + i) ==> b[x] == old(b[x])
    {
      b[p + i] := w;
      i := i + 1;
    }
    assert b[..p] == old(b[..p]) && b[p + n..] == old(b[p + n..]);
    assert b[p..p + n] == seq(n, _ => w);
    assert b[..] == b[..p] + b[p..p + n] + b[p + n..];
  }
}
