/** NUL-terminated byte strings and the bounded comparison the archive lookup uses. */
module CStrings {
  import opened Words

  /** The string in a buffer: its bytes up to the first NUL, and never more than n of them. */
  function Cut(s: seq<byte>, n: nat): (r: seq<byte>)
    ensures |r| <= n && |r| <= |s| && r == s[..|r|] && NUL !in r
    ensures |r| < n && |r| < |s| ==> s[|r|] == NUL
  {
    if n == 0 || s == [] || s[0] == NUL then [] else [s[0]] + Cut(s[1..], n - 1)
  }

  /** A buffer strncmp may be given: n bytes of it can be read, or a NUL stops the read. */
  ghost predicate Readable(s: seq<byte>, n: nat) {
    n <= |s| || NUL in s
  }

  /** The first position where the strings stop agreeing, as strncmp finds it. */
  ghost predicate StopsAt(s1: seq<byte>, s2: seq<byte>, n: nat, i: nat) {
    && i <= n && i <= |s1| && i <= |s2|
    && (forall k :: 0 <= k < i ==> s1[k] == s2[k] && s1[k] != NUL)
    && (i < n ==> i < |s1| && i < |s2| && (s1[i] == NUL || s2[i] == NUL || s1[i] != s2[i]))
  }

  /** Dictionary order on byte strings. */
  predicate Before(a: seq<byte>, b: seq<byte>)
    decreases a
  {
    b != [] && (a == [] || a[0] < b[0] || (a[0] == b[0] && Before(a[1..], b[1..])))
  }

  /** a precedes b if it runs out first, or has the smaller byte where they part. */
  lemma {:induction false} BeforeMeans(a: seq<byte>, b: seq<byte>)
    ensures Before(a, b) <==>
      exists i :: 0 <= i <= |a| && i < |b| && a[..i] == b[..i] && (i < |a| ==> a[i] < b[i])
    decreases a
  {
    if b == [] || a == [] || a[0] != b[0] {
      if Before(a, b) {
        assert a[..0] == b[..0];
      }
      forall i | 0 < i <= |a| && i < |b| ensures a[..i] != b[..i] {
        HeadsDiffer(a, b, i);
      }
    } else {
      BeforeMeans(a[1..], b[1..]);
      PartsLater(a, b);
    }
  }

  lemma HeadsDiffer(a: seq<byte>, b: seq<byte>, i: nat)
    requires 0 < i <= |a| && i <= |b| && a[0] != b[0]
    ensures a[..i] != b[..i]
  {
    assert a[..i][0] == a[0] && b[..i][0] == b[0];
  }

  lemma PartsLater(a: seq<byte>, b: seq<byte>)
    requires a != [] && b != [] && a[0] == b[0]
    ensures (exists i :: 0 <= i <= |a| && i < |b| && a[..i] == b[..i] && (i < |a| ==> a[i] < b[i])) <==>
      exists i :: 0 <= i <= |a| - 1 && i < |b| - 1 && a[1..][..i] == b[1..][..i] &&
        (i < |a| - 1 ==> a[1..][i] < b[1..][i])
  {
    if i :| 0 <= i <= |a| && i < |b| && a[..i] == b[..i] && (i < |a| ==> a[i] < b[i]) {
      assert a[1..][..i - 1] == a[..i][1..] && b[1..][..i - 1] == b[..i][1..];
    }
    if i :| 0 <= i <= |a| - 1 && i < |b| - 1 && a[1..][..i] == b[1..][..i] && (i < |a| - 1 ==> a[1..][i] < b[1..][i]) {
      var k := i + 1;
      assert a[..k] == [a[0]] + a[1..][..i] && b[..k] == [b[0]] + b[1..][..i];
    }
  }

  lemma CutStep(s: seq<byte>, n: nat)
    requires n > 0 && s != [] && s[0] != NUL
    ensures Cut(s, n) == [s[0]] + Cut(s[1..], n - 1)
  {
  }

  lemma BeforeStep(c: byte, a: seq<byte>, b: seq<byte>)
    ensures Before([c] + a, [c] + b) <==> Before(a, b)
  {
    assert ([c] + a)[1..] == a && ([c] + b)[1..] == b;
  }

  lemma {:induction false} EqualMeans(s1: seq<byte>, s2: seq<byte>, n: nat, i: nat)
    requires StopsAt(s1, s2, n, i) && (i < n ==> s1[i] == s2[i])
    ensures Cut(s1, n) == Cut(s2, n)
  {
    if i > 0 {
      EqualMeans(s1[1..], s2[1..], n - 1, i - 1);
      CutStep(s1, n);
      CutStep(s2, n);
    }
  }

  lemma {:induction false} LessMeans(s1: seq<byte>, s2: seq<byte>, n: nat, i: nat)
    requires StopsAt(s1, s2, n, i) && i < n && s1[i] < s2[i]
    ensures Before(Cut(s1, n), Cut(s2, n))
  {
    if i > 0 {
      LessMeans(s1[1..], s2[1..], n - 1, i - 1);
      CutStep(s1, n);
      CutStep(s2, n);
      BeforeStep(s1[0], Cut(s1[1..], n - 1), Cut(s2[1..], n - 1));
    } else {
      CutStep(s2, n);
      if s1[0] != NUL {
        CutStep(s1, n);
      }
    }
  }

  lemma {:induction false} NotBeforeItself(a: seq<byte>)
    ensures !Before(a, a)
  {
    if a != [] {
      NotBeforeItself(a[1..]);
    }
  }

  lemma SameStop(s1: seq<byte>, s2: seq<byte>, n: nat, i: nat)
    requires StopsAt(s1, s2, n, i)
    ensures StopsAt(s2, s1, n, i)
  {
  }

  /** What strncmp's answer means: zero for equal strings, otherwise the sign of their dictionary
      order, strings cut at n bytes. */
  lemma ComparisonMeans(s1: seq<byte>, s2: seq<byte>, n: nat, i: nat)
    requires StopsAt(s1, s2, n, i)
    ensures i == n || s1[i] == s2[i] <==> Cut(s1, n) == Cut(s2, n)
    ensures i < n && s1[i] < s2[i] ==> Before(Cut(s1, n), Cut(s2, n))
    ensures i < n && s1[i] > s2[i] ==> Before(Cut(s2, n), Cut(s1, n))
  {
    NotBeforeItself(Cut(s1, n));
    if i == n || s1[i] == s2[i] {
      EqualMeans(s1, s2, n, i);
    } else if s1[i] < s2[i] {
      LessMeans(s1, s2, n, i);
    } else {
      SameStop(s1, s2, n, i);
      LessMeans(s2, s1, n, i);
    }
  }

  /** strncmp. */
  method Strncmp(s1: seq<byte>, s2: seq<byte>, n: nat) returns (r: int)
    requires Readable(s1, n) && Readable(s2, n)
    ensures r == 0 <==> Cut(s1, n) == Cut(s2, n)
    ensures r < 0 ==> Before(Cut(s1, n), Cut(s2, n))
    ensures r > 0 ==> Before(Cut(s2, n), Cut(s1, n))
  {
    var i := 0;
    while i < n && s1[i] != NUL && s2[i] != NUL
      invariant i <= n && i <= |s1| && i <= |s2|
      invariant forall k :: 0 <= k < i ==> s1[k] == s2[k] && s1[k] != NUL
      invariant i < n ==> i < |s1| && i < |s2|
    {
      if s1[i] != s2[i] {
        ComparisonMeans(s1, s2, n, i);
        return (s1[i] as int) - (s2[i] as int);
      }
      i := i + 1;
    }
    ComparisonMeans(s1, s2, n, i);
    if i < n {
      if s1[i] != s2[i] {
        return (s1[i] as int) - (s2[i] as int);
      }
    }
    return 0;
  }
}
