/** Callers of the heap: besides calling kmalloc and kfree they write into the payloads they hold. */
module HeapClients {
  import opened Words
  import opened HeapChain
  import opened HeapOps
  import opened HeapImage

  /** A call, or one byte stored by a caller. */
  datatype Event = Call(op: Op) | Poke(a: nat, v: byte)

  function Calls(es: seq<Event>): seq<Op> {
    if es == [] then [] else (if es[0].Call? then [es[0].op] else []) + Calls(es[1..])
  }

  function After(bs: seq<Block>, e: Event): seq<Block> {
    if e.Call? then Step(bs, e.op) else bs
  }

  /** A 32-bit argument, and for kmalloc one that does not wrap the fit test. */
  predicate Callable(op: Op) {
    if op.OpMalloc? then op.n <= TWO32 - 18 else op.p < TWO32
  }

  /** Callers store into live payloads only. */
  ghost predicate LawfulEvent(bs: seq<Block>, e: Event) {
    match e
    case Call(op) => Callable(op)
    case Poke(a, _) => exists b :: b in Live(bs) && b.Data() <= a < b.End()
  }

  ghost predicate Lawful(bs: seq<Block>, es: seq<Event>)
    decreases es
  {
    es == [] || (LawfulEvent(bs, es[0]) && Lawful(After(bs, es[0]), es[1..]))
  }

  /** The payload a call gives up. */
  function Freed(op: Op): nat { if op.OpFree? then op.p else NULL }

  /** What the last store to address x put there. */
  function Poked(es: seq<Event>, x: nat, before: byte): byte {
    if es == [] then before
    else match es[|es| - 1]
      case Poke(a, v) => if a == x then v else Poked(es[..|es| - 1], x, before)
      case Call(_) => Poked(es[..|es| - 1], x, before)
  }

  /** Live blocks that no call frees stay live, and hold what was last stored in them. */
  ghost predicate Survive(bs: seq<Block>, bs': seq<Block>, m: seq<byte>, m': seq<byte>, es: seq<Event>) {
    |m'| == |m| && forall b :: b in Live(bs) && Call(OpFree(b.Data())) !in es ==>
      b in Live(bs') && PayloadIs(b, m, m', es)
  }

  ghost predicate PayloadIs(b: Block, m: seq<byte>, m': seq<byte>, es: seq<Event>) {
    forall x :: b.Data() <= x < b.End() && x < |m| && x < |m'| ==> m'[x] == Poked(es, x, m[x])
  }

  /** What an event leaves alone. */
  ghost predicate Spares(bs: seq<Block>, bs': seq<Block>, m: seq<byte>, m': seq<byte>, e: Event, lo: nat, hi: nat) {
    match e
    case Call(op) =>
      && PayloadsKept(bs, lo, hi, m, m', Freed(op))
      && forall b :: b in Live(bs) && b.Data() != Freed(op) ==> b in Live(bs')
    case Poke(a, v) => bs' == bs && a < |m| && m' == m[a := v]
  }

  lemma PokedSnoc(es: seq<Event>, e: Event, x: nat, before: byte)
    ensures Poked(es + [e], x, before) == if e.Poke? && e.a == x then e.v else Poked(es, x, before)
  {
    assert (es + [e])[..|es|] == es;
  }

  /** One more call. */
  lemma SurviveCall(bs0: seq<Block>, bs: seq<Block>, bs': seq<Block>, m0: seq<byte>, m: seq<byte>, m': seq<byte>,
                    es: seq<Event>, op: Op, lo: nat, hi: nat)
    requires Survive(bs0, bs, m0, m, es)
    requires PayloadsKept(bs, lo, hi, m, m', Freed(op))
    requires forall b :: b in Live(bs) && b.Data() != Freed(op) ==> b in Live(bs')
    ensures Survive(bs0, bs', m0, m', es + [Call(op)])
  {
    forall b | b in Live(bs0) && Call(OpFree(b.Data())) !in es + [Call(op)]
      ensures b in Live(bs') && PayloadIs(b, m0, m', es + [Call(op)])
    {
      assert Call(OpFree(b.Data())) !in es;
      assert Call(op) == (es + [Call(op)])[|es|];
      assert b.Data() != Freed(op);
      forall x | b.Data() <= x < b.End() && x < |m0| ensures m'[x] == Poked(es + [Call(op)], x, m0[x]) {
        PokedSnoc(es, Call(op), x, m0[x]);
      }
    }
  }

  /** One more store. */
  lemma SurvivePoke(bs0: seq<Block>, bs: seq<Block>, m0: seq<byte>, m: seq<byte>, m': seq<byte>,
                    es: seq<Event>, a: nat, v: byte)
    requires Survive(bs0, bs, m0, m, es)
    requires a < |m| && m' == m[a := v]
    ensures Survive(bs0, bs, m0, m', es + [Poke(a, v)])
  {
    forall b | b in Live(bs0) && Call(OpFree(b.Data())) !in es + [Poke(a, v)]
      ensures b in Live(bs) && PayloadIs(b, m0, m', es + [Poke(a, v)])
    {
      assert Call(OpFree(b.Data())) !in es;
      forall x | b.Data() <= x < b.End() && x < |m0| ensures m'[x] == Poked(es + [Poke(a, v)], x, m0[x]) {
        PokedSnoc(es, Poke(a, v), x, m0[x]);
      }
    }
  }

  /** One more event. */
  lemma SurviveMore(bs0: seq<Block>, bs: seq<Block>, bs': seq<Block>, m0: seq<byte>, m: seq<byte>, m': seq<byte>,
                    es: seq<Event>, e: Event, lo: nat, hi: nat)
    requires Survive(bs0, bs, m0, m, es) && Spares(bs, bs', m, m', e, lo, hi)
    ensures Survive(bs0, bs', m0, m', es + [e])
  {
    match e {
      case Call(op) => SurviveCall(bs0, bs, bs', m0, m, m', es, op, lo, hi);
      case Poke(a, v) => SurvivePoke(bs0, bs, m0, m, m', es, a, v);
    }
  }
}
