/** Lookup in a ustar archive (the 'ustar Interchange Format' of the pax utility, IEEE Std
    1003.1-2017), and the proof that it inverts the writing of an archive. */
module Tar {
  import opened Words
  import opened CStrings
  import opened Octal

  const RECORD: nat := 512
  const NAME: nat := 100
  /** Offset of the size field in a header. */
  const SIZE_AT: nat := 124

  // ---------------------------------------------------------------- writing

  /** An archive member. `meta`, `term` and `rest` are the header bytes the lookup ignores, `pad`
      fills the data up to a whole record; their contents are arbitrary. */
  datatype Entry = Entry(name: seq<byte>, meta: seq<byte>, term: byte, rest: seq<byte>, data: seq<byte>,
                         pad: seq<byte>) {
    ghost predicate Ok() {
      && 1 <= |name| <= NAME && NUL !in name
      && |meta| == 24 && |rest| == 376
      && |data| < TWO32
      && |pad| == PadLength(|data|)
    }

    function Header(): seq<byte> {
      name + seq(if |name| <= NAME then NAME - |name| else 0, _ => NUL) + meta + Numeral(|data|, DIGITS) + [term] + rest
    }

    function Bytes(): seq<byte> { Header() + data + pad }
  }

  function PadLength(n: nat): nat { (RECORD - n % RECORD) % RECORD }

  ghost predicate AllOk(es: seq<Entry>) {
    forall e :: e in es ==> e.Ok()
  }

  function Concat(es: seq<Entry>): seq<byte> {
    if es == [] then [] else es[0].Bytes() + Concat(es[1..])
  }

  /** The ustar layout: the name in the first 100 bytes, filled up with NULs, the size in octal in 11
      bytes from offset 124, and records of 512 bytes. */
  lemma EntryLayout(e: Entry)
    requires e.Ok()
    ensures var h := e.Header();
      && |h| == 512 && h[..|e.name|] == e.name && (forall i :: |e.name| <= i < 100 ==> h[i] == 0)
      && h[124..135] == Numeral(|e.data|, 11)
    ensures e.Bytes() == e.Header() + e.data + e.pad && |e.Bytes()| % 512 == 0 && |e.pad| < 512
  {
    PadFills(|e.data|);
    var h := e.Header();
    var fill := seq(NAME - |e.name|, _ => NUL);
    assert h == ((e.name + fill) + e.meta) + (Numeral(|e.data|, DIGITS) + ([e.term] + e.rest));
    assert h[124..135] == Numeral(|e.data|, DIGITS);
    assert forall i :: |e.name| <= i < 100 ==> h[i] == fill[i - |e.name|];
  }

  lemma PadFills(n: nat)
    ensures (512 + n + PadLength(n)) % 512 == 0 && PadLength(n) < 512
  {
  }

  /** A record that ends an archive. */
  predicate Ends(tail: seq<byte>) {
    |tail| >= RECORD && tail[0] == NUL
  }

  // ---------------------------------------------------------------- reading

  datatype Outcome = Found(size: nat, start: nat) | NotFound

  /** How many whole records n bytes of data take up. */
  function DataRecords(n: nat): nat {
    if n == 0 then 0 else if n <= RECORD then 1 else 1 + DataRecords(n - RECORD)
  }

  /** The header after one at `off` whose member has `size` bytes, on a 32-bit address space. */
  function NextOffset(off: nat, size: u32): u32 {
    Wrap(off + RECORD * (1 + DataRecords(size)))
  }

  lemma {:induction false} DataRecordsPadded(n: nat)
    ensures RECORD * DataRecords(n) == n / RECORD * RECORD + (if n % RECORD != 0 then RECORD else 0)
    ensures RECORD * DataRecords(n) == n + PadLength(n)
  {
    if n > RECORD {
      DataRecordsPadded(n - RECORD);
    }
  }

  /** The step of tar_get_file from one header to the next. */
  method Advance(off: u32, size: u32) returns (next: u32)
    ensures next == NextOffset(off, size)
  {
    DataRecordsPadded(size);
    var whole := (size / RECORD + 1) * RECORD;
    var extra := if size % RECORD != 0 then RECORD else 0;
    SmallQuotient(size);
    next := Wrap(off + Wrap(Wrap(size / RECORD + 1) * RECORD));
    WrapInner(off, whole);
    if size % RECORD != 0 {
      WrapInner(RECORD, off + whole);
      next := Wrap(next + RECORD);
    }
    assert off + whole + extra == off + RECORD * (1 + DataRecords(size));
  }

  lemma SmallQuotient(size: u32)
    ensures Wrap(size / RECORD + 1) == size / RECORD + 1
  {
    assert size / RECORD <= size;
    assert size / RECORD + 1 < TWO32;
  }

  function SizeAt(mem: seq<byte>, off: nat): u32
    requires off + RECORD <= |mem|
  {
    Wrap(Value(mem[off + SIZE_AT..off + SIZE_AT + DIGITS]))
  }

  predicate Matches(mem: seq<byte>, off: nat, name: seq<byte>)
    requires off <= |mem|
  {
    Cut(mem[off..], NAME) == Cut(name, NAME)
  }

  /** From a header that is neither the end nor the wanted one, the code goes on to `next`. */
  ghost predicate GoesOn(mem: seq<byte>, name: seq<byte>, off: nat, next: nat) {
    && off + RECORD <= |mem| && mem[off] != NUL && !Matches(mem, off, name)
    && next == NextOffset(off, SizeAt(mem, off))
  }

  ghost predicate Stops(mem: seq<byte>, name: seq<byte>, off: nat) {
    off + RECORD <= |mem| && (mem[off] == NUL || Matches(mem, off, name))
  }

  /** The offsets tar_get_file visits when it starts at `off`: inside the memory, to an end. */
  ghost predicate Visits(mem: seq<byte>, name: seq<byte>, off: nat, path: seq<nat>) {
    && path != [] && path[0] == off
    && (forall i, j :: 0 <= i < j < |path| && j == i + 1 ==> GoesOn(mem, name, path[i], path[j]))
    && Stops(mem, name, path[|path| - 1])
  }

  /** What it answers at the offset where it stops. */
  function Answer(mem: seq<byte>, off: nat): Outcome
    requires off + RECORD <= |mem|
  {
    if mem[off] == NUL then NotFound else Found(SizeAt(mem, off), off + RECORD)
  }

  /** What tar_get_file reads from one header: its size, and whether it has the wanted name. */
  method ReadHeader(mem: seq<byte>, off: nat, name: seq<byte>) returns (size: u32, hit: bool)
    requires off + RECORD <= |mem| && NUL in name
    ensures size == SizeAt(mem, off) && hit == Matches(mem, off, name)
  {
    var field := mem[off + SIZE_AT..];
    size := TarGetSize(field);
    assert field[..DIGITS] == mem[off + SIZE_AT..off + SIZE_AT + DIGITS];
    var order := Strncmp(mem[off..], name, NAME);
    hit := order == 0;
  }

  /** tar_get_file, for an archive at address base: size and address of the data, or (0, 0). It
      needs what the walk needs: headers inside the memory, and an end to them. */
  method TarGetFile(mem: seq<byte>, base: u32, name: seq<byte>, ghost path: seq<nat>) returns (size: u32, ptr: nat)
    requires 0 < base && base + |mem| <= TWO32 && NUL in name
    requires Visits(mem, name, RECORD, path)
    ensures match Answer(mem, path[|path| - 1])
      case Found(n, start) => size == n && ptr == base + start
      case NotFound => size == 0 && ptr == 0
  {
    var offset: u32 := RECORD;
    ghost var i := 0;
    while true
      invariant 0 <= i < |path| && offset == path[i]
      decreases |path| - i
    {
      assert i + 1 == |path| ==> Stops(mem, name, path[i]);
      assert i + 1 < |path| ==> GoesOn(mem, name, path[i], path[i + 1]);
      if mem[offset] == NUL {
        break;
      }
      var n, hit := ReadHeader(mem, offset, name);
      if hit {
        return n, base + offset + RECORD;
      }
      offset := Advance(offset, n);
      i := i + 1;
    }
    return 0, 0;
  }

  // ---------------------------------------------------------------- inversion

  /** What looking up a name should give: the first entry of that name, its data at the place
      where it was written. `off` is where the entries start. */
  function Expected(es: seq<Entry>, name: seq<byte>, off: nat): Outcome {
    if es == [] then NotFound
    else if es[0].name == Cut(name, NAME) then Found(|es[0].data|, off + RECORD)
    else Expected(es[1..], name, off + |es[0].Bytes()|)
  }

  /** The header offsets up to and including the one that decides. */
  function Headers(es: seq<Entry>, name: seq<byte>, off: nat): (path: seq<nat>)
    ensures path != [] && path[0] == off
  {
    if es == [] || es[0].name == Cut(name, NAME) then [off]
    else [off] + Headers(es[1..], name, off + |es[0].Bytes()|)
  }

  lemma BytesLength(e: Entry)
    requires e.Ok()
    ensures |e.Header()| == RECORD
    ensures |e.Bytes()| == RECORD + |e.data| + PadLength(|e.data|)
  {
  }

  lemma {:induction false} PaddedName(name: seq<byte>, s: seq<byte>, n: nat)
    requires NUL !in name && |name| <= n && |name| <= |s| && s[..|name|] == name
    requires |name| < n ==> |name| < |s| && s[|name|] == NUL
    ensures Cut(s, n) == name
  {
    if name != [] {
      assert s[0] == name[0];
      assert s[1..][..|name| - 1] == name[1..];
      PaddedName(name[1..], s[1..], n - 1);
    }
  }

  lemma NameReads(e: Entry, m: seq<byte>, after: seq<byte>)
    requires e.Ok() && m == e.Bytes() + after
    ensures Cut(m, NAME) == e.name && |m| > 0 && m[0] == e.name[0] && m[0] != NUL
  {
    var h := e.Header();
    assert h[..|e.name|] == e.name;
    assert |e.name| < NAME ==> h[|e.name|] == NUL;
    assert m[..|e.name|] == h[..|e.name|];
    PaddedName(e.name, m, NAME);
  }

  lemma SizeReads(e: Entry, m: seq<byte>, after: seq<byte>)
    requires e.Ok() && m == e.Bytes() + after
    ensures |m| >= RECORD && Wrap(Value(m[SIZE_AT..SIZE_AT + DIGITS])) == |e.data|
  {
    BytesLength(e);
    var h := e.Header();
    var digits := Numeral(|e.data|, DIGITS);
    assert m[SIZE_AT..SIZE_AT + DIGITS] == h[SIZE_AT..SIZE_AT + DIGITS];
    assert h[SIZE_AT..SIZE_AT + DIGITS] == digits;
    FieldRoundTrip(|e.data|, []);
    assert (digits + [])[..DIGITS] == digits;
  }

  /** The header of a written entry reads back as that entry. */
  lemma HeaderReads(e: Entry, mem: seq<byte>, off: nat, after: seq<byte>)
    requires e.Ok() && off <= |mem| && mem[off..] == e.Bytes() + after
    ensures off + RECORD <= |mem| && mem[off] == e.name[0] && mem[off] != NUL
    ensures Cut(mem[off..], NAME) == e.name
    ensures SizeAt(mem, off) == |e.data|
  {
    NameReads(e, mem[off..], after);
    SizeReads(e, mem[off..], after);
    assert mem[off..][SIZE_AT..SIZE_AT + DIGITS] == mem[off + SIZE_AT..off + SIZE_AT + DIGITS];
  }

  lemma NextIsNext(off: nat, e: Entry)
    requires e.Ok() && off + |e.Bytes()| < TWO32
    ensures NextOffset(off, |e.data|) == off + |e.Bytes()|
  {
    BytesLength(e);
    DataRecordsPadded(|e.data|);
  }

  lemma VisitsMore(mem: seq<byte>, name: seq<byte>, off: nat, path: seq<nat>)
    requires path != [] && Visits(mem, name, path[0], path) && GoesOn(mem, name, off, path[0])
    ensures Visits(mem, name, off, [off] + path)
  {
    var more := [off] + path;
    forall i, j | 0 <= i < j < |more| && j == i + 1 ensures GoesOn(mem, name, more[i], more[j]) {
      if i > 0 {
        assert GoesOn(mem, name, path[i - 1], path[j - 1]);
      }
    }
  }

  /** An entry's data, and what follows the entry, where it was written. */
  lemma EntryReads(e: Entry, mem: seq<byte>, off: nat, after: seq<byte>)
    requires e.Ok() && off <= |mem| && mem[off..] == e.Bytes() + after
    ensures off + RECORD + |e.data| <= |mem| && mem[off + RECORD..off + RECORD + |e.data|] == e.data
    ensures off + |e.Bytes()| <= |mem| && mem[off + |e.Bytes()|..] == after
  {
    BytesLength(e);
    var m := mem[off..];
    assert m[RECORD..RECORD + |e.data|] == e.data;
    assert mem[off + RECORD..off + RECORD + |e.data|] == m[RECORD..RECORD + |e.data|];
    assert mem[off + |e.Bytes()|..] == m[|e.Bytes()|..];
  }

  lemma EntryGoesOn(e: Entry, mem: seq<byte>, name: seq<byte>, off: nat, after: seq<byte>)
    requires e.Ok() && |mem| < TWO32 && off <= |mem| && mem[off..] == e.Bytes() + after
    requires e.name != Cut(name, NAME)
    ensures GoesOn(mem, name, off, off + |e.Bytes()|)
  {
    HeaderReads(e, mem, off, after);
    EntryReads(e, mem, off, after);
    NextIsNext(off, e);
  }

  lemma EntryStops(e: Entry, mem: seq<byte>, name: seq<byte>, off: nat, after: seq<byte>)
    requires e.Ok() && |mem| < TWO32 && off <= |mem| && mem[off..] == e.Bytes() + after
    requires e.name == Cut(name, NAME)
    ensures Stops(mem, name, off) && Answer(mem, off) == Found(|e.data|, off + RECORD)
  {
    HeaderReads(e, mem, off, after);
  }

  lemma FirstOf(es: seq<Entry>, tail: seq<byte>)
    requires es != []
    ensures Concat(es) + tail == es[0].Bytes() + (Concat(es[1..]) + tail)
  {
  }

  lemma {:induction false} WalkFinds(mem: seq<byte>, es: seq<Entry>, tail: seq<byte>, name: seq<byte>, off: nat)
    requires |mem| < TWO32 && off <= |mem| && mem[off..] == Concat(es) + tail
    requires AllOk(es) && Ends(tail)
    ensures var path := Headers(es, name, off);
      && Visits(mem, name, off, path)
      && Answer(mem, path[|path| - 1]) == Expected(es, name, off)
    decreases es
  {
    if es == [] {
      assert mem[off] == tail[0];
    } else {
      var e, after := es[0], Concat(es[1..]) + tail;
      FirstOf(es, tail);
      if e.name == Cut(name, NAME) {
        EntryStops(e, mem, name, off, after);
      } else {
        var next := off + |e.Bytes()|;
        EntryReads(e, mem, off, after);
        EntryGoesOn(e, mem, name, off, after);
        WalkFinds(mem, es[1..], tail, name, next);
        VisitsMore(mem, name, off, Headers(es[1..], name, next));
      }
    }
  }

  /** The data an expected hit points at is the data of the first entry of that name. */
  lemma {:induction false} ExpectedData(mem: seq<byte>, es: seq<Entry>, tail: seq<byte>, name: seq<byte>, off: nat)
    returns (i: nat)
    requires off <= |mem| && mem[off..] == Concat(es) + tail && AllOk(es)
    requires Expected(es, name, off).Found?
    ensures i < |es| && es[i].name == Cut(name, NAME) && forall k :: 0 <= k < i ==> es[k].name != Cut(name, NAME)
    ensures var r := Expected(es, name, off);
      r.start + r.size <= |mem| && mem[r.start..r.start + r.size] == es[i].data
    decreases es
  {
    var e, after := es[0], Concat(es[1..]) + tail;
    FirstOf(es, tail);
    EntryReads(e, mem, off, after);
    if e.name == Cut(name, NAME) {
      i := 0;
    } else {
      i := ExpectedData(mem, es[1..], tail, name, off + |e.Bytes()|);
      i := i + 1;
    }
  }

  /** Lookup inverts writing: when the first entry carries no data, the walk visits exactly the
      headers after the first up to the one that decides, and returns the first entry with the
      wanted name, or nothing when there is none. */
  lemma LookupInvertsWriting(e0: Entry, es: seq<Entry>, tail: seq<byte>, name: seq<byte>, mem: seq<byte>)
    requires e0.Ok() && AllOk(es) && Ends(tail) && e0.data == []
    requires mem == Concat([e0] + es) + tail && |mem| < TWO32
    ensures Finds(mem, name, Headers(es, name, RECORD), Expected(es, name, RECORD))
  {
    BehindFirst(e0, es, tail);
    WalkFinds(mem, es, tail, name, RECORD);
  }

  /** From the second record on, the walk visits these offsets and ends with this answer. */
  ghost predicate Finds(mem: seq<byte>, name: seq<byte>, path: seq<nat>, answer: Outcome) {
    Visits(mem, name, RECORD, path) && Answer(mem, path[|path| - 1]) == answer
  }

  lemma BehindFirst(e0: Entry, es: seq<Entry>, tail: seq<byte>)
    requires e0.Ok() && e0.data == []
    ensures var mem := Concat([e0] + es) + tail;
      |mem| == RECORD + |Concat(es)| + |tail| && mem[RECORD..] == Concat(es) + tail
  {
    BytesLength(e0);
    assert ([e0] + es)[1..] == es;
    var head, rest := e0.Bytes(), Concat(es);
    assert |head| == RECORD;
    assert (head + rest) + tail == head + (rest + tail);
  }

  // ---------------------------------------------------------------- the skipped first entry

  /** Lookup behind the first entry e0 gives the expected answer for this archive and name. */
  ghost predicate Correct(e0: Entry, es: seq<Entry>, tail: seq<byte>, name: seq<byte>) {
    exists path: seq<nat> :: Finds(Concat([e0] + es) + tail, name, path, Expected(es, name, |e0.Bytes()|))
  }

  function ZeroRecord(): (r: seq<byte>)
    ensures Ends(r) && |r| == RECORD
  {
    seq(RECORD, _ => NUL)
  }

  /** One empty file named x. */
  function EmptyFile(x: byte): (e: Entry)
    requires x != NUL
    ensures e.Ok() && e.name == [x]
  {
    Entry([x], seq(24, _ => NUL), NUL, seq(376, _ => NUL), [], [])
  }

  /** An archive the lookup gets wrong: the record after e0's header is data. */
  ghost predicate Misread(e0: Entry, es: seq<Entry>, tail: seq<byte>, name: seq<byte>) {
    && AllOk(es) && Ends(tail) && |Concat([e0] + es) + tail| < TWO32
    && !Correct(e0, es, tail, name)
  }

  lemma DataFollows(e0: Entry, es: seq<Entry>, tail: seq<byte>)
    requires e0.Ok() && e0.data != []
    ensures var mem := Concat([e0] + es) + tail;
      && |mem| == |e0.Bytes()| + |Concat(es)| + |tail|
      && RECORD < |mem| && mem[RECORD] == e0.data[0]
  {
    BytesLength(e0);
    assert ([e0] + es)[1..] == es;
  }

  /** If the code stops at the second record with the wrong answer, it is wrong. */
  lemma WrongAtOnce(e0: Entry, es: seq<Entry>, tail: seq<byte>, name: seq<byte>)
    requires Stops(Concat([e0] + es) + tail, name, RECORD)
    requires Answer(Concat([e0] + es) + tail, RECORD) != Expected(es, name, |e0.Bytes()|)
    ensures !Correct(e0, es, tail, name)
  {
    var mem := Concat([e0] + es) + tail;
    forall path: seq<nat> | Visits(mem, name, RECORD, path) ensures |path| == 1 {
      assert |path| > 1 ==> GoesOn(mem, name, path[0], path[1]);
    }
  }

  lemma FindsOnly(f: Entry, name: seq<byte>, off: nat)
    requires name == f.name + [NUL] && f.Ok()
    ensures Expected([f], name, off).Found? && Concat([f]) == f.Bytes()
  {
    PaddedName(f.name, name, NAME);
    assert [f][1..] == [];
    assert f.Bytes() + [] == f.Bytes();
  }

  lemma ZeroDataHides(e0: Entry, f: Entry, tail: seq<byte>, name: seq<byte>)
    requires e0.Ok() && e0.data != [] && e0.data[0] == NUL
    requires f.Ok() && name == f.name + [NUL] && Ends(tail)
    requires |e0.Bytes()| + |f.Bytes()| + |tail| < TWO32
    ensures Misread(e0, [f], tail, name)
  {
    FindsOnly(f, name, |e0.Bytes()|);
    DataFollows(e0, [f], tail);
    BytesLength(e0);
    WrongAtOnce(e0, [f], tail, name);
  }

  lemma ZeroDataHidesRest(e0: Entry)
    requires e0.Ok() && e0.data != [] && |e0.Bytes()| + 2 * RECORD < TWO32 && e0.data[0] == NUL
    ensures Misread(e0, [EmptyFile(120)], ZeroRecord(), EmptyFile(120).name + [NUL])
  {
    BytesLength(EmptyFile(120));
    ZeroDataHides(e0, EmptyFile(120), ZeroRecord(), EmptyFile(120).name + [NUL]);
  }

  lemma DataTakenForHeader(e0: Entry)
    requires e0.Ok() && e0.data != [] && |e0.Bytes()| + 2 * RECORD < TWO32 && e0.data[0] != NUL
    ensures Misread(e0, [], ZeroRecord(), (Concat([e0]) + ZeroRecord())[RECORD..])
  {
    BytesLength(e0);
    DataFollows(e0, [], ZeroRecord());
    assert [e0] + [] == [e0];
    var mem := Concat([e0]) + ZeroRecord();
    assert Matches(mem, RECORD, mem[RECORD..]);
    WrongAtOnce(e0, [], ZeroRecord(), mem[RECORD..]);
  }

  lemma EmptyFirstIsRight(e0: Entry, es: seq<Entry>, tail: seq<byte>, name: seq<byte>)
    requires e0.Ok() && e0.data == []
    requires AllOk(es) && Ends(tail) && |Concat([e0] + es) + tail| < TWO32
    ensures Correct(e0, es, tail, name)
  {
    BytesLength(e0);
    assert |e0.Bytes()| == RECORD;
    LookupInvertsWriting(e0, es, tail, name, Concat([e0] + es) + tail);
  }

  lemma NotMisread(e0: Entry, es: seq<Entry>, tail: seq<byte>, name: seq<byte>)
    requires e0.Ok() && e0.data == []
    ensures !Misread(e0, es, tail, name)
  {
    if AllOk(es) && Ends(tail) && |Concat([e0] + es) + tail| < TWO32 {
      EmptyFirstIsRight(e0, es, tail, name);
    }
  }

  /** tar_get_file starts at the second record without looking at the first header. That is right
      for every archive behind a first entry, and every name, exactly when the first entry
      carries no data. */
  lemma SkippingFirstIsRightIff(e0: Entry)
    requires e0.Ok() && |e0.Bytes()| + 2 * RECORD < TWO32
    ensures e0.data == [] <==> forall es, tail, name :: !Misread(e0, es, tail, name)
  {
    if e0.data == [] {
      forall es, tail, name ensures !Misread(e0, es, tail, name) {
        NotMisread(e0, es, tail, name);
      }
    } else if e0.data[0] == NUL {
      ZeroDataHidesRest(e0);
    } else {
      DataTakenForHeader(e0);
    }
  }
}
