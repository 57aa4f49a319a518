/** How frame_free reads an address: which region accepts it, and which word and bit it makes of
    the frame number. */
module FrameDecode {
  import opened Words
  import opened Bits
  import opened Division
  import opened Frames

  // ---------------------------------------------------------------- decoding a frame number

  /** As written, frame_free recovers the bit and word of frame d exactly when d mod 992 < 31. */
  lemma DecodeRightIff(d: nat)
    ensures BitOf(false, d) == d % 32 && WordOf(false, d) == d / 32 <==> d % 992 < 31
    ensures BitOf(true, d) == d % 32 && WordOf(true, d) == d / 32
  {
    var q, a, b := d / 992, d % 992 / 32, d % 992 % 32;
    Split992(d, q, a, b);
    QuotRemAre(d, 31);
    Mod31Of(d, q, a, b);
  }

  /** Any 992 = 31 * 32 frames are 31 words. */
  lemma Split992(d: nat, q: nat, a: nat, b: nat)
    requires q == d / 992 && a == d % 992 / 32 && b == d % 992 % 32
    ensures a < 31 && b < 32 && d == 992 * q + 32 * a + b
    ensures d / 32 == 31 * q + a && d % 32 == b
    ensures d % 992 < 31 <==> a == 0 && b < 31
  {
    assert d % 992 == 32 * a + b;
    DivisionUnique(d, 32, 31 * q + a, b);
  }

  /** The remainder modulo 31 is the bit number, and the rest the word's first frame, in the first
      31 frames of such a group only. */
  lemma Mod31Of(d: nat, q: nat, a: nat, b: nat)
    requires a < 31 && b < 32 && d == 992 * q + 32 * a + b
    ensures d % 31 == b && (d - b) / 32 == 31 * q + a <==> a == 0 && b < 31
  {
    var e := if a + b >= 62 then 2 else if a + b >= 31 then 1 else 0;
    DivisionUnique(d, 31, 32 * q + a + e, a + b - 31 * e);
    DivisionUnique(d - b, 32, 31 * q + a, 0);
  }

  // ---------------------------------------------------------------- which region is asked

  /** The regions' frames do not share addresses. */
  ghost predicate Apart(rs: seq<Region>) {
    forall j, k :: 0 <= j < |rs| && 0 <= k < |rs| && j != k ==>
      rs[j].base + rs[j].blocks * 4096 <= rs[k].base || rs[k].base + rs[k].blocks * 4096 <= rs[j].base
  }

  /** No two regions start at the same address. */
  ghost predicate DistinctBases(rs: seq<Region>) {
    forall j, k :: 0 <= j < k < |rs| ==> rs[j].base != rs[k].base
  }

  /** What frame_free needs of the chain to find a frame's region. */
  ghost predicate Findable(fixed: bool, rs: seq<Region>) {
    Apart(rs) && (fixed || DistinctBases(rs))
  }

  /** Frame d passes the range test and is decoded to its own word and bit. */
  predicate Returnable(fixed: bool, r: Region, d: nat) {
    fixed || (d % 992 < 31 && d * 4096 <= r.blocks)
  }

  /** An address in frame d of region k, o bytes into it, is taken by region k, or, as written, by no
      region at all: the range test then compares a distance in bytes with the number of frames. */
  lemma OwnerIs(fixed: bool, rs: seq<Region>, k: nat, d: nat, o: nat)
    requires AllOk(rs) && Findable(fixed, rs) && k < |rs| && d < rs[k].blocks && o < 4096
    ensures rs[k].base + d * 4096 + o < TWO32
    ensures OwnerOf(fixed, rs, 0, rs[k].base + d * 4096 + o) ==
      if fixed || d * 4096 + o <= rs[k].blocks then k else |rs|
  {
    var addr := rs[k].base + d * 4096 + o;
    forall j | 0 <= j < |rs| && j != k ensures !InRange(fixed, rs[j], addr) {
      OtherRejects(fixed, rs, k, d, o, j);
    }
    WrapSmall(rs[k].base + rs[k].blocks);
    assert InRange(fixed, rs[k], addr) <==> fixed || d * 4096 + o <= rs[k].blocks;
  }

  lemma OtherRejects(fixed: bool, rs: seq<Region>, k: nat, d: nat, o: nat, j: nat)
    requires AllOk(rs) && Findable(fixed, rs) && k < |rs| && d < rs[k].blocks && o < 4096
    requires j < |rs| && j != k
    ensures rs[k].base + d * 4096 + o < TWO32 && !InRange(fixed, rs[j], rs[k].base + d * 4096 + o)
  {
    assert rs[j].base != rs[k].base || fixed;
    assert rs[j].base + rs[j].blocks < TWO32;
    WrapSmall(rs[j].base + rs[j].blocks);
  }

  /** What address frame_alloc hands out for bit d of a region. Frame 2^20 is beyond the address
      space, so the address of a tail bit cannot come round to its own region. */
  lemma AddressIs(r: Region, d: nat, addr: u32)
    requires r.Ok() && d < 32 * |r.words| && addr == Wrap(r.base + d * 4096)
    ensures d < r.blocks ==> addr == r.base + d * 4096
    ensures d >= r.blocks ==> !InRange(true, r, addr)
  {
    assert d < 0x10_0000;
    if r.base + d * 4096 < TWO32 {
      WrapSmall(r.base + d * 4096);
    } else {
      DivisionUnique(r.base + d * 4096, TWO32, 1, r.base + d * 4096 - TWO32);
    }
  }

  lemma {:induction false} NullHasNoOwner(fixed: bool, rs: seq<Region>)
    requires AllOk(rs)
    ensures OwnerOf(fixed, rs, 0, 0) == |rs|
  {
    var k := OwnerOf(fixed, rs, 0, 0);
    assert k < |rs| ==> rs[k].Ok();
  }
}
