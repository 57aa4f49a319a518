/** Machine integers shared by every component: the kernel is built for i386, so
    `uint32_t`, `size_t` and pointers are 32 bits wide and a `char` is one byte. */
module Words {
  const TWO32: nat := 0x1_0000_0000
  const TWO31: nat := 0x8000_0000

  type u32 = n: nat | n < TWO32
  type byte = b: nat | b < 256

  /** The terminator of a string. */
  const NUL: byte := 0

  /** What a 32-bit register keeps of a mathematical integer. */
  function Wrap(n: int): u32 {
    n % TWO32
  }

  /** Whole multiples of 2^32 do not show. */
  lemma WrapMultiple(n: int, k: int)
    ensures Wrap(n + k * TWO32) == Wrap(n)
  {
  }

  /** Wrapping the parts of a sum first makes no difference. */
  lemma WrapSum(x: int, y: int)
    ensures Wrap(Wrap(x) + Wrap(y)) == Wrap(x + y)
  {
    WrapMultiple(Wrap(x) + Wrap(y), x / TWO32 + y / TWO32);
    assert Wrap(x) + Wrap(y) + (x / TWO32 + y / TWO32) * TWO32 == x + y;
  }

  lemma WrapInner(x: int, y: int)
    ensures Wrap(x + Wrap(y)) == Wrap(x + y)
  {
    assert x + y == x + Wrap(y) + y / TWO32 * TWO32;
    WrapMultiple(x + Wrap(y), y / TWO32);
  }

  lemma WrapSmall(x: u32)
    ensures Wrap(x) == x
  {
  }

  /** The `int32_t` reading of a register. */
  function Signed(n: u32): int {
    if n < TWO31 then n else n - TWO32
  }
}
