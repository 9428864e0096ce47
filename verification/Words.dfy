/** Machine words of the 32-bit kernel: unsigned 8-, 16- and 32-bit numbers as integer ranges, the
    wrapping arithmetic the C code relies on, and its modular order tests. */
module Words {

  const TWO_16: int := 0x1_0000
  const TWO_24: int := 0x100_0000
  const TWO_31: int := 0x8000_0000
  const TWO_32: int := 0x1_0000_0000

  type byte = x: int | 0 <= x < 0x100
  type u16 = x: int | 0 <= x < 0x1_0000
  type u32 = x: int | 0 <= x < 0x1_0000_0000

  /** Wrapping to 32 bits. `%` is Euclidean, so negative differences wrap as in C. */
  function Wrap(x: int): u32 {
    x % TWO_32
  }

  /** A 32-bit word read back as a C `int`. */
  function Signed(x: u32): int {
    if x < TWO_31 then x else x - TWO_32
  }

  function Min(a: int, b: int): int {
    if a < b then a else b
  }

  predicate ModLt(a: u32, b: u32) {
    Wrap(a - b) > TWO_31
  }

  predicate ModGe(a: u32, b: u32) {
    !ModLt(a, b)
  }

  /** The wrapped difference of two positions recovers their true distance, up to half the range. */
  lemma WrappedDifference(x: int, y: int)
    requires -TWO_31 <= x - y < TWO_31
    ensures Wrap(Wrap(x) - Wrap(y)) == if y <= x then x - y else x - y + TWO_32
  {
    var i, j := x / TWO_32, y / TWO_32;
    assert Wrap(x) - Wrap(y) == x - y - TWO_32 * (i - j);
    ModShift(x - y, j - i);
    if x < y {
      ModShift(x - y, 1);
    }
  }

  lemma {:induction false} ModShift(x: int, k: int)
    ensures (x + TWO_32 * k) % TWO_32 == x % TWO_32
    decreases if k < 0 then -k else k
  {
    if k > 0 {
      ModShift(x, k - 1);
      assert x + TWO_32 * k == (x + TWO_32 * (k - 1)) + TWO_32;
    } else if k < 0 {
      ModShift(x, k + 1);
      assert x + TWO_32 * k == (x + TWO_32 * (k + 1)) - TWO_32;
    }
  }

  /** Wrapping at every step or at the end is the same. */
  lemma WrapAdds(x: int, y: int)
    ensures Wrap(Wrap(x) + y) == Wrap(x + y)
  {
    ModShift(Wrap(x) + y, x / TWO_32);
    assert Wrap(x) + y + TWO_32 * (x / TWO_32) == x + y;
  }

  /** On positions up to 2^31 apart the modular test is the true order, save at a distance of exactly 2^31 below. */
  lemma ModLtIsOrder(x: int, y: int)
    requires -TWO_31 <= x - y < TWO_31
    ensures ModLt(Wrap(x), Wrap(y)) == (x < y) <==> x - y != -TWO_31
    ensures ModGe(Wrap(x), Wrap(y)) == (x >= y) <==> x - y != -TWO_31
  {
    WrappedDifference(x, y);
  }
}
