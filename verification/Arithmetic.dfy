/** Unsigned 32-bit arithmetic as the kernel uses it: values are naturals below
    2^32 and every wrap-around is written out. */
module Arithmetic {

  const U32: nat := 0x1_0000_0000

  type Word = x: nat | x < U32

  /** The value an `unsigned int` holds after the exact result `x`. */
  function Wrap(x: int): nat {
    x % U32
  }

  predicate IsPowerOfTwo(n: nat) {
    n == 1 || (n > 1 && n % 2 == 0 && IsPowerOfTwo(n / 2))
  }

  /** `x & utils::mask_left(alignment)` for a power of two: the largest multiple of
      `alignment` that is at most `x`. */
  function MaskDown(x: nat, alignment: nat): (m: nat)
    requires alignment > 0
    ensures m <= x < m + alignment
  {
    if x < alignment then 0 else alignment + MaskDown(x - alignment, alignment)
  }

  /** Distance from `address` to the next multiple of `alignment`, as computed on
      wrapping 32-bit words. */
  function AlignOffset(address: nat, alignment: nat): nat
    requires alignment > 0
  {
    Wrap(MaskDown(Wrap(address + alignment - 1), alignment) - address)
  }

  /** A request rounded up to whole words; requests above 0xfffffffc wrap to 0. */
  function RoundSize(size: nat): (r: nat)
    ensures r % 4 == 0 && r < U32
    ensures size <= 0xffff_fffc ==> size <= r < size + 4
  {
    Wrap(size + 3) - Wrap(size + 3) % 4
  }

  function Pow2(n: nat): (p: nat)
    ensures p >= n + 1
  {
    if n == 0 then 1 else 2 * Pow2(n - 1)
  }

  // ----- divisibility

  lemma {:induction false} PowerDivides(p: nat, q: nat)
    requires IsPowerOfTwo(p) && IsPowerOfTwo(q) && p <= q
    ensures q % p == 0
  {
    if p > 1 {
      PowerDivides(p / 2, q / 2);
      var k := (q / 2) / (p / 2);
      assert q / 2 == k * (p / 2);
      assert q == k * p;
      MultipleHasNoRemainder(k, p);
    }
  }

  lemma MultipleHasNoRemainder(k: nat, d: nat)
    requires d > 0
    ensures (k * d) % d == 0
  {
    DivModUnique(k * d, d, k, 0);
  }

  lemma DivModUnique(x: int, d: nat, q: int, r: nat)
    requires d > 0 && x == q * d + r && r < d
    ensures x / d == q && x % d == r
  {
    ScaleAtLeast(x / d - q, d);
    ScaleAtLeast(q - x / d, d);
    assert (x / d - q) * d == r - x % d;
  }

  lemma ScaleAtLeast(k: int, d: nat)
    ensures k >= 1 ==> k * d >= d
  {
    if k >= 1 {
      assert k * d == (k - 1) * d + d;
    }
  }

  lemma ModShift(x: int, d: nat, k: int)
    requires d > 0
    ensures (x + k * d) % d == x % d
  {
    assert x == (x / d) * d + x % d;
    assert x + k * d == (x / d + k) * d + x % d;
    DivModUnique(x + k * d, d, x / d + k, x % d);
  }

  lemma MultipleOfMultiple(x: nat, d: nat)
    requires d > 0 && d % 4 == 0 && x % d == 0
    ensures x % 4 == 0
  {
    var m, n := d / 4, x / d;
    assert x == (4 * m) * n == 4 * (m * n);
  }

  lemma {:induction false} TimesTwo(n: nat)
    requires IsPowerOfTwo(n)
    ensures IsPowerOfTwo(2 * n)
  {
    assert 2 * n % 2 == 0 && 2 * n / 2 == n;
  }

  lemma TimesSixteen(n: nat)
    requires IsPowerOfTwo(n)
    ensures IsPowerOfTwo(16 * n)
  {
    hide IsPowerOfTwo;
    TimesTwo(n);
    TimesTwo(2 * n);
    TimesTwo(4 * n);
    TimesTwo(8 * n);
  }

  lemma U32IsPowerOfTwo()
    ensures IsPowerOfTwo(U32)
  {
    assert IsPowerOfTwo(1);
    hide IsPowerOfTwo;
    TimesSixteen(1);
    TimesSixteen(0x10);
    TimesSixteen(0x100);
    TimesSixteen(0x1000);
    TimesSixteen(0x1_0000);
    TimesSixteen(0x10_0000);
    TimesSixteen(0x100_0000);
    TimesSixteen(0x1000_0000);
  }

  lemma DividesU32(p: nat)
    requires IsPowerOfTwo(p) && p < U32
    ensures U32 % p == 0
  {
    U32IsPowerOfTwo();
    hide IsPowerOfTwo;
    PowerDivides(p, U32);
  }

  lemma AtMostHalfOfU32(p: nat)
    requires IsPowerOfTwo(p) && p < U32
    ensures 2 * p <= U32
  {
    DividesU32(p);
    if 2 * p > U32 {
      DivModUnique(U32, p, 1, U32 - p);
    }
  }

  // ----- alignment

  lemma {:induction false} MaskDownIsRemainderCut(x: nat, d: nat)
    requires d > 0
    ensures MaskDown(x, d) == x - x % d
  {
    if x >= d {
      MaskDownIsRemainderCut(x - d, d);
      ModShift(x - d, d, 1);
    } else {
      DivModUnique(x, d, 0, x);
    }
  }

  lemma MaskDownIsMultiple(x: nat, d: nat)
    requires d > 0
    ensures MaskDown(x, d) % d == 0
  {
    MaskDownIsRemainderCut(x, d);
    MultipleHasNoRemainder(x / d, d);
    assert x - x % d == (x / d) * d;
  }

  lemma {:induction false} MaskDownShift(x: nat, d: nat, k: nat, kd: nat)
    requires d > 0 && kd == k * d
    ensures MaskDown(x + kd, d) == MaskDown(x, d) + kd
  {
    if k > 0 {
      assert kd - d == (k - 1) * d;
      ScaleAtLeast(k, d);
      MaskDownShift(x, d, k - 1, kd - d);
      assert MaskDown(x + kd, d) == d + MaskDown(x + (kd - d), d);
    }
  }

  lemma MaskDownAcrossWrap(x: nat, d: nat)
    requires U32 <= x && IsPowerOfTwo(d) && d < U32
    ensures MaskDown(x - U32, d) == MaskDown(x, d) - U32
  {
    DividesU32(d);
    MaskDownShift(x - U32, d, U32 / d, U32);
  }

  /** Although `address + alignment - 1` may overflow, the offset is the exact distance
      to the next aligned address. */
  lemma AlignOffsetIsExact(address: nat, alignment: nat)
    requires address < U32 && alignment < U32 && IsPowerOfTwo(alignment)
    ensures AlignOffset(address, alignment) < alignment
    ensures address + AlignOffset(address, alignment) == MaskDown(address + alignment - 1, alignment)
  {
    var x := address + alignment - 1;
    WrapOnce(x);
    if x >= U32 {
      MaskDownAcrossWrap(x, alignment);
    }
    hide MaskDown, IsPowerOfTwo;
    WrapOnce(MaskDown(Wrap(x), alignment) - address);
  }

  lemma WrapOnce(x: int)
    ensures 0 <= x < U32 ==> Wrap(x) == x
    ensures U32 <= x < 2 * U32 ==> Wrap(x) == x - U32
    ensures x < 0 <= x + U32 ==> Wrap(x) == x + U32
  {
  }

  lemma AlignOffsetAligns(address: nat, alignment: nat)
    requires address < U32 && alignment < U32 && IsPowerOfTwo(alignment)
    ensures (address + AlignOffset(address, alignment)) % alignment == 0
  {
    AlignOffsetIsExact(address, alignment);
    MaskDownIsMultiple(address + alignment - 1, alignment);
  }

  /** Word-aligned addresses need no offset below word alignment and a whole number of
      words above it. */
  lemma AlignOffsetInWords(address: nat, alignment: nat)
    requires address < U32 && alignment < U32 && IsPowerOfTwo(alignment) && address % 4 == 0
    ensures AlignOffset(address, alignment) % 4 == 0
    ensures alignment <= 4 ==> AlignOffset(address, alignment) == 0
  {
    AlignOffsetIsExact(address, alignment);
    if alignment >= 4 {
      MaskDownInWords(address, alignment);
    }
    if alignment <= 4 {
      MaskDownBelowWord(address, alignment);
    }
    hide AlignOffset, MaskDown, IsPowerOfTwo;
    DifferenceInWords(address, AlignOffset(address, alignment));
  }

  lemma DifferenceInWords(a: nat, o: nat)
    requires a % 4 == 0
    ensures (a + o) % 4 == 0 ==> o % 4 == 0
  {
  }

  lemma MaskDownInWords(address: nat, alignment: nat)
    requires alignment >= 4 && IsPowerOfTwo(alignment)
    ensures MaskDown(address + alignment - 1, alignment) % 4 == 0
  {
    assert IsPowerOfTwo(4);
    PowerDivides(4, alignment);
    MaskDownIsMultiple(address + alignment - 1, alignment);
    MultipleOfMultiple(MaskDown(address + alignment - 1, alignment), alignment);
  }

  lemma MaskDownBelowWord(address: nat, alignment: nat)
    requires alignment <= 4 && IsPowerOfTwo(alignment) && address % 4 == 0
    ensures MaskDown(address + alignment - 1, alignment) == address
  {
    if alignment == 1 {
      MaskDownIsRemainderCut(address, 1);
    } else if alignment == 2 {
      MaskDownIsRemainderCut(address + 1, 2);
    } else {
      assert alignment == 4;
      MaskDownIsRemainderCut(address + 3, 4);
    }
  }
}
