/** Integer helpers used by the image library: saturating a value to a
    byte, the number of bits a palette of a given size needs, rounding up to a
    power of two and an absolute value. C#'s `byte`, `int` and `uint` are
    modelled by the newtypes `byte` and `int32` and by `bv32`; C#'s unchecked
    integer arithmetic wraps, and the model writes each wrap-around out. */
module IntExtensions {

  newtype byte = x: int | 0 <= x < 0x100
  newtype int32 = x: int | -0x8000_0000 <= x < 0x8000_0000

  const Int32MinValue: int32 := -0x8000_0000
  /** The bits of Int32.MinValue. */
  const Int32MinValueBits: bv32 := 0x8000_0000

  /** The C# `int` that unchecked arithmetic produces for the exact result x. */
  function WrapInt32(x: int): (r: int32)
    ensures -0x8000_0000 <= x < 0x8000_0000 ==> r as int == x
    ensures -0x1_8000_0000 <= x < -0x8000_0000 ==> r as int == x + 0x1_0000_0000
    ensures 0x8000_0000 <= x < 0x1_8000_0000 ==> r as int == x - 0x1_0000_0000
  {
    ((x + 0x8000_0000) % 0x1_0000_0000 - 0x8000_0000) as int32
  }

  // ----- ClipToByte -----

  /** Saturates an `int` to the range of a `byte`. */
  function ClipToByte(value: int32): (r: byte)
    ensures value < 0 ==> r == 0
    ensures value > 255 ==> r == 255
    ensures 0 <= value <= 255 ==> r as int == value as int
  {
    if value < 0 then 0 else if value > 255 then 255 else value as int as byte
  }

  /** Clipping is monotone: a larger input never gives a smaller byte. */
  lemma ClipToByteMonotone(v: int32, w: int32)
    requires v <= w
    ensures ClipToByte(v) <= ClipToByte(w)
  {
  }

  /** The clipped value is the byte nearest to the input. */
  lemma ClipToByteNearest(v: int32, b: byte)
    ensures var c := ClipToByte(v) as int;
      (if c >= v as int then c - v as int else v as int - c)
      <= (if b as int >= v as int then b as int - v as int else v as int - b as int)
  {
  }

  // ----- powers of two and their logarithm -----

  /** 2 to the power k. */
  function Pow2(k: nat): (p: nat)
    ensures p >= 1
  {
    if k == 0 then 1 else 2 * Pow2(k - 1)
  }

  /** ceil(log2 n) for n >= 1, and 0 for every n <= 1: the number of halvings,
      rounding up, that bring n down to 1. */
  function CeilLog2(n: int): nat
    decreases n
  {
    if n <= 1 then 0 else 1 + CeilLog2((n + 1) / 2)
  }

  lemma {:induction false} Pow2Monotone(i: nat, j: nat)
    requires i <= j
    ensures Pow2(i) <= Pow2(j)
    decreases j
  {
    if i < j {
      Pow2Monotone(i, j - 1);
    }
  }

  /** The two largest powers of two that matter for a 32-bit `int`. */
  lemma Pow2Of30And31()
    ensures Pow2(30) == 0x4000_0000 && Pow2(31) == 0x8000_0000
  {
    assert Pow2(10) == 0x400;
    assert Pow2(20) == 0x10_0000;
  }

  /** CeilLog2(n) is ceil(log2 n): the power of two it names is at least n
      and the one below it is less than n. */
  lemma {:induction false} CeilLog2Bounds(n: int)
    requires n >= 1
    ensures n <= Pow2(CeilLog2(n))
    ensures n >= 2 ==> CeilLog2(n) >= 1 && Pow2(CeilLog2(n) - 1) < n
    decreases n
  {
    if n >= 2 {
      var m := (n + 1) / 2;
      CeilLog2Bounds(m);
      if m >= 2 {
        assert Pow2(CeilLog2(m)) == 2 * Pow2(CeilLog2(m) - 1);
      }
    }
  }

  /** The bounds of CeilLog2Bounds determine the logarithm: no other exponent
      satisfies them. */
  lemma CeilLog2Exact(n: int, b: nat)
    requires 1 <= b && Pow2(b - 1) < n <= Pow2(b)
    ensures CeilLog2(n) == b
  {
    CeilLog2Bounds(n);
    var c := CeilLog2(n);
    if c < b {
      Pow2Monotone(c, b - 1);
    } else if c > b {
      Pow2Monotone(b, c - 1);
    }
  }

  // ----- ToBitsPerPixel -----

  lemma HalvingStep(p: nat, n: nat, x: int)
    requires p * n <= x < p * (n + 1)
    ensures (2 * p) * (n / 2) <= x < (2 * p) * (n / 2 + 1)
    ensures n >= 1 ==> p <= x
  {
    var m := n / 2;
    assert n == 2 * m || n == 2 * m + 1;
    if n == 2 * m {
      assert p * n == (2 * p) * m;
      assert p * (n + 1) == (2 * p) * m + p;
    } else {
      assert p * n == (2 * p) * m + p;
      assert p * (n + 1) == (2 * p) * (m + 1);
    }
  }

  /** The number of bits per pixel a palette of colorCount colours needs:
      1 for a single colour, otherwise the number of right shifts that empty
      colorCount - 1, i.e. ceil(log2 colorCount). */
  method ToBitsPerPixel(colorCount: int32) returns (bpp: int32)
    ensures colorCount == 1 ==> bpp == 1
    ensures colorCount >= 2 ==> 1 <= bpp && Pow2(bpp as int - 1) < colorCount as int <= Pow2(bpp as int)
    ensures colorCount >= 2 ==> bpp as int == CeilLog2(colorCount as int)
    ensures Int32MinValue < colorCount <= 0 ==> bpp == 0
    ensures colorCount == Int32MinValue ==> bpp == 31
  {
    if colorCount == 1 {
      return 1;
    }
    var b := 0;
    var n: int := WrapInt32(colorCount as int - 1) as int;
    ghost var n0 := n;
    ghost var p := 1;
    while n > 0
      invariant p == Pow2(b)
      invariant n0 < 0 ==> n == n0 && b == 0
      invariant n0 >= 0 ==> 0 <= n && p * n <= n0 < p * (n + 1)
      invariant 0 < b ==> Pow2(b - 1) <= n0
    {
      HalvingStep(p, n, n0);
      n := n / 2;  // `n >>= 1` on a positive int
      b := b + 1;
      p := 2 * p;
    }
    BitsPerPixelResult(colorCount, n0, b);
    bpp := b as int32;
  }

  /** What the loop of ToBitsPerPixel leaves: b is the bit length of n0, the
      wrapped value of colorCount - 1. */
  lemma BitsPerPixelResult(colorCount: int32, n0: int, b: nat)
    requires colorCount != 1
    requires n0 == WrapInt32(colorCount as int - 1) as int
    requires n0 < 0 ==> b == 0
    requires n0 >= 0 ==> n0 < Pow2(b)
    requires 0 < b ==> Pow2(b - 1) <= n0
    ensures b <= 31
    ensures colorCount >= 2 ==> 1 <= b && Pow2(b - 1) < colorCount as int <= Pow2(b)
    ensures colorCount >= 2 ==> b == CeilLog2(colorCount as int)
    ensures Int32MinValue < colorCount <= 0 ==> b == 0
    ensures colorCount == Int32MinValue ==> b == 31
  {
    if b > 0 {
      BitsBound(n0, b);
    }
    if colorCount >= 2 {
      CeilLog2Exact(colorCount as int, b);
    } else if colorCount == Int32MinValue {
      BitsOfMaxInt32(b);
    }
  }

  lemma BitsBound(n0: int, b: nat)
    requires 1 <= b && Pow2(b - 1) <= n0 < 0x8000_0000
    ensures b <= 31
  {
    Pow2Of30And31();
    if b > 31 {
      Pow2Monotone(31, b - 1);
    }
  }

  /** Int32.MaxValue, which `colorCount - 1` wraps to for Int32.MinValue,
      needs 31 bits. */
  lemma BitsOfMaxInt32(b: nat)
    requires 1 <= b && Pow2(b - 1) <= 0x7FFF_FFFF < Pow2(b)
    ensures b == 31
  {
    Pow2Of30And31();
    if b < 31 {
      Pow2Monotone(b, 30);
    } else if b > 31 {
      Pow2Monotone(31, b - 1);
    }
  }

  // ----- RoundUpToPowerOf2 -----

  /** u has exactly one bit set. */
  predicate IsPowerOfTwoBits(u: bv32) {
    u != 0 && u & (u - 1) == 0
  }

  /** A power of two u that is at least v and whose half is below v is the
      least power of two that is at least v. */
  lemma LeastPowerOfTwoBits(u: bv32, v: bv32, p: bv32)
    requires IsPowerOfTwoBits(u) && v <= u && (u >> 1) < v
    requires IsPowerOfTwoBits(p) && v <= p
    ensures u <= p
  {
  }

  /** Such a u is not larger than any power of two that is at least v. */
  lemma LeastPowerOfTwoBitsAll(u: bv32, v: bv32)
    requires IsPowerOfTwoBits(u) && v <= u && (u >> 1) < v
    ensures forall p: bv32 :: IsPowerOfTwoBits(p) && v <= p ==> u <= p
  {
    forall p: bv32 | IsPowerOfTwoBits(p) && v <= p
      ensures u <= p
    {
      LeastPowerOfTwoBits(u, v, p);
    }
  }

  /** Rounds a `uint` up to the next power of two by decrementing it,
      smearing its highest set bit into every lower bit and incrementing it
      again, all in unchecked 32-bit arithmetic. The C# method casts the
      result to `int`; that cast keeps the 32 bits, and the model returns
      them: 0x8000_0000 is the bit pattern of Int32.MinValue. For
      1 <= value <= 2^30 the result is the least power of two that is at
      least value. */
  method RoundUpToPowerOf2(value: bv32) returns (r: bv32)
    ensures 1 <= value <= 0x4000_0000 ==>
      IsPowerOfTwoBits(r) && value <= r && (r >> 1) < value && r <= 0x4000_0000
    ensures 1 <= value <= 0x4000_0000 ==>
      forall p: bv32 :: IsPowerOfTwoBits(p) && value <= p ==> r <= p
    ensures IsPowerOfTwoBits(value) ==> r == value
    ensures 0x4000_0000 < value <= 0x8000_0000 ==> r == Int32MinValueBits
    ensures value == 0 || 0x8000_0000 < value ==> r == 0
  {
    r := value - 1;
    r := r | (r >> 1);
    r := r | (r >> 2);
    r := r | (r >> 4);
    r := r | (r >> 8);
    r := r | (r >> 16);
    r := r + 1;
    if 1 <= value <= 0x4000_0000 {
      LeastPowerOfTwoBitsAll(r, value);
    }
  }

  // ----- Abs -----

  /** Absolute value; the caller must not pass Int32.MinValue, whose negation
      does not fit in an `int`. */
  function Abs(i: int32): (r: int32)
    requires i != Int32MinValue
    ensures r >= 0 && (r == i || r == -i)
  {
    if i >= 0 then i else -i
  }
}
