/** The two JavaScript operators the driver applies to numbers, `&` and `>>`, on integral
    Number values. Both convert their operands to 32-bit integers first (ToInt32 / ToUint32 of
    ECMA-262, sections 7.1.6 and 7.1.7), so their results depend only on the operands modulo 2^32. */
module JsBits {

  const Two31: int := 0x8000_0000
  const Two32: int := 0x1_0000_0000

  function Pow2(n: nat): (r: nat)
    ensures r >= 1
  {
    if n == 0 then 1 else 2 * Pow2(n - 1)
  }

  /** ToUint32 of an integral Number: the representative of v modulo 2^32 in [0, 2^32). */
  function ToUint32(v: int): (r: nat)
    ensures r < Two32
    ensures (v - r) % Two32 == 0
  {
    v % Two32
  }

  /** ToInt32 of an integral Number: the representative of v modulo 2^32 in [-2^31, 2^31). */
  function ToInt32(v: int): (r: int)
    ensures -Two31 <= r < Two31
    ensures (v - r) % Two32 == 0
  {
    var u := ToUint32(v);
    if u >= Two31 then u - Two32 else u
  }

  /** Bitwise AND of the low `width` bits of a and b, least significant bit first. */
  function AndBits(a: nat, b: nat, width: nat): (r: nat)
    ensures r < Pow2(width)
    ensures r <= b
  {
    if width == 0 then 0
    else (if a % 2 == 1 && b % 2 == 1 then 1 else 0) + 2 * AndBits(a / 2, b / 2, width - 1)
  }

  /** `a & b`: AND of the 32-bit two's complement forms, read back as a signed 32-bit value. */
  function BitAnd(a: int, b: int): (r: int)
    ensures -Two31 <= r < Two31
    ensures ToUint32(b) < Two31 ==> 0 <= r <= ToUint32(b)
  {
    var x := AndBits(ToUint32(a), ToUint32(b), 32);
    if x < Two31 then SmallInt32(x); ToInt32(x) else ToInt32(x)
  }

  /** `a >> b`: ToInt32(a) shifted right by (ToUint32(b) & 31) with the sign bit propagated,
      which on a two's complement value is division by a power of two rounding toward minus
      infinity (Dafny's `/` with a positive divisor). */
  function ShiftRight(a: int, b: int): (r: int)
    ensures -Two31 <= r < Two31
    ensures r < 0 <==> ToInt32(a) < 0
    ensures ToUint32(b) % 32 == 0 ==> r == ToInt32(a)
  {
    var x, d := ToInt32(a), Pow2(ToUint32(b) % 32);
    if x < 0 then DivNeg(x, d); x / d else DivNonNeg(x, d); x / d
  }

  // ---------------------------------------------------------------- arithmetic helpers

  lemma MulAtLeast(d: int, n: int)
    requires d > 0 && n >= 1
    ensures d * n >= d
  {
    if n > 1 { MulAtLeast(d, n - 1); assert d * n == d * (n - 1) + d; }
  }
  lemma DivModUnique(x: int, d: int, q: int, r: int)
    requires d > 0 && 0 <= r < d && x == d * q + r
    ensures x / d == q && x % d == r
  {
    var q', r' := x / d, x % d;
    assert x == d * q' + r';
    if q' > q {
      MulAtLeast(d, q' - q);
    } else if q' < q {
      MulAtLeast(d, q - q');
    }
  }
  /** Splitting a remainder into a low digit and the remainder of the quotient. */
  lemma ModSplit(a: int, d: int, p: int)
    requires d > 0 && p > 0
    ensures a % (d * p) == a % d + d * ((a / d) % p)
  {
    var q := a / d;
    var t := q / p;
    var lo, mid := a % d, q % p;
    assert a == d * q + lo && 0 <= lo < d;
    assert q == p * t + mid && 0 <= mid < p;
    assert d * q == (d * p) * t + d * mid by {
      assert d * (p * t + mid) == d * (p * t) + d * mid;
      assert d * (p * t) == (d * p) * t;
    }
    assert 0 <= d * mid <= d * p - d by {
      MulNonNeg(d, mid);
      MulNonNeg(d, p - 1 - mid);
      assert d * (p - 1 - mid) == d * p - d - d * mid;
    }
    DivModUnique(a, d * p, t, lo + d * mid);
  }
  /** Adding a multiple of the divisor does not change the remainder and shifts the quotient. */
  lemma AddMultiple(x: int, d: int, k: int)
    requires d > 0
    ensures (x + d * k) / d == x / d + k
    ensures (x + d * k) % d == x % d
  {
    assert x == d * (x / d) + x % d;
    assert x + d * k == d * (x / d + k) + x % d;
    DivModUnique(x + d * k, d, x / d + k, x % d);
  }

  /** A product of two non-negative numbers is non-negative. */
  lemma MulNonNeg(a: int, b: int)
    requires a >= 0 && b >= 0
    ensures a * b >= 0
  {
  }

  /** A product of a non-negative and a non-positive number is not positive. */
  lemma MulNonPos(a: int, b: int)
    requires a >= 0 && b <= 0
    ensures a * b <= 0
  {
  }

  /** Dividing a non-negative number by a positive one gives a number between 0 and it. */
  lemma DivNonNeg(x: int, d: int)
    requires x >= 0 && d >= 1
    ensures 0 <= x / d <= x
  {
    var q := x / d;
    assert x == d * q + x % d && q >= 0;
    MulNonPos(d - 1, -q);
    assert (d - 1) * (-q) == q - d * q;
  }

  /** Dividing a negative number by a positive one gives a negative number no smaller than it. */
  lemma DivNeg(x: int, d: int)
    requires x < 0 && d >= 1
    ensures x <= x / d < 0
  {
    var q, m := x / d, x % d;
    assert x == d * q + m && 0 <= m < d && q < 0;
    MulNonPos(d - 1, q + 1);
    assert (d - 1) * (q + 1) == d * q + d - q - 1;
  }

  lemma Pow2Even(k: nat)
    requires k > 0
    ensures Pow2(k) == 2 * Pow2(k - 1)
  {
  }

  // ---------------------------------------------------------------- operator facts

  lemma {:induction false} AndZero(a: nat, width: nat)
    ensures AndBits(a, 0, width) == 0
  {
    if width > 0 {
      AndZero(a / 2, width - 1);
    }
  }

  /** The low k bits of a, least significant first. */
  function LowBits(a: nat, k: nat): (r: nat)
  {
    if k == 0 then 0 else a % 2 + 2 * LowBits(a / 2, k - 1)
  }

  /** The low k bits of a are a modulo 2^k. */
  lemma {:induction false} LowBitsMod(a: nat, k: nat)
    ensures LowBits(a, k) == a % Pow2(k)
  {
    if k > 0 {
      LowBitsMod(a / 2, k - 1);
      ModSplit(a, 2, Pow2(k - 1));
    }
  }

  /** The mask of k + 1 one-bits is odd and halves to the mask of k one-bits. */
  lemma MaskHalves(k: nat)
    ensures (Pow2(k + 1) - 1) % 2 == 1 && (Pow2(k + 1) - 1) / 2 == Pow2(k) - 1
  {
    var p := Pow2(k);
    assert Pow2(k + 1) - 1 == 2 * (p - 1) + 1;
    DivModUnique(Pow2(k + 1) - 1, 2, p - 1, 1);
  }

  /** ANDing with a mask of k one-bits keeps exactly the low k bits. */
  lemma {:induction false} AndLowMask(a: nat, k: nat, width: nat)
    requires k <= width
    ensures AndBits(a, Pow2(k) - 1, width) == a % Pow2(k)
  {
    AndLowBits(a, k, width);
    LowBitsMod(a, k);
  }

  lemma {:induction false} AndLowBits(a: nat, k: nat, width: nat)
    requires k <= width
    ensures AndBits(a, Pow2(k) - 1, width) == LowBits(a, k)
  {
    if k == 0 {
      AndZero(a, width);
    } else {
      var m := Pow2(k) - 1;
      MaskHalves(k - 1);
      assert m % 2 == 1 && m / 2 == Pow2(k - 1) - 1;
      AndLowBits(a / 2, k - 1, width - 1);
      assert AndBits(a, m, width) == a % 2 + 2 * AndBits(a / 2, m / 2, width - 1);
    }
  }

  lemma Uint32Mod256(v: int)
    ensures ToUint32(v) % 256 == v % 256
  {
    ModSplit(v, 256, 0x100_0000);
    assert v % Two32 == v % 256 + 256 * ((v / 256) % 0x100_0000);
    AddMultiple(v % 256, 256, (v / 256) % 0x100_0000);
  }

  lemma SmallInt32(x: int)
    requires 0 <= x < Two31
    ensures ToInt32(x) == x
  {
    DivModUnique(x, Two32, 0, x);
  }

  /** `v & 0xff` is v modulo 256, for every integral v (negative ones included). */
  lemma MaskByte(v: int)
    ensures BitAnd(v, 0xff) == v % 256
  {
    var u := ToUint32(v);
    assert Pow2(8) == 256;
    AndLowMask(u, 8, 32);
    Uint32Mod256(v);
    var r := AndBits(u, ToUint32(0xff), 32);
    assert r == v % 256;
    SmallInt32(r);
  }

  /** `v >> 8` is v divided by 256 rounding down, up to a multiple of 2^24. */
  lemma ShiftByte(v: int)
    ensures ShiftRight(v, 8) % 256 == (v / 256) % 256
  {
    assert Pow2(8) == 256;
    var t := ToInt32(v);
    var k := (v - t) / Two32;
    assert v == t + Two32 * k;
    AddMultiple(t, 256, 0x100_0000 * k);
    assert v / 256 == t / 256 + 0x100_0000 * k;
    AddMultiple(t / 256, 256, 0x1_0000 * k);
  }
}
