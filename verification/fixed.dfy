/**
 Fixed-point arithmetic shared by every field of the simulator: the signed
 32-bit range, the saturating half-range cap (`apply_cap`), Rust's arithmetic
 shift and truncating division on `i32`, and the complex pair the quantum
 fields store per cell.

 Integers are unbounded here. Rust's `i32` wrap-around is written out
 (`Wrap32`) only where the model needs to show it.
 */
module Fixed {

  const I32_MIN: int := -0x8000_0000
  const I32_MAX: int := 0x7FFF_FFFF

  /** `i32::MIN >> 1` and `i32::MAX >> 1`: the range a stored amplitude is saturated into. */
  const CAP_MIN: int := -0x4000_0000
  const CAP_MAX: int := 0x3FFF_FFFF

  predicate IsI32(x: int) {
    I32_MIN <= x <= I32_MAX
  }

  predicate InCap(x: int) {
    CAP_MIN <= x <= CAP_MAX
  }

  function Min(a: int, b: int): int {
    if a <= b then a else b
  }

  function Max(a: int, b: int): int {
    if a >= b then a else b
  }

  function Abs(a: int): nat {
    if a < 0 then -a else a
  }

  function Pow2(k: nat): (p: nat)
    ensures p >= 1
  {
    if k == 0 then 1 else 2 * Pow2(k - 1)
  }

  /** The shift amounts the simulator uses. */
  lemma Pow2Values()
    ensures Pow2(1) == 2 && Pow2(3) == 8 && Pow2(4) == 16 && Pow2(6) == 64
    ensures Pow2(22) == 0x40_0000
  {
    assert Pow2(2) == 4 && Pow2(5) == 32 && Pow2(7) == 128 && Pow2(8) == 256;
    assert Pow2(10) == 1024 && Pow2(12) == 4096 && Pow2(14) == 0x4000;
    assert Pow2(16) == 0x1_0000 && Pow2(18) == 0x4_0000 && Pow2(20) == 0x10_0000;
  }

  /** Rust's `x >> k` on a signed `i32` is an arithmetic shift: a floor
      division by 2^k. Dafny's `/` rounds toward negative infinity for a
      positive divisor, so it is exactly that division. */
  function Shr(x: int, k: nat): int {
    x / Pow2(k)
  }

  /** `x >> 1`, the shift the stencils use. */
  function Half(x: int): int {
    x / 2
  }

  lemma HalfIsShr(x: int)
    ensures Half(x) == Shr(x, 1)
  {
    assert Pow2(1) == 2;
  }

  /** The shift rounds toward negative infinity: x lies in the half-open
      interval of width 2^k that starts at Shr(x, k) * 2^k. */
  lemma ShrIsFloorDivision(x: int, k: nat)
    ensures Shr(x, k) * Pow2(k) <= x < Shr(x, k) * Pow2(k) + Pow2(k)
  {
    var p := Pow2(k);
    assert x == (x / p) * p + x % p;
  }

  lemma MulByPositive(r: int, p: int)
    requires p >= 1
    ensures r >= 0 ==> r <= r * p
    ensures r <= 0 ==> r * p <= r
  {
    assert r * p == r * (p - 1) + r;
    if r >= 0 {
      assert r * (p - 1) >= 0;
    } else {
      assert r * (p - 1) <= 0;
    }
  }

  /** A shift moves a value toward zero: a non-negative value stays between
      zero and itself, a negative one between itself and -1. */
  lemma ShrBetween(x: int, k: nat)
    ensures 0 <= x ==> 0 <= Shr(x, k) <= x
    ensures x < 0 ==> x <= Shr(x, k) <= -1
  {
    var p, q := Pow2(k), Shr(x, k);
    ShrIsFloorDivision(x, k);
    if 0 <= x {
      MulByPositive(q + 1, p);
      MulByPositive(q, p);
    } else {
      MulByPositive(q, p);
      MulByPositive(q + 1, p);
    }
  }

  /** Rust's `/` on signed integers (here with a positive divisor): the
      quotient rounded toward zero. */
  function TruncDiv(a: int, b: int): (q: int)
    requires b > 0
    ensures 0 <= a ==> 0 <= q * b <= a < q * b + b
    ensures a < 0 ==> q * b - b < a <= q * b <= 0
  {
    if a >= 0 then
      DivBounds(a, b);
      a / b
    else
      DivBounds(-a, b);
      var q := (-a) / b;
      assert -q * b == -(q * b);
      -q
  }

  lemma DivBounds(a: int, b: int)
    requires a >= 0 && b > 0
    ensures 0 <= (a / b) * b <= a < (a / b) * b + b
  {
    var q := a / b;
    assert a == q * b + a % b;
    assert q >= 0;
  }

  /** Truncation moves toward zero: the quotient lies between zero and the
      dividend. */
  lemma TruncDivShrinks(a: int, b: int)
    requires b > 0
    ensures 0 <= a ==> 0 <= TruncDiv(a, b) <= a
    ensures a < 0 ==> a <= TruncDiv(a, b) <= 0
  {
    MulByPositive(TruncDiv(a, b), b);
  }

  /** A dividend smaller in magnitude than the divisor truncates to zero. */
  lemma TruncDivOfSmall(a: int, b: int)
    requires b > 0 && -b < a < b
    ensures TruncDiv(a, b) == 0
  {
    var q := TruncDiv(a, b);
    if q >= 1 {
      MulByPositive(b, q);
    } else if q <= -1 {
      MulByPositive(b, -q);
    }
  }

  /** Two's-complement wrap-around into the `i32` range, as a release build
      computes `+` and `-`. */
  function Wrap32(x: int): (r: int)
    ensures IsI32(r)
    ensures IsI32(x) ==> r == x
    decreases if x > I32_MAX then x - I32_MAX else if x < I32_MIN then I32_MIN - x else 0
  {
    if x > I32_MAX then Wrap32(x - 0x1_0000_0000)
    else if x < I32_MIN then Wrap32(x + 0x1_0000_0000)
    else x
  }

  /** The wrapped value differs from the exact one by a multiple of 2^32. */
  lemma {:induction false} WrapCongruent(x: int)
    ensures (x - Wrap32(x)) % 0x1_0000_0000 == 0
    decreases if x > I32_MAX then x - I32_MAX else if x < I32_MIN then I32_MIN - x else 0
  {
    if x > I32_MAX {
      WrapCongruent(x - 0x1_0000_0000);
    } else if x < I32_MIN {
      WrapCongruent(x + 0x1_0000_0000);
    }
  }

  /** `apply_cap` on `i32`: saturate into [CAP_MIN, CAP_MAX]. */
  function Cap(x: int): (r: int)
    ensures InCap(r)
    ensures InCap(x) ==> r == x
    ensures x < CAP_MIN ==> r == CAP_MIN
    ensures x > CAP_MAX ==> r == CAP_MAX
  {
    if x < CAP_MIN then CAP_MIN
    else if x > CAP_MAX then CAP_MAX
    else x
  }

  /** The cap bounds are the two ends of the `i32` range shifted right by one,
      so the sum and the difference of two capped values fit in `i32`. */
  lemma CapBoundsAreHalfRange()
    ensures CAP_MIN == Half(I32_MIN) && CAP_MAX == Half(I32_MAX)
    ensures forall x, y | InCap(x) && InCap(y) :: IsI32(x + y) && IsI32(x - y)
  {
  }

  lemma CapIdempotent(x: int)
    ensures Cap(Cap(x)) == Cap(x)
  {
  }

  /** `Cap` picks the in-range value closest to its argument. */
  lemma CapIsNearest(x: int, y: int)
    requires InCap(y)
    ensures Abs(Cap(x) - x) <= Abs(y - x)
  {
  }

  lemma CapMonotone(x: int, y: int)
    requires x <= y
    ensures Cap(x) <= Cap(y)
  {
  }

  /** A complex amplitude `Complex<i32>`. */
  datatype Cx = Cx(re: int, im: int)

  function Add(a: Cx, b: Cx): Cx {
    Cx(a.re + b.re, a.im + b.im)
  }

  function Sub(a: Cx, b: Cx): Cx {
    Cx(a.re - b.re, a.im - b.im)
  }

  /** `Complex<i32>::apply_cap`: saturate each component. */
  function CapCx(z: Cx): (r: Cx)
    ensures InCap(r.re) && InCap(r.im)
    ensures InCap(z.re) && InCap(z.im) ==> r == z
  {
    Cx(Cap(z.re), Cap(z.im))
  }
}
