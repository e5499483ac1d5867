/**
 The two-level integer Schrödinger stepper `QWave` of crate/src/waves.rs.
 The field keeps two time levels, `psi` and `psi_prev`. Construction seeds
 `psi_prev` at the `Default` cells and derives `psi` from it by one start-up
 step (`init_step`); each later step computes the new `psi` from `psi_prev`
 and the curvature of the current `psi`, then moves the current `psi` into
 `psi_prev`. `Wall` cells are never touched.

 The two stencils differ as written: `init_step` uses the second difference
 `west + east - 2 * centre` and shifts only the curvature by
 `STABILITY_PARAM`; `step` uses `west + east - centre` and, because Rust's
 `>>` binds looser than `-`, shifts the whole difference
 `psi_prev - curvature` by 3.
 */
module Leapfrog {
  import opened Fixed
  import opened Grid

  /** `STABILITY_PARAM`: the shift of the start-up step. */
  const STABILITY_PARAM: nat := 6

  /** The shift of the regular step. */
  const STEP_SHIFT: nat := 3

  datatype QWave = QWave(psi: seq<Cx>, prev: seq<Cx>)

  predicate Fits(a: Arena, q: QWave) {
    |q.psi| == |a.status| && |q.prev| == |a.status|
  }

  // ---------------------------------------------------------------------------
  // Construction: QWave::new and init_step

  /** `init_step` at one `Default` cell, from the seeded level p at the cell
      and its four neighbours: with `uxx = west + east - 2 * p` and
      `uyy = south + north - 2 * p` taken componentwise, the real part becomes
      `p.re - ((uxx.im + uyy.im) >> 6)` and the imaginary part
      `p.im - ((uxx.re + uyy.re) >> 6)`. */
  function InitCell(p: Cx, west: Cx, east: Cx, north: Cx, south: Cx): Cx {
    var uxxRe, uxxIm := west.re + east.re - 2 * p.re, west.im + east.im - 2 * p.im;
    var uyyRe, uyyIm := south.re + north.re - 2 * p.re, south.im + north.im - 2 * p.im;
    Cx(p.re - Shr(uxxIm + uyyIm, STABILITY_PARAM), p.im - Shr(uxxRe + uyyRe, STABILITY_PARAM))
  }

  /** Cell i of the start-up level; the output buffer starts at zero and only
      `Default` cells are written. */
  function InitStepAt(a: Arena, prev: seq<Cx>, i: nat): Cx
    requires Steppable(a) && |prev| == |a.status| && i < |prev|
  {
    var w := a.width;
    if a.status[i] == Default
    then InitCell(prev[i], prev[i - 1], prev[i + 1], prev[i - w], prev[i + w])
    else Cx(0, 0)
  }

  /** `init_step`: every `Default` cell from the seeded level, every `Wall`
      cell zero. */
  function InitStep(a: Arena, prev: seq<Cx>): (r: seq<Cx>)
    requires Steppable(a) && |prev| == |a.status|
    ensures |r| == |prev|
    ensures forall i | 0 <= i < |r| && a.status[i] == Wall :: r[i] == Cx(0, 0)
  {
    seq(|prev|, i requires 0 <= i < |prev| => InitStepAt(a, prev, i))
  }

  /** The integer part of `QWave::new`: the seed amplitudes (computed in
      floating point by the source) are written at the `Default` cells only,
      the rest of `psi_prev` stays zero, and `psi` is the start-up step from
      it. */
  function QNew(a: Arena, seed: seq<Cx>): (q: QWave)
    requires Steppable(a) && |seed| == |a.status|
    ensures Fits(a, q)
    ensures forall i | 0 <= i < |q.prev| ::
              q.prev[i] == (if a.status[i] == Default then seed[i] else Cx(0, 0))
    ensures forall i | 0 <= i < |q.psi| && a.status[i] == Wall :: q.psi[i] == Cx(0, 0)
  {
    var prev := seq(|seed|, i requires 0 <= i < |seed| => if a.status[i] == Default then seed[i] else Cx(0, 0));
    QWave(InitStep(a, prev), prev)
  }

  /** Where the seeded level is flat (the cell and its four neighbours equal),
      the second difference vanishes and the start-up step keeps the level. */
  lemma InitCellFlat(p: Cx)
    ensures InitCell(p, p, p, p, p) == p
  {
    Pow2Values();
  }

  lemma InitStepFlat(a: Arena, prev: seq<Cx>, i: nat)
    requires Steppable(a) && |prev| == |a.status| && i < |prev| && a.status[i] == Default
    requires a.width <= i < |prev| - a.width
    requires prev[i - 1] == prev[i] && prev[i + 1] == prev[i]
    requires prev[i - a.width] == prev[i] && prev[i + a.width] == prev[i]
    ensures InitStep(a, prev)[i] == prev[i]
  {
    InitCellFlat(prev[i]);
  }

  /** Amplitudes bounded by b give a start-up level bounded by b + b / 8 + 1. */
  lemma InitCellBounded(p: Cx, west: Cx, east: Cx, north: Cx, south: Cx, b: nat)
    requires CxWithin(p, b) && CxWithin(west, b) && CxWithin(east, b)
    requires CxWithin(north, b) && CxWithin(south, b)
    ensures CxWithin(InitCell(p, west, east, north, south), b + b / 8 + 1)
  {
    CurvatureShift(west.im + east.im - 2 * p.im + (south.im + north.im - 2 * p.im), b);
    CurvatureShift(west.re + east.re - 2 * p.re + (south.re + north.re - 2 * p.re), b);
  }

  /** With amplitudes bounded by b and 8 * b within `i32`, every intermediate
      sum of the start-up step fits in `i32`. */
  lemma InitCellFitsI32(p: Cx, west: Cx, east: Cx, north: Cx, south: Cx, b: nat)
    requires CxWithin(p, b) && CxWithin(west, b) && CxWithin(east, b)
    requires CxWithin(north, b) && CxWithin(south, b) && 8 * b <= I32_MAX
    ensures IsI32(2 * p.re) && IsI32(2 * p.im)
    ensures IsI32(west.re + east.re - 2 * p.re) && IsI32(west.im + east.im - 2 * p.im)
    ensures IsI32(south.re + north.re - 2 * p.re) && IsI32(south.im + north.im - 2 * p.im)
    ensures IsI32(west.re + east.re - 2 * p.re + (south.re + north.re - 2 * p.re))
    ensures IsI32(west.im + east.im - 2 * p.im + (south.im + north.im - 2 * p.im))
    ensures IsI32(InitCell(p, west, east, north, south).re)
    ensures IsI32(InitCell(p, west, east, north, south).im)
  {
    InitCellBounded(p, west, east, north, south, b);
  }

  lemma CurvatureShift(s: int, b: nat)
    requires -8 * b <= s <= 8 * b
    ensures -(b / 8) - 1 <= Shr(s, STABILITY_PARAM) <= b / 8
  {
    Pow2Values();
  }

  // ---------------------------------------------------------------------------
  // The leapfrog step

  /** `step` at one `Default` cell, from the previous level p, the current
      amplitude c and c's four neighbours: with `uxx = west + east - c` and
      `uyy = south + north - c` componentwise, the real part becomes
      `(p.re - (uxx.im + uyy.im)) >> 3` and the imaginary part
      `(p.im - (uxx.re + uyy.re)) >> 3`. */
  function LeapCell(p: Cx, c: Cx, west: Cx, east: Cx, north: Cx, south: Cx): Cx {
    var uxxRe, uxxIm := west.re + east.re - c.re, west.im + east.im - c.im;
    var uyyRe, uyyIm := south.re + north.re - c.re, south.im + north.im - c.im;
    Cx(Shr(p.re - (uxxIm + uyyIm), STEP_SHIFT), Shr(p.im - (uxxRe + uyyRe), STEP_SHIFT))
  }

  /** Cell i of the new `psi`; walls keep their amplitude. */
  function LeapStepAt(a: Arena, q: QWave, i: nat): Cx
    requires Steppable(a) && Fits(a, q) && i < |q.psi|
  {
    var w, psi := a.width, q.psi;
    if a.status[i] == Default
    then LeapCell(q.prev[i], psi[i], psi[i - 1], psi[i + 1], psi[i - w], psi[i + w])
    else psi[i]
  }

  /** `QWave::step`: the new `psi` from the pre-step levels, and the pre-step
      `psi` moved into `psi_prev`, at every `Default` cell. */
  function LeapStep(a: Arena, q: QWave): (r: QWave)
    requires Steppable(a) && Fits(a, q)
    ensures Fits(a, r)
    ensures forall i | 0 <= i < |q.psi| && a.status[i] == Wall ::
              r.psi[i] == q.psi[i] && r.prev[i] == q.prev[i]
    ensures forall i | 0 <= i < |q.psi| && a.status[i] == Default :: r.prev[i] == q.psi[i]
  {
    var n := |q.psi|;
    QWave(seq(n, i requires 0 <= i < n => LeapStepAt(a, q, i)),
          seq(n, i requires 0 <= i < n => if a.status[i] == Default then q.psi[i] else q.prev[i]))
  }

  function LeapStepN(a: Arena, q: QWave, n: nat): (r: QWave)
    requires Steppable(a) && Fits(a, q)
    ensures Fits(a, r)
    decreases n
  {
    if n == 0 then q else LeapStepN(a, LeapStep(a, q), n - 1)
  }

  lemma LeapStepCell(a: Arena, q: QWave, i: nat)
    requires Steppable(a) && Fits(a, q) && i < |q.psi|
    ensures LeapStep(a, q).psi[i] == LeapStepAt(a, q, i)
  {
  }

  /** A cell's next amplitude depends only on its own two levels and the
      current amplitudes of its four neighbours. */
  lemma LeapStepIsLocal(a: Arena, q: QWave, q': QWave, i: nat)
    requires Steppable(a) && Fits(a, q) && Fits(a, q')
    requires i < |q.psi| && a.status[i] == Default
    requires a.width <= i < |q.psi| - a.width
    requires q.prev[i] == q'.prev[i]
    requires forall j | j in {i - a.width, i - 1, i, i + 1, i + a.width} :: q.psi[j] == q'.psi[j]
    ensures LeapStep(a, q).psi[i] == LeapStep(a, q').psi[i]
  {
    var w := a.width;
    assert q.psi[i - w] == q'.psi[i - w] && q.psi[i - 1] == q'.psi[i - 1] && q.psi[i] == q'.psi[i];
    assert q.psi[i + 1] == q'.psi[i + 1] && q.psi[i + w] == q'.psi[i + w];
    LeapStepCell(a, q, i);
    LeapStepCell(a, q', i);
  }

  /** The precedence of `psi_prev - curvature >> 3`: where the current
      neighbourhood is zero the curvature vanishes, and the cell becomes the
      previous level shifted right by 3, not the previous level itself. */
  lemma QuietCellShiftsPrev(p: Cx)
    ensures var z := Cx(0, 0);
            LeapCell(p, z, z, z, z, z) == Cx(Shr(p.re, STEP_SHIFT), Shr(p.im, STEP_SHIFT))
  {
  }

  /** With `uxx = west + east - c` the curvature of a flat field is not zero:
      a flat current level c and a previous level equal to it give
      `(c.re - 2 * c.im) >> 3` and `(c.im - 2 * c.re) >> 3`. */
  lemma LeapCellFlat(c: Cx)
    ensures LeapCell(c, c, c, c, c, c) == Cx(Shr(c.re - 2 * c.im, STEP_SHIFT), Shr(c.im - 2 * c.re, STEP_SHIFT))
  {
  }

  /** The all-zero state is a fixed point of the step. */
  lemma {:induction false} LeapZeroIsFixed(a: Arena)
    requires Steppable(a)
    ensures var z := seq(|a.status|, _ => Cx(0, 0));
            LeapStep(a, QWave(z, z)) == QWave(z, z)
  {
    var z := seq(|a.status|, _ => Cx(0, 0));
    var r := LeapStep(a, QWave(z, z));
    forall i | 0 <= i < |z|
      ensures r.psi[i] == Cx(0, 0)
    {
      LeapStepCell(a, QWave(z, z), i);
      if a.status[i] == Default {
        assert a.width <= i < |z| - a.width;
        QuietCellShiftsPrev(Cx(0, 0));
        ShrBetween(0, STEP_SHIFT);
      }
    }
  }

  // ---------------------------------------------------------------------------
  // Bounds: the regular step never grows the largest amplitude

  predicate CxWithin(z: Cx, b: nat) {
    -(b as int) <= z.re <= b && -(b as int) <= z.im <= b
  }

  predicate Within(xs: seq<Cx>, b: nat) {
    forall i | 0 <= i < |xs| :: CxWithin(xs[i], b)
  }

  /** A seven-fold sum shifted right by 3 stays within the single bound. */
  lemma StepShift(s: int, b: nat)
    requires -7 * b <= s <= 7 * b
    ensures -(b as int) <= Shr(s, STEP_SHIFT) <= b
  {
    Pow2Values();
  }

  /** Amplitudes of both levels bounded by b give a new amplitude bounded by b. */
  lemma LeapCellBounded(p: Cx, c: Cx, west: Cx, east: Cx, north: Cx, south: Cx, b: nat)
    requires CxWithin(p, b) && CxWithin(c, b) && CxWithin(west, b) && CxWithin(east, b)
    requires CxWithin(north, b) && CxWithin(south, b)
    ensures CxWithin(LeapCell(p, c, west, east, north, south), b)
  {
    StepShift(p.re - (west.im + east.im - c.im + (south.im + north.im - c.im)), b);
    StepShift(p.im - (west.re + east.re - c.re + (south.re + north.re - c.re)), b);
  }

  /** Every intermediate sum of the step at one cell, `uxx`, `uyy`, their sum
      and the difference with `psi_prev`, fits in `i32`. */
  predicate StepFitsI32(p: Cx, c: Cx, west: Cx, east: Cx, north: Cx, south: Cx) {
    && IsI32(west.re + east.re) && IsI32(west.im + east.im)
    && IsI32(south.re + north.re) && IsI32(south.im + north.im)
    && IsI32(west.re + east.re - c.re) && IsI32(west.im + east.im - c.im)
    && IsI32(south.re + north.re - c.re) && IsI32(south.im + north.im - c.im)
    && IsI32(west.im + east.im - c.im + (south.im + north.im - c.im))
    && IsI32(west.re + east.re - c.re + (south.re + north.re - c.re))
    && IsI32(p.re - (west.im + east.im - c.im + (south.im + north.im - c.im)))
    && IsI32(p.im - (west.re + east.re - c.re + (south.re + north.re - c.re)))
  }

  /** With amplitudes bounded by b and 7 * b within `i32`, every intermediate
      sum of the step fits in `i32`. */
  lemma LeapCellFitsI32(p: Cx, c: Cx, west: Cx, east: Cx, north: Cx, south: Cx, b: nat)
    requires CxWithin(p, b) && CxWithin(c, b) && CxWithin(west, b) && CxWithin(east, b)
    requires CxWithin(north, b) && CxWithin(south, b) && 7 * b <= I32_MAX
    ensures StepFitsI32(p, c, west, east, north, south)
  {
  }

  /** The step keeps a bound on one cell. */
  lemma LeapStepAtBounded(a: Arena, q: QWave, i: nat, b: nat)
    requires Steppable(a) && Fits(a, q) && Within(q.psi, b) && Within(q.prev, b) && i < |q.psi|
    ensures CxWithin(LeapStepAt(a, q, i), b)
  {
    if a.status[i] == Default {
      var w := a.width;
      LeapCellBounded(q.prev[i], q.psi[i], q.psi[i - 1], q.psi[i + 1], q.psi[i - w], q.psi[i + w], b);
    }
  }

  /** A bound on both levels is kept by a step. */
  lemma {:induction false} LeapStepBounded(a: Arena, q: QWave, b: nat)
    requires Steppable(a) && Fits(a, q) && Within(q.psi, b) && Within(q.prev, b)
    ensures Within(LeapStep(a, q).psi, b) && Within(LeapStep(a, q).prev, b)
  {
    var r := LeapStep(a, q);
    forall i | 0 <= i < |r.psi|
      ensures CxWithin(r.psi[i], b)
    {
      LeapStepAtBounded(a, q, i, b);
    }
  }

  /** ... and so by any number of steps. */
  lemma {:induction false} LeapStepNBounded(a: Arena, q: QWave, n: nat, b: nat)
    requires Steppable(a) && Fits(a, q) && Within(q.psi, b) && Within(q.prev, b)
    ensures Within(LeapStepN(a, q, n).psi, b) && Within(LeapStepN(a, q, n).prev, b)
    decreases n
  {
    if n > 0 {
      LeapStepBounded(a, q, b);
      LeapStepNBounded(a, LeapStep(a, q), n - 1, b);
    }
  }

  /** A field whose two levels start within `i32::MAX / 7` never overflows:
      at every `Default` cell of every later state, each intermediate sum of
      the next step fits in `i32`. */
  lemma LeapStepNFitsI32(a: Arena, q: QWave, n: nat, b: nat, i: nat)
    requires Steppable(a) && Fits(a, q) && Within(q.psi, b) && Within(q.prev, b) && 7 * b <= I32_MAX
    requires i < |q.psi| && a.status[i] == Default
    ensures var s, w := LeapStepN(a, q, n), a.width;
            StepFitsI32(s.prev[i], s.psi[i], s.psi[i - 1], s.psi[i + 1], s.psi[i - w], s.psi[i + w])
  {
    LeapStepNBounded(a, q, n, b);
    var s, w := LeapStepN(a, q, n), a.width;
    LeapCellFitsI32(s.prev[i], s.psi[i], s.psi[i - 1], s.psi[i + 1], s.psi[i - w], s.psi[i + w], b);
  }

  // ---------------------------------------------------------------------------
  // Walls

  predicate WallsZero(a: Arena, q: QWave)
    requires Fits(a, q)
  {
    forall i | 0 <= i < |q.psi| && a.status[i] == Wall :: q.psi[i] == Cx(0, 0) && q.prev[i] == Cx(0, 0)
  }

  /** Both levels are zero on the walls after construction and after every
      number of steps. */
  lemma {:induction false} WallsStayZero(a: Arena, seed: seq<Cx>, n: nat)
    requires Steppable(a) && |seed| == |a.status|
    ensures WallsZero(a, LeapStepN(a, QNew(a, seed), n))
  {
    WallsZeroKept(a, QNew(a, seed), n);
  }

  lemma {:induction false} WallsZeroKept(a: Arena, q: QWave, n: nat)
    requires Steppable(a) && Fits(a, q) && WallsZero(a, q)
    ensures WallsZero(a, LeapStepN(a, q, n))
    decreases n
  {
    if n > 0 {
      WallsZeroKept(a, LeapStep(a, q), n - 1);
    }
  }
}
