/**
 The single-level integer Schrödinger stepper `QWave::step` of
 crate/src/utils.rs. Each cell holds a complex amplitude; a step first takes,
 at every `Default` cell, the `>> 1`-averaged second differences `uxx`, `uyy`
 of the pre-step field, then rotates them into the cell: the real part loses
 the imaginary curvature and the imaginary part loses the real curvature.
 `Wall` cells are never touched.

 The source calls `apply_cap` on each new amplitude but drops its result, so
 the stored amplitudes are not saturated (`QStep`); `QStepCapped` is the
 step with the saturation kept.
 */
module Quantum {
  import opened Fixed
  import opened Grid

  /** `(x + y) >> 1`: the averaging half of a second difference. */
  function HalfSum(x: int, y: int): int {
    Half(x + y)
  }

  /** The new amplitude of one `Default` cell from its pre-step value and its
      four neighbours: with `uxx = ((west + east) >> 1) - c` and
      `uyy = ((south + north) >> 1) - c` taken componentwise, the real part
      becomes `c.re - (uxx.im + uyy.im)` and the imaginary part
      `c.im - (uxx.re + uyy.re)`. */
  function CellUpdate(c: Cx, west: Cx, east: Cx, north: Cx, south: Cx): Cx {
    Cx(c.re - ((HalfSum(west.im, east.im) - c.im) + (HalfSum(south.im, north.im) - c.im)),
       c.im - ((HalfSum(west.re, east.re) - c.re) + (HalfSum(south.re, north.re) - c.re)))
  }

  /** Cell i after a step; walls keep their amplitude. */
  function QStepAt(a: Arena, psi: seq<Cx>, i: nat): Cx
    requires Steppable(a) && |psi| == |a.status| && i < |psi|
  {
    var w := a.width;
    if a.status[i] == Default
    then CellUpdate(psi[i], psi[i - 1], psi[i + 1], psi[i - w], psi[i + w])
    else psi[i]
  }

  /** `QWave::step` as written: every `Default` cell from the pre-step field,
      nothing saturated. */
  function QStep(a: Arena, psi: seq<Cx>): (r: seq<Cx>)
    requires Steppable(a) && |psi| == |a.status|
    ensures |r| == |psi|
    ensures forall i | 0 <= i < |psi| && a.status[i] == Wall :: r[i] == psi[i]
  {
    seq(|psi|, i requires 0 <= i < |psi| => QStepAt(a, psi, i))
  }

  /** The step with the `apply_cap` result kept: every `Default` amplitude is
      saturated into the cap range, and is the saturation of the uncapped
      step's amplitude. */
  function QStepCapped(a: Arena, psi: seq<Cx>): (r: seq<Cx>)
    requires Steppable(a) && |psi| == |a.status|
    ensures |r| == |psi|
    ensures forall i | 0 <= i < |psi| && a.status[i] == Wall :: r[i] == psi[i]
    ensures forall i | 0 <= i < |psi| && a.status[i] == Default :: InCap(r[i].re) && InCap(r[i].im)
  {
    var p := QStep(a, psi);
    seq(|psi|, i requires 0 <= i < |psi| => if a.status[i] == Default then CapCx(p[i]) else psi[i])
  }

  lemma QStepCell(a: Arena, psi: seq<Cx>, i: nat)
    requires Steppable(a) && |psi| == |a.status| && i < |psi|
    ensures QStep(a, psi)[i] == QStepAt(a, psi, i)
  {
  }

  /** A `Default` amplitude of the capped step is the uncapped step's amplitude
      saturated componentwise, so it is the nearest in-range value to it. */
  lemma CappedIsSaturation(a: Arena, psi: seq<Cx>, i: nat, x: int)
    requires Steppable(a) && |psi| == |a.status| && i < |psi| && a.status[i] == Default && InCap(x)
    ensures QStepCapped(a, psi)[i] == CapCx(QStep(a, psi)[i])
    ensures Abs(QStepCapped(a, psi)[i].re - QStep(a, psi)[i].re) <= Abs(x - QStep(a, psi)[i].re)
    ensures Abs(QStepCapped(a, psi)[i].im - QStep(a, psi)[i].im) <= Abs(x - QStep(a, psi)[i].im)
  {
    CapIsNearest(QStep(a, psi)[i].re, x);
    CapIsNearest(QStep(a, psi)[i].im, x);
  }

  /** Wherever the uncapped step already lands in the cap range, keeping the
      saturation changes nothing. */
  lemma CappedAgreesInRange(a: Arena, psi: seq<Cx>, i: nat)
    requires Steppable(a) && |psi| == |a.status| && i < |psi|
    requires InCap(QStep(a, psi)[i].re) && InCap(QStep(a, psi)[i].im)
    ensures QStepCapped(a, psi)[i] == QStep(a, psi)[i]
  {
  }

  // ---------------------------------------------------------------------------
  // Locality and rest

  /** A cell's next amplitude depends only on its own amplitude and its four
      neighbours'. */
  lemma QStepIsLocal(a: Arena, psi: seq<Cx>, phi: seq<Cx>, i: nat)
    requires Steppable(a) && |psi| == |a.status| && |phi| == |a.status|
    requires i < |psi| && a.status[i] == Default
    requires a.width <= i < |psi| - a.width
    requires forall j | j in {i - a.width, i - 1, i, i + 1, i + a.width} :: psi[j] == phi[j]
    ensures QStep(a, psi)[i] == QStep(a, phi)[i]
  {
    var w := a.width;
    assert psi[i - w] == phi[i - w] && psi[i - 1] == phi[i - 1] && psi[i] == phi[i];
    assert psi[i + 1] == phi[i + 1] && psi[i + w] == phi[i + w];
    QStepCell(a, psi, i);
    QStepCell(a, phi, i);
  }

  /** A cell whose neighbourhood is all zero stays zero. */
  lemma QuietCell(a: Arena, psi: seq<Cx>, i: nat)
    requires Steppable(a) && |psi| == |a.status| && i < |psi| && psi[i] == Cx(0, 0)
    requires a.status[i] == Default ==>
               && a.width <= i < |psi| - a.width
               && psi[i - 1] == Cx(0, 0) && psi[i + 1] == Cx(0, 0)
               && psi[i - a.width] == Cx(0, 0) && psi[i + a.width] == Cx(0, 0)
    ensures QStep(a, psi)[i] == Cx(0, 0)
  {
    QStepCell(a, psi, i);
    if a.status[i] == Default {
      QuietDefault(a, psi, i);
    }
  }

  /** The update of a `Default` cell whose neighbourhood is all zero. */
  lemma QuietDefault(a: Arena, psi: seq<Cx>, i: nat)
    requires Steppable(a) && |psi| == |a.status| && i < |psi| && a.status[i] == Default
    requires a.width <= i < |psi| - a.width && psi[i] == Cx(0, 0)
    requires psi[i - 1] == Cx(0, 0) && psi[i + 1] == Cx(0, 0)
    requires psi[i - a.width] == Cx(0, 0) && psi[i + a.width] == Cx(0, 0)
    ensures QStepAt(a, psi, i) == Cx(0, 0)
  {
  }

  /** The all-zero field is a fixed point. */
  lemma {:induction false} QZeroIsFixed(a: Arena)
    requires Steppable(a)
    ensures var z := seq(|a.status|, _ => Cx(0, 0));
            QStep(a, z) == z
  {
    var z := seq(|a.status|, _ => Cx(0, 0));
    forall i | 0 <= i < |z|
      ensures QStep(a, z)[i] == Cx(0, 0)
    {
      if a.status[i] == Default {
        assert a.width <= i < |z| - a.width;
      }
      QuietCell(a, z, i);
    }
  }

  // ---------------------------------------------------------------------------
  // The spike pattern of the step test
  //
  // The expected vector of the step test (crate/src/utils.rs:411-416) is the
  // field one step produces from a real spike (d, 0) at the centre of a 5 x 5
  // arena. The lemmas below start from such a spike; the test's own seed,
  // built by the floating-point `QWave::new`, is not part of this model.

  /** A field that is zero except for z at cell k. */
  function Spike(n: nat, k: nat, z: Cx): (psi: seq<Cx>)
    ensures |psi| == n
    ensures forall j | 0 <= j < n :: psi[j] == (if j == k then z else Cx(0, 0))
  {
    seq(n, j => if j == k then z else Cx(0, 0))
  }

  /** The expected field after one step from a real spike (d, 0) at the centre
      of a 5 x 5 arena: (d, 2d) at the centre, (0, -(d >> 1)) at its four
      neighbours 7, 11, 13, 17, zero elsewhere. */
  function DeltaExpected(d: int): seq<Cx> {
    seq(25, j => if j == 12 then Cx(d, 2 * d)
                 else if j == 7 || j == 11 || j == 13 || j == 17 then Cx(0, -Half(d))
                 else Cx(0, 0))
  }

  lemma {:induction false} DeltaStep(d: int)
    ensures Steppable(ArenaNew(5, 5))
    ensures QStep(ArenaNew(5, 5), Spike(25, 12, Cx(d, 0))) == DeltaExpected(d)
  {
    ArenaNewSquareIsBorder(5);
    var r := QStep(ArenaNew(5, 5), Spike(25, 12, Cx(d, 0)));
    forall k | 0 <= k < 25
      ensures r[k] == DeltaExpected(d)[k]
    {
      DeltaCell(d, k);
    }
  }

  lemma DeltaCell(d: int, k: nat)
    requires k < 25
    ensures Steppable(ArenaNew(5, 5))
    ensures QStep(ArenaNew(5, 5), Spike(25, 12, Cx(d, 0)))[k] == DeltaExpected(d)[k]
  {
    ArenaNewSquareIsBorder(5);
    ArenaNewSquare(5, k);
    if k == 12 {
      DeltaCentreCell(d);
    } else if k == 7 || k == 11 || k == 13 || k == 17 {
      DeltaNeighbourCell(d, k);
    } else {
      var a, psi := ArenaNew(5, 5), Spike(25, 12, Cx(d, 0));
      if a.status[k] == Default {
        assert 5 <= k < 20;
      }
      QuietCell(a, psi, k);
    }
  }

  lemma DeltaCentreCell(d: int)
    requires Steppable(ArenaNew(5, 5)) && ArenaNew(5, 5).status[12] == Default
    ensures QStep(ArenaNew(5, 5), Spike(25, 12, Cx(d, 0)))[12] == Cx(d, 2 * d)
  {
    var a, psi := ArenaNew(5, 5), Spike(25, 12, Cx(d, 0));
    var z, s := Cx(0, 0), Cx(d, 0);
    QStepCell(a, psi, 12);
    assert (psi[12], psi[11], psi[13], psi[7], psi[17]) == (s, z, z, z, z);
    SpikeCentre(d);
  }

  lemma DeltaNeighbourCell(d: int, k: nat)
    requires k == 7 || k == 11 || k == 13 || k == 17
    requires Steppable(ArenaNew(5, 5)) && ArenaNew(5, 5).status[k] == Default
    ensures QStep(ArenaNew(5, 5), Spike(25, 12, Cx(d, 0)))[k] == Cx(0, -Half(d))
  {
    var a, psi := ArenaNew(5, 5), Spike(25, 12, Cx(d, 0));
    var z, s := Cx(0, 0), Cx(d, 0);
    QStepCell(a, psi, k);
    SpikeNeighbour(d);
    if k == 7 {
      assert (psi[k], psi[k - 1], psi[k + 1], psi[k - 5], psi[k + 5]) == (z, z, z, z, s);
    } else if k == 11 {
      assert (psi[k], psi[k - 1], psi[k + 1], psi[k - 5], psi[k + 5]) == (z, z, s, z, z);
    } else if k == 13 {
      assert (psi[k], psi[k - 1], psi[k + 1], psi[k - 5], psi[k + 5]) == (z, s, z, z, z);
    } else {
      assert (psi[k], psi[k - 1], psi[k + 1], psi[k - 5], psi[k + 5]) == (z, z, z, s, z);
    }
  }

  /** The spike's own cell: (d, 0) with four zero neighbours becomes (d, 2d). */
  lemma SpikeCentre(d: int)
    ensures CellUpdate(Cx(d, 0), Cx(0, 0), Cx(0, 0), Cx(0, 0), Cx(0, 0)) == Cx(d, 2 * d)
  {
  }

  /** A zero cell with the spike (d, 0) as its only non-zero neighbour, on
      any of the four sides, becomes (0, -(d >> 1)). */
  lemma SpikeNeighbour(d: int)
    ensures var z, s := Cx(0, 0), Cx(d, 0);
            && CellUpdate(z, s, z, z, z) == Cx(0, -Half(d))
            && CellUpdate(z, z, s, z, z) == Cx(0, -Half(d))
            && CellUpdate(z, z, z, s, z) == Cx(0, -Half(d))
            && CellUpdate(z, z, z, z, s) == Cx(0, -Half(d))
  {
  }

  /** The test states the neighbour value as `-psi[12].re >> 1`, which Rust
      parses as `(-d) >> 1`; that equals the stepped value `-(d >> 1)`
      exactly when d is even. */
  lemma TestShiftParity(d: int)
    ensures Half(-d) == -Half(d) <==> d % 2 == 0
  {
  }

  /** A constructed field with a spike at the cap maximum: the stored
      imaginary part 2 * CAP_MAX still fits `i32` but leaves the cap range,
      which the kept `apply_cap` would have saturated. */
  lemma QStepLeavesCapRange()
    ensures var r := QStep(ArenaNew(5, 5), Spike(25, 12, Cx(CAP_MAX, 0)));
            IsI32(r[12].im) && !InCap(r[12].im)
    ensures var r := QStepCapped(ArenaNew(5, 5), Spike(25, 12, Cx(CAP_MAX, 0)));
            r[12] == Cx(CAP_MAX, CAP_MAX)
  {
    DeltaStep(CAP_MAX);
    assert ArenaNew(5, 5).status[12] == Default;
  }
}
