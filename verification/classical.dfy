/**
 The damped classical wave `CWave` (crate/src/utils.rs; crate/src/waves.rs
 holds a textually identical copy). Each cell carries a displacement `u`, a
 velocity `v` and a decaying external `force`. A step makes two passes over
 the `Default` cells: first every velocity from the pre-step displacement,
 then every displacement from its new velocity and force, with saturation.
 `Wall` cells are never touched.
 */
module Classical {
  import opened Fixed
  import opened Grid
  import Colors

  /** `FORCE_DAMPING_BIT_SHIFT` */
  const FORCE_DAMPING_BIT_SHIFT: nat := 4

  datatype CWave = CWave(u: seq<int>, v: seq<int>, force: seq<int>)

  predicate Fits(a: Arena, s: CWave) {
    |s.u| == |a.status| && |s.v| == |a.status| && |s.force| == |a.status|
  }

  predicate AllInCap(xs: seq<int>) {
    forall i | 0 <= i < |xs| :: InCap(xs[i])
  }

  predicate AllI32(xs: seq<int>) {
    forall i | 0 <= i < |xs| :: IsI32(xs[i])
  }

  predicate StateInCap(s: CWave) {
    AllInCap(s.u) && AllInCap(s.v) && AllInCap(s.force)
  }

  predicate AllZero(xs: seq<int>) {
    forall i | 0 <= i < |xs| :: xs[i] == 0
  }

  // ---------------------------------------------------------------------------
  // Construction

  /** The square stimulus of `CWave::new`: columns and rows strictly between
      50 and 100. */
  predicate InStimulus(col: int, row: int) {
    50 < col < 100 && 50 < row < 100
  }

  /** `CWave::new`: the displacement is `0x3fffffff` (the cap maximum) on the
      stimulus square and zero elsewhere; velocity and force start at zero. */
  method NewWave(a: Arena) returns (s: CWave)
    ensures |s.u| == a.width * a.height && |s.v| == |s.u| && |s.force| == |s.u|
    ensures forall k | 0 <= k < |s.u| ::
              s.u[k] == (if InStimulus(k % a.width, k / a.width) then CAP_MAX else 0)
    ensures AllZero(s.v) && AllZero(s.force)
  {
    var w, h := a.width, a.height;
    var u := seq(w * h, _ => 0);
    if w == 0 {
      s := CWave(u, u, u);
      return;
    }
    var i := 0;
    while i < w
      invariant 0 <= i <= w
      invariant |u| == w * h
      invariant forall k | 0 <= k < w * h :: u[k] == (if MarkedSoFar(w, i, 0, k) then CAP_MAX else 0)
    {
      var j := 0;
      while j < h
        invariant 0 <= j <= h
        invariant |u| == w * h
        invariant forall k | 0 <= k < w * h :: u[k] == (if MarkedSoFar(w, i, j, k) then CAP_MAX else 0)
      {
        ghost var before := u;
        if i > 50 && j > 50 && i < 100 && j < 100 {
          IndexInRange(w, h, j, i);
          u := u[j * w + i := 0x3fffffff];
        }
        forall k | 0 <= k < w * h
          ensures u[k] == (if MarkedSoFar(w, i, j + 1, k) then CAP_MAX else 0)
        {
          CellPosition(w, h, k);
          IndexSplit(w, j, i);
        }
        j := j + 1;
      }
      forall k | 0 <= k < w * h
        ensures u[k] == (if MarkedSoFar(w, i + 1, 0, k) then CAP_MAX else 0)
      {
        CellPosition(w, h, k);
      }
      i := i + 1;
    }
    forall k | 0 <= k < w * h
      ensures u[k] == (if InStimulus(k % w, k / w) then CAP_MAX else 0)
    {
      CellPosition(w, h, k);
    }
    s := CWave(u, seq(w * h, _ => 0), seq(w * h, _ => 0));
  }

  /** The cells the construction loops have set once they have visited every
      row of columns 0 .. col - 1 and rows 0 .. row - 1 of column col. */
  predicate MarkedSoFar(w: nat, col: nat, row: nat, k: nat)
    requires w > 0
  {
    (k % w < col || (k % w == col && k / w < row)) && InStimulus(k % w, k / w)
  }

  // ---------------------------------------------------------------------------
  // One step

  /** The velocity pass at one `Default` cell: the half-averaged second
      differences of the pre-step displacement, added to the old velocity,
      damped by `vel >> damping` when `damping > 0`, then saturated. */
  function NewVelocity(c: int, north: int, south: int, east: int, west: int, v: int, damping: nat): (r: int)
    ensures InCap(r)
  {
    var uxx := Half(west + east) - c;
    var uyy := Half(north + south) - c;
    var vel := v + Half(uxx) + Half(uyy);
    var damped := if damping > 0 then vel - Shr(vel, damping) else vel;
    Cap(damped)
  }

  /** The position pass at one `Default` cell, from the new velocity. */
  function NewPosition(f: int, u: int, v: int): (r: int)
    ensures InCap(r)
  {
    Cap(f + Cap(u + v))
  }

  /** The force decay `f - (f >> 4)`: it never grows the force's magnitude,
      never flips its sign, and keeps a zero force at zero. */
  function DecayForce(f: int): (r: int)
    ensures Abs(r) <= Abs(f)
    ensures 0 <= f ==> 0 <= r
    ensures f <= 0 ==> r <= 0
  {
    ShrBetween(f, FORCE_DAMPING_BIT_SHIFT);
    f - Shr(f, FORCE_DAMPING_BIT_SHIFT)
  }

  /** The velocity pass at cell i; walls keep their velocity. */
  function VelocityAt(a: Arena, s: CWave, damping: nat, i: nat): (r: int)
    requires Steppable(a) && Fits(a, s) && i < |a.status|
  {
    var w := a.width;
    if a.status[i] == Default
    then NewVelocity(s.u[i], s.u[i - w], s.u[i + w], s.u[i + 1], s.u[i - 1], s.v[i], damping)
    else s.v[i]
  }

  /** `CWave::step`. Every `Default` cell's new velocity is computed from the
      pre-step state, then its displacement from that new velocity. */
  function Step(a: Arena, s: CWave, damping: nat): (r: CWave)
    requires Steppable(a) && Fits(a, s) && damping < 32
    ensures Fits(a, r)
    ensures forall i | 0 <= i < |a.status| && a.status[i] == Wall ::
              r.u[i] == s.u[i] && r.v[i] == s.v[i] && r.force[i] == s.force[i]
    ensures forall i | 0 <= i < |a.status| && a.status[i] == Default ::
              InCap(r.u[i]) && InCap(r.v[i]) && Abs(r.force[i]) <= Abs(s.force[i])
  {
    var n := |a.status|;
    var v' := seq(n, i requires 0 <= i < n => VelocityAt(a, s, damping, i));
    var u' := seq(n, i requires 0 <= i < n =>
                if a.status[i] == Default then NewPosition(s.force[i], s.u[i], v'[i]) else s.u[i]);
    var f' := seq(n, i requires 0 <= i < n =>
                if a.status[i] == Default then DecayForce(s.force[i]) else s.force[i]);
    CWave(u', v', f')
  }

  /** Locality: a `Default` cell's next state depends only on its own
      displacement, velocity and force and on the displacement of its four
      neighbours. */
  lemma StepIsLocal(a: Arena, s: CWave, t: CWave, damping: nat, i: nat)
    requires Steppable(a) && Fits(a, s) && Fits(a, t) && damping < 32
    requires i < |a.status| && a.status[i] == Default
    requires a.width <= i < |a.status| - a.width
    requires forall j | j in {i - a.width, i - 1, i, i + 1, i + a.width} :: s.u[j] == t.u[j]
    requires s.v[i] == t.v[i] && s.force[i] == t.force[i]
    ensures var r, q := Step(a, s, damping), Step(a, t, damping);
            r.u[i] == q.u[i] && r.v[i] == q.v[i] && r.force[i] == q.force[i]
  {
    var w := a.width;
    assert s.u[i - w] == t.u[i - w] && s.u[i - 1] == t.u[i - 1] && s.u[i] == t.u[i];
    assert s.u[i + 1] == t.u[i + 1] && s.u[i + w] == t.u[i + w];
    StepCell(a, s, damping, i);
    StepCell(a, t, damping, i);
  }

  /** The resting state, everything zero, is a fixed point of the step. */
  lemma RestIsFixedPoint(a: Arena, damping: nat)
    requires Steppable(a) && damping < 32
    ensures var z := seq(|a.status|, _ => 0);
            Step(a, CWave(z, z, z), damping) == CWave(z, z, z)
  {
    var z := seq(|a.status|, _ => 0);
    var s := CWave(z, z, z);
    var r := Step(a, s, damping);
    forall i | 0 <= i < |a.status|
      ensures r.u[i] == 0 && r.v[i] == 0 && r.force[i] == 0
    {
      StepCell(a, s, damping, i);
      if a.status[i] == Default {
        var w := a.width;
        assert w <= i < |a.status| - w;
        assert VelocityAt(a, s, damping, i) == NewVelocity(0, 0, 0, 0, 0, 0, damping);
        RestVelocity(damping);
      }
    }
    assert r.u == z && r.v == z && r.force == z;
  }

  /** A cell at rest between neighbours at rest keeps a zero velocity. */
  lemma RestVelocity(damping: nat)
    ensures NewVelocity(0, 0, 0, 0, 0, 0, damping) == 0
  {
    ShrBetween(0, damping);
  }

  /** Cell i of `Step`, read back from its three comprehensions. */
  lemma StepCell(a: Arena, s: CWave, damping: nat, i: nat)
    requires Steppable(a) && Fits(a, s) && damping < 32 && i < |a.status|
    ensures var r := Step(a, s, damping);
            && r.v[i] == VelocityAt(a, s, damping, i)
            && r.u[i] == (if a.status[i] == Default then NewPosition(s.force[i], s.u[i], r.v[i]) else s.u[i])
            && r.force[i] == (if a.status[i] == Default then DecayForce(s.force[i]) else s.force[i])
  {
  }

  /** The first loop of `CWave::step`: it writes only `v`, reading the
      pre-step displacements, so each cell's new velocity is `VelocityAt`. */
  method VelocityPass(a: Arena, s: CWave, damping: nat) returns (v: seq<int>)
    requires Steppable(a) && Fits(a, s) && damping < 32
    ensures |v| == |a.status|
    ensures forall k | 0 <= k < |v| :: v[k] == VelocityAt(a, s, damping, k)
  {
    var w, n := a.width, |a.status|;
    var u := s.u;
    v := s.v;
    var i := 0;
    while i < n
      invariant 0 <= i <= n
      invariant |v| == n
      invariant forall k | 0 <= k < i :: v[k] == VelocityAt(a, s, damping, k)
      invariant forall k | i <= k < n :: v[k] == s.v[k]
    {
      if a.status[i] == Default {
        assert w <= i < n - w;
        var uCen := u[i];
        var uNorth := u[i - w];
        var uSouth := u[i + w];
        var uEast := u[i + 1];
        var uWest := u[i - 1];
        var uxx := Half(uWest + uEast) - uCen;
        var uyy := Half(uNorth + uSouth) - uCen;
        var vel := v[i] + Half(uxx) + Half(uyy);
        if damping > 0 {
          vel := vel - Shr(vel, damping);
        }
        v := v[i := Cap(vel)];
      }
      i := i + 1;
    }
  }

  /** The second loop of `CWave::step`: displacement from the new velocity
      and force, then the force decay. */
  method PositionPass(a: Arena, s: CWave, v: seq<int>) returns (u: seq<int>, force: seq<int>)
    requires Steppable(a) && Fits(a, s) && |v| == |a.status|
    ensures |u| == |a.status| && |force| == |a.status|
    ensures forall k | 0 <= k < |u| ::
              u[k] == (if a.status[k] == Default then NewPosition(s.force[k], s.u[k], v[k]) else s.u[k])
    ensures forall k | 0 <= k < |force| ::
              force[k] == (if a.status[k] == Default then DecayForce(s.force[k]) else s.force[k])
  {
    var n := |a.status|;
    u, force := s.u, s.force;
    var i := 0;
    while i < n
      invariant 0 <= i <= n
      invariant |u| == n && |force| == n
      invariant forall k | 0 <= k < i ::
                  u[k] == (if a.status[k] == Default then NewPosition(s.force[k], s.u[k], v[k]) else s.u[k])
      invariant forall k | 0 <= k < i ::
                  force[k] == (if a.status[k] == Default then DecayForce(s.force[k]) else s.force[k])
      invariant forall k | i <= k < n :: u[k] == s.u[k] && force[k] == s.force[k]
    {
      if a.status[i] == Default {
        var f := force[i];
        u := u[i := Cap(f + Cap(u[i] + v[i]))];
        f := f - Shr(f, FORCE_DAMPING_BIT_SHIFT);
        force := force[i := f];
      }
      i := i + 1;
    }
  }

  /** `CWave::step` as the source writes it: two in-place loops over the cell
      arrays. The first loop writes only `v`, so the second reads the new
      velocities and the first reads only pre-step displacements; the result
      is the comprehension `Step`. */
  method StepInPlace(a: Arena, s: CWave, damping: nat) returns (r: CWave)
    requires Steppable(a) && Fits(a, s) && damping < 32
    ensures r == Step(a, s, damping)
  {
    var v := VelocityPass(a, s, damping);
    var u, force := PositionPass(a, s, v);
    r := CWave(u, v, force);
    var target := Step(a, s, damping);
    forall k | 0 <= k < |a.status|
      ensures r.u[k] == target.u[k] && r.v[k] == target.v[k] && r.force[k] == target.force[k]
    {
      StepCell(a, s, damping, k);
    }
    assert r.u == target.u && r.v == target.v && r.force == target.force;
  }

  /** `n` successive steps with the same damping. */
  function StepN(a: Arena, s: CWave, damping: nat, n: nat): (r: CWave)
    requires Steppable(a) && Fits(a, s) && damping < 32
    ensures Fits(a, r)
    decreases n
  {
    if n == 0 then s else StepN(a, Step(a, s, damping), damping, n - 1)
  }

  // ---------------------------------------------------------------------------
  // Properties over many steps

  /** Wall cells keep their displacement, velocity and force for ever. */
  lemma {:induction false} WallsNeverChange(a: Arena, s: CWave, damping: nat, n: nat, i: nat)
    requires Steppable(a) && Fits(a, s) && damping < 32
    requires i < |a.status| && a.status[i] == Wall
    ensures var r := StepN(a, s, damping, n);
            r.u[i] == s.u[i] && r.v[i] == s.v[i] && r.force[i] == s.force[i]
    decreases n
  {
    if n > 0 {
      WallsNeverChange(a, Step(a, s, damping), damping, n - 1, i);
    }
  }

  /** A step keeps every stored value in the capped range. */
  lemma StepPreservesCap(a: Arena, s: CWave, damping: nat)
    requires Steppable(a) && Fits(a, s) && damping < 32
    requires StateInCap(s)
    ensures StateInCap(Step(a, s, damping))
  {
    var r := Step(a, s, damping);
    forall i | 0 <= i < |a.status|
      ensures InCap(r.u[i]) && InCap(r.v[i]) && InCap(r.force[i])
    {
      if a.status[i] == Default {
        assert r.force[i] == DecayForce(s.force[i]);
      }
    }
  }

  lemma {:induction false} CapRangeForever(a: Arena, s: CWave, damping: nat, n: nat)
    requires Steppable(a) && Fits(a, s) && damping < 32
    requires StateInCap(s)
    ensures StateInCap(StepN(a, s, damping, n))
    decreases n
  {
    if n > 0 {
      StepPreservesCap(a, s, damping);
      CapRangeForever(a, Step(a, s, damping), damping, n - 1);
    }
  }

  /** A force field that starts at zero, as `CWave::new` makes it, stays zero. */
  lemma {:induction false} ForceStaysZero(a: Arena, s: CWave, damping: nat, n: nat)
    requires Steppable(a) && Fits(a, s) && damping < 32
    requires AllZero(s.force)
    ensures AllZero(StepN(a, s, damping, n).force)
    decreases n
  {
    if n > 0 {
      var r := Step(a, s, damping);
      assert AllZero(r.force) by {
        forall i | 0 <= i < |a.status|
          ensures r.force[i] == 0
        {
          if a.status[i] == Default {
            assert Abs(r.force[i]) <= Abs(s.force[i]);
          }
        }
      }
      ForceStaysZero(a, r, damping, n - 1);
    }
  }

  /** A freshly made wave is within the capped range, so every later state is. */
  lemma NewWaveInCap(s: CWave)
    requires forall k | 0 <= k < |s.u| :: s.u[k] == 0 || s.u[k] == CAP_MAX
    requires AllZero(s.v) && AllZero(s.force)
    ensures StateInCap(s)
  {
  }

  // ---------------------------------------------------------------------------
  // Rendering

  /** `CWave::render`: every cell's displacement through the scalar
      renderer, walls included. */
  function Render(s: CWave): (img: seq<bv32>)
    requires AllI32(s.u)
    ensures |img| == |s.u|
    ensures forall i | 0 <= i < |img| :: Colors.Byte(img[i], 3) == 0xFF
    ensures forall i | 0 <= i < |img| && s.u[i] == 0 :: img[i] == 0xFF00_0000
  {
    Colors.ScalarZeroIsBlack();
    seq(|s.u|, i requires 0 <= i < |s.u| => Colors.ScalarToRgba(s.u[i], false))
  }

  /** The channels of a rendered cell in the cap range: a positive level
      `u >> 22` lights bytes 1 and 2, a non-positive one lights byte 0 with its
      magnitude. */
  lemma RenderChannels(s: CWave, i: nat)
    requires AllI32(s.u) && i < |s.u| && InCap(s.u[i])
    ensures var c, l := Render(s)[i], Colors.Level(s.u[i]);
            && Colors.Byte(c, 1) == Max(l, 0) as bv32 && Colors.Byte(c, 2) == Max(l, 0) as bv32
            && Colors.Byte(c, 0) == (if l > 0 then 0 else Min(255, -l)) as bv32
  {
    Colors.LevelBounds(s.u[i]);
    Colors.ScalarChannels(s.u[i]);
  }

  // ---------------------------------------------------------------------------
  // The velocity sum in 32-bit arithmetic

  /** The velocity pass as a release build computes it: every `i32` `+` and
      `-` wraps. */
  function NewVelocityWrapping(c: int, north: int, south: int, east: int, west: int, v: int, damping: nat): (r: int)
    ensures InCap(r)
  {
    var uxx := HalfDiffWrapping(west, east, c);
    var uyy := HalfDiffWrapping(north, south, c);
    var vel := Wrap32(Wrap32(v + Half(uxx)) + Half(uyy));
    Cap(DampWrapping(vel, damping))
  }

  /** `((x + y) >> 1) - c` with wrapping `+` and `-`. */
  function HalfDiffWrapping(x: int, y: int, c: int): int {
    Wrap32(Half(Wrap32(x + y)) - c)
  }

  /** The damping `vel - (vel >> damping)` with a wrapping `-`. */
  function DampWrapping(vel: int, damping: nat): int {
    if damping > 0 then Wrap32(vel - Shr(vel, damping)) else vel
  }

  /** On capped inputs every intermediate of the velocity pass fits `i32`
      except the three-term sum `v + (uxx >> 1) + (uyy >> 1)`; when that sum
      fits too, the wrapping pass equals `NewVelocity`. */
  lemma WrappingAgreesUnlessVelocitySumOverflows(c: int, north: int, south: int, east: int, west: int, v: int, damping: nat)
    requires InCap(c) && InCap(north) && InCap(south) && InCap(east) && InCap(west) && InCap(v)
    requires IsI32(v + Half(Half(west + east) - c) + Half(Half(north + south) - c))
    ensures NewVelocityWrapping(c, north, south, east, west, v, damping)
         == NewVelocity(c, north, south, east, west, v, damping)
  {
    HalfDiffFits(north, south, c);
    FirstSumFits(c, east, west, v);
    ExactWhenFits(c, north, south, east, west, v, damping);
  }

  /** Whenever every intermediate of the velocity pass fits `i32`, wrapping
      arithmetic computes the exact velocity. */
  lemma ExactWhenFits(c: int, north: int, south: int, east: int, west: int, v: int, damping: nat)
    requires IsI32(west + east) && IsI32(north + south)
    requires IsI32(Half(west + east) - c) && IsI32(Half(north + south) - c)
    requires IsI32(v + Half(Half(west + east) - c))
    requires IsI32(v + Half(Half(west + east) - c) + Half(Half(north + south) - c))
    ensures NewVelocityWrapping(c, north, south, east, west, v, damping)
         == NewVelocity(c, north, south, east, west, v, damping)
  {
    var vel := v + Half(Half(west + east) - c) + Half(Half(north + south) - c);
    ShrBetween(vel, damping);
  }

  /** The horizontal half of the velocity sum fits `i32` on capped inputs. */
  lemma FirstSumFits(c: int, east: int, west: int, v: int)
    requires InCap(c) && InCap(east) && InCap(west) && InCap(v)
    ensures IsI32(west + east) && IsI32(Half(west + east) - c)
    ensures IsI32(v + Half(Half(west + east) - c))
  {
    HalfDiffFits(west, east, c);
    HalfFits(v, Half(west + east) - c);
  }

  /** `x + y` and `((x + y) >> 1) - c` fit `i32` on capped operands. */
  lemma HalfDiffFits(x: int, y: int, c: int)
    requires InCap(x) && InCap(y) && InCap(c)
    ensures IsI32(x + y) && IsI32(Half(x + y) - c)
  {
  }

  lemma HalfFits(v: int, u: int)
    requires InCap(v) && IsI32(u)
    ensures IsI32(v + Half(u))
  {
  }

  /** A displacement at the cap minimum between four neighbours at the cap
      maximum, with the velocity at the cap maximum, needs a velocity sum of
      3 * (2^30 - 1): the wrapping pass saturates it to the cap minimum, the
      intended pass to the cap maximum. */
  lemma VelocitySumOverflowCounterexample()
    ensures NewVelocity(CAP_MIN, CAP_MAX, CAP_MAX, CAP_MAX, CAP_MAX, CAP_MAX, 0) == CAP_MAX
    ensures NewVelocityWrapping(CAP_MIN, CAP_MAX, CAP_MAX, CAP_MAX, CAP_MAX, CAP_MAX, 0) == CAP_MIN
  {
    assert Half(CAP_MAX + CAP_MAX) - CAP_MIN == 0x7FFF_FFFF;
    assert Half(0x7FFF_FFFF) == CAP_MAX;
    assert Wrap32(CAP_MAX + CAP_MAX) == 0x7FFF_FFFE;
    assert Wrap32(0x7FFF_FFFE + CAP_MAX) == -0x4000_0003;
  }
}
