/**
 The "Laboratory" integer Schrödinger stepper of src/libSchr.rs, with the
 wall marking of its later copy crate/src/libSchr.rs. The field is a
 width x height grid of complex amplitudes, row-major, addressed by
 (row, column). Every cell evolves under the five-point stencil
 `[[0,1,0],[1,-4,1],[0,1,0]]` rotated into the complex plane: neighbours
 outside the grid read as zero, and cells on an edge or in a corner add
 reflection terms. Each new amplitude is clamped from above at 255, and a
 step divides the whole field by the number of cells left with a positive
 component.
 */
module Laboratory {
  import opened Fixed
  import opened Grid
  import Colors

  /** The side of the grid `Laboratory::new` builds. */
  const SIDE: nat := 200

  /** The ceiling of `clamp`. */
  const CEILING: int := 255

  datatype Lab = Lab(width: nat, height: nat, psi: seq<Cx>)

  predicate Valid(lab: Lab) {
    lab.width > 0 && lab.height > 0 && |lab.psi| == lab.width * lab.height
  }

  // ---------------------------------------------------------------------------
  // Addressing

  /** `get_index(row, col) = row * width + col`. */
  function GetIndex(lab: Lab, row: nat, col: nat): nat {
    row * lab.width + col
  }

  lemma GetIndexInGrid(lab: Lab, row: nat, col: nat)
    requires Valid(lab) && row < lab.height && col < lab.width
    ensures GetIndex(lab, row, col) < |lab.psi|
    ensures GetIndex(lab, row, col) / lab.width == row && GetIndex(lab, row, col) % lab.width == col
  {
    IndexSplit(lab.width, row, col);
    IndexInRange(lab.width, lab.height, row, col);
  }

  /** Distinct (row, column) pairs inside the width address distinct cells. */
  lemma GetIndexInjective(lab: Lab, r1: nat, c1: nat, r2: nat, c2: nat)
    requires c1 < lab.width && c2 < lab.width
    ensures GetIndex(lab, r1, c1) == GetIndex(lab, r2, c2) <==> r1 == r2 && c1 == c2
  {
    IndexSplit(lab.width, r1, c1);
    IndexSplit(lab.width, r2, c2);
  }

  // ---------------------------------------------------------------------------
  // clamp

  /** `clamp`, with the source's branches: a component of 255 or more becomes
      255; nothing bounds it from below. */
  function Clamp(z: Cx): (r: Cx)
    ensures r == Cx(Min(z.re, CEILING), Min(z.im, CEILING))
  {
    if z.re >= 255 then
      if z.im >= 255 then Cx(255, 255) else Cx(255, z.im)
    else if z.im > 255 then Cx(z.re, 255)
    else z
  }

  lemma ClampIdempotent(z: Cx)
    ensures Clamp(Clamp(z)) == Clamp(z)
  {
  }

  /** `clamp` changes exactly the amplitudes with a component above 255, however
      negative the other component is. */
  lemma ClampFixesExactlyLow(z: Cx)
    ensures Clamp(z) == z <==> z.re <= CEILING && z.im <= CEILING
  {
  }

  // ---------------------------------------------------------------------------
  // psi_evolve

  /** The left, right, top and bottom neighbours of a cell, zero where they
      would lie outside the grid. */
  function Left(lab: Lab, row: nat, col: nat): Cx
    requires Valid(lab) && row < lab.height && col < lab.width
  {
    if col > 0 then GetIndexInGrid(lab, row, col - 1); lab.psi[GetIndex(lab, row, col - 1)] else Cx(0, 0)
  }

  function Right(lab: Lab, row: nat, col: nat): Cx
    requires Valid(lab) && row < lab.height && col < lab.width
  {
    if col < lab.width - 1 then GetIndexInGrid(lab, row, col + 1); lab.psi[GetIndex(lab, row, col + 1)] else Cx(0, 0)
  }

  function Top(lab: Lab, row: nat, col: nat): Cx
    requires Valid(lab) && row < lab.height && col < lab.width
  {
    if row > 0 then GetIndexInGrid(lab, row - 1, col); lab.psi[GetIndex(lab, row - 1, col)] else Cx(0, 0)
  }

  function Bottom(lab: Lab, row: nat, col: nat): Cx
    requires Valid(lab) && row < lab.height && col < lab.width
  {
    if row < lab.height - 1 then GetIndexInGrid(lab, row + 1, col); lab.psi[GetIndex(lab, row + 1, col)] else Cx(0, 0)
  }

  /** `Complex<i32> / 2`: each component divided with truncation. */
  function HalfCx(z: Cx): Cx {
    Cx(TruncDiv(z.re, 2), TruncDiv(z.im, 2))
  }

  /** The neighbour sum of `psi_evolve`: the four neighbours, plus the
      source's reflection term chosen by its `match` on (row, col), first
      matching arm first. */
  function NeighbourSum(lab: Lab, row: nat, col: nat): Cx
    requires Valid(lab) && row < lab.height && col < lab.width
  {
    var l, r, t, b := Left(lab, row, col), Right(lab, row, col), Top(lab, row, col), Bottom(lab, row, col);
    var right, bottom := lab.width - 1, lab.height - 1;
    var d := Add(Add(Add(l, r), t), b);
    if row == 0 && col == 0 then Add(d, HalfCx(Add(b, r)))
    else if row == 0 && col == right then Add(d, HalfCx(Add(b, l)))
    else if row == 0 then Add(d, b)
    else if row == bottom && col == 0 then Add(d, HalfCx(Add(t, r)))
    else if row == bottom && col == right then Add(d, HalfCx(Add(t, l)))
    else if row == bottom then Add(d, t)
    else if col == 0 then Add(d, r)
    else if col == right then Add(d, l)
    else d
  }

  /** The rotated stencil: `re = -1 * (nb.im - 4 * c.im - c.re)`,
      `im = nb.re - 4 * c.re - c.im`. */
  function Stencil(c: Cx, nb: Cx): Cx {
    Cx(-1 * (nb.im - 4 * c.im - c.re), nb.re - 4 * c.re - c.im)
  }

  /** `psi_evolve(row, col)`. */
  function Evolve(lab: Lab, row: nat, col: nat): (r: Cx)
    requires Valid(lab) && row < lab.height && col < lab.width
    ensures r.re <= CEILING && r.im <= CEILING
  {
    GetIndexInGrid(lab, row, col);
    Clamp(Stencil(lab.psi[GetIndex(lab, row, col)], NeighbourSum(lab, row, col)))
  }

  /** The stencil as the test suite draws it: the real part is
      `re + 4 im` at the centre and `-im` at each neighbour, the imaginary
      part `-4 re - im` at the centre and `re` at each neighbour. */
  lemma StencilPicture(c: Cx, nb: Cx)
    ensures Stencil(c, nb) == Cx(c.re + 4 * c.im - nb.im, nb.re - 4 * c.re - c.im)
  {
  }

  /** The test suite's delta picture: a real unit spike with quiet
      surroundings becomes `1 - 4i`, and a quiet cell next to it becomes `i`. */
  lemma StencilOfUnitSpike()
    ensures Stencil(Cx(1, 0), Cx(0, 0)) == Cx(1, -4)
    ensures Stencil(Cx(0, 0), Cx(1, 0)) == Cx(0, 1)
  {
  }

  /** Away from the edges the neighbour sum is the plain sum of the four
      adjacent cells of the flat array. */
  lemma NeighbourSumInterior(lab: Lab, row: nat, col: nat)
    requires Valid(lab) && 0 < row < lab.height - 1 && 0 < col < lab.width - 1
    ensures var k, w := GetIndex(lab, row, col), lab.width;
            && w <= k < |lab.psi| - w
            && NeighbourSum(lab, row, col)
               == Add(Add(Add(lab.psi[k - 1], lab.psi[k + 1]), lab.psi[k - w]), lab.psi[k + w])
  {
    var k, w := GetIndex(lab, row, col), lab.width;
    GetIndexInGrid(lab, row + 1, col);
    assert GetIndex(lab, row - 1, col) == k - w;
    assert GetIndex(lab, row + 1, col) == k + w;
  }

  /** On an edge that is not a corner, of a grid at least 2 x 2, the missing
      neighbour is replaced by a second copy of the opposite one. */
  lemma NeighbourSumEdge(lab: Lab, row: nat, col: nat)
    requires Valid(lab) && lab.width >= 2 && lab.height >= 2
    requires row < lab.height && col < lab.width
    ensures var l, r, t, b := Left(lab, row, col), Right(lab, row, col), Top(lab, row, col), Bottom(lab, row, col);
            var nb := NeighbourSum(lab, row, col);
            && (row == 0 && 0 < col < lab.width - 1 ==> t == Cx(0, 0) && nb == Add(Add(l, r), Add(b, b)))
            && (row == lab.height - 1 && 0 < col < lab.width - 1 ==> b == Cx(0, 0) && nb == Add(Add(l, r), Add(t, t)))
            && (col == 0 && 0 < row < lab.height - 1 ==> l == Cx(0, 0) && nb == Add(Add(t, b), Add(r, r)))
            && (col == lab.width - 1 && 0 < row < lab.height - 1 ==> r == Cx(0, 0) && nb == Add(Add(t, b), Add(l, l)))
  {
    var l, r, t, b := Left(lab, row, col), Right(lab, row, col), Top(lab, row, col), Bottom(lab, row, col);
    var d := Add(Add(Add(l, r), t), b);
    if row == 0 && 0 < col < lab.width - 1 {
      assert NeighbourSum(lab, row, col) == Add(d, b);
    } else if row == lab.height - 1 && 0 < col < lab.width - 1 {
      assert NeighbourSum(lab, row, col) == Add(d, t);
    } else if col == 0 && 0 < row < lab.height - 1 {
      assert NeighbourSum(lab, row, col) == Add(d, r);
    } else if col == lab.width - 1 && 0 < row < lab.height - 1 {
      assert NeighbourSum(lab, row, col) == Add(d, l);
    }
  }

  /** In a corner of a grid at least 2 x 2 the two missing neighbours read
      as zero, and half the sum of the two present ones, truncated, is added. */
  lemma NeighbourSumCorner(lab: Lab, row: nat, col: nat)
    requires Valid(lab) && lab.width >= 2 && lab.height >= 2
    requires row < lab.height && col < lab.width
    requires (row == 0 || row == lab.height - 1) && (col == 0 || col == lab.width - 1)
    ensures var l, r, t, b := Left(lab, row, col), Right(lab, row, col), Top(lab, row, col), Bottom(lab, row, col);
            var vertical := if row == 0 then b else t;
            var horizontal := if col == 0 then r else l;
            NeighbourSum(lab, row, col) == Add(Add(vertical, horizontal), HalfCx(Add(vertical, horizontal)))
  {
  }

  // ---------------------------------------------------------------------------
  // step

  /** A cell counts toward the normalisation when a component is positive. */
  predicate Lit(z: Cx) {
    z.re > 0 || z.im > 0
  }

  /** The number of lit cells. */
  function CountLit(s: seq<Cx>): (n: nat)
    ensures n <= |s|
  {
    if |s| == 0 then 0 else CountLit(s[..|s| - 1]) + (if Lit(s[|s| - 1]) then 1 else 0)
  }

  /** The count is zero exactly when no cell is lit, so `step` divides by
      zero exactly on a field with no positive component. */
  lemma {:induction false} CountLitZero(s: seq<Cx>)
    ensures CountLit(s) == 0 <==> forall k | 0 <= k < |s| :: !Lit(s[k])
  {
    if |s| > 0 {
      var init := s[..|s| - 1];
      CountLitZero(init);
      assert forall k | 0 <= k < |init| :: init[k] == s[k];
    }
  }

  /** The clamped evolution of every cell, row-major, from the pre-step
      field; `step` writes it into a separate buffer and clamps again. */
  function Evolved(lab: Lab): (next: seq<Cx>)
    requires Valid(lab)
    ensures |next| == |lab.psi|
    ensures forall k | 0 <= k < |next| :: next[k].re <= CEILING && next[k].im <= CEILING
  {
    var w := lab.width;
    AllCellPositions(w, lab.height);
    seq(|lab.psi|, k requires 0 <= k < |lab.psi| => Clamp(Evolve(lab, k / w, k % w)))
  }

  /** Division of both components by the count, truncating. */
  function DivCx(z: Cx, count: nat): (r: Cx)
    requires count > 0
    ensures 0 <= z.re ==> 0 <= r.re <= z.re
    ensures z.re < 0 ==> z.re <= r.re <= 0
    ensures 0 <= z.im ==> 0 <= r.im <= z.im
    ensures z.im < 0 ==> z.im <= r.im <= 0
  {
    TruncDivShrinks(z.re, count);
    TruncDivShrinks(z.im, count);
    Cx(TruncDiv(z.re, count), TruncDiv(z.im, count))
  }

  /** `step`: evolve every cell, count the lit ones, divide everything by the
      count. The source divides by zero when nothing is lit. */
  function LabStep(lab: Lab): (r: Lab)
    requires Valid(lab) && CountLit(Evolved(lab)) > 0
    ensures r.width == lab.width && r.height == lab.height && Valid(r)
    ensures forall k | 0 <= k < |r.psi| :: r.psi[k].re <= CEILING && r.psi[k].im <= CEILING
  {
    var next := Evolved(lab);
    var count := CountLit(next);
    Lab(lab.width, lab.height, seq(|next|, k requires 0 <= k < |next| => DivCx(next[k], count)))
  }

  /** The normalisation shrinks magnitudes and keeps signs: every new
      component lies between zero and the evolved one. */
  lemma LabStepShrinks(lab: Lab, k: nat)
    requires Valid(lab) && CountLit(Evolved(lab)) > 0 && k < |lab.psi|
    ensures var next, r := Evolved(lab)[k], LabStep(lab).psi[k];
            && (0 <= next.re ==> 0 <= r.re <= next.re) && (next.re < 0 ==> next.re <= r.re <= 0)
            && (0 <= next.im ==> 0 <= r.im <= next.im) && (next.im < 0 ==> next.im <= r.im <= 0)
  {
  }

  /** The loops of `step`: rows outer, columns inner, writing cell
      `get_index(row, col)` of a copy of the field and counting lit cells as
      they are written. */
  method StepLoops(lab: Lab) returns (next: seq<Cx>, count: nat)
    requires Valid(lab)
    ensures next == Evolved(lab) && count == CountLit(next)
  {
    var w, h := lab.width, lab.height;
    next, count := lab.psi, 0;
    var row := 0;
    while row < h
      invariant 0 <= row <= h && |next| == |lab.psi|
      invariant row * w <= |lab.psi|
      invariant next[..row * w] == Evolved(lab)[..row * w] && count == CountLit(Evolved(lab)[..row * w])
    {
      next, count := StepRow(lab, row, next, count);
      row := row + 1;
    }
    NextRow(h, w);
    assert next[..h * w] == next && Evolved(lab)[..h * w] == Evolved(lab);
  }

  /** One pass of the inner loop: the columns of one row, left to right. */
  method StepRow(lab: Lab, row: nat, next0: seq<Cx>, count0: nat) returns (next: seq<Cx>, count: nat)
    requires Valid(lab) && row < lab.height && |next0| == |lab.psi|
    requires row * lab.width <= |lab.psi|
    requires next0[..row * lab.width] == Evolved(lab)[..row * lab.width]
    requires count0 == CountLit(Evolved(lab)[..row * lab.width])
    ensures |next| == |lab.psi| && (row + 1) * lab.width <= |lab.psi|
    ensures next[..(row + 1) * lab.width] == Evolved(lab)[..(row + 1) * lab.width]
    ensures count == CountLit(Evolved(lab)[..(row + 1) * lab.width])
  {
    var w, target := lab.width, Evolved(lab);
    next, count := next0, count0;
    var col, idx := 0, row * w;
    while col < w
      invariant 0 <= col <= w && idx == row * w + col && idx <= |target| && |next| == |target|
      invariant next[..idx] == target[..idx] && count == CountLit(target[..idx])
    {
      EvolvedAt(lab, row, col);
      var cell := Clamp(Evolve(lab, row, col));
      PrefixGrows(next, target, idx, cell);
      next := next[idx := cell];
      if Lit(cell) {
        count := count + 1;
      }
      col, idx := col + 1, idx + 1;
    }
    NextRow(row, w);
  }

  lemma NextRow(row: nat, w: nat)
    ensures (row + 1) * w == row * w + w && row * w == w * row
  {
  }

  /** Cell (row, col) of the evolved field, clamped once more as `step`
      does. */
  lemma EvolvedAt(lab: Lab, row: nat, col: nat)
    requires Valid(lab) && row < lab.height && col < lab.width
    ensures GetIndex(lab, row, col) < |lab.psi|
    ensures Evolved(lab)[GetIndex(lab, row, col)] == Clamp(Evolve(lab, row, col))
  {
    GetIndexInGrid(lab, row, col);
  }

  /** Writing the next cell extends the agreeing prefix and its count. */
  lemma PrefixGrows(next: seq<Cx>, target: seq<Cx>, idx: nat, cell: Cx)
    requires |next| == |target| && idx < |target| && cell == target[idx]
    requires next[..idx] == target[..idx]
    ensures next[idx := cell][..idx + 1] == target[..idx + 1]
    ensures CountLit(target[..idx + 1]) == CountLit(target[..idx]) + (if Lit(cell) then 1 else 0)
  {
    assert target[..idx + 1][..idx] == target[..idx];
  }

  // ---------------------------------------------------------------------------
  // complex_to_rgba

  /** `complex_to_rgba`: the magnitude of the real part, as a `u32`, in the
      three colour bytes under an opaque alpha. The imaginary part and the
      `intensity_only` flag are not read. */
  function ComplexToRgba(z: Cx, intensityOnly: bool): (c: bv32)
    requires IsI32(z.re)
    ensures Abs(z.re) <= 255 ==>
              var v := Abs(z.re) as bv32;
              Colors.Byte(c, 0) == v && Colors.Byte(c, 1) == v && Colors.Byte(c, 2) == v && Colors.Byte(c, 3) == 0xFF
  {
    Colors.PackGray(Abs(z.re) as bv32)
  }

  lemma ComplexToRgbaReadsOnlyRe(z: Cx, y: Cx, f: bool, g: bool)
    requires IsI32(z.re) && y.re == z.re
    ensures ComplexToRgba(z, f) == ComplexToRgba(y, g)
  {
  }

  // ---------------------------------------------------------------------------
  // Point writes

  /** One point `(row, col, value)` of `set_psi`. */
  datatype Point = Point(row: nat, col: nat, value: Cx)

  predicate PointInGrid(lab: Lab, p: Point) {
    p.row < lab.height && p.col < lab.width
  }

  predicate AllInGrid(lab: Lab, points: seq<Point>) {
    forall j | 0 <= j < |points| :: points[j].row < lab.height && points[j].col < lab.width
  }

  function Write(lab: Lab, p: Point): (r: Lab)
    requires Valid(lab) && PointInGrid(lab, p)
    ensures r.width == lab.width && r.height == lab.height && Valid(r)
  {
    GetIndexInGrid(lab, p.row, p.col);
    lab.(psi := lab.psi[GetIndex(lab, p.row, p.col) := p.value])
  }

  /** `set_psi`: the points written in order. */
  function SetPsi(lab: Lab, points: seq<Point>): (r: Lab)
    requires Valid(lab) && AllInGrid(lab, points)
    ensures r.width == lab.width && r.height == lab.height && Valid(r)
    decreases |points|
  {
    if |points| == 0 then lab
    else
      assert PointInGrid(lab, points[0]);
      SetPsi(Write(lab, points[0]), points[1..])
  }

  /** The value a cell holds after the points are written: that of the last
      point addressing it, or `before` when none does. */
  function LastWritten(width: nat, points: seq<Point>, k: nat, before: Cx): Cx
    decreases |points|
  {
    if |points| == 0 then before
    else
      var last := points[|points| - 1];
      if last.row * width + last.col == k then last.value
      else LastWritten(width, points[..|points| - 1], k, before)
  }

  /** `set_psi` leaves every cell holding the value of the last point that
      addresses it, and every other cell unchanged. */
  lemma {:induction false} SetPsiLastWins(lab: Lab, points: seq<Point>, k: nat)
    requires Valid(lab) && AllInGrid(lab, points)
    requires k < |lab.psi|
    ensures SetPsi(lab, points).psi[k] == LastWritten(lab.width, points, k, lab.psi[k])
    decreases |points|
  {
    if |points| > 0 {
      var first := Write(lab, points[0]);
      SetPsiLastWins(first, points[1..], k);
      LastWrittenAfterFirst(lab, points, k);
    }
  }

  /** Writing the first point and then the rest is the same as looking up the
      last writer among all of them. */
  lemma {:induction false} LastWrittenAfterFirst(lab: Lab, points: seq<Point>, k: nat)
    requires Valid(lab) && |points| > 0 && PointInGrid(lab, points[0]) && k < |lab.psi|
    ensures LastWritten(lab.width, points[1..], k, Write(lab, points[0]).psi[k])
            == LastWritten(lab.width, points, k, lab.psi[k])
    decreases |points|
  {
    var n := |points|;
    if n == 1 {
      assert points[1..] == [];
    } else {
      assert points[1..][..n - 2] == points[..n - 1][1..];
      assert points[1..][n - 2] == points[n - 1];
      LastWrittenAfterFirst(lab, points[..n - 1], k);
    }
  }

  /** A cell that no point addresses keeps its amplitude. */
  lemma {:induction false} LastWrittenUnaddressed(width: nat, points: seq<Point>, k: nat, before: Cx)
    requires forall j | 0 <= j < |points| :: points[j].row * width + points[j].col != k
    ensures LastWritten(width, points, k, before) == before
    decreases |points|
  {
    if |points| > 0 {
      LastWrittenUnaddressed(width, points[..|points| - 1], k, before);
    }
  }

  /** `delta_psi`: a real unit amplitude at one cell. */
  function DeltaPsi(lab: Lab, row: nat, col: nat): (r: Lab)
    requires Valid(lab) && row < lab.height && col < lab.width
    ensures r.width == lab.width && r.height == lab.height && Valid(r)
    ensures GetIndex(lab, row, col) < |r.psi|
    ensures forall k | 0 <= k < |r.psi| ::
              r.psi[k] == (if k == GetIndex(lab, row, col) then Cx(1, 0) else lab.psi[k])
  {
    GetIndexInGrid(lab, row, col);
    lab.(psi := lab.psi[GetIndex(lab, row, col) := Cx(1, 0)])
  }

  lemma DeltaPsiIsSetPsi(lab: Lab, row: nat, col: nat)
    requires Valid(lab) && row < lab.height && col < lab.width
    ensures DeltaPsi(lab, row, col) == SetPsi(lab, [Point(row, col, Cx(1, 0))])
  {
    assert [Point(row, col, Cx(1, 0))][1..] == [];
  }

  // ---------------------------------------------------------------------------
  // Construction

  /** `Laboratory::new`: a 200 x 200 field, zero except for a real unit
      amplitude at column 100 of row 100. */
  function LabNew(): (lab: Lab)
    ensures Valid(lab) && lab.width == SIDE && lab.height == SIDE
  {
    Lab(SIDE, SIDE, seq(SIDE * SIDE, idx => if idx % SIDE == 100 && idx / SIDE == 100 then Cx(1, 0) else Cx(0, 0)))
  }

  /** The initial field is `delta_psi((100, 100))` of the zero field. */
  lemma LabNewIsDelta()
    ensures LabNew() == DeltaPsi(Lab(SIDE, SIDE, seq(SIDE * SIDE, _ => Cx(0, 0))), 100, 100)
  {
    var zero := Lab(SIDE, SIDE, seq(SIDE * SIDE, _ => Cx(0, 0)));
    forall k | 0 <= k < SIDE * SIDE
      ensures LabNew().psi[k] == DeltaPsi(zero, 100, 100).psi[k]
    {
      IndexSplit(SIDE, 100, 100);
      GetIndexInjective(zero, k / SIDE, k % SIDE, 100, 100);
    }
  }

  // ---------------------------------------------------------------------------
  // A lone unit spike dies out

  /** The field is zero except for a real unit amplitude at (r, c). */
  predicate IsSpike(lab: Lab, r: nat, c: nat)
    requires Valid(lab)
  {
    forall k {:trigger SpikeValue(lab, r, c, k)} | 0 <= k < |lab.psi| :: lab.psi[k] == SpikeValue(lab, r, c, k)
  }

  /** The value a spike at (r, c) holds at flat index k. */
  function SpikeValue(lab: Lab, r: nat, c: nat, k: int): Cx {
    if k == GetIndex(lab, r, c) then Cx(1, 0) else Cx(0, 0)
  }

  /** Cell (row, col) of a spike field, by position. */
  lemma SpikeAt(lab: Lab, r: nat, c: nat, row: nat, col: nat)
    requires Valid(lab) && IsSpike(lab, r, c) && c < lab.width && row < lab.height && col < lab.width
    ensures GetIndex(lab, row, col) < |lab.psi|
    ensures lab.psi[GetIndex(lab, row, col)] == (if row == r && col == c then Cx(1, 0) else Cx(0, 0))
  {
    GetIndexInGrid(lab, row, col);
    GetIndexInjective(lab, row, col, r, c);
    assert lab.psi[GetIndex(lab, row, col)] == SpikeValue(lab, r, c, GetIndex(lab, row, col));
  }

  /** A real unit amplitude when b holds, zero otherwise. */
  function Unit(b: bool): Cx {
    if b then Cx(1, 0) else Cx(0, 0)
  }

  /** The four neighbours of a cell of a spike field. */
  lemma SpikeNeighbours(lab: Lab, r: nat, c: nat, row: nat, col: nat)
    requires Valid(lab) && IsSpike(lab, r, c) && r < lab.height && c < lab.width
    requires row < lab.height && col < lab.width
    ensures Left(lab, row, col) == Unit(row == r && col == c + 1)
    ensures Right(lab, row, col) == Unit(row == r && col + 1 == c)
    ensures Top(lab, row, col) == Unit(row == r + 1 && col == c)
    ensures Bottom(lab, row, col) == Unit(row + 1 == r && col == c)
  {
    if col > 0 { SpikeAt(lab, r, c, row, col - 1); }
    if col < lab.width - 1 { SpikeAt(lab, r, c, row, col + 1); }
    if row > 0 { SpikeAt(lab, r, c, row - 1, col); }
    if row < lab.height - 1 { SpikeAt(lab, r, c, row + 1, col); }
  }

  /** Whether (row, col) is one of the spike's four neighbours. */
  predicate Adjacent(r: nat, c: nat, row: nat, col: nat) {
    (row == r && (col + 1 == c || col == c + 1)) || (col == c && (row + 1 == r || row == r + 1))
  }

  /** With the spike two or more cells from every edge, no reflection term
      sees it: the neighbour sum is one unit next to the spike and zero
      elsewhere. */
  lemma NeighbourSumOfSpike(lab: Lab, r: nat, c: nat, row: nat, col: nat)
    requires Valid(lab) && IsSpike(lab, r, c)
    requires 2 <= r < lab.height - 2 && 2 <= c < lab.width - 2
    requires row < lab.height && col < lab.width
    ensures NeighbourSum(lab, row, col) == Unit(Adjacent(r, c, row, col))
  {
    SpikeNeighbours(lab, r, c, row, col);
    if 0 < row < lab.height - 1 && 0 < col < lab.width - 1 {
      NeighbourSumAwayFromEdges(lab, row, col);
    } else {
      NeighbourSumOfQuiet(lab, row, col);
    }
  }

  /** Off the edges the neighbour sum has no reflection term. */
  lemma NeighbourSumAwayFromEdges(lab: Lab, row: nat, col: nat)
    requires Valid(lab) && 0 < row < lab.height - 1 && 0 < col < lab.width - 1
    ensures NeighbourSum(lab, row, col)
            == Add(Add(Add(Left(lab, row, col), Right(lab, row, col)), Top(lab, row, col)), Bottom(lab, row, col))
  {
  }

  /** Four quiet neighbours give a zero neighbour sum, on the edges too. */
  lemma NeighbourSumOfQuiet(lab: Lab, row: nat, col: nat)
    requires Valid(lab) && row < lab.height && col < lab.width
    requires Left(lab, row, col) == Cx(0, 0) && Right(lab, row, col) == Cx(0, 0)
    requires Top(lab, row, col) == Cx(0, 0) && Bottom(lab, row, col) == Cx(0, 0)
    ensures NeighbourSum(lab, row, col) == Cx(0, 0)
  {
    assert HalfCx(Cx(0, 0)) == Cx(0, 0);
  }

  /** The clamped evolution of a unit spike away from the edges: `1 - 4i` at
      the spike, `i` at its four neighbours, zero elsewhere. */
  function SpikeEvolved(r: nat, c: nat, row: nat, col: nat): Cx {
    if row == r && col == c then Cx(1, -4)
    else if Adjacent(r, c, row, col) then Cx(0, 1)
    else Cx(0, 0)
  }

  lemma EvolveOfSpike(lab: Lab, r: nat, c: nat, row: nat, col: nat)
    requires Valid(lab) && IsSpike(lab, r, c)
    requires 2 <= r < lab.height - 2 && 2 <= c < lab.width - 2
    requires row < lab.height && col < lab.width
    ensures Clamp(Evolve(lab, row, col)) == SpikeEvolved(r, c, row, col)
  {
    SpikeAt(lab, r, c, row, col);
    NeighbourSumOfSpike(lab, r, c, row, col);
    EvolveOfUnits(lab, row, col, row == r && col == c, Adjacent(r, c, row, col));
  }

  /** The clamped evolution of a cell holding a unit or zero, whose neighbour
      sum is a unit or zero. */
  lemma EvolveOfUnits(lab: Lab, row: nat, col: nat, centre: bool, near: bool)
    requires Valid(lab) && row < lab.height && col < lab.width && !(centre && near)
    requires GetIndex(lab, row, col) < |lab.psi| && lab.psi[GetIndex(lab, row, col)] == Unit(centre)
    requires NeighbourSum(lab, row, col) == Unit(near)
    ensures Clamp(Evolve(lab, row, col))
            == if centre then Cx(1, -4) else if near then Cx(0, 1) else Cx(0, 0)
  {
  }

  /** Every set of lit cells is counted: the count is at least its size. */
  lemma {:induction false} CountLitAtLeast(s: seq<Cx>, lit: set<nat>)
    requires forall k | k in lit :: k < |s| && Lit(s[k])
    ensures |lit| <= CountLit(s)
    decreases |s|
  {
    if |s| == 0 {
      assert lit == {};
    } else {
      var n := |s| - 1;
      var init, rest := s[..n], lit - {n};
      assert forall k | k in rest :: k < |init| && init[k] == s[k];
      CountLitAtLeast(init, rest);
      if n in lit {
        assert lit == rest + {n};
      } else {
        assert rest == lit;
      }
    }
  }

  /** A cell of the five-point pattern is lit after evolving. */
  lemma SpikeLitAt(lab: Lab, r: nat, c: nat, row: nat, col: nat)
    requires Valid(lab) && IsSpike(lab, r, c)
    requires 2 <= r < lab.height - 2 && 2 <= c < lab.width - 2
    requires row < lab.height && col < lab.width && ((row == r && col == c) || Adjacent(r, c, row, col))
    ensures GetIndex(lab, row, col) < |lab.psi| && Lit(Evolved(lab)[GetIndex(lab, row, col)])
  {
    EvolvedAt(lab, row, col);
    EvolveOfSpike(lab, r, c, row, col);
  }

  /** The row above and the row below lie one width away in the flat field. */
  lemma VerticalNeighbourIndices(lab: Lab, r: nat, c: nat)
    requires r >= 1
    ensures GetIndex(lab, r - 1, c) == GetIndex(lab, r, c) - lab.width
    ensures GetIndex(lab, r + 1, c) == GetIndex(lab, r, c) + lab.width
  {
    NextRow(r - 1, lab.width);
    NextRow(r, lab.width);
  }

  /** The spike's cell and its four neighbours' are five distinct indices. */
  lemma FivePoints(k0: int, w: int)
    requires w >= 2
    ensures |{k0 - w, k0 - 1, k0, k0 + 1, k0 + w}| == 5
  {
    var s := {k0 - w, k0 - 1, k0, k0 + 1, k0 + w};
    assert {k0 - w} + {k0 - 1} + {k0} + {k0 + 1} + {k0 + w} == s;
    assert |{k0 - w} + {k0 - 1}| == 2;
    assert |{k0 - w} + {k0 - 1} + {k0}| == 3;
    assert |{k0 - w} + {k0 - 1} + {k0} + {k0 + 1}| == 4;
  }

  /** The cell and its four neighbours sit at five distinct indices. */
  lemma FiveCells(lab: Lab, r: nat, c: nat)
    requires 1 <= r && 1 <= c && c + 1 < lab.width
    ensures |{GetIndex(lab, r - 1, c), GetIndex(lab, r, c - 1), GetIndex(lab, r, c),
              GetIndex(lab, r, c + 1), GetIndex(lab, r + 1, c)}| == 5
  {
    var k0, w := GetIndex(lab, r, c), lab.width;
    VerticalNeighbourIndices(lab, r, c);
    assert {GetIndex(lab, r - 1, c), GetIndex(lab, r, c - 1), GetIndex(lab, r, c),
            GetIndex(lab, r, c + 1), GetIndex(lab, r + 1, c)}
        == {k0 - w, k0 - 1, k0, k0 + 1, k0 + w};
    FivePoints(k0, w);
  }

  /** A field lit at a cell and its four neighbours has at least five lit
      cells. */
  lemma FiveLitCells(s: seq<Cx>, lab: Lab, r: nat, c: nat)
    requires 1 <= r && 1 <= c && c + 1 < lab.width
    requires GetIndex(lab, r - 1, c) < |s| && Lit(s[GetIndex(lab, r - 1, c)])
    requires GetIndex(lab, r, c - 1) < |s| && Lit(s[GetIndex(lab, r, c - 1)])
    requires GetIndex(lab, r, c) < |s| && Lit(s[GetIndex(lab, r, c)])
    requires GetIndex(lab, r, c + 1) < |s| && Lit(s[GetIndex(lab, r, c + 1)])
    requires GetIndex(lab, r + 1, c) < |s| && Lit(s[GetIndex(lab, r + 1, c)])
    ensures CountLit(s) >= 5
  {
    var lit: set<nat> := {GetIndex(lab, r - 1, c), GetIndex(lab, r, c - 1), GetIndex(lab, r, c),
                          GetIndex(lab, r, c + 1), GetIndex(lab, r + 1, c)};
    FiveCells(lab, r, c);
    CountLitAtLeast(s, lit);
  }

  /** The spike and its left and right neighbours are lit after evolving. */
  lemma SpikeLitRow(lab: Lab, r: nat, c: nat)
    requires Valid(lab) && IsSpike(lab, r, c)
    requires 2 <= r < lab.height - 2 && 2 <= c < lab.width - 2
    ensures GetIndex(lab, r, c - 1) < |lab.psi| && Lit(Evolved(lab)[GetIndex(lab, r, c - 1)])
    ensures GetIndex(lab, r, c) < |lab.psi| && Lit(Evolved(lab)[GetIndex(lab, r, c)])
    ensures GetIndex(lab, r, c + 1) < |lab.psi| && Lit(Evolved(lab)[GetIndex(lab, r, c + 1)])
  {
    SpikeLitAt(lab, r, c, r, c - 1);
    SpikeLitAt(lab, r, c, r, c);
    SpikeLitAt(lab, r, c, r, c + 1);
  }

  /** The spike's neighbours above and below are lit after evolving. */
  lemma SpikeLitColumn(lab: Lab, r: nat, c: nat)
    requires Valid(lab) && IsSpike(lab, r, c)
    requires 2 <= r < lab.height - 2 && 2 <= c < lab.width - 2
    ensures GetIndex(lab, r - 1, c) < |lab.psi| && Lit(Evolved(lab)[GetIndex(lab, r - 1, c)])
    ensures GetIndex(lab, r + 1, c) < |lab.psi| && Lit(Evolved(lab)[GetIndex(lab, r + 1, c)])
  {
    SpikeLitAt(lab, r, c, r - 1, c);
    SpikeLitAt(lab, r, c, r + 1, c);
  }

  /** After one evolution of a spike away from the edges at least five cells
      are lit. */
  lemma SpikeLitCount(lab: Lab, r: nat, c: nat)
    requires Valid(lab) && IsSpike(lab, r, c)
    requires 2 <= r < lab.height - 2 && 2 <= c < lab.width - 2
    ensures CountLit(Evolved(lab)) >= 5
  {
    SpikeLitRow(lab, r, c);
    SpikeLitColumn(lab, r, c);
    FiveLitCells(Evolved(lab), lab, r, c);
  }

  /** The first step from a unit spike away from the edges: five cells are
      lit, every evolved component lies between -4 and 1, so the division
      by the count truncates the whole field to zero. */
  lemma SpikeStepIsZero(lab: Lab, r: nat, c: nat)
    requires Valid(lab) && IsSpike(lab, r, c)
    requires 2 <= r < lab.height - 2 && 2 <= c < lab.width - 2
    ensures CountLit(Evolved(lab)) >= 5
    ensures forall k | 0 <= k < |lab.psi| :: LabStep(lab).psi[k] == Cx(0, 0)
  {
    SpikeLitCount(lab, r, c);
    var count := CountLit(Evolved(lab));
    TruncDivOfSmall(1, count);
    TruncDivOfSmall(-4, count);
    TruncDivOfSmall(0, count);
    forall k | 0 <= k < |lab.psi|
      ensures LabStep(lab).psi[k] == Cx(0, 0)
    {
      CellPosition(lab.width, lab.height, k);
      var row, col := k / lab.width, k % lab.width;
      EvolvedAt(lab, row, col);
      EvolveOfSpike(lab, r, c, row, col);
    }
  }

  /** Every amplitude of the field is zero. The quantifier fires only on
      `ZeroAt` terms, so a proof names the cells it needs. */
  predicate IsZeroField(lab: Lab) {
    forall k {:trigger ZeroAt(lab, k)} | 0 <= k < |lab.psi| :: ZeroAt(lab, k)
  }

  predicate ZeroAt(lab: Lab, k: int)
    requires 0 <= k < |lab.psi|
  {
    lab.psi[k] == Cx(0, 0)
  }

  /** A cell of the zero field evolves to zero. */
  lemma EvolveOfZero(lab: Lab, row: nat, col: nat)
    requires Valid(lab) && IsZeroField(lab)
    requires row < lab.height && col < lab.width
    ensures Evolve(lab, row, col) == Cx(0, 0)
  {
    GetIndexInGrid(lab, row, col);
    assert ZeroAt(lab, GetIndex(lab, row, col));
    if col > 0 { GetIndexInGrid(lab, row, col - 1); assert ZeroAt(lab, GetIndex(lab, row, col - 1)); }
    if col < lab.width - 1 { GetIndexInGrid(lab, row, col + 1); assert ZeroAt(lab, GetIndex(lab, row, col + 1)); }
    if row > 0 { GetIndexInGrid(lab, row - 1, col); assert ZeroAt(lab, GetIndex(lab, row - 1, col)); }
    if row < lab.height - 1 { GetIndexInGrid(lab, row + 1, col); assert ZeroAt(lab, GetIndex(lab, row + 1, col)); }
    NeighbourSumOfQuiet(lab, row, col);
    EvolveOfUnits(lab, row, col, false, false);
  }

  /** Every cell of the evolved zero field is zero. */
  lemma EvolvedOfZero(lab: Lab)
    requires Valid(lab) && IsZeroField(lab)
    ensures forall k | 0 <= k < |lab.psi| :: Evolved(lab)[k] == Cx(0, 0)
  {
    var w, h := lab.width, lab.height;
    forall k | 0 <= k < |lab.psi|
      ensures Evolved(lab)[k] == Cx(0, 0)
    {
      CellPosition(w, h, k);
      var row, col := k / w, k % w;
      EvolvedAt(lab, row, col);
      EvolveOfZero(lab, row, col);
    }
  }

  /** The zero field evolves to zero, so nothing in it is lit. */
  lemma ZeroEvolvesToZero(lab: Lab)
    requires Valid(lab) && forall k | 0 <= k < |lab.psi| :: lab.psi[k] == Cx(0, 0)
    ensures forall k | 0 <= k < |lab.psi| :: Evolved(lab)[k] == Cx(0, 0)
    ensures CountLit(Evolved(lab)) == 0
  {
    assert IsZeroField(lab);
    EvolvedOfZero(lab);
    CountLitZero(Evolved(lab));
  }

  /** `Laboratory::new` followed by one `step` leaves a field with nothing
      lit, so the second `step` divides by a zero count: the source panics
      there. */
  lemma LabNewSecondStepDividesByZero()
    ensures CountLit(Evolved(LabNew())) >= 5
    ensures CountLit(Evolved(LabStep(LabNew()))) == 0
  {
    var lab := LabNew();
    LabNewIsDelta();
    SpikeStepIsZero(lab, 100, 100);
    ZeroEvolvesToZero(LabStep(lab));
  }

  /** `step` with the division guarded: a field with nothing lit is left
      unnormalised instead of dividing by zero. */
  function LabStepGuarded(lab: Lab): (r: Lab)
    requires Valid(lab)
    ensures r.width == lab.width && r.height == lab.height && Valid(r)
    ensures forall k | 0 <= k < |r.psi| :: r.psi[k].re <= CEILING && r.psi[k].im <= CEILING
  {
    if CountLit(Evolved(lab)) > 0 then LabStep(lab) else Lab(lab.width, lab.height, Evolved(lab))
  }

  /** The guarded step keeps the zero field fixed. */
  lemma LabStepGuardedZeroIsFixed(lab: Lab)
    requires Valid(lab) && forall k | 0 <= k < |lab.psi| :: lab.psi[k] == Cx(0, 0)
    ensures LabStepGuarded(lab) == lab
  {
    ZeroEvolvesToZero(lab);
  }

  /** The guarded step takes the spike to the zero field, as `step` does. */
  lemma SpikeGuardedStepIsZero(lab: Lab, r: nat, c: nat)
    requires Valid(lab) && IsSpike(lab, r, c)
    requires 2 <= r < lab.height - 2 && 2 <= c < lab.width - 2
    ensures forall k | 0 <= k < |LabStepGuarded(lab).psi| :: LabStepGuarded(lab).psi[k] == Cx(0, 0)
  {
    SpikeStepIsZero(lab, r, c);
  }

  /** With the division guarded, `Laboratory::new` can be stepped past the
      point where the source panics: the first step reaches the zero field,
      and every further step keeps it. */
  lemma LabNewGuardedSettles()
    ensures var first := LabStepGuarded(LabNew());
            && (forall k | 0 <= k < |first.psi| :: first.psi[k] == Cx(0, 0))
            && LabStepGuarded(first) == first
  {
    LabNewIsDelta();
    SpikeGuardedStepIsZero(LabNew(), 100, 100);
    LabStepGuardedZeroIsFixed(LabStepGuarded(LabNew()));
  }

  // ---------------------------------------------------------------------------
  // Wall marking (crate/src/libSchr.rs)

  /** The wall loops of `Laboratory::new` in crate/src/libSchr.rs: every row's
      first and last cell, then every column's top and bottom cell. */
  method MarkWalls(w: nat, h: nat) returns (status: seq<Status>)
    requires w > 0 && h > 0
    ensures status == BorderArena(w, h).status
  {
    status := seq(w * h, _ => Default);
    SidesStart(w, h, status);
    var i := 0;
    while i < h
      invariant 0 <= i <= h && |status| == w * h
      invariant forall k | 0 <= k < w * h :: status[k] == SidesUpTo(w, i, k)
    {
      SidesStep(w, h, i, status);
      status := status[i * w := Wall][i * w + w - 1 := Wall];
      i := i + 1;
    }
    SidesDone(w, h, status);
    var j := 0;
    while j < w
      invariant 0 <= j <= w && |status| == w * h
      invariant forall k | 0 <= k < w * h :: status[k] == EndsUpTo(w, h, j, k)
    {
      EndsStep(w, h, j, status);
      status := status[j := Wall][w * h - w + j := Wall];
      j := j + 1;
    }
    EndsDone(w, h, status);
  }

  /** After the first loop has run for i rows. */
  function SidesUpTo(w: nat, i: nat, k: nat): Status
    requires w > 0
  {
    if k / w < i && (k % w == 0 || k % w == w - 1) then Wall else Default
  }

  /** During the second loop, after j columns. */
  function EndsUpTo(w: nat, h: nat, j: nat, k: nat): Status
    requires w > 0
  {
    if k % w == 0 || k % w == w - 1 || (k % w < j && (k / w == 0 || k / w == h - 1)) then Wall else Default
  }

  lemma SidesStart(w: nat, h: nat, status: seq<Status>)
    requires w > 0 && status == seq(w * h, _ => Default)
    ensures forall k | 0 <= k < w * h :: status[k] == SidesUpTo(w, 0, k)
  {
    forall k | 0 <= k < w * h
      ensures status[k] == SidesUpTo(w, 0, k)
    {
      assert k / w >= 0;
    }
  }

  lemma SidesDone(w: nat, h: nat, status: seq<Status>)
    requires w > 0 && |status| == w * h
    requires forall k | 0 <= k < w * h :: status[k] == SidesUpTo(w, h, k)
    ensures forall k | 0 <= k < w * h :: status[k] == EndsUpTo(w, h, 0, k)
  {
    forall k | 0 <= k < w * h
      ensures status[k] == EndsUpTo(w, h, 0, k)
    {
      CellPosition(w, h, k);
    }
  }

  lemma SidesStep(w: nat, h: nat, i: nat, status: seq<Status>)
    requires w > 0 && i < h && |status| == w * h
    requires forall k | 0 <= k < w * h :: status[k] == SidesUpTo(w, i, k)
    ensures i * w + w - 1 < w * h
    ensures var s := status[i * w := Wall][i * w + w - 1 := Wall];
            forall k | 0 <= k < w * h :: s[k] == SidesUpTo(w, i + 1, k)
  {
    IndexInRange(w, h, i, w - 1);
    IndexSplit(w, i, 0);
    IndexSplit(w, i, w - 1);
    var s := status[i * w := Wall][i * w + w - 1 := Wall];
    forall k | 0 <= k < w * h
      ensures s[k] == SidesUpTo(w, i + 1, k)
    {
      CellPosition(w, h, k);
    }
  }

  lemma EndsStep(w: nat, h: nat, j: nat, status: seq<Status>)
    requires w > 0 && h > 0 && j < w && |status| == w * h
    requires forall k | 0 <= k < w * h :: status[k] == EndsUpTo(w, h, j, k)
    ensures j < w * h && w * h - w + j < w * h && w * h - w + j >= 0
    ensures var s := status[j := Wall][w * h - w + j := Wall];
            forall k | 0 <= k < w * h :: s[k] == EndsUpTo(w, h, j + 1, k)
  {
    IndexInRange(w, h, 0, j);
    IndexInRange(w, h, h - 1, j);
    IndexSplit(w, 0, j);
    IndexSplit(w, h - 1, j);
    assert (h - 1) * w + j == w * h - w + j;
    var s := status[j := Wall][w * h - w + j := Wall];
    forall k | 0 <= k < w * h
      ensures s[k] == EndsUpTo(w, h, j + 1, k)
    {
      CellPosition(w, h, k);
    }
  }

  lemma EndsDone(w: nat, h: nat, status: seq<Status>)
    requires w > 0 && |status| == w * h
    requires forall k | 0 <= k < w * h :: status[k] == EndsUpTo(w, h, w, k)
    ensures status == BorderArena(w, h).status
  {
    forall k | 0 <= k < w * h
      ensures status[k] == BorderArena(w, h).status[k]
    {
      CellPosition(w, h, k);
    }
  }
}
