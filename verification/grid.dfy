/**
 The arena: a fixed width x height grid stored row-major, one `Status` per
 cell, and the coordinate maps `to_xy` / `to_idx` (crate/src/utils.rs).

 Cell k of a grid of width w sits in row k / w and column k % w. A cell is on
 the border when it is in the first or last row or column; the steppers only
 evolve `Default` cells, and read the four axis neighbours of each one with
 unchecked `i - w`, `i + w`, `i - 1`, `i + 1` indexing.
 */
module Grid {
  import opened Fixed

  datatype Status = Default | Wall

  datatype Arena = Arena(width: nat, height: nat, status: seq<Status>)

  predicate OnBorder(w: nat, h: nat, k: nat)
    requires w > 0
  {
    k / w == 0 || k / w == h - 1 || k % w == 0 || k % w == w - 1
  }

  /** What the steppers need of an arena: one status per cell, and every
      `Default` cell far enough from both ends of the array that its north and
      south neighbours exist (east and west then exist too). */
  predicate Steppable(a: Arena) {
    && a.width > 0
    && |a.status| == a.width * a.height
    && forall k | 0 <= k < |a.status| && a.status[k] == Default ::
         a.width <= k < |a.status| - a.width
  }

  // ---------------------------------------------------------------------------
  // Row-major index arithmetic

  lemma MulAtLeast(d: int, w: int)
    requires w > 0
    ensures d >= 1 ==> d * w >= w
  {
    if d >= 1 {
      assert d * w == (d - 1) * w + w;
    }
  }

  /** Row and column recombine into the index, and the split is unique. */
  lemma IndexSplit(w: nat, row: int, col: int)
    requires w > 0 && row >= 0 && 0 <= col < w
    ensures (row * w + col) / w == row
    ensures (row * w + col) % w == col
  {
    var k := row * w + col;
    var q, r := k / w, k % w;
    assert k == q * w + r;
    assert (q - row) * w == col - r;
    assert (row - q) * w == r - col;
    MulAtLeast(q - row, w);
    MulAtLeast(row - q, w);
  }

  /** Column col of row row is a cell of a w x h grid. */
  lemma IndexInRange(w: nat, h: nat, row: nat, col: nat)
    requires col < w && row < h
    ensures row * w + col < w * h
  {
    assert row * w + col < (row + 1) * w;
    MulAtLeast(h - row, w);
    assert w * h == (h - (row + 1)) * w + (row + 1) * w;
  }

  /** Where a cell of a w x h grid lies. */
  lemma CellPosition(w: nat, h: nat, k: int)
    requires w > 0 && 0 <= k < w * h
    ensures 0 <= k / w < h && 0 <= k % w < w
    ensures k == (k / w) * w + k % w
    ensures k / w == 0 <==> k < w
    ensures k / w == h - 1 <==> w * h - w <= k
    ensures h * (w - 1) < k ==> k / w >= h - 1 || h > w
  {
    var row, col := k / w, k % w;
    assert k == row * w + col;
    assert row * w == (row - h + 1) * w + h * w - w;
    MulAtLeast(row - h + 1, w);
    MulAtLeast(row, w);
    assert w * h - w == (h - 1) * w;
    assert (h - 1) * w == (h - 1 - row) * w + row * w;
    MulAtLeast(h - 1 - row, w);
    assert h * (w - 1) == h * w - h;
  }

  lemma AllCellPositions(w: nat, h: nat)
    requires w > 0
    ensures forall k | 0 <= k < w * h :: 0 <= k / w < h && 0 <= k % w < w
  {
    forall k | 0 <= k < w * h
      ensures 0 <= k / w < h && 0 <= k % w < w
    {
      CellPosition(w, h, k);
    }
  }

  // ---------------------------------------------------------------------------
  // Arena::new as written

  /** The classification closure of `Arena::new`, with the source's four tests
      in the source's order: top, right, "bottom", left. */
  function ClassifyAsWritten(w: nat, h: nat, x: nat): Status
    requires w > 0
  {
    if x < w then Wall
    else if (x + 1) % w == 0 then Wall
    else if h * (w - 1) < x && x < h * w then Wall
    else if x % w == 0 then Wall
    else Default
  }

  function ArenaNew(width: nat, height: nat): (a: Arena)
    ensures a.width == width && a.height == height
    ensures |a.status| == width * height
  {
    if width == 0 then Arena(width, height, [])
    else Arena(width, height, seq(width * height, x requires 0 <= x => ClassifyAsWritten(width, height, x)))
  }

  /** What `Arena::new` computes for any size: the "bottom" test compares the
      index with h * (w - 1), which is the start of the last row only when
      w == h. */
  lemma ArenaNewClassifies(w: nat, h: nat, k: nat)
    requires w > 0 && k < w * h
    ensures ArenaNew(w, h).status[k] == Wall
        <==> k / w == 0 || k % w == w - 1 || k % w == 0 || h * (w - 1) < k
  {
    CellPosition(w, h, k);
    var row, col := k / w, k % w;
    if col == w - 1 {
      IndexSplit(w, row + 1, 0);
      assert k + 1 == (row + 1) * w + 0;
    } else {
      IndexSplit(w, row, col + 1);
      assert k + 1 == row * w + (col + 1);
    }
  }

  /** On a square grid `Arena::new` marks exactly the border. */
  lemma ArenaNewSquare(n: nat, k: nat)
    requires n > 0 && k < n * n
    ensures ArenaNew(n, n).status[k] == Wall <==> OnBorder(n, n, k)
  {
    ArenaNewClassifies(n, n, k);
    CellPosition(n, n, k);
    var row, col := k / n, k % n;
    if n * (n - 1) < k {
      assert n * (n - 1) == n * n - n;
    }
    if row == n - 1 && col != 0 {
      assert k == (n - 1) * n + col;
      assert n * (n - 1) == (n - 1) * n;
    }
  }

  /** The border classification, for any width and height. */
  function BorderArena(width: nat, height: nat): (a: Arena)
    requires width > 0
    ensures a.width == width && a.height == height
    ensures |a.status| == width * height
    ensures forall k | 0 <= k < width * height :: a.status[k] == Wall <==> OnBorder(width, height, k)
  {
    Arena(width, height, seq(width * height, k requires 0 <= k => if OnBorder(width, height, k) then Wall else Default))
  }

  lemma {:induction false} BorderArenaSteppable(w: nat, h: nat)
    requires w > 0
    ensures Steppable(BorderArena(w, h))
  {
    var a := BorderArena(w, h);
    forall k | 0 <= k < |a.status| && a.status[k] == Default
      ensures w <= k < |a.status| - w
    {
      CellPosition(w, h, k);
    }
  }

  lemma ArenaNewSquareIsBorder(n: nat)
    requires n > 0
    ensures ArenaNew(n, n) == BorderArena(n, n)
    ensures Steppable(ArenaNew(n, n))
  {
    forall k | 0 <= k < n * n
      ensures ArenaNew(n, n).status[k] == BorderArena(n, n).status[k]
    {
      ArenaNewSquare(n, k);
    }
    BorderArenaSteppable(n, n);
  }

  /** A grid wider than tall: cell 12 of a 5 x 3 grid is in the bottom row but
      `Arena::new` leaves it `Default`, so a stepper would read past the end
      of the array at index 12 + 5. */
  lemma ArenaNewWideCounterexample()
    ensures OnBorder(5, 3, 12) && ArenaNew(5, 3).status[12] == Default
    ensures !Steppable(ArenaNew(5, 3))
  {
    assert ArenaNew(5, 3).status[12] == Default;
  }

  /** A grid taller than wide: cell 13 of a 3 x 6 grid is interior but
      `Arena::new` makes it a wall. */
  lemma ArenaNewTallCounterexample()
    ensures !OnBorder(3, 6, 13) && ArenaNew(3, 6).status[13] == Wall
  {
  }

  // ---------------------------------------------------------------------------
  // Coordinate maps

  /** `to_xy`: centred coordinates, origin at (width / 2, height / 2) in
      (column, row), +x to the right and +y up. */
  function ToXY(a: Arena, idx: nat): (int, int)
    requires a.width > 0
  {
    (idx % a.width - a.width / 2, a.height / 2 - idx / a.width)
  }

  /** `to_idx(x, y)`: column x of row y. */
  function ToIdx(a: Arena, x: nat, y: nat): nat {
    y * a.width + x
  }

  lemma ToIdxSplitsBack(a: Arena, idx: nat)
    requires a.width > 0 && idx < a.width * a.height
    ensures ToIdx(a, idx % a.width, idx / a.width) == idx
  {
    CellPosition(a.width, a.height, idx);
  }

  lemma ToIdxThenToXY(a: Arena, x: nat, y: nat)
    requires x < a.width && y < a.height
    ensures ToIdx(a, x, y) < a.width * a.height
    ensures ToIdx(a, x, y) % a.width == x && ToIdx(a, x, y) / a.width == y
    ensures ToXY(a, ToIdx(a, x, y)) == (x - a.width / 2, a.height / 2 - y)
  {
    IndexSplit(a.width, y, x);
    IndexInRange(a.width, a.height, y, x);
  }

  /** `usize` subtraction as a wasm32 release build computes it. */
  function UsizeSub(a: nat, b: nat): nat {
    (a - b) % 0x1_0000_0000
  }

  /** `to_xy` as written: both subtractions are on `usize` and wrap for
      cells left of or below the centre; the `as i32` casts then reinterpret
      the wrapped value. */
  function ToXYAsWritten(a: Arena, idx: nat): (r: (int, int))
    requires a.width > 0
    ensures IsI32(r.0) && IsI32(r.1)
  {
    var x0, y0 := a.width / 2, a.height / 2;
    var y := UsizeSub(y0, idx / a.width);
    var x := UsizeSub(idx % a.width, x0);
    (Wrap32(x), Wrap32(y))
  }

  lemma WrapOfUsize(d: int)
    requires IsI32(d)
    ensures Wrap32(d % 0x1_0000_0000) == d
  {
    if d < 0 {
      assert d % 0x1_0000_0000 == d + 0x1_0000_0000;
    }
  }

  /** The wrapping `usize` arithmetic gives the signed result for every cell
      of a grid whose sides fit in `i32`. */
  lemma ToXYAsWrittenIsSigned(a: Arena, idx: nat)
    requires 0 < a.width <= I32_MAX && a.height <= I32_MAX && idx < a.width * a.height
    ensures ToXYAsWritten(a, idx) == ToXY(a, idx)
  {
    CellPosition(a.width, a.height, idx);
    WrapOfUsize(idx % a.width - a.width / 2);
    WrapOfUsize(a.height / 2 - idx / a.width);
  }
}
