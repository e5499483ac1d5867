# rust-waves fixed-point core in Dafny

This project models the integer part of the rust-waves 2-D wave simulator and
proves properties of it. A rectangular arena of `Wall` and `Default` cells is
stored row-major. Fields evolve on it in 32-bit fixed point:

- a damped classical wave (`CWave`): displacement, velocity and a decaying force per cell;
- a single-level integer Schrödinger stepper (`QWave` in `crate/src/utils.rs`);
- a two-level leapfrog Schrödinger stepper (`QWave` in `crate/src/waves.rs`);
- the "Laboratory" stencil of `src/libSchr.rs`, with an upper clamp at 255 and
  normalisation by the number of lit cells.

Amplitudes are turned into packed `u32` colours by the integer colour codec.

Modules, one per file:

| file | module | models |
|---|---|---|
| fixed.dfy | `Fixed` | `i32` range, `apply_cap`, `>>` as floor division, truncating `/`, `i32` wrap-around, `Complex<i32>` |
| grid.dfy | `Grid` | `Status`, `Arena::new`, `to_xy`, `to_idx` |
| colors.dfy | `Colors` | scalar `to_rgba`, byte packing of the complex `to_rgba` |
| classical.dfy | `Classical` | `CWave::new`, `CWave::step` (functional and as the two in-place loops), `render`, the wrapping velocity sum |
| quantum.dfy | `Quantum` | `QWave::step` of `crate/src/utils.rs`, and the spike pattern its step test expects |
| leapfrog.dfy | `Leapfrog` | `QWave::new` (integer part), `init_step`, `QWave::step` of `crate/src/waves.rs` |
| laboratory.dfy | `Laboratory` | `get_index`, `clamp`, `psi_evolve`, `step`, `complex_to_rgba`, `set_psi`, `delta_psi`, `Laboratory::new`, and the wall loops of `crate/src/libSchr.rs` |

Integers are unbounded `int`s. Rust's `x >> k` on `i32` is floor division by
2^k (`Fixed.Shr`, `Fixed.Half`). Rust's `/` on `i32` truncates toward zero
(`Fixed.TruncDiv`). `i32` wrap-around is written out (`Fixed.Wrap32`) where
it changes a result: the three-term velocity sum of `CWave::step`, and the
`usize` subtractions of `to_xy`.

The steppers require `Grid.Steppable(arena)`: one status per cell, and every
`Default` cell at least one row away from both ends of the array. That is
exactly what their unchecked `i - w` and `i + w` reads need.

Several source files hold copies of the same code. Each copy is modelled once:

- `CWave::step` of `crate/src/waves.rs:49-83` is textually the one of `crate/src/utils.rs:107-141`.
- The scalar `to_rgba` of `crate/src/utils.rs:272-283` is the one of `crate/src/colors.rs:11-22`.
- `clamp`, `psi_evolve`, `set_psi` and `delta_psi` of `crate/src/libSchr.rs:35-87, 174-184` are those of `src/libSchr.rs`.

These details of the code are kept as written:

- The leapfrog step's imaginary part is the previous level minus the real curvature (`crate/src/waves.rs:212`).
- The leapfrog step's Laplacian is `west + east - centre` (`crate/src/waves.rs:201-202`), while `init_step` uses `west + east - 2 * centre` (`crate/src/waves.rs:152-153`).
- The leapfrog step shifts the whole difference `psi_prev - curvature`, because `-` binds tighter than `>>` (`crate/src/waves.rs:211-212`).
- The leapfrog step stores its results without saturating them (`crate/src/waves.rs:211-212`).
- `CWave::render` sends wall cells through the scalar codec like every other cell, so they are opaque (`crate/src/utils.rs:142-144`).
- The complex packing puts the first channel (red) in byte 0 and the third (blue) in byte 2 (`crate/src/colors.rs:35`).
- Point writes do not check their coordinates. In-range coordinates are a precondition.

## Model

| member | source | states |
|---|---|---|
| Fixed.Cap | crate/src/utils.rs:246-256 | The result always lies in `[i32::MIN >> 1, i32::MAX >> 1]`. An in-range value is returned unchanged. A value below the range gives the lower bound, a value above gives the upper bound. |
| Fixed.CapBoundsAreHalfRange | crate/src/utils.rs:22-23 | The cap bounds are `i32::MIN >> 1` and `i32::MAX >> 1`. The sum and the difference of any two capped values fit in `i32`. |
| Fixed.CapIdempotent | crate/src/utils.rs:246-256 | Capping twice is capping once. |
| Fixed.CapIsNearest | crate/src/utils.rs:246-256 | No in-range value is closer to the input than the capped value. |
| Fixed.CapMonotone | crate/src/utils.rs:246-256 | Capping preserves order. |
| Fixed.CapCx | crate/src/utils.rs:258-262 | Both components of a capped complex value are in range. A complex value already in range is unchanged. |
| Fixed.HalfIsShr | crate/src/utils.rs:118-120 | `x >> 1` is the shift by one. |
| Fixed.ShrIsFloorDivision | crate/src/utils.rs:120-122 | `x >> k` on `i32` rounds toward negative infinity: x lies in `[q * 2^k, q * 2^k + 2^k)`. |
| Fixed.ShrBetween | crate/src/utils.rs:120-122 | A shift moves a value toward zero without crossing it. A non-negative x gives a result in `[0, x]`. A negative x gives a result in `[x, -1]`. |
| Fixed.TruncDiv | src/libSchr.rs:205 | Rust's `/` by a positive divisor truncates toward zero: `q * b` lies between zero and a, less than one divisor away from a. |
| Fixed.TruncDivShrinks | src/libSchr.rs:205 | The truncated quotient lies between zero and the dividend. |
| Fixed.Wrap32 | crate/src/utils.rs:120 | The wrapped value is an `i32`. A value that already fits is unchanged. |
| Fixed.WrapCongruent | crate/src/utils.rs:120 | The wrapped value differs from the exact one by a multiple of 2^32. |
| Grid.ArenaNew | crate/src/utils.rs:38-54 | The arena has `width * height` statuses. |
| Grid.ArenaNewClassifies | crate/src/utils.rs:41-47 | For any size, `Arena::new` makes a cell a wall iff it is in row 0, column 0, column W-1, or its index exceeds `H * (W - 1)`. |
| Grid.ArenaNewSquare | crate/src/utils.rs:38-47 | On a square grid, a cell is a wall iff it is in the first or last row or column. |
| Grid.ArenaNewSquareIsBorder | crate/src/utils.rs:38-54 | A square `Arena::new` equals the border classification, and the steppers can run on it. |
| Grid.ArenaNewWideCounterexample | crate/src/utils.rs:44 | In a 5 x 3 grid, cell 12 is in the bottom row but is classified `Default`. The arena is not steppable: the stepper would read past the end of the array. |
| Grid.ArenaNewTallCounterexample | crate/src/utils.rs:44 | In a 3 x 6 grid, interior cell 13 is classified `Wall`. |
| Grid.BorderArena | crate/src/utils.rs:42-45 | The corrected classification: for every width and height, a cell is a wall iff it is in the first or last row or column. |
| Grid.BorderArenaSteppable | crate/src/utils.rs:113-117 | In the border classification, every `Default` cell has its north and south neighbours inside the array. |
| Grid.ToIdxSplitsBack | crate/src/utils.rs:65-67 | `to_idx(i % W, i / W) == i` for every cell i. |
| Grid.ToIdxThenToXY | crate/src/utils.rs:55-67 | For x < W and y < H, `to_idx(x, y)` is a cell with column x and row y, and `to_xy` of it is `(x - W/2, H/2 - y)`. |
| Grid.WrapOfUsize | crate/src/utils.rs:61-63 | Reading a wrapped `usize` difference back as `i32` gives the signed difference. |
| Grid.ToXYAsWritten | crate/src/utils.rs:55-64 | `to_xy` as written, with wrapping `usize` subtraction and `as i32` casts, yields two `i32` values. |
| Grid.ToXYAsWrittenIsSigned | crate/src/utils.rs:55-64 | For sides up to `i32::MAX`, `to_xy` with wrapping `usize` subtraction and `as i32` casts equals the signed `(i % W - W/2, H/2 - i / W)`. |
| Colors.LevelBounds | crate/src/colors.rs:13 | `x >> 22` lies in `[-256, 255]` for x in the cap range, and in `[-512, 511]` for any `i32`. |
| Colors.ScalarToRgba | crate/src/colors.rs:11-22 | The alpha byte is always `0xFF`. |
| Colors.ScalarChannels | crate/src/colors.rs:14-20 | A level in 1..255 goes into bytes 1 and 2, and byte 0 is 0. A level of 0 or below leaves bytes 1 and 2 at 0, and byte 0 is `min(255, -level)`. |
| Colors.BrightColor | crate/src/colors.rs:14-16 | The positive branch is opaque. For a level up to 255 it carries the level in bytes 1 and 2 and nothing in byte 0. |
| Colors.DarkColor | crate/src/colors.rs:17-20 | The non-positive branch is opaque, bytes 1 and 2 are 0, and byte 0 holds the magnitude capped at 255. |
| Colors.ScalarIgnoresNormOnly | crate/src/colors.rs:12-21 | The `norm_only` flag never changes the scalar colour. |
| Colors.ScalarZeroIsBlack | crate/src/colors.rs:17-20 | Zero renders as `0xFF000000`. |
| Colors.PackRgb | crate/src/colors.rs:35 | With channels of at most 255, r is byte 0, g byte 1, b byte 2, and the alpha byte is `0xFF`. |
| Colors.PackGray | crate/src/colors.rs:28-30 | In `norm_only` packing with v at most 255, the three low bytes all equal v and the alpha byte is `0xFF`. |
| Colors.PackGrayIsPackRgb | crate/src/colors.rs:28-35 | The grey packing is the colour packing with all three channels equal. |
| Colors.ComplexPack | crate/src/colors.rs:28-35 | In both modes the first channel is byte 0 under an opaque alpha. In `norm_only` mode bytes 1 and 2 repeat it. Otherwise they are g and b. |
| Colors.PackRgbRoundTrip | crate/src/colors.rs:35 | Packing loses nothing for byte channels: the three channels read back from the colour. |
| Colors.RedTestPacking | crate/src/colors.rs:63-69 | The channels (255, 0, 0) of the red test pack to `0xFF0000FF`. |
| Classical.NewWave | crate/src/utils.rs:88-106 | `u` is `0x3fffffff` exactly where `50 < column < 100` and `50 < row < 100`, and 0 elsewhere. `v` and `force` are all zero. |
| Classical.NewWaveInCap | crate/src/utils.rs:94-100 | The constructed state lies in the cap range. |
| Classical.NewVelocity | crate/src/utils.rs:113-124 | The new velocity of a `Default` cell is in the cap range for every input and every damping. |
| Classical.RestVelocity | crate/src/utils.rs:118-124 | A cell at rest, with zero velocity and zero neighbours, gets zero velocity. |
| Classical.NewPosition | crate/src/utils.rs:133-134 | The new displacement is in the cap range. |
| Classical.DecayForce | crate/src/utils.rs:133-136 | `f - (f >> 4)` never grows `abs(f)` and never changes its sign, so zero stays zero. |
| Classical.Step | crate/src/utils.rs:107-141 | Wall cells keep `u`, `v` and `force`. Every `Default` cell's `u` and `v` are in the cap range afterwards, and its force has not grown. |
| Classical.StepIsLocal | crate/src/utils.rs:113-120 | A `Default` cell's next state depends only on its own state and its four neighbours' displacements. |
| Classical.RestIsFixedPoint | crate/src/utils.rs:107-141 | The all-zero state is unchanged by a step. |
| Classical.VelocityPass | crate/src/utils.rs:110-128 | The first in-place loop leaves every cell's velocity equal to the one computed from the pre-step displacements. The loop overwrites velocities but reads only displacements. |
| Classical.PositionPass | crate/src/utils.rs:130-140 | The second in-place loop writes every `Default` cell's displacement and force from the new velocities. Walls are untouched. |
| Classical.StepInPlace | crate/src/utils.rs:107-141 | The two in-place loops compute exactly the functional step, although they overwrite the state as they go: every new velocity comes from the pre-step displacements, and every new displacement from that cell's new velocity and its pre-step force. |
| Classical.WallsNeverChange | crate/src/utils.rs:111-126 | After any number of steps, a wall cell's `u`, `v` and `force` are what they were. |
| Classical.StepPreservesCap | crate/src/utils.rs:124-134 | If every stored value is in the cap range, it still is after a step. |
| Classical.CapRangeForever | crate/src/utils.rs:107-141 | A state in the cap range stays in it for any number of steps. |
| Classical.ForceStaysZero | crate/src/utils.rs:133-136 | A zero force, as constructed, stays zero for any number of steps. |
| Classical.Render | crate/src/utils.rs:142-144 | Every rendered cell is opaque, and a zero displacement renders black. |
| Classical.RenderChannels | crate/src/utils.rs:142-144 | For a cell in the cap range, with level `u >> 22`: bytes 1 and 2 hold `max(level, 0)`. Byte 0 is 0 for a positive level, and `min(255, -level)` otherwise. |
| Classical.NewVelocityWrapping | crate/src/utils.rs:118-124 | The velocity as written, with wrapping `i32` sums, is still saturated into the cap range. |
| Classical.WrappingAgreesUnlessVelocitySumOverflows | crate/src/utils.rs:118-124 | On capped inputs, every intermediate except the three-term velocity sum fits in `i32`. When that sum fits too, the wrapping computation equals the exact one. |
| Classical.ExactWhenFits | crate/src/utils.rs:118-123 | When every intermediate fits in `i32`, wrapping arithmetic gives the exact velocity. |
| Classical.FirstSumFits | crate/src/utils.rs:118-120 | On capped inputs, `west + east`, `uxx` and `v + (uxx >> 1)` all fit in `i32`. |
| Classical.HalfDiffFits | crate/src/utils.rs:118-119 | On capped inputs, a pairwise sum and its half-difference with the centre fit in `i32`. |
| Classical.VelocitySumOverflowCounterexample | crate/src/utils.rs:120 | Centre `CAP_MIN`, with neighbours and velocity at `CAP_MAX`, no damping: the exact velocity saturates to `CAP_MAX`, while the wrapping sum saturates to `CAP_MIN`. |
| Quantum.QStep | crate/src/utils.rs:181-219 | Wall cells keep their amplitude. |
| Quantum.QStepCapped | crate/src/utils.rs:213-215 | With the `apply_cap` result kept, every `Default` amplitude is in the cap range, and walls keep their amplitude. |
| Quantum.CappedIsSaturation | crate/src/utils.rs:215 | A `Default` amplitude of the capped step is the saturation of the uncapped one, so no in-range value is closer to it in either component. |
| Quantum.CappedAgreesInRange | crate/src/utils.rs:215 | Where the uncapped step already lands in range, keeping the cap changes nothing. |
| Quantum.QStepIsLocal | crate/src/utils.rs:196-205 | A cell's next amplitude depends only on its own and its four neighbours' pre-step amplitudes. |
| Quantum.QuietCell | crate/src/utils.rs:196-216 | A cell whose neighbourhood is all zero stays zero. |
| Quantum.QZeroIsFixed | crate/src/utils.rs:181-219 | The all-zero field is unchanged by a step. |
| Quantum.SpikeCentre | crate/src/utils.rs:204-214 | A real spike `(d, 0)` with four zero neighbours becomes `(d, 2d)`. |
| Quantum.SpikeNeighbour | crate/src/utils.rs:204-214 | A zero cell whose only non-zero neighbour is `(d, 0)`, on any side, becomes `(0, -(d >> 1))`. |
| Quantum.DeltaCentreCell | crate/src/utils.rs:416 | From a real spike `(d, 0)` at cell 12 of a 5 x 5 arena, the centre becomes `(d, 2d)`, the value the test's expected vector holds there. |
| Quantum.DeltaNeighbourCell | crate/src/utils.rs:412-415 | From the same spike, cells 7, 11, 13 and 17 become `(0, -(d >> 1))`, the values the test's expected vector holds there. |
| Quantum.DeltaStep | crate/src/utils.rs:411-416 | The whole pattern the test's expected vector encodes: on a 5 x 5 arena with a single real spike `(d, 0)` at cell 12, one step gives `(d, 2d)` at 12, `(0, -(d >> 1))` at 7, 11, 13 and 17, and zero everywhere else. |
| Quantum.TestShiftParity | crate/src/utils.rs:412-415 | The test's expectation `-psi[12].re >> 1` parses as `(-d) >> 1`. That equals the stepped `-(d >> 1)` exactly when d is even. |
| Quantum.QStepLeavesCapRange | crate/src/utils.rs:215 | From a constructed field with a spike `(CAP_MAX, 0)` at cell 12, the stored imaginary part `2 * CAP_MAX` fits `i32` but is outside the cap range. The kept cap would store `(CAP_MAX, CAP_MAX)`. |
| Leapfrog.QNew | crate/src/waves.rs:119-175 | `psi_prev` holds the seed at `Default` cells and zero at every wall. `psi` is zero at every wall. |
| Leapfrog.InitStep | crate/src/waves.rs:131-169 | The start-up level is zero at every wall cell. |
| Leapfrog.InitCellFlat | crate/src/waves.rs:152-163 | With the `2 * centre` Laplacian, a flat neighbourhood has zero curvature, so the start-up step keeps the seeded amplitude. |
| Leapfrog.InitStepFlat | crate/src/waves.rs:146-167 | At a `Default` cell whose seeded neighbourhood is flat, `init_step` returns the seeded value. |
| Leapfrog.CurvatureShift | crate/src/waves.rs:162-163 | A curvature within ±8b, shifted by `STABILITY_PARAM` = 6, lies in `[-(b/8) - 1, b/8]`. |
| Leapfrog.InitCellBounded | crate/src/waves.rs:152-163 | Seeded amplitudes within ±b give a start-up amplitude within ±(b + b/8 + 1). |
| Leapfrog.InitCellFitsI32 | crate/src/waves.rs:152-163 | When `8 * b` fits in `i32`, every intermediate of `init_step` fits in `i32`. |
| Leapfrog.LeapStep | crate/src/waves.rs:178-218 | Wall cells keep both levels. At every `Default` cell, `psi_prev` becomes the pre-step `psi`. |
| Leapfrog.LeapStepIsLocal | crate/src/waves.rs:196-212 | A cell's new amplitude depends only on its previous level and on the current amplitudes of itself and its four neighbours. |
| Leapfrog.QuietCellShiftsPrev | crate/src/waves.rs:211-212 | With a zero neighbourhood, the new amplitude is `psi_prev >> 3`, because the shift applies to the whole difference. It is not `psi_prev` itself. |
| Leapfrog.LeapCellFlat | crate/src/waves.rs:201-212 | With the `1 * centre` Laplacian, a flat field c with equal previous level gives `((c.re - 2 c.im) >> 3, (c.im - 2 c.re) >> 3)`: the curvature of a flat field is not zero. |
| Leapfrog.LeapZeroIsFixed | crate/src/waves.rs:178-218 | The all-zero two-level state is unchanged by a step. |
| Leapfrog.StepShift | crate/src/waves.rs:211-212 | A value within ±7b, shifted right by 3, lies within ±b. |
| Leapfrog.LeapCellBounded | crate/src/waves.rs:201-212 | When both levels are within ±b, the new amplitude is within ±b. |
| Leapfrog.LeapCellFitsI32 | crate/src/waves.rs:201-212 | When both levels are within ±b and `7 * b` fits in `i32`, every intermediate of the step fits in `i32`. |
| Leapfrog.LeapStepAtBounded | crate/src/waves.rs:196-218 | A bound ±b on both levels bounds each cell's new amplitude. |
| Leapfrog.LeapStepBounded | crate/src/waves.rs:178-218 | A bound ±b on both levels is kept by a step. |
| Leapfrog.LeapStepNBounded | crate/src/waves.rs:178-218 | A bound ±b on both levels is kept by any number of steps. |
| Leapfrog.LeapStepNFitsI32 | crate/src/waves.rs:196-212 | When both levels start within ±b and `7 * b` fits in `i32`, then after any number of steps every intermediate sum of the next step fits in `i32` at every `Default` cell: the stepper never overflows. |
| Leapfrog.WallsZeroKept | crate/src/waves.rs:196-218 | If both levels are zero on the walls, they stay zero for any number of steps. |
| Leapfrog.WallsStayZero | crate/src/waves.rs:119-218 | From construction onward, both levels are zero at every wall cell. |
| Laboratory.GetIndexInGrid | src/libSchr.rs:103-105 | `get_index(row, col)` is a cell of the grid, in row `row` and column `col`. |
| Laboratory.GetIndexInjective | src/libSchr.rs:103-105 | For columns inside the width, `get_index` maps distinct (row, column) pairs to distinct indices. |
| Laboratory.Clamp | src/libSchr.rs:106-117 | The source's branches compute the componentwise `min(x, 255)`. |
| Laboratory.ClampIdempotent | src/libSchr.rs:106-117 | Clamping twice is clamping once. |
| Laboratory.ClampFixesExactlyLow | src/libSchr.rs:106-117 | An amplitude is left unchanged iff both components are at most 255. There is no lower bound. |
| Laboratory.Evolve | src/libSchr.rs:118-158 | Both components of `psi_evolve` are at most 255. |
| Laboratory.StencilPicture | tests/web.rs:43-55 | The update is `re = c.re + 4 c.im - sum(nb.im)` and `im = sum(nb.re) - 4 c.re - c.im`, as drawn in the test comment. |
| Laboratory.StencilOfUnitSpike | tests/web.rs:43-63 | A real unit spike with quiet surroundings becomes `1 - 4i`. A quiet cell next to it becomes `i`. |
| Laboratory.NeighbourSumInterior | src/libSchr.rs:132-147 | Away from the edges, the neighbour sum is the sum of the four adjacent cells of the flat array. |
| Laboratory.NeighbourSumEdge | src/libSchr.rs:138-148 | On a non-corner edge of a grid at least 2 x 2, the outside neighbour reads 0 and the inward neighbour is counted twice. |
| Laboratory.NeighbourSumCorner | src/libSchr.rs:139-143 | In a corner, the two outside neighbours read 0, and half the sum of the two inside neighbours, truncated, is added. |
| Laboratory.CountLit | src/libSchr.rs:201 | At most one lit cell is counted per cell. |
| Laboratory.CountLitZero | src/libSchr.rs:201-205 | The count is zero iff no cell has a positive component, which is exactly when `step` divides by zero. |
| Laboratory.Evolved | src/libSchr.rs:197-202 | The evolved buffer has one clamped amplitude per cell, each component at most 255. |
| Laboratory.DivCx | src/libSchr.rs:205 | Dividing by the count moves each component toward zero without crossing it. |
| Laboratory.LabStep | src/libSchr.rs:193-208 | `step` keeps the dimensions, and every new component is at most 255. |
| Laboratory.LabStepShrinks | src/libSchr.rs:205 | Each normalised component lies between zero and the evolved one. |
| Laboratory.StepRow | src/libSchr.rs:198-202 | One pass over a row's columns extends the written prefix, and the count of lit cells in it, by that row. |
| Laboratory.StepLoops | src/libSchr.rs:194-203 | The nested row and column loops write exactly the evolved field, computed from the pre-step field, and count exactly its lit cells. |
| Laboratory.ComplexToRgba | src/libSchr.rs:42-51 | When `abs(re)` is at most 255, the three low bytes equal `abs(re)` and the alpha byte is `0xFF`. |
| Laboratory.ComplexToRgbaReadsOnlyRe | src/libSchr.rs:42-51 | The colour depends only on the real part: neither `im` nor `intensity_only` changes it. |
| Laboratory.SetPsi | src/libSchr.rs:248-253 | Writing any list of in-grid points keeps the laboratory's dimensions and one amplitude per cell. |
| Laboratory.SetPsiLastWins | src/libSchr.rs:248-253 | After `set_psi`, every cell holds the value of the last listed point that addresses it. Cells no point addresses keep their old value. |
| Laboratory.LastWrittenUnaddressed | src/libSchr.rs:248-253 | A cell that no point addresses is unchanged. |
| Laboratory.DeltaPsi | src/libSchr.rs:255-258 | Only cell `get_index(row, col)` changes, and it becomes `(1, 0)`. |
| Laboratory.DeltaPsiIsSetPsi | src/libSchr.rs:248-258 | `delta_psi` is `set_psi` with the single point `(row, col, 1)`. |
| Laboratory.SpikeNeighbours | src/libSchr.rs:132-135 | The four neighbours of a cell of a unit spike field are 1 exactly when the spike is the adjacent cell in that direction, and 0 otherwise. |
| Laboratory.NeighbourSumOfSpike | src/libSchr.rs:132-148 | For a spike at least two cells from every edge, a cell's neighbour sum is 1 iff the cell is one of the spike's four neighbours, and 0 otherwise, including at the edges and corners. |
| Laboratory.EvolveOfSpike | src/libSchr.rs:118-158 | One evolution of a unit spike away from the edges gives `1 - 4i` at the spike, `i` at its four neighbours, and 0 everywhere else. |
| Laboratory.CountLitAtLeast | src/libSchr.rs:201 | A set of distinct lit indices bounds the lit count from below. |
| Laboratory.SpikeLitCount | src/libSchr.rs:197-202 | After evolving a unit spike away from the edges, at least five cells are lit: the spike and its four neighbours. |
| Laboratory.SpikeStepIsZero | src/libSchr.rs:193-208 | `step` of a unit spike away from the edges divides components between -4 and 1 by a count of at least 5, so the whole field truncates to zero. |
| Laboratory.ZeroEvolvesToZero | src/libSchr.rs:118-158 | The zero field evolves to zero, so it has no lit cell. |
| Laboratory.LabNewSecondStepDividesByZero | src/libSchr.rs:163-208 | From `Laboratory::new`, the first `step` counts at least five lit cells. The field it leaves has a lit count of zero, so the second `step` divides by zero. |
| Laboratory.LabStepGuarded | src/libSchr.rs:193-208 | The guarded step is defined on every valid field, including one with nothing lit. It keeps the dimensions, and every component is at most 255. |
| Laboratory.LabStepGuardedZeroIsFixed | src/libSchr.rs:193-208 | The guarded step leaves the zero field unchanged. |
| Laboratory.SpikeGuardedStepIsZero | src/libSchr.rs:193-208 | Where a count is lit, the guarded step is `step`, so it also takes a spike away from the edges to the zero field. |
| Laboratory.LabNewGuardedSettles | src/libSchr.rs:163-208 | With the guard, `Laboratory::new` can be stepped past the second step: the first step reaches the zero field and the next one keeps it. |
| Laboratory.LabNew | src/libSchr.rs:163-190 | The constructed field is 200 x 200. |
| Laboratory.LabNewIsDelta | src/libSchr.rs:169-178 | The initial field is `delta_psi` at (100, 100) of the zero field. |
| Laboratory.MarkWalls | crate/src/libSchr.rs:101-112 | For any width and height of at least 1, the wall loops mark a cell `Wall` iff it is in the first or last row or column. |

## Left out

- Floating point is not modelled:
  - `to_amp` and `from_amp`;
  - `hsv_to_rgb`;
  - the `norm` diagnostics;
  - the Gaussian and wave-packet initialisers;
  - the complex renderer's HSV step.
  The complex packing takes the HSV channels as inputs. `Leapfrog.QNew` takes the floating-point seed as a parameter.
- The wasm bindings, the raw-buffer getters and the JavaScript front ends are not modelled. They are I/O glue.
- `QWave::render` of `crate/src/waves.rs` needs the floating-point complex colour and is not modelled.
- `QWave::new` of `crate/src/utils.rs:148-172` builds its field from floating-point Gaussian and sine profiles and is not modelled. Its step test (`crate/src/utils.rs:407-429`) seeds with it. The spike lemmas start from a constructed spike, the pattern the test's expected vector encodes. They say nothing about the test's own seed.
- The `step` of `crate/src/libSchr.rs:137-153` is unfinished and does not compile. It is not modelled. Its wall loops are (`Laboratory.MarkWalls`).
- The `image` buffer, the `t` field and the missing `status` field of `Laboratory::new` are not modelled.
- Commented-out code is not modelled.
- The size preconditions are not failures. The source has no error paths for them, so they are preconditions: `W, H >= 3` arenas via `Steppable`, `damping < 32`, and coordinates inside the grid.
- Quantum.QStep: the stored amplitudes are unbounded integers, so `i32` overflow of an uncapped amplitude is not modelled. `Quantum.QStepLeavesCapRange` shows the values leave the cap range but still fit `i32` for a spike at `CAP_MAX`.
- Leapfrog.LeapStep: sums are unbounded integers, so `i32` overflow is not modelled. `Leapfrog.LeapStepNFitsI32` shows that no sum overflows for fields within `i32::MAX / 7`.
- Leapfrog.InitStep: sums are unbounded integers. `Leapfrog.InitCellFitsI32` shows they fit for seeds within `i32::MAX / 8`.
- Laboratory.Evolve: `i32` overflow of the stencil sums and `u32` overflow of `row * width + col` are not modelled. `set_psi` can store any `Complex<i32>`, so the sums can overflow for large amplitudes.
- Laboratory.LabStep: `step` divides by the lit count without a check and panics when it is zero. The model makes a positive count a precondition of `Laboratory.LabStep` and records the panic as a finding below.
- Laboratory.NeighbourSumEdge: the edge and corner lemmas need a grid at least 2 x 2. One-wide grids are modelled by `Laboratory.NeighbourSum` through the source's first-matching arm, but no lemma states them.
- Laboratory.LabNew: only the field's dimensions are in its contract. Its cells are stated by `Laboratory.LabNewIsDelta`.
- Laboratory.ComplexToRgba: for `abs(re)` above 255, the channel bits overlap. The contract states only the byte case.
- Colors.ScalarToRgba: for `i32` inputs outside the cap range, the level can exceed 255 and spill into the next byte. `Colors.ScalarChannels` states the channels for levels up to 255 only.

## Findings

| source | as written | input that shows it | evidently intended | confidence | as-written member | corrected member |
|---|---|---|---|---|---|---|
| crate/src/utils.rs:44 | The "bottom" test is `h * (w - 1) < x && x < h * w`. That is the last row only when `w == h`. | 5 x 3 arena, cell 12: it is in the bottom row but is classified `Default`, and a step reads index 17 of a 15-cell array. 3 x 6 arena, cell 13: interior but `Wall`. | Cell x is in the bottom row when `w * (h - 1) <= x`, so the border is the walls for every size | not executed | Grid.ArenaNewWideCounterexample | Grid.BorderArena |
| crate/src/utils.rs:120 | `v + (uxx >> 1) + (uyy >> 1)` is summed in `i32`. For capped inputs it can reach about 3 * 2^30, so it overflows. | Centre `CAP_MIN`, the four neighbours and v at `CAP_MAX`, damping 0: the wrapped sum is negative and saturates to `CAP_MIN` (`Classical.VelocitySumOverflowCounterexample`). `Classical.WrappingAgreesUnlessVelocitySumOverflows` shows this sum is the only overflow. | Sum exactly, then saturate: `CAP_MAX` | not executed | Classical.NewVelocityWrapping | Classical.NewVelocity |
| src/libSchr.rs:205 | `p.re / count` and `p.im / count` with no check that `count` is positive. The count is zero when no evolved component is positive. | `Laboratory::new`, then two `step`s. The first step lights five cells with components between -4 and 1, and the division by 5 truncates them all to 0. The second step finds nothing lit and divides by 0, which panics (`Laboratory.LabNewSecondStepDividesByZero`). | Skip the normalisation when nothing is lit, so the simulation keeps running | not executed | Laboratory.LabStep | Laboratory.LabStepGuarded |
| crate/src/utils.rs:215 | `self.psi[i].apply_cap();` discards its result, so nothing is saturated. | A constructed 5 x 5 field with a spike `(CAP_MAX, 0)` at cell 12: the centre stores `2 * CAP_MAX`, which is outside the cap range (`Quantum.QStepLeavesCapRange`). | Store the capped value, giving `(CAP_MAX, CAP_MAX)` | not executed | Quantum.QStep | Quantum.QStepCapped |

For each finding, the Dafny holds both halves:

- **Arena bottom test.** The as-written classification is `Grid.ArenaNew`, characterised by `Grid.ArenaNewClassifies`. `Grid.BorderArena` is the corrected one. `Grid.BorderArenaSteppable` proves every size steppable. The steppers rest on `Steppable`, which `BorderArena` meets and the square `ArenaNew` meets (`Grid.ArenaNewSquareIsBorder`).
- **Velocity sum.** The as-written wrapping computation is `Classical.NewVelocityWrapping`. `Classical.VelocitySumOverflowCounterexample` exhibits the overflow. The corrected one is `Classical.NewVelocity`, which sums exactly and saturates once. `Classical.Step` uses it.
- **Discarded cap.** The as-written step is `Quantum.QStep`, and the spike lemmas are stated about it. `Quantum.QStepLeavesCapRange` exhibits the discarded saturation. The corrected step is `Quantum.QStepCapped`.
- **Zero lit count.** The as-written `step` is `Laboratory.LabStep`, whose positive-count precondition is where the source panics. `Laboratory.LabNewSecondStepDividesByZero` shows that `Laboratory::new` reaches a zero count on its second step. The corrected step is `Laboratory.LabStepGuarded`, which leaves a field with nothing lit unnormalised. `Laboratory.LabNewGuardedSettles` shows it steps on from `Laboratory::new` and stays at the zero field.
