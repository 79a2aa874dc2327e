# waves.cpp: the discrete skeleton of a terminal wave renderer

`waves.cpp` draws an animated, Perlin-noise-displaced surface in a terminal. It projects mesh
samples through a fixed perspective camera into a character z-buffer, and prints each cell as a
shade glyph in one of 24 ANSI grays. This project models the exact, non-transcendental part of
that program in Dafny and proves properties of it. Every `float` is a mathematical `real`.
C++ `int(...)` is modelled as truncation toward zero, which is what the language defines whenever
the truncated value fits in `int`. Unbounded integers stand in for `int` (see "## Left out").

Modules, one per concern of the source:

- `Numeric`: the `int(float)` cast (`Trunc`), the `std::min(std::max(x, 0), 1)` clamp, and the type `Unit` of clamped brightnesses.
- `Geometry`: `Vec3`, `cross`, `dot`, the re-orthogonalised camera basis, and the default camera's basis vectors.
- `Noise`: the doubled permutation table `PERM`, `fadef`, `lerpf`, `grad`, and the cell masking and double indirection of `perlin3d`. It also defines `perlin3d` itself as a real-valued function.
- `Shading`: the glyph index `int((1 - L) * (NSHADES - 1))` and the gray level `int(b * 23 + 0.5)`, with its code `232 + level`.
- `ZBuffer`: the per-frame visibility pass as values:
  - one sample's cull, projection and strict depth test (`Apply`);
  - a sequence of samples (`Fold`);
  - the characterisation of what every cell holds afterwards;
  - the printed picture.
- `Frame`: the class `FrameBuffers` holding the three arrays `screen`, `zbuf` and `bright`. Its methods reset them in place, plot one sample in place, run the nested mesh loops, and read the frame out row by row. Each method's postcondition ties the new array contents to the `ZBuffer` function of the old contents.

A mesh sample is the surface point in camera coordinates (`dot(v_cam, right)`,
`dot(v_cam, up)`, `dot(v_cam, fwd)`) together with its clamped brightness. The near-plane cull,
the division by depth, the truncating casts, the bounds cull and the flat index are all computed
by `Plot`, in the order of the source.

## Model

| member | source | states |
|---|---|---|
| Numeric.Trunc | waves.cpp:236-237 | `int(f)` truncates toward zero: for f >= 0 the result is the largest integer not above f, for f < 0 the smallest not below it |
| Numeric.TruncMonotone | waves.cpp:236-237 | the cast never reverses order |
| Numeric.TruncInRange | waves.cpp:236-238 | a truncated coordinate lies in [0, n) exactly when n > 0 and the real coordinate lies in (-1, n) |
| Numeric.Clamp01 | waves.cpp:228 | the clamp is the identity on [0,1], 0 below it, 1 above it |
| Numeric.Clamp01Monotone | waves.cpp:258 | the clamp is monotone |
| Geometry.Sub | waves.cpp:232 | component-wise difference, undone by adding back the subtrahend |
| Geometry.Dot | waves.cpp:46-48 | the sum of the component products; it has no contract of its own and is characterised by `Cross`, `DotSelfNonNegative` and `DotScale` |
| Geometry.Cross | waves.cpp:39-45 | `dot(cross(a,b), a) == 0` and `dot(cross(a,b), b) == 0` |
| Geometry.CrossSelfIsZero | waves.cpp:39-45 | `cross(a, a)` is the zero vector |
| Geometry.CrossAntiCommutes | waves.cpp:39-45 | `cross(b, a) == -cross(a, b)` |
| Geometry.DotSelfNonNegative | waves.cpp:46-48 | `dot(v, v) >= 0`, the radicand of `normalize` |
| Geometry.DotScale | waves.cpp:46-48 | `dot` is linear in a scaled argument |
| Geometry.CameraBasisOrthogonal | waves.cpp:183-186 | for any multiple `right` of `fwd x updir` and `up = right x fwd`, the three vectors are pairwise perpendicular |
| Geometry.DefaultForward | waves.cpp:183 | for the eye (0,0,-20) and target (0,0,0), `target - eye` is (0,0,20) of squared length 400, and scaling it by 1/20 gives (0,0,1) |
| Geometry.DefaultRight | waves.cpp:184 | `fwd x updir` is (-1,0,0), already of unit length |
| Geometry.DefaultUp | waves.cpp:185 | `right x fwd` is the up hint (0,1,0) |
| Geometry.DefaultTargetDepth | waves.cpp:188-189 | the target lies at camera depth `cz0 = 20` |
| Noise.PermTable | waves.cpp:51-87 | `PERM` has 512 entries, each in 0..255, and `PERM[i + 256] == PERM[i]` for every i < 256 |
| Noise.Fade | waves.cpp:89 | `fadef(0) == 0`, `fadef(1) == 1`, and `fadef` maps [0,1] into [0,1] |
| Noise.FadeBody | waves.cpp:89 | the polynomial `t*t*t*(t*(t*6-15)+10)` is 0 at t=0 and 1 at t=1 |
| Noise.FadeSymmetric | waves.cpp:89 | `fadef(1 - t) == 1 - fadef(t)` |
| Noise.FadeRange | waves.cpp:89 | the fade polynomial stays within [0,1] on [0,1] |
| Noise.Lerp | waves.cpp:90 | `lerpf(a,b,0) == a`, `lerpf(a,b,1) == b`, and for t in [0,1] the result lies between a and b, in either order |
| Noise.LowNibble | waves.cpp:92 | `hash & 15` is `hash % 16` for a table byte |
| Noise.GradBitsSelect | waves.cpp:93-95 | each of the 16 bit patterns yields the signed sum of two coordinates given by row h of Perlin's gradient table |
| Noise.GradBits | waves.cpp:93-95 | the u/v selection and the sign bits 0 and 1 applied to `h = hash & 15`; no contract of its own, characterised case by case by `GradBitsSelect` |
| Noise.Grad | waves.cpp:91-96 | `grad`; no contract of its own (stating it there makes every use in `Perlin3D` too costly to verify), characterised by `GradIsDot` and `GradLowBitsOnly` |
| Noise.GradIsDot | waves.cpp:91-96 | `grad(hash, x, y, z)` is the dot product of the cube-edge gradient `hash & 15` selects with (x, y, z) |
| Noise.GradientsAreEdges | waves.cpp:93-95 | each selectable gradient has two components of ±1 and one of 0, so grad sums ± two distinct coordinates |
| Noise.GradLowBitsOnly | waves.cpp:92 | `grad` depends on the hash only through `hash & 15` |
| Noise.Cell | waves.cpp:99-101 | the masked cell is a byte congruent to `floor(x)` modulo 256 |
| Noise.Frac | waves.cpp:102 | `x - floor(x)` lies in [0,1) and recovers x with the floor |
| Noise.LatticeRows | waves.cpp:105-106 | A, B, AA, AB, BA and BB all lie in [0,510], so they and their successors index the 512-entry table in bounds |
| Noise.CornerHashes | waves.cpp:110-119 | the eight hashes read are Perlin's triple-indirection lattice hashes of the cell's eight corners |
| Noise.LatticeHashWraps | waves.cpp:69-86 | with a doubled table, a corner coordinate of 256 hashes like 0 |
| Noise.PermHashWraps | waves.cpp:51-87 | the same for `PERM` itself |
| Noise.Perlin3D | waves.cpp:98-123 | the noise is 0 at every lattice point |
| Noise.PerlinPeriodic | waves.cpp:99-102 | the noise has period 256 along each axis |
| Shading.ShadeIndex | waves.cpp:244 | the shade index lies in [0, NSHADES-1], is 9 at L=0 and 0 at L=1, and is the integer part of `(1 - L) * 9` |
| Shading.ShadeIndexMonotone | waves.cpp:244 | the shade index never increases as L grows |
| Shading.Glyph | waves.cpp:245 | the glyph is a character of `SHADES`: '@' at L=0 and ' ' at L=1 |
| Shading.GrayLevel | waves.cpp:258-259 | the gray level lies in [0,23], is 0 at b=0 and 23 at b=1, and is the clamped brightness times 23 rounded half up |
| Shading.GrayLevelMonotone | waves.cpp:258-259 | the gray level is monotone in the brightness |
| Shading.AnsiCode | waves.cpp:260 | the color code lies in [232,255], 232 for black and 255 for white |
| ZBuffer.Lighting | waves.cpp:225-228 | with ambient 0 the brightness is `dot(N, LIGHT_DIR)` clamped: 0 facing away, capped at 1 |
| ZBuffer.ProjX | waves.cpp:235-236 | the column before the cast, `dot(v_cam, right) * (FOCAL / cz) + WIDTH/2`: at the centre column for a point on the optical axis, right of it exactly for points right of the axis, left of it for points left of it |
| ZBuffer.ProjY | waves.cpp:235-237 | the row before the cast, `HEIGHT/2 - dot(v_cam, up) * (FOCAL / cz)`: at the centre row on the axis, above it (smaller rows) for points above the axis, below it for points below it |
| ZBuffer.Place | waves.cpp:234-238 | a sample is near-clipped exactly when `cz <= 0.1`; it is placed on screen exactly when it survives that and both projected coordinates lie in (-1, WIDTH) x (-1, HEIGHT); it is then placed at the truncated coordinates |
| ZBuffer.PixelIndex | waves.cpp:240 | `sy * WIDTH + sx` gives back sy by division and sx by remainder |
| ZBuffer.FlattenRoundTrip | waves.cpp:240 | row-major flattening is undone by division and remainder |
| ZBuffer.PixelIndexInBounds | waves.cpp:240 | an accepted pixel's index lies in [0, WIDTH*HEIGHT) |
| ZBuffer.Target | waves.cpp:234-240 | a sample has a target cell exactly when it is placed on screen, and the cell is inside the buffers at its pixel's row and column |
| ZBuffer.LandsAt | waves.cpp:238-240 | a sample lands on the index of pixel (x, y) exactly when it is placed at (x, y) |
| ZBuffer.Cleared | waves.cpp:209-210 | after the reset every screen cell is ' ' and every depth is 1e9, while `bright` is unchanged |
| ZBuffer.Apply | waves.cpp:234-246 | one sample keeps the buffers' sizes and never increases any depth |
| ZBuffer.ApplyCell | waves.cpp:241-246 | cell p receives the sample's glyph, depth and brightness exactly when the sample lands on p strictly nearer than p's depth; every other cell is unchanged |
| ZBuffer.CulledSampleChangesNothing | waves.cpp:234-238 | a near-clipped or off-screen sample leaves all three buffers unchanged |
| ZBuffer.Fold | waves.cpp:212-246 | the samples applied one after another, first to last; it keeps the buffer sizes, and `FoldCell`, `NearestSampleWins` and `DepthIsRunningMinimum` characterise what it leaves in every cell |
| ZBuffer.FoldSnoc | waves.cpp:212-214 | plotting one more sample is one more `Apply` |
| ZBuffer.FoldAppend | waves.cpp:212-214 | plotting xs then ys is plotting xs ++ ys |
| ZBuffer.CulledSampleIgnored | waves.cpp:234-238 | removing a culled sample from anywhere in the sequence changes nothing |
| ZBuffer.UnbeatenExtends | waves.cpp:241 | an appended sample that does not beat a cell's start depth keeps the cell unbeaten |
| ZBuffer.WinnerExtends | waves.cpp:241 | an appended sample that is not strictly nearer than the winner keeps the winner |
| ZBuffer.NewWinnerAfterUnbeaten | waves.cpp:241 | an appended sample nearer than the start depth of an unbeaten cell becomes its winner |
| ZBuffer.NewWinnerAfterWinner | waves.cpp:241 | an appended sample strictly nearer than the winner becomes the winner |
| ZBuffer.FoldCell | waves.cpp:212-246 | after a sequence of samples a cell is either unchanged (no landing sample beat its depth) or holds exactly what its winner drew |
| ZBuffer.WinnerUnique | waves.cpp:241 | a cell has at most one winner |
| ZBuffer.NearestSampleWins | waves.cpp:241-246 | the winner's glyph, depth and brightness are what the cell holds after the samples |
| ZBuffer.UnbeatenCellUnchanged | waves.cpp:241 | a cell no sample beats keeps its glyph, depth and brightness |
| ZBuffer.WinnerExists | waves.cpp:241-246 | if any sample lands on a cell nearer than its depth, the cell has a winner |
| ZBuffer.DepthIsRunningMinimum | waves.cpp:241-242 | a cell's final depth is at most its start depth and at most every landing sample's depth, and equals one of them |
| ZBuffer.DepthOrderIrrelevant | waves.cpp:241-246 | of two samples on one cell at different depths, the nearer is drawn in either order |
| ZBuffer.DepthTieEarlierWins | waves.cpp:241 | of two samples on one cell at the same depth, the earlier is drawn, since the comparison is strict |
| ZBuffer.UnreachedCellAfterFrame | waves.cpp:209-246 | after reset and samples, a cell no sample reached is ' ' at depth 1e9 with the previous frame's brightness |
| ZBuffer.FlattenSnoc | waves.cpp:212-214 | the `ix` loop's samples grow by one mesh row per iteration |
| ZBuffer.Flatten | waves.cpp:212-214 | the samples in `ix`-major, `iz`-minor order; every sample of the mesh occurs in it and nothing else does |
| ZBuffer.ClearedWellFormed | waves.cpp:209-210 | the reset yields blank glyphs (a shade), clear depths, and keeps brightnesses in [0,1] |
| ZBuffer.ApplyKeepsWellFormed | waves.cpp:234-246 | one sample keeps every glyph a shade, every depth in (0.1, 1e9], and every brightness in [0,1] |
| ZBuffer.FoldKeepsWellFormed | waves.cpp:212-246 | a sequence of samples keeps those bounds |
| ZBuffer.FrameWellFormed | waves.cpp:209-246 | a whole frame leaves every glyph a shade, every depth in (0.1, 1e9], and every brightness in [0,1] |
| ZBuffer.Picture | waves.cpp:253-260 | the printed frame has HEIGHT rows of WIDTH cells, each colour code in [232,255] |
| ZBuffer.Shown | waves.cpp:255-260 | one printed cell: a gray code in [232,255] and a glyph taken from the screen buffer; which cell it reads (`y * WIDTH + x`) is stated by `PictureAt` |
| ZBuffer.PictureAt | waves.cpp:255-260 | column x of row y prints `screen[y * WIDTH + x]` in gray `232 + level(bright[y * WIDTH + x])`, and that index lies inside the buffers |
| ZBuffer.WinnerIsShown | waves.cpp:241-260 | after a frame the winner of a cell is printed at its own column and row, as its glyph in the gray of its brightness |
| ZBuffer.UnreachedCellShown | waves.cpp:209-260 | after a frame a cell no sample is placed on prints a blank in the gray it had before the frame |
| ZBuffer.ProjectionExample | waves.cpp:235-238 | on an 80x22 view, camera point (0, 1, 20) projects to (40, 6.5) and lands in column 40, row 6 |
| Frame.FrameBuffers.constructor | waves.cpp:203-205 | three fresh buffers of WIDTH*HEIGHT value-initialised cells |
| Frame.FrameBuffers.Reset | waves.cpp:209-210 | the arrays become `Cleared` of their old contents |
| Frame.FrameBuffers.Plot | waves.cpp:232-246 | the arrays become `Apply` of their old contents and the sample |
| Frame.FrameBuffers.RenderRow | waves.cpp:214-246 | the arrays become the fold of the row's samples over their old contents |
| Frame.FrameBuffers.Render | waves.cpp:212-248 | the arrays become the fold of all mesh samples, row by row, over their old contents |
| Frame.FrameBuffers.DrawFrame | waves.cpp:209-248 | the arrays become the fold of the mesh over the cleared old contents |
| Frame.FrameBuffers.Present | waves.cpp:253-260 | the cells read out row by row are exactly `Picture` of the buffers |

## Left out

- Terminal size detection with `ioctl` and the row adjustment (lines 171-174): OS I/O. The width and height are parameters.
- All escape-sequence output through `std::cout` (lines 207, 252, 263-269): output plumbing. `Present` returns the gray code and glyph of every cell instead of printing them.
- The endless animation loop, `t += dt` and the sleep (lines 208, 272-273): animation pacing. `DrawFrame` models one iteration.
- The mesh sampling: `eval_surface`, `noise2`, the unused `noise`/`iqhash`, normal estimation, `normalize`, `LIGHT_DIR`, and the plane-size computation (lines 126-164, 190-200, 213-224). These rest on `sin`, `cos` and `sqrt`. The samples are an input of `Render`. `Lighting` models only the clamp of lines 225-228 around a given normal.
- The camera basis is a parameter of the sample (its camera coordinates). `CameraBasisOrthogonal` proves the basis perpendicular for any scale factor, standing in for the division by a square root in `normalize`.
- Bit-exact single-precision rounding: everything is exact `real` arithmetic.
- The int32 range of the float-to-int casts: `int(std::floor(x))` in `perlin3d` (lines 99-101), the projection casts (lines 236-237), the glyph index (line 244) and the gray level (line 259). A cast whose truncated value does not fit in `int` is undefined behaviour in C++. The model uses unbounded integers, so `Numeric.Trunc` is defined everywhere. `ZBuffer.Place` and `Frame.FrameBuffers.Plot` therefore call a sample whose projected column or row is beyond the int range `OffScreen`, where the program's behaviour is undefined. The mesh the program generates stays far inside that range. The glyph-index and gray-level casts always fit, because their arguments lie in [0,9] and [0.5,23.5].
- Noise.Cell: models `& 255` as the Euclidean remainder modulo 256. On two's-complement `int` the two agree, negative values included. The bit-level equivalence is not proved here.
- Noise: the table functions read their table through a parameter that defaults to `PERM`. The bounds and wrap proofs therefore hold for any 512-byte table (wrapping for any doubled one). That `PERM`'s first half is a permutation of 0..255 is not proved.
- Noise.Perlin3D: its value range ("in [-1..1]", line 122) is not proved. Only the zero at lattice points and the period 256 are.
- Grad: the result equals the dot product with row `hash & 15` of Perlin's gradient table. That the table's rows are exactly the patterns the sign bits produce is proved case by case (`GradBitsSelect`), not as a statement about bits 0 and 1 in general.

The model follows the code in these details:

- `bright` is not reset at the start of a frame: lines 209-210 fill only `screen` and `zbuf`. A cell no sample reaches therefore keeps last frame's gray (`UnreachedCellShown`).
- The shade index is `int((1 - L) * (NSHADES - 1))`, a truncation (line 244, `ShadeIndex`).
- The projected column and row are `int(...)` casts, truncations (lines 236-237, `Place`).
- The depth buffer is reset to 1e9 (line 210, `Cleared`). A sample at depth 1e9 or beyond can never be drawn.
- Because the casts truncate toward zero, a projected coordinate in (-1, 0) is drawn in column or row 0 rather than culled (`Place`, `TruncInRange`).
