/**
 * The discrete skeleton of Ken Perlin's 2002 "Improved Noise" as `perlin3d` uses it: the doubled
 * permutation table, the lattice-cell masking and double-indirection hashing, the gradient selector,
 * and the fade and interpolation polynomials, all over reals.
 */
module Noise {
  import opened Geometry

  type Byte = x: int | 0 <= x < 256

  /**
   * `PERM`: Perlin's 256-entry permutation written out twice in a row, 512 entries in all, so that
   * an index up to 511 never needs wrapping. The two halves are the two literal blocks of the table.
   */
  const PERM: seq<Byte> := [
    151, 160, 137, 91, 90, 15, 131, 13, 201, 95, 96, 53, 194, 233, 7, 225,
    140, 36, 103, 30, 69, 142, 8, 99, 37, 240, 21, 10, 23, 190, 6, 148,
    247, 120, 234, 75, 0, 26, 197, 62, 94, 252, 219, 203, 117, 35, 11, 32,
    57, 177, 33, 88, 237, 149, 56, 87, 174, 20, 125, 136, 171, 168, 68, 175,
    74, 165, 71, 134, 139, 48, 27, 166, 77, 146, 158, 231, 83, 111, 229, 122,
    60, 211, 133, 230, 220, 105, 92, 41, 55, 46, 245, 40, 244, 102, 143, 54,
    65, 25, 63, 161, 1, 216, 80, 73, 209, 76, 132, 187, 208, 89, 18, 169,
    200, 196, 135, 130, 116, 188, 159, 86, 164, 100, 109, 198, 173, 186, 3, 64,
    52, 217, 226, 250, 124, 123, 5, 202, 38, 147, 118, 126, 255, 82, 85, 212,
    207, 206, 59, 227, 47, 16, 58, 17, 182, 189, 28, 42, 223, 183, 170, 213,
    119, 248, 152, 2, 44, 154, 163, 70, 221, 153, 101, 155, 167, 43, 172, 9,
    129, 22, 39, 253, 19, 98, 108, 110, 79, 113, 224, 232, 178, 185, 112, 104,
    218, 246, 97, 228, 251, 34, 242, 193, 238, 210, 144, 12, 191, 179, 162, 241,
    81, 51, 145, 235, 249, 14, 239, 107, 49, 192, 214, 31, 181, 199, 106, 157,
    184, 84, 204, 176, 115, 121, 50, 45, 127, 4, 150, 254, 138, 236, 205, 93,
    222, 114, 67, 29, 24, 72, 243, 141, 128, 195, 78, 66, 215, 61, 156, 180
  ] + [
    151, 160, 137, 91, 90, 15, 131, 13, 201, 95, 96, 53, 194, 233, 7, 225,
    140, 36, 103, 30, 69, 142, 8, 99, 37, 240, 21, 10, 23, 190, 6, 148,
    247, 120, 234, 75, 0, 26, 197, 62, 94, 252, 219, 203, 117, 35, 11, 32,
    57, 177, 33, 88, 237, 149, 56, 87, 174, 20, 125, 136, 171, 168, 68, 175,
    74, 165, 71, 134, 139, 48, 27, 166, 77, 146, 158, 231, 83, 111, 229, 122,
    60, 211, 133, 230, 220, 105, 92, 41, 55, 46, 245, 40, 244, 102, 143, 54,
    65, 25, 63, 161, 1, 216, 80, 73, 209, 76, 132, 187, 208, 89, 18, 169,
    200, 196, 135, 130, 116, 188, 159, 86, 164, 100, 109, 198, 173, 186, 3, 64,
    52, 217, 226, 250, 124, 123, 5, 202, 38, 147, 118, 126, 255, 82, 85, 212,
    207, 206, 59, 227, 47, 16, 58, 17, 182, 189, 28, 42, 223, 183, 170, 213,
    119, 248, 152, 2, 44, 154, 163, 70, 221, 153, 101, 155, 167, 43, 172, 9,
    129, 22, 39, 253, 19, 98, 108, 110, 79, 113, 224, 232, 178, 185, 112, 104,
    218, 246, 97, 228, 251, 34, 242, 193, 238, 210, 144, 12, 191, 179, 162, 241,
    81, 51, 145, 235, 249, 14, 239, 107, 49, 192, 214, 31, 181, 199, 106, 157,
    184, 84, 204, 176, 115, 121, 50, 45, 127, 4, 150, 254, 138, 236, 205, 93,
    222, 114, 67, 29, 24, 72, 243, 141, 128, 195, 78, 66, 215, 61, 156, 180
  ]

  /**
   * A table shaped like `PERM`: 512 bytes. The lattice functions below read the table through a
   * parameter that defaults to `PERM`, so that their proofs hold for any such table.
   */
  predicate IsTable(perm: seq<Byte>) { |perm| == 512 }

  /** A table whose second half repeats its first. */
  predicate Doubled(perm: seq<Byte>)
  {
    IsTable(perm) && forall i :: 0 <= i < 256 ==> perm[i + 256] == perm[i]
  }

  /** `PERM` has 512 entries, each a byte, and its second half repeats the first. */
  lemma PermTable()
    ensures |PERM| == 512
    ensures forall i :: 0 <= i < 512 ==> 0 <= PERM[i] <= 255
    ensures Doubled(PERM)
  {
    assert PERM[..256] == PERM[256..];
  }

  // ---------------------------------------------------------------------------------------------
  // Fade and interpolation

  /** `fadef`: the quintic 6t^5 - 15t^4 + 10t^3, fixing both ends of the unit interval and mapping it into itself. */
  function Fade(t: real): (r: real)
    ensures t == 0.0 ==> r == 0.0
    ensures t == 1.0 ==> r == 1.0
    ensures 0.0 <= t <= 1.0 ==> 0.0 <= r <= 1.0
  {
    FadeRange(t);
    FadeBody(t)
  }

  function FadeBody(t: real): (r: real)
    ensures t == 0.0 ==> r == 0.0
    ensures t == 1.0 ==> r == 1.0
  {
    t * t * t * (t * (t * 6.0 - 15.0) + 10.0)
  }

  /** The fade curve is point-symmetric about (1/2, 1/2). */
  lemma FadeSymmetric(t: real)
    ensures FadeBody(1.0 - t) == 1.0 - FadeBody(t)
  {
  }

  lemma FadeNonNegative(t: real)
    requires 0.0 <= t <= 1.0
    ensures 0.0 <= FadeBody(t)
  {
    // 6t^2 - 15t + 10 = 3(2t - 3)(t - 1) + 1, and both factors are non-positive on [0,1]
    MulNonPositive(2.0 * t - 3.0, t - 1.0);
    assert (2.0 * t - 3.0) * (t - 1.0) == 2.0 * t * t - 5.0 * t + 3.0;
    var q := t * (t * 6.0 - 15.0) + 10.0;
    assert q == 3.0 * ((2.0 * t - 3.0) * (t - 1.0)) + 1.0;
    MulNonNegative(t, t);
    MulNonNegative(t * t, t);
    MulNonNegative(t * t * t, q);
  }

  lemma FadeRange(t: real)
    ensures 0.0 <= t <= 1.0 ==> 0.0 <= FadeBody(t) <= 1.0
  {
    if 0.0 <= t <= 1.0 {
      FadeNonNegative(t);
      FadeNonNegative(1.0 - t);
      FadeSymmetric(t);
    }
  }

  /** `lerpf`: linear interpolation, hitting both end points and staying between them for t in [0,1]. */
  function Lerp(a: real, b: real, t: real): (r: real)
    ensures t == 0.0 ==> r == a
    ensures t == 1.0 ==> r == b
    ensures 0.0 <= t <= 1.0 && a <= b ==> a <= r <= b
    ensures 0.0 <= t <= 1.0 && b <= a ==> b <= r <= a
  {
    var d := t * (b - a);
    LerpStep(a, b, t, d);
    a + d
  }

  /** The step `t * (b - a)` lies between 0 and `b - a` for t in [0,1]. */
  lemma LerpStep(a: real, b: real, t: real, d: real)
    requires d == t * (b - a)
    ensures 0.0 <= t <= 1.0 && a <= b ==> 0.0 <= d <= b - a
    ensures 0.0 <= t <= 1.0 && b <= a ==> b - a <= d <= 0.0
  {
    if 0.0 <= t <= 1.0 {
      if a <= b {
        MulNonNegative(t, b - a);
        MulNonNegative(1.0 - t, b - a);
      } else {
        MulNonNegative(t, a - b);
        MulNonNegative(1.0 - t, a - b);
      }
    }
  }

  lemma MulNonNegative(a: real, b: real)
    requires 0.0 <= a && 0.0 <= b
    ensures 0.0 <= a * b
  {
  }

  lemma MulNonPositive(a: real, b: real)
    requires a <= 0.0 && b <= 0.0
    ensures 0.0 <= a * b
  {
    MulNonNegative(-a, -b);
  }

  // ---------------------------------------------------------------------------------------------
  // Gradient selection

  /**
   * `grad`: the low four bits of the hash pick u (x or y) and v (y, x or z); bit 0 negates u and
   * bit 1 negates v. The hash is always a table entry, so an 8-bit mask is the source's `& 15`.
   */
  function Grad(hash: Byte, x: real, y: real, z: real): real
  {
    GradBits((hash as bv8) & 15, x, y, z)
  }

  function GradBits(h: bv8, x: real, y: real, z: real): real
  {
    var u := if h < 8 then x else y;
    var v := if h < 4 then y else if h == 12 || h == 14 then x else z;
    (if h & 1 != 0 then -u else u) + (if h & 2 != 0 then -v else v)
  }

  /** The 8-bit mask by 15 is the remainder modulo 16. */
  lemma LowNibble(hash: Byte)
    ensures ((hash as bv8) & 15) as int == hash % 16
  {
  }

  /**
   * Perlin's 2002 gradient set: the twelve directions from the centre of a cube to the midpoints of
   * its edges, padded to sixteen by repeating (1,1,0), (-1,1,0), (0,-1,1) and (0,-1,-1).
   */
  const GRADIENTS: seq<Vec3> := [
    Vec3( 1.0,  1.0,  0.0), Vec3(-1.0,  1.0,  0.0), Vec3( 1.0, -1.0,  0.0), Vec3(-1.0, -1.0,  0.0),
    Vec3( 1.0,  0.0,  1.0), Vec3(-1.0,  0.0,  1.0), Vec3( 1.0,  0.0, -1.0), Vec3(-1.0,  0.0, -1.0),
    Vec3( 0.0,  1.0,  1.0), Vec3( 0.0, -1.0,  1.0), Vec3( 0.0,  1.0, -1.0), Vec3( 0.0, -1.0, -1.0),
    Vec3( 1.0,  1.0,  0.0), Vec3( 0.0, -1.0,  1.0), Vec3(-1.0,  1.0,  0.0), Vec3( 0.0, -1.0, -1.0)
  ]

  /** A unit-step component: -1, 0 or 1. */
  predicate IsStep(c: real) { c == -1.0 || c == 0.0 || c == 1.0 }

  /** A cube-edge direction: every component a step, exactly one of them zero. */
  predicate IsEdgeDirection(g: Vec3)
  {
    IsStep(g.x) && IsStep(g.y) && IsStep(g.z) &&
    (if g.x == 0.0 then 1 else 0) + (if g.y == 0.0 then 1 else 0) + (if g.z == 0.0 then 1 else 0) == 1
  }

  /** Every gradient `grad` can select combines exactly two distinct coordinates, each with sign +1 or -1. */
  lemma GradientsAreEdges()
    ensures |GRADIENTS| == 16
    ensures forall h :: 0 <= h < 16 ==> IsEdgeDirection(GRADIENTS[h])
  {
  }

  /** `c * v` for a step component `c`, written without a product. */
  function StepMul(c: real, v: real): real
  {
    if c == 1.0 then v else if c == -1.0 then -v else 0.0
  }

  /** The dot product of a step vector with `p`, written without products. */
  function StepDot(g: Vec3, p: Vec3): real
  {
    StepMul(g.x, p.x) + StepMul(g.y, p.y) + StepMul(g.z, p.z)
  }

  lemma StepDotIsDot(g: Vec3, p: Vec3)
    requires IsStep(g.x) && IsStep(g.y) && IsStep(g.z)
    ensures StepDot(g, p) == Dot(g, p)
  {
    StepMulIsProduct(g.x, p.x);
    StepMulIsProduct(g.y, p.y);
    StepMulIsProduct(g.z, p.z);
  }

  lemma StepMulIsProduct(c: real, v: real)
    requires IsStep(c)
    ensures StepMul(c, v) == c * v
  {
  }

  /** Each of the sixteen bit patterns selects the table's gradient. */
  lemma GradBitsSelect(h: bv8, x: real, y: real, z: real)
    requires h < 16
    ensures GradBits(h, x, y, z) == StepDot(GRADIENTS[h as int], Vec3(x, y, z))
  {
    var p := Vec3(x, y, z);
    if h < 4 {
      if h == 0 { assert GRADIENTS[0] == Vec3(1.0, 1.0, 0.0); }
      else if h == 1 { assert GRADIENTS[1] == Vec3(-1.0, 1.0, 0.0); }
      else if h == 2 { assert GRADIENTS[2] == Vec3(1.0, -1.0, 0.0); }
      else { assert GRADIENTS[3] == Vec3(-1.0, -1.0, 0.0); }
    } else if h < 8 {
      if h == 4 { assert GRADIENTS[4] == Vec3(1.0, 0.0, 1.0); }
      else if h == 5 { assert GRADIENTS[5] == Vec3(-1.0, 0.0, 1.0); }
      else if h == 6 { assert GRADIENTS[6] == Vec3(1.0, 0.0, -1.0); }
      else { assert GRADIENTS[7] == Vec3(-1.0, 0.0, -1.0); }
    } else if h < 12 {
      if h == 8 { assert GRADIENTS[8] == Vec3(0.0, 1.0, 1.0); }
      else if h == 9 { assert GRADIENTS[9] == Vec3(0.0, -1.0, 1.0); }
      else if h == 10 { assert GRADIENTS[10] == Vec3(0.0, 1.0, -1.0); }
      else { assert GRADIENTS[11] == Vec3(0.0, -1.0, -1.0); }
    } else {
      if h == 12 { assert GRADIENTS[12] == Vec3(1.0, 1.0, 0.0); }
      else if h == 13 { assert GRADIENTS[13] == Vec3(0.0, -1.0, 1.0); }
      else if h == 14 { assert GRADIENTS[14] == Vec3(-1.0, 1.0, 0.0); }
      else { assert GRADIENTS[15] == Vec3(0.0, -1.0, -1.0); }
    }
  }

  /** `grad(hash, x, y, z)` is the dot product of the selected cube-edge gradient with (x, y, z). */
  lemma GradIsDot(hash: Byte, x: real, y: real, z: real)
    ensures Grad(hash, x, y, z) == Dot(GRADIENTS[hash % 16], Vec3(x, y, z))
    ensures IsEdgeDirection(GRADIENTS[hash % 16])
  {
    LowNibble(hash);
    GradBitsSelect((hash as bv8) & 15, x, y, z);
    GradientsAreEdges();
    StepDotIsDot(GRADIENTS[hash % 16], Vec3(x, y, z));
  }

  /** `grad` reads only the low four bits of its hash. */
  lemma GradLowBitsOnly(h1: Byte, h2: Byte, x: real, y: real, z: real)
    requires h1 % 16 == h2 % 16
    ensures Grad(h1, x, y, z) == Grad(h2, x, y, z)
  {
    LowNibble(h1);
    LowNibble(h2);
  }

  // ---------------------------------------------------------------------------------------------
  // Lattice cells and hashing

  /**
   * `int(std::floor(x)) & 255`: the lattice cell modulo 256. On a two's-complement integer the
   * mask keeps the low byte, which is the Euclidean remainder modulo 256 even for negative cells.
   */
  function Cell(x: real): (c: Byte)
    ensures (c - x.Floor) % 256 == 0
  {
    x.Floor % 256
  }

  /** `x - std::floor(x)`: the offset within the cell. */
  function Frac(x: real): (f: real)
    ensures 0.0 <= f < 1.0
    ensures x == x.Floor as real + f
  {
    x - x.Floor as real
  }

  /** The first level of the double indirection: `A`, `B` and the four row hashes `AA`, `AB`, `BA`, `BB`. */
  datatype Rows = Rows(a: int, b: int, aa: int, ab: int, ba: int, bb: int)

  /** In [0,510], so every later index, these plus one included, stays inside the 512-entry table. */
  predicate RowIndex(i: int) { 0 <= i <= 510 }

  function LatticeRows(X: Byte, Y: Byte, Z: Byte, perm: seq<Byte> := PERM): (r: Rows)
    requires IsTable(perm)
    ensures RowIndex(r.a) && RowIndex(r.b)
    ensures RowIndex(r.aa) && RowIndex(r.ab) && RowIndex(r.ba) && RowIndex(r.bb)
  {
    var a := perm[X] + Y;
    var b := perm[X + 1] + Y;
    Rows(a, b, perm[a] + Z, perm[a + 1] + Z, perm[b] + Z, perm[b + 1] + Z)
  }

  /** The eight cube-corner hashes, named after the row they are read from (`1` for the `+1` entries). */
  datatype Corners = Corners(aa: Byte, ba: Byte, ab: Byte, bb: Byte, aa1: Byte, ba1: Byte, ab1: Byte, bb1: Byte)

  /**
   * Perlin's lattice hash of the point (i, j, k) of a cell's corners, by triple indirection through the
   * table; i, j and k may reach 256, the far corner of cell 255.
   */
  function LatticeHash(i: int, j: int, k: int, perm: seq<Byte> := PERM): Byte
    requires IsTable(perm)
    requires 0 <= i <= 256 && 0 <= j <= 256 && 0 <= k <= 256
  {
    perm[perm[perm[i] + j] + k]
  }

  /** The hashes `perlin3d` reads are Perlin's lattice hashes of the eight corners of cell (X, Y, Z). */
  function CornerHashes(X: Byte, Y: Byte, Z: Byte, perm: seq<Byte> := PERM): (c: Corners)
    requires IsTable(perm)
    ensures c.aa == LatticeHash(X, Y, Z, perm) && c.ba == LatticeHash(X + 1, Y, Z, perm)
    ensures c.ab == LatticeHash(X, Y + 1, Z, perm) && c.bb == LatticeHash(X + 1, Y + 1, Z, perm)
    ensures c.aa1 == LatticeHash(X, Y, Z + 1, perm) && c.ba1 == LatticeHash(X + 1, Y, Z + 1, perm)
    ensures c.ab1 == LatticeHash(X, Y + 1, Z + 1, perm) && c.bb1 == LatticeHash(X + 1, Y + 1, Z + 1, perm)
  {
    var r := LatticeRows(X, Y, Z, perm);
    Corners(perm[r.aa], perm[r.ba], perm[r.ab], perm[r.bb],
            perm[r.aa + 1], perm[r.ba + 1], perm[r.ab + 1], perm[r.bb + 1])
  }

  /**
   * Because the table is doubled, hashing is periodic: the far face of cell 255 (a coordinate of 256)
   * hashes exactly like the near face of cell 0, so the noise joins up across the wrap.
   */
  lemma LatticeHashWraps(i: int, j: int, k: int, perm: seq<Byte> := PERM)
    requires Doubled(perm)
    requires 0 <= i <= 256 && 0 <= j <= 256 && 0 <= k <= 256
    ensures LatticeHash(i, j, k, perm) == LatticeHash(i % 256, j % 256, k % 256, perm)
  {
    var p := perm[i % 256];
    assert perm[i] == p;
    var q := perm[p + j % 256];
    assert perm[p + j] == q;
    assert perm[q + k] == perm[q + k % 256];
  }

  /** `PERM` itself is doubled, so its lattice hashes wrap. */
  lemma PermHashWraps(i: int, j: int, k: int)
    requires 0 <= i <= 256 && 0 <= j <= 256 && 0 <= k <= 256
    ensures LatticeHash(i, j, k) == LatticeHash(i % 256, j % 256, k % 256)
  {
    PermTable();
    LatticeHashWraps(i, j, k);
  }

  // ---------------------------------------------------------------------------------------------
  // The noise value

  /** `perlin3d` over reals: the eight corner gradients, faded and interpolated; zero at every lattice point. */
  function Perlin3D(x: real, y: real, z: real, perm: seq<Byte> := PERM): (r: real)
    requires IsTable(perm)
    ensures x == x.Floor as real && y == y.Floor as real && z == z.Floor as real ==> r == 0.0
  {
    var c := CornerHashes(Cell(x), Cell(y), Cell(z), perm);
    var fx, fy, fz := Frac(x), Frac(y), Frac(z);
    var u, v, w := Fade(fx), Fade(fy), Fade(fz);
    Lerp(
      Lerp(
        Lerp(Grad(c.aa, fx, fy, fz), Grad(c.ba, fx - 1.0, fy, fz), u),
        Lerp(Grad(c.ab, fx, fy - 1.0, fz), Grad(c.bb, fx - 1.0, fy - 1.0, fz), u),
        v),
      Lerp(
        Lerp(Grad(c.aa1, fx, fy, fz - 1.0), Grad(c.ba1, fx - 1.0, fy, fz - 1.0), u),
        Lerp(Grad(c.ab1, fx, fy - 1.0, fz - 1.0), Grad(c.bb1, fx - 1.0, fy - 1.0, fz - 1.0), u),
        v),
      w)
  }

  /** The noise repeats every 256 units along each axis: that is all the `& 255` mask leaves of the cell. */
  lemma PerlinPeriodic(x: real, y: real, z: real, perm: seq<Byte> := PERM)
    requires IsTable(perm)
    ensures Perlin3D(x + 256.0, y, z, perm) == Perlin3D(x, y, z, perm)
    ensures Perlin3D(x, y + 256.0, z, perm) == Perlin3D(x, y, z, perm)
    ensures Perlin3D(x, y, z + 256.0, perm) == Perlin3D(x, y, z, perm)
  {
    FloorShift(x);
    FloorShift(y);
    FloorShift(z);
  }

  lemma FloorShift(x: real)
    ensures (x + 256.0).Floor == x.Floor + 256
    ensures Cell(x + 256.0) == Cell(x) && Frac(x + 256.0) == Frac(x)
  {
  }
}
