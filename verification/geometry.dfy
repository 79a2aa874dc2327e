/** The `Vec3` value type and its exact algebra: `cross`, `dot` and the re-orthogonalised camera basis. */
module Geometry {

  datatype Vec3 = Vec3(x: real, y: real, z: real)

  const Zero := Vec3(0.0, 0.0, 0.0)

  /** Component-wise `a - b`, written inline throughout the renderer. */
  function Sub(a: Vec3, b: Vec3): (c: Vec3)
    ensures Add(c, b) == a
  {
    Vec3(a.x - b.x, a.y - b.y, a.z - b.z)
  }

  function Add(a: Vec3, b: Vec3): Vec3
  {
    Vec3(a.x + b.x, a.y + b.y, a.z + b.z)
  }

  /** `k * v`; `normalize(v)` is `Scale(1 / |v|, v)`. */
  function Scale(k: real, v: Vec3): Vec3
  {
    Vec3(k * v.x, k * v.y, k * v.z)
  }

  function Dot(a: Vec3, b: Vec3): real
  {
    a.x * b.x + a.y * b.y + a.z * b.z
  }

  /** The cross product is perpendicular to both of its arguments. */
  function Cross(a: Vec3, b: Vec3): (c: Vec3)
    ensures Dot(c, a) == 0.0 && Dot(c, b) == 0.0
  {
    Vec3(a.y * b.z - a.z * b.y, a.z * b.x - a.x * b.z, a.x * b.y - a.y * b.x)
  }

  lemma CrossSelfIsZero(a: Vec3)
    ensures Cross(a, a) == Zero
  {
  }

  lemma CrossAntiCommutes(a: Vec3, b: Vec3)
    ensures Cross(b, a) == Scale(-1.0, Cross(a, b))
  {
  }

  /** The squared magnitude under `normalize`'s square root is never negative. */
  lemma DotSelfNonNegative(v: Vec3)
    ensures Dot(v, v) >= 0.0
  {
    assert v.x * v.x >= 0.0 && v.y * v.y >= 0.0 && v.z * v.z >= 0.0;
  }

  lemma DotScale(k: real, v: Vec3, w: Vec3)
    ensures Dot(Scale(k, v), w) == k * Dot(v, w)
  {
    assert k * v.x * w.x + k * v.y * w.y + k * v.z * w.z == k * (v.x * w.x + v.y * w.y + v.z * w.z);
  }

  /**
   * The camera basis: `right` is a positive or negative multiple `k` of `fwd x updir` (that is what
   * `normalize` yields) and `up` is `right x fwd`. The three vectors are mutually perpendicular,
   * whatever the magnitudes.
   */
  lemma CameraBasisOrthogonal(fwd: Vec3, updir: Vec3, k: real)
    ensures var right := Scale(k, Cross(fwd, updir));
            var up := Cross(right, fwd);
            Dot(right, fwd) == 0.0 && Dot(up, right) == 0.0 && Dot(up, fwd) == 0.0
  {
    DotScale(k, Cross(fwd, updir), fwd);
  }

  /** The fixed eye (0,0,-20), target (0,0,0) and up hint (0,1,0) of the renderer. */
  const EYE := Vec3(0.0, 0.0, -20.0)
  const TARGET := Zero
  const UP_HINT := Vec3(0.0, 1.0, 0.0)

  /**
   * `target - eye` is (0,0,20), of squared length 400 (length 20), and scaling it by 1/20 gives the
   * unit vector (0,0,1), which is what `fwd = normalize(target - eye)` computes.
   */
  lemma DefaultForward()
    ensures Sub(TARGET, EYE) == Vec3(0.0, 0.0, 20.0)
    ensures Dot(Vec3(0.0, 0.0, 20.0), Vec3(0.0, 0.0, 20.0)) == 20.0 * 20.0
    ensures Scale(1.0 / 20.0, Vec3(0.0, 0.0, 20.0)) == Vec3(0.0, 0.0, 1.0)
  {
  }

  /** `fwd x updir` is (-1,0,0), already of length 1, so `right = normalize(fwd x updir)` is that vector. */
  lemma DefaultRight()
    ensures Cross(Vec3(0.0, 0.0, 1.0), UP_HINT) == Vec3(-1.0, 0.0, 0.0)
    ensures Dot(Vec3(-1.0, 0.0, 0.0), Vec3(-1.0, 0.0, 0.0)) == 1.0
  {
  }

  /** `up = right x fwd` is (0,1,0). */
  lemma DefaultUp()
    ensures Cross(Vec3(-1.0, 0.0, 0.0), Vec3(0.0, 0.0, 1.0)) == UP_HINT
  {
  }

  /** The target lies at camera depth `cz0 = dot(target - eye, fwd) = 20`. */
  lemma DefaultTargetDepth()
    ensures Dot(Sub(TARGET, EYE), Vec3(0.0, 0.0, 1.0)) == 20.0
  {
  }
}
