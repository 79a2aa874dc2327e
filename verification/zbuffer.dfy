/**
 * The per-frame visibility pass as a pure specification: how one mesh sample is lit, culled,
 * projected and depth-tested against the three frame buffers, and what a whole sequence of samples
 * leaves in them. The `Frame` module runs the same pass in place on arrays.
 */
module ZBuffer {
  import opened Numeric
  import opened Geometry
  import opened Shading

  /** `FOCAL`: the focal length of the perspective projection. */
  const FOCAL: real := 90.0

  /**
   * Samples at this camera depth or nearer are culled (`cz <= 0.1f`). The float `0.1f` is slightly
   * above 0.1; with exact reals the bound is taken as 0.1 itself.
   */
  const NEAR_CLIP_Z: real := 0.1

  /** The depth every z-buffer cell is reset to each frame (`1e9f`, exactly representable). */
  const CLEAR_DEPTH: real := 1000000000.0

  const BLANK: char := ' '

  datatype Option<T> = None | Some(value: T)

  /**
   * One mesh sample: the surface point in camera space, `cx = dot(v_cam, right)`,
   * `cy = dot(v_cam, up)`, `cz = dot(v_cam, fwd)`, and its clamped brightness.
   */
  datatype Sample = Sample(cx: real, cy: real, cz: real, light: Unit)

  /**
   * `L = AMBIENT + (1 - AMBIENT) * dot(N, LIGHT_DIR)` with `AMBIENT = 0`, clamped to [0,1]: a surface
   * facing away from the light is black, otherwise the brightness is the cosine term, capped at 1.
   */
  function Lighting(n: Vec3, lightDir: Vec3): (L: Unit)
    ensures Dot(n, lightDir) <= 0.0 ==> L == 0.0
    ensures 0.0 <= Dot(n, lightDir) <= 1.0 ==> L == Dot(n, lightDir)
    ensures 1.0 <= Dot(n, lightDir) ==> L == 1.0
  {
    var ambient := 0.0;
    Clamp01(ambient + (1.0 - ambient) * Dot(n, lightDir))
  }

  /** The projected column before truncation: `dot(v_cam, right) * (FOCAL / cz) + WIDTH / 2`. */
  function ProjX(s: Sample, width: nat): (x: real)
    requires s.cz > 0.0
    ensures s.cx == 0.0 ==> x == (width / 2) as real
    ensures s.cx > 0.0 ==> x > (width / 2) as real
    ensures s.cx < 0.0 ==> x < (width / 2) as real
  {
    ProductSign(s.cx, FOCAL / s.cz);
    s.cx * (FOCAL / s.cz) + (width / 2) as real
  }

  /** The projected row before truncation: `HEIGHT / 2 - dot(v_cam, up) * (FOCAL / cz)`. */
  function ProjY(s: Sample, height: nat): (y: real)
    requires s.cz > 0.0
    ensures s.cy == 0.0 ==> y == (height / 2) as real
    ensures s.cy > 0.0 ==> y < (height / 2) as real
    ensures s.cy < 0.0 ==> y > (height / 2) as real
  {
    ProductSign(s.cy, FOCAL / s.cz);
    (height / 2) as real - s.cy * (FOCAL / s.cz)
  }

  /** A product with a positive factor has the sign of the other factor. */
  lemma ProductSign(a: real, k: real)
    requires k > 0.0
    ensures a > 0.0 ==> a * k > 0.0
    ensures a < 0.0 ==> a * k < 0.0
  {
    if a < 0.0 {
      assert (-a) * k > 0.0;
    }
  }

  datatype Placement = NearClipped | OffScreen | OnScreen(sx: nat, sy: nat)

  /**
   * Near-clip cull, projection with truncation toward zero, and the screen-bounds cull. Because `int(...)`
   * truncates, a projected coordinate in (-1, 0) lands in column or row 0: the accepted region is the
   * open box (-1, width) x (-1, height), not [0, width) x [0, height).
   */
  function Place(s: Sample, width: nat, height: nat): (p: Placement)
    ensures p.NearClipped? <==> s.cz <= NEAR_CLIP_Z
    ensures p.OnScreen? <==>
              s.cz > NEAR_CLIP_Z && 0 < width && 0 < height && -1.0 < ProjX(s, width) < width as real && -1.0 < ProjY(s, height) < height as real
    ensures p.OnScreen? ==> p.sx < width && p.sy < height
    ensures p.OnScreen? ==> p.sx == Trunc(ProjX(s, width)) && p.sy == Trunc(ProjY(s, height))
  {
    if s.cz <= NEAR_CLIP_Z then NearClipped
    else
      TruncInRange(ProjX(s, width), width);
      TruncInRange(ProjY(s, height), height);
      var sx := Trunc(ProjX(s, width));
      var sy := Trunc(ProjY(s, height));
      if sx < 0 || sx >= width || sy < 0 || sy >= height then OffScreen else OnScreen(sx, sy)
  }

  /** `idx = sy * WIDTH + sx`: row-major flattening, undone by division and remainder. */
  function PixelIndex(sx: nat, sy: nat, width: nat): (idx: nat)
    requires sx < width
    ensures idx / width == sy && idx % width == sx
  {
    FlattenRoundTrip(sx, sy, width);
    sy * width + sx
  }

  lemma FlattenRoundTrip(sx: nat, sy: nat, width: nat)
    requires sx < width
    ensures (sy * width + sx) / width == sy && (sy * width + sx) % width == sx
  {
    var n := sy * width + sx;
    var q, r := n / width, n % width;
    assert q * width + r == n;
    MulMonotone(q + 1, sy, width);
    MulMonotone(sy + 1, q, width);
    assert (q + 1) * width == q * width + width;
    assert (sy + 1) * width == sy * width + width;
  }

  lemma MulMonotone(a: int, b: int, w: nat)
    ensures a <= b ==> a * w <= b * w
  {
    if a <= b {
      assert b * w - a * w == (b - a) * w;
    }
  }

  /** A pixel inside the screen has a flat index inside the buffers. */
  lemma PixelIndexInBounds(sx: nat, sy: nat, width: nat, height: nat)
    requires sx < width && sy < height
    ensures PixelIndex(sx, sy, width) < width * height
  {
    MulMonotone(sy, height - 1, width);
    assert (height - 1) * width == width * height - width;
  }

  /** The buffer cell a sample is depth-tested against, if it survives both culls. */
  function Target(s: Sample, width: nat, height: nat): (t: Option<nat>)
    ensures t.Some? <==> Place(s, width, height).OnScreen?
    ensures t.Some? ==> t.value < width * height
    ensures t.Some? ==> t.value % width == Place(s, width, height).sx && t.value / width == Place(s, width, height).sy
  {
    match Place(s, width, height)
    case OnScreen(sx, sy) =>
      PixelIndexInBounds(sx, sy, width, height);
      Some(PixelIndex(sx, sy, width))
    case _ => None
  }

  predicate Lands(s: Sample, width: nat, height: nat, p: nat)
  {
    Target(s, width, height) == Some(p)
  }

  /** A sample lands on the flat index of pixel (x, y) exactly when it is placed on that pixel. */
  lemma LandsAt(s: Sample, width: nat, height: nat, x: nat, y: nat)
    requires x < width
    ensures Lands(s, width, height, PixelIndex(x, y, width)) <==> Place(s, width, height) == OnScreen(x, y)
  {
    var idx := PixelIndex(x, y, width);
    if Lands(s, width, height, idx) {
      assert idx % width == x && idx / width == y;
    }
  }

  // ---------------------------------------------------------------------------------------------
  // The frame buffers as values

  /** `screen`, `zbuf` and `bright`, flattened row by row. */
  datatype Buffers = Buffers(screen: seq<char>, zbuf: seq<real>, bright: seq<real>)

  /** All three buffers hold `n` cells. */
  predicate Fits(b: Buffers, n: nat)
  {
    |b.screen| == n && |b.zbuf| == n && |b.bright| == n
  }

  /** What cell `p` holds: its glyph, depth and brightness. */
  function CellContents(b: Buffers, p: nat): (char, real, real)
    requires p < |b.screen| && p < |b.zbuf| && p < |b.bright|
  {
    (b.screen[p], b.zbuf[p], b.bright[p])
  }

  /** What a winning sample leaves in its cell. */
  function Drawn(s: Sample): (char, real, real)
  {
    (Glyph(s.light), s.cz, s.light)
  }

  /** `std::fill` of `screen` with blanks and of `zbuf` with `1e9`; `bright` keeps last frame's values. */
  function Cleared(b: Buffers): (r: Buffers)
    ensures Fits(b, |b.screen|) ==> Fits(r, |b.screen|)
    ensures forall p :: 0 <= p < |r.screen| ==> r.screen[p] == BLANK
    ensures forall p :: 0 <= p < |r.zbuf| ==> r.zbuf[p] == CLEAR_DEPTH
    ensures r.bright == b.bright
  {
    Buffers(seq(|b.screen|, _ => BLANK), seq(|b.zbuf|, _ => CLEAR_DEPTH), b.bright)
  }

  /**
   * One sample's depth test: if it lands on a cell and is strictly nearer than what that cell holds,
   * it overwrites the cell's depth, brightness and glyph. No depth ever grows.
   */
  function Apply(b: Buffers, s: Sample, width: nat, height: nat): (r: Buffers)
    requires Fits(b, width * height)
    ensures Fits(r, width * height)
    ensures forall p :: 0 <= p < width * height ==> r.zbuf[p] <= b.zbuf[p]
  {
    match Target(s, width, height)
    case Some(idx) =>
      if s.cz < b.zbuf[idx] then
        Buffers(b.screen[idx := Glyph(s.light)], b.zbuf[idx := s.cz], b.bright[idx := s.light])
      else b
    case None => b
  }

  /** Apply touches at most the cell its sample lands on, and writes it exactly when the sample is nearer. */
  lemma ApplyCell(b: Buffers, s: Sample, width: nat, height: nat, p: nat)
    requires Fits(b, width * height) && p < width * height
    ensures var r := Apply(b, s, width, height);
            CellContents(r, p) == if Lands(s, width, height, p) && s.cz < b.zbuf[p] then Drawn(s) else CellContents(b, p)
  {
  }

  /** A culled sample (behind the near plane or off screen) leaves all three buffers as they were. */
  lemma CulledSampleChangesNothing(b: Buffers, s: Sample, width: nat, height: nat)
    requires Fits(b, width * height)
    requires !Place(s, width, height).OnScreen?
    ensures Apply(b, s, width, height) == b
  {
  }

  /** The samples applied in order, the first one first. */
  function Fold(b: Buffers, ss: seq<Sample>, width: nat, height: nat): (r: Buffers)
    requires Fits(b, width * height)
    ensures Fits(r, width * height)
    decreases |ss|
  {
    if ss == [] then b
    else Apply(Fold(b, ss[..|ss| - 1], width, height), ss[|ss| - 1], width, height)
  }

  lemma FoldSnoc(b: Buffers, xs: seq<Sample>, s: Sample, width: nat, height: nat)
    requires Fits(b, width * height)
    ensures Fold(b, xs + [s], width, height) == Apply(Fold(b, xs, width, height), s, width, height)
  {
    assert (xs + [s])[..|xs|] == xs;
  }

  lemma {:induction false} FoldAppend(b: Buffers, xs: seq<Sample>, ys: seq<Sample>, width: nat, height: nat)
    requires Fits(b, width * height)
    ensures Fold(b, xs + ys, width, height) == Fold(Fold(b, xs, width, height), ys, width, height)
    decreases |ys|
  {
    if ys == [] {
      assert xs + ys == xs;
    } else {
      var ys' := ys[..|ys| - 1];
      assert (xs + ys)[..|xs + ys| - 1] == xs + ys';
      FoldAppend(b, xs, ys', width, height);
    }
  }

  /** Removing a culled sample from anywhere in the sequence changes nothing. */
  lemma CulledSampleIgnored(b: Buffers, xs: seq<Sample>, s: Sample, ys: seq<Sample>, width: nat, height: nat)
    requires Fits(b, width * height)
    requires !Place(s, width, height).OnScreen?
    ensures Fold(b, xs + [s] + ys, width, height) == Fold(b, xs + ys, width, height)
  {
    FoldAppend(b, xs + [s], ys, width, height);
    FoldAppend(b, xs, [s], width, height);
    FoldAppend(b, xs, ys, width, height);
    assert Fold(Fold(b, xs, width, height), [s], width, height) == Fold(b, xs, width, height) by {
      assert [s][..0] == [];
    }
  }

  // ---------------------------------------------------------------------------------------------
  // Nearest wins

  /**
   * Sample `k` wins cell `p`, whose depth was `z0` before the samples: it lands on `p`, is nearer
   * than `z0`, strictly nearer than every earlier sample landing there, and no farther than every
   * later one. This is the first of the nearest samples.
   */
  predicate IsWinner(z0: real, ss: seq<Sample>, width: nat, height: nat, p: nat, k: nat)
  {
    k < |ss| && Lands(ss[k], width, height, p) && ss[k].cz < z0 &&
    (forall j :: 0 <= j < k && Lands(ss[j], width, height, p) ==> ss[k].cz < ss[j].cz) &&
    (forall j :: k < j < |ss| && Lands(ss[j], width, height, p) ==> ss[k].cz <= ss[j].cz)
  }

  /** No sample landing on `p` is nearer than `z0`. */
  predicate Unbeaten(z0: real, ss: seq<Sample>, width: nat, height: nat, p: nat)
  {
    forall j :: 0 <= j < |ss| && Lands(ss[j], width, height, p) ==> z0 <= ss[j].cz
  }

  /** Appending a sample that does not beat the current winner (or the start depth) keeps the outcome. */
  lemma UnbeatenExtends(z0: real, xs: seq<Sample>, s: Sample, width: nat, height: nat, p: nat)
    requires Unbeaten(z0, xs, width, height, p)
    requires !(Lands(s, width, height, p) && s.cz < z0)
    ensures Unbeaten(z0, xs + [s], width, height, p)
  {
    var ss := xs + [s];
    forall j | 0 <= j < |ss| && Lands(ss[j], width, height, p)
      ensures z0 <= ss[j].cz
    {
      if j < |xs| { assert ss[j] == xs[j]; }
    }
  }

  lemma WinnerExtends(z0: real, xs: seq<Sample>, s: Sample, width: nat, height: nat, p: nat, k: nat)
    requires IsWinner(z0, xs, width, height, p, k)
    requires !(Lands(s, width, height, p) && s.cz < xs[k].cz)
    ensures IsWinner(z0, xs + [s], width, height, p, k)
  {
    var ss := xs + [s];
    assert forall j :: 0 <= j < |xs| ==> ss[j] == xs[j];
  }

  /** A new sample nearer than everything before it on its cell becomes the winner. */
  lemma NewWinnerAfterUnbeaten(z0: real, xs: seq<Sample>, s: Sample, width: nat, height: nat, p: nat)
    requires Unbeaten(z0, xs, width, height, p)
    requires Lands(s, width, height, p) && s.cz < z0
    ensures IsWinner(z0, xs + [s], width, height, p, |xs|)
  {
    var ss := xs + [s];
    assert forall j :: 0 <= j < |xs| ==> ss[j] == xs[j];
  }

  lemma NewWinnerAfterWinner(z0: real, xs: seq<Sample>, s: Sample, width: nat, height: nat, p: nat, k: nat)
    requires IsWinner(z0, xs, width, height, p, k)
    requires Lands(s, width, height, p) && s.cz < xs[k].cz
    ensures IsWinner(z0, xs + [s], width, height, p, |xs|)
  {
    var ss := xs + [s];
    forall j | 0 <= j < |xs| && Lands(ss[j], width, height, p)
      ensures s.cz < ss[j].cz
    {
      assert ss[j] == xs[j];
      assert j == k || xs[k].cz <= xs[j].cz;
    }
  }

  /**
   * What a sequence of samples leaves in cell `p`: either no sample beat the cell's starting depth and
   * the cell is as it was, or some sample is the winner and the cell holds what it drew.
   */
  lemma {:induction false} FoldCell(b: Buffers, ss: seq<Sample>, width: nat, height: nat, p: nat)
    requires Fits(b, width * height) && p < width * height
    ensures var r := Fold(b, ss, width, height);
            (Unbeaten(b.zbuf[p], ss, width, height, p) && CellContents(r, p) == CellContents(b, p)) ||
            (exists k: nat :: IsWinner(b.zbuf[p], ss, width, height, p, k) && CellContents(r, p) == Drawn(ss[k]))
    decreases |ss|
  {
    if ss != [] {
      var n := |ss| - 1;
      var xs, s := ss[..n], ss[n];
      assert ss == xs + [s];
      var z0 := b.zbuf[p];
      FoldCell(b, xs, width, height, p);
      var r' := Fold(b, xs, width, height);
      ApplyCell(r', s, width, height, p);
      if Unbeaten(z0, xs, width, height, p) && CellContents(r', p) == CellContents(b, p) {
        if Lands(s, width, height, p) && s.cz < z0 {
          NewWinnerAfterUnbeaten(z0, xs, s, width, height, p);
        } else {
          UnbeatenExtends(z0, xs, s, width, height, p);
        }
      } else {
        var k: nat :| IsWinner(z0, xs, width, height, p, k) && CellContents(r', p) == Drawn(xs[k]);
        if Lands(s, width, height, p) && s.cz < xs[k].cz {
          NewWinnerAfterWinner(z0, xs, s, width, height, p, k);
        } else {
          WinnerExtends(z0, xs, s, width, height, p, k);
        }
      }
    }
  }

  /** At most one sample wins a cell. */
  lemma WinnerUnique(z0: real, ss: seq<Sample>, width: nat, height: nat, p: nat, k1: nat, k2: nat)
    requires IsWinner(z0, ss, width, height, p, k1) && IsWinner(z0, ss, width, height, p, k2)
    ensures k1 == k2
  {
  }

  /**
   * After the samples, the cell of the winning sample holds that sample's depth, brightness and
   * glyph: the nearest sample wins, and of equally near ones the first, since the test is strict.
   */
  lemma NearestSampleWins(b: Buffers, ss: seq<Sample>, width: nat, height: nat, p: nat, k: nat)
    requires Fits(b, width * height) && p < width * height
    requires IsWinner(b.zbuf[p], ss, width, height, p, k)
    ensures CellContents(Fold(b, ss, width, height), p) == Drawn(ss[k])
  {
    FoldCell(b, ss, width, height, p);
    var r := Fold(b, ss, width, height);
    assert !Unbeaten(b.zbuf[p], ss, width, height, p) by {
      assert Lands(ss[k], width, height, p) && ss[k].cz < b.zbuf[p];
    }
    var k': nat :| IsWinner(b.zbuf[p], ss, width, height, p, k') && CellContents(r, p) == Drawn(ss[k']);
    WinnerUnique(b.zbuf[p], ss, width, height, p, k, k');
  }

  /** A cell that no sample beats keeps its glyph, depth and brightness. */
  lemma UnbeatenCellUnchanged(b: Buffers, ss: seq<Sample>, width: nat, height: nat, p: nat)
    requires Fits(b, width * height) && p < width * height
    requires Unbeaten(b.zbuf[p], ss, width, height, p)
    ensures CellContents(Fold(b, ss, width, height), p) == CellContents(b, p)
  {
    FoldCell(b, ss, width, height, p);
  }

  /** If some sample landing on a cell is nearer than its depth, some sample wins it (uniquely, by `WinnerUnique`). */
  lemma WinnerExists(b: Buffers, ss: seq<Sample>, width: nat, height: nat, p: nat, j: nat)
    requires Fits(b, width * height) && p < width * height
    requires j < |ss| && Lands(ss[j], width, height, p) && ss[j].cz < b.zbuf[p]
    ensures exists k: nat :: IsWinner(b.zbuf[p], ss, width, height, p, k)
  {
    FoldCell(b, ss, width, height, p);
  }

  /**
   * The depth of every cell is a running minimum: it never grows, it is no deeper than any sample
   * that landed there, and it is either the depth it started with or that of one of those samples.
   */
  lemma DepthIsRunningMinimum(b: Buffers, ss: seq<Sample>, width: nat, height: nat, p: nat)
    requires Fits(b, width * height) && p < width * height
    ensures var z := Fold(b, ss, width, height).zbuf[p];
            z <= b.zbuf[p] &&
            (forall j :: 0 <= j < |ss| && Lands(ss[j], width, height, p) ==> z <= ss[j].cz) &&
            (z == b.zbuf[p] || exists j :: 0 <= j < |ss| && Lands(ss[j], width, height, p) && z == ss[j].cz)
  {
    FoldCell(b, ss, width, height, p);
    var r := Fold(b, ss, width, height);
    if !(Unbeaten(b.zbuf[p], ss, width, height, p) && CellContents(r, p) == CellContents(b, p)) {
      var k: nat :| IsWinner(b.zbuf[p], ss, width, height, p, k) && CellContents(r, p) == Drawn(ss[k]);
      assert r.zbuf[p] == ss[k].cz;
      forall j | 0 <= j < |ss| && Lands(ss[j], width, height, p)
        ensures r.zbuf[p] <= ss[j].cz
      {
        if j < k {
          assert ss[k].cz < ss[j].cz;
        }
      }
    }
  }

  /**
   * Two samples on the same cell at different depths: the nearer one is drawn whichever order the
   * mesh loop meets them in.
   */
  lemma DepthOrderIrrelevant(b: Buffers, near: Sample, far: Sample, width: nat, height: nat, p: nat)
    requires Fits(b, width * height) && p < width * height
    requires Lands(near, width, height, p) && Lands(far, width, height, p)
    requires near.cz < far.cz && near.cz < b.zbuf[p]
    ensures CellContents(Fold(b, [near, far], width, height), p) == Drawn(near)
    ensures CellContents(Fold(b, [far, near], width, height), p) == Drawn(near)
  {
    NearestSampleWins(b, [near, far], width, height, p, 0);
    NearestSampleWins(b, [far, near], width, height, p, 1);
  }

  /** Two samples on the same cell at the same depth: the earlier one is drawn. */
  lemma DepthTieEarlierWins(b: Buffers, first: Sample, second: Sample, width: nat, height: nat, p: nat)
    requires Fits(b, width * height) && p < width * height
    requires Lands(first, width, height, p) && Lands(second, width, height, p)
    requires first.cz == second.cz && first.cz < b.zbuf[p]
    ensures CellContents(Fold(b, [first, second], width, height), p) == Drawn(first)
  {
    NearestSampleWins(b, [first, second], width, height, p, 0);
  }

  /**
   * After a whole frame (reset, then every sample), a cell that no sample reached shows a blank at
   * the clear depth but keeps the brightness it had in the previous frame.
   */
  lemma UnreachedCellAfterFrame(b: Buffers, ss: seq<Sample>, width: nat, height: nat, p: nat)
    requires Fits(b, width * height) && p < width * height
    requires forall j :: 0 <= j < |ss| ==> !Lands(ss[j], width, height, p) || CLEAR_DEPTH <= ss[j].cz
    ensures CellContents(Fold(Cleared(b), ss, width, height), p) == (BLANK, CLEAR_DEPTH, b.bright[p])
  {
    UnbeatenCellUnchanged(Cleared(b), ss, width, height, p);
  }

  // ---------------------------------------------------------------------------------------------
  // Frames

  /** The mesh samples in the order the nested `ix`/`iz` loops meet them: row `ix` after row `ix - 1`. */
  function Flatten(mesh: seq<seq<Sample>>): (ss: seq<Sample>)
    ensures forall i, j :: 0 <= i < |mesh| && 0 <= j < |mesh[i]| ==> mesh[i][j] in ss
    ensures forall s :: s in ss ==> exists i :: 0 <= i < |mesh| && s in mesh[i]
    decreases |mesh|
  {
    if mesh == [] then [] else Flatten(mesh[..|mesh| - 1]) + mesh[|mesh| - 1]
  }

  lemma FlattenSnoc(mesh: seq<seq<Sample>>, i: nat)
    requires i < |mesh|
    ensures Flatten(mesh[..i + 1]) == Flatten(mesh[..i]) + mesh[i]
  {
    assert mesh[..i + 1][..i] == mesh[..i];
  }

  /** Every brightness lies in [0, 1]. */
  predicate BrightInUnit(b: Buffers)
  {
    forall p :: 0 <= p < |b.bright| ==> 0.0 <= b.bright[p] <= 1.0
  }

  /**
   * What holds of the buffers after every frame: each glyph is one of the shades (the blank included),
   * each depth lies beyond the near plane and no deeper than the clear depth, each brightness in [0, 1].
   */
  predicate WellFormed(b: Buffers, n: nat)
  {
    Fits(b, n) && BrightInUnit(b) &&
    (forall p :: 0 <= p < n ==> b.screen[p] in SHADES) &&
    (forall p :: 0 <= p < n ==> NEAR_CLIP_Z < b.zbuf[p] <= CLEAR_DEPTH)
  }

  lemma ClearedWellFormed(b: Buffers, n: nat)
    requires Fits(b, n) && BrightInUnit(b)
    ensures WellFormed(Cleared(b), n)
  {
    assert BLANK == SHADES[0];
  }

  lemma ApplyKeepsWellFormed(b: Buffers, s: Sample, width: nat, height: nat)
    requires WellFormed(b, width * height)
    ensures WellFormed(Apply(b, s, width, height), width * height)
  {
    var r := Apply(b, s, width, height);
    forall p | 0 <= p < width * height
      ensures r.screen[p] in SHADES && NEAR_CLIP_Z < r.zbuf[p] <= CLEAR_DEPTH && 0.0 <= r.bright[p] <= 1.0
    {
      ApplyCell(b, s, width, height, p);
    }
  }

  lemma {:induction false} FoldKeepsWellFormed(b: Buffers, ss: seq<Sample>, width: nat, height: nat)
    requires WellFormed(b, width * height)
    ensures WellFormed(Fold(b, ss, width, height), width * height)
    decreases |ss|
  {
    if ss != [] {
      FoldKeepsWellFormed(b, ss[..|ss| - 1], width, height);
      ApplyKeepsWellFormed(Fold(b, ss[..|ss| - 1], width, height), ss[|ss| - 1], width, height);
    }
  }

  /** A whole frame (reset, then every sample) leaves the buffers well formed, whatever the samples. */
  lemma FrameWellFormed(b: Buffers, ss: seq<Sample>, width: nat, height: nat)
    requires Fits(b, width * height) && BrightInUnit(b)
    ensures WellFormed(Fold(Cleared(b), ss, width, height), width * height)
  {
    ClearedWellFormed(b, width * height);
    FoldKeepsWellFormed(Cleared(b), ss, width, height);
  }

  // ---------------------------------------------------------------------------------------------
  // The picture

  /** One character cell of terminal output: the 256-colour foreground code and the glyph printed in it. */
  datatype Styled = Styled(code: int, glyph: char)

  /** What the terminal shows at column `x`, row `y`: `screen[idx]` in gray `232 + level(bright[idx])`. */
  function Shown(b: Buffers, width: nat, height: nat, x: nat, y: nat): (c: Styled)
    requires Fits(b, width * height) && x < width && y < height
    ensures 232 <= c.code <= 255
    ensures c.glyph in b.screen
  {
    PixelIndexInBounds(x, y, width, height);
    var idx := PixelIndex(x, y, width);
    Styled(AnsiCode(b.bright[idx]), b.screen[idx])
  }

  /** The printed frame, row by row; every colour code is one of the 24 grays 232..255. */
  function Picture(b: Buffers, width: nat, height: nat): (rows: seq<seq<Styled>>)
    requires Fits(b, width * height)
    ensures |rows| == height
    ensures forall y :: 0 <= y < height ==> |rows[y]| == width
    ensures forall y, x :: 0 <= y < height && 0 <= x < width ==> 232 <= rows[y][x].code <= 255
  {
    seq(height, y requires 0 <= y < height =>
      seq(width, x requires 0 <= x < width => Shown(b, width, height, x, y)))
  }

  /**
   * End to end: after a frame, the winning sample of a cell is what the terminal shows at the
   * cell's column and row, as its shade glyph in the gray of its brightness.
   */
  lemma WinnerIsShown(b: Buffers, ss: seq<Sample>, width: nat, height: nat, p: nat, k: nat)
    requires Fits(b, width * height) && p < width * height
    requires IsWinner(CLEAR_DEPTH, ss, width, height, p, k)
    ensures var at := Place(ss[k], width, height);
            at.OnScreen? &&
            Picture(Fold(Cleared(b), ss, width, height), width, height)[at.sy][at.sx] ==
              Styled(AnsiCode(ss[k].light), Glyph(ss[k].light))
  {
    var c := Cleared(b);
    assert c.zbuf[p] == CLEAR_DEPTH;
    NearestSampleWins(c, ss, width, height, p, k);
    var at := Place(ss[k], width, height);
    LandsAt(ss[k], width, height, at.sx, at.sy);
    PictureAt(Fold(c, ss, width, height), width, height, at.sx, at.sy);
  }

  /**
   * After a frame, a cell no sample reached shows a blank in the same gray it showed before the
   * frame: `bright` is not reset, so the cell keeps its previous brightness.
   */
  lemma UnreachedCellShown(b: Buffers, ss: seq<Sample>, width: nat, height: nat, x: nat, y: nat)
    requires Fits(b, width * height) && x < width && y < height
    requires forall j :: 0 <= j < |ss| ==> Place(ss[j], width, height) != OnScreen(x, y)
    ensures Picture(Fold(Cleared(b), ss, width, height), width, height)[y][x] ==
              Styled(Shown(b, width, height, x, y).code, BLANK)
  {
    PixelIndexInBounds(x, y, width, height);
    var p := PixelIndex(x, y, width);
    forall j | 0 <= j < |ss|
      ensures !Lands(ss[j], width, height, p)
    {
      LandsAt(ss[j], width, height, x, y);
    }
    UnreachedCellAfterFrame(b, ss, width, height, p);
    PictureAt(b, width, height, x, y);
    PictureAt(Fold(Cleared(b), ss, width, height), width, height, x, y);
  }

  /**
   * The drawing loop's read-out: column `x` of row `y` prints the glyph of buffer cell `y * width + x`
   * in the gray of that cell's brightness.
   */
  lemma PictureAt(b: Buffers, width: nat, height: nat, x: nat, y: nat)
    requires Fits(b, width * height) && x < width && y < height
    ensures y * width + x < width * height
    ensures Picture(b, width, height)[y][x] == Shown(b, width, height, x, y)
    ensures Picture(b, width, height)[y][x] ==
              Styled(AnsiCode(b.bright[y * width + x]), b.screen[y * width + x])
  {
    PixelIndexInBounds(x, y, width, height);
  }

  /**
   * A worked example on an 80-column, 22-row view: the default camera sees the surface point (0, 1, 0)
   * at camera coordinates (0, 1, 20), which projects to (40, 6.5) and so to column 40, row 6.
   */
  lemma ProjectionExample(L: Unit)
    ensures Place(Sample(0.0, 1.0, 20.0, L), 80, 22) == OnScreen(40, 6)
  {
    var s := Sample(0.0, 1.0, 20.0, L);
    assert ProjX(s, 80) == 40.0;
    assert ProjY(s, 22) == 6.5;
    assert Trunc(40.0) == 40 && Trunc(6.5) == 6;
  }
}
