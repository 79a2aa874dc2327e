/**
 * The frame buffers of `main` as the program keeps them: three vectors of `width * height` cells
 * that every frame clears, depth-tests mesh samples into, and prints. Each method is proved
 * against the value-level specification in `ZBuffer`.
 */
module Frame {
  import opened Numeric
  import opened Shading
  import opened ZBuffer

  class FrameBuffers {
    const width: nat
    const height: nat
    const screen: array<char>
    const zbuf: array<real>
    const bright: array<real>

    /** Every buffer holds one cell per pixel, and the two depth-sized buffers are distinct. */
    predicate Valid()
    {
      screen.Length == width * height && zbuf.Length == width * height &&
      bright.Length == width * height && zbuf != bright
    }

    /** The three buffers as values. */
    function Contents(): (b: Buffers)
      reads screen, zbuf, bright
    {
      Buffers(screen[..], zbuf[..], bright[..])
    }

    /** `std::vector<T> v(WIDTH * HEIGHT)`: value-initialised, so every char is NUL and every float 0. */
    constructor (w: nat, h: nat)
      ensures Valid() && width == w && height == h
      ensures fresh(screen) && fresh(zbuf) && fresh(bright)
      ensures Contents() == Buffers(seq(w * h, _ => '\0'), seq(w * h, _ => 0.0), seq(w * h, _ => 0.0))
    {
      width, height := w, h;
      screen := new char[w * h](_ => '\0');
      zbuf := new real[w * h](_ => 0.0);
      bright := new real[w * h](_ => 0.0);
    }

    /** The two `std::fill` calls at the top of each frame. */
    method Reset()
      requires Valid()
      modifies screen, zbuf
      ensures Valid()
      ensures Contents() == Cleared(old(Contents()))
    {
      for i := 0 to screen.Length
        invariant forall p :: 0 <= p < i ==> screen[p] == BLANK
      {
        screen[i] := BLANK;
      }
      for i := 0 to zbuf.Length
        invariant forall p :: 0 <= p < i ==> zbuf[p] == CLEAR_DEPTH
        invariant forall p :: 0 <= p < screen.Length ==> screen[p] == BLANK
      {
        zbuf[i] := CLEAR_DEPTH;
      }
      assert screen[..] == seq(screen.Length, _ => BLANK);
      assert zbuf[..] == seq(zbuf.Length, _ => CLEAR_DEPTH);
    }

    /**
     * The body of the inner mesh loop for one sample: near-clip cull, projection, screen-bounds cull,
     * then the strict depth test that writes depth, brightness and glyph together.
     */
    method Plot(s: Sample)
      requires Valid()
      modifies screen, zbuf, bright
      ensures Valid()
      ensures Contents() == Apply(old(Contents()), s, width, height)
    {
      if s.cz <= NEAR_CLIP_Z {
        assert Target(s, width, height) == None;
        return;
      }
      var sx := Trunc(ProjX(s, width));
      var sy := Trunc(ProjY(s, height));
      if sx < 0 || sx >= width || sy < 0 || sy >= height {
        assert Target(s, width, height) == None;
        return;
      }
      assert Place(s, width, height) == OnScreen(sx, sy);
      PixelIndexInBounds(sx, sy, width, height);
      var idx := sy * width + sx;
      assert Target(s, width, height) == Some(idx);
      if s.cz < zbuf[idx] {
        zbuf[idx] := s.cz;
        bright[idx] := s.light;
        var shadeIdx := ShadeIndex(s.light);
        screen[idx] := SHADES[shadeIdx];
      }
    }

    /** The inner `iz` loop: the samples of one mesh row plotted in order. */
    method RenderRow(row: seq<Sample>)
      requires Valid()
      modifies screen, zbuf, bright
      ensures Valid()
      ensures Contents() == Fold(old(Contents()), row, width, height)
    {
      ghost var start := Contents();
      for iz := 0 to |row|
        invariant Valid()
        invariant Contents() == Fold(start, row[..iz], width, height)
      {
        Plot(row[iz]);
        FoldSnoc(start, row[..iz], row[iz], width, height);
        assert row[..iz + 1] == row[..iz] + [row[iz]];
      }
      assert row[..|row|] == row;
    }

    /** The nested `ix`/`iz` mesh loops: every sample plotted, row by row. */
    method Render(mesh: seq<seq<Sample>>)
      requires Valid()
      modifies screen, zbuf, bright
      ensures Valid()
      ensures Contents() == Fold(old(Contents()), Flatten(mesh), width, height)
    {
      ghost var start := Contents();
      for ix := 0 to |mesh|
        invariant Valid()
        invariant Contents() == Fold(start, Flatten(mesh[..ix]), width, height)
      {
        RenderRow(mesh[ix]);
        FoldAppend(start, Flatten(mesh[..ix]), mesh[ix], width, height);
        FlattenSnoc(mesh, ix);
      }
      assert mesh[..|mesh|] == mesh;
    }

    /** One frame of the animation loop up to printing: clear, then render the mesh. */
    method DrawFrame(mesh: seq<seq<Sample>>)
      requires Valid()
      modifies screen, zbuf, bright
      ensures Valid()
      ensures Contents() == Fold(Cleared(old(Contents())), Flatten(mesh), width, height)
    {
      Reset();
      Render(mesh);
    }

    /** The drawing loop: row by row, each cell's gray code and glyph, as `std::cout` receives them. */
    method Present() returns (rows: seq<seq<Styled>>)
      requires Valid()
      ensures rows == Picture(Contents(), width, height)
    {
      ghost var picture := Picture(Contents(), width, height);
      rows := [];
      for y := 0 to height
        invariant rows == picture[..y]
      {
        var row := [];
        for x := 0 to width
          invariant row == picture[y][..x]
        {
          PixelIndexInBounds(x, y, width, height);
          var idx := y * width + x;
          var ansiCode := AnsiCode(bright[idx]);
          row := row + [Styled(ansiCode, screen[idx])];
          PictureAt(Contents(), width, height, x, y);
          assert picture[y][..x + 1] == picture[y][..x] + [picture[y][x]];
        }
        assert picture[y][..width] == picture[y];
        assert picture[..y + 1] == picture[..y] + [picture[y]];
        rows := rows + [row];
      }
    }
  }
}
