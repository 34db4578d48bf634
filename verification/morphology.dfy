/** Binary dilation and erosion (vc.c:1052-1144). Both visit every pixel and look
    at the square window of half-width `kernel / 2` around it, clipped to the
    image. Dilation writes 255 when some window pixel is exactly 255, and 0
    otherwise. Erosion writes 0 when some window pixel is 0, and 255 otherwise. */
module Morphology {
  import opened Images
  import opened PixelOps

  /** `kernel / 2` in C, which truncates toward zero. */
  function Half(kernel: int): int {
    if kernel >= 0 then kernel / 2 else -((-kernel) / 2)
  }

  /** `q` lies in the window of half-width `r` around `p`; the window is empty
      when `r` is negative. */
  predicate InWindow(p: Pos, q: Pos, r: int) {
    -r <= q.x - p.x <= r && -r <= q.y - p.y <= r
  }

  /** `q` is a pixel of the window around `p` that holds `v`. */
  predicate HitAt(g: Grid, p: Pos, r: int, v: byte, q: Pos) {
    InWindow(p, q, r) && InGrid(g, q) && At(g, q) == v
  }

  /** Some pixel of the clipped window around `p` holds `v`. */
  ghost predicate Hit(g: Grid, p: Pos, r: int, v: byte) {
    exists q :: HitAt(g, p, r, v, q)
  }

  /** The output pixel for target value `v`: `v` on a hit and `255 - v` otherwise.
      Dilation is `v = 255` and erosion is `v = 0`. */
  ghost function MorphAt(g: Grid, p: Pos, r: int, v: byte): byte {
    if Hit(g, p, r, v) then v else 255 - v
  }

  /** The two inner loops of both operators (lines 1076-1089 and 1122-1135): scans
      the window around `p` in raster order and reports whether some pixel inside
      the image holds `v`. */
  method WindowHas(g: Grid, w: int, h: int, p: Pos, r: int, v: byte) returns (found: bool)
    requires IsGrid(g, w, h)
    ensures found <==> Hit(g, p, r, v)
  {
    found := false;
    var yy := -r;
    while yy <= r
      invariant r < 0 || -r <= yy <= r + 1
      invariant found <==> exists q :: HitAt(g, p, r, v, q) && q.y < p.y + yy
      decreases r - yy
    {
      var xx := -r;
      while xx <= r
        invariant -r <= xx <= r + 1
        invariant found <==> exists q :: HitAt(g, p, r, v, q) && (q.y < p.y + yy || (q.y == p.y + yy && q.x < p.x + xx))
        decreases r - xx
      {
        var y', x' := p.y + yy, p.x + xx;
        if y' >= 0 && y' < h && x' >= 0 && x' < w {
          if g[y'][x'] == v {
            found := true;
            assert HitAt(g, p, r, v, Pos(x', y'));
          }
        }
        xx := xx + 1;
      }
      yy := yy + 1;
    }
  }

  /** The two outer loops: every pixel of a `w`-by-`h` grid gets `MorphAt`. */
  method Morph(g: Grid, w: nat, h: nat, r: int, v: byte) returns (out: Grid)
    requires IsGrid(g, w, h)
    ensures IsGrid(out, w, h)
    ensures forall p :: InGrid(g, p) ==> At(out, p) == MorphAt(g, p, r, v)
  {
    out := [];
    var y := 0;
    while y < h
      invariant 0 <= y <= h && |out| == y
      invariant forall y0 :: 0 <= y0 < y ==> |out[y0]| == w
      invariant forall p: Pos :: 0 <= p.y < y && 0 <= p.x < w ==> out[p.y][p.x] == MorphAt(g, p, r, v)
    {
      var row: seq<byte> := [];
      var x := 0;
      while x < w
        invariant 0 <= x <= w && |row| == x
        invariant forall x0 :: 0 <= x0 < x ==> row[x0] == MorphAt(g, Pos(x0, y), r, v)
      {
        var found := WindowHas(g, w, h, Pos(x, y), r, v);
        var pixel: byte := if found then v else 255 - v;
        row := row + [pixel];
        x := x + 1;
      }
      out := out + [row];
      y := y + 1;
    }
  }

  /** The checks both operators make (lines 1061-1066 and 1112-1117). */
  predicate MorphOk(src: Image, dst: Image) {
    && src.width > 0 && src.height > 0 && src.data.Some?
    && dst.width > 0 && dst.height > 0
    && src.channels == 1 && dst.channels == 1
  }

  /** One of the two operators on images: refused images leave `dst` alone;
      otherwise the buffer of `dst` receives the result for target value `v`. */
  method MorphImage(src: Image, dst: Image, kernel: int, v: byte) returns (ok: bool, out: Image)
    requires WellFormed(src) && WellFormed(dst)
    requires MorphOk(src, dst) ==> dst.data.Some? && dst.width == src.width && dst.height == src.height
    ensures ok <==> MorphOk(src, dst)
    ensures !ok ==> out == dst
    ensures ok ==> out == dst.(data := out.data) && out.data.Some?
    ensures ok ==> |out.data.value| == src.width * src.height
    ensures ok ==> var g := GridOf(src); var g' := Rows(out.data.value, src.width, src.height);
      forall p :: InGrid(g, p) ==> At(g', p) == MorphAt(g, p, Half(kernel), v)
  {
    if !MorphOk(src, dst) {
      return false, dst;
    }
    var g := GridOf(src);
    var res := Morph(g, src.width, src.height, Half(kernel), v);
    RowsOfFlatten(res, src.width, src.height);
    return true, dst.(data := Some(Flatten(res)));
  }

  /** `vc_binary_dilate` (vc.c:1052-1093). */
  method BinaryDilate(src: Image, dst: Image, kernel: int) returns (ok: bool, out: Image)
    requires WellFormed(src) && WellFormed(dst)
    requires MorphOk(src, dst) ==> dst.data.Some? && dst.width == src.width && dst.height == src.height
    ensures ok <==> MorphOk(src, dst)
    ensures !ok ==> out == dst
    ensures ok ==> out == dst.(data := out.data) && out.data.Some?
    ensures ok ==> |out.data.value| == src.width * src.height
    ensures ok ==> var g := GridOf(src); var g' := Rows(out.data.value, src.width, src.height);
      forall p :: InGrid(g, p) ==> (At(g', p) == 255 <==> Hit(g, p, Half(kernel), 255)) && (At(g', p) == 0 <==> !Hit(g, p, Half(kernel), 255))
  {
    ok, out := MorphImage(src, dst, kernel, 255);
  }

  /** `vc_binary_erode` (vc.c:1103-1144). */
  method BinaryErode(src: Image, dst: Image, kernel: int) returns (ok: bool, out: Image)
    requires WellFormed(src) && WellFormed(dst)
    requires MorphOk(src, dst) ==> dst.data.Some? && dst.width == src.width && dst.height == src.height
    ensures ok <==> MorphOk(src, dst)
    ensures !ok ==> out == dst
    ensures ok ==> out == dst.(data := out.data) && out.data.Some?
    ensures ok ==> |out.data.value| == src.width * src.height
    ensures ok ==> var g := GridOf(src); var g' := Rows(out.data.value, src.width, src.height);
      forall p :: InGrid(g, p) ==> (At(g', p) == 0 <==> Hit(g, p, Half(kernel), 0)) && (At(g', p) == 255 <==> !Hit(g, p, Half(kernel), 0))
  {
    ok, out := MorphImage(src, dst, kernel, 0);
  }

  /** With a non-negative kernel the window holds the pixel itself, so dilation
      keeps every 255 pixel and erosion keeps every 0 pixel. */
  lemma Extensive(g: Grid, p: Pos, kernel: int, v: byte)
    requires kernel >= 0 && InGrid(g, p) && At(g, p) == v
    ensures MorphAt(g, p, Half(kernel), v) == v
  {
    assert HitAt(g, p, Half(kernel), v, p);
  }

  /** A kernel of -2 or less gives a negative half-width: the window is empty,
      so every pixel misses (dilation writes 0 and erosion 255 everywhere). */
  lemma EmptyWindow(g: Grid, p: Pos, kernel: int, v: byte)
    requires kernel <= -2
    ensures MorphAt(g, p, Half(kernel), v) == 255 - v
  {
  }

  /** A larger window hits wherever a smaller one does. */
  lemma HitGrows(g: Grid, p: Pos, r: int, r': int, v: byte)
    requires r <= r' && Hit(g, p, r, v)
    ensures Hit(g, p, r', v)
  {
    var q :| HitAt(g, p, r, v, q);
    assert HitAt(g, p, r', v, q);
  }

  /** The binary negative of every pixel of a grid. */
  function FlipGrid(g: Grid): (f: Grid)
    ensures |f| == |g| && forall y :: 0 <= y < |g| ==> |f[y]| == |g[y]|
  {
    seq(|g|, y requires 0 <= y < |g| => seq(|g[y]|, x requires 0 <= x < |g[y]| => Flip(g[y][x])))
  }

  /** Erosion is dilation of the binary negative, negated: at every pixel of any
      grid, eroding equals flipping the dilation of the flipped grid. */
  lemma ErodeIsDualDilate(g: Grid, p: Pos, r: int)
    requires InGrid(g, p)
    ensures MorphAt(g, p, r, 0) == Flip(MorphAt(FlipGrid(g), p, r, 255))
  {
    var f := FlipGrid(g);
    if Hit(g, p, r, 0) {
      var q :| HitAt(g, p, r, 0, q);
      assert HitAt(f, p, r, 255, q);
    }
    if Hit(f, p, r, 255) {
      var q :| HitAt(f, p, r, 255, q);
      assert HitAt(g, p, r, 0, q);
    }
  }
}
