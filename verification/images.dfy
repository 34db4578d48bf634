/** The image and blob records of the library (the `IVC` and `OVC` structs) and the
    two views of an image buffer used throughout the model: the flat byte buffer the
    library stores, indexed `y * bytesperline + x * channels`, and a grid of rows. */
module Images {

  /** An `unsigned char`. */
  type byte = v: int | 0 <= v < 256

  datatype Option<T> = None | Some(value: T)

  /** `IVC`: `data` is `None` for a null buffer. */
  datatype Image = Image(
    data: Option<seq<byte>>,
    width: int,
    height: int,
    channels: int,
    levels: int,
    bytesperline: int)

  /** What `vc_image_new` establishes for an allocated image of positive size:
      the stride is `width * channels` and the buffer holds `height` strides. */
  predicate WellFormed(img: Image) {
    img.data.Some? && img.width > 0 && img.height > 0 && img.channels > 0 ==>
      img.bytesperline == img.width * img.channels &&
      |img.data.value| == img.bytesperline * img.height
  }

  /** A pixel coordinate, `x` the column and `y` the row. */
  datatype Pos = Pos(x: int, y: int)

  /** `OVC`: bounding box, area, centre of mass, perimeter and label of one blob. */
  datatype Blob = Blob(
    x: int, y: int, width: int, height: int,
    area: int,
    xc: int, yc: int,
    perimeter: int,
    tag: int)  // the `label` field (`label` is a Dafny keyword)

  /** The record `calloc` produces once the label has been filled in. */
  function EmptyBlob(tag: int): Blob {
    Blob(0, 0, 0, 0, 0, 0, 0, 0, tag)
  }

  /** A single-channel image as `h` rows of `w` bytes each. */
  type Grid = seq<seq<byte>>

  predicate IsGrid(g: Grid, w: int, h: int) {
    |g| == h && forall y :: 0 <= y < h ==> |g[y]| == w
  }

  predicate InGrid(g: Grid, p: Pos) {
    0 <= p.y < |g| && 0 <= p.x < |g[p.y]|
  }

  /** The pixel at `p` of a grid, 0 outside it. */
  function At(g: Grid, p: Pos): byte {
    if InGrid(g, p) then g[p.y][p.x] else 0
  }

  lemma MulAtLeast(a: int, c: int)
    requires a >= 1 && c > 0
    ensures a * c >= c
    decreases a
  {
    if a > 1 {
      MulAtLeast(a - 1, c);
      assert a * c == (a - 1) * c + c;
    }
  }

  lemma MulLe(a: int, b: int, c: int)
    requires a <= b && c >= 0
    ensures a * c <= b * c
  {
    if a < b && c > 0 {
      MulAtLeast(b - a, c);
      assert b * c - a * c == (b - a) * c;
    }
  }

  /** Euclidean division is unique: `q * c + r` with `0 <= r < c` has quotient `q`
      and remainder `r`. */
  lemma DivModOf(q: int, c: int, r: int)
    requires c > 0 && 0 <= r < c
    ensures (q * c + r) / c == q && (q * c + r) % c == r
  {
    var i := q * c + r;
    assert i == (i / c) * c + i % c;
    if q > i / c {
      MulAtLeast(q - i / c, c);
    } else if i / c > q {
      MulAtLeast(i / c - q, c);
    }
  }

  lemma RowFits(w: nat, h: nat, y: int)
    requires 0 <= y < h
    ensures 0 <= y * w && y * w + w <= w * h
  {
    assert y + 1 <= h;
    assert (y + 1) * w <= h * w;
  }

  /** Pixel (x, y) of a single-channel `w`-by-`h` buffer lies inside it. */
  lemma IndexFits(w: nat, h: nat, x: int, y: int)
    requires 0 <= y < h && 0 <= x < w
    ensures 0 <= y * w + x < w * h
  {
    RowFits(w, h, y);
  }

  /** Splits a flat single-channel buffer into its rows (see `RowsAt`). */
  function Rows(d: seq<byte>, w: nat, h: nat): (g: Grid)
    requires |d| == w * h
    ensures IsGrid(g, w, h)
  {
    seq(h, y requires 0 <= y < h =>
      seq(w, x requires 0 <= x < w => IndexFits(w, h, x, y); d[y * w + x]))
  }

  /** Row `y`, column `x` of the grid view is byte `y * w + x` of the buffer. */
  lemma RowsAt(d: seq<byte>, w: nat, h: nat, x: int, y: int)
    requires |d| == w * h
    requires 0 <= y < h && 0 <= x < w
    ensures 0 <= y * w + x < |d|
    ensures Rows(d, w, h)[y][x] == d[y * w + x]
  {
    IndexFits(w, h, x, y);
  }

  /** The pixels of a single-channel image as a grid. */
  function GridOf(img: Image): (g: Grid)
    requires WellFormed(img) && img.data.Some? && img.width > 0 && img.height > 0 && img.channels == 1
    ensures IsGrid(g, img.width, img.height)
  {
    Rows(img.data.value, img.width, img.height)
  }

  /** Concatenates the rows of a grid into the flat buffer layout. */
  function Flatten(g: Grid): seq<byte> {
    if |g| == 0 then [] else Flatten(g[..|g| - 1]) + g[|g| - 1]
  }

  lemma {:induction false} FlattenLength(g: Grid, w: nat)
    requires IsGrid(g, w, |g|)
    ensures |Flatten(g)| == w * |g|
  {
    if |g| > 0 {
      var n := |g|;
      FlattenLength(g[..n - 1], w);
      assert w * n == w * (n - 1) + w;
    }
  }

  lemma {:induction false} FlattenAt(g: Grid, w: nat, x: int, y: int)
    requires IsGrid(g, w, |g|)
    requires 0 <= y < |g| && 0 <= x < w
    ensures |Flatten(g)| == w * |g|
    ensures 0 <= y * w + x < |Flatten(g)| && Flatten(g)[y * w + x] == g[y][x]
  {
    var n := |g|;
    FlattenLength(g, w);
    IndexFits(w, n, x, y);
    FlattenLength(g[..n - 1], w);
    assert Flatten(g) == Flatten(g[..n - 1]) + g[n - 1];
    if y < n - 1 {
      RowFits(w, n - 1, y);
      FlattenAt(g[..n - 1], w, x, y);
    } else {
      assert y * w == w * (n - 1);
    }
  }

  /** The flat buffer of a grid splits back into the same grid. */
  lemma RowsOfFlatten(g: Grid, w: nat, h: nat)
    requires IsGrid(g, w, h)
    ensures |Flatten(g)| == w * h
    ensures Rows(Flatten(g), w, h) == g
  {
    FlattenLength(g, w);
    var r := Rows(Flatten(g), w, h);
    forall y | 0 <= y < h
      ensures r[y] == g[y]
    {
      forall x | 0 <= x < w
        ensures r[y][x] == g[y][x]
      {
        FlattenAt(g, w, x, y);
        RowsAt(Flatten(g), w, h, x, y);
      }
    }
  }
}
