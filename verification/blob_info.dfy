/** The blob metrics of `vc_binary_blob_info` (vc.c:1502-1574). For every blob
    record it scans the interior of a label image for the pixels holding the
    record's label and fills in area, bounding box, centre of mass and a
    contour-pixel perimeter. */
module BlobInfo {
  import opened Images
  import opened Connectivity

  /** An interior pixel holding `tag`: one the scan counts. */
  predicate Member(g: Grid, tag: int, p: Pos) {
    Interior(g, p) && At(g, p) == tag
  }

  /** A pixel with a 4-neighbour holding something other than `tag`: a contour
      pixel (lines 1552-1557). */
  predicate Contour(g: Grid, tag: int, p: Pos) {
    || At(g, Pos(p.x - 1, p.y)) != tag || At(g, Pos(p.x + 1, p.y)) != tag
    || At(g, Pos(p.x, p.y - 1)) != tag || At(g, Pos(p.x, p.y + 1)) != tag
  }

  /** The members in row `y` left of column `x`, left to right. */
  function RowMembers(g: Grid, tag: int, y: int, x: int): seq<Pos>
    decreases x
  {
    if x <= 1 then [] else
      RowMembers(g, tag, y, x - 1) + (if Member(g, tag, Pos(x - 1, y)) then [Pos(x - 1, y)] else [])
  }

  /** The members in the rows above row `y` of a `w`-wide grid, in raster order. */
  function MembersAbove(g: Grid, w: int, tag: int, y: int): seq<Pos>
    decreases y
  {
    if y <= 1 then [] else MembersAbove(g, w, tag, y - 1) + RowMembers(g, tag, y - 1, w - 1)
  }

  /** Every member of a `w`-by-`h` grid, in raster order. */
  function MemberList(g: Grid, w: int, h: int, tag: int): seq<Pos> {
    MembersAbove(g, w, tag, h - 1)
  }

  /** The set of pixels the metrics of label `tag` are taken over. */
  ghost function MemberSet(g: Grid, tag: int): set<Pos> {
    set y, x | 0 <= y < |g| && 0 <= x < |g[y]| && Member(g, tag, Pos(x, y)) :: Pos(x, y)
  }

  /** Sum of the columns, sum of the rows, number of contour pixels. */
  function SumX(s: seq<Pos>): int {
    if |s| == 0 then 0 else SumX(s[..|s| - 1]) + s[|s| - 1].x
  }

  function SumY(s: seq<Pos>): int {
    if |s| == 0 then 0 else SumY(s[..|s| - 1]) + s[|s| - 1].y
  }

  function ContourCount(g: Grid, tag: int, s: seq<Pos>): (c: nat)
    ensures c <= |s|
  {
    if |s| == 0 then 0 else ContourCount(g, tag, s[..|s| - 1]) + (if Contour(g, tag, s[|s| - 1]) then 1 else 0)
  }

  /** `MAX(area, 1)`: the divisor of the centre of mass. */
  function AtLeastOne(n: int): int {
    if n > 1 then n else 1
  }

  /** `b'` is `b` measured over the members `s` of a `w`-by-`h` grid: area,
      centre of mass, accumulated perimeter, and a bounding box that is tight
      around `s`, or the initial `(w-1, h-1)` corner with sizes `2-w`, `2-h` when
      `s` is empty. */
  ghost predicate MeasuredOver(g: Grid, w: int, h: int, b: Blob, b': Blob, s: seq<Pos>) {
    && b'.tag == b.tag
    && b'.area == |s|
    && b'.perimeter == b.perimeter + ContourCount(g, b.tag, s)
    && b'.xc == SumX(s) / AtLeastOne(|s|)
    && b'.yc == SumY(s) / AtLeastOne(|s|)
    && (|s| == 0 ==> b'.x == w - 1 && b'.y == h - 1 && b'.width == 2 - w && b'.height == 2 - h)
    && (|s| > 0 ==> TightBox(b', s))
  }

  /** Every pixel of `s` lies in the box of `b`, and each side of the box touches one. */
  ghost predicate TightBox(b: Blob, s: seq<Pos>) {
    && (forall p :: p in s ==> b.x <= p.x <= b.x + b.width - 1 && b.y <= p.y <= b.y + b.height - 1)
    && (exists p :: p in s && p.x == b.x)
    && (exists p :: p in s && p.x == b.x + b.width - 1)
    && (exists p :: p in s && p.y == b.y)
    && (exists p :: p in s && p.y == b.y + b.height - 1)
  }

  ghost predicate Measured(g: Grid, w: int, h: int, b: Blob, b': Blob) {
    MeasuredOver(g, w, h, b, b', MemberList(g, w, h, b.tag))
  }

  /** The running values of the scan for one blob (lines 1521-1529). */
  datatype Acc = Acc(area: int, sumx: int, sumy: int, perimeter: int,
    xmin: int, ymin: int, xmax: int, ymax: int)

  /** `acc` holds the running values once the members in `s` were visited: the
      counts and sums over `s`, and a box tight around `s` or still at its
      initial corners. */
  ghost predicate Accumulated(g: Grid, w: int, h: int, b: Blob, s: seq<Pos>, acc: Acc) {
    && acc.area == |s| && acc.sumx == SumX(s) && acc.sumy == SumY(s)
    && acc.perimeter == b.perimeter + ContourCount(g, b.tag, s)
    && (|s| == 0 ==> acc.xmin == w - 1 && acc.ymin == h - 1 && acc.xmax == 0 && acc.ymax == 0)
    && (|s| > 0 ==>
      && (forall p :: p in s ==> acc.xmin <= p.x <= acc.xmax && acc.ymin <= p.y <= acc.ymax)
      && (exists p :: p in s && p.x == acc.xmin)
      && (exists p :: p in s && p.x == acc.xmax)
      && (exists p :: p in s && p.y == acc.ymin)
      && (exists p :: p in s && p.y == acc.ymax))
  }

  /** The update for one member at `p` (lines 1540-1557); `contour` says whether
      one of its 4-neighbours holds another value. */
  function Visit(acc: Acc, p: Pos, contour: bool): Acc {
    Acc(acc.area + 1, acc.sumx + p.x, acc.sumy + p.y,
      acc.perimeter + (if contour then 1 else 0),
      if acc.xmin > p.x then p.x else acc.xmin, if acc.ymin > p.y then p.y else acc.ymin,
      if acc.xmax < p.x then p.x else acc.xmax, if acc.ymax < p.y then p.y else acc.ymax)
  }

  /** Visiting a member away from the border keeps the running values right. */
  lemma VisitStep(g: Grid, w: int, h: int, b: Blob, s: seq<Pos>, acc: Acc, p: Pos)
    requires Accumulated(g, w, h, b, s, acc)
    requires 1 <= p.x < w - 1 && 1 <= p.y < h - 1
    ensures Accumulated(g, w, h, b, s + [p], Visit(acc, p, Contour(g, b.tag, p)))
  {
    var s' := s + [p];
    assert s'[..|s|] == s;
    assert p in s';
    forall q | q in s ensures q in s' { }
  }

  /** The box, area, centre and perimeter the scan stores (lines 1563-1569). */
  function Store(b: Blob, acc: Acc): Blob {
    var d := if acc.area > 1 then acc.area else 1;
    b.(x := acc.xmin, y := acc.ymin, width := acc.xmax - acc.xmin + 1, height := acc.ymax - acc.ymin + 1,
      area := acc.area, xc := acc.sumx / d, yc := acc.sumy / d, perimeter := acc.perimeter)
  }

  /** Storing running values that are right for `s` measures the record over `s`. */
  lemma StoreMeasures(g: Grid, w: int, h: int, b: Blob, s: seq<Pos>, acc: Acc)
    requires Accumulated(g, w, h, b, s, acc)
    ensures MeasuredOver(g, w, h, b, Store(b, acc), s)
  {
  }

  /** Inside the grid and away from its border, the tests of lines 1538 and
      1554 read the pixel and its 4-neighbours directly. */
  lemma ReadsInside(g: Grid, w: int, h: int, tag: int, x: int, y: int)
    requires IsGrid(g, w, h) && 1 <= x < w - 1 && 1 <= y < h - 1
    ensures Member(g, tag, Pos(x, y)) <==> g[y][x] == tag
    ensures Contour(g, tag, Pos(x, y)) <==>
      g[y][x - 1] != tag || g[y][x + 1] != tag || g[y - 1][x] != tag || g[y + 1][x] != tag
  {
  }

  lemma AppendAssoc(s: seq<Pos>, r: seq<Pos>, t: seq<Pos>)
    ensures (s + r) + t == s + (r + t)
  {
  }

  /** What the body of the innermost loop does to the running values at pixel
      `(x, y)` (lines 1538-1558). */
  function VisitPixel(g: Grid, w: int, h: int, tag: int, x: int, y: int, acc: Acc): Acc
    requires IsGrid(g, w, h) && 1 <= x < w - 1 && 1 <= y < h - 1
  {
    if g[y][x] == tag then
      Visit(acc, Pos(x, y), g[y][x - 1] != tag || g[y][x + 1] != tag || g[y - 1][x] != tag || g[y + 1][x] != tag)
    else acc
  }

  /** Visiting pixel `(x, y)` keeps the running values right for the members
      seen so far. */
  lemma RowStep(g: Grid, w: int, h: int, b: Blob, s: seq<Pos>, x: int, y: int, acc: Acc)
    requires IsGrid(g, w, h) && 1 <= x < w - 1 && 1 <= y < h - 1
    requires Accumulated(g, w, h, b, s + RowMembers(g, b.tag, y, x), acc)
    ensures Accumulated(g, w, h, b, s + RowMembers(g, b.tag, y, x + 1), VisitPixel(g, w, h, b.tag, x, y, acc))
  {
    var r, p := RowMembers(g, b.tag, y, x), Pos(x, y);
    ReadsInside(g, w, h, b.tag, x, y);
    if g[y][x] == b.tag {
      assert RowMembers(g, b.tag, y, x + 1) == r + [p];
      VisitStep(g, w, h, b, s + r, acc, p);
      AppendAssoc(s, r, [p]);
    } else {
      assert RowMembers(g, b.tag, y, x + 1) == r;
    }
  }

  /** The innermost loop: visits row `y` from column 1 to `w - 2`. */
  method MeasureRow(g: Grid, w: int, h: int, b: Blob, y: int, acc: Acc, ghost s: seq<Pos>) returns (acc': Acc)
    requires IsGrid(g, w, h) && 1 <= y < h - 1
    requires Accumulated(g, w, h, b, s, acc)
    ensures Accumulated(g, w, h, b, s + RowMembers(g, b.tag, y, w - 1), acc')
  {
    acc' := acc;
    assert s + RowMembers(g, b.tag, y, 1) == s;
    var x := 1;
    while x < w - 1
      invariant 1 <= x && (w >= 2 ==> x <= w - 1) && (w < 2 ==> x == 1)
      invariant Accumulated(g, w, h, b, s + RowMembers(g, b.tag, y, x), acc')
    {
      RowStep(g, w, h, b, s, x, y, acc');
      acc' := VisitPixel(g, w, h, b.tag, x, y, acc');
      x := x + 1;
    }
  }

  /** The loops for one blob record (lines 1521-1569). */
  method Measure(g: Grid, w: int, h: int, b: Blob) returns (b': Blob)
    requires IsGrid(g, w, h)
    ensures Measured(g, w, h, b, b')
  {
    var acc := Acc(0, 0, 0, b.perimeter, w - 1, h - 1, 0, 0);
    var y := 1;
    while y < h - 1
      invariant 1 <= y && (h >= 2 ==> y <= h - 1) && (h < 2 ==> y == 1)
      invariant Accumulated(g, w, h, b, MembersAbove(g, w, b.tag, y), acc)
    {
      acc := MeasureRow(g, w, h, b, y, acc, MembersAbove(g, w, b.tag, y));
      y := y + 1;
    }
    assert MembersAbove(g, w, b.tag, y) == MemberList(g, w, h, b.tag);
    StoreMeasures(g, w, h, b, MemberList(g, w, h, b.tag), acc);
    b' := Store(b, acc);
  }

  /** The checks of lines 1515-1516. */
  predicate InfoOk(src: Image) {
    src.width > 0 && src.height > 0 && src.data.Some? && src.channels == 1
  }

  /** `vc_binary_blob_info`: on an acceptable label image, measures the first
      `nblobs` records and leaves the rest alone; otherwise changes nothing. */
  method BinaryBlobInfo(src: Image, blobs: seq<Blob>, nblobs: int) returns (ok: bool, blobs': seq<Blob>)
    requires WellFormed(src)
    requires InfoOk(src) ==> nblobs <= |blobs|
    ensures ok <==> InfoOk(src)
    ensures !ok ==> blobs' == blobs
    ensures |blobs'| == |blobs|
    ensures ok ==> forall i :: 0 <= i < |blobs| ==>
      if i < nblobs then Measured(GridOf(src), src.width, src.height, blobs[i], blobs'[i]) else blobs'[i] == blobs[i]
  {
    if !InfoOk(src) {
      return false, blobs;
    }
    var g := GridOf(src);
    blobs' := blobs;
    var i := 0;
    while i < nblobs
      invariant 0 <= i && (nblobs >= 0 ==> i <= nblobs) && (nblobs < 0 ==> i == 0)
      invariant |blobs'| == |blobs|
      invariant forall j :: 0 <= j < |blobs| ==>
        if j < i then Measured(g, src.width, src.height, blobs[j], blobs'[j]) else blobs'[j] == blobs[j]
    {
      var b := Measure(g, src.width, src.height, blobs[i]);
      blobs' := blobs'[i := b];
      i := i + 1;
    }
    return true, blobs';
  }

  /** The members of a row are, in order, exactly the members left of column `x`. */
  lemma {:induction false} RowMembersSpec(g: Grid, tag: int, y: int, x: int)
    ensures forall p :: p in RowMembers(g, tag, y, x) <==> Member(g, tag, p) && p.y == y && p.x < x
    ensures forall i, j :: 0 <= i < j < |RowMembers(g, tag, y, x)| ==>
      Before(RowMembers(g, tag, y, x)[i], RowMembers(g, tag, y, x)[j])
    decreases x
  {
    if x > 1 {
      RowMembersSpec(g, tag, y, x - 1);
      var prev, q := RowMembers(g, tag, y, x - 1), Pos(x - 1, y);
      var tail := if Member(g, tag, q) then [q] else [];
      assert RowMembers(g, tag, y, x) == prev + tail;
      forall i | 0 <= i < |prev|
        ensures prev[i].y == y && prev[i].x < x - 1
      {
        assert prev[i] in prev;
      }
    }
  }

  /** The members of the rows above `y` are, in raster order, exactly the members
      above that row. */
  lemma {:induction false} MembersAboveSpec(g: Grid, w: int, tag: int, y: int)
    requires IsGrid(g, w, |g|)
    ensures forall p :: p in MembersAbove(g, w, tag, y) <==> Member(g, tag, p) && p.y < y
    ensures forall i, j :: 0 <= i < j < |MembersAbove(g, w, tag, y)| ==>
      Before(MembersAbove(g, w, tag, y)[i], MembersAbove(g, w, tag, y)[j])
    decreases y
  {
    if y > 1 {
      MembersAboveSpec(g, w, tag, y - 1);
      RowMembersSpec(g, tag, y - 1, w - 1);
      var a, r := MembersAbove(g, w, tag, y - 1), RowMembers(g, tag, y - 1, w - 1);
      forall p | Member(g, tag, p) && p.y == y - 1
        ensures p in r
      {
      }
      forall i, j | 0 <= i < j < |a + r|
        ensures Before((a + r)[i], (a + r)[j])
      {
        if j >= |a| && i < |a| {
          assert a[i] in a && r[j - |a|] in r;
        }
      }
    }
  }

  /** A sequence strictly increasing in raster order has no repeats. */
  lemma {:induction false} SortedCard(s: seq<Pos>)
    requires forall i, j :: 0 <= i < j < |s| ==> Before(s[i], s[j])
    ensures |set p | p in s| == |s|
  {
    if |s| > 0 {
      var n := |s|;
      var init := s[..n - 1];
      SortedCard(init);
      assert (set p | p in s) == (set p | p in init) + {s[n - 1]};
      forall i | 0 <= i < n - 1
        ensures init[i] != s[n - 1]
      {
        assert Before(s[i], s[n - 1]);
      }
      assert s[n - 1] !in (set p | p in init);
    }
  }

  /** The member list of a label holds every interior pixel with that label once,
      in raster order; so the area `vc_binary_blob_info` reports is the number of
      interior pixels holding the label. */
  lemma MemberListSpec(g: Grid, w: int, h: int, tag: int)
    requires IsGrid(g, w, h)
    ensures forall p :: p in MemberList(g, w, h, tag) <==> Member(g, tag, p)
    ensures forall i, j :: 0 <= i < j < |MemberList(g, w, h, tag)| ==>
      Before(MemberList(g, w, h, tag)[i], MemberList(g, w, h, tag)[j])
    ensures |MemberList(g, w, h, tag)| == |MemberSet(g, tag)|
  {
    var s := MemberList(g, w, h, tag);
    MembersAboveSpec(g, w, tag, h - 1);
    SortedCard(s);
    assert (set p | p in s) == MemberSet(g, tag);
  }

  /** The sum of the columns of `s` lies between `|s|` times their smallest and
      largest values; likewise the sum of the rows. */
  lemma {:induction false} SumXBounds(s: seq<Pos>, lo: int, hi: int)
    requires forall p :: p in s ==> lo <= p.x <= hi
    ensures |s| * lo <= SumX(s) <= |s| * hi
  {
    if |s| > 0 {
      var n := |s|;
      var init := s[..n - 1];
      forall p | p in init ensures p in s { }
      SumXBounds(init, lo, hi);
      assert s[n - 1] in s;
      assert n * lo == (n - 1) * lo + lo;
      assert n * hi == (n - 1) * hi + hi;
    }
  }

  lemma {:induction false} SumYBounds(s: seq<Pos>, lo: int, hi: int)
    requires forall p :: p in s ==> lo <= p.y <= hi
    ensures |s| * lo <= SumY(s) <= |s| * hi
  {
    if |s| > 0 {
      var n := |s|;
      var init := s[..n - 1];
      forall p | p in init ensures p in s { }
      SumYBounds(init, lo, hi);
      assert s[n - 1] in s;
      assert n * lo == (n - 1) * lo + lo;
      assert n * hi == (n - 1) * hi + hi;
    }
  }

  /** A quotient of a sum between `n * lo` and `n * hi` lies between `lo` and `hi`. */
  lemma QuotientBounds(sum: int, n: int, lo: int, hi: int)
    requires n > 0 && n * lo <= sum <= n * hi
    ensures lo <= sum / n <= hi
  {
    var q, r := sum / n, sum % n;
    assert sum == q * n + r;
    assert (q + 1) * n == q * n + n;
    assert (hi + 1) * n == hi * n + n;
    if q < lo {
      MulLe(q + 1, lo, n);
    }
    if q > hi {
      MulLe(hi + 1, q, n);
    }
  }

  /** The centre of mass of a nonempty blob lies inside its bounding box, and the
      perimeter grows by at most the area. */
  lemma CentreInBox(g: Grid, w: int, h: int, b: Blob, b': Blob)
    requires Measured(g, w, h, b, b') && b'.area > 0
    ensures b'.x <= b'.xc <= b'.x + b'.width - 1
    ensures b'.y <= b'.yc <= b'.y + b'.height - 1
    ensures b.perimeter <= b'.perimeter <= b.perimeter + b'.area
  {
    var s := MemberList(g, w, h, b.tag);
    SumXBounds(s, b'.x, b'.x + b'.width - 1);
    SumYBounds(s, b'.y, b'.y + b'.height - 1);
    QuotientBounds(SumX(s), |s|, b'.x, b'.x + b'.width - 1);
    QuotientBounds(SumY(s), |s|, b'.y, b'.y + b'.height - 1);
  }

  /** A label that holds no interior pixel gets area 0, centre (0, 0), the corner
      `(w-1, h-1)` and sizes `2-w` and `2-h`, and keeps its perimeter. */
  lemma AbsentLabel(g: Grid, w: int, h: int, b: Blob, b': Blob)
    requires IsGrid(g, w, h) && Measured(g, w, h, b, b')
    requires forall p :: Interior(g, p) ==> At(g, p) != b.tag
    ensures b'.area == 0 && b'.xc == 0 && b'.yc == 0 && b'.perimeter == b.perimeter
    ensures b'.x == w - 1 && b'.y == h - 1 && b'.width == 2 - w && b'.height == 2 - h
  {
    MemberListSpec(g, w, h, b.tag);
  }
}
