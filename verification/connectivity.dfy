/** What a correct blob labelling means, stated independently of the labelling
    algorithm: the foreground the labeller sees, 8-connectivity through it, raster
    order, and the "start" pixels at which the scan must open a fresh label. */
module Connectivity {
  import opened Images

  /** Rows 1..h-2 and columns 1..w-2: the only pixels the labeller and the blob
      metrics look at; the one-pixel frame around them is forced to background. */
  predicate Interior(m: Grid, p: Pos) {
    1 <= p.y < |m| - 1 && 1 <= p.x < |m[p.y]| - 1
  }

  /** A foreground pixel as the labeller sees it: interior and nonzero in the mask. */
  predicate Fg(m: Grid, p: Pos) {
    Interior(m, p) && m[p.y][p.x] != 0
  }

  /** 8-adjacency: distinct pixels that touch by an edge or a corner. */
  predicate Adjacent(p: Pos, q: Pos) {
    p != q && -1 <= p.x - q.x <= 1 && -1 <= p.y - q.y <= 1
  }

  /** A walk through foreground pixels, each step to an 8-adjacent pixel. */
  predicate IsPath(m: Grid, path: seq<Pos>) {
    && |path| > 0
    && (forall i :: 0 <= i < |path| ==> Fg(m, path[i]))
    && (forall i :: 1 <= i < |path| ==> Adjacent(path[i - 1], path[i]))
  }

  /** `p` and `q` lie in the same blob. */
  ghost predicate Connected(m: Grid, p: Pos, q: Pos) {
    exists path :: IsPath(m, path) && path[0] == p && path[|path| - 1] == q
  }

  lemma ConnectedFg(m: Grid, p: Pos, q: Pos)
    requires Connected(m, p, q)
    ensures Fg(m, p) && Fg(m, q)
  {
    var path :| IsPath(m, path) && path[0] == p && path[|path| - 1] == q;
  }

  lemma ConnectedRefl(m: Grid, p: Pos)
    requires Fg(m, p)
    ensures Connected(m, p, p)
  {
    assert IsPath(m, [p]);
  }

  lemma ConnectedAdjacent(m: Grid, p: Pos, q: Pos)
    requires Fg(m, p) && Fg(m, q) && Adjacent(p, q)
    ensures Connected(m, p, q)
  {
    assert IsPath(m, [p, q]);
  }

  lemma ConnectedSym(m: Grid, p: Pos, q: Pos)
    requires Connected(m, p, q)
    ensures Connected(m, q, p)
  {
    var path :| IsPath(m, path) && path[0] == p && path[|path| - 1] == q;
    var n := |path|;
    var rev := seq(n, i requires 0 <= i < n => path[n - 1 - i]);
    forall i | 1 <= i < n
      ensures Adjacent(rev[i - 1], rev[i])
    {
      assert Adjacent(path[n - 1 - i], path[n - i]);
    }
    assert IsPath(m, rev);
  }

  lemma ConnectedTrans(m: Grid, p: Pos, q: Pos, r: Pos)
    requires Connected(m, p, q) && Connected(m, q, r)
    ensures Connected(m, p, r)
  {
    var p1 :| IsPath(m, p1) && p1[0] == p && p1[|p1| - 1] == q;
    var p2 :| IsPath(m, p2) && p2[0] == q && p2[|p2| - 1] == r;
    var path := p1 + p2[1..];
    forall i | 1 <= i < |path|
      ensures Adjacent(path[i - 1], path[i])
    {
      if i >= |p1| {
        assert path[i] == p2[i - |p1| + 1];
        assert path[i - 1] == p2[i - |p1|];
      }
    }
    assert IsPath(m, path);
  }

  /** Strict raster order: row by row, left to right. */
  predicate Before(p: Pos, q: Pos) {
    p.y < q.y || (p.y == q.y && p.x < q.x)
  }

  /** The causal neighbours of `p` the scan inspects: up-left, up, up-right, left. */
  function NeighbourA(p: Pos): Pos { Pos(p.x - 1, p.y - 1) }
  function NeighbourB(p: Pos): Pos { Pos(p.x, p.y - 1) }
  function NeighbourC(p: Pos): Pos { Pos(p.x + 1, p.y - 1) }
  function NeighbourD(p: Pos): Pos { Pos(p.x - 1, p.y) }

  /** The pixels 8-adjacent to `p` that precede it in raster order are exactly its
      four causal neighbours, so one raster scan sees every adjacency once. */
  lemma CausalNeighbours(p: Pos, q: Pos)
    ensures Adjacent(q, p) && Before(q, p) <==>
      q == NeighbourA(p) || q == NeighbourB(p) || q == NeighbourC(p) || q == NeighbourD(p)
  {
  }

  /** A foreground pixel none of whose causal neighbours is foreground: the first
      pixel of its blob met so far, where the scan allocates a new label. */
  predicate IsStart(m: Grid, p: Pos) {
    && Fg(m, p)
    && !Fg(m, NeighbourA(p)) && !Fg(m, NeighbourB(p))
    && !Fg(m, NeighbourC(p)) && !Fg(m, NeighbourD(p))
  }

  /** Start pixels in row `y` at columns `0..n-1`. */
  function StartsInRow(m: Grid, y: int, n: int): nat
    decreases n
  {
    if n <= 0 then 0
    else StartsInRow(m, y, n - 1) + (if IsStart(m, Pos(n - 1, y)) then 1 else 0)
  }

  /** Start pixels in rows `0..y-1` of a `w`-wide mask. */
  function StartsAbove(m: Grid, w: int, y: int): nat
    decreases y
  {
    if y <= 0 then 0 else StartsAbove(m, w, y - 1) + StartsInRow(m, y - 1, w)
  }

  /** Start pixels strictly before `p` in raster order. */
  function StartsBefore(m: Grid, w: int, p: Pos): nat {
    StartsAbove(m, w, p.y) + StartsInRow(m, p.y, p.x)
  }

  /** The number of provisional labels one scan of the mask allocates. */
  function ProvisionalCount(m: Grid, w: int): nat {
    StartsAbove(m, w, |m|)
  }

  /** Moving one pixel right counts the pixel just passed. */
  lemma StartsBeforeNext(m: Grid, w: int, p: Pos)
    requires 0 <= p.x
    ensures StartsBefore(m, w, Pos(p.x + 1, p.y)) == StartsBefore(m, w, p) + (if IsStart(m, p) then 1 else 0)
  {
    assert Pos(p.x + 1 - 1, p.y) == p;
  }

  lemma {:induction false} StartsInRowMono(m: Grid, y: int, n: int, n': int)
    requires n <= n'
    ensures StartsInRow(m, y, n) <= StartsInRow(m, y, n')
    decreases n' - n
  {
    if n < n' {
      StartsInRowMono(m, y, n, n' - 1);
    }
  }

  /** Columns from `w - 1` on hold no start pixel. */
  lemma {:induction false} StartsInRowTail(m: Grid, w: int, y: int, n: int)
    requires IsGrid(m, w, |m|)
    requires n >= w - 1
    ensures StartsInRow(m, y, n) == StartsInRow(m, y, w)
    decreases if n >= w then n - w else w - n
  {
    if n > w {
      StartsInRowTail(m, w, y, n - 1);
    } else if n == w - 1 {
      assert !IsStart(m, Pos(w - 1, y));
    }
  }

  /** The first and last rows hold no start pixel. */
  lemma {:induction false} StartsInFrameRow(m: Grid, y: int, n: int)
    requires y <= 0 || y >= |m| - 1
    ensures StartsInRow(m, y, n) == 0
    decreases n
  {
    if n > 0 {
      StartsInFrameRow(m, y, n - 1);
    }
  }

  lemma {:induction false} StartsAboveMono(m: Grid, w: int, y: int, y': int)
    requires y <= y'
    ensures StartsAbove(m, w, y) <= StartsAbove(m, w, y')
    decreases y' - y
  {
    if y < y' {
      StartsAboveMono(m, w, y, y' - 1);
    }
  }

  /** Rows from `|m| - 1` on add nothing to the count. */
  lemma {:induction false} StartsAboveTail(m: Grid, w: int, y: int)
    requires y >= |m| - 1
    ensures StartsAbove(m, w, y) == ProvisionalCount(m, w)
    decreases if y >= |m| then y - |m| else |m| - y
  {
    if y > |m| {
      StartsAboveTail(m, w, y - 1);
      StartsInFrameRow(m, y - 1, w);
    } else if y == |m| - 1 {
      StartsInFrameRow(m, y, w);
    }
  }

  /** A start pixel is counted by every pixel after it: the count grows strictly
      past each start pixel, so distinct start pixels get distinct counts. */
  lemma StartsBeforeStrict(m: Grid, w: int, q: Pos, s: Pos)
    requires IsStart(m, q) && q.x < w
    requires Before(q, s)
    ensures StartsBefore(m, w, s) >= StartsBefore(m, w, q) + 1
  {
    assert StartsInRow(m, q.y, q.x + 1) == StartsInRow(m, q.y, q.x) + 1 by {
      assert Pos(q.x + 1 - 1, q.y) == q;
    }
    if q.y == s.y {
      StartsInRowMono(m, q.y, q.x + 1, s.x);
    } else {
      StartsInRowMono(m, q.y, q.x + 1, w);
      StartsAboveMono(m, w, q.y + 1, s.y);
    }
  }

  /** Every count of starts before a pixel of the mask is bounded by the total. */
  lemma StartsBeforeBounded(m: Grid, w: int, p: Pos)
    requires 0 <= p.y && p.x <= w
    ensures StartsBefore(m, w, p) <= ProvisionalCount(m, w)
  {
    StartsInRowMono(m, p.y, p.x, w);
    if p.y < |m| {
      StartsAboveMono(m, w, p.y + 1, |m|);
    } else {
      StartsInFrameRow(m, p.y, p.x);
      StartsAboveTail(m, w, p.y);
    }
  }
}
