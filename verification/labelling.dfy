/** `vc_binary_blob_labelling` (vc.c:1301-1492): the first raster scan with its
    eagerly rewritten equivalence table, and the facts it keeps at every pixel. */
module Labelling {
  import opened Images
  import opened Connectivity
  import opened LabelTable

  /** Largest number of provisional labels the scan can open: labels live in
      1..255. The value 255 also marks a foreground pixel not yet scanned, but the
      scan only reads causal neighbours, which are already scanned, so a label 255
      is never mistaken for one. A 256th label would be stored in the image as 0
      and written to `labeltable[256]`, past the end of the table. */
  const MaxLabels := 255

  /** The working grid after lines 1324-1345: every nonzero byte becomes 255,
      then the one-pixel frame is cleared. */
  function Prepare(m: Grid, w: nat, h: nat): (g: Grid)
    requires IsGrid(m, w, h)
    ensures IsGrid(g, w, h)
    ensures forall p :: InGrid(m, p) ==> At(g, p) == (if Fg(m, p) then 255 else 0)
  {
    seq(h, y requires 0 <= y < h => seq(w, x requires 0 <= x < w =>
      if x == 0 || x == w - 1 || y == 0 || y == h - 1 then 0
      else if m[y][x] != 0 then 255 else 0))
  }

  /** Stores `v` at pixel `p`. */
  function SetPixel(g: Grid, p: Pos, v: byte): (g': Grid)
    requires InGrid(g, p)
    ensures |g'| == |g| && forall y :: 0 <= y < |g| ==> |g'[y]| == |g[y]|
    ensures forall q :: At(g', q) == if q == p then v else At(g, q)
  {
    var row: seq<byte> := g[p.y][p.x := v];
    g[p.y := row]
  }

  predicate IsCausal(n: Pos, p: Pos) {
    n == NeighbourA(p) || n == NeighbourB(p) || n == NeighbourC(p) || n == NeighbourD(p)
  }

  /** Label `a` was opened at the start pixel `starts[a]`, which is the
      `a`-th start pixel in raster order; labels are opened in raster order. */
  ghost predicate StartsOk(m: Grid, w: int, g: Grid, L: int, starts: seq<Pos>, c: Pos) {
    && |starts| == L
    && (forall a :: 1 <= a < L ==>
          && IsStart(m, starts[a])
          && Before(starts[a], c)
          && At(g, starts[a]) == a
          && StartsBefore(m, w, starts[a]) == a - 1)
    && (forall a, b :: 1 <= a < b < L ==> Before(starts[a], starts[b]))
  }

  /** Every scanned foreground pixel carries an allocated label whose start pixel
      it is connected to and does not precede; every other scanned pixel is 0. */
  ghost predicate ScannedOk(m: Grid, g: Grid, L: int, starts: seq<Pos>, c: Pos) {
    && |starts| == L
    && forall p :: InGrid(m, p) && Before(p, c) ==>
         if Fg(m, p) then
           && 1 <= At(g, p) < L
           && Connected(m, p, starts[At(g, p)])
           && !Before(p, starts[At(g, p)])
         else At(g, p) == 0
  }

  /** Pixels not yet scanned still hold the prepared mask. */
  ghost predicate PendingOk(m: Grid, g: Grid, c: Pos) {
    forall p :: InGrid(m, p) && !Before(p, c) ==> At(g, p) == (if Fg(m, p) then 255 else 0)
  }

  /** Every label is connected to its class representative. */
  ghost predicate ClassesConnected(m: Grid, t: seq<int>, L: int, starts: seq<Pos>) {
    && |starts| == L
    && |t| == TableSize && L <= TableSize
    && forall a :: 1 <= a < L ==>
         0 <= t[a] < L && Connected(m, starts[a], starts[t[a]])
  }

  /** The classes of pixel `p` and of each of its foreground causal neighbours
      coincide. */
  predicate NeighboursMerged(m: Grid, g: Grid, t: seq<int>, p: Pos) {
    && |t| == TableSize
    && (Fg(m, NeighbourA(p)) ==> t[At(g, NeighbourA(p))] == t[At(g, p)])
    && (Fg(m, NeighbourB(p)) ==> t[At(g, NeighbourB(p))] == t[At(g, p)])
    && (Fg(m, NeighbourC(p)) ==> t[At(g, NeighbourC(p))] == t[At(g, p)])
    && (Fg(m, NeighbourD(p)) ==> t[At(g, NeighbourD(p))] == t[At(g, p)])
  }

  /** Every adjacency between scanned foreground pixels has been merged: by
      `CausalNeighbours` the later pixel of an adjacent pair has the earlier one
      among its causal neighbours. */
  ghost predicate MergedAdjacent(m: Grid, g: Grid, t: seq<int>, c: Pos) {
    && |t| == TableSize
    && forall p :: Fg(m, p) && Before(p, c) ==> NeighboursMerged(m, g, t, p)
  }

  /** The state of the first scan when it is about to visit pixel `c`. */
  ghost predicate ScanInv(m: Grid, w: int, h: int, g: Grid, t: seq<int>, L: int, starts: seq<Pos>, c: Pos) {
    && IsGrid(m, w, h) && IsGrid(g, w, h)
    && Forest(t, L) && L <= MaxLabels + 1
    && StartsOk(m, w, g, L, starts, c)
    && ScannedOk(m, g, L, starts, c)
    && PendingOk(m, g, c)
    && ClassesConnected(m, t, L, starts)
    && MergedAdjacent(m, g, t, c)
    && StartsBefore(m, w, c) == L - 1
  }

  /** What the scan knows about a causal neighbour `n` of the foreground pixel
      `X`: it is scanned, labelled exactly when foreground, and then connected
      through `X` to the start pixel of its label. */
  ghost predicate NeighbourOk(m: Grid, g: Grid, L: int, starts: seq<Pos>, X: Pos, n: Pos) {
    && |starts| == L
    && InGrid(m, n) && Before(n, X) && Adjacent(n, X)
    && (Fg(m, n) <==> At(g, n) != 0)
    && (At(g, n) != 0 ==> 1 <= At(g, n) < L && Connected(m, X, starts[At(g, n)]))
  }

  ghost predicate NeighboursOk(m: Grid, g: Grid, L: int, starts: seq<Pos>, X: Pos) {
    && NeighbourOk(m, g, L, starts, X, NeighbourA(X))
    && NeighbourOk(m, g, L, starts, X, NeighbourB(X))
    && NeighbourOk(m, g, L, starts, X, NeighbourC(X))
    && NeighbourOk(m, g, L, starts, X, NeighbourD(X))
  }

  /** Some causal neighbour of `X` carries a label (the test of line 1360). */
  predicate AnyLabelled(g: Grid, X: Pos) {
    At(g, NeighbourA(X)) != 0 || At(g, NeighbourB(X)) != 0
      || At(g, NeighbourC(X)) != 0 || At(g, NeighbourD(X)) != 0
  }

  /** `num` is no larger than the class of any labelled causal neighbour. */
  predicate NoLess(g: Grid, t: seq<int>, X: Pos, num: int) {
    && |t| == TableSize
    && (At(g, NeighbourA(X)) != 0 ==> num <= t[At(g, NeighbourA(X))])
    && (At(g, NeighbourB(X)) != 0 ==> num <= t[At(g, NeighbourB(X))])
    && (At(g, NeighbourC(X)) != 0 ==> num <= t[At(g, NeighbourC(X))])
    && (At(g, NeighbourD(X)) != 0 ==> num <= t[At(g, NeighbourD(X))])
  }

  /** Every labelled causal neighbour's class is `num`. */
  predicate MergedInto(g: Grid, t: seq<int>, X: Pos, num: int) {
    && |t| == TableSize
    && (At(g, NeighbourA(X)) != 0 ==> t[At(g, NeighbourA(X))] == num)
    && (At(g, NeighbourB(X)) != 0 ==> t[At(g, NeighbourB(X))] == num)
    && (At(g, NeighbourC(X)) != 0 ==> t[At(g, NeighbourC(X))] == num)
    && (At(g, NeighbourD(X)) != 0 ==> t[At(g, NeighbourD(X))] == num)
  }

  lemma NeighbourFacts(m: Grid, w: int, h: int, g: Grid, t: seq<int>, L: int, starts: seq<Pos>, X: Pos, n: Pos)
    requires ScanInv(m, w, h, g, t, L, starts, X)
    requires Fg(m, X) && IsCausal(n, X)
    ensures NeighbourOk(m, g, L, starts, X, n)
  {
    CausalNeighbours(X, n);
    if At(g, n) != 0 {
      ConnectedAdjacent(m, X, n);
      ConnectedTrans(m, X, n, starts[At(g, n)]);
    }
  }

  lemma NeighbourRoots(m: Grid, w: int, h: int, g: Grid, t: seq<int>, L: int, starts: seq<Pos>, X: Pos)
    requires ScanInv(m, w, h, g, t, L, starts, X)
    requires Fg(m, X)
    ensures NeighboursOk(m, g, L, starts, X)
  {
    NeighbourFacts(m, w, h, g, t, L, starts, X, NeighbourA(X));
    NeighbourFacts(m, w, h, g, t, L, starts, X, NeighbourB(X));
    NeighbourFacts(m, w, h, g, t, L, starts, X, NeighbourC(X));
    NeighbourFacts(m, w, h, g, t, L, starts, X, NeighbourD(X));
  }

  /** Lines 1373-1382: the least representative among the labelled causal
      neighbours. The sentinel 255 is not below a representative 255, so the ghost
      `seen` records whether `num` already stands for a neighbour. */
  method MinNeighbourRoot(g: Grid, t: seq<int>, X: Pos) returns (num: int, ghost from: Pos)
    requires |t| == TableSize && forall a :: 0 <= a < |t| ==> 0 <= t[a] < TableSize
    requires AnyLabelled(g, X)
    ensures IsCausal(from, X) && At(g, from) != 0 && num == t[At(g, from)]
    ensures NoLess(g, t, X, num)
  {
    var A, B, C, D := NeighbourA(X), NeighbourB(X), NeighbourC(X), NeighbourD(X);
    ghost var seen := false;
    from := X;
    num := 255;
    if At(g, A) != 0 {
      num := t[At(g, A)];
      from, seen := A, true;
    }
    if At(g, B) != 0 && t[At(g, B)] < num {
      num := t[At(g, B)];
      from, seen := B, true;
    } else if At(g, B) != 0 && !seen {
      from, seen := B, true;
    }
    if At(g, C) != 0 && t[At(g, C)] < num {
      num := t[At(g, C)];
      from, seen := C, true;
    } else if At(g, C) != 0 && !seen {
      from, seen := C, true;
    }
    if At(g, D) != 0 && t[At(g, D)] < num {
      num := t[At(g, D)];
      from, seen := D, true;
    } else if At(g, D) != 0 && !seen {
      from, seen := D, true;
    }
  }

  /** Every scanned foreground pixel holds an allocated label. */
  ghost predicate LabelsInRange(m: Grid, g: Grid, L: int, c: Pos) {
    forall p :: Fg(m, p) && Before(p, c) ==> 1 <= At(g, p) < L
  }

  /** The parts of the scan state that mention the table. */
  ghost predicate TableOk(m: Grid, g: Grid, t: seq<int>, L: int, starts: seq<Pos>, c: Pos) {
    && Forest(t, L) && L <= MaxLabels + 1
    && ClassesConnected(m, t, L, starts)
    && MergedAdjacent(m, g, t, c)
  }

  lemma ScanInvParts(m: Grid, w: int, h: int, g: Grid, t: seq<int>, L: int, starts: seq<Pos>, c: Pos)
    requires ScanInv(m, w, h, g, t, L, starts, c)
    ensures TableOk(m, g, t, L, starts, c) && LabelsInRange(m, g, L, c)
  {
    forall p | Fg(m, p) && Before(p, c)
      ensures 1 <= At(g, p) < L
    {
      assert InGrid(m, p);
    }
  }

  /** What the merge step needs of the scan state at a foreground pixel. */
  lemma MergeReady(m: Grid, w: int, h: int, g: Grid, t: seq<int>, L: int, starts: seq<Pos>, X: Pos)
    requires ScanInv(m, w, h, g, t, L, starts, X)
    requires Fg(m, X)
    ensures TableOk(m, g, t, L, starts, X) && LabelsInRange(m, g, L, X)
    ensures NeighboursOk(m, g, L, starts, X)
  {
    ScanInvParts(m, w, h, g, t, L, starts, X);
    NeighbourRoots(m, w, h, g, t, L, starts, X);
  }

  /** Merging a class connected to pixel `X` into another class connected to
      `X` keeps every label connected to its representative. */
  lemma RelabelKeepsClasses(m: Grid, t: seq<int>, t': seq<int>, L: int, starts: seq<Pos>, X: Pos, from: int, to: int)
    requires ClassesConnected(m, t, L, starts) && |t'| == TableSize
    requires 1 <= from < L && 1 <= to < L
    requires Connected(m, X, starts[from]) && Connected(m, X, starts[to])
    requires forall a :: 1 <= a < L ==> t'[a] == (if t[a] == from then to else t[a])
    ensures ClassesConnected(m, t', L, starts)
  {
    ConnectedSym(m, X, starts[from]);
    ConnectedTrans(m, starts[from], X, starts[to]);
    forall a | 1 <= a < L && t[a] == from
      ensures Connected(m, starts[a], starts[to])
    {
      ConnectedTrans(m, starts[a], starts[from], starts[to]);
    }
  }

  /** Relabelling maps equal entries to equal entries, so merged neighbours
      stay merged. */
  lemma RelabelKeepsMerged(m: Grid, g: Grid, t: seq<int>, t': seq<int>, L: int, X: Pos, from: int, to: int)
    requires MergedAdjacent(m, g, t, X) && LabelsInRange(m, g, L, X) && |t'| == TableSize && L <= TableSize
    requires forall a :: 1 <= a < L ==> t'[a] == (if t[a] == from then to else t[a])
    ensures MergedAdjacent(m, g, t', X)
  {
    forall p | Fg(m, p) && Before(p, X)
      ensures NeighboursMerged(m, g, t', p)
    {
      assert NeighboursMerged(m, g, t, p);
    }
  }

  /** One of lines 1389-1440: when neighbour `n` is labelled and its class is not
      yet `num`'s, every table entry of that class is redirected to `num`. */
  method MergeNeighbour(m: Grid, g: Grid, t: seq<int>, L: int, ghost starts: seq<Pos>, X: Pos, n: Pos, num: int)
    returns (t': seq<int>)
    requires TableOk(m, g, t, L, starts, X) && LabelsInRange(m, g, L, X)
    requires 1 <= num < L && t[num] == num && Connected(m, X, starts[num])
    requires NeighbourOk(m, g, L, starts, X, n)
    requires At(g, n) != 0 ==> num <= t[At(g, n)]
    ensures TableOk(m, g, t', L, starts, X)
    ensures At(g, n) != 0 ==> t'[At(g, n)] == num
    ensures forall a :: 1 <= a < L ==> t'[a] == t[a] || t'[a] == num
    ensures forall a :: 1 <= a < L && t[a] == num ==> t'[a] == num
  {
    if At(g, n) != 0 && t[At(g, n)] != num {
      var from := t[At(g, n)];
      t' := Relabel(t, L, from, num);
      RelabelKeepsForest(t, t', L, from, num);
      ConnectedTrans(m, X, starts[At(g, n)], starts[from]);
      RelabelKeepsClasses(m, t, t', L, starts, X, from, num);
      RelabelKeepsMerged(m, g, t, t', L, X, from, num);
    } else {
      t' := t;
    }
  }

  /** Two consecutive merges of lines 1389-1440. */
  method MergePair(m: Grid, g: Grid, t: seq<int>, L: int, ghost starts: seq<Pos>, X: Pos, n1: Pos, n2: Pos, num: int)
    returns (t': seq<int>)
    requires TableOk(m, g, t, L, starts, X) && LabelsInRange(m, g, L, X)
    requires 1 <= num < L && t[num] == num && Connected(m, X, starts[num])
    requires NeighbourOk(m, g, L, starts, X, n1) && NeighbourOk(m, g, L, starts, X, n2)
    requires At(g, n1) != 0 ==> num <= t[At(g, n1)]
    requires At(g, n2) != 0 ==> num <= t[At(g, n2)]
    ensures TableOk(m, g, t', L, starts, X)
    ensures At(g, n1) != 0 ==> t'[At(g, n1)] == num
    ensures At(g, n2) != 0 ==> t'[At(g, n2)] == num
    ensures forall a :: 1 <= a < L ==> t'[a] == t[a] || t'[a] == num
    ensures forall a :: 1 <= a < L && t[a] == num ==> t'[a] == num
  {
    var t1 := MergeNeighbour(m, g, t, L, starts, X, n1, num);
    t' := MergeNeighbour(m, g, t1, L, starts, X, n2, num);
  }

  /** Lines 1373-1382 in the scan's terms: the least neighbouring representative
      is a representative, connected to the pixel, no larger than any other. */
  method LeastRoot(m: Grid, g: Grid, t: seq<int>, L: int, ghost starts: seq<Pos>, X: Pos)
    returns (num: int)
    requires TableOk(m, g, t, L, starts, X) && NeighboursOk(m, g, L, starts, X)
    requires AnyLabelled(g, X)
    ensures 1 <= num < L && t[num] == num && Connected(m, X, starts[num])
    ensures NoLess(g, t, X, num)
  {
    ghost var from;
    num, from := MinNeighbourRoot(g, t, X);
    assert NeighbourOk(m, g, L, starts, X, from);
    ConnectedTrans(m, X, starts[At(g, from)], starts[num]);
  }

  /** Lines 1373-1440 for a foreground pixel with a labelled causal neighbour:
      the least neighbouring representative `num`, and the table with every
      neighbour's class merged into it, in the order A, B, C, D. */
  method MergeAll(m: Grid, g: Grid, t: seq<int>, L: int, ghost starts: seq<Pos>, X: Pos)
    returns (num: int, t': seq<int>)
    requires TableOk(m, g, t, L, starts, X) && LabelsInRange(m, g, L, X)
    requires NeighboursOk(m, g, L, starts, X) && AnyLabelled(g, X)
    ensures TableOk(m, g, t', L, starts, X)
    ensures 1 <= num < L && t'[num] == num && Connected(m, X, starts[num])
    ensures MergedInto(g, t', X, num)
  {
    num := LeastRoot(m, g, t, L, starts, X);
    var t2 := MergePair(m, g, t, L, starts, X, NeighbourA(X), NeighbourB(X), num);
    t' := MergePair(m, g, t2, L, starts, X, NeighbourC(X), NeighbourD(X), num);
  }

  /** Lines 1373-1386 for a foreground pixel with a labelled causal neighbour. */
  method MergedPixel(m: Grid, w: int, h: int, g: Grid, t: seq<int>, L: int, ghost starts: seq<Pos>, X: Pos)
    returns (g': Grid, t': seq<int>)
    requires ScanInv(m, w, h, g, t, L, starts, X)
    requires Fg(m, X) && AnyLabelled(g, X)
    ensures ScanInv(m, w, h, g', t', L, starts, Pos(X.x + 1, X.y))
  {
    MergeReady(m, w, h, g, t, L, starts, X);
    var num;
    num, t' := MergeAll(m, g, t, L, starts, X);
    AdvanceMerged(m, w, g, t', L, starts, X, num);
    g' := SetPixel(g, X, num);
    Assemble(m, w, h, g', t', L, starts, Pos(X.x + 1, X.y));
  }

  /** Moving past a pixel that is not foreground changes nothing. */
  lemma AdvanceBackground(m: Grid, w: int, h: int, g: Grid, t: seq<int>, L: int, starts: seq<Pos>, X: Pos)
    requires ScanInv(m, w, h, g, t, L, starts, X)
    requires 0 <= X.x && !Fg(m, X)
    ensures ScanInv(m, w, h, g, t, L, starts, Pos(X.x + 1, X.y))
  {
    var next := Pos(X.x + 1, X.y);
    StartsBeforeNext(m, w, X);
    BackgroundStarts(m, w, g, L, starts, X);
    BackgroundScanned(m, g, L, starts, X);
    BackgroundMerged(m, g, t, X);
    Assemble(m, w, h, g, t, L, starts, next);
  }

  lemma BackgroundStarts(m: Grid, w: int, g: Grid, L: int, starts: seq<Pos>, X: Pos)
    requires StartsOk(m, w, g, L, starts, X)
    ensures StartsOk(m, w, g, L, starts, Pos(X.x + 1, X.y))
  {
  }

  lemma BackgroundScanned(m: Grid, g: Grid, L: int, starts: seq<Pos>, X: Pos)
    requires ScannedOk(m, g, L, starts, X) && PendingOk(m, g, X) && !Fg(m, X)
    ensures ScannedOk(m, g, L, starts, Pos(X.x + 1, X.y))
  {
  }

  lemma BackgroundMerged(m: Grid, g: Grid, t: seq<int>, X: Pos)
    requires MergedAdjacent(m, g, t, X) && !Fg(m, X)
    ensures MergedAdjacent(m, g, t, Pos(X.x + 1, X.y))
  {
  }

  /** Writing pixel `X` and moving past it leaves the unscanned part untouched. */
  lemma PendingAdvance(m: Grid, g: Grid, X: Pos, v: byte)
    requires PendingOk(m, g, X) && InGrid(g, X)
    ensures PendingOk(m, SetPixel(g, X, v), Pos(X.x + 1, X.y))
  {
  }

  lemma StartsAdvance(m: Grid, w: int, g: Grid, L: int, starts: seq<Pos>, X: Pos, v: byte)
    requires StartsOk(m, w, g, L, starts, X) && InGrid(g, X)
    ensures StartsOk(m, w, SetPixel(g, X, v), L, starts, Pos(X.x + 1, X.y))
  {
    var g' := SetPixel(g, X, v);
    forall a | 1 <= a < L
      ensures At(g', starts[a]) == a
    {
      assert Before(starts[a], X);
    }
  }

  lemma FreshStarts(m: Grid, w: int, g: Grid, L: int, starts: seq<Pos>, X: Pos)
    requires StartsOk(m, w, g, L, starts, X) && InGrid(g, X)
    requires IsStart(m, X) && StartsBefore(m, w, X) == L - 1 && 0 <= L <= MaxLabels
    ensures StartsOk(m, w, SetPixel(g, X, L), L + 1, starts + [X], Pos(X.x + 1, X.y))
  {
    StartsAdvance(m, w, g, L, starts, X, L);
  }

  lemma FreshScanned(m: Grid, g: Grid, L: int, starts: seq<Pos>, X: Pos)
    requires ScannedOk(m, g, L, starts, X) && InGrid(g, X) && Fg(m, X) && 1 <= L <= MaxLabels
    ensures ScannedOk(m, SetPixel(g, X, L), L + 1, starts + [X], Pos(X.x + 1, X.y))
  {
    var next := Pos(X.x + 1, X.y);
    var g', starts' := SetPixel(g, X, L), starts + [X];
    ConnectedRefl(m, X);
    forall p | InGrid(m, p) && Before(p, next)
      ensures if Fg(m, p) then
           && 1 <= At(g', p) < L + 1
           && Connected(m, p, starts'[At(g', p)])
           && !Before(p, starts'[At(g', p)])
         else At(g', p) == 0
    {
      if p == X {
        assert At(g', p) == L && starts'[L] == X;
      } else {
        assert Before(p, X) && At(g', p) == At(g, p);
        if Fg(m, p) {
          assert starts'[At(g, p)] == starts[At(g, p)];
        }
      }
    }
  }

  lemma FreshClasses(m: Grid, t: seq<int>, L: int, starts: seq<Pos>, X: Pos)
    requires ClassesConnected(m, t, L, starts) && Fg(m, X) && 1 <= L <= MaxLabels
    ensures ClassesConnected(m, t[L := L], L + 1, starts + [X])
  {
    ConnectedRefl(m, X);
    var t', starts' := t[L := L], starts + [X];
    forall a | 1 <= a < L + 1
      ensures 0 <= t'[a] < L + 1 && Connected(m, starts'[a], starts'[t'[a]])
    {
      if a < L {
        assert starts'[t'[a]] == starts[t[a]];
      }
    }
  }

  lemma FreshMerged(m: Grid, g: Grid, t: seq<int>, L: int, X: Pos)
    requires MergedAdjacent(m, g, t, X) && LabelsInRange(m, g, L, X)
    requires InGrid(g, X) && IsStart(m, X) && 1 <= L <= MaxLabels
    ensures MergedAdjacent(m, SetPixel(g, X, L), t[L := L], Pos(X.x + 1, X.y))
  {
    var next := Pos(X.x + 1, X.y);
    var g', t' := SetPixel(g, X, L), t[L := L];
    forall p | Fg(m, p) && Before(p, next)
      ensures NeighboursMerged(m, g', t', p)
    {
      if p != X {
        assert NeighboursMerged(m, g, t, p);
      }
    }
  }

  /** Opening label `L` at a start pixel (lines 1365-1370). */
  lemma AdvanceFresh(m: Grid, w: int, h: int, g: Grid, t: seq<int>, L: int, starts: seq<Pos>, X: Pos)
    requires ScanInv(m, w, h, g, t, L, starts, X)
    requires IsStart(m, X) && L <= MaxLabels
    ensures ScanInv(m, w, h, SetPixel(g, X, L), t[L := L], L + 1, starts + [X], Pos(X.x + 1, X.y))
  {
    var next := Pos(X.x + 1, X.y);
    StartsBeforeNext(m, w, X);
    assert Forest(t[L := L], L + 1);
    FreshStarts(m, w, g, L, starts, X);
    FreshScanned(m, g, L, starts, X);
    PendingAdvance(m, g, X, L);
    FreshClasses(m, t, L, starts, X);
    ScanInvParts(m, w, h, g, t, L, starts, X);
    FreshMerged(m, g, t, L, X);
  }

  lemma MergedScanned(m: Grid, g: Grid, L: int, starts: seq<Pos>, X: Pos, num: int)
    requires ScannedOk(m, g, L, starts, X) && InGrid(g, X) && Fg(m, X)
    requires 1 <= num < L && num <= MaxLabels
    requires Connected(m, X, starts[num]) && Before(starts[num], X)
    ensures ScannedOk(m, SetPixel(g, X, num), L, starts, Pos(X.x + 1, X.y))
  {
  }

  lemma MergedMerged(m: Grid, g: Grid, t: seq<int>, X: Pos, num: int)
    requires MergedAdjacent(m, g, t, X) && InGrid(g, X)
    requires 1 <= num <= MaxLabels && t[num] == num
    requires Fg(m, NeighbourA(X)) ==> t[At(g, NeighbourA(X))] == num
    requires Fg(m, NeighbourB(X)) ==> t[At(g, NeighbourB(X))] == num
    requires Fg(m, NeighbourC(X)) ==> t[At(g, NeighbourC(X))] == num
    requires Fg(m, NeighbourD(X)) ==> t[At(g, NeighbourD(X))] == num
    ensures MergedAdjacent(m, SetPixel(g, X, num), t, Pos(X.x + 1, X.y))
  {
    var next := Pos(X.x + 1, X.y);
    var g' := SetPixel(g, X, num);
    forall p | Fg(m, p) && Before(p, next)
      ensures NeighboursMerged(m, g', t, p)
    {
      if p != X {
        assert NeighboursMerged(m, g, t, p);
      }
    }
  }

  /** Giving pixel `X` the representative `num` once every labelled causal
      neighbour's class has been merged into `num` (lines 1385-1386). */
  lemma AdvanceMerged(m: Grid, w: int, g: Grid, t: seq<int>, L: int, starts: seq<Pos>, X: Pos, num: int)
    requires StartsOk(m, w, g, L, starts, X) && ScannedOk(m, g, L, starts, X) && PendingOk(m, g, X)
    requires MergedAdjacent(m, g, t, X) && StartsBefore(m, w, X) == L - 1
    requires InGrid(g, X) && Fg(m, X) && NeighboursOk(m, g, L, starts, X) && AnyLabelled(g, X)
    requires 1 <= num < L <= MaxLabels + 1 && t[num] == num && Connected(m, X, starts[num])
    requires MergedInto(g, t, X, num)
    ensures StartsOk(m, w, SetPixel(g, X, num), L, starts, Pos(X.x + 1, X.y))
    ensures ScannedOk(m, SetPixel(g, X, num), L, starts, Pos(X.x + 1, X.y))
    ensures PendingOk(m, SetPixel(g, X, num), Pos(X.x + 1, X.y))
    ensures MergedAdjacent(m, SetPixel(g, X, num), t, Pos(X.x + 1, X.y))
    ensures StartsBefore(m, w, Pos(X.x + 1, X.y)) == L - 1
  {
    assert !IsStart(m, X);
    StartsBeforeNext(m, w, X);
    StartsAdvance(m, w, g, L, starts, X, num);
    MergedScanned(m, g, L, starts, X, num);
    PendingAdvance(m, g, X, num);
    MergedMerged(m, g, t, X, num);
  }

  /** The scan state from its parts. */
  lemma Assemble(m: Grid, w: int, h: int, g: Grid, t: seq<int>, L: int, starts: seq<Pos>, c: Pos)
    requires IsGrid(m, w, h) && IsGrid(g, w, h) && TableOk(m, g, t, L, starts, c)
    requires StartsOk(m, w, g, L, starts, c) && ScannedOk(m, g, L, starts, c) && PendingOk(m, g, c)
    requires StartsBefore(m, w, c) == L - 1
    ensures ScanInv(m, w, h, g, t, L, starts, c)
  {
  }

  /** Lines 1356-1442 for one interior pixel `X`: a background pixel is skipped; a
      foreground pixel with no labelled causal neighbour opens label `L` (refused
      when 255 labels are already open); otherwise it takes the least neighbouring
      representative and the neighbours' classes are merged into it. */
  method ScanPixel(m: Grid, w: int, h: int, g: Grid, t: seq<int>, L: int, ghost starts: seq<Pos>, X: Pos)
    returns (ok: bool, g': Grid, t': seq<int>, L': int, ghost starts': seq<Pos>)
    requires ScanInv(m, w, h, g, t, L, starts, X)
    requires Interior(m, X)
    ensures ok ==> ScanInv(m, w, h, g', t', L', starts', Pos(X.x + 1, X.y))
    ensures !ok <==> IsStart(m, X) && L == MaxLabels + 1
    ensures !ok ==> ProvisionalCount(m, w) > MaxLabels
  {
    ok, g', t', L', starts' := true, g, t, L, starts;
    if At(g, X) == 0 {
      AdvanceBackground(m, w, h, g, t, L, starts, X);
      return;
    }
    NeighbourRoots(m, w, h, g, t, L, starts, X);
    if !AnyLabelled(g, X) {
      if L == MaxLabels + 1 {
        StartsBeforeNext(m, w, X);
        StartsBeforeBounded(m, w, Pos(X.x + 1, X.y));
        ok := false;
        return;
      }
      AdvanceFresh(m, w, h, g, t, L, starts, X);
      g' := SetPixel(g, X, L);
      t' := t[L := L];
      L' := L + 1;
      starts' := starts + [X];
    } else {
      g', t' := MergedPixel(m, w, h, g, t, L, starts, X);
    }
  }

  /** Leaving row `y` once its last interior pixel has been visited and moving
      past the left frame pixel of the next row. */
  lemma NextRowStart(m: Grid, w: int, h: int, g: Grid, t: seq<int>, L: int, starts: seq<Pos>, X: Pos)
    requires ScanInv(m, w, h, g, t, L, starts, X)
    requires 0 <= X.y && X.x >= w - 1
    ensures ScanInv(m, w, h, g, t, L, starts, Pos(1, X.y + 1))
  {
    NextRow(m, w, h, g, t, L, starts, X);
    AdvanceBackground(m, w, h, g, t, L, starts, Pos(0, X.y + 1));
  }

  /** Leaving row `y` once its last interior pixel has been visited: what remains
      of the row is the right frame column. */
  lemma NextRow(m: Grid, w: int, h: int, g: Grid, t: seq<int>, L: int, starts: seq<Pos>, X: Pos)
    requires ScanInv(m, w, h, g, t, L, starts, X)
    requires 0 <= X.y && X.x >= w - 1
    ensures ScanInv(m, w, h, g, t, L, starts, Pos(0, X.y + 1))
  {
    var next := Pos(0, X.y + 1);
    StartsInRowTail(m, w, X.y, X.x);
    assert StartsBefore(m, w, next) == StartsBefore(m, w, X);
    RowEndStarts(m, w, g, L, starts, X);
    RowEndScanned(m, w, h, g, L, starts, X);
    RowEndMerged(m, g, t, X);
    Assemble(m, w, h, g, t, L, starts, next);
  }

  lemma RowEndStarts(m: Grid, w: int, g: Grid, L: int, starts: seq<Pos>, X: Pos)
    requires StartsOk(m, w, g, L, starts, X)
    ensures StartsOk(m, w, g, L, starts, Pos(0, X.y + 1))
  {
  }

  lemma RowEndScanned(m: Grid, w: int, h: int, g: Grid, L: int, starts: seq<Pos>, X: Pos)
    requires IsGrid(m, w, h) && ScannedOk(m, g, L, starts, X) && PendingOk(m, g, X)
    requires X.x >= w - 1
    ensures ScannedOk(m, g, L, starts, Pos(0, X.y + 1))
  {
  }

  lemma RowEndMerged(m: Grid, g: Grid, t: seq<int>, X: Pos)
    requires MergedAdjacent(m, g, t, X) && forall y :: 0 <= y < |m| ==> |m[y]| <= X.x + 1
    ensures MergedAdjacent(m, g, t, Pos(0, X.y + 1))
  {
  }
}
