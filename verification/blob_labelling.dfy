/** `vc_binary_blob_labelling` (vc.c:1301-1492) as a whole: the first raster scan
    driven over the interior rows and columns, the second pass that replaces every
    provisional label by its class representative, the blob count, and what the
    resulting label image means for the mask it was computed from. */
module BlobLabelling {
  import opened Images
  import opened Connectivity
  import opened LabelTable
  import opened Labelling

  /** The row the first scan stops at: it visits rows 1..h-2. */
  function LastRow(h: int): int {
    if h >= 2 then h - 1 else 1
  }

  /** The table `labeltable[256] = { 0 }`. */
  function EmptyTable(): (t: seq<int>)
    ensures |t| == TableSize && forall a :: 0 <= a < TableSize ==> t[a] == 0
  {
    seq(TableSize, a => 0)
  }

  /** Before the first interior row nothing is labelled and nothing is open. */
  lemma InitialState(m: Grid, w: nat, h: nat)
    requires IsGrid(m, w, h)
    ensures ScanInv(m, w, h, Prepare(m, w, h), EmptyTable(), 1, [Pos(0, 0)], Pos(1, 1))
  {
    StartsInFrameRow(m, 0, w);
    assert StartsBefore(m, w, Pos(0, 1)) == StartsInRow(m, 0, w);
    AdvanceBackground(m, w, h, Prepare(m, w, h), EmptyTable(), 1, [Pos(0, 0)], Pos(0, 1));
  }

  /** One pass of the inner loop of lines 1350-1441 over the interior pixels of
      row `y`. It fails exactly when a pixel of the row needs a 256th provisional
      label, and then the mask needs more than 255 of them. */
  method ScanRow(m: Grid, w: nat, h: nat, g: Grid, t: seq<int>, L: int, ghost starts: seq<Pos>, y: int)
    returns (ok: bool, g': Grid, t': seq<int>, L': int, ghost starts': seq<Pos>)
    requires ScanInv(m, w, h, g, t, L, starts, Pos(1, y))
    requires 1 <= y < h - 1
    ensures ok ==> ScanInv(m, w, h, g', t', L', starts', Pos(1, y + 1))
    ensures !ok ==> ProvisionalCount(m, w) > MaxLabels
  {
    g', t', L', starts' := g, t, L, starts;
    var X := Pos(1, y);
    while X.x < w - 1
      invariant X.y == y && 1 <= X.x && (X.x <= w - 1 || X.x == 1)
      invariant ScanInv(m, w, h, g', t', L', starts', X)
    {
      ok, g', t', L', starts' := ScanPixel(m, w, h, g', t', L', starts', X);
      if !ok {
        return;
      }
      X := Pos(X.x + 1, X.y);
    }
    NextRowStart(m, w, h, g', t', L', starts', X);
    ok := true;
  }

  /** Lines 1348-1442: scans the interior pixels row by row. It fails exactly when
      the mask needs more than 255 provisional labels; otherwise the scan state
      covers every row and `L - 1` labels were opened, one per start pixel. */
  method FirstScan(m: Grid, w: nat, h: nat) returns (ok: bool, g: Grid, t: seq<int>, L: int, ghost starts: seq<Pos>)
    requires IsGrid(m, w, h)
    ensures ok <==> ProvisionalCount(m, w) <= MaxLabels
    ensures ok ==> ScanInv(m, w, h, g, t, L, starts, Pos(1, LastRow(h)))
    ensures ok ==> L - 1 == ProvisionalCount(m, w)
  {
    g, t, L, starts := Prepare(m, w, h), EmptyTable(), 1, [Pos(0, 0)];
    InitialState(m, w, h);
    var y := 1;
    while y < h - 1
      invariant 1 <= y <= LastRow(h)
      invariant ScanInv(m, w, h, g, t, L, starts, Pos(1, y))
    {
      ok, g, t, L, starts := ScanRow(m, w, h, g, t, L, starts, y);
      if !ok {
        return;
      }
      y := y + 1;
    }
    StartsAboveTail(m, w, y);
    assert StartsBefore(m, w, Pos(1, y)) == StartsAbove(m, w, y) + StartsInRow(m, y, 0);
    ok := true;
  }

  /** The scan state once every interior row has been visited. */
  ghost predicate Scanned(m: Grid, w: int, h: int, g: Grid, t: seq<int>, L: int, starts: seq<Pos>) {
    ScanInv(m, w, h, g, t, L, starts, Pos(1, LastRow(h)))
  }

  /** Lines 1444-1457: every labelled interior pixel takes the representative of
      its provisional label. */
  function Resolve(g: Grid, t: seq<int>): (r: Grid)
    requires |t| == TableSize && forall a :: 0 <= a < TableSize ==> 0 <= t[a] < 256
    ensures |r| == |g| && forall y :: 0 <= y < |g| ==> |r[y]| == |g[y]|
    ensures forall p :: At(r, p) == if Interior(g, p) && At(g, p) != 0 then t[At(g, p)] else At(g, p)
  {
    seq(|g|, y requires 0 <= y < |g| => seq(|g[y]|, x requires 0 <= x < |g[y]| =>
      if 1 <= y < |g| - 1 && 1 <= x < |g[y]| - 1 && g[y][x] != 0 then t[g[y][x]] else g[y][x]))
  }

  /** What a label image means for its mask: background and frame are 0, every
      foreground pixel carries a label in 1..255, and two foreground pixels carry
      the same label exactly when they are 8-connected through the foreground. */
  ghost predicate LabelsCorrect(m: Grid, G: Grid) {
    && (forall p {:trigger At(G, p)} :: InGrid(m, p) && !Fg(m, p) ==> At(G, p) == 0)
    && (forall p {:trigger At(G, p)} :: Fg(m, p) ==> 1 <= At(G, p) <= MaxLabels)
    && (forall p, q {:trigger At(G, p), At(G, q)} :: Fg(m, p) && Fg(m, q) ==> (At(G, p) == At(G, q) <==> Connected(m, p, q)))
  }

  /** Which number each blob gets: the provisional label the scan opened at the
      first start pixel of the blob, one more than the count of start pixels
      before it. No pixel of a blob is preceded by fewer start pixels than its
      label allows, and some start pixel of the blob carries exactly that count. */
  ghost predicate LabelsCanonical(m: Grid, w: int, G: Grid) {
    && (forall p, q {:trigger Connected(m, p, q)} :: Connected(m, p, q) ==> At(G, p) <= StartsBefore(m, w, q) + 1)
    && (forall p {:trigger At(G, p)} :: Fg(m, p) ==>
          exists q :: Connected(m, p, q) && IsStart(m, q) && At(G, p) == StartsBefore(m, w, q) + 1)
  }

  /** Some foreground pixel carries label `r`. */
  ghost predicate UsedLabel(m: Grid, G: Grid, r: int) {
    exists p :: Fg(m, p) && At(G, p) == r
  }

  /** The labels a label image uses on the foreground of its mask. */
  ghost function LabelsOf(m: Grid, G: Grid): set<int> {
    set r | 0 <= r < 256 && UsedLabel(m, G, r)
  }

  /** What the finished scan leaves behind, in four parts. Background and frame
      still hold 0. */
  ghost predicate FinalBackground(m: Grid, g: Grid) {
    forall p :: InGrid(m, p) && !Fg(m, p) ==> At(g, p) == 0
  }

  /** Every foreground pixel is labelled and connected to the start pixel of its
      class. */
  ghost predicate FinalForeground(m: Grid, g: Grid, t: seq<int>, L: int, starts: seq<Pos>)
    requires Forest(t, L) && |starts| == L
  {
    forall p {:trigger At(g, p)} :: Fg(m, p) ==> 1 <= At(g, p) < L && Connected(m, p, starts[t[At(g, p)]])
  }

  /** Every representative is the label of its own start pixel. */
  ghost predicate FinalRoots(m: Grid, g: Grid, t: seq<int>, L: int, starts: seq<Pos>)
    requires Forest(t, L) && |starts| == L
  {
    forall r :: 1 <= r < L && t[r] == r ==> Fg(m, starts[r]) && At(g, starts[r]) == r
  }

  /** Adjacent foreground pixels are in the same class. */
  ghost predicate FinalAdjacent(m: Grid, g: Grid, t: seq<int>)
    requires |t| == TableSize
  {
    forall p, q :: Fg(m, p) && Fg(m, q) && Adjacent(p, q) ==> t[At(g, p)] == t[At(g, q)]
  }

  ghost predicate Complete(m: Grid, g: Grid, t: seq<int>, L: int, starts: seq<Pos>) {
    && Forest(t, L) && |starts| == L
    && FinalBackground(m, g)
    && FinalForeground(m, g, t, L, starts)
    && FinalRoots(m, g, t, L, starts)
    && FinalAdjacent(m, g, t)
  }

  /** The later of two adjacent scanned foreground pixels has the earlier among
      its causal neighbours, so the scan merged their classes. */
  lemma AdjacentSameRoot(m: Grid, g: Grid, t: seq<int>, c: Pos, p: Pos, q: Pos)
    requires MergedAdjacent(m, g, t, c)
    requires Fg(m, p) && Fg(m, q) && Before(p, c) && Before(q, c) && Adjacent(p, q)
    ensures t[At(g, p)] == t[At(g, q)]
  {
    if Before(p, q) {
      CausalNeighbours(q, p);
      assert NeighboursMerged(m, g, t, q);
    } else {
      CausalNeighbours(p, q);
      assert NeighboursMerged(m, g, t, p);
    }
  }

  /** Every foreground pixel lies in a row the scan has passed. */
  lemma AllScanned(m: Grid, h: int, p: Pos)
    requires |m| == h && Fg(m, p)
    ensures Before(p, Pos(1, LastRow(h)))
  {
  }

  lemma CompleteBackground(m: Grid, w: int, h: int, g: Grid, t: seq<int>, L: int, starts: seq<Pos>)
    requires Scanned(m, w, h, g, t, L, starts)
    ensures FinalBackground(m, g)
  {
    var c := Pos(1, LastRow(h));
    forall p | InGrid(m, p) && !Fg(m, p)
      ensures At(g, p) == 0
    {
      if Before(p, c) {
        assert ScannedOk(m, g, L, starts, c);
      } else {
        assert PendingOk(m, g, c);
      }
    }
  }

  lemma CompleteForeground(m: Grid, w: int, h: int, g: Grid, t: seq<int>, L: int, starts: seq<Pos>)
    requires Scanned(m, w, h, g, t, L, starts)
    ensures Forest(t, L) && |starts| == L
    ensures FinalForeground(m, g, t, L, starts)
  {
    forall p | Fg(m, p)
      ensures 1 <= At(g, p) < L && Connected(m, p, starts[t[At(g, p)]])
    {
      AllScanned(m, h, p);
      assert InGrid(m, p);
      ConnectedTrans(m, p, starts[At(g, p)], starts[t[At(g, p)]]);
    }
  }

  lemma CompleteAdjacent(m: Grid, w: int, h: int, g: Grid, t: seq<int>, L: int, starts: seq<Pos>)
    requires Scanned(m, w, h, g, t, L, starts)
    ensures |t| == TableSize
    ensures FinalAdjacent(m, g, t)
  {
    forall p, q | Fg(m, p) && Fg(m, q) && Adjacent(p, q)
      ensures t[At(g, p)] == t[At(g, q)]
    {
      AllScanned(m, h, p);
      AllScanned(m, h, q);
      AdjacentSameRoot(m, g, t, Pos(1, LastRow(h)), p, q);
    }
  }

  /** Lines 1348-1442 leave the label image and table `Complete`. */
  lemma ScanComplete(m: Grid, w: int, h: int, g: Grid, t: seq<int>, L: int, starts: seq<Pos>)
    requires Scanned(m, w, h, g, t, L, starts)
    ensures Complete(m, g, t, L, starts)
  {
    CompleteBackground(m, w, h, g, t, L, starts);
    CompleteForeground(m, w, h, g, t, L, starts);
    CompleteAdjacent(m, w, h, g, t, L, starts);
  }

  /** The two ends of a foreground path lie in the same class. */
  lemma {:induction false} PathSameRoot(m: Grid, g: Grid, t: seq<int>, path: seq<Pos>)
    requires |t| == TableSize && FinalAdjacent(m, g, t)
    requires IsPath(m, path)
    ensures t[At(g, path[|path| - 1])] == t[At(g, path[0])]
    decreases |path|
  {
    var n := |path|;
    if n > 1 {
      var init := path[..n - 1];
      assert IsPath(m, init);
      PathSameRoot(m, g, t, init);
      assert Fg(m, path[n - 2]) && Fg(m, path[n - 1]) && Adjacent(path[n - 2], path[n - 1]);
    }
  }

  /** Two foreground pixels are in the same class exactly when they are
      connected. */
  lemma SameRootIffConnected(m: Grid, g: Grid, t: seq<int>, L: int, starts: seq<Pos>, p: Pos, q: Pos)
    requires Forest(t, L) && |starts| == L
    requires FinalForeground(m, g, t, L, starts) && FinalAdjacent(m, g, t)
    requires Fg(m, p) && Fg(m, q)
    ensures t[At(g, p)] == t[At(g, q)] <==> Connected(m, p, q)
  {
    if t[At(g, p)] == t[At(g, q)] {
      ConnectedSym(m, q, starts[t[At(g, q)]]);
      ConnectedTrans(m, p, starts[t[At(g, p)]], q);
    }
    if Connected(m, p, q) {
      var path :| IsPath(m, path) && path[0] == p && path[|path| - 1] == q;
      PathSameRoot(m, g, t, path);
    }
  }

  lemma ResolveBackground(m: Grid, w: int, h: int, g: Grid, t: seq<int>)
    requires IsGrid(m, w, h) && IsGrid(g, w, h) && |t| == TableSize
    requires forall a :: 0 <= a < TableSize ==> 0 <= t[a] < TableSize
    requires FinalBackground(m, g)
    ensures forall p :: InGrid(m, p) && !Fg(m, p) ==> At(Resolve(g, t), p) == 0
  {
  }

  lemma ResolveForeground(m: Grid, w: int, h: int, g: Grid, t: seq<int>, L: int, starts: seq<Pos>)
    requires IsGrid(m, w, h) && IsGrid(g, w, h) && Forest(t, L) && |starts| == L
    requires FinalForeground(m, g, t, L, starts)
    ensures forall p :: Fg(m, p) ==> At(Resolve(g, t), p) == t[At(g, p)]
    ensures forall p :: Fg(m, p) ==> 1 <= At(Resolve(g, t), p) <= MaxLabels
  {
  }

  /** A label used on the foreground after the second pass is a representative. */
  lemma UsedIsRoot(m: Grid, w: int, h: int, g: Grid, t: seq<int>, L: int, starts: seq<Pos>, r: int)
    requires IsGrid(m, w, h) && IsGrid(g, w, h) && Forest(t, L) && |starts| == L
    requires FinalForeground(m, g, t, L, starts)
    requires UsedLabel(m, Resolve(g, t), r)
    ensures 1 <= r < L && t[r] == r
  {
    var p :| Fg(m, p) && At(Resolve(g, t), p) == r;
    assert 1 <= At(g, p) < L;
  }

  /** Every representative is used: its start pixel carries it. */
  lemma RootIsUsed(m: Grid, w: int, h: int, g: Grid, t: seq<int>, L: int, starts: seq<Pos>, r: int)
    requires IsGrid(m, w, h) && IsGrid(g, w, h) && Forest(t, L) && |starts| == L
    requires FinalRoots(m, g, t, L, starts)
    requires 1 <= r < L && t[r] == r
    ensures UsedLabel(m, Resolve(g, t), r)
  {
    assert Fg(m, starts[r]) && At(Resolve(g, t), starts[r]) == r;
  }

  lemma ResolveLabels(m: Grid, w: int, h: int, g: Grid, t: seq<int>, L: int, starts: seq<Pos>)
    requires IsGrid(m, w, h) && IsGrid(g, w, h) && Forest(t, L) && |starts| == L
    requires FinalForeground(m, g, t, L, starts) && FinalRoots(m, g, t, L, starts)
    ensures forall r :: r in LabelsOf(m, Resolve(g, t)) <==> 1 <= r < L && t[r] == r
  {
    forall r | r in LabelsOf(m, Resolve(g, t))
      ensures 1 <= r < L && t[r] == r
    {
      UsedIsRoot(m, w, h, g, t, L, starts, r);
    }
    forall r | 1 <= r < L && t[r] == r
      ensures r in LabelsOf(m, Resolve(g, t))
    {
      RootIsUsed(m, w, h, g, t, L, starts, r);
    }
  }

  /** Two foreground pixels carry the same final label exactly when they are
      connected. */
  lemma ResolveSameLabel(m: Grid, w: int, h: int, g: Grid, t: seq<int>, L: int, starts: seq<Pos>, p: Pos, q: Pos)
    requires IsGrid(m, w, h) && IsGrid(g, w, h) && Forest(t, L) && |starts| == L
    requires FinalForeground(m, g, t, L, starts) && FinalAdjacent(m, g, t)
    requires Fg(m, p) && Fg(m, q)
    ensures At(Resolve(g, t), p) == At(Resolve(g, t), q) <==> Connected(m, p, q)
  {
    ResolveForeground(m, w, h, g, t, L, starts);
    SameRootIffConnected(m, g, t, L, starts, p, q);
  }

  lemma ResolveConnected(m: Grid, w: int, h: int, g: Grid, t: seq<int>, L: int, starts: seq<Pos>)
    requires IsGrid(m, w, h) && IsGrid(g, w, h) && Forest(t, L) && |starts| == L
    requires FinalForeground(m, g, t, L, starts) && FinalAdjacent(m, g, t)
    ensures forall p, q {:trigger At(Resolve(g, t), p), At(Resolve(g, t), q)} :: Fg(m, p) && Fg(m, q) ==>
      (At(Resolve(g, t), p) == At(Resolve(g, t), q) <==> Connected(m, p, q))
  {
    forall p, q | Fg(m, p) && Fg(m, q)
      ensures At(Resolve(g, t), p) == At(Resolve(g, t), q) <==> Connected(m, p, q)
    {
      ResolveSameLabel(m, w, h, g, t, L, starts, p, q);
    }
  }

  /** The label image the second pass produces is correct for the mask, and the
      labels it uses are exactly the representatives of the table. */
  lemma ResolveCorrect(m: Grid, w: int, h: int, g: Grid, t: seq<int>, L: int, starts: seq<Pos>)
    requires IsGrid(m, w, h) && IsGrid(g, w, h) && Complete(m, g, t, L, starts)
    ensures IsGrid(Resolve(g, t), w, h)
    ensures LabelsCorrect(m, Resolve(g, t))
    ensures forall r :: r in LabelsOf(m, Resolve(g, t)) <==> 1 <= r < L && t[r] == r
  {
    ResolveBackground(m, w, h, g, t);
    ResolveForeground(m, w, h, g, t, L, starts);
    ResolveConnected(m, w, h, g, t, L, starts);
    ResolveLabels(m, w, h, g, t, L, starts);
  }

  /** A foreground pixel's provisional label is at most one more than the start
      pixels before it: the label was opened at a start pixel that the pixel does
      not precede. */
  lemma ScanOrder(m: Grid, w: int, h: int, g: Grid, t: seq<int>, L: int, starts: seq<Pos>, p: Pos)
    requires Scanned(m, w, h, g, t, L, starts)
    requires Fg(m, p)
    ensures At(g, p) <= StartsBefore(m, w, p) + 1
  {
    var c := Pos(1, LastRow(h));
    AllScanned(m, h, p);
    assert InGrid(m, p);
    assert ScannedOk(m, g, L, starts, c) && StartsOk(m, w, g, L, starts, c);
    var s := starts[At(g, p)];
    if p != s {
      StartsBeforeStrict(m, w, s, p);
    }
  }

  /** A final label never exceeds the provisional label of any pixel of its
      blob: the table only maps a label to a smaller one. */
  lemma ResolveAtMost(m: Grid, w: int, h: int, g: Grid, t: seq<int>, L: int, starts: seq<Pos>, p: Pos, q: Pos)
    requires Scanned(m, w, h, g, t, L, starts)
    requires Connected(m, p, q)
    ensures At(Resolve(g, t), p) <= StartsBefore(m, w, q) + 1
  {
    ScanComplete(m, w, h, g, t, L, starts);
    ConnectedFg(m, p, q);
    ResolveForeground(m, w, h, g, t, L, starts);
    SameRootIffConnected(m, g, t, L, starts, p, q);
    ScanOrder(m, w, h, g, t, L, starts, q);
  }

  /** The final label of a foreground pixel is the provisional label of the start
      pixel of its class, which lies in its blob. */
  lemma ResolveAtStart(m: Grid, w: int, h: int, g: Grid, t: seq<int>, L: int, starts: seq<Pos>, p: Pos)
    requires Scanned(m, w, h, g, t, L, starts)
    requires Fg(m, p)
    ensures exists q :: Connected(m, p, q) && IsStart(m, q) && At(Resolve(g, t), p) == StartsBefore(m, w, q) + 1
  {
    ScanComplete(m, w, h, g, t, L, starts);
    ResolveForeground(m, w, h, g, t, L, starts);
    var r := t[At(g, p)];
    assert StartsOk(m, w, g, L, starts, Pos(1, LastRow(h)));
    assert Connected(m, p, starts[r]) && IsStart(m, starts[r]);
  }

  /** The second pass numbers each blob by the first start pixel of the blob. */
  lemma ResolveCanonical(m: Grid, w: int, h: int, g: Grid, t: seq<int>, L: int, starts: seq<Pos>)
    requires Scanned(m, w, h, g, t, L, starts)
    ensures LabelsCanonical(m, w, Resolve(g, t))
  {
    forall p, q | Connected(m, p, q)
      ensures At(Resolve(g, t), p) <= StartsBefore(m, w, q) + 1
    {
      ResolveAtMost(m, w, h, g, t, L, starts, p, q);
    }
    forall p | Fg(m, p)
      ensures exists q :: Connected(m, p, q) && IsStart(m, q) && At(Resolve(g, t), p) == StartsBefore(m, w, q) + 1
    {
      ResolveAtStart(m, w, h, g, t, L, starts, p);
    }
  }

  /** Read off a canonical label image: the raster-first pixel `q` of a blob is a
      start pixel, and every pixel of the blob carries the label opened at `q`. */
  lemma FirstPixelLabel(m: Grid, w: int, h: int, G: Grid, p: Pos, q: Pos)
    requires IsGrid(m, w, h) && LabelsCanonical(m, w, G)
    requires Connected(m, p, q)
    requires forall q' :: Connected(m, p, q') ==> !Before(q', q)
    ensures IsStart(m, q)
    ensures At(G, p) == StartsBefore(m, w, q) + 1
  {
    ConnectedFg(m, p, q);
    forall n | IsCausal(n, q) && Fg(m, n)
      ensures false
    {
      CausalNeighbours(q, n);
      ConnectedAdjacent(m, q, n);
      ConnectedTrans(m, p, q, n);
    }
    var s :| Connected(m, p, s) && IsStart(m, s) && At(G, p) == StartsBefore(m, w, s) + 1;
    if s != q {
      StartsBeforeStrict(m, w, q, s);
    }
  }
}

/** The entry point `vc_binary_blob_labelling`: argument checks, the two passes,
    the blob count and the blob array. */
module BlobLabeller {
  import opened Images
  import opened Connectivity
  import opened LabelTable
  import opened Labelling
  import opened BlobLabelling

  /** What a call returns. `Rejected`: the checks of lines 1319-1321 fail, NULL is
      returned and nothing is written. `Overflow`: the first scan would need a
      256th provisional label, which neither the byte-sized labels nor the
      256-entry table of the source can hold. `Labelled`: `dst` is the label image, `nlabels` the blob count, and
      `blobs` the returned array, `None` for the NULL returned when there is no
      blob. */
  datatype Outcome =
    | Rejected
    | Overflow
    | Labelled(dst: Image, nlabels: int, blobs: Option<seq<Blob>>)

  /** The argument checks of lines 1319-1321. */
  predicate Accepts(src: Image, dst: Image) {
    && src.width > 0 && src.height > 0 && src.data.Some?
    && src.width == dst.width && src.height == dst.height && src.channels == dst.channels
    && src.channels == 1
  }

  /** The labels the blob array carries, in array order. */
  function Tags(blobs: seq<Blob>): (s: seq<int>)
    ensures |s| == |blobs| && forall i :: 0 <= i < |blobs| ==> s[i] == blobs[i].tag
  {
    seq(|blobs|, i requires 0 <= i < |blobs| => blobs[i].tag)
  }

  /** A successful labelling of `src` into `dst`: only the buffer of `dst`
      changes, and it holds a correct label image of the mask that numbers each
      blob by its first start pixel; the count is the
      number of distinct labels in use; the array is absent exactly when the count
      is 0, and otherwise holds one fresh record per label, in increasing label
      order. */
  ghost predicate LabelledOk(src: Image, dst: Image, out: Outcome)
    requires WellFormed(src) && Accepts(src, dst) && out.Labelled?
  {
    var m := GridOf(src);
    var w, h := src.width, src.height;
    && out.dst == dst.(data := out.dst.data)
    && out.dst.data.Some? && |out.dst.data.value| == w * h
    && var G := Rows(out.dst.data.value, w, h);
    && LabelsCorrect(m, G)
    && out.nlabels == |LabelsOf(m, G)|
    && (out.blobs.None? <==> out.nlabels == 0)
    && (out.blobs.Some? ==>
          && |out.blobs.value| == out.nlabels
          && (forall i :: 0 <= i < |out.blobs.value| ==> out.blobs.value[i] == EmptyBlob(out.blobs.value[i].tag))
          && (forall i, j :: 0 <= i < j < |out.blobs.value| ==> out.blobs.value[i].tag < out.blobs.value[j].tag)
          && (forall r :: r in Tags(out.blobs.value) <==> r in LabelsOf(m, G)))
    && LabelsCanonical(m, w, G)
  }

  /** The labels in use are the representatives of the final table. */
  lemma LabelCount(m: Grid, G: Grid, t: seq<int>, L: int)
    requires L <= |t|
    requires forall r :: r in LabelsOf(m, G) <==> 1 <= r < L && t[r] == r
    ensures |LabelsOf(m, G)| == |RootsBelow(t, L)|
  {
    RootsBelowSpec(t, L);
    IncreasingCard(RootsBelow(t, L));
    assert LabelsOf(m, G) == set r | r in RootsBelow(t, L);
  }

  /** After a complete first scan, the second pass yields a correct label image
      whose labels in use are the representatives of the table. */
  lemma ScanResolves(m: Grid, w: nat, h: nat, g: Grid, t: seq<int>, L: int, starts: seq<Pos>)
    requires Scanned(m, w, h, g, t, L, starts)
    ensures Forest(t, L)
    ensures IsGrid(Resolve(g, t), w, h) && LabelsCorrect(m, Resolve(g, t))
    ensures LabelsCanonical(m, w, Resolve(g, t))
    ensures forall r :: r in LabelsOf(m, Resolve(g, t)) <==> 1 <= r < L && t[r] == r
  {
    ScanComplete(m, w, h, g, t, L, starts);
    ResolveCorrect(m, w, h, g, t, L, starts);
    ResolveCanonical(m, w, h, g, t, L, starts);
  }

  /** Lines 1444-1478: the second pass, and the blob count that dedupes and
      compacts the table. The compacted table lists the labels the final image
      uses, in increasing order. */
  method Finish(m: Grid, w: nat, h: nat, g: Grid, t: seq<int>, L: int)
    returns (labels: Grid, table: seq<int>, count: int)
    requires Forest(t, L)
    requires IsGrid(Resolve(g, t), w, h) && LabelsCorrect(m, Resolve(g, t))
    requires forall r :: r in LabelsOf(m, Resolve(g, t)) <==> 1 <= r < L && t[r] == r
    ensures labels == Resolve(g, t)
    ensures |table| == TableSize && 0 <= count <= |table|
    ensures forall i, j :: 0 <= i < j < count ==> table[i] < table[j]
    ensures forall r :: r in table[..count] <==> r in LabelsOf(m, labels)
    ensures count == |LabelsOf(m, labels)|
  {
    labels := Resolve(g, t);
    LabelCount(m, labels, t, L);
    RootsBelowSpec(t, L);
    var kept := Dedupe(t, L);
    SurvivorsAreRoots(t, kept, L);
    table, count := Compact(kept, L);
    ghost var roots := RootsBelow(t, L);
    assert table[..count] == roots;
    forall i, j | 0 <= i < j < count
      ensures table[i] < table[j]
    {
      assert table[i] == roots[i] && table[j] == roots[j];
    }
  }

  /** Builds the result of a successful labelling from the label image and the
      compacted table (lines 1480-1491). */
  method Package(src: Image, dst: Image, labels: Grid, table: seq<int>, count: int) returns (out: Outcome)
    requires WellFormed(src) && Accepts(src, dst)
    requires IsGrid(labels, src.width, src.height) && LabelsCorrect(GridOf(src), labels)
    requires LabelsCanonical(GridOf(src), src.width, labels)
    requires |table| == TableSize && 0 <= count <= |table|
    requires forall i, j :: 0 <= i < j < count ==> table[i] < table[j]
    requires forall r :: r in table[..count] <==> r in LabelsOf(GridOf(src), labels)
    requires count == |LabelsOf(GridOf(src), labels)|
    ensures out.Labelled? && LabelledOk(src, dst, out)
  {
    RowsOfFlatten(labels, src.width, src.height);
    var dst' := dst.(data := Some(Flatten(labels)));
    if count == 0 {
      return Labelled(dst', 0, None);
    }
    var blobs := seq(count, i requires 0 <= i < count => EmptyBlob(table[i]));
    assert Tags(blobs) == table[..count];
    out := Labelled(dst', count, Some(blobs));
  }

  /** Lines 1301-1492. */
  method BlobLabel(src: Image, dst: Image) returns (out: Outcome)
    requires WellFormed(src) && WellFormed(dst)
    requires Accepts(src, dst) ==> dst.data.Some?
    ensures out.Rejected? <==> !Accepts(src, dst)
    ensures out.Overflow? <==> Accepts(src, dst) && ProvisionalCount(GridOf(src), src.width) > MaxLabels
    ensures out.Labelled? ==> Accepts(src, dst) && LabelledOk(src, dst, out)
  {
    if !Accepts(src, dst) {
      return Rejected;
    }
    var m := GridOf(src);
    var ok, g, t, L;
    ghost var starts;
    ok, g, t, L, starts := FirstScan(m, src.width, src.height);
    if !ok {
      return Overflow;
    }
    ScanResolves(m, src.width, src.height, g, t, L, starts);
    var labels, table, count := Finish(m, src.width, src.height, g, t, L);
    out := Package(src, dst, labels, table, count);
  }
}
