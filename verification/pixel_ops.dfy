/** The per-pixel operators of vc.c: the gray negative, the binary negative,
    gray-to-binary thresholding and HSV range segmentation. Each works on the flat
    buffer of an image, addressing pixel (x, y) at byte `y * bytesperline + x * channels`. */
module PixelOps {
  import opened Images

  /** The checks shared by the single-channel operators: positive size, a buffer,
      one channel. */
  predicate GrayOk(img: Image) {
    img.width > 0 && img.height > 0 && img.data.Some? && img.channels == 1
  }

  /** The gray negative of one byte. */
  function Invert(v: byte): byte {
    255 - v
  }

  /** The binary negative of one byte: background becomes foreground and every
      nonzero byte becomes background. */
  function Flip(v: byte): byte {
    if v == 0 then 255 else 0
  }

  /** `vc_gray_negative` (vc.c:415-443): every byte of a single-channel image is
      replaced by 255 minus itself; any other image is refused and left alone. */
  method GrayNegative(img: Image) returns (ok: bool, out: Image)
    requires WellFormed(img)
    ensures ok <==> GrayOk(img)
    ensures !ok ==> out == img
    ensures ok ==> out == img.(data := out.data) && out.data.Some?
    ensures ok ==> |out.data.value| == |img.data.value|
    ensures ok ==> forall i :: 0 <= i < |img.data.value| ==> out.data.value[i] == Invert(img.data.value[i])
    ensures ok ==> Negative(out.data.value) == img.data.value
  {
    if !GrayOk(img) {
      return false, img;
    }
    var d := img.data.value;
    var w, h, bpl, ch := img.width, img.height, img.bytesperline, img.channels;
    var r: seq<byte> := d;
    ghost var next := 0;  // the byte the scan reaches next
    var y := 0;
    while y < h
      invariant 0 <= y <= h && |r| == |d| && next == y * bpl
      invariant forall i :: 0 <= i < |d| ==> r[i] == if i < next then Invert(d[i]) else d[i]
    {
      MulLe(y + 1, h, bpl);
      var x := 0;
      while x < w
        invariant 0 <= x <= w && |r| == |d| && next == y * bpl + x
        invariant forall i :: 0 <= i < |d| ==> r[i] == if i < next then Invert(d[i]) else d[i]
      {
        var pos := y * bpl + x * ch;
        r := r[pos := Invert(r[pos])];
        next := next + 1;
        x := x + 1;
      }
      assert (y + 1) * bpl == y * bpl + bpl;
      y := y + 1;
    }
    assert r == Negative(d);
    NegativeInvolution(d);
    return true, img.(data := Some(r));
  }

  /** Applying the gray negative twice gives back every byte. */
  lemma InvertInvolution(v: byte)
    ensures Invert(Invert(v)) == v
  {
  }

  /** The gray negative of a buffer, as a function. */
  function Negative(d: seq<byte>): (r: seq<byte>)
    ensures |r| == |d|
  {
    seq(|d|, i requires 0 <= i < |d| => Invert(d[i]))
  }

  /** The gray negative is an involution on whole buffers. */
  lemma NegativeInvolution(d: seq<byte>)
    ensures Negative(Negative(d)) == d
  {
    forall i | 0 <= i < |d|
      ensures Negative(Negative(d))[i] == d[i]
    {
      InvertInvolution(d[i]);
    }
  }

  /** The bytes below `next` that start a pixel are flipped; every other byte is
      as in `d`. */
  ghost predicate FlippedBelow(d: seq<byte>, r: seq<byte>, next: int, ch: int)
    requires ch > 0
  {
    |r| == |d| && forall i :: 0 <= i < |d| ==> r[i] == if i < next && i % ch == 0 then Flip(d[i]) else d[i]
  }

  /** Flipping the first byte of pixel `k` advances `FlippedBelow` past the pixel. */
  lemma FlipStep(d: seq<byte>, r: seq<byte>, k: int, ch: int)
    requires ch > 0 && 0 <= k * ch && k * ch + ch <= |d|
    requires FlippedBelow(d, r, k * ch, ch)
    ensures FlippedBelow(d, r[k * ch := Flip(r[k * ch])], k * ch + ch, ch)
  {
    var pos := k * ch;
    DivModOf(k, ch, 0);
    forall i | pos < i < pos + ch
      ensures i % ch != 0
    {
      DivModOf(k, ch, i - pos);
    }
  }

  /** `vc_binary_get_negative` (vc.c:880-906): the first byte of every pixel is
      flipped between background and foreground; the other channels are kept. The
      source makes no check, so an empty image is left as it is and a non-empty
      one must have a buffer and at least one channel. */
  method BinaryGetNegative(img: Image) returns (out: Image)
    requires WellFormed(img)
    requires img.width > 0 && img.height > 0 ==> img.data.Some? && img.channels > 0
    ensures out == img.(data := out.data)
    ensures img.width <= 0 || img.height <= 0 ==> out == img
    ensures img.width > 0 && img.height > 0 ==>
      && out.data.Some? && |out.data.value| == |img.data.value|
      && forall i :: 0 <= i < |img.data.value| ==>
           out.data.value[i] == if i % img.channels == 0 then Flip(img.data.value[i]) else img.data.value[i]
  {
    if img.width <= 0 || img.height <= 0 {
      return img;
    }
    var d := img.data.value;
    var w, h, bpl, ch := img.width, img.height, img.bytesperline, img.channels;
    var r: seq<byte> := d;
    ghost var k := 0;  // the pixel the scan reaches next
    var y := 0;
    while y < h
      invariant 0 <= y <= h && y * bpl == k * ch
      invariant FlippedBelow(d, r, k * ch, ch)
    {
      MulLe(y + 1, h, bpl);
      var x := 0;
      while x < w
        invariant 0 <= x <= w && y * bpl + x * ch == k * ch
        invariant FlippedBelow(d, r, k * ch, ch)
      {
        assert (x + 1) * ch == x * ch + ch;
        assert (k + 1) * ch == k * ch + ch;
        MulLe(x + 1, w, ch);
        var pos := y * bpl + x * ch;
        FlipStep(d, r, k, ch);
        r := r[pos := Flip(r[pos])];
        k := k + 1;
        x := x + 1;
      }
      assert (y + 1) * bpl == y * bpl + bpl;
      y := y + 1;
    }
    return img.(data := Some(r));
  }

  /** The binary negative of a single-channel image is its gray negative
      wherever a byte is already 0 or 255. */
  lemma FlipIsInvert(v: byte)
    requires v == 0 || v == 255
    ensures Flip(v) == Invert(v)
  {
  }

  /** Flipping twice makes a byte binary: 0 stays 0 and every nonzero byte
      becomes 255. */
  lemma FlipTwice(v: byte)
    ensures Flip(Flip(v)) == if v == 0 then 0 else 255
  {
  }

  /** The binary negative of a buffer, as a function: the first byte of every
      `ch`-byte pixel is flipped. */
  function FlipPixels(d: seq<byte>, ch: int): (r: seq<byte>)
    requires ch > 0
    ensures |r| == |d|
  {
    seq(|d|, i requires 0 <= i < |d| => if i % ch == 0 then Flip(d[i]) else d[i])
  }

  /** On a buffer whose first channel is binary, the binary negative is an
      involution. */
  lemma FlipPixelsTwice(d: seq<byte>, ch: int)
    requires ch > 0
    requires forall i :: 0 <= i < |d| && i % ch == 0 ==> d[i] == 0 || d[i] == 255
    ensures FlipPixels(FlipPixels(d, ch), ch) == d
  {
    forall i | 0 <= i < |d|
      ensures FlipPixels(FlipPixels(d, ch), ch)[i] == d[i]
    {
      if i % ch == 0 {
        FlipTwice(d[i]);
      }
    }
  }

  /** The threshold rule of `vc_gray_to_binary`. */
  function Threshold(v: byte, threshold: int): byte {
    if v < threshold then 0 else 255
  }

  /** `vc_gray_to_binary` (vc.c:838-872): each byte of a single-channel source
      becomes 0 below the threshold and 255 otherwise, in the single-channel
      destination, whose level count becomes 2. */
  method GrayToBinary(src: Image, dst: Image, threshold: int) returns (ok: bool, out: Image)
    requires WellFormed(src) && WellFormed(dst)
    requires GrayOk(src) && dst.channels == 1 ==>
      dst.data.Some? && dst.width == src.width && dst.height == src.height
    ensures ok <==> GrayOk(src) && dst.channels == 1
    ensures !ok ==> out == dst
    ensures ok ==> out == dst.(data := out.data, levels := 2) && out.data.Some?
    ensures ok ==> |out.data.value| == |src.data.value|
    ensures ok ==> forall i :: 0 <= i < |src.data.value| ==> out.data.value[i] == Threshold(src.data.value[i], threshold)
  {
    if !GrayOk(src) || dst.channels != 1 {
      return false, dst;
    }
    var sd, dd := src.data.value, dst.data.value;
    var w, h := src.width, src.height;
    var sbpl, dbpl, sch, dch := src.bytesperline, dst.bytesperline, src.channels, dst.channels;
    var r: seq<byte> := dd;
    ghost var next := 0;
    var y := 0;
    while y < h
      invariant 0 <= y <= h && |r| == |dd| && next == y * sbpl
      invariant forall i :: 0 <= i < |dd| ==> r[i] == if i < next then Threshold(sd[i], threshold) else dd[i]
    {
      MulLe(y + 1, h, sbpl);
      var x := 0;
      while x < w
        invariant 0 <= x <= w && |r| == |dd| && next == y * sbpl + x
        invariant forall i :: 0 <= i < |dd| ==> r[i] == if i < next then Threshold(sd[i], threshold) else dd[i]
      {
        var spos := y * sbpl + x * sch;
        var dpos := y * dbpl + x * dch;
        if sd[spos] < threshold {
          r := r[dpos := 0];
        } else {
          r := r[dpos := 255];
        }
        next := next + 1;
        x := x + 1;
      }
      assert (y + 1) * sbpl == y * sbpl + sbpl;
      y := y + 1;
    }
    return true, dst.(data := Some(r), levels := 2);
  }

  /** A higher threshold never turns a background byte into foreground. */
  lemma ThresholdMonotone(v: byte, t1: int, t2: int)
    requires t1 <= t2
    ensures Threshold(v, t2) <= Threshold(v, t1)
  {
  }

  /** Thresholding yields a binary byte that is foreground exactly at or above the
      threshold, and thresholding that again at any level in 1..255 keeps it. */
  lemma ThresholdBinary(v: byte, threshold: int, t: int)
    requires 1 <= t <= 255
    ensures Threshold(v, threshold) == 255 <==> v >= threshold
    ensures Threshold(Threshold(v, threshold), t) == Threshold(v, threshold)
  {
  }

  /** The binary negative of a thresholded byte is the gray negative thresholded
      at the mirrored level. */
  lemma ThresholdNegative(v: byte, threshold: int)
    ensures Flip(Threshold(v, threshold)) == Threshold(Invert(v), 256 - threshold)
  {
  }

  /** Thresholding a buffer, as a function. */
  function Binarize(d: seq<byte>, threshold: int): (r: seq<byte>)
    ensures |r| == |d|
  {
    seq(|d|, i requires 0 <= i < |d| => Threshold(d[i], threshold))
  }

  /** A thresholded buffer is binary, so thresholding it again at any level in
      1..255 changes nothing. */
  lemma BinarizeIdempotent(d: seq<byte>, threshold: int, t: int)
    requires 1 <= t <= 255
    ensures Binarize(Binarize(d, threshold), t) == Binarize(d, threshold)
  {
    forall i | 0 <= i < |d|
      ensures Binarize(Binarize(d, threshold), t)[i] == Binarize(d, threshold)[i]
    {
      ThresholdBinary(d[i], threshold, t);
    }
  }

  /** The six bounds of `vc_hsv_segmentation`. */
  datatype HsvRange = HsvRange(minHue: byte, maxHue: byte, minSat: byte, maxSat: byte, minVal: byte, maxVal: byte)

  /** A pixel with hue `hue`, saturation `sat` and value `val` lies in the range. */
  predicate InRange(b: HsvRange, hue: byte, sat: byte, val: byte) {
    b.minHue <= hue <= b.maxHue && b.minSat <= sat <= b.maxSat && b.minVal <= val <= b.maxVal
  }

  /** Byte `i` of a buffer, 0 past its end. */
  function ByteAt(d: seq<byte>, i: int): byte {
    if 0 <= i < |d| then d[i] else 0
  }

  /** The segmentation of pixel `k` of a `ch`-channel buffer: 255 when its first
      three channels are in range, 0 otherwise. */
  function Segment(d: seq<byte>, ch: int, k: int, b: HsvRange): byte {
    if InRange(b, ByteAt(d, k * ch), ByteAt(d, k * ch + 1), ByteAt(d, k * ch + 2)) then 255 else 0
  }

  /** `inner` admits no pixel that `outer` refuses: each of its bounds is as
      tight or tighter. */
  predicate Narrower(inner: HsvRange, outer: HsvRange) {
    && outer.minHue <= inner.minHue && inner.maxHue <= outer.maxHue
    && outer.minSat <= inner.minSat && inner.maxSat <= outer.maxSat
    && outer.minVal <= inner.minVal && inner.maxVal <= outer.maxVal
  }

  /** The full range 0..255 on every channel keeps every pixel. */
  lemma SegmentFullRange(d: seq<byte>, ch: int, k: int)
    ensures Segment(d, ch, k, HsvRange(0, 255, 0, 255, 0, 255)) == 255
  {
  }

  /** An empty hue, saturation or value range keeps no pixel. */
  lemma SegmentEmptyRange(d: seq<byte>, ch: int, k: int, b: HsvRange)
    requires b.minHue > b.maxHue || b.minSat > b.maxSat || b.minVal > b.maxVal
    ensures Segment(d, ch, k, b) == 0
  {
  }

  /** Narrowing the range never adds foreground: the segmentation under a
      narrower range is pixel-wise at most the one under the wider range. */
  lemma SegmentNarrowing(d: seq<byte>, ch: int, k: int, inner: HsvRange, outer: HsvRange)
    requires Narrower(inner, outer)
    ensures Segment(d, ch, k, inner) <= Segment(d, ch, k, outer)
    ensures Segment(d, ch, k, inner) == 255 ==> Segment(d, ch, k, outer) == 255
  {
  }

  /** The first `k` bytes of `r` hold the segmentation of the first `k` pixels of
      `sd`, and the rest is as in `dd`. */
  ghost predicate SegmentedBelow(sd: seq<byte>, dd: seq<byte>, r: seq<byte>, k: int, ch: int, b: HsvRange) {
    && |r| == |dd|
    && (forall j :: 0 <= j < k && j < |dd| ==> r[j] == Segment(sd, ch, j, b))
    && (forall j :: 0 <= j < |dd| && k <= j ==> r[j] == dd[j])
  }

  lemma SegmentStep(sd: seq<byte>, dd: seq<byte>, r: seq<byte>, k: int, ch: int, b: HsvRange)
    requires 0 <= k < |dd| && SegmentedBelow(sd, dd, r, k, ch, b)
    ensures SegmentedBelow(sd, dd, r[k := Segment(sd, ch, k, b)], k + 1, ch, b)
  {
  }

  /** The loop counter `i = k * ch` of the segmentation stays below `n * ch` only
      while `k < n`, the pixel's three bytes lie before `(k + 1) * ch`, and
      `i / ch` is the pixel index `k`. */
  lemma SegmentIndex(n: int, ch: int, k: int)
    requires ch > 0 && 0 <= k && k * ch < n * ch
    ensures k < n && k * ch + ch <= n * ch && (k * ch) / ch == k
  {
    if k >= n {
      MulLe(n, k, ch);
    }
    MulLe(k + 1, n, ch);
    assert (k + 1) * ch == k * ch + ch;
    DivModOf(k, ch, 0);
  }

  /** `vc_hsv_segmentation` (vc.c:458-487): byte `k` of the destination becomes 255
      when the first three channels of pixel `k` of the source are in range, and 0
      otherwise; the rest of the destination is kept. The source makes no check:
      when there is something to scan, the source must have at least the three
      channels read per pixel and the destination one byte per pixel. */
  method HsvSegmentation(src: Image, dst: Image, b: HsvRange) returns (out: Image)
    requires WellFormed(src)
    requires src.width * src.height * src.channels > 0 ==>
      && src.width > 0 && src.height > 0 && src.channels >= 3
      && src.data.Some? && dst.data.Some? && |dst.data.value| >= src.width * src.height
    ensures out == dst.(data := out.data)
    ensures src.width * src.height * src.channels <= 0 ==> out == dst
    ensures src.width * src.height * src.channels > 0 ==>
      && out.data.Some? && |out.data.value| == |dst.data.value|
      && (forall k :: 0 <= k < src.width * src.height ==>
            out.data.value[k] == Segment(src.data.value, src.channels, k, b))
      && (forall j :: src.width * src.height <= j < |dst.data.value| ==> out.data.value[j] == dst.data.value[j])
  {
    var w, h, ch := src.width, src.height, src.channels;
    var size := w * h * ch;
    if size <= 0 {
      return dst;
    }
    var sd, dd := src.data.value, dst.data.value;
    ghost var n := w * h;
    assert size == n * ch && |sd| == size;
    var r: seq<byte> := dd;
    ghost var k := 0;
    var i := 0;
    while i < size
      invariant 0 <= k <= n && i == k * ch
      invariant SegmentedBelow(sd, dd, r, k, ch, b)
    {
      SegmentIndex(n, ch, k);
      var hue, sat, val := sd[i], sd[i + 1], sd[i + 2];
      SegmentStep(sd, dd, r, k, ch, b);
      if hue >= b.minHue && hue <= b.maxHue && sat >= b.minSat && sat <= b.maxSat && val >= b.minVal && val <= b.maxVal {
        r := r[i / ch := 255];
      } else {
        r := r[i / ch := 0];
      }
      i := i + ch;
      k := k + 1;
    }
    if k < n {
      MulLe(k + 1, n, ch);
    }
    return dst.(data := Some(r));
  }

  /** Every byte the segmentation reads lies inside a well-formed source: pixel
      `k < width * height` has its three channels in the buffer. */
  lemma SegmentReadsInside(src: Image, k: int)
    requires WellFormed(src) && src.data.Some? && src.width > 0 && src.height > 0 && src.channels >= 3
    requires 0 <= k < src.width * src.height
    ensures 0 <= k * src.channels && k * src.channels + 2 < |src.data.value|
  {
    var ch := src.channels;
    MulLe(k + 1, src.width * src.height, ch);
    assert (k + 1) * ch == k * ch + ch;
    assert src.width * src.height * ch == src.bytesperline * src.height;
  }
}
