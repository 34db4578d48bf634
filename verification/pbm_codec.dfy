/** The 1-bit raster codec of the PBM (`P4`) format (vc.c:133-220). Each row of a
    binary image is packed most significant bit first into `ceil(width / 8)`
    bytes, rows start on a byte boundary and the padding bits are 0. The library
    stores white as nonzero, so a bit is set exactly for a pixel equal to 0, and
    unpacking gives 0 for a set bit and 1 for a clear one. */
module PbmCodec {
  import opened Images

  /** The bytes one packed row of `w` pixels takes: `w / 8 + (w % 8 ? 1 : 0)`
      (vc.c:274 and 364). */
  function RowBytes(w: int): int
    requires w > 0
  {
    w / 8 + (if w % 8 != 0 then 1 else 0)
  }

  /** Whether the encoder sets the bit of pixel `i` of `row`: for a 0 pixel, not
      for any other value and not for the padding past the end of the row. */
  predicate PixelSet(row: seq<byte>, i: int) {
    0 <= i < |row| && row[i] == 0
  }

  /** The mask `1 << (8 - countbits)` for the pixel at position `j` (0 to 7) of
      its byte, `countbits` being `j + 1` (see `MaskIsShift`). */
  function Mask(j: int): bv8
    requires 0 <= j < 8
  {
    [0x80, 0x40, 0x20, 0x10, 0x08, 0x04, 0x02, 0x01][j]
  }

  lemma MaskIsShift(j: int)
    requires 0 <= j < 8
    ensures Mask(j) == 1 << (7 - j)
  {
  }

  /** Two masks share a bit exactly when they are the same mask. */
  lemma MaskOverlap(i: int, j: int)
    requires 0 <= i < 8 && 0 <= j < 8
    ensures Mask(i) & Mask(j) != 0 <==> i == j
  {
  }

  lemma OrBit(a: bv8, b: bv8, m: bv8)
    ensures (a | b) & m != 0 <==> a & m != 0 || b & m != 0
  {
  }

  lemma ByteBack(v: bv8)
    ensures (v as int) as bv8 == v
  {
  }

  /** Bit `j` of `b`, counting from the most significant. */
  predicate TestBit(b: byte, j: int)
    requires 0 <= j < 8
  {
    (b as bv8) & Mask(j) != 0
  }

  /** Byte `k` of a packed row once its first `n` pixels are in (lines 156-172). */
  function Partial(row: seq<byte>, k: int, n: int): bv8
    requires 0 <= n <= 8
    decreases n
  {
    if n == 0 then 0 else Partial(row, k, n - 1) | (if PixelSet(row, 8 * k + n - 1) then Mask(n - 1) else 0)
  }

  function PackByte(row: seq<byte>, k: int): byte {
    Partial(row, k, 8) as int
  }

  /** The packed image: row `y`, byte `k`. */
  function PackedGrid(d: seq<byte>, w: int, h: int): (g: Grid)
    requires w > 0 && h > 0 && |d| == w * h
    ensures IsGrid(g, RowBytes(w), h)
  {
    var rows := Rows(d, w, h);
    seq(h, y requires 0 <= y < h => seq(RowBytes(w), k => PackByte(rows[y], k)))
  }

  /** Bit `j` of a partly filled byte is the pixel bit of its pixel once that
      pixel is in, and clear before. */
  lemma {:induction false} PartialBits(row: seq<byte>, k: int, n: int, j: int)
    requires 0 <= n <= 8 && 0 <= j < 8
    ensures Partial(row, k, n) & Mask(j) != 0 <==> j < n && PixelSet(row, 8 * k + j)
    decreases n
  {
    if n > 0 {
      PartialBits(row, k, n - 1, j);
      var m: bv8 := if PixelSet(row, 8 * k + n - 1) then Mask(n - 1) else 0;
      OrBit(Partial(row, k, n - 1), m, Mask(j));
      MaskOverlap(n - 1, j);
    }
  }

  /** Every bit of a packed byte: set exactly for a 0 pixel of the row, so clear
      in the padding past its end. */
  lemma PackByteBits(row: seq<byte>, k: int, j: int)
    requires 0 <= j < 8
    ensures TestBit(PackByte(row, k), j) <==> 0 <= 8 * k + j < |row| && row[8 * k + j] == 0
  {
    var v := Partial(row, k, 8);
    ByteBack(v);
    assert PackByte(row, k) as bv8 == v;
    PartialBits(row, k, 8, j);
  }

  /** Once the row has ended, the remaining pixels add nothing to the byte. */
  lemma {:induction false} PartialPad(row: seq<byte>, k: int, n: int)
    requires 0 <= n <= 8 && 8 * k + n >= |row|
    ensures Partial(row, k, n) == Partial(row, k, 8)
    decreases 8 - n
  {
    if n < 8 {
      PartialPad(row, k, n + 1);
    }
  }

  /** Pixel `8 * n + c - 1` (`c` from 1 to 8) is bit `c - 1` of byte `n`. */
  lemma PixelDivMod(n: int, c: int)
    requires 0 <= n && 1 <= c <= 8
    ensures (8 * n + c - 1) / 8 == n && (8 * n + c - 1) % 8 == c - 1
  {
    DivModOf(n, 8, c - 1);
    assert n * 8 == 8 * n;
  }

  /** Byte `n` holding pixel `8 * n + c - 1` of a row of `w` pixels is inside
      the packed row, and is its last byte when that pixel is the last one. */
  lemma ByteInRow(w: int, n: int, c: int)
    requires 0 <= n && 1 <= c <= 8 && 8 * n + c - 1 < w
    ensures n < RowBytes(w)
    ensures 8 * n + c == w ==> RowBytes(w) == n + 1
  {
    if 8 * n + c == w {
      if c == 8 {
        DivModOf(n + 1, 8, 0);
      } else {
        DivModOf(n, 8, c);
      }
      assert n * 8 == 8 * n;
    } else {
      var q := w / 8;
      assert w == q * 8 + w % 8;
      if q < n {
        MulLe(q + 1, n, 8);
      }
    }
  }

  /** Adding pixel `8 * n + countbits - 1` under its mask (line 168) extends the
      running byte by that pixel. */
  lemma PackStep(row: seq<byte>, x: int, n: int, countbits: int, cur: bv8)
    requires 0 <= n && 1 <= countbits <= 8 && x == 8 * n + countbits - 1 < |row|
    requires cur == Partial(row, n, countbits - 1)
    ensures cur | (if row[x] == 0 then Mask(countbits - 1) else 0) == Partial(row, n, countbits)
  {
  }

  /** After the eighth pixel or the last pixel of the row the byte is complete. */
  lemma ByteComplete(row: seq<byte>, n: int, countbits: int, cur: bv8)
    requires 0 <= n && 1 <= countbits <= 8 && (countbits == 8 || 8 * n + countbits == |row|)
    requires cur == Partial(row, n, countbits)
    ensures cur as int == PackByte(row, n)
  {
    if countbits < 8 {
      PartialPad(row, n, countbits);
    }
  }

  /** The state of the inner loop of `unsigned_char_to_bit` once the first `x`
      pixels of `row` were visited: `rb` holds the completed bytes, and `cur`
      the byte under construction, `countbits - 1` pixels in. */
  ghost predicate Packing(row: seq<byte>, x: int, rb: seq<byte>, cur: bv8, countbits: int) {
    && 0 <= x <= |row|
    && (x < |row| ==> x == 8 * |rb| + countbits - 1 && 1 <= countbits <= 8 && cur == Partial(row, |rb|, countbits - 1))
    && (0 < x == |row| ==> |rb| == RowBytes(|row|) && countbits == 1)
    && (forall k :: 0 <= k < |rb| ==> rb[k] == PackByte(row, k))
  }

  /** The body of the inner loop (lines 154-180) for pixel `x`. */
  method PackPixel(row: seq<byte>, x: int, rb: seq<byte>, cur: bv8, countbits: int)
    returns (rb': seq<byte>, cur': bv8, countbits': int)
    requires x < |row| && Packing(row, x, rb, cur, countbits)
    ensures Packing(row, x + 1, rb', cur', countbits')
  {
    var w := |row|;
    ByteInRow(w, |rb|, countbits);
    PackStep(row, x, |rb|, countbits, cur);
    rb', cur', countbits' := rb, cur, countbits;
    if countbits' <= 8 {
      cur' := cur' | (if row[x] == 0 then Mask(countbits' - 1) else 0);
      countbits' := countbits' + 1;
    }
    if countbits' > 8 || x == w - 1 {
      ByteComplete(row, |rb|, countbits' - 1, cur');
      rb' := rb' + [cur' as int];
      cur' := 0;
      countbits' := 1;
    }
  }

  /** The inner loop of `unsigned_char_to_bit` over one row (lines 152-181): the
      running byte collects one bit per pixel and is stored after its eighth
      pixel or at the end of the row. */
  method PackRow(row: seq<byte>) returns (rb: seq<byte>)
    requires |row| > 0
    ensures |rb| == RowBytes(|row|)
    ensures forall k :: 0 <= k < |rb| ==> rb[k] == PackByte(row, k)
  {
    rb := [];
    var cur: bv8 := 0;
    var countbits := 1;
    var x := 0;
    while x < |row|
      invariant Packing(row, x, rb, cur, countbits)
    {
      rb, cur, countbits := PackPixel(row, x, rb, cur, countbits);
      x := x + 1;
    }
  }

  /** `unsigned_char_to_bit`: packs the `w`-by-`h` image `datauchar` into the
      buffer `databit`, returns the number of bytes written, and also zeroes
      the byte after them (lines 142-143 and 179). */
  method UnsignedCharToBit(datauchar: seq<byte>, databit: seq<byte>, w: int, h: int) returns (bits: seq<byte>, count: int)
    requires |databit| >= 1
    requires w > 0 && h > 0 ==> |datauchar| >= w * h && |databit| > h * RowBytes(w)
    ensures count == if w > 0 && h > 0 then h * RowBytes(w) else 0
    ensures |bits| == |databit| && 0 <= count < |bits|
    ensures bits[count] == 0 && bits[count + 1..] == databit[count + 1..]
    ensures w > 0 && h > 0 ==> bits[..count] == Flatten(PackedGrid(datauchar[..w * h], w, h))
  {
    if w <= 0 || h <= 0 {
      return databit[0 := 0], 0;
    }
    var d := datauchar[..w * h];
    var packed := PackRows(d, w, h);
    var flat := Flatten(packed);
    FlattenLength(packed, RowBytes(w));
    count := |flat|;
    bits := flat + [0] + databit[count + 1..];
    assert bits[..count] == flat;
  }

  /** The row loop of `unsigned_char_to_bit` (lines 150-182): every row packed in
      turn. */
  method PackRows(d: seq<byte>, w: int, h: int) returns (packed: Grid)
    requires w > 0 && h > 0 && |d| == w * h
    ensures packed == PackedGrid(d, w, h)
  {
    var rows := Rows(d, w, h);
    ghost var target := PackedGrid(d, w, h);
    packed := [];
    var y := 0;
    while y < h
      invariant 0 <= y <= h
      invariant packed == target[..y]
    {
      var rb := PackRow(rows[y]);
      assert rb == target[y];
      assert target[..y + 1] == target[..y] + [rb];
      packed := packed + [rb];
      y := y + 1;
    }
    assert target[..h] == target;
  }

  /** The pixel the decoder gives for bit `x` of a packed row: 0 for a set bit
      and 1 for a clear one. */
  function Unpacked(rb: seq<byte>, x: int): byte
    requires 0 <= x && x / 8 < |rb|
  {
    if TestBit(rb[x / 8], x % 8) then 0 else 1
  }

  /** The test of line 210 for pixel `8 * p + countbits - 1` reads bit
      `countbits - 1` of byte `p`. */
  lemma UnpackStep(rb: seq<byte>, w: int, p: int, countbits: int)
    requires w > 0 && |rb| == RowBytes(w)
    requires 0 <= p && 1 <= countbits <= 8 && 8 * p + countbits - 1 < w
    ensures p < |rb|
    ensures (if (rb[p] as bv8) & Mask(countbits - 1) != 0 then 0 else 1) == Unpacked(rb, 8 * p + countbits - 1)
  {
    ByteInRow(w, p, countbits);
    PixelDivMod(p, countbits);
  }

  /** The inner loop of `bit_to_unsigned_char` over one row (lines 198-217): pixel
      `x` reads the bit under mask `1 << (8 - countbits)` of the current byte. */
  method UnpackRow(rb: seq<byte>, w: int) returns (row: seq<byte>)
    requires w > 0 && |rb| == RowBytes(w)
    ensures |row| == w
    ensures forall x :: 0 <= x < w ==> x / 8 < |rb| && row[x] == Unpacked(rb, x)
  {
    row := [];
    var p := 0;
    var countbits := 1;
    var x := 0;
    while x < w
      invariant 0 <= x <= w && |row| == x && 0 <= p
      invariant x < w ==> x == 8 * p + countbits - 1 && 1 <= countbits <= 8
      invariant forall x0 :: 0 <= x0 < x ==> x0 / 8 < |rb| && row[x0] == Unpacked(rb, x0)
    {
      UnpackStep(rb, w, p, countbits);
      if countbits <= 8 {
        var pixel: byte := if (rb[p] as bv8) & Mask(countbits - 1) != 0 then 0 else 1;
        row := row + [pixel];
        countbits := countbits + 1;
      }
      if countbits > 8 || x == w - 1 {
        p := p + 1;
        countbits := 1;
      }
      x := x + 1;
    }
  }

  /** `bit_to_unsigned_char`: unpacks the packed `w`-by-`h` image in `databit`
      into the buffer `datauchar`, which is unchanged past the image. */
  method BitToUnsignedChar(databit: seq<byte>, datauchar: seq<byte>, w: int, h: int) returns (out: seq<byte>)
    requires w > 0 && h > 0 ==> |databit| >= h * RowBytes(w) && |datauchar| >= w * h
    ensures |out| == |datauchar|
    ensures !(w > 0 && h > 0) ==> out == datauchar
    ensures w > 0 && h > 0 ==>
      var bitrows := Rows(databit[..h * RowBytes(w)], RowBytes(w), h);
      var pixels := Rows(out[..w * h], w, h);
      && out[w * h..] == datauchar[w * h..]
      && forall y, x :: 0 <= y < h && 0 <= x < w ==>
        pixels[y][x] == Unpacked(bitrows[y], x)
  {
    if w <= 0 || h <= 0 {
      return datauchar;
    }
    var bitrows := Rows(databit[..h * RowBytes(w)], RowBytes(w), h);
    var g: Grid := [];
    var y := 0;
    while y < h
      invariant 0 <= y <= h && |g| == y
      invariant forall y0 :: 0 <= y0 < y ==> |g[y0]| == w
      invariant forall y0, x :: 0 <= y0 < y && 0 <= x < w ==>
        g[y0][x] == Unpacked(bitrows[y0], x)
    {
      var row := UnpackRow(bitrows[y], w);
      g := g + [row];
      y := y + 1;
    }
    RowsOfFlatten(g, w, h);
    out := Flatten(g) + datauchar[w * h..];
    assert out[..w * h] == Flatten(g);
  }

  /** A buffer that starts with the packed image splits back into the packed
      rows, and unpacking them gives 0 where the image was 0 and 1 elsewhere. */
  lemma RoundTrip(d: seq<byte>, w: int, h: int, bits: seq<byte>)
    requires w > 0 && h > 0 && |d| == w * h
    requires |bits| >= h * RowBytes(w) && bits[..h * RowBytes(w)] == Flatten(PackedGrid(d, w, h))
    ensures Rows(bits[..h * RowBytes(w)], RowBytes(w), h) == PackedGrid(d, w, h)
    ensures forall y, x :: 0 <= y < h && 0 <= x < w ==>
      && x / 8 < RowBytes(w)
      && Unpacked(PackedGrid(d, w, h)[y], x) == if Rows(d, w, h)[y][x] == 0 then 0 else 1
  {
    RowsOfFlatten(PackedGrid(d, w, h), RowBytes(w), h);
    forall y, x | 0 <= y < h && 0 <= x < w
      ensures x / 8 < RowBytes(w)
      ensures TestBit(PackedGrid(d, w, h)[y][x / 8], x % 8) <==> Rows(d, w, h)[y][x] == 0
    {
      PixelDivMod(x / 8, x % 8 + 1);
      ByteInRow(w, x / 8, x % 8 + 1);
      PackByteBits(Rows(d, w, h)[y], x / 8, x % 8);
    }
  }

  /** `unsigned_char_to_bit` followed by `bit_to_unsigned_char`, as the writer and
      the reader of a `P4` file apply them: every pixel comes back as 0 when it
      was 0 and as 1 otherwise. */
  method EncodeDecode(d: seq<byte>, w: int, h: int) returns (out: seq<byte>)
    requires w > 0 && h > 0 && |d| == w * h
    ensures |out| == w * h
    ensures forall y, x :: 0 <= y < h && 0 <= x < w ==>
      Rows(out, w, h)[y][x] == if Rows(d, w, h)[y][x] == 0 then 0 else 1
  {
    var bits, count := UnsignedCharToBit(d, seq(h * RowBytes(w) + 1, _ => 0), w, h);
    assert d[..w * h] == d;
    RoundTrip(d, w, h, bits);
    out := BitToUnsignedChar(bits, seq(w * h, _ => 0), w, h);
    assert out[..w * h] == out;
  }

  /** The padding bits at the end of every packed row are clear. */
  lemma PaddingClear(d: seq<byte>, w: int, h: int, y: int, j: int)
    requires w > 0 && h > 0 && |d| == w * h && 0 <= y < h
    requires w <= j < 8 * RowBytes(w)
    ensures !TestBit(PackedGrid(d, w, h)[y][j / 8], j % 8)
  {
    PackByteBits(Rows(d, w, h)[y], j / 8, j % 8);
  }
}
