# Blob labelling and binary image operators of `vc.c`, in Dafny

This project models the core of a small C image library for academic computer
vision, `ComputerVisionProject/vc.c`. An image there is an `IVC` record. It holds
a byte buffer addressed as `y * bytesperline + x * channels`, plus width, height,
channel count and level count. A blob is an `OVC` record holding a bounding box,
area, centre of mass, perimeter and label.

The modelled core has these parts:

- **Connected-component labelling** (`vc_binary_blob_labelling`). The binary mask
  is copied and binarised, and its one-pixel frame is cleared. A first raster scan
  gives every interior foreground pixel a provisional label. It looks at the four
  causal neighbours (up-left, up, up-right, left) and keeps an equivalence table
  of 256 entries, rewritten eagerly. A second pass replaces each provisional label
  by its class representative. The table is then deduplicated and compacted into
  the blob count and an array of empty blob records.
- **Blob metrics** (`vc_binary_blob_info`): area, bounding box, centre of mass
  (`sum / MAX(area, 1)`) and the contour-pixel perimeter of each blob record.
- **The PBM (`P4`) bit codec** (`unsigned_char_to_bit`, `bit_to_unsigned_char`).
  Rows are packed most significant bit first into `ceil(width / 8)` bytes each.
- **Per-pixel operators**: gray negative, binary negative, gray-to-binary
  threshold and HSV range segmentation.
- **Binary dilation and erosion** with a square window of half-width
  `kernel / 2`, clipped to the image.
- **The NetPBM header tokenizer** (`netpbm_get_token`).

Modules:

| module | file | contents |
|---|---|---|
| `Images` | images.dfy | the `IVC`/`OVC` records, the grid view `Rows` of a buffer and its inverse `Flatten` |
| `Connectivity` | connectivity.dfy | what a correct labelling means: 8-adjacency, foreground paths, `Connected`, and the count of pixels that open a provisional label |
| `LabelTable` | labeltable.dfy | the equivalence table: the rewrite loop, the dedupe and compaction steps |
| `Labelling` | labelling.dfy | the first scan, one pixel at a time, with the invariant it keeps |
| `BlobLabelling`, `BlobLabeller` | blob_labelling.dfy | the row and image loops, the second pass, the count, and the entry point |
| `BlobInfo` | blob_info.dfy | blob metrics |
| `PbmCodec` | pbm_codec.dfy | bit packing and unpacking |
| `PixelOps` | pixel_ops.dfy | negatives, threshold, HSV segmentation |
| `Morphology` | morphology.dfy | dilation and erosion |
| `NetpbmToken` | netpbm_token.dfy | header tokenizer |

Each buffer-writing operation returns the updated image or buffer instead of
writing into the caller's buffer. An operation that returns 0 on bad arguments returns
`ok == false` and the input unchanged.

Three properties are independent of the algorithms. Labelling is judged against
8-connectivity through foreground paths (`Connectivity.Connected`). Blob metrics
are judged against the raster-ordered list of a label's interior pixels
(`BlobInfo.MemberList`). Morphology is judged against an existential "some
window pixel holds the target value" (`Morphology.Hit`).

### Connectivity and the label limit

The labelling is 8-connected: lines 1356-1358 inspect both upper diagonal
neighbours, so two pixels that touch only at a corner get the same label.
`Connectivity.Adjacent` is 8-adjacency, and `BlobLabeller.BlobLabel` proves that
equal labels mean 8-connected.

The code never checks for running out of labels. Provisional labels are stored in
the byte image and index the 256-entry `labeltable`. The first 255 labels are
handled correctly. Label 255 is also the value of a foreground pixel not yet
scanned, but the scan reads only neighbours it has already scanned, so the two
never meet. The 256th allocation stores 0 in the image and writes
`labeltable[256]`, past the end of the table. The model turns this into an
explicit `Overflow` outcome. It proves that `Overflow` happens exactly when the
mask needs more than 255 provisional labels.

The final number of each blob is fixed too. A start pixel is a foreground pixel
with no foreground causal neighbour; the scan opens a fresh label at each one, in
raster order. A blob's final label is the label opened at its first pixel in
raster order, which is a start pixel. That label is one more than the number of
start pixels before it (`BlobLabelling.FirstPixelLabel`).

## Model

| member | source | states |
|---|---|---|
| BlobLabeller.BlobLabel | ComputerVisionProject/vc.c:1301-1492 | Rejected exactly when the checks of lines 1319-1321 fail. Overflow exactly when the mask needs more than 255 provisional labels. Otherwise only `dst`'s buffer changes. Background and frame pixels are 0 and every foreground pixel has a label in 1..255. Two foreground pixels share a label iff they are 8-connected through the foreground. Each blob carries the provisional label opened at its first start pixel: no pixel of the blob has fewer start pixels before it than that label minus one, and one start pixel of the blob has exactly that many. `nlabels` is the number of distinct labels used. The array is absent iff that number is 0; otherwise it holds one empty record per label, in increasing label order. |
| BlobLabeller.Finish | ComputerVisionProject/vc.c:1447-1478 | After the second pass, the compacted table lists the labels in use, strictly increasing, and the count equals their number |
| BlobLabeller.Package | ComputerVisionProject/vc.c:1480-1491 | The array holds one record per counted label with every metric still 0; it is absent when the count is 0 |
| BlobLabeller.LabelCount | ComputerVisionProject/vc.c:1462-1478 | The number of labels in use equals the number of representatives in the table |
| BlobLabelling.FirstScan | ComputerVisionProject/vc.c:1348-1444 | The scan fails iff more than 255 provisional labels are needed. On success it opened exactly one label per start pixel and the scan invariant covers every interior row. |
| BlobLabelling.ScanRow | ComputerVisionProject/vc.c:1350-1443 | One row keeps the scan invariant, or fails only when the mask needs more than 255 labels |
| BlobLabelling.ScanComplete | ComputerVisionProject/vc.c:1348-1444 | After the scan, background is 0; every foreground pixel is connected to the start pixel of its class; every representative labels its own start pixel; adjacent foreground pixels are in one class |
| BlobLabelling.SameRootIffConnected | ComputerVisionProject/vc.c:1348-1444 | Two foreground pixels end in the same class iff they are connected |
| BlobLabelling.PathSameRoot | ComputerVisionProject/vc.c:1389-1440 | The two ends of any foreground path end in the same class |
| BlobLabelling.ResolveCorrect | ComputerVisionProject/vc.c:1447-1458 | The relabelled image is a correct labelling of the mask, and its labels in use are exactly the representatives of the table |
| BlobLabelling.ResolveLabels | ComputerVisionProject/vc.c:1447-1458 | A label is used after the second pass iff it is a representative |
| BlobLabelling.ScanOrder | ComputerVisionProject/vc.c:1363-1386 | A foreground pixel's provisional label is at most one more than the number of start pixels before it |
| BlobLabelling.ResolveAtMost | ComputerVisionProject/vc.c:1446-1458 | A final label is at most one more than the number of start pixels before any pixel of its blob |
| BlobLabelling.ResolveAtStart | ComputerVisionProject/vc.c:1446-1458 | A final label is the provisional label opened at some start pixel of the blob |
| BlobLabelling.ResolveCanonical | ComputerVisionProject/vc.c:1348-1458 | After both passes, every blob is numbered by its first start pixel, in the sense of the two statements above |
| BlobLabelling.FirstPixelLabel | ComputerVisionProject/vc.c:1363-1369 | The raster-first pixel of a blob is a start pixel, and every pixel of the blob carries one more than the number of start pixels before it |
| Labelling.Prepare | ComputerVisionProject/vc.c:1324-1345 | The working grid is 255 on interior foreground pixels and 0 on background and on the frame |
| Labelling.ScanPixel | ComputerVisionProject/vc.c:1356-1442 | One pixel keeps the scan invariant; it fails iff the pixel opens a label while 255 are already in use, and then the mask needs more than 255 |
| Labelling.MinNeighbourRoot | ComputerVisionProject/vc.c:1373-1382 | `num` is the class of some labelled causal neighbour and no larger than the class of any labelled causal neighbour |
| Labelling.LeastRoot | ComputerVisionProject/vc.c:1373-1382 | The chosen `num` is a representative connected to the pixel, and no neighbour's class is smaller |
| Labelling.MergeNeighbour | ComputerVisionProject/vc.c:1389-1401 | A labelled neighbour's class becomes `num`; every other entry is unchanged or becomes `num`; entries already `num` stay `num`; the table invariant is kept |
| Labelling.MergeAll | ComputerVisionProject/vc.c:1373-1440 | After merging neighbours A, B, C, D, `num` is a representative connected to the pixel and every labelled neighbour's class is `num` |
| Labelling.AdvanceFresh | ComputerVisionProject/vc.c:1365-1370 | Opening label `L` at a start pixel keeps the scan invariant, with `L + 1` labels and the pixel recorded as the start of `L` |
| Labelling.RelabelKeepsClasses | ComputerVisionProject/vc.c:1393-1399 | Redirecting a class connected to the pixel into another connected class keeps every label connected to its representative |
| LabelTable.Relabel | ComputerVisionProject/vc.c:1393-1399 | Among labels 1..L-1, exactly the entries equal to `from` become `to`; every other entry is kept |
| LabelTable.RelabelKeepsForest | ComputerVisionProject/vc.c:1389-1440 | Merging a representative into a smaller one keeps every entry pointing straight at a representative no larger than itself |
| LabelTable.Dedupe | ComputerVisionProject/vc.c:1462-1468 | On such a table, entry `a` survives (holding `a`) iff `a` is a representative, and is 0 otherwise |
| LabelTable.Compact | ComputerVisionProject/vc.c:1470-1478 | The count is the number of nonzero entries among 1..L-1, and the table starts with them in index order |
| LabelTable.SurvivorsAreRoots | ComputerVisionProject/vc.c:1462-1478 | The entries that survive deduplication are exactly the representatives, in increasing order |
| LabelTable.RootsBelowSpec | ComputerVisionProject/vc.c:1470-1478 | The list of representatives holds exactly the labels `r` with `t[r] == r` and is strictly increasing |
| Connectivity.CausalNeighbours | ComputerVisionProject/vc.c:1352-1360 | The 8-adjacent pixels that precede a pixel in raster order are exactly A, B, C and D |
| Connectivity.StartsBeforeStrict | ComputerVisionProject/vc.c:1363-1369 | Every pixel after a start pixel has strictly more start pixels before it, so labels are opened in raster order |
| Connectivity.StartsBeforeBounded | ComputerVisionProject/vc.c:1365-1370 | The labels opened before any pixel never exceed the labels the whole scan opens |
| BlobInfo.BinaryBlobInfo | ComputerVisionProject/vc.c:1502-1574 | Succeeds iff the checks of lines 1515-1516 hold; on failure nothing changes. On success, records below `nblobs` are measured over the interior pixels with their label, and the others are kept. |
| BlobInfo.Measure | ComputerVisionProject/vc.c:1521-1570 | The record gets area = number of members and perimeter = old perimeter + contour members. The centre is the sums divided by `MAX(area, 1)`. The box is tight around the members, or left at `(w-1, h-1)` with sizes `2-w`, `2-h` when there are none. |
| BlobInfo.MeasureRow | ComputerVisionProject/vc.c:1533-1559 | Visiting one row adds exactly that row's members, in order, to the running values |
| BlobInfo.VisitStep | ComputerVisionProject/vc.c:1540-1557 | One member's update keeps area, sums, box and perimeter right for the members visited |
| BlobInfo.ReadsInside | ComputerVisionProject/vc.c:1537-1554 | Away from the border, the tests on the pixel and its four neighbours decide membership and contour exactly |
| BlobInfo.MemberListSpec | ComputerVisionProject/vc.c:1531-1560 | The scan visits every interior pixel with the label exactly once, in raster order, so the area is the size of that pixel set |
| BlobInfo.CentreInBox | ComputerVisionProject/vc.c:1562-1570 | For a nonempty blob, the centre of mass lies in the bounding box, and the perimeter grows by at most the area |
| BlobInfo.AbsentLabel | ComputerVisionProject/vc.c:1521-1570 | A label held by no interior pixel gets area 0, centre (0, 0), an unchanged perimeter and the degenerate box |
| PbmCodec.UnsignedCharToBit | ComputerVisionProject/vc.c:133-175 | Returns `h * ceil(w / 8)` bytes, or 0 for an empty image. The buffer starts with the packed rows; the byte after them is cleared and the rest is kept. |
| PbmCodec.PackRows | ComputerVisionProject/vc.c:144-172 | Every row is packed on its own, starting on a byte boundary |
| PbmCodec.PackRow | ComputerVisionProject/vc.c:146-171 | One row packs into `ceil(w / 8)` bytes, each the packed byte of its eight pixels |
| PbmCodec.PackPixel | ComputerVisionProject/vc.c:148-170 | One pixel extends the byte under construction and flushes it after the eighth pixel or the row's last |
| PbmCodec.PackByteBits | ComputerVisionProject/vc.c:150-163 | Bit `j` of packed byte `k` is set iff pixel `8k + j` is in the row and equals 0 |
| PbmCodec.PaddingClear | ComputerVisionProject/vc.c:164-170 | Padding bits past the row's last pixel are clear |
| PbmCodec.MaskIsShift | ComputerVisionProject/vc.c:160 | The mask of the pixel in position `j` is `1 << (7 - j)`, the shift `8 - countbits` of the source |
| PbmCodec.BitToUnsignedChar | ComputerVisionProject/vc.c:184-220 | Each pixel is 0 for a set bit and 1 for a clear bit of its row's bytes; the buffer past the image is kept |
| PbmCodec.UnpackRow | ComputerVisionProject/vc.c:195-218 | One row unpacks into `w` pixels, pixel `x` read from bit `x % 8` of byte `x / 8` |
| PbmCodec.UnpackStep | ComputerVisionProject/vc.c:199-216 | The position counter of the decoder reads exactly bit `x % 8` of byte `x / 8` |
| PbmCodec.RoundTrip | ComputerVisionProject/vc.c:133-220 | The packed buffer splits back into the packed rows, and unpacking gives 0 where the image was 0 and 1 elsewhere |
| PbmCodec.EncodeDecode | ComputerVisionProject/vc.c:133-220 | Packing then unpacking returns every pixel as 0 if it was 0 and as 1 otherwise |
| PixelOps.GrayNegative | ComputerVisionProject/vc.c:415-443 | Succeeds iff the image has positive size, a buffer and one channel. Every byte becomes `255 - v`, and the negative of the result is the original. |
| PixelOps.NegativeInvolution | ComputerVisionProject/vc.c:433-440 | Applying the gray negative twice gives back the buffer |
| PixelOps.BinaryGetNegative | ComputerVisionProject/vc.c:880-906 | The first byte of every pixel swaps 0 and nonzero (0 to 255, anything else to 0); other channels are kept; an empty image is untouched |
| PixelOps.FlipIsInvert | ComputerVisionProject/vc.c:896-903 | On a binary byte the binary negative equals the gray negative |
| PixelOps.FlipTwice | ComputerVisionProject/vc.c:896-903 | Two binary negatives turn 0 to 0 and any nonzero byte to 255 |
| PixelOps.FlipPixelsTwice | ComputerVisionProject/vc.c:880-906 | On a buffer whose first channel is binary, two binary negatives give back the buffer |
| PixelOps.GrayToBinary | ComputerVisionProject/vc.c:838-872 | Succeeds iff the source has positive size and a buffer, and both images have one channel. Each byte becomes 0 below the threshold and 255 otherwise. Only the buffer and `levels := 2` change. |
| PixelOps.ThresholdMonotone | ComputerVisionProject/vc.c:863-864 | Raising the threshold never turns a pixel from background into foreground |
| PixelOps.ThresholdBinary | ComputerVisionProject/vc.c:863-864 | A pixel is foreground iff it is at or above the threshold; thresholding a binary result again changes nothing |
| PixelOps.ThresholdNegative | ComputerVisionProject/vc.c:863-864 | The binary negative of a thresholded byte is the gray negative of the byte thresholded at `256 - threshold` |
| PixelOps.BinarizeIdempotent | ComputerVisionProject/vc.c:838-872 | Thresholding a thresholded buffer again at any level in 1..255 leaves it unchanged |
| PixelOps.HsvSegmentation | ComputerVisionProject/vc.c:458-487 | Byte `k` of the destination is 255 iff hue, saturation and value of source pixel `k` are in range, and 0 otherwise. The rest of the destination is kept; nothing changes when there is nothing to scan. |
| PixelOps.SegmentFullRange | ComputerVisionProject/vc.c:476-483 | The full range 0..255 on all three channels marks every pixel 255 |
| PixelOps.SegmentEmptyRange | ComputerVisionProject/vc.c:476-483 | A range whose minimum exceeds its maximum on any channel marks every pixel 0 |
| PixelOps.SegmentNarrowing | ComputerVisionProject/vc.c:476-483 | Tightening any bounds never turns a pixel from 0 into 255 |
| PixelOps.SegmentReadsInside | ComputerVisionProject/vc.c:470-474 | The three bytes read per pixel lie inside the source buffer |
| Morphology.BinaryDilate | ComputerVisionProject/vc.c:1052-1093 | Succeeds iff the checks of lines 1061-1066 hold. A pixel becomes 255 iff some pixel of its clipped window is exactly 255, and 0 otherwise. |
| Morphology.BinaryErode | ComputerVisionProject/vc.c:1103-1144 | Succeeds iff the checks of lines 1112-1117 hold. A pixel becomes 0 iff some pixel of its clipped window is 0, and 255 otherwise. |
| Morphology.MorphImage | ComputerVisionProject/vc.c:1061-1092 | A refused call leaves `dst` alone; otherwise every pixel of `dst`'s buffer gets the window result |
| Morphology.Morph | ComputerVisionProject/vc.c:1068-1091 | Every pixel gets the target value on a hit and its opposite otherwise |
| Morphology.WindowHas | ComputerVisionProject/vc.c:1075-1088 | The window scan reports a hit iff some in-image pixel of the window holds the target value |
| Morphology.Extensive | ComputerVisionProject/vc.c:1075-1089 | With a nonnegative kernel, dilation keeps every 255 pixel and erosion every 0 pixel |
| Morphology.HitGrows | ComputerVisionProject/vc.c:1075-1088 | A larger kernel hits wherever a smaller one does |
| Morphology.ErodeIsDualDilate | ComputerVisionProject/vc.c:1052-1144 | Erosion equals the binary negative of the dilation of the binary negative |
| NetpbmToken.GetToken | ComputerVisionProject/vc.c:93-123 | The token holds only non-space characters other than `#`, at most `len - 1` of them, or one when `len <= 1`, since the first character is stored before any test. The input left is a suffix. An empty token means the input is used up. |
| NetpbmToken.SkipJunk | ComputerVisionProject/vc.c:98-105 | Skipping leaves a suffix that is empty or starts with a token character |
| NetpbmToken.CopyRest | ComputerVisionProject/vc.c:109-118 | The copy loop stores only token characters, within the buffer's room, and leaves a suffix of the input |
| NetpbmToken.LineEnd | ComputerVisionProject/vc.c:102-103 | The comment loop stops at the first line feed, or at end of input |
| NetpbmToken.SkipSpaces | ComputerVisionProject/vc.c:100 | Leading white space does not change what is skipped to |
| NetpbmToken.SkipComment | ComputerVisionProject/vc.c:101-104 | A `#` comment is skipped up to and including its line feed |
| NetpbmToken.CopyWord | ComputerVisionProject/vc.c:111-117 | A run of token characters that fits is copied whole; a white space terminator is consumed and a `#` pushed back |
| NetpbmToken.TokenRoundTrip | ComputerVisionProject/vc.c:93-123 | White space, then a token that fits, then a terminator: the call returns exactly that token; the terminator is consumed if it is white space and left unread if it is `#` |
| NetpbmToken.TokenAtStart | ComputerVisionProject/vc.c:107-118 | A token at the start of the input is returned whole |
| NetpbmToken.TokenAfterSpaces | ComputerVisionProject/vc.c:98-105 | Leading white space does not change the result |
| NetpbmToken.TruncatedToken | ComputerVisionProject/vc.c:111-117 | A word longer than the buffer is cut to `len - 1` characters, and the character after the cut is read and lost |
| NetpbmToken.CopyLong | ComputerVisionProject/vc.c:111-115 | The copy loop stops once the buffer is full and drops the character it just read |
| NetpbmToken.EmptyAtEnd | ComputerVisionProject/vc.c:100-120 | When only white space remains, the token is empty and nothing is left |
| NetpbmToken.EmptyAfterComment | ComputerVisionProject/vc.c:98-120 | White space and then a comment that end of input cuts off before its line feed leave the token empty and nothing left |

## Left out

- File I/O is outside the model: `vc_read_image`, `vc_write_image`, `fopen`, `fread` and `fwrite`. The codec works on byte sequences, and the tokenizer works on the unread input as a character sequence, with `ungetc` modelled as returning the pushed-back character at the head of the rest.
- The other operators of vc.c are not modelled: RGB/HSV conversion, histograms, the adaptive thresholds, edge detection, the low-pass filters and the drawing helpers. Some use floating point; all lie outside this core.
- `vc_image_new` and `vc_image_free` are not modelled. `Images.WellFormed` states what they establish: stride `width * channels` and a buffer of `height` strides.
- `calloc` failure in `vc_binary_blob_labelling` is not modelled. The blob array is always allocated when the count is positive.
- C `int` and `long` overflow is not modelled: buffer sizes, coordinate sums and `nlabels` are unbounded integers. For images that fit in memory these values stay far inside the C ranges.
- BlobLabeller.BlobLabel: at the 256th provisional label the source stores 0 in the image and writes `labeltable[256]`, out of bounds, so its behaviour is undefined from there on. The model stops with `Overflow` instead of computing anything. `*nlabels` and `dst` are not described on `Rejected` or `Overflow`.
- BlobLabeller.BlobLabel: the model requires a well-formed source, that is, a stride of `width * channels` over a buffer of `height` strides. It also requires a buffer in `dst` once the checks pass. The source reads these without checking.
- BlobInfo.BinaryBlobInfo: requires `nblobs <= |blobs|` when the checks pass. The source indexes the array without a check.
- BlobInfo.Measure: the perimeter is added to whatever the record already held. The source never resets it, and the records the labeller returns start at 0. The model states this accumulation; it does not assume a zero start.
- PixelOps.GrayToBinary: requires `dst` to have a buffer and the same width and height as the source once the checks pass. The source writes `dst` with its own stride and never checks its size.
- Morphology.BinaryDilate: requires `dst` to have a buffer and the source's width and height once the checks pass. The source checks only that `dst` has a positive size.
- Morphology.BinaryErode: the same requirement on `dst` as for dilation.
- PixelOps.HsvSegmentation: requires at least three source channels and one destination byte per pixel whenever there is something to scan. The source makes no check and reads three bytes per pixel.
- PixelOps.BinaryGetNegative: requires a buffer and at least one channel for a non-empty image. The source makes no check.
- NetpbmToken.GetToken: with `len <= 1` the source still stores one character and then the terminator, which overruns a one-byte buffer. The model returns that one character and does not model the buffer write.
- PbmCodec.UnsignedCharToBit: requires room for the one extra cleared byte after the packed data. The writer allocates it (vc.c:364).
- PbmCodec.BitToUnsignedChar: reads the packed data as `h` rows of `ceil(w / 8)` bytes. The source walks the same bytes one at a time. The byte counts come from vc.c:274 and vc.c:364.
