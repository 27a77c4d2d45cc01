/**
 * The Windows bitmap records the tool writes: `BITMAPFILEHEADER`,
 * `BITMAPINFOHEADER` and the `RGBQUAD` colour table, their little-endian
 * byte layout in declaration order, decoders that read the layout back,
 * and the 256-entry grayscale ramp used for 8-bit images.
 */
module BitmapFormat {
  import opened FixedWidth

  datatype FileHeader = FileHeader(
    bfType: uint16,
    bfSize: uint32,
    bfReserved1: uint16,
    bfReserved2: uint16,
    bfOffBits: uint32)

  datatype InfoHeader = InfoHeader(
    biSize: uint32,
    biWidth: int32,
    biHeight: int32,
    biPlanes: uint16,
    biBitCount: uint16,
    biCompression: uint32,
    biSizeImage: uint32,
    biXPelsPerMeter: int32,
    biYPelsPerMeter: int32,
    biClrUsed: uint32,
    biClrImportant: uint32)

  datatype RgbQuad = RgbQuad(rgbBlue: uint8, rgbGreen: uint8, rgbRed: uint8, rgbReserved: uint8)

  const FileHeaderSize: uint32 := 14    // sizeof(BITMAPFILEHEADER)
  const InfoHeaderSize: uint32 := 40    // sizeof(BITMAPINFOHEADER)
  const PaletteEntries: nat := 256      // the length of the global colour table
  const PaletteSize: uint32 := 1024     // sizeof(rgb): 256 entries of 4 bytes

  /** The multi-character literal 'MB', whose little-endian bytes spell "BM". */
  const BitmapTag: uint16 := 0x4D42

  function FileHeaderBytes(h: FileHeader): (b: seq<uint8>)
    ensures |b| == FileHeaderSize as int
  {
    LE16(h.bfType) + LE32(h.bfSize) + LE16(h.bfReserved1) + LE16(h.bfReserved2) + LE32(h.bfOffBits)
  }

  function InfoHeaderBytes(h: InfoHeader): (b: seq<uint8>)
    ensures |b| == InfoHeaderSize as int
  {
    InfoHeaderGeometryBytes(h) + InfoHeaderFormatBytes(h)
  }

  /** The first 16 bytes of an info header: its size, the dimensions, planes and bit count. */
  function InfoHeaderGeometryBytes(h: InfoHeader): (b: seq<uint8>)
    ensures |b| == 16
  {
    LE32(h.biSize) + LE32Signed(h.biWidth) + LE32Signed(h.biHeight) + LE16(h.biPlanes) + LE16(h.biBitCount)
  }

  /** The last 24 bytes of an info header: compression, image size, resolution and colour counts. */
  function InfoHeaderFormatBytes(h: InfoHeader): (b: seq<uint8>)
    ensures |b| == 24
  {
    LE32(h.biCompression) + LE32(h.biSizeImage) + LE32Signed(h.biXPelsPerMeter) + LE32Signed(h.biYPelsPerMeter)
    + LE32(h.biClrUsed) + LE32(h.biClrImportant)
  }

  function RgbQuadBytes(q: RgbQuad): seq<uint8>
  {
    [q.rgbBlue, q.rgbGreen, q.rgbRed, q.rgbReserved]
  }

  function PaletteBytes(p: seq<RgbQuad>): (b: seq<uint8>)
    ensures |b| == 4 * |p|
  {
    if p == [] then [] else RgbQuadBytes(p[0]) + PaletteBytes(p[1..])
  }

  /** A header file: the file header, the info header, then the colour table. */
  function HeaderFileBytes(fh: FileHeader, ih: InfoHeader, palette: seq<RgbQuad>): (b: seq<uint8>)
    ensures |b| == (FileHeaderSize + InfoHeaderSize) as int + 4 * |palette|
  {
    FileHeaderBytes(fh) + InfoHeaderBytes(ih) + PaletteBytes(palette)
  }

  function DecodeFileHeader(b: seq<uint8>): FileHeader
    requires |b| == FileHeaderSize as int
  {
    FileHeader(FromLE16(b[0..2]), FromLE32(b[2..6]), FromLE16(b[6..8]), FromLE16(b[8..10]), FromLE32(b[10..14]))
  }

  function DecodeInfoHeader(b: seq<uint8>): InfoHeader
    requires |b| == InfoHeaderSize as int
  {
    InfoHeader(
      FromLE32(b[0..4]), FromLE32Signed(b[4..8]), FromLE32Signed(b[8..12]),
      FromLE16(b[12..14]), FromLE16(b[14..16]), FromLE32(b[16..20]), FromLE32(b[20..24]),
      FromLE32Signed(b[24..28]), FromLE32Signed(b[28..32]),
      FromLE32(b[32..36]), FromLE32(b[36..40]))
  }

  function DecodePalette(b: seq<uint8>): seq<RgbQuad>
    requires |b| % 4 == 0
  {
    if |b| == 0 then [] else [RgbQuad(b[0], b[1], b[2], b[3])] + DecodePalette(b[4..])
  }

  lemma SlicesOfAppend(a: seq<uint8>, b: seq<uint8>)
    ensures (a + b)[|a|..|a| + |b|] == b
    ensures forall i, j :: 0 <= i <= j <= |a| ==> (a + b)[i..j] == a[i..j]
  {
  }

  /** A file header read back from its 14 bytes is the header that was written. */
  lemma FileHeaderRoundTrip(h: FileHeader)
    ensures DecodeFileHeader(FileHeaderBytes(h)) == h
  {
    var b1 := LE16(h.bfType);
    var b2 := b1 + LE32(h.bfSize);
    var b3 := b2 + LE16(h.bfReserved1);
    var b4 := b3 + LE16(h.bfReserved2);
    SlicesOfAppend(b1, LE32(h.bfSize));
    SlicesOfAppend(b2, LE16(h.bfReserved1));
    SlicesOfAppend(b3, LE16(h.bfReserved2));
    SlicesOfAppend(b4, LE32(h.bfOffBits));
    assert b1 == b1[0..2];
  }

  /** An info header read back from its 40 bytes is the header that was written. */
  lemma InfoHeaderRoundTrip(h: InfoHeader)
    ensures DecodeInfoHeader(InfoHeaderBytes(h)) == h
  {
    var g, f := InfoHeaderGeometryBytes(h), InfoHeaderFormatBytes(h);
    var b := InfoHeaderBytes(h);
    SlicesOfAppend(g, f);
    GeometryBytesRead(h);
    FormatBytesRead(h);
    assert b[0..4] == g[0..4] && b[4..8] == g[4..8] && b[8..12] == g[8..12];
    assert b[12..14] == g[12..14] && b[14..16] == g[14..16];
    assert b[16..40] == f;
    assert b[16..20] == f[0..4] && b[20..24] == f[4..8] && b[24..28] == f[8..12];
    assert b[28..32] == f[12..16] && b[32..36] == f[16..20] && b[36..40] == f[20..24];
  }

  lemma GeometryBytesRead(h: InfoHeader)
    ensures var g := InfoHeaderGeometryBytes(h);
            FromLE32(g[0..4]) == h.biSize && FromLE32Signed(g[4..8]) == h.biWidth
            && FromLE32Signed(g[8..12]) == h.biHeight && FromLE16(g[12..14]) == h.biPlanes
            && FromLE16(g[14..16]) == h.biBitCount
  {
    var g1 := LE32(h.biSize);
    var g2 := g1 + LE32Signed(h.biWidth);
    var g3 := g2 + LE32Signed(h.biHeight);
    var g4 := g3 + LE16(h.biPlanes);
    SlicesOfAppend(g1, LE32Signed(h.biWidth));
    SlicesOfAppend(g2, LE32Signed(h.biHeight));
    SlicesOfAppend(g3, LE16(h.biPlanes));
    SlicesOfAppend(g4, LE16(h.biBitCount));
  }

  lemma FormatBytesRead(h: InfoHeader)
    ensures var f := InfoHeaderFormatBytes(h);
            FromLE32(f[0..4]) == h.biCompression && FromLE32(f[4..8]) == h.biSizeImage
            && FromLE32Signed(f[8..12]) == h.biXPelsPerMeter && FromLE32Signed(f[12..16]) == h.biYPelsPerMeter
            && FromLE32(f[16..20]) == h.biClrUsed && FromLE32(f[20..24]) == h.biClrImportant
  {
    var f1 := LE32(h.biCompression);
    var f2 := f1 + LE32(h.biSizeImage);
    var f3 := f2 + LE32Signed(h.biXPelsPerMeter);
    var f4 := f3 + LE32Signed(h.biYPelsPerMeter);
    var f5 := f4 + LE32(h.biClrUsed);
    SlicesOfAppend(f1, LE32(h.biSizeImage));
    SlicesOfAppend(f2, LE32Signed(h.biXPelsPerMeter));
    SlicesOfAppend(f3, LE32Signed(h.biYPelsPerMeter));
    SlicesOfAppend(f4, LE32(h.biClrUsed));
    SlicesOfAppend(f5, LE32(h.biClrImportant));
  }

  /** A colour table read back from its bytes is the table that was written. */
  lemma {:induction false} PaletteRoundTrip(p: seq<RgbQuad>)
    ensures DecodePalette(PaletteBytes(p)) == p
  {
    if p != [] {
      var b := PaletteBytes(p);
      assert b[4..] == PaletteBytes(p[1..]);
      PaletteRoundTrip(p[1..]);
    }
  }

  /**
   * `b` reads back as a header file holding `fh`, `ih` and the colour table
   * `p`: 14 bytes of file header, 40 of info header, then 4 bytes per table entry.
   */
  predicate ReadsBackAs(b: seq<uint8>, fh: FileHeader, ih: InfoHeader, p: seq<RgbQuad>)
  {
    |b| == 54 + 4 * |p|
    && b[..2] == LE16(fh.bfType)
    && DecodeFileHeader(b[..14]) == fh
    && DecodeInfoHeader(b[14..54]) == ih
    && DecodePalette(b[54..]) == p
  }

  /** A header file starts with the bytes of `bfType` and reads back as its two records and its colour table. */
  lemma HeaderFileReadsBack(fh: FileHeader, ih: InfoHeader, p: seq<RgbQuad>, b: seq<uint8>)
    requires b == HeaderFileBytes(fh, ih, p)
    ensures ReadsBackAs(b, fh, ih, p)
  {
    var fb, ib, pb := FileHeaderBytes(fh), InfoHeaderBytes(ih), PaletteBytes(p);
    ThreeParts(fb, ib, pb, b);
    assert b[..14] == fb && b[14..54] == ib && b[54..] == pb;
    FileHeaderStartsWithType(fh);
    assert b[..2] == fb[..2];
    FileHeaderRoundTrip(fh);
    InfoHeaderRoundTrip(ih);
    PaletteRoundTrip(p);
  }

  lemma ThreeParts(x: seq<uint8>, y: seq<uint8>, z: seq<uint8>, b: seq<uint8>)
    requires b == x + y + z
    ensures b[..|x|] == x && b[|x|..|x| + |y|] == y && b[|x| + |y|..] == z
  {
  }

  lemma FileHeaderStartsWithType(h: FileHeader)
    ensures FileHeaderBytes(h)[..2] == LE16(h.bfType)
  {
    var rest := LE32(h.bfSize) + LE16(h.bfReserved1) + LE16(h.bfReserved2) + LE32(h.bfOffBits);
    assert FileHeaderBytes(h) == LE16(h.bfType) + rest;
  }

  /** Byte `k` of a written colour table is channel `k % 4` of entry `k / 4`. */
  lemma {:induction false} PaletteBytesAt(p: seq<RgbQuad>, k: nat)
    requires k < 4 * |p|
    ensures PaletteBytes(p)[k] == RgbQuadBytes(p[k / 4])[k % 4]
  {
    if k >= 4 {
      PaletteBytesAt(p[1..], k - 4);
    }
  }

  /** Entry `i` of the grayscale ramp: gray level `i`, reserved byte 0. */
  function Gray(i: uint8): RgbQuad
  {
    RgbQuad(i, i, i, 0)
  }

  function GrayRamp(): seq<RgbQuad>
  {
    seq(PaletteEntries, (i: int) requires 0 <= i < PaletteEntries => Gray(i as uint8))
  }

  /**
   * The written grayscale table is 1024 bytes; every entry's blue, green and
   * red bytes equal the entry's index and its reserved byte is 0.
   */
  lemma GrayRampBytes()
    ensures |PaletteBytes(GrayRamp())| == PaletteSize as int
    ensures forall k :: 0 <= k < PaletteSize as int ==>
              PaletteBytes(GrayRamp())[k] as int == if k % 4 == 3 then 0 else k / 4
  {
    forall k | 0 <= k < PaletteSize as int
      ensures PaletteBytes(GrayRamp())[k] as int == if k % 4 == 3 then 0 else k / 4
    {
      GrayRampByteAt(k);
    }
  }

  lemma GrayRampByteAt(k: nat)
    requires k < PaletteSize as int
    ensures PaletteBytes(GrayRamp())[k] as int == if k % 4 == 3 then 0 else k / 4
  {
    var i, j := k / 4, k % 4;
    PaletteBytesAt(GrayRamp(), k);
    assert GrayRamp()[i] == Gray(i as uint8);
    GrayChannel(i as uint8, j);
  }

  lemma GrayChannel(i: uint8, j: nat)
    requires j < 4
    ensures RgbQuadBytes(Gray(i))[j] as int == if j == 3 then 0 else i as int
  {
  }
}
