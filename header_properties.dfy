/**
 * What the header Dump2Picture writes means: the geometry fits the dump,
 * the size fields take the values that the unsigned 64-bit product with
 * the negated height leads to, and the written bytes read back as the
 * records, with the fixed fields of the initialisers.
 */
module HeaderProperties {
  import opened FixedWidth
  import opened IntSqrt
  import opened BitmapFormat
  import opened Dump2Picture

  /** Width and height magnitude are even, the width is 8-aligned for 8-bit rows, the stored height is the negated magnitude, and the image is square except for that 8-alignment. */
  lemma GeometryShape(bitCount: uint16, dumpSize: uint64)
    requires ValidBitCount(bitCount) && dumpSize as int < GeometryBound
    ensures var ih := SynthesizedInfoHeader(bitCount, dumpSize);
            ih.biWidth % 2 == 0 && (bitCount == 8 ==> ih.biWidth % 8 == 0)
            && ih.biHeight <= 0 && (-ih.biHeight) % 2 == 0 && ih.biWidth <= -ih.biHeight
            && (bitCount != 8 ==> ih.biWidth == -ih.biHeight)
            && (bitCount == 8 ==> -ih.biHeight - ih.biWidth < 8)
  {
  }

  lemma PixelCountTimesBytesPerPixel(dumpSize: uint64, bitCount: uint16)
    requires ValidBitCount(bitCount)
    ensures PixelCount(dumpSize, bitCount) * BytesPerPixel(bitCount) <= dumpSize as int
  {
    var d := dumpSize as int;
    var n := PixelCount(dumpSize, bitCount);
    if bitCount == 8 {
      assert n * BytesPerPixel(bitCount) == (d / 1) * 1;
    } else if bitCount == 16 {
      assert n * BytesPerPixel(bitCount) == (d / 2) * 2;
    } else if bitCount == 24 {
      assert n * BytesPerPixel(bitCount) == (d / 3) * 3;
    } else {
      assert n * BytesPerPixel(bitCount) == (d / 4) * 4;
    }
  }

  /**
   * Width times height magnitude times bytes per pixel never exceeds the
   * dump: the square-fit side is the largest whose square of pixels fits,
   * and the rounding only shrinks it.  Rows padded to 4 bytes are not
   * counted.
   */
  lemma AreaFitsDump(bitCount: uint16, dumpSize: uint64)
    requires ValidBitCount(bitCount) && dumpSize as int < GeometryBound
    ensures 0 <= Area(dumpSize, bitCount) <= dumpSize as int
  {
    PixelCountTimesBytesPerPixel(dumpSize, bitCount);
    AreaBound(Side(dumpSize, bitCount) as int, PixelCount(dumpSize, bitCount),
              Width(dumpSize, bitCount) as int, HeightMagnitude(dumpSize, bitCount) as int,
              BytesPerPixel(bitCount), dumpSize as int);
  }

  lemma AreaBound(s: int, n: int, w: int, m: int, c: int, d: int)
    requires 0 <= w <= s && 0 <= m <= s && s * s <= n && 0 <= c && n * c <= d
    ensures 0 <= w * m * c <= d
  {
    ProductMonotonic(w, m, s, s);
    ProductMonotonic(w * m, c, n, c);
  }

  /**
   * With the height already negated, the unsigned 64-bit product is 0 for
   * a zero-area image and 2^64 minus the area otherwise.
   */
  lemma FileSizeOfNegatedHeight(bitCount: uint16, dumpSize: uint64)
    requires ValidBitCount(bitCount) && dumpSize as int < GeometryBound
    ensures var a := Area(dumpSize, bitCount);
            var fs := FileSizeAsWritten(Width(dumpSize, bitCount), -HeightMagnitude(dumpSize, bitCount), bitCount);
            fs as int == if a == 0 then 0 else 0x1_0000_0000_0000_0000 - a
  {
    AreaFitsDump(bitCount, dumpSize);
    FileSizeIsProductMod64(Width(dumpSize, bitCount), -HeightMagnitude(dumpSize, bitCount), bitCount);
    NegatedProductMod64(Width(dumpSize, bitCount) as int, HeightMagnitude(dumpSize, bitCount) as int,
                        BytesPerPixel(bitCount));
  }

  lemma NegatedProductMod64(w: int, m: int, c: int)
    requires 0 <= w * m * c < 0x1_0000_0000_0000_0000
    ensures (w * (-m) * c) % 0x1_0000_0000_0000_0000
         == if w * m * c == 0 then 0 else 0x1_0000_0000_0000_0000 - w * m * c
  {
    assert w * (-m) * c == -(w * m * c);
  }

  /**
   * The two size fields as the program leaves them: both 0 when the area
   * is 0 or larger than the offset; otherwise (a dump of only a few
   * pixels) the 64-bit sum wraps below 2^32, `biSizeImage` is 2^32 minus
   * the area and `bfSize` is the offset minus the area.
   */
  lemma SizeFieldsAsWritten(bitCount: uint16, dumpSize: uint64)
    requires ValidBitCount(bitCount) && dumpSize as int < GeometryBound
    ensures var a, off := Area(dumpSize, bitCount), OffBits(bitCount) as int;
            (a == 0 || off < a) ==>
              SynthesizedInfoHeader(bitCount, dumpSize).biSizeImage == 0
              && SynthesizedFileHeader(bitCount, dumpSize).bfSize == 0
    ensures var a, off := Area(dumpSize, bitCount), OffBits(bitCount) as int;
            0 < a <= off ==>
              SynthesizedInfoHeader(bitCount, dumpSize).biSizeImage as int == 0x1_0000_0000 - a
              && SynthesizedFileHeader(bitCount, dumpSize).bfSize as int == off - a
  {
    var a, off := Area(dumpSize, bitCount), OffBits(bitCount);
    AreaFitsDump(bitCount, dumpSize);
    FileSizeOfNegatedHeight(bitCount, dumpSize);
    var fs := FileSizeAsWritten(Width(dumpSize, bitCount), -HeightMagnitude(dumpSize, bitCount), bitCount);
    SynthesizedSizeFields(bitCount, dumpSize);
    SizeFieldsOfWrappedProduct(a, off, fs);
  }

  lemma SizeFieldsOfWrappedProduct(a: int, off: uint32, fs: uint64)
    requires 0 <= a < GeometryBound && off as int <= 0x1_0000
    requires fs as int == if a == 0 then 0 else 0x1_0000_0000_0000_0000 - a
    ensures var si := SizeImageAsWritten(fs, off);
            (a == 0 || off as int < a) ==> si == 0 && BfSizeAsWritten(off, si) == 0
    ensures var si := SizeImageAsWritten(fs, off);
            0 < a <= off as int ==>
              si as int == 0x1_0000_0000 - a && BfSizeAsWritten(off, si) as int == off as int - a
  {
    var sum := AddU64(fs, ToU64(off as int)) as int;
    if a == 0 {
      assert sum == off as int;
    } else if off as int < a {
      assert sum == 0x1_0000_0000_0000_0000 - a + off as int;
    } else {
      assert sum == off as int - a;
      assert ToU32(fs as int) as int == 0x1_0000_0000 - a;
    }
  }

  lemma EvenProductMultipleOf4(w: int, m: int, c: int)
    requires w % 2 == 0 && m % 2 == 0
    ensures (w * m * c) % 4 == 0
  {
    var k := (w / 2) * (m / 2) * c;
    calc {
      w * m * c;
      (2 * (w / 2)) * (2 * (m / 2)) * c;
      4 * k;
    }
  }

  /**
   * The two size fields are 0 together: the area is a multiple of 4 and
   * the offset (54 or 1078) is not, so `bfSize` never wraps to 0 on its own.
   */
  lemma SizeSentinelsAgree(bitCount: uint16, dumpSize: uint64)
    requires ValidBitCount(bitCount) && dumpSize as int < GeometryBound
    ensures (SynthesizedFileHeader(bitCount, dumpSize).bfSize == 0)
        <==> (SynthesizedInfoHeader(bitCount, dumpSize).biSizeImage == 0)
  {
    var a, off := Area(dumpSize, bitCount), OffBits(bitCount);
    AreaFitsDump(bitCount, dumpSize);
    FileSizeOfNegatedHeight(bitCount, dumpSize);
    EvenProductMultipleOf4(Width(dumpSize, bitCount) as int, HeightMagnitude(dumpSize, bitCount) as int,
                           BytesPerPixel(bitCount));
    assert a % 4 == 0;
    assert off as int == 54 || off as int == 1078;
    var fs := FileSizeAsWritten(Width(dumpSize, bitCount), -HeightMagnitude(dumpSize, bitCount), bitCount);
    SynthesizedSizeFields(bitCount, dumpSize);
    SentinelsOfWrappedProduct(a, off, fs);
  }

  lemma SentinelsOfWrappedProduct(a: int, off: uint32, fs: uint64)
    requires 0 <= a < GeometryBound && a % 4 == 0 && (off as int == 54 || off as int == 1078)
    requires fs as int == if a == 0 then 0 else 0x1_0000_0000_0000_0000 - a
    ensures var si := SizeImageAsWritten(fs, off);
            BfSizeAsWritten(off, si) == 0 <==> si == 0
  {
    SizeFieldsOfWrappedProduct(a, off, fs);
    assert a != off as int;
  }

  /**
   * The header file starts with the bytes "BM" and reads back as the two
   * records and the colour table: the grayscale ramp at 8 bits, nothing
   * otherwise.
   */
  lemma HeaderReadsBack(bitCount: uint16, dumpSize: uint64)
    requires ValidBitCount(bitCount) && dumpSize as int < GeometryBound
    ensures ReadsBackAs(HeaderImage(bitCount, dumpSize), SynthesizedFileHeader(bitCount, dumpSize),
                        SynthesizedInfoHeader(bitCount, dumpSize), WrittenPalette(bitCount))
    ensures HeaderImage(bitCount, dumpSize)[..2] == [0x42, 0x4D]
  {
    var fh := SynthesizedFileHeader(bitCount, dumpSize);
    var img := HeaderImage(bitCount, dumpSize);
    HeaderFileReadsBack(fh, SynthesizedInfoHeader(bitCount, dumpSize), WrittenPalette(bitCount), img);
    assert fh.bfType == BitmapTag && LE16(BitmapTag) == [0x42, 0x4D];
  }

  /**
   * The geometry step leaves the initialisers' fixed fields alone:
   * tag 'MB', reserved fields 0, info-header size 40, one plane, `BI_RGB`
   * compression, resolution and colour counts 0; the bit count is the
   * accepted one and the pixel data starts right after the written header.
   */
  lemma FixedFields(bitCount: uint16, dumpSize: uint64)
    requires ValidBitCount(bitCount) && dumpSize as int < GeometryBound
    ensures var fh := SynthesizedFileHeader(bitCount, dumpSize);
            fh.bfType == BitmapTag && fh.bfReserved1 == 0 && fh.bfReserved2 == 0
            && fh.bfOffBits as int == |HeaderImage(bitCount, dumpSize)|
    ensures var ih := SynthesizedInfoHeader(bitCount, dumpSize);
            ih.biSize == InfoHeaderSize && ih.biPlanes == 1 && ih.biBitCount == bitCount
            && ih.biCompression == 0 && ih.biXPelsPerMeter == 0 && ih.biYPelsPerMeter == 0
            && ih.biClrUsed == 0 && ih.biClrImportant == 0
  {
  }
}
