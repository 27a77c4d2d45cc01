/**
 * The two size fields as the program computes them, and as they were
 * evidently meant to be.
 *
 * The file size is the product of width, height and bytes per pixel, but
 * it is taken after the height has been negated for a top-down image.  In
 * unsigned 64-bit arithmetic the product then is 2^64 minus the number of
 * pixel bytes, the overflow test fires, and `biSizeImage` and `bfSize` are
 * both 0 for every dump whose pixel bytes (width times height magnitude
 * times bytes per pixel) exceed the header offset, and for an empty
 * image; when the pixel bytes are between 1 and the offset, the sum wraps
 * below 2^32 and the fields hold large or short values.  The intended
 * fields take the product with the height magnitude.
 */
module SizeFieldFinding {
  import opened FixedWidth
  import opened IntSqrt
  import opened BitmapFormat
  import opened Dump2Picture
  import opened HeaderProperties

  // ---------------------------------------------------------------------
  // As written

  /** The geometry of a dump whose pixel count is a perfect square `side * side` of an even side. */
  lemma SquareGeometry(dumpSize: uint64, bitCount: uint16, side: int32)
    requires ValidBitCount(bitCount) && dumpSize as int < GeometryBound && 0 <= side
    requires PixelCount(dumpSize, bitCount) == side as int * side as int
    ensures Side(dumpSize, bitCount) == side
  {
    var n := PixelCount(dumpSize, bitCount);
    assert (side as int + 1) * (side as int + 1) == n + 2 * side as int + 1;
    SideIs(dumpSize, bitCount, side);
  }

  /** The side of a dump is the floor root of its pixel count. */
  lemma SideIs(dumpSize: uint64, bitCount: uint16, side: int32)
    requires ValidBitCount(bitCount) && dumpSize as int < GeometryBound
    requires IsFloorRoot(side as int, PixelCount(dumpSize, bitCount))
    ensures Side(dumpSize, bitCount) == side
  {
    IsqrtUnique(PixelCount(dumpSize, bitCount), side as int);
  }

  /**
   * A 10000-byte dump at 32 bits is 50 by 50 pixels, 10000 pixel bytes
   * after a 54-byte header, yet both size fields are written as 0.
   */
  lemma SizeFieldsZeroForOrdinaryDump()
    ensures SynthesizedInfoHeader(32, 10000).biWidth == 50
    ensures SynthesizedInfoHeader(32, 10000).biHeight == -50
    ensures SynthesizedInfoHeader(32, 10000).biSizeImage == 0
    ensures SynthesizedFileHeader(32, 10000).bfSize == 0
  {
    assert PixelCount(10000, 32) == 2500;
    SquareGeometry(10000, 32, 50);
    assert Area(10000, 32) == 10000;
    assert OffBits(32) as int == 54 && 54 < Area(10000, 32);
    SizeFieldsAsWritten(32, 10000);
  }

  /**
   * A 16-byte dump at 32 bits is 2 by 2 pixels: the 64-bit sum wraps to
   * 38, `biSizeImage` is 2^32 - 16 and `bfSize` is 38.
   */
  lemma SizeFieldsWrapForTinyDump()
    ensures SynthesizedInfoHeader(32, 16).biWidth == 2
    ensures SynthesizedInfoHeader(32, 16).biHeight == -2
    ensures SynthesizedInfoHeader(32, 16).biSizeImage == 0xFFFF_FFF0
    ensures SynthesizedFileHeader(32, 16).bfSize == 38
  {
    assert PixelCount(16, 32) == 4;
    SquareGeometry(16, 32, 2);
    assert Area(16, 32) == 16;
    assert OffBits(32) as int == 54 && 0 < Area(16, 32) <= 54;
    SizeFieldsAsWritten(32, 16);
    assert SynthesizedInfoHeader(32, 16).biSizeImage as int == 0x1_0000_0000 - 16;
    assert SynthesizedFileHeader(32, 16).bfSize as int == 54 - 16;
  }

  /**
   * A 100-byte dump at 8 bits is 8 by 10 pixels after a 1078-byte header
   * with colour table: `biSizeImage` is 2^32 - 80 and `bfSize` is 998.
   */
  lemma SizeFieldsWrapForSmallGrayDump()
    ensures SynthesizedInfoHeader(8, 100).biWidth == 8
    ensures SynthesizedInfoHeader(8, 100).biHeight == -10
    ensures SynthesizedInfoHeader(8, 100).biSizeImage == 0xFFFF_FFB0
    ensures SynthesizedFileHeader(8, 100).bfSize == 998
  {
    assert PixelCount(100, 8) == 100;
    SquareGeometry(100, 8, 10);
    FitSquareArithmetic(10, 8);
    assert Width(100, 8) == 8 && HeightMagnitude(100, 8) == 10;
    assert Area(100, 8) == 80;
    assert OffBits(8) as int == 1078 && 0 < Area(100, 8) <= 1078;
    SizeFieldsAsWritten(8, 100);
    assert SynthesizedInfoHeader(8, 100).biSizeImage as int == 0x1_0000_0000 - 80;
    assert SynthesizedFileHeader(8, 100).bfSize as int == 1078 - 80;
  }

  /**
   * A 1100-byte dump at 8 bits is larger than its 1078-byte header, but its
   * side of 33 is cut to 32 by 32 pixels, 1024 bytes: the sum wraps, so
   * `biSizeImage` is 2^32 - 1024 and `bfSize` is 54.
   */
  lemma SizeFieldsWrapForGrayDumpAboveHeader()
    ensures SynthesizedInfoHeader(8, 1100).biWidth == 32
    ensures SynthesizedInfoHeader(8, 1100).biHeight == -32
    ensures SynthesizedInfoHeader(8, 1100).biSizeImage == 0xFFFF_FC00
    ensures SynthesizedFileHeader(8, 1100).bfSize == 54
  {
    assert PixelCount(1100, 8) == 1100;
    assert IsFloorRoot(33, 1100);
    SideIs(1100, 8, 33);
    FitSquareArithmetic(33, 8);
    assert Width(1100, 8) == 32 && HeightMagnitude(1100, 8) == 32;
    assert Area(1100, 8) == 1024;
    assert OffBits(8) as int == 1078 && 0 < Area(1100, 8) <= 1078;
    SizeFieldsAsWritten(8, 1100);
    assert SynthesizedInfoHeader(8, 1100).biSizeImage as int == 0x1_0000_0000 - 1024;
    assert SynthesizedFileHeader(8, 1100).bfSize as int == 1078 - 1024;
  }

  // ---------------------------------------------------------------------
  // As intended

  /** `biSizeImage` with the file size taken from the height magnitude, before the negation. */
  function IntendedSizeImage(bitCount: uint16, dumpSize: uint64): (si: uint32)
    requires ValidBitCount(bitCount) && dumpSize as int < GeometryBound
    ensures var a, off := Area(dumpSize, bitCount), OffBits(bitCount) as int;
            si as int == if a + off > DwordMax then 0 else a
  {
    var fs := FileSizeAsWritten(Width(dumpSize, bitCount), HeightMagnitude(dumpSize, bitCount), bitCount);
    AreaFitsDump(bitCount, dumpSize);
    FileSizeIsProductMod64(Width(dumpSize, bitCount), HeightMagnitude(dumpSize, bitCount), bitCount);
    SmallMod64(Area(dumpSize, bitCount));
    IntendedSizeImageOf(Area(dumpSize, bitCount), OffBits(bitCount), fs);
    SizeImageAsWritten(fs, OffBits(bitCount))
  }

  lemma SmallMod64(x: int)
    requires 0 <= x < 0x1_0000_0000_0000_0000
    ensures x % 0x1_0000_0000_0000_0000 == x
  {
  }

  lemma IntendedSizeImageOf(a: int, off: uint32, fs: uint64)
    requires 0 <= a < GeometryBound && (off as int == 54 || off as int == 1078) && fs as int == a
    ensures SizeImageAsWritten(fs, off) as int == if a + off as int > DwordMax then 0 else a
  {
    assert AddU64(fs, ToU64(off as int)) as int == a + off as int;
  }

  /**
   * `bfSize` from the intended `biSizeImage`: the header plus the pixel
   * bytes when the image is not empty and the file size fits in a `DWORD`,
   * 0 otherwise.
   */
  function IntendedBfSize(bitCount: uint16, dumpSize: uint64): (bf: uint32)
    requires ValidBitCount(bitCount) && dumpSize as int < GeometryBound
    ensures var a, off := Area(dumpSize, bitCount), OffBits(bitCount) as int;
            bf as int == if a == 0 || a + off > DwordMax then 0 else off + a
  {
    var si := IntendedSizeImage(bitCount, dumpSize);
    BfSizeWithoutWrap(OffBits(bitCount), si);
    BfSizeAsWritten(OffBits(bitCount), si)
  }

  lemma BfSizeWithoutWrap(off: uint32, si: uint32)
    requires si == 0 || off as int + si as int <= DwordMax
    ensures BfSizeAsWritten(off, si) as int == if si == 0 then 0 else off as int + si as int
  {
  }

  /** The intended fields of the same three dumps: 10000 and 10054, 16 and 70, 80 and 1158. */
  lemma IntendedScenarios()
    ensures IntendedSizeImage(32, 10000) == 10000 && IntendedBfSize(32, 10000) == 10054
    ensures IntendedSizeImage(32, 16) == 16 && IntendedBfSize(32, 16) == 70
    ensures IntendedSizeImage(8, 100) == 80 && IntendedBfSize(8, 100) == 1158
  {
    SizeFieldsZeroForOrdinaryDump();
    SizeFieldsWrapForTinyDump();
    SizeFieldsWrapForSmallGrayDump();
    assert Area(10000, 32) == 10000 && Area(16, 32) == 16 && Area(100, 8) == 80;
  }
}
