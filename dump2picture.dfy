/**
 * Dump2Picture: the bitmap header that is put in front of a raw dump so
 * that the dump can be opened as an uncompressed (`BI_RGB`), top-down
 * Windows bitmap.
 *
 * The program keeps the two header records and the colour table in
 * globals and updates them field by field; `BitmapGlobals` holds them and
 * its methods follow the program's steps in order.  The functions below
 * the class state, for a bit count and a dump size, what the records hold
 * when the program writes them, and the lemmas state what those values
 * mean.
 */
module Dump2Picture {
  import opened FixedWidth
  import opened IntSqrt
  import opened BitmapFormat

  datatype Option<T> = None | Some(value: T)

  /** Dumps below 2^62 bytes have a square-fit side below 2^31, so it fits in a `LONG`. */
  const GeometryBound: int := 0x4000_0000_0000_0000

  /** The bit count of the info header's initialiser, used when no depth argument is given. */
  const DefaultBitCount: uint16 := 32

  /** The largest value a `DWORD` holds. */
  const DwordMax: int := 0xFFFF_FFFF

  /** The bit counts the depth switch lets through. */
  predicate ValidBitCount(bitCount: uint16)
  {
    bitCount == 8 || bitCount == 16 || bitCount == 24 || bitCount == 32
  }

  /** `biBitCount / 8`, in `int` after the promotion of the `WORD`. */
  function BytesPerPixel(bitCount: uint16): int
  {
    bitCount as int / 8
  }

  /** The bit count the program works with: the argument if there is one, the initialiser's otherwise. */
  function EffectiveBitCount(bitCountArg: Option<uint16>): uint16
  {
    match bitCountArg
    case None => DefaultBitCount
    case Some(b) => b
  }

  function InitialFileHeader(): FileHeader
  {
    FileHeader(BitmapTag, 0, 0, 0, FileHeaderSize + InfoHeaderSize)
  }

  function InitialInfoHeader(): InfoHeader
  {
    InfoHeader(InfoHeaderSize, 0, 0, 1, DefaultBitCount, 0, 0, 0, 0, 0, 0)
  }

  // ---------------------------------------------------------------------
  // Geometry

  /** The side of the largest square of pixels that the dump fills. */
  function Side(dumpSize: uint64, bitCount: uint16): (s: int32)
    requires ValidBitCount(bitCount) && dumpSize as int < GeometryBound
    ensures 0 <= s
    ensures IsFloorRoot(s as int, PixelCount(dumpSize, bitCount))
  {
    var n := PixelCount(dumpSize, bitCount);
    IsqrtBelow31Bits(n);
    Isqrt(n) as int32
  }

  /** `qwDumpSize.QuadPart / (biBitCount / 8)`: the number of whole pixels in the dump. */
  function PixelCount(dumpSize: uint64, bitCount: uint16): (n: nat)
    requires ValidBitCount(bitCount)
    ensures n <= dumpSize as int
  {
    PixelCountBelow(dumpSize, bitCount);
    dumpSize as int / BytesPerPixel(bitCount)
  }

  lemma PixelCountBelow(dumpSize: uint64, bitCount: uint16)
    requires ValidBitCount(bitCount)
    ensures 0 <= dumpSize as int / BytesPerPixel(bitCount) <= dumpSize as int
  {
    var d := dumpSize as int;
    if bitCount == 8 {
      assert d / BytesPerPixel(bitCount) == d / 1;
    } else if bitCount == 16 {
      assert d / BytesPerPixel(bitCount) == d / 2;
    } else if bitCount == 24 {
      assert d / BytesPerPixel(bitCount) == d / 3;
    } else {
      assert d / BytesPerPixel(bitCount) == d / 4;
    }
  }

  /** The height magnitude: the side rounded down to an even value, whatever the depth. */
  function EvenHeight(side: int32): (m: int32)
    requires 0 <= side
    ensures 0 <= m <= side
    ensures m % 2 == 0 && side - m < 2
  {
    side - side % 2
  }

  /** The image width: the side rounded down to an even value, and further to a multiple of 8 for 8-bit rows. */
  function AlignedWidth(side: int32, bitCount: uint16): (w: int32)
    requires 0 <= side
    ensures 0 <= w <= EvenHeight(side)
    ensures w % 2 == 0 && (bitCount == 8 ==> w % 8 == 0)
    ensures side - w < if bitCount == 8 then 8 else 2
  {
    RoundDownEvenThen8(side as int);
    var even := side - side % 2;
    if bitCount == 8 then even - even % 8 else even
  }

  /** The roundings of the geometry step, as the two width and height definitions carry them out. */
  lemma FitSquareArithmetic(side: int32, bitCount: uint16)
    requires 0 <= side
    ensures side - side % 2 == EvenHeight(side)
    ensures var even := side - side % 2;
            (if bitCount == 8 then even - even % 8 else even) == AlignedWidth(side, bitCount)
  {
  }

  /** Rounding down to even and then to a multiple of 8 is rounding down to a multiple of 8. */
  lemma RoundDownEvenThen8(s: int)
    requires 0 <= s
    ensures var e := s - s % 2;
            0 <= e <= s && s - e < 2 && e % 2 == 0
            && e - e % 8 == s - s % 8
    ensures var e8 := s - s % 8;
            0 <= e8 <= s - s % 2 && s - e8 < 8 && e8 % 8 == 0 && e8 % 2 == 0
  {
    var q := s / 8;
    var r := s % 8;
    Mod2Of8(q, r);
    var e := r - r % 2;
    ModOfMultiplePlus(q, e);
    ModOfMultiplePlus(q, 0);
  }

  /** The parity of `8 * q + r` is the parity of `r`. */
  lemma Mod2Of8(q: int, r: int)
    requires 0 <= r < 8
    ensures (8 * q + r) % 2 == r % 2
  {
    assert 8 * q + r == 2 * (4 * q) + r;
  }

  lemma ModOfMultiplePlus(q: int, e: int)
    requires 0 <= e < 8 && e % 2 == 0
    ensures (8 * q + e) % 8 == e && (8 * q + e) % 2 == 0
  {
    var x := 8 * q + e;
    var d := x / 8 - q;
    assert 8 * d == e - x % 8;
    assert d == 0;
    var k := 4 * q + e / 2;
    assert x == 2 * k;
    assert x / 2 - k == 0;
  }

  function Width(dumpSize: uint64, bitCount: uint16): int32
    requires ValidBitCount(bitCount) && dumpSize as int < GeometryBound
  {
    AlignedWidth(Side(dumpSize, bitCount), bitCount)
  }

  function HeightMagnitude(dumpSize: uint64, bitCount: uint16): int32
    requires ValidBitCount(bitCount) && dumpSize as int < GeometryBound
  {
    EvenHeight(Side(dumpSize, bitCount))
  }

  /** The number of pixel bytes the geometry describes: width times height magnitude times bytes per pixel. */
  function Area(dumpSize: uint64, bitCount: uint16): int
    requires ValidBitCount(bitCount) && dumpSize as int < GeometryBound
  {
    Width(dumpSize, bitCount) as int * HeightMagnitude(dumpSize, bitCount) as int * BytesPerPixel(bitCount)
  }

  /** `bfOffBits` after the program's update: both headers, and the colour table when it is written. */
  function OffBits(bitCount: uint16): (off: uint32)
    ensures off as int == (FileHeaderSize + InfoHeaderSize) as int + if bitCount == 8 then PaletteSize as int else 0
  {
    GeometryOffBits(bitCount, FileHeaderSize + InfoHeaderSize)
  }

  // ---------------------------------------------------------------------
  // The size fields, computed as the program computes them

  /**
   * `static_cast<unsigned long long>(biWidth) * biHeight * (biBitCount / 8)`:
   * both `LONG` operands and the `int` factor are converted to
   * `unsigned long long` and multiplied in that type.
   */
  function FileSizeAsWritten(width: int32, height: int32, bitCount: uint16): uint64
  {
    MulU64(MulU64(ToU64(width as int), ToU64(height as int)), ToU64(BytesPerPixel(bitCount)))
  }

  /** The file size as written is the mathematical product of width, height and bytes per pixel, modulo 2^64. */
  lemma FileSizeIsProductMod64(width: int32, height: int32, bitCount: uint16)
    ensures FileSizeAsWritten(width, height, bitCount) as int
         == (width as int * height as int * BytesPerPixel(bitCount)) % 0x1_0000_0000_0000_0000
  {
    var wh := MulU64(ToU64(width as int), ToU64(height as int));
    MulU64OfConverted(width as int, height as int);
    assert wh == ToU64(width as int * height as int);
    MulU64OfConverted(width as int * height as int, BytesPerPixel(bitCount));
  }

  /** `biSizeImage`: 0 when the 64-bit sum of file size and offset exceeds the `DWORD` range, else the file size truncated to a `DWORD`. */
  function SizeImageAsWritten(fileSize: uint64, offBits: uint32): uint32
  {
    if AddU64(fileSize, ToU64(offBits as int)) as int > DwordMax then 0 else ToU32(fileSize as int)
  }

  /** `bfSize`: 0 when `biSizeImage` is 0, else the `DWORD` sum of offset and image size. */
  function BfSizeAsWritten(offBits: uint32, sizeImage: uint32): uint32
  {
    if sizeImage == 0 then 0 else AddU32(offBits, sizeImage)
  }

  // ---------------------------------------------------------------------
  // The geometry step on arbitrary headers

  /** `bfOffBits` after the step: widened by the colour table at 8 bits, unchanged otherwise. */
  function GeometryOffBits(bitCount: uint16, offBits: uint32): uint32
  {
    if bitCount == 8 then AddU32(offBits, PaletteSize) else offBits
  }

  /** `biSizeImage` after the geometry step at depth `bitCount`, from the offset before it. */
  function GeometrySizeImage(bitCount: uint16, offBits: uint32, dumpSize: uint64): uint32
    requires ValidBitCount(bitCount) && dumpSize as int < GeometryBound
  {
    var width, height := Width(dumpSize, bitCount), -HeightMagnitude(dumpSize, bitCount);
    SizeImageAsWritten(FileSizeAsWritten(width, height, bitCount), GeometryOffBits(bitCount, offBits))
  }

  /** The info header after the geometry step at its depth `bitCount`: width, negated height and image size. */
  function GeometryInfoHeader(bitCount: uint16, ih: InfoHeader, offBits: uint32, dumpSize: uint64): InfoHeader
    requires ValidBitCount(bitCount) && dumpSize as int < GeometryBound
  {
    ih.(biWidth := Width(dumpSize, bitCount), biHeight := -HeightMagnitude(dumpSize, bitCount),
        biSizeImage := GeometrySizeImage(bitCount, offBits, dumpSize))
  }

  /** The file header after the geometry step at depth `bitCount`: the widened offset and the file size. */
  function GeometryFileHeader(bitCount: uint16, fh: FileHeader, dumpSize: uint64): FileHeader
    requires ValidBitCount(bitCount) && dumpSize as int < GeometryBound
  {
    var off := GeometryOffBits(bitCount, fh.bfOffBits);
    fh.(bfOffBits := off, bfSize := BfSizeAsWritten(off, GeometrySizeImage(bitCount, fh.bfOffBits, dumpSize)))
  }

  // ---------------------------------------------------------------------
  // The records as written

  /** `bmih` as the program leaves it: the geometry step applied to the initialised headers. */
  function SynthesizedInfoHeader(bitCount: uint16, dumpSize: uint64): InfoHeader
    requires ValidBitCount(bitCount) && dumpSize as int < GeometryBound
  {
    GeometryInfoHeader(bitCount, InitialInfoHeader().(biBitCount := bitCount), InitialFileHeader().bfOffBits, dumpSize)
  }

  /** `bmfh` as the program leaves it: the geometry step applied to the initialised headers. */
  function SynthesizedFileHeader(bitCount: uint16, dumpSize: uint64): FileHeader
    requires ValidBitCount(bitCount) && dumpSize as int < GeometryBound
  {
    GeometryFileHeader(bitCount, InitialFileHeader(), dumpSize)
  }

  /** The two size fields of the synthesized records, from the negated-height file size and the offset. */
  lemma SynthesizedSizeFields(bitCount: uint16, dumpSize: uint64)
    requires ValidBitCount(bitCount) && dumpSize as int < GeometryBound
    ensures var fs := FileSizeAsWritten(Width(dumpSize, bitCount), -HeightMagnitude(dumpSize, bitCount), bitCount);
            var si := SizeImageAsWritten(fs, OffBits(bitCount));
            SynthesizedInfoHeader(bitCount, dumpSize).biSizeImage == si
            && SynthesizedFileHeader(bitCount, dumpSize).bfSize == BfSizeAsWritten(OffBits(bitCount), si)
  {
    SynthesizedOffBits(bitCount, dumpSize);
    SynthesizedSizeImage(bitCount, dumpSize);
  }

  lemma SynthesizedOffBits(bitCount: uint16, dumpSize: uint64)
    requires ValidBitCount(bitCount) && dumpSize as int < GeometryBound
    ensures SynthesizedFileHeader(bitCount, dumpSize).bfOffBits == OffBits(bitCount)
    ensures SynthesizedFileHeader(bitCount, dumpSize).bfSize
         == BfSizeAsWritten(OffBits(bitCount), SynthesizedInfoHeader(bitCount, dumpSize).biSizeImage)
  {
    assert GeometryOffBits(bitCount, InitialFileHeader().bfOffBits) == OffBits(bitCount);
  }

  lemma SynthesizedSizeImage(bitCount: uint16, dumpSize: uint64)
    requires ValidBitCount(bitCount) && dumpSize as int < GeometryBound
    ensures var fs := FileSizeAsWritten(Width(dumpSize, bitCount), -HeightMagnitude(dumpSize, bitCount), bitCount);
            SynthesizedInfoHeader(bitCount, dumpSize).biSizeImage == SizeImageAsWritten(fs, OffBits(bitCount))
  {
    assert GeometryOffBits(bitCount, InitialFileHeader().bfOffBits) == OffBits(bitCount);
  }

  /** The colour table that is written: the grayscale ramp for 8-bit images, nothing otherwise. */
  function WrittenPalette(bitCount: uint16): seq<RgbQuad>
  {
    if bitCount == 8 then GrayRamp() else []
  }

  /**
   * The bytes of the header file, in the order they are written: file
   * header, info header, colour table.  Pixel data starts right after
   * them: their length is `bfOffBits`.
   */
  function HeaderImage(bitCount: uint16, dumpSize: uint64): (img: seq<uint8>)
    requires ValidBitCount(bitCount) && dumpSize as int < GeometryBound
    ensures |img| == SynthesizedFileHeader(bitCount, dumpSize).bfOffBits as int
    ensures |img| == 54 || (bitCount == 8 && |img| == 1078)
  {
    var fh := SynthesizedFileHeader(bitCount, dumpSize);
    assert fh.bfOffBits == OffBits(bitCount);
    HeaderFileBytes(fh, SynthesizedInfoHeader(bitCount, dumpSize), WrittenPalette(bitCount))
  }

  // ---------------------------------------------------------------------
  // The program's globals and its steps

  class BitmapGlobals {
    var bmfh: FileHeader
    var bmih: InfoHeader
    const rgb: array<RgbQuad>

    /** The globals as their initialisers leave them; `rgb` is zero-initialised. */
    constructor ()
      ensures bmfh == InitialFileHeader() && bmih == InitialInfoHeader()
      ensures fresh(rgb) && rgb.Length == PaletteEntries
      ensures forall i :: 0 <= i < rgb.Length ==> rgb[i] == RgbQuad(0, 0, 0, 0)
    {
      bmfh := InitialFileHeader();
      bmih := InitialInfoHeader();
      rgb := new RgbQuad[PaletteEntries](_ => RgbQuad(0, 0, 0, 0));
    }

    /** The range-for over `rgb` with a `BYTE` counter that is post-incremented per entry. */
    method FillGrayPalette()
      requires rgb.Length == PaletteEntries
      modifies rgb
      ensures rgb[..] == GrayRamp()
    {
      var i: uint8 := 0;
      var k := 0;
      while k < rgb.Length
        invariant 0 <= k <= rgb.Length
        invariant i as int == k % 0x100
        invariant forall j :: 0 <= j < k ==> rgb[j] == Gray(j as uint8)
      {
        rgb[k] := RgbQuad(i, i, i, 0);
        i := ((i as int + 1) % 0x100) as uint8;
        k := k + 1;
      }
    }

    /**
     * The depth argument is stored in `biBitCount` and then switched on:
     * 8 builds the grayscale palette and falls through to 16, 24 and 32,
     * which are accepted; any other value is refused (the program then
     * returns -1).
     */
    method SetBitCount(bitCount: uint16) returns (accepted: bool)
      requires rgb.Length == PaletteEntries
      modifies this`bmih, rgb
      ensures accepted == ValidBitCount(bitCount)
      ensures bmih == old(bmih).(biBitCount := bitCount) && bmfh == old(bmfh)
      ensures bitCount == 8 ==> rgb[..] == GrayRamp()
      ensures bitCount != 8 ==> rgb[..] == old(rgb[..])
    {
      bmih := bmih.(biBitCount := bitCount);
      if bmih.biBitCount == 8 {
        FillGrayPalette();
      }
      accepted := bmih.biBitCount == 8 || bmih.biBitCount == 16
               || bmih.biBitCount == 24 || bmih.biBitCount == 32;
    }

    /**
     * The geometry step: width and height from the dump size, the offset
     * widened at 8 bits, then the two size fields, in the program's order.
     */
    method ComputeGeometry(dumpSize: uint64)
      requires ValidBitCount(bmih.biBitCount) && dumpSize as int < GeometryBound
      modifies this`bmih, this`bmfh
      ensures bmih == GeometryInfoHeader(old(bmih.biBitCount), old(bmih), old(bmfh.bfOffBits), dumpSize)
      ensures bmfh == GeometryFileHeader(old(bmih.biBitCount), old(bmfh), dumpSize)
    {
      ghost var bitCount := bmih.biBitCount;
      ghost var width, height := Width(dumpSize, bitCount), -HeightMagnitude(dumpSize, bitCount);
      ghost var off := GeometryOffBits(bitCount, bmfh.bfOffBits);
      FitSquare(dumpSize);
      AddPaletteOffset();
      assert bmfh.bfOffBits == off;
      ComputeSizes();
      ghost var sizeImage := SizeImageAsWritten(FileSizeAsWritten(width, height, bitCount), off);
      assert bmih == old(bmih).(biWidth := width, biHeight := height, biSizeImage := sizeImage);
      assert bmfh == old(bmfh).(bfOffBits := off, bfSize := BfSizeAsWritten(off, sizeImage));
    }

    /**
     * Width and height from one square-fit side, both made even, the width
     * also a multiple of 8 at 8 bits; the height negated for top-down rows.
     */
    method FitSquare(dumpSize: uint64)
      requires ValidBitCount(bmih.biBitCount) && dumpSize as int < GeometryBound
      modifies this`bmih
      ensures bmih == old(bmih).(biWidth := Width(dumpSize, old(bmih.biBitCount)),
                                 biHeight := -HeightMagnitude(dumpSize, old(bmih.biBitCount)))
    {
      var side := Side(dumpSize, bmih.biBitCount);
      FitSquareArithmetic(side, bmih.biBitCount);
      var width, height := side, side;
      width := width - width % 2;
      if bmih.biBitCount == 8 {
        width := width - width % 8;
      }
      height := height - height % 2;
      bmih := bmih.(biWidth := width, biHeight := -height);
    }

    /** At 8 bits the colour table sits between the headers and the pixels: the offset grows by its size. */
    method AddPaletteOffset()
      modifies this`bmfh
      ensures bmfh == if bmih.biBitCount == 8 then old(bmfh).(bfOffBits := AddU32(old(bmfh.bfOffBits), PaletteSize))
                      else old(bmfh)
    {
      if bmih.biBitCount == 8 {
        bmfh := bmfh.(bfOffBits := AddU32(bmfh.bfOffBits, PaletteSize));
      }
    }

    /**
     * The 64-bit file size from the stored width and (negated) height, then
     * `biSizeImage` with its overflow test and `bfSize` with its zero test.
     */
    method ComputeSizes()
      modifies this`bmih, this`bmfh
      ensures var sizeImage := SizeImageAsWritten(
                FileSizeAsWritten(old(bmih.biWidth), old(bmih.biHeight), old(bmih.biBitCount)), old(bmfh.bfOffBits));
              bmih == old(bmih).(biSizeImage := sizeImage)
              && bmfh == old(bmfh).(bfSize := BfSizeAsWritten(old(bmfh.bfOffBits), sizeImage))
    {
      var fileSize := MulU64(MulU64(ToU64(bmih.biWidth as int), ToU64(bmih.biHeight as int)),
                             ToU64(BytesPerPixel(bmih.biBitCount)));
      bmih := bmih.(biSizeImage :=
                 if AddU64(fileSize, ToU64(bmfh.bfOffBits as int)) as int > DwordMax then 0
                 else ToU32(fileSize as int));
      bmfh := bmfh.(bfSize := if bmih.biSizeImage == 0 then 0 else AddU32(bmfh.bfOffBits, bmih.biSizeImage));
    }

    /** The bytes the three writes put into the header file, in order. */
    function Written(): (b: seq<uint8>)
      reads this, rgb
      requires rgb.Length == PaletteEntries
      ensures |b| == (FileHeaderSize + InfoHeaderSize) as int + (if bmih.biBitCount == 8 then PaletteSize as int else 0)
    {
      HeaderFileBytes(bmfh, bmih, if bmih.biBitCount == 8 then rgb[..] else [])
    }

    /** Once the depth is accepted: the geometry step on the initialised headers. */
    method Synthesize(bitCount: uint16, dumpSize: uint64)
      requires ValidBitCount(bitCount) && dumpSize as int < GeometryBound
      requires bmih == InitialInfoHeader().(biBitCount := bitCount) && bmfh == InitialFileHeader()
      modifies this`bmih, this`bmfh
      ensures bmih == SynthesizedInfoHeader(bitCount, dumpSize)
      ensures bmfh == SynthesizedFileHeader(bitCount, dumpSize)
    {
      ComputeGeometry(dumpSize);
    }

    /** The three writes of the header file, once the records are synthesized. */
    method WriteHeader(bitCount: uint16, dumpSize: uint64) returns (header: seq<uint8>)
      requires ValidBitCount(bitCount) && dumpSize as int < GeometryBound
      requires bmih == SynthesizedInfoHeader(bitCount, dumpSize) && bmfh == SynthesizedFileHeader(bitCount, dumpSize)
      requires rgb.Length == PaletteEntries && (bitCount == 8 ==> rgb[..] == GrayRamp())
      ensures header == HeaderImage(bitCount, dumpSize)
    {
      var palette := if bmih.biBitCount == 8 then rgb[..] else [];
      assert palette == WrittenPalette(bitCount);
      header := Written();
      assert header == HeaderFileBytes(bmfh, bmih, palette);
      HeaderImageOf(bitCount, dumpSize, bmfh, bmih, palette);
    }
  }

  /** The header image is the bytes of the synthesized records and the written colour table. */
  lemma HeaderImageOf(bitCount: uint16, dumpSize: uint64, fh: FileHeader, ih: InfoHeader, p: seq<RgbQuad>)
    requires ValidBitCount(bitCount) && dumpSize as int < GeometryBound
    requires fh == SynthesizedFileHeader(bitCount, dumpSize) && ih == SynthesizedInfoHeader(bitCount, dumpSize)
    requires p == WrittenPalette(bitCount)
    ensures HeaderFileBytes(fh, ih, p) == HeaderImage(bitCount, dumpSize)
  {
  }

  /**
   * The header synthesis of the program, from the optional depth argument
   * to the exit status and the bytes written to the header file.
   */
  method Run(bitCountArg: Option<uint16>, dumpSize: uint64) returns (status: int, header: seq<uint8>)
    requires dumpSize as int < GeometryBound
    ensures status == 0 || status == -1
    ensures status == -1 <==> bitCountArg.Some? && !ValidBitCount(bitCountArg.value)
    ensures status == -1 ==> header == []
    ensures status == 0 ==> header == HeaderImage(EffectiveBitCount(bitCountArg), dumpSize)
  {
    var globals := new BitmapGlobals();
    if bitCountArg.Some? {
      var accepted := globals.SetBitCount(bitCountArg.value);
      if !accepted {
        return -1, [];
      }
    }
    var bitCount := globals.bmih.biBitCount;
    assert bitCount == EffectiveBitCount(bitCountArg);
    globals.Synthesize(bitCount, dumpSize);
    header := globals.WriteHeader(bitCount, dumpSize);
    status := 0;
  }
}
