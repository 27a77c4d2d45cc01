# Dump2Picture header synthesis in Dafny

Dump2Picture turns a raw memory dump into a picture. It writes a Windows
bitmap header and then appends the dump's bytes, which serve as the pixels.
The header is an uncompressed (`BI_RGB`) top-down bitmap. At 8 bits per pixel
it carries a 256-entry grayscale colour table. This project models how
`wmain` builds that header from the depth argument and the dump's size, and
proves what the resulting fields and bytes are.

The model has five modules:

- `FixedWidth` covers the parts of the Windows structures that depend on
  integer width:
  - the integer types `BYTE`, `WORD`, `DWORD`, `LONG` and `ULONGLONG` as newtypes;
  - the C++ wrap-around when a value is converted to an unsigned type or computed in one;
  - the little-endian byte encodings and their decoders.
- `IntSqrt` provides the integer square root. It stands in for
  `std::trunc(std::sqrt(...))`.
- `BitmapFormat` describes the bitmap file format itself:
  - the records `BITMAPFILEHEADER`, `BITMAPINFOHEADER` and `RGBQUAD`;
  - their 14-, 40- and 4-byte layouts in the order the fields are declared, with decoders and round-trip lemmas;
  - the grayscale ramp.
- `Dump2Picture` holds the program itself:
  - The class `BitmapGlobals` holds the globals `bmfh`, `bmih` and `rgb`. Its methods update them in the program's order: the depth switch, the palette loop, the square fit, the offset, then the size fields.
  - Specification functions give each record as it is when written.
  - `Run` goes from the optional depth argument to the exit status and the written header bytes.
- `HeaderProperties` and `SizeFieldFinding` hold the properties: the
  geometry, the size fields, the fixed fields and the read-back of the
  written bytes. `SizeFieldFinding` also holds the size fields as they
  were evidently meant to be.

Some inputs are parameters of the model instead of being read:
- The dump size is a parameter. The program gets it from `GetFileSize`.
- The depth is a `WORD` parameter, or none when the argument is absent.
  The program gets it from `std::stoi`.

The model assumes that a dump is smaller than 2^62 bytes. Then the square-fit
side stays below 2^31 and fits a `LONG`.

The file size is computed in unsigned 64-bit arithmetic. At that point the
height has already been negated, and this model keeps that order (see
Findings). So, for every accepted depth:
- When the image has no pixels, or when its pixel bytes exceed the header
  offset (54, or 1078 with the colour table), `biSizeImage` and `bfSize`
  are both 0.
- When the dump holds only a few pixels (0 < pixel bytes ≤ offset), the
  64-bit sum of file size and offset wraps below 2^32. Then `biSizeImage`
  is 2^32 minus the pixel bytes, and `bfSize` is the offset minus them.
- The two fields are 0 together in every case.

## Model

| member | source | states |
|---|---|---|
| FixedWidth.LE16 | Dump2Picture.cpp:134-144 | A `WORD` is written as two bytes, least significant first, and those bytes read back as the same value |
| FixedWidth.LE32 | Dump2Picture.cpp:134-144 | A `DWORD` is written as four little-endian bytes that read back as the same value |
| FixedWidth.LE32Signed | Dump2Picture.cpp:140-144 | A `LONG` such as the negative `biHeight` is written as four two's-complement bytes that read back as the same value |
| FixedWidth.MulU64OfConverted | Dump2Picture.cpp:118 | Multiplying two values after converting each to `unsigned long long` gives their mathematical product modulo 2^64, negative operands included |
| IntSqrt.Isqrt | Dump2Picture.cpp:102 | The root `s` of `n` satisfies `s*s <= n < (s+1)*(s+1)`, i.e. it is the truncated square root |
| IntSqrt.IsqrtUnique | Dump2Picture.cpp:102 | Any `s` with `s*s <= n < (s+1)*(s+1)` is the root, so the truncated square root is determined uniquely |
| IntSqrt.IsqrtBelow31Bits | Dump2Picture.cpp:102 | Below 2^62 the root is below 2^31, so the cast to `LONG` keeps the value |
| BitmapFormat.FileHeaderBytes | Dump2Picture.cpp:134-138 | The written file header is 14 bytes |
| BitmapFormat.InfoHeaderBytes | Dump2Picture.cpp:140-144 | The written info header is 40 bytes |
| BitmapFormat.PaletteBytes | Dump2Picture.cpp:146-153 | A colour table is written as 4 bytes per entry |
| BitmapFormat.HeaderFileBytes | Dump2Picture.cpp:134-153 | The header file (file header, info header, colour table) is 54 bytes plus 4 per table entry |
| BitmapFormat.FileHeaderRoundTrip | Dump2Picture.cpp:134-138 | Decoding the 14 written bytes gives back every file-header field |
| BitmapFormat.InfoHeaderRoundTrip | Dump2Picture.cpp:140-144 | Decoding the 40 written bytes gives back every info-header field, signed dimensions included |
| BitmapFormat.PaletteRoundTrip | Dump2Picture.cpp:146-153 | Decoding the colour table's bytes gives back every entry in order |
| BitmapFormat.HeaderFileReadsBack | Dump2Picture.cpp:134-153 | The header file is 54 + 4·entries bytes; it starts with the bytes of `bfType`; its three parts decode to the file header, the info header and the colour table |
| BitmapFormat.GrayRampBytes | Dump2Picture.cpp:73-79 | The written grayscale table is 1024 bytes; byte `k` is `k / 4` for blue, green and red and 0 for the reserved byte |
| BitmapFormat.GrayRamp | Dump2Picture.cpp:73-79 | Defines the 256-entry table the loop builds: entry `i` has blue, green and red `i` and reserved 0; `FillGrayPalette` is proved to produce it and `GrayRampBytes` states its bytes |
| Dump2Picture.PixelCount | Dump2Picture.cpp:102 | The number of whole pixels in the dump is at most the dump size |
| Dump2Picture.Side | Dump2Picture.cpp:102 | Width and height start from one value, the truncated square root of the pixel count |
| Dump2Picture.EvenHeight | Dump2Picture.cpp:110 | The height magnitude is the side less its remainder mod 2: even, at most the side and less than 2 below it |
| Dump2Picture.AlignedWidth | Dump2Picture.cpp:103-108 | The width is even, and a multiple of 8 at 8 bits; it is at most the height magnitude and less than 2 below the side (8 at 8 bits) |
| Dump2Picture.OffBits | Dump2Picture.cpp:113-116 | `bfOffBits` is 14 + 40 = 54, plus 1024 exactly at 8 bits, whatever the dump size |
| Dump2Picture.FileSizeIsProductMod64 | Dump2Picture.cpp:118 | The file size is width times height times bytes per pixel, modulo 2^64 |
| Dump2Picture.InitialFileHeader | Dump2Picture.cpp:12 | Defines the initialiser of `bmfh`: tag 'MB', size and reserved fields 0, offset 14 + 40 |
| Dump2Picture.InitialInfoHeader | Dump2Picture.cpp:13 | Defines the initialiser of `bmih`: size 40, 1 plane, 32 bits, every other field 0 |
| Dump2Picture.EffectiveBitCount | Dump2Picture.cpp:13-57 | Defines the depth the program works with: the argument when one is given, the initialiser's 32 otherwise; `Run` writes the header of this depth |
| Dump2Picture.ValidBitCount | Dump2Picture.cpp:69-88 | Defines the depths the switch lets through: 8, 16, 24 and 32; `SetBitCount` and `Run` state that exactly these are accepted |
| Dump2Picture.Width | Dump2Picture.cpp:102-108 | Defines `biWidth` from the dump size: the aligned width of the square-fit side; `AlignedWidth` and `GeometryShape` state its properties |
| Dump2Picture.HeightMagnitude | Dump2Picture.cpp:102-110 | Defines the height magnitude from the dump size: the square-fit side rounded down to even; `EvenHeight` and `GeometryShape` state its properties |
| Dump2Picture.FileSizeAsWritten | Dump2Picture.cpp:118 | Defines `fileSize`: each factor converted to `unsigned long long` and multiplied in that type; `FileSizeIsProductMod64` and `FileSizeOfNegatedHeight` state its value |
| Dump2Picture.SizeImageAsWritten | Dump2Picture.cpp:120 | Defines `biSizeImage`: 0 when the 64-bit sum of file size and offset exceeds `DWORD` max, else the file size truncated to a `DWORD`; `SizeFieldsAsWritten` states its closed form |
| Dump2Picture.BfSizeAsWritten | Dump2Picture.cpp:122 | Defines `bfSize`: 0 when `biSizeImage` is 0, else the `DWORD` sum of offset and image size; `SizeFieldsAsWritten` and `SizeSentinelsAgree` state its value |
| Dump2Picture.GeometryOffBits | Dump2Picture.cpp:113-116 | Defines `bfOffBits` after the step: widened by `sizeof(rgb)` in `DWORD` arithmetic at 8 bits, unchanged otherwise; `ComputeGeometry` is proved to leave it in `bfOffBits` |
| Dump2Picture.GeometrySizeImage | Dump2Picture.cpp:118-120 | Defines `biSizeImage` after the step: the as-written image size of the negated-height file size and the widened offset; `ComputeGeometry` is proved to leave it in `biSizeImage` |
| Dump2Picture.GeometryInfoHeader | Dump2Picture.cpp:102-120 | Defines the info header after the geometry step on any header: width, negated height and image size replaced, every other field kept; `ComputeGeometry` is proved to produce it |
| Dump2Picture.GeometryFileHeader | Dump2Picture.cpp:113-122 | Defines the file header after the geometry step on any header: widened offset and `bfSize` replaced, every other field kept; `ComputeGeometry` is proved to produce it |
| Dump2Picture.SynthesizedInfoHeader | Dump2Picture.cpp:102-120 | Defines `bmih` as written: the geometry step applied to the initialiser with the accepted bit count; `Synthesize`, `Run`, `FixedFields` and `GeometryShape` tie it to the program's steps |
| Dump2Picture.SynthesizedFileHeader | Dump2Picture.cpp:113-122 | Defines `bmfh` as written: the geometry step applied to the initialiser; `Synthesize`, `Run` and `FixedFields` tie it to the program's steps |
| Dump2Picture.WrittenPalette | Dump2Picture.cpp:146-153 | Defines the colour table that is written: the grayscale ramp at 8 bits, nothing otherwise; `WriteHeader` is proved to write it |
| Dump2Picture.HeaderImage | Dump2Picture.cpp:113-153 | The written header's length is `bfOffBits`: 54 bytes, or 1078 with the colour table at 8 bits |
| Dump2Picture.BitmapGlobals.constructor | Dump2Picture.cpp:12-14 | The globals start from their initialisers: tag 'MB', offset 54, info-header size 40, 1 plane, 32 bits, other fields 0, a zeroed 256-entry table |
| Dump2Picture.BitmapGlobals.FillGrayPalette | Dump2Picture.cpp:73-79 | The loop with the wrapping `BYTE` counter leaves entry `i` at blue = green = red = `i` and reserved 0 for all 256 entries |
| Dump2Picture.BitmapGlobals.SetBitCount | Dump2Picture.cpp:61-88 | The depth is stored in `biBitCount`; it is accepted exactly when it is 8, 16, 24 or 32; only 8 fills the palette; nothing else changes |
| Dump2Picture.BitmapGlobals.FitSquare | Dump2Picture.cpp:102-111 | `biWidth` and `biHeight` become the aligned width and the negated even height of the square fit, and no other field changes |
| Dump2Picture.BitmapGlobals.AddPaletteOffset | Dump2Picture.cpp:113-116 | `bfOffBits` grows by `sizeof(rgb)` at 8 bits and is unchanged otherwise |
| Dump2Picture.BitmapGlobals.ComputeSizes | Dump2Picture.cpp:118-122 | `biSizeImage` is 0 when the 64-bit sum of file size and offset exceeds `DWORD` max, else the truncated file size; `bfSize` is 0 when `biSizeImage` is 0, else their `DWORD` sum |
| Dump2Picture.BitmapGlobals.ComputeGeometry | Dump2Picture.cpp:102-122 | From any headers at an accepted depth, the four statements in order change only `biWidth`, `biHeight`, `bfOffBits`, `biSizeImage` and `bfSize`, to the geometry-step records of the old headers |
| Dump2Picture.BitmapGlobals.Synthesize | Dump2Picture.cpp:102-122 | From the initialised globals with the accepted depth, `bmih` and `bmfh` become exactly the synthesized records |
| Dump2Picture.BitmapGlobals.Written | Dump2Picture.cpp:134-153 | The three writes put out 54 bytes, plus the 1024-byte table (256 entries of 4 bytes) at 8 bits |
| Dump2Picture.BitmapGlobals.WriteHeader | Dump2Picture.cpp:134-153 | With the synthesized records and, at 8 bits, the grayscale table in `rgb`, the bytes written are exactly the header image of that depth and dump size |
| Dump2Picture.Run | Dump2Picture.cpp:57-153 | Status is 0 or -1; it is -1 exactly when a depth argument is given that is not 8, 16, 24 or 32, and then nothing is written; otherwise the header written is that of the effective depth (32 without an argument) |
| HeaderProperties.GeometryShape | Dump2Picture.cpp:102-111 | Width even, a multiple of 8 at 8 bits; stored height ≤ 0 with its magnitude even and ≥ the width; the image is square except for the 8-bit narrowing |
| HeaderProperties.AreaFitsDump | Dump2Picture.cpp:102-111 | Width × height magnitude × bytes per pixel never exceeds the dump size (rows not padded to 4 bytes) |
| HeaderProperties.FileSizeOfNegatedHeight | Dump2Picture.cpp:111-118 | Because the height is negated first, the file size is 0 for an empty image and 2^64 minus the pixel bytes otherwise |
| HeaderProperties.SizeFieldsAsWritten | Dump2Picture.cpp:111-122 | Both size fields are 0 when the image is empty or its pixel bytes exceed the offset; otherwise `biSizeImage` is 2^32 minus the pixel bytes and `bfSize` the offset minus them |
| HeaderProperties.SizeSentinelsAgree | Dump2Picture.cpp:120-122 | `bfSize` is 0 exactly when `biSizeImage` is 0 |
| HeaderProperties.HeaderReadsBack | Dump2Picture.cpp:134-153 | The written header starts with the bytes "BM" and decodes to the records as synthesized and to the colour table, when one is written |
| HeaderProperties.FixedFields | Dump2Picture.cpp:12-13 | The fixed fields keep their initialiser values (tag 'MB', reserved 0, size 40, 1 plane, `BI_RGB`, resolution and colour counts 0), `biBitCount` is the accepted depth, and `bfOffBits` equals the written header's length |
| SizeFieldFinding.SizeFieldsZeroForOrdinaryDump | Dump2Picture.cpp:102-122 | As written, a 10000-byte dump at 32 bits gets a 50 × -50 header whose size fields are both 0 |
| SizeFieldFinding.SizeFieldsWrapForTinyDump | Dump2Picture.cpp:102-122 | As written, a 16-byte dump at 32 bits gets a 2 × -2 header with `biSizeImage` 0xFFFFFFF0 and `bfSize` 38 |
| SizeFieldFinding.SizeFieldsWrapForSmallGrayDump | Dump2Picture.cpp:102-122 | As written, a 100-byte dump at 8 bits gets an 8 × -10 header with `biSizeImage` 0xFFFFFFB0 and `bfSize` 998 |
| SizeFieldFinding.SizeFieldsWrapForGrayDumpAboveHeader | Dump2Picture.cpp:102-122 | As written, a 1100-byte dump at 8 bits, larger than its header, gets a 32 × -32 header with `biSizeImage` 0xFFFFFC00 and `bfSize` 54 |
| SizeFieldFinding.IntendedSizeImage | Dump2Picture.cpp:118-120 | With the product taken from the height magnitude, `biSizeImage` is the pixel bytes when header plus pixels fit a `DWORD`, else 0 |
| SizeFieldFinding.IntendedBfSize | Dump2Picture.cpp:118-122 | With the product taken from the height magnitude, `bfSize` is the offset plus the pixel bytes when the image is not empty and the file fits a `DWORD`, else 0 |
| SizeFieldFinding.IntendedScenarios | Dump2Picture.cpp:118-122 | The intended fields of the three dumps above are 10000 and 10054, 16 and 70, 80 and 1158 |

## Left out

- The parsing of the depth argument with `std::stoi` (Dump2Picture.cpp:59-67) is not modelled. This covers its exception path and the truncation of the `int` result to `WORD`. The model takes the depth as a `WORD`, or as absent.
- The floating-point `std::sqrt` and `std::trunc` (Dump2Picture.cpp:102) are replaced by an exact integer square root, and dumps must be smaller than 2^62 bytes. From about 2^52 pixels on, the rounded double square root can exceed the integer root: the first pixel count where they differ is (2^26 + 1)^2 - 1. A side of 2^31 or more would overflow the cast to `LONG`. Neither case is modelled.
- Dump2Picture.Side: for the reason above, this contract is the exact truncated square root, not the double-precision result.
- HeaderProperties.AreaFitsDump: `BI_RGB` rows are padded to a multiple of 4 bytes, and that padding is not modelled. The lemma bounds the unpadded product width × height magnitude × bytes per pixel. At 24 bits an even width with remainder 2 mod 4 gives rows that are not 4-byte aligned. The padded image the header describes can then exceed the dump: a 12-byte dump at 24 bits gets a 2 × -2 header whose padded rows take 16 bytes. `SizeFieldFinding.IntendedSizeImage` and `SizeFieldFinding.IntendedBfSize` also use the unpadded product.
- The C++ `%` truncates toward zero, but the model uses Dafny's `%`. The two agree here because the side is never negative.
- All Win32 I/O is out of the model. This covers opening and sizing the dump (`CreateFile`, `GetFileSize`), creating and writing the header file, and the error returns from those calls. The three `WriteFile` calls are modelled as the bytes they write, in order.
- The `copy /B` command that appends the dump to the header file (Dump2Picture.cpp:159) is shell I/O and is not modelled.
- Error reporting (`ReportError`, `FormatMessage`), the usage and banner text, and the `RAII_HANDLE` wrapper are console output and resource handling. They are not modelled.
- The multi-character literal `'MB'` is taken to be 0x4D42, the value the Microsoft compiler gives it. Its bytes are therefore written as "BM".

## Findings

| source | as written | input that shows it | evidently intended | confidence | as-written member | corrected member |
|---|---|---|---|---|---|---|
| Dump2Picture.cpp:111-122 | `fileSize` is computed from `biHeight` after that field was negated, in `unsigned long long`. The product becomes 2^64 minus the pixel bytes, so the overflow test zeroes both size fields for every dump whose pixel bytes (width × height magnitude × bytes per pixel) exceed the header offset. For a dump of a few pixels, the 64-bit sum wraps and the fields get meaningless values. | A 10000-byte dump at 32 bits gives `biSizeImage` 0 and `bfSize` 0. A 16-byte dump at 32 bits gives 0xFFFFFFF0 and 38. A 100-byte dump at 8 bits gives 0xFFFFFFB0 and 998. A 1100-byte dump at 8 bits, larger than its 1078-byte header, gives 0xFFFFFC00 and 54. | Take the product with the height magnitude. Then `biSizeImage` is the number of pixel bytes (10000, 16, 80) and `bfSize` is the offset plus those bytes (10054, 70, 1158). | high; not executed | SizeFieldFinding.SizeFieldsZeroForOrdinaryDump | SizeFieldFinding.IntendedBfSize |

Everything except the corrected pair follows the code as written. That
includes `BitmapGlobals`, `Run`, `SynthesizedInfoHeader` and
`SynthesizedFileHeader`. Only `IntendedSizeImage` and `IntendedBfSize` use
the height magnitude. The as-written member
`HeaderProperties.SizeFieldsAsWritten` states the general closed form of the
written fields. The other three as-written scenario lemmas prove the second,
third and fourth inputs above.
