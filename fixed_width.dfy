/**
 * The fixed-width integer types of the Win32 bitmap structures (`BYTE`,
 * `WORD`, `DWORD`, `LONG`, `ULONGLONG`), the wrap-around that C++ applies
 * when a value is converted to, or computed in, an unsigned type, and the
 * little-endian byte encodings in which the structures are written.
 */
module FixedWidth {

  newtype uint8 = x: int | 0 <= x < 0x100                         // BYTE
  newtype uint16 = x: int | 0 <= x < 0x1_0000                     // WORD
  newtype uint32 = x: int | 0 <= x < 0x1_0000_0000                // DWORD
  newtype uint64 = x: int | 0 <= x < 0x1_0000_0000_0000_0000      // ULONGLONG
  newtype int32 = x: int | -0x8000_0000 <= x < 0x8000_0000        // LONG

  /** Conversion of any integer value to `DWORD`: the value modulo 2^32. */
  function ToU32(x: int): uint32
  {
    (x % 0x1_0000_0000) as uint32
  }

  /** Conversion of any integer value to `unsigned long long`: the value modulo 2^64. */
  function ToU64(x: int): uint64
  {
    (x % 0x1_0000_0000_0000_0000) as uint64
  }

  /** `DWORD + DWORD`, computed in `DWORD`. */
  function AddU32(a: uint32, b: uint32): uint32
  {
    ToU32(a as int + b as int)
  }

  /** `unsigned long long + unsigned long long`. */
  function AddU64(a: uint64, b: uint64): uint64
  {
    ToU64(a as int + b as int)
  }

  /** `unsigned long long * unsigned long long`. */
  function MulU64(a: uint64, b: uint64): uint64
  {
    ToU64(a as int * b as int)
  }

  lemma ModOfMultipleOf64(k: int, x: int)
    ensures (k * 0x1_0000_0000_0000_0000 + x) % 0x1_0000_0000_0000_0000
         == x % 0x1_0000_0000_0000_0000
  {
  }

  /** Reducing one factor modulo 2^64 does not change the product modulo 2^64. */
  lemma MulModLeft64(a: int, b: int)
    ensures ((a % 0x1_0000_0000_0000_0000) * b) % 0x1_0000_0000_0000_0000
         == (a * b) % 0x1_0000_0000_0000_0000
  {
    var q := a / 0x1_0000_0000_0000_0000;
    var r := a % 0x1_0000_0000_0000_0000;
    assert a == q * 0x1_0000_0000_0000_0000 + r;
    calc {
      a * b;
      (q * 0x1_0000_0000_0000_0000 + r) * b;
      (q * b) * 0x1_0000_0000_0000_0000 + r * b;
    }
    ModOfMultipleOf64(q * b, r * b);
  }

  /** A product of two values converted to `unsigned long long` is their mathematical product modulo 2^64. */
  lemma MulU64OfConverted(a: int, b: int)
    ensures MulU64(ToU64(a), ToU64(b)) as int == (a * b) % 0x1_0000_0000_0000_0000
  {
    var a' := a % 0x1_0000_0000_0000_0000;
    var b' := b % 0x1_0000_0000_0000_0000;
    calc {
      MulU64(ToU64(a), ToU64(b)) as int;
      (a' * b') % 0x1_0000_0000_0000_0000;
      { MulModLeft64(a, b'); }
      (a * b') % 0x1_0000_0000_0000_0000;
      { assert a * b' == b' * a; }
      (b' * a) % 0x1_0000_0000_0000_0000;
      { MulModLeft64(b, a); }
      (b * a) % 0x1_0000_0000_0000_0000;
      { assert b * a == a * b; }
      (a * b) % 0x1_0000_0000_0000_0000;
    }
  }

  /** The two bytes of a `WORD`, least significant first. */
  function LE16(x: uint16): (b: seq<uint8>)
    ensures |b| == 2 && FromLE16(b) == x
  {
    [(x % 0x100) as uint8, (x / 0x100) as uint8]
  }

  function FromLE16(b: seq<uint8>): uint16
    requires |b| == 2
  {
    (b[0] as int + 0x100 * b[1] as int) as uint16
  }

  /** The four bytes of a `DWORD`, least significant first. */
  function LE32(x: uint32): (b: seq<uint8>)
    ensures |b| == 4 && FromLE32(b) == x
  {
    var lo := LE16((x % 0x1_0000) as uint16);
    var hi := LE16((x / 0x1_0000) as uint16);
    assert (lo + hi)[..2] == lo && (lo + hi)[2..] == hi;
    lo + hi
  }

  function FromLE32(b: seq<uint8>): uint32
    requires |b| == 4
  {
    (FromLE16(b[..2]) as int + 0x1_0000 * FromLE16(b[2..]) as int) as uint32
  }

  /** The two's-complement bit pattern of a `LONG`. */
  function Int32Bits(x: int32): uint32
  {
    if x < 0 then (x as int + 0x1_0000_0000) as uint32 else x as int as uint32
  }

  function Int32FromBits(u: uint32): int32
  {
    if u < 0x8000_0000 then u as int as int32 else (u as int - 0x1_0000_0000) as int32
  }

  /** The four bytes of a `LONG` in two's complement, least significant first. */
  function LE32Signed(x: int32): (b: seq<uint8>)
    ensures |b| == 4 && FromLE32Signed(b) == x
  {
    LE32(Int32Bits(x))
  }

  function FromLE32Signed(b: seq<uint8>): int32
    requires |b| == 4
  {
    Int32FromBits(FromLE32(b))
  }
}
