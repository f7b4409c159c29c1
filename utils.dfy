/**
 * Bit-level and arithmetic helpers of the TIM2 tools (src/utils.h): byte
 * swapping, alignment rounding, bit-field access, colour-channel widening and
 * narrowing, texture-size and mip-dimension arithmetic.
 *
 * The fixed-width unsigned integers of C++ are Dafny bit-vectors of the same
 * width, so the mask-and-shift code keeps its wrap-around and truncation.
 * Plain `int` and `size_t` arithmetic that cannot overflow on the values the
 * program handles is written on unbounded integers.
 */
module Utils {

  type u8 = bv8
  type u16 = bv16
  type u32 = bv32
  type u64 = bv64

  // The same widths as numbers, for the fields the parser does arithmetic on.
  type uint8 = x: int | 0 <= x < 0x100
  type uint16 = x: int | 0 <= x < 0x1_0000
  type uint32 = x: int | 0 <= x < 0x1_0000_0000

  /** 2^n on unbounded integers. */
  function Pow2(n: nat): (r: nat)
    ensures r >= 1
  {
    if n == 0 then 1 else 2 * Pow2(n - 1)
  }

  lemma {:induction false} Pow2Add(m: nat, n: nat)
    ensures Pow2(m + n) == Pow2(m) * Pow2(n)
  {
    if m > 0 {
      Pow2Add(m - 1, n);
    }
  }

  // ---------------------------------------------------------------------
  // Little-endian byte views. TIM2 stores every multi-byte field least
  // significant byte first; the model decodes it so on every host.
  // ---------------------------------------------------------------------

  /** The two bytes of `v`, least significant first. */
  function LeBytes16(v: u16): (b: seq<u8>)
    ensures |b| == 2
  {
    [(v & 0xFF) as u8, (v >> 8) as u8]
  }

  /** The four bytes of `v`, least significant first. */
  function LeBytes32(v: u32): (b: seq<u8>)
    ensures |b| == 4
  {
    [(v & 0xFF) as u8, ((v >> 8) & 0xFF) as u8, ((v >> 16) & 0xFF) as u8, (v >> 24) as u8]
  }

  /** The eight bytes of `v`, least significant first. */
  function LeBytes64(v: u64): (b: seq<u8>)
    ensures |b| == 8
  {
    [(v & 0xFF) as u8, ((v >> 8) & 0xFF) as u8, ((v >> 16) & 0xFF) as u8, ((v >> 24) & 0xFF) as u8,
     ((v >> 32) & 0xFF) as u8, ((v >> 40) & 0xFF) as u8, ((v >> 48) & 0xFF) as u8, (v >> 56) as u8]
  }

  /** The little-endian u16 stored at `s[i..i+2]`. */
  function U16At(s: seq<u8>, i: nat): (v: u16)
    requires i + 2 <= |s|
  {
    (s[i] as u16) | ((s[i + 1] as u16) << 8)
  }

  /** The little-endian u32 stored at `s[i..i+4]`. */
  function U32At(s: seq<u8>, i: nat): (v: u32)
    requires i + 4 <= |s|
  {
    (s[i] as u32) | ((s[i + 1] as u32) << 8) | ((s[i + 2] as u32) << 16) | ((s[i + 3] as u32) << 24)
  }

  /** The little-endian u64 stored at `s[i..i+8]`. */
  function U64At(s: seq<u8>, i: nat): (v: u64)
    requires i + 8 <= |s|
  {
    (s[i] as u64) | ((s[i + 1] as u64) << 8) | ((s[i + 2] as u64) << 16) | ((s[i + 3] as u64) << 24)
    | ((s[i + 4] as u64) << 32) | ((s[i + 5] as u64) << 40) | ((s[i + 6] as u64) << 48) | ((s[i + 7] as u64) << 56)
  }

  /** A read sees exactly the little-endian bytes of the value it returns. */
  lemma Read16Bytes(s: seq<u8>, i: nat)
    requires i + 2 <= |s|
    ensures LeBytes16(U16At(s, i)) == s[i..i + 2]
  {
  }

  lemma Read32Bytes(s: seq<u8>, i: nat)
    requires i + 4 <= |s|
    ensures LeBytes32(U32At(s, i)) == s[i..i + 4]
  {
  }

  lemma Read64Bytes(s: seq<u8>, i: nat)
    requires i + 8 <= |s|
    ensures LeBytes64(U64At(s, i)) == s[i..i + 8]
  {
  }

  /** Reading back the bytes of a value gives the value: the byte views are injective. */
  lemma LeBytesRoundTrip(a: u16, b: u32, c: u64)
    ensures U16At(LeBytes16(a), 0) == a
    ensures U32At(LeBytes32(b), 0) == b
    ensures U64At(LeBytes64(c), 0) == c
  {
  }

  /** Bytes that spell a value's little-endian form decode to that value, at any offset. */
  lemma U16AtBytes(s: seq<u8>, i: nat, a: u16)
    requires i + 2 <= |s| && s[i..i + 2] == LeBytes16(a)
    ensures U16At(s, i) == a
  {
    LeBytesRoundTrip(a, 0, 0);
    LeBytesRoundTrip(U16At(s, i), 0, 0);
  }

  lemma U32AtBytes(s: seq<u8>, i: nat, b: u32)
    requires i + 4 <= |s| && s[i..i + 4] == LeBytes32(b)
    ensures U32At(s, i) == b
  {
    LeBytesRoundTrip(0, b, 0);
    LeBytesRoundTrip(0, U32At(s, i), 0);
  }

  lemma U64AtBytes(s: seq<u8>, i: nat, c: u64)
    requires i + 8 <= |s| && s[i..i + 8] == LeBytes64(c)
    ensures U64At(s, i) == c
  {
    LeBytesRoundTrip(0, 0, c);
    LeBytesRoundTrip(0, 0, U64At(s, i));
  }

  /** A read inside the first part of a concatenation sees only that part. */
  lemma ReadPrefix(a: seq<u8>, r: seq<u8>, i: nat)
    ensures i + 2 <= |a| ==> U16At(a + r, i) == U16At(a, i)
    ensures i + 4 <= |a| ==> U32At(a + r, i) == U32At(a, i)
    ensures i + 8 <= |a| ==> U64At(a + r, i) == U64At(a, i)
    ensures i + 2 <= |a| ==> Num16At(a + r, i) == Num16At(a, i)
    ensures i + 4 <= |a| ==> Num32At(a + r, i) == Num32At(a, i)
  {
  }

  /** A read inside the second part of a concatenation sees only that part. */
  lemma ReadSuffix(l: seq<u8>, a: seq<u8>, i: nat)
    ensures i + 2 <= |a| ==> U16At(l + a, |l| + i) == U16At(a, i)
    ensures i + 4 <= |a| ==> U32At(l + a, |l| + i) == U32At(a, i)
    ensures i + 8 <= |a| ==> U64At(l + a, |l| + i) == U64At(a, i)
  {
  }

  /** The same for the numeric reads. */
  lemma NumReadSuffix(l: seq<u8>, a: seq<u8>, i: nat)
    ensures i + 2 <= |a| ==> Num16At(l + a, |l| + i) == Num16At(a, i)
    ensures i + 4 <= |a| ==> Num32At(l + a, |l| + i) == Num32At(a, i)
  {
    if i + 2 <= |a| {
      assert (l + a)[|l| + i] == a[i] && (l + a)[|l| + i + 1] == a[i + 1];
    }
    if i + 4 <= |a| {
      assert (l + a)[|l| + i + 2] == a[i + 2] && (l + a)[|l| + i + 3] == a[i + 3];
    }
  }

  /** A value read from a slice is the value stored where the slice starts. */
  lemma U64AtSlice(s: seq<u8>, i: nat)
    requires i + 8 <= |s|
    ensures U64At(s[i..i + 8], 0) == U64At(s, i)
  {
    var b := s[i..i + 8];
    assert b[0..8] == s[i..i + 8];
    Read64Bytes(b, 0);
    U64AtBytes(s, i, U64At(b, 0));
  }

  lemma Num32AtSlice(s: seq<u8>, i: nat)
    requires i + 4 <= |s|
    ensures Num32At(s[i..i + 4], 0) == Num32At(s, i)
  {
  }

  // ---------------------------------------------------------------------
  // The same little-endian layout for the fields the parser computes with,
  // held as numbers rather than bit-vectors.
  // ---------------------------------------------------------------------

  /** The byte holding a number below 256, built by counting up from zero. */
  function ByteOf(y: uint8): u8
  {
    if y == 0 then 0 else ByteOf(y - 1) + 1
  }

  /** The byte of a number has that number as its value. */
  lemma {:induction false} ByteOfValue(y: uint8)
    ensures ByteOf(y) as int == y
  {
    if y > 0 {
      ByteOfValue(y - 1);
      assert ByteOf(y - 1) < 0xFF;
    }
  }

  /** Every byte is the byte of its own value. */
  lemma ByteOfNumber(b: u8)
    ensures ByteOf(b as int) == b
  {
    ByteOfValue(b as int);
  }

  /** The little-endian 16-bit number stored at `s[i..i+2]`. */
  function Num16At(s: seq<u8>, i: nat): uint16
    requires i + 2 <= |s|
  {
    s[i] as int + 0x100 * s[i + 1] as int
  }

  /** The little-endian 32-bit number stored at `s[i..i+4]`. */
  function Num32At(s: seq<u8>, i: nat): uint32
    requires i + 4 <= |s|
  {
    Num16At(s, i) + 0x1_0000 * Num16At(s, i + 2)
  }

  /** The two bytes of `x`, least significant first. */
  function NumBytes16(x: uint16): (b: seq<u8>)
    ensures |b| == 2
  {
    [ByteOf(x % 0x100), ByteOf(x / 0x100)]
  }

  /** The four bytes of `x`, least significant first. */
  function NumBytes32(x: uint32): (b: seq<u8>)
    ensures |b| == 4
  {
    NumBytes16(x % 0x1_0000) + NumBytes16(x / 0x1_0000)
  }

  /** Reading back the bytes of a number gives the number. */
  lemma Num16RoundTrip(x: uint16)
    ensures Num16At(NumBytes16(x), 0) == x
  {
    DivModDef(x, 0x100);
    ByteOfValue(x % 0x100);
    ByteOfValue(x / 0x100);
  }

  lemma Num32RoundTrip(x: uint32)
    ensures Num32At(NumBytes32(x), 0) == x
  {
    var b := NumBytes32(x);
    DivModDef(x, 0x1_0000);
    Num16RoundTrip(x % 0x1_0000);
    Num16RoundTrip(x / 0x1_0000);
    assert Num16At(b, 0) == Num16At(NumBytes16(x % 0x1_0000), 0);
    assert Num16At(b, 2) == Num16At(NumBytes16(x / 0x1_0000), 0);
  }

  /** Writing out the number read from two bytes gives those bytes. */
  lemma Bytes16RoundTrip(s: seq<u8>, i: nat)
    requires i + 2 <= |s|
    ensures NumBytes16(Num16At(s, i)) == s[i..i + 2]
  {
    var x := Num16At(s, i);
    DivUnique(x, 0x100, s[i + 1] as int, s[i] as int);
    ByteOfNumber(s[i]);
    ByteOfNumber(s[i + 1]);
  }

  lemma Bytes32RoundTrip(s: seq<u8>, i: nat)
    requires i + 4 <= |s|
    ensures NumBytes32(Num32At(s, i)) == s[i..i + 4]
  {
    var x := Num32At(s, i);
    DivUnique(x, 0x1_0000, Num16At(s, i + 2), Num16At(s, i));
    Bytes16RoundTrip(s, i);
    Bytes16RoundTrip(s, i + 2);
  }

  /** Bytes that spell a number decode to that number, at any offset. */
  lemma Num16AtBytes(s: seq<u8>, i: nat, x: uint16)
    requires i + 2 <= |s| && s[i..i + 2] == NumBytes16(x)
    ensures Num16At(s, i) == x
  {
    Num16RoundTrip(x);
    assert Num16At(s, i) == Num16At(NumBytes16(x), 0);
  }

  lemma Num32AtBytes(s: seq<u8>, i: nat, x: uint32)
    requires i + 4 <= |s| && s[i..i + 4] == NumBytes32(x)
    ensures Num32At(s, i) == x
  {
    Num32RoundTrip(x);
    var b := NumBytes32(x);
    assert Num16At(s, i) == Num16At(b, 0);
    assert Num16At(s, i + 2) == Num16At(b, 2);
  }

  // ---------------------------------------------------------------------
  // swapEndian<T>: one function per width of T.
  // ---------------------------------------------------------------------

  /** One-byte values have no byte order: swapEndian returns them unchanged. */
  function SwapEndian8(value: u8): (r: u8)
  {
    value
  }

  function SwapEndian16(value: u16): (r: u16)
  {
    (value >> 8) | (value << 8)
  }

  function SwapEndian32(value: u32): (r: u32)
  {
    ((value >> 24) & 0xFF) | ((value >> 8) & 0xFF00) | ((value << 8) & 0xFF0000) | ((value << 24) & 0xFF000000)
  }

  function SwapEndian64(value: u64): (r: u64)
  {
    ((value >> 56) & 0xFF)
    | ((value >> 40) & 0xFF00)
    | ((value >> 24) & 0xFF0000)
    | ((value >> 8) & 0xFF000000)
    | ((value << 8) & 0xFF00000000)
    | ((value << 24) & 0xFF0000000000)
    | ((value << 40) & 0xFF000000000000)
    | ((value << 56) & 0xFF00000000000000)
  }

  /** swapEndian reverses the byte order, at every width. */
  lemma SwapEndianReversesBytes(b: u16, c: u32, d: u64)
    ensures var x := LeBytes16(b); LeBytes16(SwapEndian16(b)) == [x[1], x[0]]
    ensures var x := LeBytes32(c); LeBytes32(SwapEndian32(c)) == [x[3], x[2], x[1], x[0]]
    ensures var x := LeBytes64(d); LeBytes64(SwapEndian64(d)) == [x[7], x[6], x[5], x[4], x[3], x[2], x[1], x[0]]
  {
    Swap32Bytes(c);
    Swap64Low(d);
    Swap64High(d);
  }

  lemma Swap32Bytes(value: u32)
    ensures var r := SwapEndian32(value);
      (r & 0xFF) as u8 == (value >> 24) as u8 && ((r >> 8) & 0xFF) as u8 == ((value >> 16) & 0xFF) as u8
      && ((r >> 16) & 0xFF) as u8 == ((value >> 8) & 0xFF) as u8 && (r >> 24) as u8 == (value & 0xFF) as u8
  {
  }

  lemma Swap64Low(value: u64)
    ensures var r := SwapEndian64(value);
      (r & 0xFF) as u8 == (value >> 56) as u8 && ((r >> 8) & 0xFF) as u8 == ((value >> 48) & 0xFF) as u8
      && ((r >> 16) & 0xFF) as u8 == ((value >> 40) & 0xFF) as u8 && ((r >> 24) & 0xFF) as u8 == ((value >> 32) & 0xFF) as u8
  {
  }

  lemma Swap64High(value: u64)
    ensures var r := SwapEndian64(value);
      ((r >> 32) & 0xFF) as u8 == ((value >> 24) & 0xFF) as u8 && ((r >> 40) & 0xFF) as u8 == ((value >> 16) & 0xFF) as u8
      && ((r >> 48) & 0xFF) as u8 == ((value >> 8) & 0xFF) as u8 && (r >> 56) as u8 == (value & 0xFF) as u8
  {
  }

  /** A one-byte value is its own swap; swapping twice restores the value, at every width. */
  lemma SwapEndianInvolution(a: u8, b: u16, c: u32, d: u64)
    ensures SwapEndian8(a) == a
    ensures SwapEndian16(SwapEndian16(b)) == b
    ensures SwapEndian32(SwapEndian32(c)) == c
    ensures SwapEndian64(SwapEndian64(d)) == d
  {
  }

  // ---------------------------------------------------------------------
  // Integer division facts used below (Dafny's `/` and `%` on a positive
  // divisor are floor division and a non-negative remainder).
  // ---------------------------------------------------------------------

  lemma DivModDef(n: int, d: int)
    requires d >= 1
    ensures n == (n / d) * d + n % d && 0 <= n % d < d
  {
  }

  lemma MulAtLeastFactor(x: int, d: int)
    requires d >= 1
    ensures x >= 1 ==> x * d >= d
    ensures x <= 0 ==> x * d <= 0
  {
  }

  lemma MulComm(a: int, b: int)
    ensures a * b == b * a
  {
  }

  lemma MulAssoc(a: int, b: int, c: int)
    ensures (a * b) * c == a * (b * c)
  {
  }

  lemma MulAddDistrib(a: int, b: int, c: int)
    ensures (a + b) * c == a * c + b * c
  {
  }

  lemma MulMonotone(x: int, y: int, d: int)
    requires x <= y && d >= 0
    ensures x * d <= y * d
  {
    MulAddDistrib(x, y - x, d);
    MulNonNegative(y - x, d);
  }

  lemma {:induction false} MulNonNegative(x: int, d: int)
    requires x >= 0 && d >= 0
    ensures x * d >= 0
    decreases x
  {
    if x > 0 {
      MulNonNegative(x - 1, d);
      MulAddDistrib(x - 1, 1, d);
    }
  }

  /** The quotient and remainder are the only ones with `n == q * d + r` and `0 <= r < d`. */
  lemma DivUnique(n: int, d: int, q: int, r: int)
    requires d >= 1 && n == q * d + r && 0 <= r < d
    ensures n / d == q && n % d == r
  {
    var q0 := n / d;
    var r0 := n % d;
    DivModDef(n, d);
    if q0 > q {
      assert (q0 - q) * d + r0 == r by { assert q0 * d - q * d == (q0 - q) * d; }
      MulAtLeastFactor(q0 - q, d);
    } else if q0 < q {
      assert (q - q0) * d + r == r0 by { assert q * d - q0 * d == (q - q0) * d; }
      MulAtLeastFactor(q - q0, d);
    }
  }

  // ---------------------------------------------------------------------
  // Alignment
  // ---------------------------------------------------------------------

  /** isAligned: `value` is a multiple of `alignment`. */
  predicate IsAligned(value: nat, alignment: nat)
    requires alignment > 0
  {
    value % alignment == 0
  }

  /** alignUp: round `value` up to the next multiple of `alignment`. */
  function AlignUp(value: nat, alignment: nat): (r: nat)
    requires alignment > 0
    ensures IsAligned(r, alignment)
    ensures value <= r < value + alignment
  {
    var q := (value + alignment - 1) / alignment;
    DivModDef(value + alignment - 1, alignment);
    DivUnique(q * alignment, alignment, q, 0);
    q * alignment
  }

  /** The first multiple of `alignment` at or above `value`, counted out one `alignment` at a time. */
  function NextMultiple(value: nat, alignment: nat): (r: nat)
    requires alignment > 0
    decreases value
  {
    if value == 0 then 0
    else if value <= alignment then alignment
    else alignment + NextMultiple(value - alignment, alignment)
  }

  /** alignUp's division formula and the counting definition agree. */
  lemma {:induction false} AlignUpIsNextMultiple(value: nat, alignment: nat)
    requires alignment > 0
    ensures AlignUp(value, alignment) == NextMultiple(value, alignment)
    decreases value
  {
    if value == 0 {
      DivUnique(alignment - 1, alignment, 0, alignment - 1);
    } else if value <= alignment {
      DivUnique(value + alignment - 1, alignment, 1, value - 1);
    } else {
      var v := value - alignment;
      AlignUpIsNextMultiple(v, alignment);
      var q := (v + alignment - 1) / alignment;
      DivModDef(v + alignment - 1, alignment);
      MulAddDistrib(q, 1, alignment);
      DivUnique(value + alignment - 1, alignment, q + 1, (v + alignment - 1) % alignment);
    }
  }

  /** Aligned values are fixed points of alignUp, so alignUp is idempotent. */
  lemma AlignUpIdempotent(value: nat, alignment: nat)
    requires alignment > 0
    ensures IsAligned(value, alignment) ==> AlignUp(value, alignment) == value
    ensures AlignUp(AlignUp(value, alignment), alignment) == AlignUp(value, alignment)
  {
    AlignedFixed(value, alignment);
    AlignedFixed(AlignUp(value, alignment), alignment);
  }

  lemma AlignedFixed(value: nat, alignment: nat)
    requires alignment > 0
    ensures IsAligned(value, alignment) ==> AlignUp(value, alignment) == value
  {
    if IsAligned(value, alignment) {
      var q := value / alignment;
      DivModDef(value, alignment);
      DivUnique(value + alignment - 1, alignment, q, alignment - 1);
    }
  }

  // ---------------------------------------------------------------------
  // Bit fields of a 64-bit word. C++ shifts by 64 or more are undefined, so
  // `start` and `count` (C++ `int`s) stay in 0..63.
  // ---------------------------------------------------------------------

  /** (1 << count) - 1: the low `count` bits. */
  function LowMask(count: bv7): (m: u64)
    requires count < 64
  {
    ((1 as u64) << count) - 1
  }

  /** The bits [start, start + count) of a word, as setBits sees them. */
  function FieldMask(start: nat, count: nat): (m: u64)
    requires start < 64 && count < 64
  {
    LowMask(count as bv7) << start
  }

  /**
   * extractBits: the `count` bits of `value` from bit `start`, truncated to
   * the 32-bit return type.
   */
  function ExtractBits(value: u64, start: bv7, count: bv7): (r: u32)
    requires start < 64 && count < 64
    ensures r as u64 <= LowMask(count)
  {
    (((value >> start) & (((1 as u64) << count) - 1)) & 0xFFFF_FFFF) as u32
  }

  /**
   * setBits: the new value of the word it updates in place (the reference
   * parameter is the function's result).
   */
  function SetBits(value: u64, start: nat, count: nat, bits: u32): (r: u64)
    requires start < 64 && count < 64
  {
    var mask: u64 := FieldMask(start, count);
    (value & !mask) | (((bits as u64) << start) & mask)
  }

  /** setBits leaves every bit outside [start, start + count) as it was. */
  lemma SetBitsKeepsOtherBits(value: u64, start: nat, count: nat, bits: u32)
    requires start < 64 && count < 64
    ensures SetBits(value, start, count, bits) & !FieldMask(start, count) == value & !FieldMask(start, count)
  {
  }

  /** setBits puts the low bits of `bits`, shifted to `start`, into the field. */
  lemma SetBitsStoresField(value: u64, start: nat, count: nat, bits: u32)
    requires start < 64 && count < 64
    ensures SetBits(value, start, count, bits) & FieldMask(start, count)
            == ((bits as u64) << start) & FieldMask(start, count)
  {
  }

  // ---------------------------------------------------------------------
  // Colour channel widening and narrowing (uint8_t arithmetic: the
  // promoted result is truncated to 8 bits on return).
  // ---------------------------------------------------------------------

  function Contract8to5(value: u8): (r: u8)
    ensures r < 32
  {
    value >> 3
  }

  function Contract8to6(value: u8): (r: u8)
    ensures r < 64
  {
    value >> 2
  }

  /** expand5to8: replicate the top bits of a 5-bit channel into the low bits. */
  function Expand5to8(value: u8): (r: u8)
    ensures value < 32 ==> Contract8to5(r) == value
    ensures value == 0 ==> r == 0
    ensures value == 31 ==> r == 255
  {
    (value << 3) | (value >> 2)
  }

  /** expand6to8: replicate the top bits of a 6-bit channel into the low bits. */
  function Expand6to8(value: u8): (r: u8)
    ensures value < 64 ==> Contract8to6(r) == value
    ensures value == 0 ==> r == 0
    ensures value == 63 ==> r == 255
  {
    (value << 2) | (value >> 4)
  }

  /** Widening keeps the order of channel values. */
  lemma ExpandMonotonic(x: u8, y: u8)
    requires x <= y
    ensures y < 32 ==> Expand5to8(x) <= Expand5to8(y)
    ensures y < 64 ==> Expand6to8(x) <= Expand6to8(y)
  {
  }

  // ---------------------------------------------------------------------
  // Texture geometry
  // ---------------------------------------------------------------------

  /** calculateTextureSize: the bytes needed for width*height pixels of `bpp` bits. */
  function CalculateTextureSize(width: nat, height: nat, bpp: nat): (r: nat)
    ensures r * 8 >= width * height * bpp
    ensures r * 8 < width * height * bpp + 8
  {
    DivModDef(width * height * bpp + 7, 8);
    (width * height * bpp + 7) / 8
  }

  function Max(a: int, b: int): int { if a >= b then a else b }

  function Min(a: int, b: int): int { if a <= b then a else b }

  /** getMipDimension: max(1, base >> level); `>>` of an int is floor division. */
  function MipDimension(baseDimension: int, mipLevel: nat): (r: int)
    requires mipLevel < 32
    ensures r >= 1
    ensures baseDimension >= 1 ==> r <= baseDimension
  {
    QuotientBounded(baseDimension, Pow2(mipLevel));
    Max(1, baseDimension / Pow2(mipLevel))
  }

  /** `n >> count` on a non-negative value: halve `count` times, rounding down. */
  function ShiftRight(n: nat, count: nat): (r: nat)
  {
    if count == 0 then n else ShiftRight(n / 2, count - 1)
  }

  /** Shifting right by `count` divides by 2^count. */
  lemma {:induction false} ShiftRightIsDivision(n: nat, count: nat)
    ensures ShiftRight(n, count) == n / Pow2(count)
  {
    if count > 0 {
      ShiftRightIsDivision(n / 2, count - 1);
      DivDiv(n, 2, Pow2(count - 1));
    }
  }

  /** Shifting by a + b is shifting by a, then by b. */
  lemma {:induction false} ShiftRightSplit(n: nat, a: nat, b: nat)
    ensures ShiftRight(n, a + b) == ShiftRight(ShiftRight(n, a), b)
  {
    if a > 0 {
      ShiftRightSplit(n / 2, a - 1, b);
    }
  }

  /** Shifting right never increases a value. */
  lemma {:induction false} ShiftRightAtMost(n: nat, count: nat)
    ensures ShiftRight(n, count) <= n
  {
    if count > 0 {
      ShiftRightAtMost(n / 2, count - 1);
    }
  }

  /** Dividing by a positive number never makes a value that is above one larger. */
  lemma QuotientBounded(n: int, d: int)
    requires d >= 1
    ensures Max(1, n / d) <= Max(1, n)
  {
    var q := n / d;
    DivModDef(n, d);
    MulAtLeastFactor(q, d);
    if q >= 1 {
      MulMonotone(1, d, q);
      MulComm(d, q);
    }
  }

  /** Each mip level is at most as large as the one before it. */
  lemma MipDimensionNonIncreasing(baseDimension: int, l1: nat, l2: nat)
    requires l1 <= l2 < 32
    ensures MipDimension(baseDimension, l2) <= MipDimension(baseDimension, l1)
  {
    Pow2Add(l1, l2 - l1);
    DivDiv(baseDimension, Pow2(l1), Pow2(l2 - l1));
    QuotientBounded(baseDimension / Pow2(l1), Pow2(l2 - l1));
  }

  /** Shifting right by p then by q is shifting right by p + q. */
  lemma DivDiv(n: int, p: int, q: int)
    requires p >= 1 && q >= 1
    ensures n / (p * q) == (n / p) / q
  {
    var a, r1 := n / p, n % p;
    var b, r2 := a / q, a % q;
    DivModDef(n, p);
    DivModDef(a, q);
    // n == a * p + r1 == (b * q + r2) * p + r1 == b * (p * q) + (r2 * p + r1)
    MulAddDistrib(b * q, r2, p);
    MulAssoc(b, q, p);
    MulComm(q, p);
    // 0 <= r2 * p <= (q - 1) * p == p * q - p
    MulMonotone(0, r2, p);
    MulMonotone(r2, q - 1, p);
    MulAddDistrib(q, -1, p);
    DivUnique(n, p * q, b, r2 * p + r1);
  }

  /**
   * The multiple a dimension must have for `mipLevels` levels of format
   * `pixelFormat`, as isValidDimension computes it with int shifts. Shift
   * counts of 32 and more are undefined in C++ and excluded. At count 31,
   * C++20 gives INT_MIN = -2^31, whose multiples are those of 2^31, so the
   * `% == 0` test is the same with 2^31; and since divisibility does not
   * depend on sign, C++'s truncating `%` and Dafny's Euclidean one agree on
   * it.
   */
  function RequiredMultiple(pixelFormat: int, mipLevels: int): (r: nat)
    requires pixelFormat == 0x04 ==> 0 <= mipLevels + 1 < 32
    requires pixelFormat == 0x05 ==> 0 <= mipLevels < 32
    requires pixelFormat != 0x04 && pixelFormat != 0x05 && mipLevels > 1 ==> mipLevels - 1 < 32
    ensures r == Pow2(RequiredExponent(pixelFormat, mipLevels))
  {
    if pixelFormat == 0x04 then Pow2(mipLevels + 1)
    else if pixelFormat == 0x05 then Pow2(mipLevels)
    else if mipLevels > 1 then Pow2(mipLevels - 1)
    else 1
  }

  /** The exponent of the required multiple: m + 1, m, m - 1 or 0. */
  function RequiredExponent(pixelFormat: int, mipLevels: int): (e: nat)
    requires pixelFormat == 0x04 ==> 0 <= mipLevels + 1
    requires pixelFormat == 0x05 ==> 0 <= mipLevels
    ensures e >= mipLevels - 1
  {
    if pixelFormat == 0x04 then mipLevels + 1
    else if pixelFormat == 0x05 then mipLevels
    else if mipLevels > 1 then mipLevels - 1
    else 0
  }

  /** isValidDimension: `dimension` is a multiple of the required power of two. */
  predicate IsValidDimension(dimension: int, pixelFormat: int, mipLevels: int)
    requires pixelFormat == 0x04 ==> 0 <= mipLevels + 1 < 32
    requires pixelFormat == 0x05 ==> 0 <= mipLevels < 32
    requires pixelFormat != 0x04 && pixelFormat != 0x05 && mipLevels > 1 ==> mipLevels - 1 < 32
  {
    dimension % RequiredMultiple(pixelFormat, mipLevels) == 0
  }

  /**
   * A positive dimension that is valid for `mipLevels` levels halves exactly
   * at every level below `mipLevels`: no level is clamped or rounded.
   */
  lemma ValidDimensionHalvesExactly(dimension: int, pixelFormat: int, mipLevels: int, level: nat)
    requires pixelFormat == 0x04 ==> 0 <= mipLevels + 1 < 32
    requires pixelFormat == 0x05 ==> 0 <= mipLevels < 32
    requires pixelFormat != 0x04 && pixelFormat != 0x05 && mipLevels > 1 ==> mipLevels - 1 < 32
    requires dimension >= 1 && level < mipLevels && level < 32
    requires IsValidDimension(dimension, pixelFormat, mipLevels)
    ensures MipDimension(dimension, level) * Pow2(level) == dimension
  {
    var e := RequiredExponent(pixelFormat, mipLevels);
    Pow2Add(level, e - level);
    ExactQuotient(dimension, Pow2(level), Pow2(e - level));
  }

  /** A positive multiple of `a * b` divided by `a` is exact and at least one. */
  lemma ExactQuotient(n: int, a: int, b: int)
    requires n >= 1 && a >= 1 && b >= 1 && n % (a * b) == 0
    ensures Max(1, n / a) * a == n
  {
    var k := n / (a * b);
    DivModDef(n, a * b);
    assert n == (k * b) * a;
    MulAtLeastFactor(k, a * b);
    MulAtLeastFactor(k, b);
    MulAtLeastFactor(k * b, a);
    DivUnique(n, a, k * b, 0);
  }
}
