/** Scalar field values: their C ranges, their wire form, and the checks made on reading. */
module Scalars {
  import opened Common
  import opened Bits
  import opened Varint
  import opened Varint32

  datatype Scalar = LBool | LVarint | LUVarint | LSVarint | LFixed32 | LFixed64

  // ---- C integer types ----

  predicate IntegerSize(size: nat) {
    size == 1 || size == 2 || size == 4 || size == 8
  }

  /** 2^(8 * size - 1) for the integer sizes. */
  function HalfRange(size: nat): nat {
    if size == 1 then 0x80 else if size == 2 then 0x8000
    else if size == 4 then 0x8000_0000 else 0x8000_0000_0000_0000
  }

  predicate InSigned(size: nat, n: int) {
    0 <= n + HalfRange(size) < 2 * HalfRange(size)
  }

  predicate InUnsigned(size: nat, n: int) {
    0 <= n < 2 * HalfRange(size)
  }

  /** What a struct member of this type and size can hold. */
  predicate InRange(lt: Scalar, size: nat, n: int) {
    match lt
    case LBool => 0 <= n <= 1
    case LVarint => IntegerSize(size) && InSigned(size, n)
    case LUVarint => IntegerSize(size) && InUnsigned(size, n)
    case LSVarint => IntegerSize(size) && InSigned(size, n)
    case LFixed32 => InUnsigned(4, n)
    case LFixed64 => InUnsigned(8, n)
  }

  /** Conversion of a 64-bit signed integer to unsigned. */
  function ToUnsigned64(n: int): nat
    requires InSigned(8, n)
  {
    if n < 0 then n + 0x1_0000_0000_0000_0000 else n
  }

  /** Reading an unsigned word of `size` bytes as signed. */
  function AsSigned(size: nat, u: nat): int {
    if u >= HalfRange(size) then u - 2 * HalfRange(size) else u
  }

  /** Conversion to a signed integer of `size` bytes: the low bits, read as signed. */
  function CastSigned(size: nat, n: int): int
    requires InSigned(8, n)
  {
    AsSigned(size, Trunc(ToUnsigned64(n), 8 * size))
  }

  // ---- zigzag ----

  const ALL_BITS_64: nat := 0xFFFF_FFFF_FFFF_FFFF

  /** `~((uint64_t)value << 1)` for negative values, `(uint64_t)value << 1` otherwise. */
  function ZigZag(n: int): nat
    requires InSigned(8, n)
  {
    var shifted := Trunc(2 * ToUnsigned64(n), 64);
    Trunc64Bound(2 * ToUnsigned64(n));
    if n < 0 then ALL_BITS_64 - shifted else shifted
  }

  lemma Trunc64Bound(v: nat)
    ensures Trunc(v, 64) <= ALL_BITS_64
  {
    TruncIsRemainder(v, 64);
    Pow2Values();
  }

  /** `(int64_t)~(value >> 1)` for odd values, `(int64_t)(value >> 1)` otherwise. */
  function UnZigZag(v: nat): int
    requires v < TWO_TO_THE_64
  {
    var half := v / 2;
    if v == 2 * half then AsSigned(8, half) else AsSigned(8, ALL_BITS_64 - half)
  }

  // ---- fixed width ----

  function LittleEndian(n: nat, width: nat): (s: bytes)
    ensures |s| == width
  {
    if width == 0 then [] else [n % 256] + LittleEndian(n / 256, width - 1)
  }

  function FromLittleEndian(s: bytes): nat {
    if s == [] then 0 else s[0] + 256 * FromLittleEndian(s[1..])
  }

  // ---- encoding and decoding ----

  /** The bytes written for a value, or None for an unsupported `data_size`. */
  function EncScalar(lt: Scalar, size: nat, n: int): Option<bytes> {
    if !InRange(lt, size, n) then None
    else
      match lt
      case LBool => Some(Enc(if n != 0 then 1 else 0))
      case LVarint => Some(Enc(ToUnsigned64(n)))
      case LUVarint => Some(Enc(n))
      case LSVarint => Some(Enc(ZigZag(n)))
      case LFixed32 => Some(LittleEndian(n, 4))
      case LFixed64 => Some(LittleEndian(n, 8))
  }

  /** The value read from the payload `p`, or None when it is malformed or does not fit. */
  function DecScalar(lt: Scalar, size: nat, p: bytes): Option<int> {
    match lt
    case LBool =>
      if Dec32(p).Some? then Some(if Dec32(p).value.0 != 0 then 1 else 0) else None
    case LVarint =>
      if Dec64(p).None? || !IntegerSize(size) then None
      else
        var v := Dec64(p).value.0;
        var n := if size == 8 then AsSigned(8, v) else AsSigned(4, Trunc(v, 32));
        if InSigned(size, n) then Some(n) else None
    case LUVarint =>
      if Dec64(p).None? || !IntegerSize(size) then None
      else if InUnsigned(size, Dec64(p).value.0) then Some(Dec64(p).value.0) else None
    case LSVarint =>
      if Dec64(p).None? || !IntegerSize(size) then None
      else
        Dec64Bound(p);
        var n := UnZigZag(Dec64(p).value.0);
        if InSigned(size, n) then Some(n) else None
    case LFixed32 => if |p| >= 4 then Some(FromLittleEndian(p[..4])) else None
    case LFixed64 => if |p| >= 8 then Some(FromLittleEndian(p[..8])) else None
  }

  // ---- what the conversions mean ----

  /** Zigzag numbers the integers 0, -1, 1, -2, 2, ... */
  lemma ZigZagMeaning(n: int)
    requires InSigned(8, n)
    ensures ZigZag(n) == (if n < 0 then -2 * n - 1 else 2 * n) < TWO_TO_THE_64
    ensures UnZigZag(ZigZag(n)) == n
  {
    Pow2Values();
    if n < 0 {
      TruncAdd(2 * n + 0x1_0000_0000_0000_0000, 1, 64);
    }
  }

  lemma UnZigZagMeaning(v: nat)
    requires v < TWO_TO_THE_64
    ensures InSigned(8, UnZigZag(v)) && ZigZag(UnZigZag(v)) == v
  {
    ZigZagMeaning(UnZigZag(v));
  }

  /** Casting to a narrower signed type is the identity exactly on the values that fit. */
  lemma CastSignedFits(size: nat, n: int)
    requires IntegerSize(size) && InSigned(8, n)
    ensures InSigned(size, CastSigned(size, n))
    ensures CastSigned(size, n) == n <==> InSigned(size, n)
  {
    hide Trunc, Pow2, InSigned, HalfRange;
    TruncRange(size, ToUnsigned64(n));
    CastInRange(size, n);
    if InSigned(size, n) {
      TruncOfUnsigned(size, n);
      AsSignedBack(size, n);
    }
  }

  lemma CastInRange(size: nat, n: int)
    requires IntegerSize(size) && InSigned(8, n)
    requires 0 <= Trunc(ToUnsigned64(n), 8 * size) < 2 * HalfRange(size)
    ensures InSigned(size, CastSigned(size, n))
  {
    hide Trunc;
  }

  lemma TruncRange(size: nat, v: nat)
    requires IntegerSize(size)
    ensures Trunc(v, 8 * size) < 2 * HalfRange(size)
  {
    hide Trunc, Pow2;
    HalfRangeIsPower(size);
    TruncIsRemainder(v, 8 * size);
  }

  /** The unsigned word of `size` bytes of a value that fits it. */
  function Word(size: nat, n: int): int {
    if n < 0 then n + 2 * HalfRange(size) else n
  }

  lemma AsSignedBack(size: nat, n: int)
    requires InSigned(size, n) && Word(size, n) >= 0
    ensures AsSigned(size, Word(size, n)) == n
  {
  }

  lemma TruncOfUnsigned(size: nat, n: int)
    requires IntegerSize(size) && InSigned(8, n) && InSigned(size, n)
    ensures Word(size, n) >= 0 && Trunc(ToUnsigned64(n), 8 * size) == Word(size, n)
  {
    hide Trunc, Pow2;
    HalfRangeIsPower(size);
    var m := Word(size, n);
    var k := if n >= 0 || size == 8 then 0
             else if size == 1 then 0xFF_FFFF_FFFF_FFFF
             else if size == 2 then 0xFFFF_FFFF_FFFF
             else 0xFFFF_FFFF;
    assert ToUnsigned64(n) == m + k * (2 * HalfRange(size));
    TruncAdd(m, k, 8 * size);
    TruncSmall(m, size);
  }

  lemma TruncSmall(m: nat, size: nat)
    requires IntegerSize(size) && m < 2 * HalfRange(size)
    ensures Trunc(m, 8 * size) == m
  {
    hide Pow2;
    HalfRangeIsPower(size);
    TruncIsRemainder(m, 8 * size);
  }

  lemma HalfRangeIsPower(size: nat)
    requires IntegerSize(size)
    ensures 2 * HalfRange(size) == Pow2(8 * size)
  {
    Pow2Values();
    assert Pow2(8) == 0x100;
    Pow2Add(8, 8);
  }

  lemma {:induction false} LittleEndianRoundTrip(n: nat, width: nat)
    requires n < Pow2(8 * width)
    ensures FromLittleEndian(LittleEndian(n, width)) == n
  {
    if width > 0 {
      Pow2Add(8, 8 * (width - 1));
      assert Pow2(8) == 256;
      LittleEndianRoundTrip(n / 256, width - 1);
    }
  }

  lemma {:induction false} FromLittleEndianBound(s: bytes)
    ensures FromLittleEndian(s) < Pow2(8 * |s|)
  {
    if s != [] {
      FromLittleEndianBound(s[1..]);
      Pow2Add(8, 8 * |s[1..]|);
      assert Pow2(8) == 256;
    }
  }

  /** Every value of the member's C type is encoded, and decoding gives it back. */
  lemma ScalarRoundTrip(lt: Scalar, size: nat, n: int)
    requires InRange(lt, size, n)
    ensures EncScalar(lt, size, n).Some?
    ensures DecScalar(lt, size, EncScalar(lt, size, n).value) == Some(n)
  {
    hide Enc, Dec32, Dec64, LittleEndian, FromLittleEndian, ZigZag, UnZigZag, CastSigned;
    match lt {
      case LBool => VarintBack(n);
      case LVarint =>
        VarintBack(ToUnsigned64(n));
        if size != 8 {
          CastSignedFits(4, n);
          CastIsTruncation(n);
        }
      case LUVarint => VarintBack(n);
      case LSVarint =>
        ZigZagMeaning(n);
        VarintBack(ZigZag(n));
      case LFixed32 =>
        Pow2Values();
        LittleEndianRoundTrip(n, 4);
        assert LittleEndian(n, 4)[..4] == LittleEndian(n, 4);
      case LFixed64 =>
        Pow2Values();
        LittleEndianRoundTrip(n, 8);
        assert LittleEndian(n, 8)[..8] == LittleEndian(n, 8);
    }
  }

  lemma CastIsTruncation(n: int)
    requires InSigned(8, n)
    ensures CastSigned(4, n) == AsSigned(4, Trunc(ToUnsigned64(n), 32))
  {
  }

  lemma VarintBack(v: nat)
    requires v < TWO_TO_THE_64
    ensures Dec64(Enc(v)).Some? && Dec64(Enc(v)).value.0 == v
    ensures v < TWO_TO_THE_32 ==> Dec32(Enc(v)).Some? && Dec32(Enc(v)).value.0 == v
  {
    hide Enc, Dec32, Dec64;
    assert Enc(v) + [] == Enc(v);
    Dec64Enc(v, []);
    if v < TWO_TO_THE_32 {
      Dec32Enc(v, []);
    }
  }

  /**
   * What is stored for arbitrary input. pb_dec_varint keeps the one number of the member's
   * type that agrees with the varint in its 64 low bits, or its 32 low bits for members
   * narrower than 8 bytes; the others keep the number the varint stands for. Everything
   * else is refused.
   */
  lemma StoredVarint(size: nat, p: bytes, n: int)
    requires IntegerSize(size) && Dec64(p).Some?
    ensures var v := Dec64(p).value.0;
            DecScalar(LVarint, size, p) == Some(n) <==>
              InSigned(size, n) && (if size == 8 then SameLow64(n, v) else SameLow32(n, v))
    ensures DecScalar(LUVarint, size, p) == Some(n) <==> InUnsigned(size, n) && n == Dec64(p).value.0
    ensures DecScalar(LSVarint, size, p) == Some(n) <==>
              InSigned(size, n) && InSigned(8, n) && ZigZag(n) == Dec64(p).value.0
  {
    hide Dec64, Trunc, ZigZag, UnZigZag;
    var v := Dec64(p).value.0;
    Dec64Bound(p);
    UnZigZagMeaning(v);
    if InSigned(8, n) {
      ZigZagMeaning(n);
    }
    if size != 8 && InSigned(size, n) {
      LowBits(v, n);
    }
  }

  predicate SameLow32(a: int, b: int) {
    (a - b) % 0x1_0000_0000 == 0
  }

  predicate SameLow64(a: int, b: int) {
    (a - b) % 0x1_0000_0000_0000_0000 == 0
  }

  lemma LowBits(v: nat, n: int)
    requires InSigned(4, n)
    ensures AsSigned(4, Trunc(v, 32)) == n <==> SameLow32(n, v)
  {
    hide Trunc, Pow2;
    Pow2Values();
    TruncIsRemainder(v, 32);
    var q: nat :| v == q * 0x1_0000_0000 + Trunc(v, 32);
  }

  /** Whatever is stored is a value of the member's C type. */
  lemma DecScalarInRange(lt: Scalar, size: nat, p: bytes)
    ensures DecScalar(lt, size, p).Some? ==> InRange(lt, size, DecScalar(lt, size, p).value)
  {
    Pow2Values();
    match lt
    case LBool =>
    case LVarint =>
    case LUVarint =>
    case LSVarint =>
    case LFixed32 =>
      if |p| >= 4 {
        FromLittleEndianBound(p[..4]);
      }
    case LFixed64 =>
      if |p| >= 8 {
        FromLittleEndianBound(p[..8]);
      }
  }
}
