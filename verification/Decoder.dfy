/** pb_decode and the functions below it, on streams and structs. */
module Decoder {
  import opened Common
  import opened Bits
  import opened Varint
  import opened Varint32
  import opened Scalars
  import opened Descriptor
  import opened DecodeSpec
  import opened Records
  import opened InputStream
  import opened FieldIterator
  import opened RequiredFields
  import Framed

  /** A struct in memory: its members change in place. */
  class Struct {
    var cells: Cells

    constructor (cells: Cells)
      ensures this.cells == cells
    {
      this.cells := cells;
    }
  }

  // ---- default values ----

  /** pb_field_set_to_default, for statically allocated fields. */
  method FieldSetToDefault(f: Field, zeroed: bool) returns (c: Cell)
    requires FieldOk(f) && (f.ptr.Submsg? ==> DescOk(f.ptr.d))
    ensures c == InitialCell(f, zeroed)
    decreases f
  {
    var v := Garbage;
    if f.htype.Required? || f.htype.Optional? {
      if f.ltype.LSubmessage? {
        var s := new Struct(map[]);
        MessageSetToDefaults(f.ptr.d, zeroed, s);
        v := Sub(s.cells);
      } else if f.ptr.Default? {
        v := f.ptr.v;
      } else {
        v := ZeroValue(f);
      }
    }
    match f.htype
    case Required => c := Single(v);
    case Optional => c := if f.sizeOffset != 0 then Flagged(false, v) else Single(v);
    case Repeated =>
      c := if f.sizeOffset != 0 then Counted([]) else Fixed(InitialItems(f, zeroed));
    case Oneof => c := Union(0, Garbage);
  }

  /** pb_message_set_to_defaults. `zeroed` tells whether the struct was cleared before. */
  method MessageSetToDefaults(d: Desc, zeroed: bool, dest: Struct)
    requires DescOk(d)
    modifies dest
    ensures dest.cells == InitialFrom(d, zeroed, 0, old(dest.cells))
    decreases d
  {
    DescFacts(d);
    var iter := new FieldIter.Begin(d.fields, 0);
    if d.fields == [] {
      return;
    }
    var more := true;
    ghost var i := 0;
    while more
      invariant iter.Valid() && iter.start == d.fields && iter.destStruct == 0 && fresh(iter)
      invariant i <= |d.fields| && (if more then i == iter.pos else i == |d.fields|)
      invariant InitialFrom(d, zeroed, i, dest.cells) == InitialFrom(d, zeroed, 0, old(dest.cells))
      decreases |d.fields| - i
    {
      assert FieldOk(d.fields[i]);
      var c := FieldSetToDefault(iter.Field(), zeroed);
      dest.cells := dest.cells[iter.pData := c];
      more := iter.Next();
      i := i + 1;
    }
  }

  // ---- scalar values ----

  /** Reading a scalar from the stream is reading it from its own payload. */
  lemma ScalarOnPayload(sc: Scalar, s: bytes)
    ensures var k := FrameLen(ItemFraming(Packable(sc)), s);
            && (k.None? && ItemFraming(Packable(sc)).ByVarint? ==> Dec32(s).None? && Dec64(s).None?)
            && (k.Some? && ItemFraming(Packable(sc)).ByVarint? ==>
                  Dec32(s[..k.value]) == Dec32(s) && Dec64(s[..k.value]) == Dec64(s)
                  && (Dec32(s).Some? ==> Dec32(s).value.1 == k.value)
                  && (Dec64(s).Some? ==> Dec64(s).value.1 == k.value))
  {
    Dec32End(s);
    var n := First(s);
    if n < |s| {
      var p, t := s[..n + 1], s[n + 1..];
      assert s == p + t;
      FirstUnique(p, n);
      Dec32Local(p, t);
      Dec64Local(p, t);
    }
  }

  /** pb_dec_bool. */
  method DecBool(stream: IStream) returns (ok: bool, n: int)
    requires stream.Valid()
    modifies stream
    ensures stream.Valid() && stream.End() == old(stream.End()) && stream.pos >= old(stream.pos)
    ensures ok <==> Dec32(old(stream.Rest())).Some?
    ensures ok ==> n == if Dec32(old(stream.Rest())).value.0 != 0 then 1 else 0
    ensures ok ==> stream.Rest() == old(stream.Rest())[Dec32(old(stream.Rest())).value.1..]
  {
    var value;
    ok, value := stream.DecodeVarint32();
    n := if value != 0 then 1 else 0;
  }

  /** pb_dec_varint: the value is read as int32 first unless the member is 64 bits wide. */
  method DecVarint(stream: IStream, size: nat) returns (ok: bool, n: int)
    requires stream.Valid()
    modifies stream
    ensures stream.Valid() && stream.End() == old(stream.End()) && stream.pos >= old(stream.pos)
    ensures ok <==> Dec64(old(stream.Rest())).Some? && DecScalar(LVarint, size, old(stream.Rest())).Some?
    ensures ok ==> n == DecScalar(LVarint, size, old(stream.Rest())).value
    ensures ok ==> stream.Rest() == old(stream.Rest())[Dec64(old(stream.Rest())).value.1..]
  {
    hide Dec64;
    Dec64Bound(stream.Rest());
    var value;
    ok, value := stream.DecodeVarint();
    if !ok {
      return false, 0;
    }
    Pow2Values();
    TruncIsRemainder(value, 32);
    var svalue := if size == 8 then AsSigned(8, value) else AsSigned(4, Trunc(value, 32));
    if !IntegerSize(size) {
      return false, 0;
    }
    var clamped := CastSigned(size, svalue);
    CastSignedFits(size, svalue);
    if clamped != svalue {
      return false, 0;
    }
    n := clamped;
  }

  /** pb_dec_uvarint. */
  method DecUvarint(stream: IStream, size: nat) returns (ok: bool, n: int)
    requires stream.Valid()
    modifies stream
    ensures stream.Valid() && stream.End() == old(stream.End()) && stream.pos >= old(stream.pos)
    ensures ok <==> Dec64(old(stream.Rest())).Some? && DecScalar(LUVarint, size, old(stream.Rest())).Some?
    ensures ok ==> n == DecScalar(LUVarint, size, old(stream.Rest())).value
    ensures ok ==> stream.Rest() == old(stream.Rest())[Dec64(old(stream.Rest())).value.1..]
  {
    hide Dec64;
    Dec64Bound(stream.Rest());
    var value;
    ok, value := stream.DecodeVarint();
    if !ok || !IntegerSize(size) {
      return false, 0;
    }
    var clamped := Trunc(value, 8 * size);
    HalfRangeIsPower(size);
    TruncIsRemainder(value, 8 * size);
    if clamped != value {
      return false, 0;
    }
    n := clamped;
  }

  /** pb_dec_svarint, with pb_decode_svarint. */
  method DecSvarint(stream: IStream, size: nat) returns (ok: bool, n: int)
    requires stream.Valid()
    modifies stream
    ensures stream.Valid() && stream.End() == old(stream.End()) && stream.pos >= old(stream.pos)
    ensures ok <==> Dec64(old(stream.Rest())).Some? && DecScalar(LSVarint, size, old(stream.Rest())).Some?
    ensures ok ==> n == DecScalar(LSVarint, size, old(stream.Rest())).value
    ensures ok ==> stream.Rest() == old(stream.Rest())[Dec64(old(stream.Rest())).value.1..]
  {
    hide Dec64;
    Dec64Bound(stream.Rest());
    var value;
    ok, value := stream.DecodeVarint();
    if !ok || !IntegerSize(size) {
      return false, 0;
    }
    UnZigZagMeaning(value);
    var svalue := UnZigZag(value);
    var clamped := CastSigned(size, svalue);
    CastSignedFits(size, svalue);
    if clamped != svalue {
      return false, 0;
    }
    n := clamped;
  }

  /** pb_decode_fixed32 and pb_decode_fixed64: `width` bytes, least significant first. */
  method DecFixed(stream: IStream, width: nat) returns (ok: bool, n: nat)
    requires stream.Valid()
    modifies stream
    ensures stream.Valid() && stream.End() == old(stream.End()) && stream.pos >= old(stream.pos)
    ensures ok <==> width <= old(stream.bytesLeft)
    ensures ok ==> n == FromLittleEndian(old(stream.Rest())[..width]) && stream.Rest() == old(stream.Rest())[width..]
  {
    var bytes := new byte[width](_ => 0);
    ok := stream.Read(bytes, width);
    n := 0;
    if ok {
      assert bytes[..width] == bytes[..];
      n := CombineBytes(bytes);
    }
  }

  /** `bytes[0] | bytes[1] << 8 | ...`, in a word of that many bytes. */
  method CombineBytes(bytes: array<byte>) returns (n: nat)
    ensures n == FromLittleEndian(bytes[..])
  {
    n := 0;
    var i := 0;
    while i < bytes.Length
      invariant 0 <= i <= bytes.Length
      invariant n == FromLittleEndian(bytes[..i])
    {
      OrByte(bytes[..i], bytes[i], 8 * bytes.Length);
      assert bytes[..i + 1] == bytes[..i] + [bytes[i]];
      n := OrShl(n, bytes[i], 8 * i, 8 * bytes.Length);
      i := i + 1;
    }
    assert bytes[..bytes.Length] == bytes[..];
  }

  lemma OrByte(s: bytes, b: byte, w: nat)
    requires 8 * |s| + 8 <= w
    ensures OrShl(FromLittleEndian(s), b, 8 * |s|, w) == FromLittleEndian(s + [b])
  {
    FromLittleEndianAppend(s, b);
    FromLittleEndianBound(s);
    FromLittleEndianBound(s + [b]);
    Pow2Monotone(8 * |s| + 8, w);
    OrAbove(FromLittleEndian(s), b, 8 * |s|, w);
  }

  lemma {:induction false} FromLittleEndianAppend(s: bytes, b: byte)
    ensures FromLittleEndian(s + [b]) == FromLittleEndian(s) + b * Pow2(8 * |s|)
  {
    if s == [] {
      assert s + [b] == [b] && [b][1..] == [];
    } else {
      assert (s + [b])[1..] == s[1..] + [b];
      FromLittleEndianAppend(s[1..], b);
      Pow2Add(8, 8 * |s[1..]|);
      assert Pow2(8) == 256;
      var p := Pow2(8 * |s[1..]|);
      assert 256 * (b * p) == b * (256 * p);
    }
  }

  /** What every value reader promises: it reads the framed payload and nothing else. */
  twostate predicate ReadsValue(f: Field, prev: Value, stream: IStream, ok: bool, v: Value)
    requires old(stream.Valid()) && stream.Valid()
    reads stream, stream.buf
  {
    var s := old(stream.Rest());
    var k := FrameLen(ItemFraming(f.ltype), s);
    && (ok <==> k.Some? && DecValue(f, s[..k.value], prev).Some?)
    && (ok ==> v == DecValue(f, s[..k.value], prev).value && stream.Rest() == s[k.value..])
  }

  /** What the scalar readers establish on the stream, in terms of the payload. */
  lemma ScalarPayload(sc: Scalar, size: nat, s: bytes)
    ensures var k := FrameLen(ItemFraming(Packable(sc)), s);
            var good := k.Some? && DecScalar(sc, size, s[..k.value]).Some?;
            match sc
            case LBool =>
              (good <==> Dec32(s).Some?)
              && (good ==> k.value == Dec32(s).value.1 && DecScalar(sc, size, s[..k.value]) == DecScalar(sc, size, s))
            case LFixed32 =>
              && (good <==> 4 <= |s|)
              && (good ==> k.value == 4 && DecScalar(sc, size, s[..4]).value == FromLittleEndian(s[..4]))
            case LFixed64 =>
              && (good <==> 8 <= |s|)
              && (good ==> k.value == 8 && DecScalar(sc, size, s[..8]).value == FromLittleEndian(s[..8]))
            case _ =>
              (good <==> Dec64(s).Some? && DecScalar(sc, size, s).Some?)
              && (good ==> k.value == Dec64(s).value.1 && DecScalar(sc, size, s[..k.value]) == DecScalar(sc, size, s))
  {
    hide Dec64, Dec32, First;
    ScalarOnPayload(sc, s);
    if |s| >= 4 {
      assert s[..4][..4] == s[..4];
    }
    if |s| >= 8 {
      assert s[..8][..8] == s[..8];
    }
  }

  method DecScalarValue(stream: IStream, f: Field, prev: Value) returns (ok: bool, v: Value)
    requires stream.Valid() && f.ltype.Packable?
    modifies stream
    ensures stream.Valid() && stream.End() == old(stream.End()) && stream.pos >= old(stream.pos)
    ensures ReadsValue(f, prev, stream, ok, v)
  {
    hide Dec64, Dec32, DecScalar, FrameLen, ItemFraming, FromLittleEndian;
    ScalarPayload(f.ltype.scalar, f.dataSize, stream.Rest());
    var n := 0;
    match f.ltype.scalar {
      case LBool =>
        BoolValue(f.dataSize, stream.Rest());
        ok, n := DecBool(stream);
      case LVarint => ok, n := DecVarint(stream, f.dataSize);
      case LUVarint => ok, n := DecUvarint(stream, f.dataSize);
      case LSVarint => ok, n := DecSvarint(stream, f.dataSize);
      case LFixed32 => ok, n := DecFixed(stream, 4);
      case LFixed64 => ok, n := DecFixed(stream, 8);
    }
    v := Int(n);
  }

  lemma BoolValue(size: nat, s: bytes)
    ensures Dec32(s).Some? ==> DecScalar(LBool, size, s) == Some(if Dec32(s).value.0 != 0 then 1 else 0)
  {
  }

  // ---- length-delimited values ----

  lemma ContentsOnPayload(s: bytes)
    ensures var k := FrameLen(ByLength, s);
            k.Some? ==>
              && Dec32(s).Some? && Dec32(s[..k.value]) == Dec32(s)
              && Contents(s[..k.value]) == s[Dec32(s).value.1..k.value]
              && |Contents(s[..k.value])| == Dec32(s).value.0
              && s[Dec32(s).value.1..][..Dec32(s).value.0] == Contents(s[..k.value])
              && s[Dec32(s).value.1..][Dec32(s).value.0..] == s[k.value..]
  {
    if FrameLen(ByLength, s).Some? {
      LengthPrefixLocal(s, FrameLen(ByLength, s).value);
    }
  }

  /** The value with these contents, if the field takes it. */
  function BlobOf(f: Field, c: bytes): Option<Value> {
    match f.ltype
    case LBytes => if |c| > PB_SIZE_MAX || |c| + BYTES_OFFSET > f.dataSize then None else Some(Blob(c))
    case LString => if |c| + 1 > f.dataSize then None else Some(Blob(c))
    case LFixedLengthBytes =>
      if |c| > PB_SIZE_MAX || (c != [] && |c| != f.dataSize) then None
      else Some(Blob(if c == [] then seq(f.dataSize, _ => 0) else c))
    case _ => None
  }

  /** A length-delimited value in terms of its length and what follows. */
  lemma BlobOnPayload(f: Field, s: bytes, prev: Value)
    requires f.ltype.LBytes? || f.ltype.LString? || f.ltype.LFixedLengthBytes?
    ensures var k := FrameLen(ItemFraming(f.ltype), s);
            && (Dec32(s).None? ==> k.None?)
            && (Dec32(s).Some? ==>
                  var (size, n) := Dec32(s).value;
                  var rest := s[n..];
                  && size < TWO_TO_THE_32
                  && (k.Some? <==> size <= |rest|)
                  && (k.Some? ==>
                        s[k.value..] == rest[size..] && DecValue(f, s[..k.value], prev) == BlobOf(f, rest[..size])))
  {
    hide Dec32;
    ContentsOnPayload(s);
    Dec32Bound(s);
  }

  /** pb_dec_bytes. */
  method DecBytes(stream: IStream, f: Field, prev: Value) returns (ok: bool, v: Value)
    requires stream.Valid() && f.ltype.LBytes?
    modifies stream
    ensures stream.Valid() && stream.End() == old(stream.End()) && stream.pos >= old(stream.pos)
    ensures ReadsValue(f, prev, stream, ok, v)
  {
    hide Dec32, DecValue, FrameLen, ItemFraming;
    BlobOnPayload(f, stream.Rest(), prev);
    v := Garbage;
    var size;
    ok, size := stream.DecodeVarint32();
    if !ok {
      return;
    }
    if size > PB_SIZE_MAX {
      return false, v;
    }
    var allocSize := size + BYTES_OFFSET;
    if allocSize > f.dataSize {
      return false, v;
    }
    var dest := new byte[size](_ => 0);
    ok := stream.Read(dest, size);
    assert dest[..size] == dest[..];
    v := Blob(dest[..]);
  }

  /** pb_dec_string: `size + 1` is computed in 32 bits. */
  method DecString(stream: IStream, f: Field, prev: Value) returns (ok: bool, v: Value)
    requires stream.Valid() && f.ltype.LString? && f.dataSize < TWO_TO_THE_32
    modifies stream
    ensures stream.Valid() && stream.End() == old(stream.End()) && stream.pos >= old(stream.pos)
    ensures ReadsValue(f, prev, stream, ok, v)
  {
    hide Dec32, DecValue, FrameLen, ItemFraming;
    BlobOnPayload(f, stream.Rest(), prev);
    v := Garbage;
    var size;
    ok, size := stream.DecodeVarint32();
    if !ok {
      return;
    }
    var allocSize := if size == 0xFFFF_FFFF then 0 else size + 1;
    if allocSize < size {
      return false, v;
    }
    if allocSize > f.dataSize {
      return false, v;
    }
    var dest := new byte[f.dataSize](_ => 0);
    ok := stream.Read(dest, size);
    dest[size] := 0;
    v := Blob(dest[..size]);
  }

  /** pb_dec_fixed_length_bytes: an empty payload stands for all zeros. */
  method DecFixedLengthBytes(stream: IStream, f: Field, prev: Value) returns (ok: bool, v: Value)
    requires stream.Valid() && f.ltype.LFixedLengthBytes?
    modifies stream
    ensures stream.Valid() && stream.End() == old(stream.End()) && stream.pos >= old(stream.pos)
    ensures ReadsValue(f, prev, stream, ok, v)
  {
    hide Dec32, DecValue, FrameLen, ItemFraming;
    BlobOnPayload(f, stream.Rest(), prev);
    v := Garbage;
    var size;
    ok, size := stream.DecodeVarint32();
    if !ok {
      return;
    }
    if size > PB_SIZE_MAX {
      return false, v;
    }
    if size == 0 {
      return true, Blob(seq(f.dataSize, _ => 0));
    }
    if size != f.dataSize {
      return false, v;
    }
    var dest := new byte[f.dataSize](_ => 0);
    ok := stream.Read(dest, f.dataSize);
    assert dest[..f.dataSize] == dest[..];
    v := Blob(dest[..]);
  }

  /** A submessage record in terms of its contents. */
  lemma DecValueOfSubmessage(f: Field, s: bytes, prev: Value)
    requires f.ltype.LSubmessage?
    ensures var k := FrameLen(ByLength, s);
            k.Some? ==>
              && Dec32(s).Some? && Dec32(s).value.1 <= k.value <= |s|
              && k.value == Dec32(s).value.1 + Dec32(s).value.0
              && DecValue(f, s[..k.value], prev) ==
                   (if !f.ptr.Submsg? || (!f.htype.Repeated? && !prev.Sub?) then None
                    else
                      match DecNoinit(f.ptr.d, s[Dec32(s).value.1..k.value],
                                      if f.htype.Repeated? then Initial(f.ptr.d, false) else prev.cells)
                      case None => None
                      case Some(o) => Some(Sub(o.st.cells)))
  {
    hide DecNoinit, Initial;
    ContentsOnPayload(s);
  }

  /** The contents of a submessage, on a stream of their own. */
  method DecodeContents(sub: IStream, f: Field, prev: Value) returns (ok: bool, v: Value)
    requires sub.Valid() && f.ptr.Submsg? && DescOk(f.ptr.d)
    modifies sub
    ensures sub.Valid() && sub.End() <= old(sub.End()) && sub.pos >= old(sub.pos)
    ensures ok ==> sub.End() == old(sub.End())
    ensures var r := if !f.htype.Repeated? && !prev.Sub? then None
                     else DecNoinit(f.ptr.d, old(sub.Rest()),
                                    if f.htype.Repeated? then Initial(f.ptr.d, false) else prev.cells);
            (ok <==> r.Some?) && (ok ==> v == Sub(r.value.st.cells))
    decreases sub.bytesLeft, 7
  {
    hide DecNoinit, DescOk, Initial;
    var dest := new Struct(map[]);
    if f.htype.Repeated? {
      ok := Decode(sub, f.ptr.d, dest);
    } else if prev.Sub? {
      dest.cells := prev.cells;
      ok := DecodeNoinit(sub, f.ptr.d, dest);
    } else {
      ok := false;
    }
    v := Sub(dest.cells);
  }

  /**
   * pb_dec_submessage. The submessage is decoded in a struct of its own, which takes the
   * place of the member's storage.
   */
  method DecSubmessage(stream: IStream, f: Field, prev: Value) returns (ok: bool, v: Value)
    requires stream.Valid() && f.ltype.LSubmessage? && (f.ptr.Submsg? ==> DescOk(f.ptr.d))
    modifies stream
    ensures stream.Valid() && stream.End() <= old(stream.End()) && stream.pos >= old(stream.pos)
    ensures ok ==> stream.End() == old(stream.End())
    ensures ReadsValue(f, prev, stream, ok, v)
    decreases stream.bytesLeft, 0
  {
    hide Dec32, DecNoinit, DescOk, Initial, DecValue, FrameLen;
    ghost var s := stream.Rest();
    DecValueOfSubmessage(f, s, prev);
    v := Garbage;
    var sub;
    ok, sub := stream.MakeStringSubstream();
    if !ok {
      return;
    }
    if !f.ptr.Submsg? {
      return false, v;
    }
    var status;
    status, v := DecodeContents(sub, f, prev);
    var closed := stream.CloseStringSubstream(sub);
    if !closed {
      return false, v;
    }
    ok := status;
  }

  /** The table of value decoders. */
  method DecAnyValue(stream: IStream, f: Field, prev: Value) returns (ok: bool, v: Value)
    requires stream.Valid() && (FieldOk(f) || f == TERMINATOR) && (f.ptr.Submsg? ==> DescOk(f.ptr.d))
    modifies stream
    ensures stream.Valid() && stream.End() <= old(stream.End()) && stream.pos >= old(stream.pos)
    ensures ok ==> stream.End() == old(stream.End())
    ensures ReadsValue(f, prev, stream, ok, v)
    decreases stream.bytesLeft, 1
  {
    hide DecValue, FrameLen;
    match f.ltype {
      case Packable(_) => ok, v := DecScalarValue(stream, f, prev);
      case LBytes => ok, v := DecBytes(stream, f, prev);
      case LString => ok, v := DecString(stream, f, prev);
      case LSubmessage => ok, v := DecSubmessage(stream, f, prev);
      case LFixedLengthBytes => ok, v := DecFixedLengthBytes(stream, f, prev);
    }
  }

  // ---- fields ----

  function FieldFraming(f: Field, wt: nat): Framing {
    if IsPacked(f, wt) then ByLength else ItemFraming(f.ltype)
  }

  /** decode_static_field reads the framed record and applies it to the member. */
  twostate predicate AppliesField(f: Field, wt: nat, c: Cell, count: nat, stream: IStream,
                                  ok: bool, c': Cell, count': nat)
    requires old(stream.Valid()) && stream.Valid()
    reads stream, stream.buf
  {
    var s := old(stream.Rest());
    var k := FrameLen(FieldFraming(f, wt), s);
    && (ok <==> k.Some? && ApplyField(f, wt, s[..k.value], c, count).Some?)
    && (ok ==> (c', count') == ApplyField(f, wt, s[..k.value], c, count).value && stream.Rest() == s[k.value..])
  }

  /** The packed branch: items are read into free slots until the contents are used up. */
  method DecodePacked(stream: IStream, f: Field, wt: nat, items: seq<Value>) returns (ok: bool, xs: seq<Value>)
    requires stream.Valid() && FieldOk(f) && IsPacked(f, wt)
    modifies stream
    ensures stream.Valid() && stream.End() <= old(stream.End()) && stream.pos >= old(stream.pos)
    ensures ok ==> stream.End() == old(stream.End())
    ensures var s := old(stream.Rest());
            var k := FrameLen(ByLength, s);
            && (ok <==> k.Some? && Extend(f, wt, s[..k.value], items).Some?)
            && (ok ==> xs == Extend(f, wt, s[..k.value], items).value && stream.Rest() == s[k.value..])
    decreases stream.bytesLeft, 2
  {
    hide Dec32, FrameLen, DecItems;
    ghost var s := stream.Rest();
    ContentsOnPayload(s);
    LengthFramed(s);
    xs := items;
    var sub;
    ok, sub := stream.MakeStringSubstream();
    if !ok {
      return;
    }
    var status;
    status, xs := DecodePackedItems(sub, f, items);
    if sub.bytesLeft != 0 {
      return false, xs;
    }
    var closed := stream.CloseStringSubstream(sub);
    if !closed {
      return false, xs;
    }
    ok := status;
    assert stream.pos == old(stream.pos) + FrameLen(ByLength, s).value;
  }

  /** The loop over the contents, as long as there is room. */
  method DecodePackedItems(sub: IStream, f: Field, items: seq<Value>) returns (ok: bool, xs: seq<Value>)
    requires sub.Valid() && f.ltype.Packable?
    modifies sub
    ensures sub.Valid() && sub.End() == old(sub.End()) && sub.pos >= old(sub.pos)
    ensures var r := DecItems(f, old(sub.Rest()), items);
            if ok && sub.bytesLeft == 0 then r == Some(xs) else r == None
  {
    hide DecValue, FrameLen, DecItems;
    ok, xs := true, items;
    while sub.bytesLeft > 0 && |xs| < f.arraySize
      invariant sub.Valid() && sub.End() == old(sub.End()) && sub.pos >= old(sub.pos)
      invariant DecItems(f, old(sub.Rest()), items) == DecItems(f, sub.Rest(), xs)
      decreases sub.bytesLeft
    {
      ItemsStep(f, sub.Rest(), xs);
      var v;
      ok, v := DecScalarValue(sub, f, Garbage);
      if !ok {
        return;
      }
      xs := xs + [v];
    }
    PackedItems(f, xs);
  }

  /** One item more of a packed array that has room. */
  lemma ItemsStep(f: Field, c: bytes, xs: seq<Value>)
    requires c != [] && |xs| < f.arraySize
    ensures var k := FrameLen(ItemFraming(f.ltype), c);
            var v := if k.Some? then DecValue(f, c[..k.value], Garbage) else None;
            DecItems(f, c, xs) == if v.None? then None else DecItems(f, c[k.value..], xs + [v.value])
  {
    hide FrameLen, DecValue;
  }

  /** Where the contents or the room end. */
  lemma PackedItems(f: Field, xs: seq<Value>)
    ensures DecItems(f, [], xs) == Some(xs)
    ensures |xs| >= f.arraySize ==> forall c: bytes :: c != [] ==> DecItems(f, c, xs) == None
  {
  }

  lemma LengthFramed(s: bytes)
    ensures var k := FrameLen(ByLength, s);
            k.Some? ==> Dec32(s).Some? && Dec32(s).value.1 <= k.value <= |s|
                        && k.value == Dec32(s).value.1 + Dec32(s).value.0
  {
  }

  /** The two branches for repeated fields, on the entries `items` received so far. */
  method DecodeRepeated(stream: IStream, wt: nat, f: Field, items: seq<Value>) returns (ok: bool, xs: seq<Value>)
    requires stream.Valid() && FieldOk(f) && f.htype.Repeated? && (f.ptr.Submsg? ==> DescOk(f.ptr.d))
    modifies stream
    ensures stream.Valid() && stream.End() <= old(stream.End()) && stream.pos >= old(stream.pos)
    ensures ok ==> stream.End() == old(stream.End())
    ensures var s := old(stream.Rest());
            var k := FrameLen(FieldFraming(f, wt), s);
            && (ok <==> k.Some? && Extend(f, wt, s[..k.value], items).Some?)
            && (ok ==> xs == Extend(f, wt, s[..k.value], items).value && stream.Rest() == s[k.value..])
    decreases stream.bytesLeft, 3, 0
  {
    hide Dec32, DecValue, FrameLen, DescOk, DecItems;
    xs := items;
    if wt == WT_STRING && f.ltype.Packable? {
      ok, xs := DecodePacked(stream, f, wt, items);
    } else {
      if |items| >= f.arraySize {
        ExtendFull(f, wt, items);
        return false, xs;
      }
      var v;
      ok, v := DecAnyValue(stream, f, Garbage);
      xs := items + [v];
    }
  }

  /** decode_static_field. `count` is the entry count of a fixed count array. */
  method DecodeStaticField(stream: IStream, wt: nat, f: Field, c: Cell, count: nat)
    returns (ok: bool, c': Cell, count': nat)
    requires stream.Valid() && (FieldOk(f) || f == TERMINATOR) && (f.ptr.Submsg? ==> DescOk(f.ptr.d))
    requires IsFixedCount(f) ==> count <= f.arraySize
    modifies stream
    ensures stream.Valid() && stream.End() <= old(stream.End()) && stream.pos >= old(stream.pos)
    ensures ok ==> stream.End() == old(stream.End())
    ensures AppliesField(f, wt, c, count, stream, ok, c', count')
    decreases stream.bytesLeft, 3
  {
    hide Dec32, DecValue, FrameLen, DescOk, Extend, ApplyField;
    ok, c', count' := false, c, count;
    if !Fits(f, c) {
      NothingFits(f, wt, c, count);
      return;
    }
    if f.htype.Repeated? {
      ok, c', count' := DecodeArrayField(stream, wt, f, c, count);
    } else {
      ok, c' := DecodeSingleField(stream, wt, f, c, count);
    }
  }

  lemma NothingFits(f: Field, wt: nat, c: Cell, count: nat)
    requires !Fits(f, c)
    ensures forall p :: ApplyField(f, wt, p, c, count).None?
  {
  }

  /** The required, optional and oneof branches. */
  method DecodeSingleField(stream: IStream, wt: nat, f: Field, c: Cell, ghost count: nat)
    returns (ok: bool, c': Cell)
    requires stream.Valid() && (FieldOk(f) || f == TERMINATOR) && (f.ptr.Submsg? ==> DescOk(f.ptr.d))
    requires !f.htype.Repeated? && Fits(f, c)
    modifies stream
    ensures stream.Valid() && stream.End() <= old(stream.End()) && stream.pos >= old(stream.pos)
    ensures ok ==> stream.End() == old(stream.End())
    ensures AppliesField(f, wt, c, count, stream, ok, c', count)
    decreases stream.bytesLeft, 2
  {
    hide Dec32, DecValue, FrameLen, DescOk, Initial, Extend, ItemFraming;
    var v;
    match f.htype {
      case Required =>
        ok, v := DecAnyValue(stream, f, c.v);
        c' := Single(v);
      case Optional =>
        ok, v := DecAnyValue(stream, f, c.v);
        c' := if f.sizeOffset != 0 then Flagged(true, v) else Single(v);
      case Oneof =>
        var prev := c.v;
        if f.ltype.LSubmessage? {
          prev := ClearUnion(f.ptr.d);
        }
        ok, v := DecAnyValue(stream, f, prev);
        c' := Union(f.tag, v);
    }
  }

  /** The repeated branch, on the array and its counter. */
  method DecodeArrayField(stream: IStream, wt: nat, f: Field, c: Cell, count: nat)
    returns (ok: bool, c': Cell, count': nat)
    requires stream.Valid() && FieldOk(f) && (f.ptr.Submsg? ==> DescOk(f.ptr.d))
    requires f.htype.Repeated? && Fits(f, c) && (IsFixedCount(f) ==> count <= f.arraySize)
    modifies stream
    ensures stream.Valid() && stream.End() <= old(stream.End()) && stream.pos >= old(stream.pos)
    ensures ok ==> stream.End() == old(stream.End())
    ensures AppliesField(f, wt, c, count, stream, ok, c', count')
    decreases stream.bytesLeft, 3, 1
  {
    hide Dec32, DecValue, FrameLen, DescOk, Extend, ItemFraming;
    c', count' := c, count;
    var size := if f.sizeOffset != 0 then |c.items| else count;
    var xs := c.items[..size];
    assert f.sizeOffset != 0 ==> xs == c.items;
    ok, xs := DecodeRepeated(stream, wt, f, xs);
    if ok {
      c' := if f.sizeOffset != 0 then Counted(xs) else Fixed(xs + c.items[|xs|..]);
      count' := if f.sizeOffset != 0 then count else |xs|;
    }
  }

  /** A submessage in a oneof starts from cleared storage with its defaults. */
  method ClearUnion(d: Desc) returns (v: Value)
    requires DescOk(d)
    ensures v == Sub(Initial(d, true))
  {
    hide DescOk, ZeroFrom, InitialFrom;
    var u := new Struct(ZeroFrom(d, 0, map[]));
    MessageSetToDefaults(d, true, u);
    ZeroThenDefaults(d);
    v := Sub(u.cells);
  }

  lemma ExtendFull(f: Field, wt: nat, xs: seq<Value>)
    requires !IsPacked(f, wt) && |xs| >= f.arraySize
    ensures forall p :: Extend(f, wt, p, xs).None?
  {
  }

  /** Clearing a struct and then setting defaults leaves nothing of the first step but zeros. */
  lemma ZeroThenDefaults(d: Desc)
    ensures InitialFrom(d, true, 0, ZeroFrom(d, 0, map[])) == Initial(d, true)
  {
    ZeroKeys(d, 0, map[]);
    InitialKeys(d, true, 0, ZeroFrom(d, 0, map[]), map[]);
  }

  lemma {:induction false} ZeroKeys(d: Desc, i: nat, cells: Cells)
    requires i <= |d.fields|
    requires forall a :: a in cells ==> exists k :: 0 <= k < |d.fields| && d.fields[k].at == a
    ensures forall a :: a in ZeroFrom(d, i, cells) ==> exists k :: 0 <= k < |d.fields| && d.fields[k].at == a
    decreases |d.fields| - i
  {
    if i < |d.fields| {
      ZeroKeys(d, i + 1, cells[d.fields[i].at := ZeroCell(d.fields[i])]);
    }
  }

  // ---- messages ----

  function ProgressOf(field: int, size: nat): Progress {
    if field < 0 then NoArray else Array(field, size)
  }

  /** The loop's local variables describe the state `st`. */
  ghost predicate Tracks(d: Desc, st: State, seen: set<nat>, field: int, size: nat) {
    && st.fixed == ProgressOf(field, size)
    && (field >= 0 ==> field < |d.fields| && IsFixedCount(d.fields[field]) && size <= d.fields[field].arraySize)
    && (d.fields != [] ==> st.seen == seen && forall k :: k in seen ==> k < CheckedFields(d))
    && (d.fields == [] ==> st.seen == {})
  }

  /** A record of field `i`, as the specification applies it. */
  lemma ApplyKnown(d: Desc, i: nat, wt: nat, p: bytes, st: State)
    requires UniqueTags(d.fields) && i < |d.fields|
    ensures Apply(d, d.fields[i].tag, wt, p, st) ==
              var f := d.fields[i];
              if f.at !in st.cells then None
              else
                match StartArray(d, i, st.fixed)
                case None => None
                case Some(fixed) =>
                  match ApplyField(f, wt, p, st.cells[f.at], if IsFixedCount(f) then fixed.count else 0)
                  case None => None
                  case Some((c, count)) =>
                    Some(State(st.cells[f.at := c], st.seen + Marks(d, i),
                               if IsFixedCount(f) then Array(i, count) else fixed))
    ensures forall wt' :: FramingOf(d, d.fields[i].tag, wt') == FieldFraming(d.fields[i], wt')
  {
    hide ApplyField;
    FindUnique(d, i);
  }

  lemma ApplyUnknown(d: Desc, tag: nat, wt: nat, p: bytes, st: State)
    requires Find(d, tag).None? && !(d.fields == [] && tag == 0)
    ensures Apply(d, tag, wt, p, st) == Some(st)
    ensures FramingOf(d, tag, wt) == SkipFraming(wt)
  {
  }

  lemma ApplyTerminator(d: Desc, wt: nat, p: bytes, st: State, c: Cell, count: nat)
    requires d.fields == [] && c.Single?
    ensures Apply(d, 0, wt, p, st) == if ApplyField(TERMINATOR, wt, p, c, count).Some? then Some(st) else None
    ensures FramingOf(d, 0, wt) == FieldFraming(TERMINATOR, wt)
  {
    hide Dec32;
  }

  lemma ExtendBound(f: Field, wt: nat, p: bytes, c: Cell, count: nat)
    requires IsFixedCount(f) && count <= f.arraySize
    ensures ApplyField(f, wt, p, c, count).Some? ==> ApplyField(f, wt, p, c, count).value.1 <= f.arraySize
  {
    hide Extend;
  }

  /**
   * One turn of the record loop after the tag: find the field, keep track of fixed count
   * arrays and required fields, and decode or skip the payload.
   */
  method DecodeRecord(stream: IStream, d: Desc, dest: Struct, iter: FieldIter, fieldsSeen: FieldsSeen,
                      tag: nat, wt: nat, arrayField: int, arraySize: nat, ghost st: State)
    returns (ok: bool, arrayField': int, arraySize': nat, ghost st': State)
    requires stream.Valid() && DescOk(d) && iter.Valid() && iter.start == d.fields && iter.destStruct == 0
    requires fieldsSeen.Valid()
    requires st.cells == dest.cells && Tracks(d, st, fieldsSeen.Seen(), arrayField, arraySize)
    modifies stream, dest, iter, fieldsSeen.words
    ensures stream.Valid() && stream.End() <= old(stream.End()) && stream.pos >= old(stream.pos)
    ensures ok ==> stream.End() == old(stream.End())
    ensures iter.Valid() && fieldsSeen.Valid()
    ensures var s := old(stream.Rest());
            var k := FrameLen(FramingOf(d, tag, wt), s);
            && (ok <==> k.Some? && Apply(d, tag, wt, s[..k.value], st).Some?)
            && (ok ==> Apply(d, tag, wt, s[..k.value], st) == Some(st') && stream.Rest() == s[k.value..])
    ensures ok ==> st'.cells == dest.cells && Tracks(d, st', fieldsSeen.Seen(), arrayField', arraySize')
    decreases stream.bytesLeft, 4
  {
    hide Dec32, FrameLen, DescOk, Initial, ApplyField, Find, Apply, LaidOut, FramingOf, SkipFraming, FieldFraming;
    ok, arrayField', arraySize', st' := false, arrayField, arraySize, st;
    var found := iter.Find(tag);
    if !found {
      ApplyUnknownAll(d, tag, wt, st);
      ok := stream.SkipField(wt);
    } else if d.fields == [] {
      TerminatorAll(d, wt, st);
      fieldsSeen.Mark(iter.requiredFieldIndex);
      var c, n;
      ok, c, n := DecodeStaticField(stream, wt, iter.Field(), Single(Garbage), 0);
    } else {
      DescFacts(d);
      ok, arrayField', arraySize', st' := DecodeKnown(stream, d, dest, iter, fieldsSeen, wt, arrayField, arraySize, st);
    }
  }

  /** The part of the turn for a field of the table. */
  method DecodeKnown(stream: IStream, d: Desc, dest: Struct, iter: FieldIter, fieldsSeen: FieldsSeen,
                     wt: nat, arrayField: int, arraySize: nat, ghost st: State)
    returns (ok: bool, arrayField': int, arraySize': nat, ghost st': State)
    requires stream.Valid() && DescOk(d) && iter.Valid() && iter.start == d.fields && iter.destStruct == 0
    requires d.fields != [] && fieldsSeen.Valid()
    requires st.cells == dest.cells && Tracks(d, st, fieldsSeen.Seen(), arrayField, arraySize)
    modifies stream, dest, fieldsSeen.words
    ensures stream.Valid() && stream.End() <= old(stream.End()) && stream.pos >= old(stream.pos)
    ensures ok ==> stream.End() == old(stream.End())
    ensures fieldsSeen.Valid()
    ensures var s := old(stream.Rest());
            var tag := iter.Field().tag;
            var k := FrameLen(FramingOf(d, tag, wt), s);
            && (ok <==> k.Some? && Apply(d, tag, wt, s[..k.value], st).Some?)
            && (ok ==> Apply(d, tag, wt, s[..k.value], st) == Some(st') && stream.Rest() == s[k.value..])
    ensures ok ==> st'.cells == dest.cells && Tracks(d, st', fieldsSeen.Seen(), arrayField', arraySize')
    decreases stream.bytesLeft, 4, 0
  {
    hide Dec32, FrameLen, DescOk, Initial, ApplyField, Find, Apply, LaidOut, FramingOf, SkipFraming, FieldFraming;
    hide Tracks, StartArray, Marks, RequiredBefore;
    ok, arrayField', arraySize', st' := false, arrayField, arraySize, st;
    DescFacts(d);
    var f := iter.Field();
    var i := iter.pos;
    ghost var s := stream.Rest();
    ghost var k := FrameLen(FieldFraming(f, wt), s);
    ghost var p := if k.Some? then s[..k.value] else [];
    ApplyKnown(d, i, wt, p, st);
    ghost var started;
    ok, arrayField', arraySize', started := StartRecord(d, iter, fieldsSeen, arrayField, arraySize, st);
    if !ok {
      return;
    }
    if iter.pData !in dest.cells {
      return false, arrayField', arraySize', st;
    }
    var isArray := f.htype.Repeated? && iter.pSize == iter.pData;
    TracksCount(d, started, fieldsSeen.Seen(), arrayField', arraySize');
    ghost var before := arraySize';
    var c, n;
    ok, c, n := DecodeStaticField(stream, wt, f, dest.cells[iter.pData], if isArray then arraySize' else 0);
    if ok {
      dest.cells := dest.cells[iter.pData := c];
      if isArray {
        ExtendBound(f, wt, p, st.cells[f.at], arraySize');
        arraySize' := n;
      }
      st' := State(st.cells[f.at := c], started.seen, ProgressOf(arrayField', arraySize'));
      TracksOn(d, started, st', fieldsSeen.Seen(), arrayField', before, arraySize');
    }
  }

  /** Before a field is decoded: keep track of fixed count arrays and required fields. */
  method StartRecord(d: Desc, iter: FieldIter, fieldsSeen: FieldsSeen, arrayField: int, arraySize: nat, ghost st: State)
    returns (ok: bool, arrayField': int, arraySize': nat, ghost st': State)
    requires UniqueTags(d.fields) && iter.Valid() && iter.start == d.fields && d.fields != [] && fieldsSeen.Valid()
    requires Tracks(d, st, fieldsSeen.Seen(), arrayField, arraySize)
    modifies fieldsSeen.words
    ensures fieldsSeen.Valid()
    ensures ok <==> StartArray(d, iter.pos, st.fixed).Some?
    ensures ok ==> st' == State(st.cells, st.seen + Marks(d, iter.pos), StartArray(d, iter.pos, st.fixed).value)
    ensures ok ==> Tracks(d, st', fieldsSeen.Seen(), arrayField', arraySize')
    ensures ok && IsFixedCount(d.fields[iter.pos]) ==> arrayField' == iter.pos
  {
    hide LaidOut, RequiredBefore;
    var f := iter.Field();
    var i := iter.pos;
    ok, arrayField', arraySize', st' := true, arrayField, arraySize, st;
    if f.htype.Repeated? && iter.pSize == iter.pData {
      if arrayField' != i {
        if arrayField' >= 0 && arraySize' != d.fields[arrayField'].arraySize {
          return false, arrayField', arraySize', st;
        }
        arrayField' := i;
        arraySize' := 0;
      }
    }
    if f.htype.Required? && iter.requiredFieldIndex < PB_MAX_REQUIRED_FIELDS {
      fieldsSeen.Mark(iter.requiredFieldIndex);
    }
    MarksChecked(d, i);
    assert fieldsSeen.Seen() == st.seen + Marks(d, i);
    st' := State(st.cells, st.seen + Marks(d, i), ProgressOf(arrayField', arraySize'));
  }

  lemma TracksCount(d: Desc, st: State, seen: set<nat>, field: int, size: nat)
    requires Tracks(d, st, seen, field, size)
    ensures st.fixed == ProgressOf(field, size)
    ensures field >= 0 ==> field < |d.fields| && size <= d.fields[field].arraySize
    ensures d.fields != [] ==> st.seen == seen
  {
  }

  lemma TracksOn(d: Desc, st: State, st': State, seen: set<nat>, field: int, before: nat, size: nat)
    requires field >= 0 ==> field < |d.fields| && size <= d.fields[field].arraySize
    requires Tracks(d, st, seen, field, before)
    requires st'.seen == st.seen && st'.fixed == ProgressOf(field, size)
    ensures Tracks(d, st', seen, field, size)
  {
  }

  lemma ApplyUnknownAll(d: Desc, tag: nat, wt: nat, st: State)
    requires (forall i :: 0 <= i < |d.fields| ==> d.fields[i].tag != tag) && !(d.fields == [] && tag == 0)
    ensures forall p :: Apply(d, tag, wt, p, st) == Some(st)
    ensures FramingOf(d, tag, wt) == SkipFraming(wt)
  {
    forall p ensures Apply(d, tag, wt, p, st) == Some(st) {
      ApplyUnknown(d, tag, wt, p, st);
    }
    ApplyUnknown(d, tag, wt, [], st);
  }

  lemma TerminatorAll(d: Desc, wt: nat, st: State)
    requires d.fields == []
    ensures forall p :: Apply(d, 0, wt, p, st) ==
              if ApplyField(TERMINATOR, wt, p, Single(Garbage), 0).Some? then Some(st) else None
    ensures FramingOf(d, 0, wt) == FieldFraming(TERMINATOR, wt)
  {
    hide Apply, ApplyField;
    forall p: bytes {
      ApplyTerminator(d, wt, p, st, Single(Garbage), 0);
    }
    ApplyTerminator(d, wt, [], st, Single(Garbage), 0);
  }

  lemma ExtendBoundAll(f: Field, wt: nat, c: Cell)
    ensures IsFixedCount(f) ==>
              forall p, count: nat :: count <= f.arraySize && ApplyField(f, wt, p, c, count).Some? ==>
                ApplyField(f, wt, p, c, count).value.1 <= f.arraySize
  {
    if IsFixedCount(f) {
      forall p, count: nat | count <= f.arraySize && ApplyField(f, wt, p, c, count).Some?
        ensures ApplyField(f, wt, p, c, count).value.1 <= f.arraySize
      {
        ExtendBound(f, wt, p, c, count);
      }
    }
  }

  /** The record loop. */
  method DecodeRecords(stream: IStream, d: Desc, dest: Struct, iter: FieldIter, fieldsSeen: FieldsSeen)
    returns (ok: bool, arrayField: int, arraySize: nat, ghost o: Outcome)
    requires stream.Valid() && DescOk(d) && iter.Valid() && iter.start == d.fields && iter.destStruct == 0
    requires fieldsSeen.Valid() && fieldsSeen.Seen() == {}
    modifies stream, dest, iter, fieldsSeen.words
    ensures stream.Valid() && stream.End() <= old(stream.End()) && stream.pos >= old(stream.pos)
    ensures ok ==> stream.End() == old(stream.End())
    ensures iter.Valid() && fieldsSeen.Valid()
    ensures Loop(d, old(stream.Rest()), Start(old(dest.cells))) == if ok then Some(o) else None
    ensures ok ==> o.st.cells == dest.cells && o.rest == stream.Rest()
    ensures ok ==> Tracks(d, o.st, fieldsSeen.Seen(), arrayField, arraySize)
    decreases stream.bytesLeft, 4, 2
  {
    hide Dec32, FrameLen, DescOk, Apply, Loop, DecTag, FramingOf, Tracks, LaidOut;
    arrayField, arraySize := -1, 0;
    ghost var st := Start(dest.cells);
    ghost var first := Loop(d, stream.Rest(), st);
    o := Outcome(st, [], false);
    TracksStart(d, dest.cells);
    while stream.bytesLeft > 0
      invariant stream.Valid() && stream.End() == old(stream.End()) && stream.pos >= old(stream.pos)
      invariant iter.Valid() && fieldsSeen.Valid()
      invariant st.cells == dest.cells && Tracks(d, st, fieldsSeen.Seen(), arrayField, arraySize)
      invariant first == Loop(d, stream.Rest(), st)
      decreases stream.bytesLeft
    {
      ghost var s := stream.Rest();
      LoopCases(d, s, st);
      var tag, wt, eof;
      ok, wt, tag, eof := stream.DecodeTag();
      if !ok {
        o := Outcome(st, stream.Rest(), true);
        ok := eof;
        return;
      }
      LoopTurn(d, s, st);
      ok, arrayField, arraySize, st :=
        DecodeRecord(stream, d, dest, iter, fieldsSeen, tag, wt, arrayField, arraySize, st);
      if !ok {
        return;
      }
    }
    LoopCases(d, stream.Rest(), st);
    ok, o := true, Outcome(st, stream.Rest(), false);
  }

  /** pb_decode_noinit. */
  method DecodeNoinit(stream: IStream, d: Desc, dest: Struct) returns (ok: bool)
    requires stream.Valid() && DescOk(d)
    modifies stream, dest
    ensures stream.Valid() && stream.End() <= old(stream.End()) && stream.pos >= old(stream.pos)
    ensures ok ==> stream.End() == old(stream.End())
    ensures ok <==> DecNoinit(d, old(stream.Rest()), old(dest.cells)).Some?
    ensures ok ==> var o := DecNoinit(d, old(stream.Rest()), old(dest.cells)).value;
                   dest.cells == o.st.cells && stream.Rest() == o.rest
    decreases stream.bytesLeft, 5
  {
    hide DescOk, Initial, Loop, Tracks, ArrayDone, SeenBelow, LaidOut, CheckedFields;
    DescFacts(d);
    var fieldsSeen := new FieldsSeen();
    var iter := new FieldIter.Begin(d.fields, 0);
    var arrayField, arraySize;
    ghost var o;
    ok, arrayField, arraySize, o := DecodeRecords(stream, d, dest, iter, fieldsSeen);
    if !ok {
      return;
    }
    TracksEnd(d, o.st, fieldsSeen.Seen(), arrayField, arraySize);
    if arrayField >= 0 && arraySize != d.fields[arrayField].arraySize {
      return false;
    }
    ghost var seen := fieldsSeen.Seen();
    ok := CheckRequired(d, iter, fieldsSeen);
    assert fieldsSeen.Seen() == seen;
  }

  lemma TracksStart(d: Desc, cells: Cells)
    ensures Tracks(d, Start(cells), {}, -1, 0)
  {
  }

  lemma TracksEnd(d: Desc, st: State, seen: set<nat>, field: int, size: nat)
    requires Tracks(d, st, seen, field, size)
    ensures field < |d.fields|
    ensures ArrayDone(d, st.fixed) <==> !(field >= 0 && size != d.fields[field].arraySize)
    ensures SeenBelow(CheckedFields(d), st.seen) <==> forall k: nat :: k < CheckedFields(d) ==> k in seen
    ensures d.fields != [] ==> forall k :: k in seen ==> k < CheckedFields(d)
  {
    SeenBelowIsForall(CheckedFields(d), st.seen);
    if d.fields == [] {
      assert CheckedFields(d) == 0;
    }
  }

  /** The end of pb_decode_noinit: count the required fields and compare the bitmap. */
  method CheckRequired(d: Desc, iter: FieldIter, fieldsSeen: FieldsSeen) returns (ok: bool)
    requires iter.Valid() && iter.start == d.fields && fieldsSeen.Valid()
    requires d.fields != [] ==> forall k :: k in fieldsSeen.Seen() ==> k < CheckedFields(d)
    modifies iter
    ensures iter.Valid() && fieldsSeen.Valid()
    ensures ok <==> forall k: nat :: k < CheckedFields(d) ==> k in fieldsSeen.Seen()
  {
    var reqFieldCount := 0;
    var lastType := Required;
    var more := true;
    ghost var i := iter.pos;
    while more
      invariant iter.Valid() && iter.start == d.fields
      invariant more ==> iter.pos == i && i <= |d.fields|
      invariant !more && d.fields != [] ==> i == |d.fields| - 1 && lastType == d.fields[i].htype
                                            && reqFieldCount == RequiredBefore(d.fields, i)
      invariant !more && d.fields == [] ==> lastType == Required && reqFieldCount == 0
      decreases more, |d.fields| - i
    {
      reqFieldCount := iter.requiredFieldIndex;
      lastType := iter.Field().htype;
      more := iter.Next();
      if more {
        i := i + 1;
      }
    }
    if lastType.Required? && iter.Field().tag != 0 {
      reqFieldCount := reqFieldCount + 1;
    }
    if reqFieldCount > PB_MAX_REQUIRED_FIELDS {
      reqFieldCount := PB_MAX_REQUIRED_FIELDS;
    }
    assert reqFieldCount == CheckedFields(d);
    ok := true;
    if reqFieldCount > 0 {
      ok := fieldsSeen.Complete(reqFieldCount);
    }
  }

  function Offsets(d: Desc): set<nat> {
    set i | 0 <= i < |d.fields| :: d.fields[i].at
  }

  /** pb_decode. The struct has members at the field offsets only. */
  method Decode(stream: IStream, d: Desc, dest: Struct) returns (ok: bool)
    requires stream.Valid() && DescOk(d) && dest.cells.Keys <= Offsets(d)
    modifies stream, dest
    ensures stream.Valid() && stream.End() <= old(stream.End()) && stream.pos >= old(stream.pos)
    ensures ok ==> stream.End() == old(stream.End())
    ensures ok <==> Dec(d, old(stream.Rest())).Some?
    ensures ok ==> var o := Dec(d, old(stream.Rest())).value;
                   dest.cells == o.st.cells && stream.Rest() == o.rest
    decreases stream.bytesLeft, 6
  {
    hide DecNoinit, DescOk;
    InitialKeys(d, false, 0, dest.cells, map[]);
    MessageSetToDefaults(d, false, dest);
    ok := DecodeNoinit(stream, d, dest);
  }

  lemma DelimitedContents(d: Desc, s: bytes)
    ensures var k := FrameLen(ByLength, s);
            && (k.None? ==> Framed.DecDelimited(d, s).None?)
            && (k.Some? ==>
                  && Dec32(s).Some? && Dec32(s).value.1 <= k.value <= |s|
                  && Framed.DecDelimited(d, s) ==
                       match Dec(d, s[Dec32(s).value.1..k.value])
                       case None => None
                       case Some(o) => Some((o.st.cells, s[k.value..])))
  {
    hide Dec, Dec32;
  }

  /** pb_decode_delimited. */
  method DecodeDelimited(stream: IStream, d: Desc, dest: Struct) returns (ok: bool)
    requires stream.Valid() && DescOk(d) && dest.cells.Keys <= Offsets(d)
    modifies stream, dest
    ensures stream.Valid() && stream.End() <= old(stream.End()) && stream.pos >= old(stream.pos)
    ensures ok ==> stream.End() == old(stream.End())
    ensures ok <==> Framed.DecDelimited(d, old(stream.Rest())).Some?
    ensures ok ==> (dest.cells, stream.Rest()) == Framed.DecDelimited(d, old(stream.Rest())).value
  {
    hide Dec32, Dec, DescOk, FrameLen, Framed.DecDelimited;
    ghost var s := stream.Rest();
    LengthFramed(s);
    DelimitedContents(d, s);
    var sub;
    ok, sub := stream.MakeStringSubstream();
    if !ok {
      return;
    }
    var status := Decode(sub, d, dest);
    var closed := stream.CloseStringSubstream(sub);
    if !closed {
      return false;
    }
    ok := status;
  }
}
