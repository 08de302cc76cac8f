/** pb_encode and the functions below it, on streams. */
module Encoder {
  import opened Common
  import opened Varint
  import opened Scalars
  import opened Descriptor
  import opened EncodeSpec
  import opened OutputStream
  import opened FieldIterator
  import Framed

  // ---- readable memory ----

  /** The size fits `size_t`. */
  predicate Sized(b: Option<bytes>) {
    b.Some? ==> |b.value| < TWO_TO_THE_64
  }

  /**
   * Storage the encoder can read: values of the members' C types, valid or not, whose
   * encoded sizes do not overflow `size_t`.
   */
  ghost predicate ValueReadable(f: Field, v: Value)
    decreases f, 0
  {
    match f.ltype
    case Packable(sc) => v.Int? && InRange(sc, f.dataSize, v.n)
    case LBytes => v.Blob? && |v.b| <= PB_SIZE_MAX
    case LString => v.Blob? && |v.b| <= f.dataSize
    case LFixedLengthBytes => v.Blob? && |v.b| == f.dataSize
    case LSubmessage =>
      v.Sub? && f.ptr.Submsg? && Readable(f.ptr.d, v.cells) && Sized(EncMessage(f.ptr.d, v.cells))
  }

  ghost predicate CellReadable(f: Field, c: Cell)
    decreases f, 1
  {
    && Fits(f, c)
    && match f.htype
       case Required => ValueReadable(f, c.v)
       case Optional => f.sizeOffset == 0 || c.has ==> ValueReadable(f, c.v)
       case Repeated =>
         && (forall k :: 0 <= k < |c.items| && k < f.arraySize ==> ValueReadable(f, c.items[k]))
         && (f.ltype.Packable? && |c.items| <= f.arraySize ==> Sized(EncItems(f, c.items)))
       case Oneof => c.which == f.tag ==> ValueReadable(f, c.v)
  }

  ghost predicate Readable(d: Desc, m: Cells)
    decreases d
  {
    forall i :: 0 <= i < |d.fields| ==> d.fields[i].at in m && CellReadable(d.fields[i], m[d.fields[i].at])
  }

  // ---- tags and values ----

  /** pb_encode_tag_for_field. */
  method EncodeTagForField(stream: OStream, f: Field) returns (ok: bool)
    requires stream.Valid() && FieldOk(f)
    modifies stream, stream.buf
    ensures stream.Wrote(Some(TagBytes(f.tag, WireType(f.ltype))), ok)
  {
    var wt;
    match f.ltype {
      case Packable(LFixed32) => wt := WT_32BIT;
      case Packable(LFixed64) => wt := WT_64BIT;
      case Packable(_) => wt := WT_VARINT;
      case _ => wt := WT_STRING;
    }
    ok := stream.EncodeTag(wt, f.tag);
  }

  /** pb_enc_bool, pb_enc_varint, pb_enc_uvarint, pb_enc_svarint, pb_enc_fixed32 and pb_enc_fixed64. */
  method EncodeScalarValue(stream: OStream, f: Field, n: int) returns (ok: bool)
    requires stream.Valid() && f.ltype.Packable? && InRange(f.ltype.scalar, f.dataSize, n)
    modifies stream, stream.buf
    ensures stream.Wrote(EncScalar(f.ltype.scalar, f.dataSize, n), ok)
  {
    hide Enc, LittleEndian;
    match f.ltype.scalar {
      case LBool => ok := stream.EncodeVarint(if n != 0 then 1 else 0);
      case LVarint => ok := stream.EncodeVarint(ToUnsigned64(n));
      case LUVarint => ok := stream.EncodeVarint(n);
      case LSVarint => ok := stream.EncodeSvarint(n);
      case LFixed32 => ok := stream.EncodeFixed(n, 4);
      case LFixed64 => ok := stream.EncodeFixed(n, 8);
    }
  }

  /** The strnlen loop of pb_enc_string. */
  method StringLength(b: bytes, maxSize: nat) returns (size: nat)
    requires |b| <= maxSize
    ensures size <= |b| && b[..size] == StringContent(b, maxSize)
  {
    size := 0;
    while size < maxSize && size < |b| && b[size] != 0
      invariant size <= |b| && 0 !in b[..size]
    {
      assert b[..size + 1] == b[..size] + [b[size]];
      size := size + 1;
    }
    CStringIs(b, size);
  }

  lemma {:induction false} CStringIs(b: bytes, size: nat)
    requires size <= |b| && 0 !in b[..size] && (size < |b| ==> b[size] == 0)
    ensures CString(b) == b[..size]
  {
    if size > 0 {
      assert b[0] in b[..size];
      assert b[1..][..size - 1] == b[..size][1..];
      CStringIs(b[1..], size - 1);
    }
  }

  /** The table of value encoders. */
  method EncodeValue(stream: OStream, f: Field, v: Value) returns (ok: bool)
    requires stream.Valid() && FieldOk(f) && (f.ptr.Submsg? ==> DescOk(f.ptr.d))
    requires ValueReadable(f, v)
    modifies stream, stream.buf
    ensures stream.Wrote(EncValue(f, v), ok)
    decreases f, 1
  {
    hide Enc, EncScalar, DescOk, Readable, EncFrom;
    match f.ltype {
      case Packable(_) => ok := EncodeScalarValue(stream, f, v.n);
      case LBytes =>
        if |v.b| + BYTES_OFFSET > f.dataSize {
          ok := false;
        } else {
          ok := stream.EncodeString(v.b);
        }
      case LString =>
        var size := StringLength(v.b, f.dataSize);
        ok := stream.EncodeString(v.b[..size]);
      case LFixedLengthBytes => ok := stream.EncodeString(v.b);
      case LSubmessage =>
        var changed;
        ok, changed := EncodeSubmessage(stream, f.ptr.d, v.cells);
    }
  }

  /**
   * pb_encode_submessage: a sizing pass, the length, and a writing pass into a window of
   * exactly that length. `sizeChanged` is the "submsg size changed" error; it never occurs.
   */
  method EncodeSubmessage(stream: OStream, d: Desc, m: Cells) returns (ok: bool, sizeChanged: bool)
    requires stream.Valid() && DescOk(d) && Readable(d, m)
    requires Sized(EncMessage(d, m))
    modifies stream, stream.buf
    ensures stream.Wrote(Framed.EncDelimited(d, m), ok)
    ensures !sizeChanged
    decreases d, 3
  {
    hide Enc, DescOk, Readable, EncMessage, Writes;
    sizeChanged := false;
    var sizing := new OStream.Sizing();
    ghost var origin, start := sizing.Now(), stream.Now();
    ok := Encode(sizing, d, m);
    WritesSize(origin, sizing.Now(), EncMessage(d, m), ok);
    if !ok {
      WritesFails(start, Framed.EncDelimited(d, m));
      return;
    }
    ghost var b := EncMessage(d, m).value;
    var size := sizing.bytesWritten;
    ok := stream.EncodeVarint(size);
    ghost var prefixed := stream.Now();
    if !ok {
      Shortfall(start, prefixed, Some(Enc(size)), Some(b));
      return;
    }
    if stream.buf == null {
      ok := stream.WriteNothing(size);
      WritesCount(prefixed, stream.Now(), b);
    } else if stream.bytesWritten + size > stream.maxSize {
      ok := false;
      WritesFails(prefixed, Some(b));
    } else {
      ok, sizeChanged := EncodeWindow(stream, d, m, size);
    }
    WritesThen(start, prefixed, stream.Now(), Enc(size), Some(b), ok);
  }

  /** The writing pass, into a window of the stream of exactly the size found before. */
  method EncodeWindow(stream: OStream, d: Desc, m: Cells, size: nat) returns (ok: bool, sizeChanged: bool)
    requires stream.Valid() && DescOk(d) && Readable(d, m)
    requires stream.buf != null && stream.Room(size)
    requires EncMessage(d, m).Some? && |EncMessage(d, m).value| == size
    modifies stream, stream.buf
    ensures ok && stream.Wrote(EncMessage(d, m), ok)
    ensures !sizeChanged
    decreases d, 2
  {
    hide DescOk, Readable, EncMessage;
    var window := new OStream.Window(stream, size);
    var status := Encode(window, d, m);
    stream.bytesWritten := stream.bytesWritten + window.bytesWritten;
    stream.pos := window.pos;
    sizeChanged := window.bytesWritten != size;
    ok := status && !sizeChanged;
  }

  /** encode_field on one record. */
  method EncodeRecord(stream: OStream, f: Field, v: Value) returns (ok: bool)
    requires stream.Valid() && FieldOk(f) && (f.ptr.Submsg? ==> DescOk(f.ptr.d))
    requires ValueReadable(f, v)
    modifies stream, stream.buf
    ensures stream.Wrote(EncRecord(f, v), ok)
    decreases f, 2
  {
    hide EncValue, TagBytes, ValueReadable, DescOk, Writes;
    ghost var start := stream.Now();
    ghost var tag := TagBytes(f.tag, WireType(f.ltype));
    ok := EncodeTagForField(stream, f);
    if !ok {
      Shortfall(start, stream.Now(), Some(tag), EncValue(f, v));
      return;
    }
    ghost var tagged := stream.Now();
    ok := EncodeValue(stream, f, v);
    WritesThen(start, tagged, stream.Now(), tag, EncValue(f, v), ok);
  }

  // ---- arrays ----

  lemma ConcatAssociates(a: Option<bytes>, b: Option<bytes>, c: Option<bytes>)
    ensures Concat(a, Concat(b, c)) == Concat(Concat(a, b), c)
  {
    if a.Some? && b.Some? && c.Some? {
      assert a.value + (b.value + c.value) == a.value + b.value + c.value;
    }
  }

  /** One item more is written; the rest is still to come. */
  lemma ItemStep(f: Field, items: seq<Value>, i: nat, done: bytes)
    requires i < |items|
    ensures Concat(Some(done), EncItems(f, items[i..])) ==
              Concat(Concat(Some(done), EncValue(f, items[i])), EncItems(f, items[i + 1..]))
    ensures Concat(Some(done), EncRecords(f, items[i..])) ==
              Concat(Concat(Some(done), EncRecord(f, items[i])), EncRecords(f, items[i + 1..]))
  {
    hide Concat, EncValue, EncRecord;
    assert items[i..][1..] == items[i + 1..];
    ConcatAssociates(Some(done), EncValue(f, items[i]), EncItems(f, items[i + 1..]));
    ConcatAssociates(Some(done), EncRecord(f, items[i]), EncRecords(f, items[i + 1..]));
  }

  lemma NothingBefore(b: Option<bytes>)
    ensures Concat(Some([]), b) == b
  {
    if b.Some? {
      assert [] + b.value == b.value;
    }
  }

  lemma NothingAfter(done: bytes)
    ensures Concat(Some(done), Some([])) == Some(done)
  {
    assert done + [] == done;
  }

  /** The items of a packed array, one after another. */
  method EncodeItems(stream: OStream, f: Field, items: seq<Value>) returns (ok: bool)
    requires stream.Valid() && f.ltype.Packable?
    requires forall k :: 0 <= k < |items| ==> ValueReadable(f, items[k])
    modifies stream, stream.buf
    ensures stream.Wrote(EncItems(f, items), ok)
  {
    hide EncValue, EncItems, Writes, Concat;
    ghost var start := stream.Now();
    ghost var done: bytes := [];
    WritesNothing(start);
    assert items[0..] == items;
    NothingBefore(EncItems(f, items));
    ok := true;
    var i := 0;
    while i < |items|
      invariant 0 <= i <= |items| && stream.Valid()
      invariant Writes(start, stream.Now(), Some(done), true)
      invariant Concat(Some(done), EncItems(f, items[i..])) == EncItems(f, items)
    {
      ItemStep(f, items, i, done);
      ghost var before, e := stream.Now(), EncValue(f, items[i]);
      PackedValue(f, items[i]);
      ok := EncodeScalarValue(stream, f, items[i].n);
      WritesThen(start, before, stream.Now(), done, e, ok);
      if !ok {
        Shortfall(start, stream.Now(), Concat(Some(done), e), EncItems(f, items[i + 1..]));
        return;
      }
      done := ConcatValue(done, e);
      i := i + 1;
    }
    NoItems(f, items[i..]);
    NothingAfter(done);
  }

  lemma NoItems(f: Field, items: seq<Value>)
    requires items == []
    ensures EncItems(f, items) == Some([]) && EncRecords(f, items) == Some([])
  {
  }

  lemma ConcatValue(done: bytes, e: Option<bytes>) returns (b: bytes)
    requires e.Some?
    ensures Some(b) == Concat(Some(done), e)
  {
    b := done + e.value;
  }

  lemma PackedValue(f: Field, v: Value)
    requires f.ltype.Packable? && ValueReadable(f, v)
    ensures v.Int? && EncValue(f, v) == EncScalar(f.ltype.scalar, f.dataSize, v.n)
    ensures EncValue(f, v).Some?
  {
  }

  /** One record per item. */
  method EncodeRecords(stream: OStream, f: Field, items: seq<Value>) returns (ok: bool)
    requires stream.Valid() && FieldOk(f) && (f.ptr.Submsg? ==> DescOk(f.ptr.d))
    requires forall k :: 0 <= k < |items| ==> ValueReadable(f, items[k])
    modifies stream, stream.buf
    ensures stream.Wrote(EncRecords(f, items), ok)
    decreases f, 3
  {
    hide EncValue, EncRecord, EncRecords, ValueReadable, DescOk, Writes, Concat;
    ghost var start := stream.Now();
    ghost var done: bytes := [];
    WritesNothing(start);
    assert items[0..] == items;
    NothingBefore(EncRecords(f, items));
    ok := true;
    var i := 0;
    while i < |items|
      invariant 0 <= i <= |items| && stream.Valid()
      invariant Writes(start, stream.Now(), Some(done), true)
      invariant Concat(Some(done), EncRecords(f, items[i..])) == EncRecords(f, items)
    {
      ItemStep(f, items, i, done);
      ghost var before, e := stream.Now(), EncRecord(f, items[i]);
      ok := EncodeRecord(stream, f, items[i]);
      WritesThen(start, before, stream.Now(), done, e, ok);
      if !ok {
        Shortfall(start, stream.Now(), Concat(Some(done), e), EncRecords(f, items[i + 1..]));
        return;
      }
      WritesSomething(before, stream.Now(), e);
      done := ConcatValue(done, e);
      i := i + 1;
    }
    NoItems(f, items[i..]);
    NothingAfter(done);
  }

  lemma {:induction false} FixedItemsSize(f: Field, items: seq<Value>, width: nat)
    requires (f.ltype == Packable(LFixed32) && width == 4) || (f.ltype == Packable(LFixed64) && width == 8)
    requires forall k :: 0 <= k < |items| ==> ValueReadable(f, items[k])
    ensures EncItems(f, items).Some? && |EncItems(f, items).value| == width * |items|
    decreases |items|
  {
    if items != [] {
      FixedItemsSize(f, items[1..], width);
    }
  }

  lemma {:induction false} PackedItemsEncode(f: Field, items: seq<Value>)
    requires f.ltype.Packable? && forall k :: 0 <= k < |items| ==> ValueReadable(f, items[k])
    ensures EncItems(f, items).Some?
    decreases |items|
  {
    if items != [] {
      PackedItemsEncode(f, items[1..]);
      PackedValue(f, items[0]);
    }
  }

  /** The length of a packed array's payload. */
  method PackedSize(f: Field, items: seq<Value>) returns (size: nat)
    requires f.ltype.Packable? && forall k :: 0 <= k < |items| ==> ValueReadable(f, items[k])
    ensures EncItems(f, items).Some? && size == |EncItems(f, items).value|
  {
    PackedItemsEncode(f, items);
    if f.ltype.scalar.LFixed32? {
      FixedItemsSize(f, items, 4);
      size := 4 * |items|;
    } else if f.ltype.scalar.LFixed64? {
      FixedItemsSize(f, items, 8);
      size := 8 * |items|;
    } else {
      var sizing := new OStream.Sizing();
      var ok := EncodeItems(sizing, f, items);
      size := sizing.bytesWritten;
    }
  }

  /** The packed branch of encode_array. */
  method EncodePacked(stream: OStream, f: Field, items: seq<Value>) returns (ok: bool)
    requires stream.Valid() && FieldOk(f) && f.ltype.Packable?
    requires items != [] && |items| <= f.arraySize
    requires forall k :: 0 <= k < |items| ==> ValueReadable(f, items[k])
    requires Sized(EncItems(f, items))
    modifies stream, stream.buf
    ensures stream.Wrote(EncArray(f, items), ok)
  {
    hide EncItems, TagBytes, Enc, ValueReadable, Writes;
    ghost var start := stream.Now();
    ghost var tag := TagBytes(f.tag, WT_STRING);
    ok := stream.EncodeTag(WT_STRING, f.tag);
    PackedItemsEncode(f, items);
    ghost var b := EncItems(f, items).value;
    if !ok {
      Shortfall(start, stream.Now(), Some(tag), Some(Delimited(b)));
      return;
    }
    ghost var tagged := stream.Now();
    var size := PackedSize(f, items);
    ok := stream.EncodeVarint(size);
    if !ok {
      WritesThen(start, tagged, stream.Now(), tag, Some(Enc(size)), false);
      Shortfall(start, stream.Now(), Some(tag + Enc(size)), Some(b));
      assert tag + Enc(size) + b == tag + Delimited(b);
      return;
    }
    ghost var prefixed := stream.Now();
    if stream.buf == null {
      ok := stream.WriteNothing(size);
      WritesCount(prefixed, stream.Now(), b);
    } else {
      ok := EncodeItems(stream, f, items);
    }
    WritesThen(tagged, prefixed, stream.Now(), Enc(size), Some(b), ok);
    WritesThen(start, tagged, stream.Now(), tag, Some(Delimited(b)), ok);
  }

  /** encode_array. */
  method EncodeArray(stream: OStream, f: Field, items: seq<Value>) returns (ok: bool)
    requires stream.Valid() && FieldOk(f) && (f.ptr.Submsg? ==> DescOk(f.ptr.d))
    requires forall k :: 0 <= k < |items| && k < f.arraySize ==> ValueReadable(f, items[k])
    requires f.ltype.Packable? && |items| <= f.arraySize ==> Sized(EncItems(f, items))
    modifies stream, stream.buf
    ensures stream.Wrote(EncArray(f, items), ok)
    decreases f, 4
  {
    hide EncItems, EncRecord, EncRecords, TagBytes, Enc, ValueReadable, DescOk;
    if |items| == 0 {
      return true;
    }
    if |items| > f.arraySize {
      return false;
    }
    if f.ltype.Packable? {
      ok := EncodePacked(stream, f, items);
    } else {
      ok := EncodeRecords(stream, f, items);
    }
  }

  // ---- proto3 defaults ----

  /** pb_check_proto3_default_value. */
  method CheckProto3Default(f: Field, c: Cell) returns (isDefault: bool)
    requires FieldOk(f) && (f.ptr.Submsg? ==> DescOk(f.ptr.d)) && CellReadable(f, c)
    ensures isDefault == IsDefault(f, c)
    decreases f
  {
    if f.htype.Required? {
      return false;
    } else if f.htype.Repeated? {
      if f.sizeOffset != 0 {
        return |c.items| == 0;
      } else {
        return false;
      }
    } else if f.htype.Oneof? {
      return c.which == 0;
    } else if f.sizeOffset != 0 {
      return !c.has;
    }
    match f.ltype {
      case LBytes => return |c.v.b| == 0;
      case LString => return |c.v.b| == 0 || c.v.b[0] == 0;
      case LFixedLengthBytes => return f.dataSize == 0;
      case LSubmessage => isDefault := CheckAllDefault(f.ptr.d, c.v.cells);
      case Packable(_) => return c.v.n == 0;
    }
  }

  /** The loop over the fields of a submessage. */
  method CheckAllDefault(d: Desc, m: Cells) returns (all: bool)
    requires DescOk(d) && Readable(d, m)
    ensures all == AllDefault(d, 0, m)
    decreases d
  {
    hide AllDefault, IsDefault, DescOk, CellReadable, LaidOut;
    DescFacts(d);
    var iter := new FieldIter.Begin(d.fields, 0);
    if d.fields == [] {
      AllDefaultEnd(d, m);
      return true;
    }
    var more := true;
    ghost var i := 0;
    while more
      invariant iter.Valid() && iter.start == d.fields && iter.destStruct == 0 && fresh(iter)
      invariant i <= |d.fields| && (if more then i == iter.pos else i == |d.fields|)
      invariant AllDefault(d, 0, m) == AllDefault(d, i, m)
      decreases |d.fields| - i
    {
      var isDefault := CheckProto3Default(iter.Field(), m[iter.pData]);
      AllDefaultStep(d, i, m);
      if !isDefault {
        return false;
      }
      more := iter.Next();
      i := i + 1;
    }
    AllDefaultEnd(d, m);
    return true;
  }

  lemma AllDefaultStep(d: Desc, i: nat, m: Cells)
    requires i < |d.fields| && d.fields[i].at in m
    ensures AllDefault(d, i, m) == (IsDefault(d.fields[i], m[d.fields[i].at]) && AllDefault(d, i + 1, m))
  {
    hide IsDefault;
  }

  lemma AllDefaultEnd(d: Desc, m: Cells)
    ensures AllDefault(d, |d.fields|, m)
  {
  }

  // ---- fields and messages ----

  /** encode_basic_field. */
  method EncodeField(stream: OStream, f: Field, c: Cell) returns (ok: bool)
    requires stream.Valid() && FieldOk(f) && (f.ptr.Submsg? ==> DescOk(f.ptr.d))
    requires CellReadable(f, c)
    modifies stream, stream.buf
    ensures stream.Wrote(EncField(f, c), ok)
    decreases f, 5
  {
    hide EncRecord, EncArray, ValueReadable, DescOk, IsDefault;
    match f.htype {
      case Required => ok := EncodeRecord(stream, f, c.v);
      case Optional =>
        var has;
        if f.sizeOffset != 0 {
          has := c.has;
        } else {
          var isDefault := CheckProto3Default(f, c);
          has := !isDefault;
        }
        if has {
          ok := EncodeRecord(stream, f, c.v);
        } else {
          ok := true;
        }
      case Repeated => ok := EncodeArray(stream, f, c.items);
      case Oneof =>
        if c.which == f.tag {
          ok := EncodeRecord(stream, f, c.v);
        } else {
          ok := true;
        }
    }
  }

  lemma FieldStep(d: Desc, i: nat, m: Cells, done: bytes)
    requires i < |d.fields| && d.fields[i].at in m
    ensures Concat(Some(done), EncFrom(d, i, m)) ==
              Concat(Concat(Some(done), EncField(d.fields[i], m[d.fields[i].at])), EncFrom(d, i + 1, m))
  {
    hide EncField, Concat;
    ConcatAssociates(Some(done), EncField(d.fields[i], m[d.fields[i].at]), EncFrom(d, i + 1, m));
  }

  /** One turn of the loop over the fields, when `done` has been written since `start`. */
  method EncodeNext(stream: OStream, d: Desc, iter: FieldIter, m: Cells, ghost start: Snapshot, ghost done: bytes)
    returns (ok: bool, ghost done': bytes)
    requires stream.Valid() && DescOk(d) && Readable(d, m)
    requires iter.Valid() && iter.start == d.fields != [] && iter.destStruct == 0
    requires start.Valid() && Writes(start, stream.Now(), Some(done), true)
    modifies stream, stream.buf
    ensures stream.Valid()
    ensures var rest := EncFrom(d, iter.pos + 1, m);
            var all := Concat(Some(done), EncFrom(d, iter.pos, m));
            if ok then Writes(start, stream.Now(), Some(done'), true) && Concat(Some(done'), rest) == all
            else Writes(start, stream.Now(), all, false)
    decreases d, 0
  {
    hide EncFrom, EncField, DescOk, CellReadable, LaidOut, Writes, Concat;
    DescFacts(d);
    done' := done;
    var f := iter.Field();
    FieldStep(d, iter.pos, m, done);
    ghost var before, e := stream.Now(), EncField(f, m[f.at]);
    ok := EncodeField(stream, f, m[iter.pData]);
    WritesThen(start, before, stream.Now(), done, e, ok);
    if ok {
      WritesSomething(before, stream.Now(), e);
      done' := ConcatValue(done, e);
    } else {
      Shortfall(start, stream.Now(), Concat(Some(done), e), EncFrom(d, iter.pos + 1, m));
    }
  }

  /** pb_encode. */
  method Encode(stream: OStream, d: Desc, m: Cells) returns (ok: bool)
    requires stream.Valid() && DescOk(d) && Readable(d, m)
    modifies stream, stream.buf
    ensures stream.Wrote(EncMessage(d, m), ok)
    decreases d, 1
  {
    hide EncFrom, EncField, DescOk, Readable, LaidOut, Writes, Concat;
    DescFacts(d);
    var iter := new FieldIter.Begin(d.fields, 0);
    ghost var start := stream.Now();
    ghost var done: bytes := [];
    WritesNothing(start);
    EncFromEnd(d, m);
    NothingBefore(EncMessage(d, m));
    ok := true;
    if d.fields == [] {
      return;
    }
    var more := true;
    ghost var i := 0;
    while more
      invariant iter.Valid() && iter.start == d.fields && iter.destStruct == 0 && fresh(iter)
      invariant i <= |d.fields| && (if more then i == iter.pos else i == |d.fields|)
      invariant stream.Valid() && Writes(start, stream.Now(), Some(done), true)
      invariant Concat(Some(done), EncFrom(d, i, m)) == EncMessage(d, m)
      decreases |d.fields| - i
    {
      ok, done := EncodeNext(stream, d, iter, m, start, done);
      if !ok {
        return;
      }
      more := iter.Next();
      i := i + 1;
    }
    NothingAfter(done);
  }

  lemma EncFromEnd(d: Desc, m: Cells)
    ensures EncFrom(d, |d.fields|, m) == Some([])
  {
  }

  /** pb_get_encoded_size. */
  method GetEncodedSize(d: Desc, m: Cells) returns (ok: bool, size: nat)
    requires DescOk(d) && Readable(d, m)
    ensures ok <==> EncMessage(d, m).Some?
    ensures ok ==> size == |EncMessage(d, m).value|
  {
    hide DescOk, Readable, EncFrom;
    var stream := new OStream.Sizing();
    ok := Encode(stream, d, m);
    size := stream.bytesWritten;
  }

  /** pb_encode_delimited. */
  method EncodeDelimited(stream: OStream, d: Desc, m: Cells) returns (ok: bool)
    requires stream.Valid() && DescOk(d) && Readable(d, m) && Sized(EncMessage(d, m))
    modifies stream, stream.buf
    ensures stream.Wrote(Framed.EncDelimited(d, m), ok)
  {
    var changed;
    ok, changed := EncodeSubmessage(stream, d, m);
  }

  /** pb_encode_nullterminated. */
  method EncodeNullTerminated(stream: OStream, d: Desc, m: Cells) returns (ok: bool)
    requires stream.Valid() && DescOk(d) && Readable(d, m)
    modifies stream, stream.buf
    ensures stream.Wrote(Concat(EncMessage(d, m), Some([0])), ok)
  {
    hide DescOk, Readable, EncFrom;
    ok := Encode(stream, d, m);
    if !ok {
      return;
    }
    ok := stream.Write([0]);
  }
}
