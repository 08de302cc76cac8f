/**
 * The wire format in numbers: keys, payload lengths and values as the Protocol Buffers
 * Encoding specification states them, for what is written and for what is skipped.
 */
module WireFormat {
  import opened Common
  import opened Bits
  import opened Varint
  import opened Varint32
  import opened Scalars
  import opened Descriptor
  import opened EncodeSpec
  import opened DecodeSpec
  import opened Records
  import Encoder

  // ---- what is written ----

  /** VARINT, I64, LEN and I32 of section "Message Structure". */
  function WireTypeNumber(lt: LType): nat {
    match lt
    case Packable(LFixed64) => 1
    case Packable(LFixed32) => 5
    case Packable(_) => 0
    case _ => 2
  }

  /** A record is the key and the value. */
  lemma RecordForm(f: Field, v: Value)
    ensures EncRecord(f, v) ==
              if EncValue(f, v).None? then None
              else Some(Enc(8 * f.tag + WireTypeNumber(f.ltype)) + EncValue(f, v).value)
  {
    hide EncValue;
  }

  /** An array of numbers is one record of type 2; other arrays have a record for every entry. */
  lemma ArrayForm(f: Field, items: seq<Value>)
    requires items != [] && EncArray(f, items).Some?
    ensures |items| <= f.arraySize
    ensures f.ltype.Packable? ==>
              var body := EncItems(f, items);
              body.Some? && EncArray(f, items).value == Enc(8 * f.tag + 2) + Enc(|body.value|) + body.value
    ensures !f.ltype.Packable? ==> EncArray(f, items) == EncRecords(f, items)
  {
    hide EncItems, EncRecords;
    if f.ltype.Packable? {
      var body, k := EncItems(f, items).value, Enc(8 * f.tag + 2);
      assert k + (Enc(|body|) + body) == k + Enc(|body|) + body;
    }
  }

  /** Entry by entry, numbers next to each other and records next to each other. */
  lemma {:induction false} EntriesForm(f: Field, items: seq<Value>, k: nat)
    requires k <= |items|
    ensures EncItems(f, items) == Concat(EncItems(f, items[..k]), EncItems(f, items[k..]))
    ensures EncRecords(f, items) == Concat(EncRecords(f, items[..k]), EncRecords(f, items[k..]))
    ensures |items| == 1 ==>
              EncItems(f, items) == EncValue(f, items[0]) && EncRecords(f, items) == EncRecord(f, items[0])
    decreases k
  {
    hide EncValue, EncRecord;
    if |items| == 1 {
      NothingBehind(EncValue(f, items[0]));
      NothingBehind(EncRecord(f, items[0]));
      assert items[1..] == [];
    }
    if k == 0 {
      assert items[..0] == [] && items[0..] == items;
      NothingBefore(EncItems(f, items));
      NothingBefore(EncRecords(f, items));
    } else {
      EntriesForm(f, items[1..], k - 1);
      assert items[..k][1..] == items[1..][..k - 1] && items[1..][k - 1..] == items[k..];
      Encoder.ConcatAssociates(EncValue(f, items[0]), EncItems(f, items[1..][..k - 1]), EncItems(f, items[k..]));
      Encoder.ConcatAssociates(EncRecord(f, items[0]), EncRecords(f, items[1..][..k - 1]), EncRecords(f, items[k..]));
    }
  }

  lemma NothingBehind(a: Option<bytes>)
    ensures Concat(a, Some([])) == a
  {
    assert a.Some? ==> a.value + [] == a.value;
  }

  lemma NothingBefore(a: Option<bytes>)
    ensures Concat(Some([]), a) == a
  {
    assert a.Some? ==> [] + a.value == a.value;
  }

  /** What a field writes, if anything, starts with its key. */
  lemma FieldForm(f: Field, c: Cell)
    requires EncField(f, c).Some? && EncField(f, c) != Some([])
    ensures Enc(8 * f.tag + if f.htype.Repeated? && f.ltype.Packable? then 2 else WireTypeNumber(f.ltype))
         <= EncField(f, c).value
  {
    hide EncValue, EncItems, Enc;
    if f.htype.Repeated? {
      ArrayForm(f, c.items);
      RecordForm(f, c.items[0]);
    } else {
      RecordForm(f, c.v);
    }
  }

  /** The fields follow each other in the order of the table, with nothing between them. */
  lemma {:induction false} MessageForm(d: Desc, i: nat, m: Cells, k: nat)
    requires i <= k < |d.fields| && EncFrom(d, i, m).Some?
    ensures d.fields[k].at in m && EncField(d.fields[k], m[d.fields[k].at]).Some?
    ensures exists before, behind ::
              EncFrom(d, i, m).value == before + EncField(d.fields[k], m[d.fields[k].at]).value + behind
              && EncFrom(d, k + 1, m) == Some(behind)
    decreases k - i
  {
    hide EncField;
    var head, tail := EncField(d.fields[i], m[d.fields[i].at]).value, EncFrom(d, i + 1, m).value;
    if i == k {
      assert head + tail == [] + head + tail;
    } else {
      MessageForm(d, i + 1, m, k);
      var e := EncField(d.fields[k], m[d.fields[k].at]).value;
      var before, behind :| tail == before + e + behind && EncFrom(d, k + 1, m) == Some(behind);
      assert head + tail == head + before + e + behind;
    }
  }

  // ---- numbers ----

  /** Signed numbers as 64-bit two's complement, zigzag numbers, and bool as 0 and 1. */
  lemma VarintForms(size: nat, n: int)
    ensures InRange(LVarint, size, n) ==>
              EncScalar(LVarint, size, n) == Some(Enc(if n < 0 then n + 0x1_0000_0000_0000_0000 else n))
    ensures InRange(LUVarint, size, n) ==> EncScalar(LUVarint, size, n) == Some(Enc(n))
    ensures InRange(LSVarint, size, n) ==>
              EncScalar(LSVarint, size, n) == Some(Enc(if n < 0 then -2 * n - 1 else 2 * n))
    ensures n == 0 || n == 1 ==> EncScalar(LBool, size, n) == Some(Enc(n))
  {
    hide Enc, ZigZag;
    if InRange(LSVarint, size, n) {
      ZigZagMeaning(n);
    }
  }

  // ---- bytes, strings and submessages ----

  /** The length and the content; of a string `n` is the number of bytes before the terminator. */
  lemma DelimitedForms(f: Field, v: Value, n: nat)
    requires EncValue(f, v).Some? && !f.ltype.Packable?
    requires f.ltype.LString? ==>
               |v.b| <= f.dataSize && n <= |v.b| && 0 !in v.b[..n] && (n < |v.b| ==> v.b[n] == 0)
    ensures f.ltype.LString? ==> EncValue(f, v).value == Enc(n) + v.b[..n]
    ensures f.ltype.LBytes? || f.ltype.LFixedLengthBytes? ==> v.Blob? && EncValue(f, v).value == Enc(|v.b|) + v.b
    ensures f.ltype.LSubmessage? ==>
              && v.Sub? && f.ptr.Submsg? && EncMessage(f.ptr.d, v.cells).Some?
              && EncValue(f, v).value == Enc(|EncMessage(f.ptr.d, v.cells).value|) + EncMessage(f.ptr.d, v.cells).value
  {
    hide Enc, CString, EncFrom;
    if f.ltype.LString? {
      Encoder.CStringIs(v.b, n);
    }
  }

  // ---- numbers byte by byte ----

  function At(s: bytes, k: nat): nat
    requires k < |s|
  {
    s[k]
  }

  /** Four or eight bytes, the least significant one first. */
  lemma FixedForms(size: nat, n: int)
    ensures 0 <= n < 0x1_0000_0000 ==>
              var b := EncScalar(LFixed32, size, n);
              b.Some? && |b.value| == 4
              && At(b.value, 0) + 0x100 * At(b.value, 1) + 0x1_0000 * At(b.value, 2) + 0x100_0000 * At(b.value, 3) == n
    ensures 0 <= n < 0x1_0000_0000_0000_0000 ==>
              var b := EncScalar(LFixed64, size, n);
              b.Some? && |b.value| == 8
              && (At(b.value, 0) + 0x100 * At(b.value, 1) + 0x1_0000 * At(b.value, 2) + 0x100_0000 * At(b.value, 3)
                  + 0x1_0000_0000 * At(b.value, 4) + 0x100_0000_0000 * At(b.value, 5)
                  + 0x1_0000_0000_0000 * At(b.value, 6) + 0x100_0000_0000_0000 * At(b.value, 7) == n)
  {
    Pow2Values();
    hide FromLittleEndian, LittleEndian;
    if 0 <= n < 0x1_0000_0000 {
      LittleEndianRoundTrip(n, 4);
      FourBytes(LittleEndian(n, 4));
    }
    if 0 <= n < 0x1_0000_0000_0000_0000 {
      LittleEndianRoundTrip(n, 8);
      var s := LittleEndian(n, 8);
      FourBytes(s[..4]);
      FourBytes(s[4..]);
      EightBytes(s);
    }
  }

  lemma FourBytes(s: bytes)
    requires |s| == 4
    ensures FromLittleEndian(s) == At(s, 0) + 0x100 * At(s, 1) + 0x1_0000 * At(s, 2) + 0x100_0000 * At(s, 3)
  {
    OneByte(s, 0);
    OneByte(s, 1);
    OneByte(s, 2);
    OneByte(s, 3);
    assert s[0..] == s && FromLittleEndian(s[4..]) == 0;
  }

  lemma EightBytes(s: bytes)
    requires |s| == 8
    ensures FromLittleEndian(s) == FromLittleEndian(s[..4]) + 0x1_0000_0000 * FromLittleEndian(s[4..])
  {
    OneByte(s, 0);
    OneByte(s, 1);
    OneByte(s, 2);
    OneByte(s, 3);
    FourBytes(s[..4]);
    assert s[0..] == s;
  }

  lemma OneByte(s: bytes, k: nat)
    requires k < |s|
    ensures FromLittleEndian(s[k..]) == At(s, k) + 0x100 * FromLittleEndian(s[k + 1..])
  {
    assert s[k..][1..] == s[k + 1..];
  }

  // ---- keys ----

  /** A key is split into its three low bits and the field number; only the key 0 ends a message. */
  lemma KeyForm(tag: nat, wt: nat, t: bytes)
    requires 8 * tag + wt < 0x1_0000_0000 && wt < 8
    ensures DecTag(Enc(8 * tag + wt) + t) ==
              if tag == 0 && wt == 0 then EndTag(1) else FieldTag(tag, wt, |Enc(8 * tag + wt)|)
  {
    hide Enc, Dec32;
    Dec32Enc(8 * tag + wt, t);
    KeyZero();
  }

  lemma KeyZero()
    ensures |Enc(0)| == 1
  {
  }

  // ---- what is skipped ----

  /** A field number the table does not have. */
  ghost predicate Unknown(d: Desc, tag: nat) {
    1 <= tag < 0x2000_0000 && Find(d, tag).None?
  }

  lemma SkipRecord(d: Desc, tag: nat, wt: nat, p: bytes, t: bytes, st: State)
    requires Unknown(d, tag) && wt < 8 && Framed(SkipFraming(wt), p)
    ensures Loop(d, Enc(8 * tag + wt) + p + t, st) == Loop(d, t, st)
  {
    hide Loop, FrameLen, SkipFraming;
    TagRoundTrip(tag, wt);
    LoopRecord(d, TagBytes(tag, wt), tag, wt, p, t, st);
  }

  lemma CannotSkip(d: Desc, tag: nat, wt: nat, t: bytes, st: State)
    requires Unknown(d, tag) && wt < 8 && FrameLen(SkipFraming(wt), t).None?
    ensures Loop(d, Enc(8 * tag + wt) + t, st) == None
  {
    hide Loop, FrameLen, SkipFraming, DecTag;
    var h := TagBytes(tag, wt);
    TagRoundTrip(tag, wt);
    TagAppend(h, tag, wt, t);
    assert (h + t)[|h|..] == t;
    LoopCases(d, h + t, st);
  }

  /**
   * Unknown records of type 1 and 5 are skipped with exactly 8 and 4 bytes, whatever these
   * are; fewer bytes make decoding fail.
   */
  lemma FixedSkipped(d: Desc, tag: nat, p: bytes, t: bytes, st: State)
    requires Unknown(d, tag)
    ensures |p| == 8 ==> Loop(d, Enc(8 * tag + 1) + p + t, st) == Loop(d, t, st)
    ensures |p| == 4 ==> Loop(d, Enc(8 * tag + 5) + p + t, st) == Loop(d, t, st)
    ensures |p| < 8 ==> Loop(d, Enc(8 * tag + 1) + p, st) == None
    ensures |p| < 4 ==> Loop(d, Enc(8 * tag + 5) + p, st) == None
  {
    hide Loop, Enc, SkipFraming, FrameLen, Unknown;
    WidthFramed(p);
    if |p| == 8 {
      SkipRecord(d, tag, 1, p, t, st);
    }
    if |p| == 4 {
      SkipRecord(d, tag, 5, p, t, st);
    }
    if |p| < 8 {
      CannotSkip(d, tag, 1, p, st);
    }
    if |p| < 4 {
      CannotSkip(d, tag, 5, p, st);
    }
  }

  lemma WidthFramed(p: bytes)
    ensures FrameLen(SkipFraming(1), p) == (if 8 <= |p| then Some(8) else None)
    ensures FrameLen(SkipFraming(5), p) == (if 4 <= |p| then Some(4) else None)
  {
  }

  /** Type 0 is skipped up to the first byte below 128; without one, decoding fails. */
  lemma VarintSkipped(d: Desc, tag: nat, p: bytes, b: byte, t: bytes, st: State)
    requires Unknown(d, tag) && forall k :: 0 <= k < |p| ==> p[k] >= 128
    ensures b < 128 ==> Loop(d, Enc(8 * tag) + (p + [b]) + t, st) == Loop(d, t, st)
    ensures Loop(d, Enc(8 * tag) + p, st) == None
  {
    hide Loop, Enc;
    if b < 128 {
      FirstUnique(p + [b], |p|);
      SkipRecord(d, tag, 0, p + [b], t, st);
    }
    CannotSkip(d, tag, 0, p, st);
  }

  /** Type 2 is skipped with the length it states; fewer bytes make decoding fail. */
  lemma DelimitedSkipped(d: Desc, tag: nat, p: bytes, t: bytes, n: nat, st: State)
    requires Unknown(d, tag) && |p| < 0x1_0000_0000
    ensures Loop(d, Enc(8 * tag + 2) + (Enc(|p|) + p) + t, st) == Loop(d, t, st)
    ensures |p| < n < 0x1_0000_0000 ==> Loop(d, Enc(8 * tag + 2) + (Enc(n) + p), st) == None
  {
    hide Loop, Enc;
    DelimitedParts(p);
    SkipRecord(d, tag, 2, Delimited(p), t, st);
    if |p| < n < 0x1_0000_0000 {
      Dec32Enc(n, p);
      CannotSkip(d, tag, 2, Enc(n) + p, st);
    }
  }

  /** The types 3, 4, 6 and 7 make decoding fail, whatever follows. */
  lemma OtherTypesFail(d: Desc, tag: nat, t: bytes, st: State)
    requires Unknown(d, tag)
    ensures Loop(d, Enc(8 * tag + 3) + t, st) == None && Loop(d, Enc(8 * tag + 4) + t, st) == None
    ensures Loop(d, Enc(8 * tag + 6) + t, st) == None && Loop(d, Enc(8 * tag + 7) + t, st) == None
  {
    hide Loop, Enc;
    CannotSkip(d, tag, 3, t, st);
    CannotSkip(d, tag, 4, t, st);
    CannotSkip(d, tag, 6, t, st);
    CannotSkip(d, tag, 7, t, st);
  }

  // ---- known fields ----

  /**
   * The type in the key of a known field is not looked at: whatever follows is read as the type
   * of the field, except that type 2 means a packed array for a repeated field of numbers.
   */
  lemma TypeNotChecked(d: Desc, i: nat, wt: nat, wt': nat, s: bytes, st: State)
    requires UniqueTags(d.fields) && i < |d.fields| && 1 <= d.fields[i].tag < 0x2000_0000 && wt < 8 && wt' < 8
    requires d.fields[i].htype.Repeated? && d.fields[i].ltype.Packable? ==> (wt == 2 <==> wt' == 2)
    ensures Loop(d, Enc(8 * d.fields[i].tag + wt) + s, st) == Loop(d, Enc(8 * d.fields[i].tag + wt') + s, st)
  {
    hide Loop, FrameLen, DecTag, Apply, UniqueTags, FramingOf;
    var tag := d.fields[i].tag;
    FindUnique(d, i);
    TypeInKey(d, tag, wt, s, st);
    TypeInKey(d, tag, wt', s, st);
    assert FramingOf(d, tag, wt) == FramingOf(d, tag, wt') by {
      SameFraming(d, i, wt, wt');
    }
    forall p ensures Apply(d, tag, wt, p, st) == Apply(d, tag, wt', p, st) {
      SameApply(d, i, wt, wt', p, st);
    }
  }

  /** One turn of the loop behind a key. */
  lemma TypeInKey(d: Desc, tag: nat, wt: nat, s: bytes, st: State)
    requires 1 <= tag < 0x2000_0000 && wt < 8
    ensures Loop(d, Enc(8 * tag + wt) + s, st) ==
              match FrameLen(FramingOf(d, tag, wt), s)
              case None => None
              case Some(k) => Continue(d, Apply(d, tag, wt, s[..k], st), s[k..])
  {
    hide Loop, FrameLen, DecTag, Apply, FramingOf;
    var h := TagBytes(tag, wt);
    TagRoundTrip(tag, wt);
    TagAppend(h, tag, wt, s);
    assert (h + s)[|h|..] == s;
    LoopTurn(d, h + s, st);
  }

  lemma SameFraming(d: Desc, i: nat, wt: nat, wt': nat)
    requires i < |d.fields| && Find(d, d.fields[i].tag) == Some(i)
    requires d.fields[i].htype.Repeated? && d.fields[i].ltype.Packable? ==> (wt == 2 <==> wt' == 2)
    ensures FramingOf(d, d.fields[i].tag, wt) == FramingOf(d, d.fields[i].tag, wt')
  {
  }

  lemma SameRecord(f: Field, wt: nat, wt': nat, p: bytes, c: Cell, count: nat)
    requires f.htype.Repeated? && f.ltype.Packable? ==> (wt == 2 <==> wt' == 2)
    ensures ApplyField(f, wt, p, c, count) == ApplyField(f, wt', p, c, count)
  {
    hide DecValue, DecItems;
    if f.htype.Repeated? && Fits(f, c) {
      assert IsPacked(f, wt) == IsPacked(f, wt');
      assert Extend(f, wt, p, c.items) == Extend(f, wt', p, c.items);
      if count <= |c.items| {
        assert Extend(f, wt, p, c.items[..count]) == Extend(f, wt', p, c.items[..count]);
      }
    }
  }

  lemma SameApply(d: Desc, i: nat, wt: nat, wt': nat, p: bytes, st: State)
    requires i < |d.fields| && Find(d, d.fields[i].tag) == Some(i)
    requires d.fields[i].htype.Repeated? && d.fields[i].ltype.Packable? ==> (wt == 2 <==> wt' == 2)
    ensures Apply(d, d.fields[i].tag, wt, p, st) == Apply(d, d.fields[i].tag, wt', p, st)
  {
    hide ApplyField, Find;
    forall c, count: nat
      ensures ApplyField(d.fields[i], wt, p, c, count) == ApplyField(d.fields[i], wt', p, c, count)
    {
      SameRecord(d.fields[i], wt, wt', p, c, count);
    }
  }

  // ---- the examples of the specification ----

  /** The number 150 in field 1. */
  const NUMBER := Field(1, Packable(LVarint), Required, Static, 0, 0, 4, 0, Null, 0)

  /** A string in field 2, a submessage in field 3, and packed numbers in field 6. */
  const TEXT := Field(2, LString, Required, Static, 0, 0, 8, 0, Null, 0)
  const NESTED := Field(3, LSubmessage, Required, Static, 0, 0, 4, 0, Ptr.Submsg(Desc([NUMBER])), 0)
  const NUMBERS := Field(6, Packable(LVarint), Repeated, Static, 0, 4, 4, 3, Null, 0)

  lemma OneField(f: Field, c: Cell)
    ensures EncMessage(Desc([f]), map[f.at := c]) == EncField(f, c)
  {
    hide EncField;
    var d, m := Desc([f]), map[f.at := c];
    assert EncFrom(d, 1, m) == Some([]);
    assert EncFrom(d, 0, m) == Concat(EncField(f, c), Some([]));
    NothingBehind(EncField(f, c));
  }

  /** A required field is its key and its value. */
  lemma OneRecord(f: Field, v: Value, key: bytes, value: bytes)
    requires f.htype.Required? && Enc(8 * f.tag + WireTypeNumber(f.ltype)) == key && EncValue(f, v) == Some(value)
    ensures EncMessage(Desc([f]), map[f.at := Single(v)]) == Some(key + value)
  {
    hide EncValue, EncRecord, Enc;
    OneField(f, Single(v));
    RecordForm(f, v);
  }

  lemma NumberExample()
    ensures EncMessage(Desc([NUMBER]), map[0 := Single(Int(150))]) == Some([0x08, 0x96, 0x01])
  {
    assert Enc(1) == [0x01] && Enc(150) == [0x96] + Enc(1) == [0x96, 0x01];
    OneRecord(NUMBER, Int(150), [0x08], [0x96, 0x01]);
    assert [0x08] + [0x96, 0x01] == [0x08, 0x96, 0x01];
  }

  /** A string without a zero byte that fills its array but for the terminator. */
  lemma WholeString(b: bytes)
    requires |b| == 7 && 0 !in b
    ensures EncValue(TEXT, Blob(b)) == Some([0x07] + b)
  {
    hide CString;
    assert b[..7] == b;
    Encoder.CStringIs(b, 7);
  }

  lemma TextExample()
    ensures EncMessage(Desc([TEXT]), map[0 := Single(Blob([0x74, 0x65, 0x73, 0x74, 0x69, 0x6E, 0x67]))])
         == Some([0x12, 0x07] + [0x74, 0x65, 0x73, 0x74, 0x69, 0x6E, 0x67])
  {
    hide EncValue, EncFrom;
    var b: bytes := [0x74, 0x65, 0x73, 0x74, 0x69, 0x6E, 0x67];
    WholeString(b);
    OneRecord(TEXT, Blob(b), [0x12], [0x07] + b);
    assert [0x12] + ([0x07] + b) == [0x12, 0x07] + b;
  }

  lemma NestedExample()
    ensures EncMessage(Desc([NESTED]), map[0 := Single(Sub(map[0 := Single(Int(150))]))])
         == Some([0x1A, 0x03, 0x08, 0x96, 0x01])
  {
    var v := Sub(map[0 := Single(Int(150))]);
    NumberExample();
    assert EncValue(NESTED, v) == Some([0x03] + [0x08, 0x96, 0x01]);
    OneRecord(NESTED, v, [0x1A], [0x03] + [0x08, 0x96, 0x01]);
    assert [0x1A] + ([0x03] + [0x08, 0x96, 0x01]) == [0x1A, 0x03, 0x08, 0x96, 0x01];
  }

  lemma OneNumber(n: nat)
    requires n < 0x8000_0000
    ensures EncItems(NUMBERS, [Int(n)]) == Some(Enc(n))
  {
    hide EncItems, Enc;
    EntriesForm(NUMBERS, [Int(n)], 1);
    VarintForms(4, n);
  }

  lemma ExampleVarints()
    ensures Enc(3) == [0x03] && Enc(6) == [0x06] && Enc(50) == [0x32]
    ensures Enc(270) == [0x8E, 0x02] && Enc(86942) == [0x9E, 0xA7, 0x05]
  {
    assert Enc(2) == [0x02] && Enc(270) == [0x8E] + Enc(2);
    assert Enc(5) == [0x05] && Enc(679) == [0xA7] + Enc(5) && Enc(86942) == [0x9E] + Enc(679);
  }

  lemma NumbersExample()
    ensures EncMessage(Desc([NUMBERS]), map[0 := Counted([Int(3), Int(270), Int(86942)])])
         == Some([0x32, 0x06, 0x03, 0x8E, 0x02, 0x9E, 0xA7, 0x05])
  {
    hide EncItems, Enc, EncArray, EncValue;
    var items := [Int(3), Int(270), Int(86942)];
    ExampleVarints();
    EntriesForm(NUMBERS, items, 1);
    EntriesForm(NUMBERS, items[1..], 1);
    assert items[..1] == [Int(3)] && items[1..][..1] == [Int(270)] && items[1..][1..] == [Int(86942)];
    OneNumber(3);
    OneNumber(270);
    OneNumber(86942);
    var body: bytes := [0x03] + ([0x8E, 0x02] + [0x9E, 0xA7, 0x05]);
    assert EncItems(NUMBERS, items) == Some(body);
    PackedRecord(NUMBERS, items, body);
    OneField(NUMBERS, Counted(items));
    assert [0x32] + [0x06] + body == [0x32, 0x06, 0x03, 0x8E, 0x02, 0x9E, 0xA7, 0x05];
  }

  lemma PackedRecord(f: Field, items: seq<Value>, body: bytes)
    requires items != [] && |items| <= f.arraySize && f.ltype.Packable? && EncItems(f, items) == Some(body)
    ensures EncArray(f, items) == Some(Enc(8 * f.tag + 2) + Enc(|body|) + body)
  {
    hide EncItems, Enc;
    ArrayForm(f, items);
  }
}
