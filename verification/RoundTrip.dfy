/**
 * Decoding what was encoded. The reader may use an older version of the descriptor; the
 * plain round trip is the case where both are the same.
 */
module RoundTrip {
  import opened Common
  import opened Scalars
  import opened Descriptor
  import opened EncodeSpec
  import opened DecodeSpec
  import opened Messages
  import opened Records

  // ---- values left out because they are proto3 defaults ----

  /** A proto3 default that is not transmitted is what the reader starts from. */
  lemma {:induction false} DefaultValueSame(fr: Field, fw: Field, v: Value, z: bool)
    requires OlderField(fr, fw) && FieldOk(fr) && FieldOk(fw) && !fr.ptr.Default?
    requires fr.ptr.Submsg? ==> DescOk(fr.ptr.d) && DescOk(fw.ptr.d)
    requires ValueOk(fw, v) && IsDefaultValue(fw, v)
    ensures SameValue(fr, InitialValue(fr, z), fw, v)
    decreases fr, 0
  {
    match fr.ltype
    case LSubmessage => DefaultFieldsSame(fr.ptr.d, fw.ptr.d, v.cells, z);
    case LString => assert StringContent(v.b, fw.dataSize) == [];
    case _ =>
  }

  lemma {:induction false} DefaultFieldsSame(r: Desc, w: Desc, m: Cells, z: bool)
    requires Older(r, w) && DescOk(r) && DescOk(w) && MsgOk(w, m) && AllDefault(w, 0, m)
    ensures Same(r, Initial(r, z), w, m)
    decreases r
  {
    InitialHolds(r, z);
    forall j | 0 <= j < |r.fields|
      ensures Counterpart(w, r.fields[j]).at in m
      ensures SameCell(r.fields[j], InitialCell(r.fields[j], z),
                       Counterpart(w, r.fields[j]), m[Counterpart(w, r.fields[j]).at])
    {
      var fr, fw := r.fields[j], Counterpart(w, r.fields[j]);
      assert FieldOk(fr) && FieldOk(fw);
      AllDefaultAt(w, 0, m, Find(w, fr.tag).value);
      if IsSingular(fr) {
        DefaultValueSame(fr, fw, m[fw.at].v, z);
      }
    }
  }

  lemma {:induction false} AllDefaultAt(d: Desc, i: nat, m: Cells, k: nat)
    requires i <= k < |d.fields| && AllDefault(d, i, m)
    ensures d.fields[k].at in m && IsDefault(d.fields[k], m[d.fields[k].at])
    decreases k - i
  {
    if i < k {
      AllDefaultAt(d, i + 1, m, k);
    }
  }

  // ---- the reader's state while the writer's fields arrive ----

  /**
   * Field `j` of the reader when the first `i` fields of the writer have arrived: it holds
   * the message's content, or has not been touched yet.
   */
  ghost predicate FieldState(r: Desc, w: Desc, i: nat, m: Cells, st: State, z: bool, j: nat)
    requires j < |r.fields| && Find(w, r.fields[j].tag).Some?
  {
    var fr, fw := r.fields[j], Counterpart(w, r.fields[j]);
    && fr.at in st.cells && fw.at in m
    && if Find(w, fr.tag).value < i then
         SameCell(fr, st.cells[fr.at], fw, m[fw.at]) && Marks(r, j) <= st.seen
       else if fr.htype.Oneof? then
         && st.cells[fr.at].Union? && st.cells[fr.at].which != fr.tag
         && (st.cells[fr.at].which == 0 || (m[fw.at].Union? && st.cells[fr.at].which == m[fw.at].which))
       else st.cells[fr.at] == InitialCell(fr, z)
  }

  ghost predicate Progressed(r: Desc, w: Desc, i: nat, m: Cells, st: State, z: bool)
    requires Older(r, w)
  {
    && (forall j :: 0 <= j < |r.fields| ==> FieldState(r, w, i, m, st, z, j))
    && ArrayDone(r, st.fixed)
    && (st.fixed.Array? ==> Find(w, r.fields[st.fixed.field].tag).value < i)
  }

  /** Everything the lemmas below assume about the two descriptors and the message. */
  ghost predicate Setting(r: Desc, w: Desc, m: Cells) {
    Older(r, w) && DescOk(r) && DescOk(w) && MsgOk(w, m)
  }

  /** After `c` is stored for field `j`, the counterpart of writer field `i`, one more field is done. */
  lemma Advance(r: Desc, w: Desc, i: nat, j: nat, m: Cells, st: State, z: bool,
                c: Cell, seen: set<nat>, fixed: Progress)
    requires Setting(r, w, m) && i < |w.fields| && Progressed(r, w, i, m, st, z)
    requires j < |r.fields| && Find(w, r.fields[j].tag) == Some(i)
    requires SameCell(r.fields[j], c, w.fields[i], m[w.fields[i].at])
    requires r.fields[j].at in st.cells
    requires r.fields[j].htype.Oneof? ==> c == st.cells[r.fields[j].at] || c.which == r.fields[j].tag
    requires st.seen <= seen && Marks(r, j) <= seen
    requires fixed == st.fixed || (fixed.Array? && fixed.field == j && ArrayDone(r, fixed))
    ensures Progressed(r, w, i + 1, m, State(st.cells[r.fields[j].at := c], seen, fixed), z)
  {
    var st' := State(st.cells[r.fields[j].at := c], seen, fixed);
    var i' := i + 1;
    forall k | 0 <= k < |r.fields| ensures FieldState(r, w, i', m, st', z, k) {
      assert FieldState(r, w, i, m, st, z, k);
      if k != j {
        assert r.fields[k].tag != r.fields[j].tag by {
          assert if k < j then r.fields[k].tag != r.fields[j].tag else r.fields[j].tag != r.fields[k].tag;
        }
        if r.fields[k].at == r.fields[j].at {
          OffsetsAscend(r.fields, if k < j then k else j, if k < j then j else k);
          assert Counterpart(w, r.fields[k]).at == w.fields[i].at;
        }
      }
    }
  }

  /** A writer field the reader does not have changes nothing. */
  lemma AdvanceUnknown(r: Desc, w: Desc, i: nat, m: Cells, st: State, z: bool)
    requires Setting(r, w, m) && i < |w.fields| && Progressed(r, w, i, m, st, z)
    requires Find(r, w.fields[i].tag).None?
    ensures Progressed(r, w, i + 1, m, st, z)
  {
    var i' := i + 1;
    forall k | 0 <= k < |r.fields| ensures FieldState(r, w, i', m, st, z, k) {
      assert FieldState(r, w, i, m, st, z, k);
      assert r.fields[k].tag != w.fields[i].tag;
    }
  }

  // ---- values ----

  /** A value written by `fw` is read back by `fr`. */
  lemma {:induction false} ValueArrives(fr: Field, fw: Field, v: Value, prev: Value, z: bool) returns (x: Value)
    requires OlderField(fr, fw) && FieldOk(fr) && FieldOk(fw)
    requires fr.ptr.Submsg? ==> DescOk(fr.ptr.d) && DescOk(fw.ptr.d)
    requires ValueOk(fw, v) && EncValue(fw, v).Some? && |EncValue(fw, v).value| < TWO_TO_THE_32
    requires fr.ltype.LSubmessage? && !fr.htype.Repeated? ==> prev == Sub(Initial(fr.ptr.d, z))
    ensures DecValue(fr, EncValue(fw, v).value, prev) == Some(x)
    ensures SameValue(fr, x, fw, v)
    decreases fr, 1
  {
    match fr.ltype
    case Packable(sc) =>
      ScalarRoundTrip(sc, fw.dataSize, v.n);
      x := v;
    case LBytes =>
      DelimitedParts(v.b);
      x := v;
    case LString =>
      DelimitedParts(StringContent(v.b, fw.dataSize));
      x := Blob(StringContent(v.b, fw.dataSize));
      CStringTwice(v.b);
    case LFixedLengthBytes =>
      DelimitedParts(v.b);
      x := v;
    case LSubmessage =>
      x := SubmessageArrives(fr, fw, v, prev, z);
  }

  lemma {:induction false} SubmessageArrives(fr: Field, fw: Field, v: Value, prev: Value, z: bool) returns (x: Value)
    requires OlderField(fr, fw) && fr.ltype.LSubmessage?
    requires DescOk(fr.ptr.d) && DescOk(fw.ptr.d) && ValueOk(fw, v)
    requires EncValue(fw, v).Some? && |EncValue(fw, v).value| < TWO_TO_THE_32
    requires !fr.htype.Repeated? ==> prev == Sub(Initial(fr.ptr.d, z))
    ensures DecValue(fr, EncValue(fw, v).value, prev) == Some(x)
    ensures x.Sub? && Same(fr.ptr.d, x.cells, fw.ptr.d, v.cells)
    decreases fr, 0
  {
    hide Loop, Same, MsgOk, DescOk, Older, EncFrom, SeenBelow, Initial;
    var d := fr.ptr.d;
    var b := EncFrom(fw.ptr.d, 0, v.cells).value;
    var z' := if fr.htype.Repeated? then false else z;
    DelimitedParts(b);
    var st := MessageArrives(d, fw.ptr.d, v.cells, z', []);
    assert b + [] == b;
    LoopEmpty(d, st);
    assert DecNoinit(d, b, Initial(d, z')) == Some(Outcome(st, [], false));
    x := Sub(st.cells);
  }

  lemma {:induction false} CStringTwice(b: bytes)
    ensures CString(CString(b)) == CString(b)
  {
    if b != [] && b[0] != 0 {
      CStringTwice(b[1..]);
      assert CString(b)[1..] == CString(b[1..]);
    }
  }

  // ---- single records ----

  /** What a record of the non-array field `f` is decoded onto. */
  function Target(f: Field, c: Cell): Value
    requires !f.htype.Repeated? && Fits(f, c)
  {
    if f.htype.Oneof? && f.ptr.Submsg? then Sub(Initial(f.ptr.d, true)) else c.v
  }

  function Stored(f: Field, x: Value): Cell {
    match f.htype
    case Oneof => Union(f.tag, x)
    case _ => if f.htype.Optional? && f.sizeOffset != 0 then Flagged(true, x) else Single(x)
  }

  lemma ApplySingle(r: Desc, j: nat, wt: nat, p: bytes, st: State, x: Value)
    requires DescOk(r) && j < |r.fields| && !r.fields[j].htype.Repeated?
    requires r.fields[j].at in st.cells && Fits(r.fields[j], st.cells[r.fields[j].at])
    requires DecValue(r.fields[j], p, Target(r.fields[j], st.cells[r.fields[j].at])) == Some(x)
    ensures Apply(r, r.fields[j].tag, wt, p, st)
         == Some(State(st.cells[r.fields[j].at := Stored(r.fields[j], x)], st.seen + Marks(r, j), st.fixed))
  {
    hide DecValue;
    FindUnique(r, j);
    assert FieldOk(r.fields[j]);
  }

  /** The storage of an untouched field is freshly initialised. */
  lemma TargetInitial(f: Field, c: Cell, z: bool)
    requires FieldOk(f) && !f.htype.Repeated?
    requires if f.htype.Oneof? then c.Union? else c == InitialCell(f, z)
    ensures Fits(f, c)
    ensures f.ltype.LSubmessage? ==> Target(f, c) == Sub(Initial(f.ptr.d, f.htype.Oneof? || z))
  {
  }

  /** The reader knows the field: it stores the value. */
  lemma {:induction false} KnownRecordArrives(r: Desc, w: Desc, i: nat, j: nat, m: Cells, st: State, z: bool,
                                              h: bytes, p: bytes, t: bytes)
    returns (st': State)
    requires Setting(r, w, m) && i < |w.fields| && Progressed(r, w, i, m, st, z)
    requires j < |r.fields| && Find(w, r.fields[j].tag) == Some(i)
    requires SingleRecord(w, i, m)
    requires EncValue(w.fields[i], m[w.fields[i].at].v) == Some(p) && |p| < TWO_TO_THE_32
    requires IsTag(h, w.fields[i].tag, WireType(w.fields[i].ltype))
    requires Framed(ItemFraming(w.fields[i].ltype), p)
    ensures Loop(r, h + p + t, st) == Loop(r, t, st')
    ensures Progressed(r, w, i + 1, m, st', z)
    decreases r, 0
  {
    hide Loop, EncValue, DecValue, SameValue, ValueOk, InitialCell;
    var fr, fw := r.fields[j], w.fields[i];
    assert FieldOk(fr) && FieldOk(fw) && OlderField(fr, fw);
    assert FieldState(r, w, i, m, st, z, j);
    var c := st.cells[fr.at];
    TargetInitial(fr, c, z);
    var x := ValueArrives(fr, fw, m[fw.at].v, Target(fr, c), fr.htype.Oneof? || z);
    ApplySingle(r, j, WireType(fw.ltype), p, st, x);
    FindUnique(r, j);
    LoopRecord(r, h, fw.tag, WireType(fw.ltype), p, t, st);
    Advance(r, w, i, j, m, st, z, Stored(fr, x), st.seen + Marks(r, j), st.fixed);
    st' := State(st.cells[fr.at := Stored(fr, x)], st.seen + Marks(r, j), st.fixed);
  }

  /** Writer field `i` writes one record. */
  ghost predicate SingleRecord(w: Desc, i: nat, m: Cells)
    requires i < |w.fields|
  {
    var fw := w.fields[i];
    && fw.at in m && CellOk(fw, m[fw.at])
    && !fw.htype.Repeated? && ValueOk(fw, m[fw.at].v)
    && (fw.htype.Oneof? ==> m[fw.at].which == fw.tag)
    && (m[fw.at].Flagged? ==> m[fw.at].has)
  }

  /** Writer field `i` arrives as one record. */
  lemma {:induction false} RecordArrives(r: Desc, w: Desc, i: nat, m: Cells, st: State, z: bool, t: bytes)
    returns (st': State)
    requires Setting(r, w, m) && i < |w.fields| && Progressed(r, w, i, m, st, z)
    requires SingleRecord(w, i, m)
    requires EncRecord(w.fields[i], m[w.fields[i].at].v).Some?
    requires |EncRecord(w.fields[i], m[w.fields[i].at].v).value| < TWO_TO_THE_32
    ensures Loop(r, EncRecord(w.fields[i], m[w.fields[i].at].v).value + t, st) == Loop(r, t, st')
    ensures Progressed(r, w, i + 1, m, st', z)
    decreases r, 1
  {
    hide Loop, EncValue, SameValue, ValueOk, FieldState;
    var fw := w.fields[i];
    var wt, v := WireType(fw.ltype), m[fw.at].v;
    var h, p := TagBytes(fw.tag, wt), EncValue(fw, v).value;
    assert FieldOk(fw);
    TagRoundTrip(fw.tag, wt);
    ValueFramed(fw, v);
    if Find(r, fw.tag).None? {
      SkipSame(fw.ltype);
      AdvanceUnknown(r, w, i, m, st, z);
      LoopRecord(r, h, fw.tag, wt, p, t, st);
      st' := st;
    } else {
      FindUnique(w, i);
      st' := KnownRecordArrives(r, w, i, Find(r, fw.tag).value, m, st, z, h, p, t);
    }
  }

  // ---- arrays ----

  /** The reader's state when `xs` have arrived in its array field `j`. */
  function WithItems(r: Desc, j: nat, st: State, xs: seq<Value>): State
    requires j < |r.fields|
    requires r.fields[j].at in st.cells && Fits(r.fields[j], st.cells[r.fields[j].at])
    requires r.fields[j].htype.Repeated? && |xs| <= r.fields[j].arraySize
  {
    var f := r.fields[j];
    if xs == [] then st
    else if IsFixedCount(f) then
      State(st.cells[f.at := Fixed(xs + st.cells[f.at].items[|xs|..])], st.seen, Array(j, |xs|))
    else State(st.cells[f.at := Counted(xs)], st.seen, st.fixed)
  }

  /** Field `j` is an untouched array, and an array may start. */
  ghost predicate Ready(r: Desc, j: nat, st: State) {
    && j < |r.fields|
    && r.fields[j].htype.Repeated?
    && r.fields[j].at in st.cells
    && Fits(r.fields[j], st.cells[r.fields[j].at])
    && (!IsFixedCount(r.fields[j]) ==> st.cells[r.fields[j].at].items == [])
    && ArrayDone(r, st.fixed)
    && (st.fixed.Array? ==> st.fixed.field != j)
  }

  /** A record that extends the entries received so far. */
  lemma ApplyExtends(r: Desc, j: nat, st: State, wt: nat, p: bytes, xs: seq<Value>, ys: seq<Value>)
    requires DescOk(r) && Ready(r, j, st) && |xs| <= r.fields[j].arraySize
    requires Extend(r.fields[j], wt, p, xs) == Some(ys) && xs != ys
    ensures Apply(r, r.fields[j].tag, wt, p, WithItems(r, j, st, xs)) == Some(WithItems(r, j, st, ys))
  {
    var f := r.fields[j];
    var a := WithItems(r, j, st, xs);
    FindUnique(r, j);
    assert a.seen + Marks(r, j) == a.seen;
    assert xs <= ys;
    if IsFixedCount(f) {
      var items := st.cells[f.at].items;
      assert a.cells[f.at].items[..|xs|] == xs;
      assert a.cells[f.at].items[|ys|..] == items[|ys|..];
      assert a.cells[f.at := Fixed(ys + items[|ys|..])] == st.cells[f.at := Fixed(ys + items[|ys|..])];
    } else {
      assert a.cells[f.at := Counted(ys)] == st.cells[f.at := Counted(ys)];
    }
  }

  /** The first record of an unpacked array, and the others. */
  lemma RecordsSplit(f: Field, items: seq<Value>) returns (h: bytes, p: bytes, rest: bytes)
    requires FieldOk(f) && items != []
    requires EncRecords(f, items).Some? && |EncRecords(f, items).value| < TWO_TO_THE_32
    ensures EncValue(f, items[0]) == Some(p) && EncRecords(f, items[1..]) == Some(rest)
    ensures EncRecords(f, items).value == h + p + rest && h == TagBytes(f.tag, WireType(f.ltype))
    ensures IsTag(h, f.tag, WireType(f.ltype)) && Framed(ItemFraming(f.ltype), p)
    ensures |p| < TWO_TO_THE_32 && |rest| < TWO_TO_THE_32
  {
    h, p, rest := TagBytes(f.tag, WireType(f.ltype)), EncValue(f, items[0]).value, EncRecords(f, items[1..]).value;
    TagRoundTrip(f.tag, WireType(f.ltype));
    ValueFramed(f, items[0]);
  }

  lemma SameItemsCons(fr: Field, x: Value, xs: seq<Value>, fw: Field, ys: seq<Value>)
    requires ys != [] && SameValue(fr, x, fw, ys[0]) && SameItems(fr, xs, fw, ys[1..])
    ensures SameItems(fr, [x] + xs, fw, ys)
  {
    forall k | 0 <= k < |ys| ensures SameValue(fr, ([x] + xs)[k], fw, ys[k]) {
      if k > 0 {
        assert ([x] + xs)[k] == xs[k - 1] && ys[k] == ys[1..][k - 1];
      }
    }
  }

  /** One item of an unpacked array. */
  lemma {:induction false} ItemRecordArrives(r: Desc, j: nat, fw: Field, v: Value, st: State, xs: seq<Value>,
                                             h: bytes, p: bytes, t: bytes)
    returns (x: Value)
    requires DescOk(r) && Ready(r, j, st) && FieldOk(fw) && OlderField(r.fields[j], fw)
    requires fw.ptr.Submsg? ==> DescOk(fw.ptr.d)
    requires !fw.ltype.Packable? && |xs| < fw.arraySize && ValueOk(fw, v)
    requires EncValue(fw, v) == Some(p) && |p| < TWO_TO_THE_32
    requires IsTag(h, fw.tag, WireType(fw.ltype)) && Framed(ItemFraming(fw.ltype), p)
    ensures SameValue(r.fields[j], x, fw, v)
    ensures Loop(r, h + p + t, WithItems(r, j, st, xs)) == Loop(r, t, WithItems(r, j, st, xs + [x]))
    decreases r, 2
  {
    var fr, wt := r.fields[j], WireType(fw.ltype);
    assert FieldOk(fr);
    FindUnique(r, j);
    x := ValueArrives(fr, fw, v, Garbage, false);
    assert Extend(fr, wt, p, xs) == Some(xs + [x]);
    ApplyExtends(r, j, st, wt, p, xs, xs + [x]);
    LoopRecord(r, h, fw.tag, wt, p, t, WithItems(r, j, st, xs));
  }

  /** Unpacked: one record per item. */
  lemma {:induction false} ItemRecordsArrive(r: Desc, j: nat, fw: Field, items: seq<Value>, st: State,
                                             xs: seq<Value>, t: bytes)
    returns (ys: seq<Value>)
    requires DescOk(r) && Ready(r, j, st) && FieldOk(fw) && OlderField(r.fields[j], fw)
    requires fw.ptr.Submsg? ==> DescOk(fw.ptr.d)
    requires !fw.ltype.Packable? && |xs| + |items| <= fw.arraySize
    requires forall k :: 0 <= k < |items| ==> ValueOk(fw, items[k])
    requires EncRecords(fw, items).Some? && |EncRecords(fw, items).value| < TWO_TO_THE_32
    ensures |xs + ys| <= r.fields[j].arraySize && SameItems(r.fields[j], ys, fw, items)
    ensures Loop(r, EncRecords(fw, items).value + t, WithItems(r, j, st, xs))
         == Loop(r, t, WithItems(r, j, st, xs + ys))
    decreases r, 3, |items|
  {
    hide Loop, WithItems, EncValue, ValueOk, DescOk, SameValue;
    if items == [] {
      ys := [];
      assert xs + ys == xs && [] + t == t;
    } else {
      var h, p, rest := RecordsSplit(fw, items);
      var x := ItemRecordArrives(r, j, fw, items[0], st, xs, h, p, rest + t);
      assert h + p + rest + t == h + p + (rest + t);
      var more := ItemRecordsArrive(r, j, fw, items[1..], st, xs + [x], t);
      ys := [x] + more;
      assert xs + [x] + more == xs + ys;
      SameItemsCons(r.fields[j], x, more, fw, items);
    }
  }

  lemma DecItemsStep(f: Field, p: bytes, rest: bytes, xs: seq<Value>, x: Value)
    requires p != [] && |xs| < f.arraySize
    requires FrameLen(ItemFraming(f.ltype), p + rest) == Some(|p|) && DecValue(f, p, Garbage) == Some(x)
    ensures DecItems(f, p + rest, xs) == DecItems(f, rest, xs + [x])
  {
    hide FrameLen, DecValue;
    assert (p + rest)[..|p|] == p && (p + rest)[|p|..] == rest;
  }

  /** Packed: the items inside one payload. */
  lemma {:induction false} PackedItemsArrive(fr: Field, fw: Field, items: seq<Value>, xs: seq<Value>)
    returns (ys: seq<Value>)
    requires FieldOk(fr) && FieldOk(fw) && OlderField(fr, fw)
    requires fw.ltype.Packable? && |xs| + |items| <= fw.arraySize
    requires forall k :: 0 <= k < |items| ==> ValueOk(fw, items[k])
    requires EncItems(fw, items).Some? && |EncItems(fw, items).value| < TWO_TO_THE_32
    ensures SameItems(fr, ys, fw, items)
    ensures DecItems(fr, EncItems(fw, items).value, xs) == Some(xs + ys)
    ensures items != [] ==> EncItems(fw, items).value != []
    decreases fr, 2, |items|
  {
    hide FrameLen, DecValue, EncValue, ValueOk, SameValue;
    if items == [] {
      ys := [];
      assert xs + ys == xs;
    } else {
      var p, rest := EncValue(fw, items[0]).value, EncItems(fw, items[1..]).value;
      ValueFramed(fw, items[0]);
      FramedAppend(ItemFraming(fr.ltype), p, rest);
      var x := ValueArrives(fr, fw, items[0], Garbage, false);
      DecItemsStep(fr, p, rest, xs, x);
      var more := PackedItemsArrive(fr, fw, items[1..], xs + [x]);
      ys := [x] + more;
      assert xs + [x] + more == xs + ys;
      SameItemsCons(fr, x, more, fw, items);
    }
  }

  /** A reader without the field skips the records of an array. */
  lemma {:induction false} RecordsSkipped(r: Desc, fw: Field, items: seq<Value>, st: State, t: bytes)
    requires FieldOk(fw) && Find(r, fw.tag).None?
    requires EncRecords(fw, items).Some? && |EncRecords(fw, items).value| < TWO_TO_THE_32
    ensures Loop(r, EncRecords(fw, items).value + t, st) == Loop(r, t, st)
    decreases |items|
  {
    hide Loop;
    if items == [] {
      assert [] + t == t;
    } else {
      var h, p, rest := RecordsSplit(fw, items);
      SkipSame(fw.ltype);
      LoopRecord(r, h, fw.tag, WireType(fw.ltype), p, rest + t, st);
      assert h + p + rest + t == h + p + (rest + t);
      RecordsSkipped(r, fw, items[1..], st, t);
    }
  }

  lemma {:induction false} ArraySkipped(r: Desc, fw: Field, items: seq<Value>, st: State, t: bytes)
    requires FieldOk(fw) && Find(r, fw.tag).None?
    requires EncArray(fw, items).Some? && |EncArray(fw, items).value| < TWO_TO_THE_32
    ensures Loop(r, EncArray(fw, items).value + t, st) == Loop(r, t, st)
  {
    if items == [] {
      assert [] + t == t;
    } else if fw.ltype.Packable? {
      var b := EncItems(fw, items).value;
      TagRoundTrip(fw.tag, WT_STRING);
      DelimitedParts(b);
      LoopRecord(r, TagBytes(fw.tag, WT_STRING), fw.tag, WT_STRING, Delimited(b), t, st);
    } else {
      RecordsSkipped(r, fw, items, st, t);
    }
  }

  /** A non-empty array arrives, packed or not. */
  lemma {:induction false} ArrayArrives(r: Desc, j: nat, fw: Field, items: seq<Value>, st: State, t: bytes)
    returns (ys: seq<Value>)
    requires DescOk(r) && Ready(r, j, st) && FieldOk(fw) && OlderField(r.fields[j], fw)
    requires fw.ptr.Submsg? ==> DescOk(fw.ptr.d)
    requires items != [] && |items| <= fw.arraySize
    requires forall k :: 0 <= k < |items| ==> ValueOk(fw, items[k])
    requires EncArray(fw, items).Some? && |EncArray(fw, items).value| < TWO_TO_THE_32
    ensures |ys| == |items| && SameItems(r.fields[j], ys, fw, items)
    ensures Loop(r, EncArray(fw, items).value + t, st) == Loop(r, t, WithItems(r, j, st, ys))
    decreases r, 4
  {
    var fr := r.fields[j];
    assert FieldOk(fr);
    if fw.ltype.Packable? {
      var b := EncItems(fw, items).value;
      var h, p := TagBytes(fw.tag, WT_STRING), Delimited(b);
      TagRoundTrip(fw.tag, WT_STRING);
      DelimitedParts(b);
      FindUnique(r, j);
      ys := PackedItemsArrive(fr, fw, items, []);
      assert [] + ys == ys;
      ApplyExtends(r, j, st, WT_STRING, p, [], ys);
      LoopRecord(r, h, fw.tag, WT_STRING, p, t, st);
    } else {
      ys := ItemRecordsArrive(r, j, fw, items, st, [], t);
      assert [] + ys == ys;
    }
  }

  // ---- fields and messages ----

  lemma {:induction false} RepeatedArrives(r: Desc, w: Desc, i: nat, m: Cells, st: State, z: bool, t: bytes)
    returns (st': State)
    requires Setting(r, w, m) && i < |w.fields| && Progressed(r, w, i, m, st, z)
    requires w.fields[i].at in m && CellOk(w.fields[i], m[w.fields[i].at])
    requires w.fields[i].htype.Repeated?
    requires EncArray(w.fields[i], m[w.fields[i].at].items).Some?
    requires |EncArray(w.fields[i], m[w.fields[i].at].items).value| < TWO_TO_THE_32
    ensures Loop(r, EncArray(w.fields[i], m[w.fields[i].at].items).value + t, st) == Loop(r, t, st')
    ensures Progressed(r, w, i + 1, m, st', z)
    decreases r, 5
  {
    var fw := w.fields[i];
    var items := m[fw.at].items;
    assert FieldOk(fw) && CellOk(fw, m[fw.at]);
    if Find(r, fw.tag).None? {
      AdvanceUnknown(r, w, i, m, st, z);
      ArraySkipped(r, fw, items, st, t);
      st' := st;
    } else {
      var j := Find(r, fw.tag).value;
      var fr := r.fields[j];
      assert FieldOk(fr);
      FindUnique(w, i);
      assert FieldState(r, w, i, m, st, z, j) && OlderField(fr, fw);
      if items == [] {
        assert [] + t == t;
        Advance(r, w, i, j, m, st, z, st.cells[fr.at], st.seen, st.fixed);
        assert st.cells[fr.at := st.cells[fr.at]] == st.cells;
        st' := st;
      } else {
        var ys := ArrayArrives(r, j, fw, items, st, t);
        st' := WithItems(r, j, st, ys);
        if IsFixedCount(fr) {
          assert ys + st.cells[fr.at].items[|ys|..] == ys;
        }
        Advance(r, w, i, j, m, st, z, st'.cells[fr.at], st.seen, st'.fixed);
      }
    }
  }

  /** A field that writes nothing. */
  lemma {:induction false} AbsentArrives(r: Desc, w: Desc, i: nat, m: Cells, st: State, z: bool)
    requires Setting(r, w, m) && i < |w.fields| && Progressed(r, w, i, m, st, z)
    requires w.fields[i].at in m && CellOk(w.fields[i], m[w.fields[i].at])
    requires !w.fields[i].htype.Repeated? && !w.fields[i].htype.Required?
    requires w.fields[i].htype.Oneof? ==> m[w.fields[i].at].which != w.fields[i].tag
    requires w.fields[i].htype.Optional? ==> IsDefault(w.fields[i], m[w.fields[i].at])
    ensures Progressed(r, w, i + 1, m, st, z)
  {
    var fw := w.fields[i];
    assert FieldOk(fw) && CellOk(fw, m[fw.at]);
    if Find(r, fw.tag).None? {
      AdvanceUnknown(r, w, i, m, st, z);
    } else {
      var j := Find(r, fw.tag).value;
      var fr := r.fields[j];
      assert FieldOk(fr);
      FindUnique(w, i);
      assert FieldState(r, w, i, m, st, z, j) && OlderField(fr, fw);
      if IsSingular(fr) {
        DefaultValueSame(fr, fw, m[fw.at].v, z);
      }
      Advance(r, w, i, j, m, st, z, st.cells[fr.at], st.seen, st.fixed);
      assert st.cells[fr.at := st.cells[fr.at]] == st.cells;
    }
  }

  lemma {:induction false} FieldArrives(r: Desc, w: Desc, i: nat, m: Cells, st: State, z: bool, t: bytes)
    returns (st': State)
    requires Setting(r, w, m) && i < |w.fields| && Progressed(r, w, i, m, st, z)
    requires w.fields[i].at in m && EncField(w.fields[i], m[w.fields[i].at]).Some?
    requires |EncField(w.fields[i], m[w.fields[i].at]).value| < TWO_TO_THE_32
    ensures Loop(r, EncField(w.fields[i], m[w.fields[i].at]).value + t, st) == Loop(r, t, st')
    ensures Progressed(r, w, i + 1, m, st', z)
    decreases r, 6
  {
    var fw := w.fields[i];
    var c := m[fw.at];
    assert FieldOk(fw) && CellOk(fw, c);
    if fw.htype.Repeated? {
      st' := RepeatedArrives(r, w, i, m, st, z, t);
    } else if EncField(fw, c) == EncRecord(fw, c.v) && !(fw.htype.Oneof? && c.which != fw.tag)
              && !(c.Flagged? && !c.has) {
      st' := RecordArrives(r, w, i, m, st, z, t);
    } else {
      AbsentArrives(r, w, i, m, st, z);
      assert [] + t == t;
      st' := st;
    }
  }

  lemma {:induction false} FieldsArrive(r: Desc, w: Desc, i: nat, m: Cells, st: State, z: bool, t: bytes)
    returns (st': State)
    requires Setting(r, w, m) && i <= |w.fields| && Progressed(r, w, i, m, st, z)
    requires EncFrom(w, i, m).Some? && |EncFrom(w, i, m).value| < TWO_TO_THE_32
    ensures Loop(r, EncFrom(w, i, m).value + t, st) == Loop(r, t, st')
    ensures Progressed(r, w, |w.fields|, m, st', z)
    decreases r, 7, |w.fields| - i
  {
    if i == |w.fields| {
      assert [] + t == t;
      st' := st;
    } else {
      var e, rest := EncField(w.fields[i], m[w.fields[i].at]).value, EncFrom(w, i + 1, m).value;
      assert e + rest + t == e + (rest + t);
      var next := FieldArrives(r, w, i, m, st, z, rest + t);
      st' := FieldsArrive(r, w, i + 1, m, next, z, t);
    }
  }

  /** All required fields have been seen when all fields have arrived. */
  lemma {:induction false} RequiredArrived(r: Desc, n: nat, seen: set<nat>)
    requires forall j :: 0 <= j < |r.fields| ==> Marks(r, j) <= seen
    requires n <= CheckedFields(r)
    ensures SeenBelow(n, seen)
  {
    if n > 0 {
      RequiredArrived(r, n - 1, seen);
      var j := RequiredAt(r.fields, |r.fields|, n - 1);
      assert Marks(r, j) == {n - 1};
    }
  }

  /** Before anything has arrived, every field is as initialisation left it. */
  lemma NothingArrived(r: Desc, w: Desc, m: Cells, z: bool)
    requires Setting(r, w, m)
    ensures Progressed(r, w, 0, m, Start(Initial(r, z)), z)
  {
    hide MsgOk, LaidOut, OlderField, InitialValue, InitialItems, SameCell;
    var st := Start(Initial(r, z));
    DescFacts(r);
    InitialHolds(r, z);
    forall j | 0 <= j < |r.fields| ensures FieldState(r, w, 0, m, st, z, j) {
      FieldsPresent(r, w, m, j);
    }
  }

  lemma FieldsPresent(r: Desc, w: Desc, m: Cells, j: nat)
    requires Older(r, w) && MsgOk(w, m) && j < |r.fields|
    ensures Find(w, r.fields[j].tag).Some? && Counterpart(w, r.fields[j]).at in m
  {
  }

  /** Once all fields have arrived, the message is there and nothing required is missing. */
  lemma AllArrived(r: Desc, w: Desc, m: Cells, st: State, z: bool)
    requires Setting(r, w, m) && Progressed(r, w, |w.fields|, m, st, z)
    ensures Same(r, st.cells, w, m) && ArrayDone(r, st.fixed) && SeenBelow(CheckedFields(r), st.seen)
  {
    hide MsgOk, DescOk, OlderField, SameCell, Marks, SeenBelow, CheckedFields;
    forall j | 0 <= j < |r.fields|
      ensures Marks(r, j) <= st.seen
      ensures r.fields[j].at in st.cells && Counterpart(w, r.fields[j]).at in m
      ensures SameCell(r.fields[j], st.cells[r.fields[j].at],
                       Counterpart(w, r.fields[j]), m[Counterpart(w, r.fields[j]).at])
    {
      FieldsPresent(r, w, m, j);
      assert FieldState(r, w, |w.fields|, m, st, z, j);
    }
    RequiredArrived(r, CheckedFields(r), st.seen);
  }

  /** A whole message, with `t` behind it, read into freshly initialised storage. */
  lemma {:induction false} MessageArrives(r: Desc, w: Desc, m: Cells, z: bool, t: bytes) returns (st': State)
    requires Setting(r, w, m)
    requires EncFrom(w, 0, m).Some? && |EncFrom(w, 0, m).value| < TWO_TO_THE_32
    ensures Loop(r, EncFrom(w, 0, m).value + t, Start(Initial(r, z))) == Loop(r, t, st')
    ensures Same(r, st'.cells, w, m)
    ensures ArrayDone(r, st'.fixed) && SeenBelow(CheckedFields(r), st'.seen)
    decreases r, 8
  {
    hide Setting, Progressed, Loop, EncFrom, Same, Initial, ArrayDone, SeenBelow, CheckedFields;
    NothingArrived(r, w, m, z);
    st' := FieldsArrive(r, w, 0, m, Start(Initial(r, z)), z, t);
    AllArrived(r, w, m, st', z);
  }

  // ---- main results ----

  /**
   * Forward compatibility: a valid message encoded under `w` decodes under any older
   * version `r`, consuming everything, to the same message restricted to the fields of `r`.
   */
  lemma ForwardCompatible(r: Desc, w: Desc, m: Cells)
    requires Older(r, w) && DescOk(r) && DescOk(w) && MsgOk(w, m)
    requires EncMessage(w, m).Some? ==> |EncMessage(w, m).value| < TWO_TO_THE_32
    ensures EncMessage(w, m).Some?
    ensures var o := Dec(r, EncMessage(w, m).value);
            o.Some? && o.value.rest == [] && !o.value.zeroTag && Same(r, o.value.st.cells, w, m)
  {
    hide Loop, EncFrom, Same, MsgOk, DescOk, Older, InitialFrom;
    FieldsEncode(w, 0, m);
    var b := EncMessage(w, m).value;
    var st := MessageArrives(r, w, m, false, []);
    assert b + [] == b;
    LoopEmpty(r, st);
  }

  /**
   * Round trip: every valid message is encoded; decoding the bytes consumes them all and
   * gives the same message, which encodes to the same bytes again.
   */
  lemma WholeMessage(d: Desc, m: Cells)
    requires DescOk(d) && MsgOk(d, m)
    requires EncMessage(d, m).Some? ==> |EncMessage(d, m).value| < TWO_TO_THE_32
    ensures EncMessage(d, m).Some?
    ensures var o := Dec(d, EncMessage(d, m).value);
            && o.Some? && o.value.rest == [] && !o.value.zeroTag
            && Same(d, o.value.st.cells, d, m)
            && EncMessage(d, o.value.st.cells) == EncMessage(d, m)
  {
    OlderReflexive(d);
    ForwardCompatible(d, d, m);
    SameFieldsEncode(d, 0, Dec(d, EncMessage(d, m).value).value.st.cells, m);
  }
}
