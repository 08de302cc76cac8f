/** Which members of a valid message take no bytes at all. */
module Omission {
  import opened Common
  import opened Descriptor
  import opened EncodeSpec
  import opened Messages
  import EndToEnd

  /** The value of a proto3 member without a has_ member: is there nothing to transmit? */
  ghost predicate NothingToSend(f: Field, v: Value) {
    match f.ltype
    case Packable(_) => v == Int(0)
    case LBytes => v == Blob([])
    case LString => v.Blob? && CString(v.b) == []
    case LFixedLengthBytes => false
    case LSubmessage => v.Sub? && f.ptr.Submsg? && EncMessage(f.ptr.d, v.cells) == Some([])
  }

  /** The same for any member. */
  ghost predicate Omitted(f: Field, c: Cell) {
    match c
    case Single(v) => !f.htype.Required? && NothingToSend(f, v)
    case Flagged(has, _) => !has
    case Counted(items) => items == []
    case Fixed(_) => false
    case Union(which, _) => which != f.tag
  }

  lemma RecordNotEmpty(f: Field, v: Value)
    ensures EncRecord(f, v) != Some([])
  {
    hide EncValue;
    assert TagBytes(f.tag, WireType(f.ltype)) != [];
  }

  lemma ArrayNotEmpty(f: Field, items: seq<Value>)
    requires items != []
    ensures EncArray(f, items) != Some([])
  {
    hide EncItems, EncRecord;
    RecordNotEmpty(f, items[0]);
    assert TagBytes(f.tag, WT_STRING) != [];
  }

  /** The recursive check finds what has nothing to transmit. */
  lemma {:induction false} DefaultExactly(f: Field, v: Value)
    requires FieldOk(f) && (f.ptr.Submsg? ==> DescOk(f.ptr.d)) && ValueOk(f, v)
    ensures IsDefaultValue(f, v) <==> NothingToSend(f, v)
    decreases f, 0
  {
    hide DescOk, EncFrom, AllDefault;
    if f.ltype.LSubmessage? {
      if EncMessage(f.ptr.d, v.cells) == Some([]) {
        EmptyIsDefault(f.ptr.d, v.cells);
      }
      if AllDefault(f.ptr.d, 0, v.cells) {
        EndToEnd.DefaultsTakeNothing(f.ptr.d, 0, v.cells);
      }
    }
  }

  /** A member takes no bytes exactly when it is one of those. */
  lemma {:induction false} OmittedExactly(f: Field, c: Cell)
    requires FieldOk(f) && (f.ptr.Submsg? ==> DescOk(f.ptr.d)) && CellOk(f, c)
    ensures EncField(f, c) == Some([]) <==> Omitted(f, c)
    decreases f, 1
  {
    hide DescOk, EncRecord, EncItems, EncRecords, NothingToSend, IsDefaultValue, ValueOk;
    if f.htype.Repeated? {
      if c.items != [] {
        ArrayNotEmpty(f, c.items);
      }
    } else {
      RecordNotEmpty(f, c.v);
      if IsSingular(f) {
        DefaultExactly(f, c.v);
      }
    }
  }

  lemma {:induction false} EmptyParts(d: Desc, i: nat, m: Cells, k: nat)
    requires i <= k < |d.fields| && EncFrom(d, i, m) == Some([])
    ensures d.fields[k].at in m && EncField(d.fields[k], m[d.fields[k].at]) == Some([])
    decreases k - i
  {
    hide EncField;
    if i < k {
      EmptyParts(d, i + 1, m, k);
    }
  }

  /** A oneof that takes no bytes has no member set. */
  lemma UnionUnset(d: Desc, m: Cells, i: nat)
    requires DescOk(d) && MsgOk(d, m) && EncFrom(d, 0, m) == Some([]) && i < |d.fields| && d.fields[i].htype.Oneof?
    ensures m[d.fields[i].at].Union? && m[d.fields[i].at].which == 0
  {
    hide EncFrom, EncRecord, LaidOut, ValueOk;
    DescFacts(d);
    var c := m[d.fields[i].at];
    assert WhichOk(d, d.fields[i].at, c.which) && CellOk(d.fields[i], c);
    if c.which != 0 {
      var k :| 0 <= k < |d.fields| && d.fields[k].at == d.fields[i].at && d.fields[k].tag == c.which;
      OffsetsAscend(d.fields, if i <= k then i else k, if i <= k then k else i);
      EmptyParts(d, 0, m, k);
      RecordNotEmpty(d.fields[k], c.v);
    }
  }

  lemma {:induction false} EmptyIsDefault(d: Desc, m: Cells)
    requires DescOk(d) && MsgOk(d, m) && EncFrom(d, 0, m) == Some([])
    ensures AllDefault(d, 0, m)
    decreases d
  {
    hide EncFrom, EncField, AllDefault, CellOk, Omitted;
    DescFacts(d);
    forall i | 0 <= i < |d.fields| ensures d.fields[i].at in m && IsDefault(d.fields[i], m[d.fields[i].at]) {
      var f := d.fields[i];
      EmptyParts(d, 0, m, i);
      OmittedExactly(f, m[f.at]);
      if f.htype.Oneof? {
        UnionUnset(d, m, i);
      }
      OmittedIsDefault(f, m[f.at]);
    }
    AllOfThem(d, 0, m);
  }

  lemma {:induction false} OmittedIsDefault(f: Field, c: Cell)
    requires FieldOk(f) && (f.ptr.Submsg? ==> DescOk(f.ptr.d)) && CellOk(f, c) && Omitted(f, c)
    requires f.htype.Oneof? ==> c.Union? && c.which == 0
    ensures IsDefault(f, c)
    decreases f, 1
  {
    hide DescOk, NothingToSend, IsDefaultValue, ValueOk;
    if IsSingular(f) {
      DefaultExactly(f, c.v);
    }
  }

  lemma {:induction false} AllOfThem(d: Desc, i: nat, m: Cells)
    requires i <= |d.fields|
    requires forall k :: 0 <= k < |d.fields| ==> d.fields[k].at in m && IsDefault(d.fields[k], m[d.fields[k].at])
    ensures AllDefault(d, i, m)
    decreases |d.fields| - i
  {
    hide IsDefault;
    if i < |d.fields| {
      AllOfThem(d, i + 1, m);
    }
  }

  /**
   * A proto3 member is left out exactly when its number is zero, its bytes or string are
   * empty, or its submessage has no bytes. Bytes of fixed length are never left out.
   */
  lemma SingularOmitted(f: Field, v: Value)
    requires IsSingular(f) && FieldOk(f) && (f.ptr.Submsg? ==> DescOk(f.ptr.d)) && ValueOk(f, v)
    ensures EncField(f, Single(v)) == Some([]) <==>
              match f.ltype
              case Packable(_) => v.n == 0
              case LBytes => |v.b| == 0
              case LString => v.b == [] || v.b[0] == 0
              case LFixedLengthBytes => false
              case LSubmessage => EncFrom(f.ptr.d, 0, v.cells) == Some([])
  {
    hide DescOk, EncField, EncFrom, LaidOut;
    OmittedExactly(f, Single(v));
    if f.ltype.LString? {
      assert v.b != [] && v.b[0] != 0 ==> CString(v.b)[0] == v.b[0];
    }
  }

  /** A message takes no bytes exactly when all its members are left out. */
  lemma EmptyMessage(d: Desc, m: Cells)
    requires DescOk(d) && MsgOk(d, m)
    ensures EncMessage(d, m) == Some([]) <==>
              forall i :: 0 <= i < |d.fields| ==> Omitted(d.fields[i], m[d.fields[i].at])
  {
    hide EncField, CellOk, Omitted, LaidOut;
    DescFacts(d);
    forall i | 0 <= i < |d.fields|
      ensures EncField(d.fields[i], m[d.fields[i].at]) == Some([]) <==> Omitted(d.fields[i], m[d.fields[i].at])
    {
      OmittedExactly(d.fields[i], m[d.fields[i].at]);
    }
    if EncMessage(d, m) == Some([]) {
      forall i | 0 <= i < |d.fields| ensures Omitted(d.fields[i], m[d.fields[i].at]) {
        EmptyParts(d, 0, m, i);
      }
    }
    if forall i :: 0 <= i < |d.fields| ==> Omitted(d.fields[i], m[d.fields[i].at]) {
      NothingAtAll(d, 0, m);
    }
  }

  lemma {:induction false} NothingAtAll(d: Desc, i: nat, m: Cells)
    requires i <= |d.fields|
    requires forall k :: 0 <= k < |d.fields| ==>
               d.fields[k].at in m && EncField(d.fields[k], m[d.fields[k].at]) == Some([])
    ensures EncFrom(d, i, m) == Some([])
    decreases |d.fields| - i
  {
    hide EncField;
    if i < |d.fields| {
      NothingAtAll(d, i + 1, m);
      var nothing: bytes := [];
      assert nothing + nothing == nothing;
    }
  }
}
