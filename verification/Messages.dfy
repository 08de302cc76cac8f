/** Valid messages, when two structs hold the same message, and older descriptor versions. */
module Messages {
  import opened Common
  import opened Scalars
  import opened Descriptor
  import opened EncodeSpec

  // ---- valid messages ----

  /** A value the field's type can hold. Strings are terminated inside their array. */
  ghost predicate ValueOk(f: Field, v: Value)
    decreases f, 0
  {
    match f.ltype
    case Packable(sc) => v.Int? && InRange(sc, f.dataSize, v.n)
    case LBytes => v.Blob? && |v.b| <= PB_SIZE_MAX && |v.b| + BYTES_OFFSET <= f.dataSize
    case LString => v.Blob? && |v.b| <= f.dataSize && |CString(v.b)| < f.dataSize
    case LFixedLengthBytes => v.Blob? && |v.b| == f.dataSize
    case LSubmessage => v.Sub? && f.ptr.Submsg? && MsgOk(f.ptr.d, v.cells)
  }

  ghost predicate CellOk(f: Field, c: Cell)
    decreases f, 1
  {
    && Fits(f, c)
    && match f.htype
       case Required => ValueOk(f, c.v)
       case Optional => f.sizeOffset == 0 || c.has ==> ValueOk(f, c.v)
       case Repeated =>
         |c.items| <= f.arraySize && forall k :: 0 <= k < |c.items| ==> ValueOk(f, c.items[k])
       case Oneof => c.which == f.tag ==> ValueOk(f, c.v)
  }

  ghost predicate MsgOk(d: Desc, m: Cells)
    decreases d
  {
    forall i :: 0 <= i < |d.fields| ==>
      && d.fields[i].at in m
      && CellOk(d.fields[i], m[d.fields[i].at])
      && (d.fields[i].htype.Oneof? ==> WhichOk(d, d.fields[i].at, m[d.fields[i].at].which))
  }

  /** A which_ member is zero or the tag of a member of its union. */
  ghost predicate WhichOk(d: Desc, at: nat, which: nat) {
    which == 0 || exists i :: 0 <= i < |d.fields| && d.fields[i].at == at && d.fields[i].tag == which
  }

  // ---- descriptor versions ----

  /** The field of `w` that has the tag of `f`. */
  function Counterpart(w: Desc, f: Field): Field
    requires Find(w, f.tag).Some?
  {
    w.fields[Find(w, f.tag).value]
  }

  /** The same field, possibly at another offset and with an older submessage type. */
  ghost predicate OlderField(fr: Field, fw: Field)
    decreases fr, 0
  {
    && fr.tag == fw.tag && fr.ltype == fw.ltype && fr.htype == fw.htype
    && fr.dataSize == fw.dataSize && fr.arraySize == fw.arraySize
    && (fr.sizeOffset == 0 <==> fw.sizeOffset == 0)
    && (fr.ltype.LSubmessage? ==>
          fr.ptr.Submsg? && fw.ptr.Submsg? && Older(fr.ptr.d, fw.ptr.d))
  }

  /**
   * `r` is `w` with any fields or oneof members deleted, at any depth; the fields that
   * are left may be laid out anew, but members of one union stay members of one union.
   */
  ghost predicate Older(r: Desc, w: Desc)
    decreases r
  {
    && (forall j :: 0 <= j < |r.fields| ==>
          Find(w, r.fields[j].tag).Some? && OlderField(r.fields[j], Counterpart(w, r.fields[j])))
    && (forall i, j :: 0 <= i < |r.fields| && 0 <= j < |r.fields| && r.fields[i].at == r.fields[j].at ==>
          Counterpart(w, r.fields[i]).at == Counterpart(w, r.fields[j]).at)
  }

  lemma {:induction false} OlderReflexive(d: Desc)
    requires DescOk(d)
    ensures Older(d, d)
    decreases d
  {
    forall j | 0 <= j < |d.fields|
      ensures Find(d, d.fields[j].tag) == Some(j) && OlderField(d.fields[j], d.fields[j])
    {
      FindUnique(d, j);
      if d.fields[j].ptr.Submsg? {
        OlderReflexive(d.fields[j].ptr.d);
      }
    }
  }

  // ---- equal messages ----

  ghost predicate SameValue(fr: Field, x: Value, fw: Field, y: Value)
    decreases fr, 0
  {
    match fr.ltype
    case Packable(_) => x.Int? && x == y
    case LString =>
      x.Blob? && y.Blob? && StringContent(x.b, fr.dataSize) == StringContent(y.b, fw.dataSize)
    case LSubmessage =>
      x.Sub? && y.Sub? && fr.ptr.Submsg? && fw.ptr.Submsg? && Same(fr.ptr.d, x.cells, fw.ptr.d, y.cells)
    case _ => x.Blob? && x == y
  }

  ghost predicate SameItems(fr: Field, xs: seq<Value>, fw: Field, ys: seq<Value>)
    decreases fr, 1
  {
    |xs| == |ys| && forall k :: 0 <= k < |xs| ==> SameValue(fr, xs[k], fw, ys[k])
  }

  /**
   * Equal as far as the message is concerned: an unset optional field, the inactive
   * content of a union and what follows a string's terminator do not matter.
   */
  ghost predicate SameCell(fr: Field, x: Cell, fw: Field, y: Cell)
    decreases fr, 2
  {
    && fr.htype == fw.htype && Fits(fr, x) && Fits(fw, y)
    && match fr.htype
       case Required => SameValue(fr, x.v, fw, y.v)
       case Optional =>
         if x.Flagged? && y.Flagged? then x.has == y.has && (x.has ==> SameValue(fr, x.v, fw, y.v))
         else SameValue(fr, x.v, fw, y.v)
       case Repeated => SameItems(fr, x.items, fw, y.items)
       case Oneof =>
         && (x.which == fr.tag <==> y.which == fw.tag)
         && (x.which == fr.tag ==> SameValue(fr, x.v, fw, y.v))
         && (x.which == 0 || x.which == y.which)
  }

  /** `x` under descriptor `r` holds what `y` under `w` holds in the fields of `r`. */
  ghost predicate Same(r: Desc, x: Cells, w: Desc, y: Cells)
    decreases r
  {
    forall j :: 0 <= j < |r.fields| ==>
      && Find(w, r.fields[j].tag).Some?
      && r.fields[j].at in x && Counterpart(w, r.fields[j]).at in y
      && SameCell(r.fields[j], x[r.fields[j].at],
                  Counterpart(w, r.fields[j]), y[Counterpart(w, r.fields[j]).at])
  }

  // ---- encoding is total on valid messages, and a function of the message ----

  lemma {:induction false} ValueEncodes(f: Field, v: Value)
    requires ValueOk(f, v)
    ensures EncValue(f, v).Some?
    decreases f, 0
  {
    match f.ltype
    case Packable(sc) => ScalarRoundTrip(sc, f.dataSize, v.n);
    case LSubmessage => FieldsEncode(f.ptr.d, 0, v.cells);
    case _ =>
  }

  lemma {:induction false} ItemsEncode(f: Field, items: seq<Value>)
    requires forall k :: 0 <= k < |items| ==> ValueOk(f, items[k])
    ensures EncItems(f, items).Some? && EncRecords(f, items).Some?
    decreases f, 1, |items|
  {
    if items != [] {
      ValueEncodes(f, items[0]);
      ItemsEncode(f, items[1..]);
    }
  }

  lemma {:induction false} CellEncodes(f: Field, c: Cell)
    requires CellOk(f, c)
    ensures EncField(f, c).Some?
    decreases f, 2
  {
    if f.htype.Repeated? {
      ItemsEncode(f, c.items);
    } else if ValueOk(f, c.v) {
      ValueEncodes(f, c.v);
    }
  }

  lemma {:induction false} FieldsEncode(d: Desc, i: nat, m: Cells)
    requires MsgOk(d, m) && i <= |d.fields|
    ensures EncFrom(d, i, m).Some?
    decreases d, |d.fields| - i
  {
    if i < |d.fields| {
      CellEncodes(d.fields[i], m[d.fields[i].at]);
      FieldsEncode(d, i + 1, m);
    }
  }

  // The second message must be valid: a which_ member with a foreign tag makes a proto3
  // submessage non-default without putting anything into its encoding.

  /** Equal values have equal encodings. */
  lemma {:induction false} SameValueEncodes(f: Field, x: Value, y: Value)
    requires FieldOk(f) && (f.ptr.Submsg? ==> DescOk(f.ptr.d))
    requires SameValue(f, x, f, y) && ValueOk(f, y)
    ensures EncValue(f, x) == EncValue(f, y)
    ensures IsDefaultValue(f, x) == IsDefaultValue(f, y)
    decreases f, 0
  {
    if f.ltype.LSubmessage? {
      SameFieldsEncode(f.ptr.d, 0, x.cells, y.cells);
    } else if f.ltype.LString? {
      assert StringContent(x.b, f.dataSize) == [] <==> IsDefaultValue(f, x);
      assert StringContent(y.b, f.dataSize) == [] <==> IsDefaultValue(f, y);
    }
  }

  lemma {:induction false} SameItemsEncode(f: Field, xs: seq<Value>, ys: seq<Value>)
    requires FieldOk(f) && (f.ptr.Submsg? ==> DescOk(f.ptr.d))
    requires SameItems(f, xs, f, ys) && forall k :: 0 <= k < |ys| ==> ValueOk(f, ys[k])
    ensures EncItems(f, xs) == EncItems(f, ys) && EncRecords(f, xs) == EncRecords(f, ys)
    decreases f, 1, |xs|
  {
    if xs != [] {
      SameValueEncodes(f, xs[0], ys[0]);
      SameItemsEncode(f, xs[1..], ys[1..]);
    }
  }

  lemma {:induction false} SameCellEncodes(f: Field, x: Cell, y: Cell)
    requires FieldOk(f) && (f.ptr.Submsg? ==> DescOk(f.ptr.d))
    requires SameCell(f, x, f, y) && CellOk(f, y)
    ensures EncField(f, x) == EncField(f, y)
    ensures !f.htype.Oneof? ==> IsDefault(f, x) == IsDefault(f, y)
    decreases f, 2
  {
    if f.htype.Repeated? {
      SameItemsEncode(f, x.items, y.items);
    } else if SameValue(f, x.v, f, y.v) && ValueOk(f, y.v) {
      SameValueEncodes(f, x.v, y.v);
    }
  }

  /** Unions agree on being empty. */
  lemma SameWhich(d: Desc, i: nat, x: Cells, y: Cells)
    requires DescOk(d) && Same(d, x, d, y) && MsgOk(d, y)
    requires i < |d.fields| && d.fields[i].htype.Oneof?
    ensures d.fields[i].at in x && d.fields[i].at in y
    ensures IsDefault(d.fields[i], x[d.fields[i].at]) == IsDefault(d.fields[i], y[d.fields[i].at])
  {
    var f := d.fields[i];
    FindUnique(d, i);
    var b := y[f.at];
    assert SameCell(f, x[f.at], f, b);
    if b.which != 0 {
      assert WhichOk(d, f.at, b.which);
      var k :| 0 <= k < |d.fields| && d.fields[k].at == f.at && d.fields[k].tag == b.which;
      FindUnique(d, k);
      assert SameCell(d.fields[k], x[f.at], d.fields[k], b);
      assert FieldOk(d.fields[k]);
      OffsetsAscend(d.fields, if i <= k then i else k, if i <= k then k else i);
    }
  }

  lemma {:induction false} SameFieldsEncode(d: Desc, i: nat, x: Cells, y: Cells)
    requires DescOk(d) && Same(d, x, d, y) && MsgOk(d, y) && i <= |d.fields|
    ensures EncFrom(d, i, x) == EncFrom(d, i, y)
    ensures AllDefault(d, i, x) == AllDefault(d, i, y)
    decreases d, |d.fields| - i
  {
    if i < |d.fields| {
      var f := d.fields[i];
      FindUnique(d, i);
      assert FieldOk(f);
      SameCellEncodes(f, x[f.at], y[f.at]);
      if f.htype.Oneof? {
        SameWhich(d, i, x, y);
      }
      SameFieldsEncode(d, i + 1, x, y);
    }
  }
}
