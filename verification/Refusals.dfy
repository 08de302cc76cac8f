/** What the encoder refuses: exactly the structs whose own sizes say more than their members hold. */
module Refusals {
  import opened Descriptor
  import opened EncodeSpec
  import opened Encoder
  import opened RoundTrip

  /** Bytes must fit their array; everything else inside a value that can be read is fine. */
  ghost predicate ValueInside(f: Field, v: Value)
    decreases f, 0
  {
    match f.ltype
    case LBytes => v.Blob? && |v.b| + BYTES_OFFSET <= f.dataSize
    case LSubmessage => v.Sub? && f.ptr.Submsg? && SizesInside(f.ptr.d, v.cells)
    case _ => true
  }

  /** The members that are looked at, and counts no larger than the array. */
  ghost predicate CellInside(f: Field, c: Cell)
    decreases f, 1
  {
    match c
    case Single(v) => ValueInside(f, v)
    case Flagged(has, v) => has ==> ValueInside(f, v)
    case Counted(items) => |items| <= f.arraySize && forall k :: 0 <= k < |items| ==> ValueInside(f, items[k])
    case Fixed(items) => forall k :: 0 <= k < |items| ==> ValueInside(f, items[k])
    case Union(which, v) => which == f.tag ==> ValueInside(f, v)
  }

  ghost predicate SizesInside(d: Desc, m: Cells)
    decreases d
  {
    forall i :: 0 <= i < |d.fields| ==> d.fields[i].at in m && CellInside(d.fields[i], m[d.fields[i].at])
  }

  lemma {:induction false} ItemsEncode(f: Field, items: seq<Value>)
    ensures (forall k :: 0 <= k < |items| ==> EncValue(f, items[k]).Some?) <==> EncItems(f, items).Some?
    ensures (forall k :: 0 <= k < |items| ==> EncValue(f, items[k]).Some?) <==> EncRecords(f, items).Some?
    decreases |items|
  {
    hide EncValue;
    if items != [] {
      ItemsEncode(f, items[1..]);
      assert forall k :: 0 < k < |items| ==> items[k] == items[1..][k - 1];
      if forall k :: 0 <= k < |items[1..]| ==> EncValue(f, items[1..][k]).Some? {
        assert forall k :: 0 < k < |items| ==> EncValue(f, items[k]).Some?;
      } else {
        var k :| 0 <= k < |items[1..]| && EncValue(f, items[1..][k]).None?;
        assert items[k + 1] == items[1..][k];
      }
    }
  }

  lemma {:induction false} ValueEncodesExactly(f: Field, v: Value)
    requires FieldOk(f) && (f.ptr.Submsg? ==> DescOk(f.ptr.d)) && ValueReadable(f, v)
    ensures EncValue(f, v).Some? <==> ValueInside(f, v)
    ensures IsDefaultValue(f, v) ==> ValueInside(f, v)
    decreases f, 0
  {
    hide DescOk;
    if f.ltype.LSubmessage? {
      MessageEncodesExactly(f.ptr.d, v.cells);
      if AllDefault(f.ptr.d, 0, v.cells) {
        DefaultsInside(f.ptr.d, v.cells);
      }
    }
  }

  lemma {:induction false} CellEncodesExactly(f: Field, c: Cell)
    requires FieldOk(f) && (f.ptr.Submsg? ==> DescOk(f.ptr.d)) && CellReadable(f, c)
    ensures EncField(f, c).Some? <==> CellInside(f, c)
    ensures IsDefault(f, c) ==> CellInside(f, c)
    decreases f, 1
  {
    hide DescOk, EncValue, ValueReadable, ValueInside, IsDefaultValue;
    if f.htype.Repeated? {
      if |c.items| <= f.arraySize {
        ItemsEncode(f, c.items);
        forall k | 0 <= k < |c.items| ensures EncValue(f, c.items[k]).Some? <==> ValueInside(f, c.items[k]) {
          ValueEncodesExactly(f, c.items[k]);
        }
      }
    } else if ValueReadable(f, c.v) {
      ValueEncodesExactly(f, c.v);
    }
  }

  /** The fields that have an encoding, from field `i` on. */
  lemma {:induction false} FieldsEncodeExactly(d: Desc, i: nat, m: Cells)
    requires i <= |d.fields|
    ensures EncFrom(d, i, m).Some? <==>
              forall k :: i <= k < |d.fields| ==> d.fields[k].at in m && EncField(d.fields[k], m[d.fields[k].at]).Some?
    decreases |d.fields| - i
  {
    hide EncField;
    if i < |d.fields| {
      FieldsEncodeExactly(d, i + 1, m);
    }
  }

  /** What is not transmitted because it is a proto3 default is inside its member anyway. */
  lemma {:induction false} DefaultsInside(d: Desc, m: Cells)
    requires DescOk(d) && Readable(d, m) && AllDefault(d, 0, m)
    ensures SizesInside(d, m)
    decreases d
  {
    hide AllDefault, CellReadable, CellInside, LaidOut, IsDefault;
    DescFacts(d);
    forall i | 0 <= i < |d.fields| ensures d.fields[i].at in m && CellInside(d.fields[i], m[d.fields[i].at]) {
      AllDefaultAt(d, 0, m, i);
      CellEncodesExactly(d.fields[i], m[d.fields[i].at]);
    }
  }

  /**
   * A struct of values the encoder can read is encoded exactly when every bytes value fits its
   * array and every count is at most the array size, in all members that are transmitted, at
   * any depth.
   */
  lemma {:induction false} MessageEncodesExactly(d: Desc, m: Cells)
    requires DescOk(d) && Readable(d, m)
    ensures EncMessage(d, m).Some? <==> SizesInside(d, m)
    decreases d
  {
    hide EncField, EncFrom, CellReadable, CellInside, LaidOut, IsDefault;
    DescFacts(d);
    FieldsEncodeExactly(d, 0, m);
    forall i | 0 <= i < |d.fields|
      ensures EncField(d.fields[i], m[d.fields[i].at]).Some? <==> CellInside(d.fields[i], m[d.fields[i].at])
    {
      CellEncodesExactly(d.fields[i], m[d.fields[i].at]);
    }
  }
}
