/** A valid message through the encoder, a buffer and the decoder. */
module EndToEnd {
  import opened Common
  import opened Descriptor
  import opened EncodeSpec
  import opened DecodeSpec
  import opened Messages
  import opened RoundTrip
  import opened Encoder
  import opened OutputStream
  import opened InputStream
  import Decoder

  // ---- parts are no longer than the whole ----

  /** The encoding of an array entry is no longer than that of the array. */
  lemma {:induction false} ItemFits(f: Field, items: seq<Value>, k: nat)
    requires k < |items|
    ensures EncItems(f, items).Some? ==>
              EncValue(f, items[k]).Some? && |EncValue(f, items[k]).value| <= |EncItems(f, items).value|
    ensures EncRecords(f, items).Some? ==>
              EncValue(f, items[k]).Some? && |EncValue(f, items[k]).value| <= |EncRecords(f, items).value|
    decreases k
  {
    hide EncValue;
    assert EncRecord(f, items[0]).Some? ==>
        EncValue(f, items[0]).Some? && |EncValue(f, items[0]).value| <= |EncRecord(f, items[0]).value|;
    if k > 0 {
      assert items[1..][k - 1] == items[k];
      ItemFits(f, items[1..], k - 1);
    }
  }

  /** The encoding of a field is no longer than that of the message. */
  lemma {:induction false} FieldFits(d: Desc, i: nat, m: Cells, k: nat)
    requires i <= k < |d.fields| && EncFrom(d, i, m).Some?
    ensures d.fields[k].at in m && EncField(d.fields[k], m[d.fields[k].at]).Some?
    ensures |EncField(d.fields[k], m[d.fields[k].at]).value| <= |EncFrom(d, i, m).value|
    decreases k - i
  {
    hide EncField;
    if i < k {
      FieldFits(d, i + 1, m, k);
    }
  }

  // ---- valid messages can be encoded ----

  /** A message whose members are all proto3 defaults takes no bytes. */
  lemma {:induction false} DefaultsTakeNothing(d: Desc, i: nat, m: Cells)
    requires DescOk(d) && MsgOk(d, m) && i <= |d.fields| && AllDefault(d, i, m)
    ensures EncFrom(d, i, m) == Some([])
    decreases |d.fields| - i
  {
    if i < |d.fields| {
      var f := d.fields[i];
      var c := m[f.at];
      assert FieldOk(f) && CellOk(f, c);
      assert EncField(f, c) == Some([]);
      DefaultsTakeNothing(d, i + 1, m);
      NothingAfter([]);
    }
  }

  lemma {:induction false} DefaultReadable(f: Field, v: Value)
    requires FieldOk(f) && (f.ptr.Submsg? ==> DescOk(f.ptr.d)) && ValueOk(f, v) && IsDefaultValue(f, v)
    ensures ValueReadable(f, v)
    decreases f
  {
    if f.ltype.LSubmessage? {
      DefaultsReadable(f.ptr.d, v.cells);
      DefaultsTakeNothing(f.ptr.d, 0, v.cells);
    }
  }

  lemma {:induction false} DefaultsReadable(d: Desc, m: Cells)
    requires DescOk(d) && MsgOk(d, m) && AllDefault(d, 0, m)
    ensures Readable(d, m)
    decreases d
  {
    forall k | 0 <= k < |d.fields| ensures d.fields[k].at in m && CellReadable(d.fields[k], m[d.fields[k].at]) {
      var f := d.fields[k];
      assert FieldOk(f) && CellOk(f, m[f.at]);
      AllDefaultAt(d, 0, m, k);
      if IsSingular(f) {
        DefaultReadable(f, m[f.at].v);
      } else if f.htype.Repeated? {
        assert m[f.at].items == [] && EncItems(f, []) == Some([]);
      }
    }
  }

  lemma {:induction false} ValidValueReadable(f: Field, v: Value)
    requires FieldOk(f) && (f.ptr.Submsg? ==> DescOk(f.ptr.d))
    requires ValueOk(f, v) && EncValue(f, v).Some? && |EncValue(f, v).value| < TWO_TO_THE_32
    ensures ValueReadable(f, v)
    decreases f, 0
  {
    if f.ltype.LSubmessage? {
      ValidIsReadable(f.ptr.d, v.cells);
    }
  }

  lemma {:induction false} ValidItemsReadable(f: Field, items: seq<Value>)
    requires FieldOk(f) && (f.ptr.Submsg? ==> DescOk(f.ptr.d)) && |items| <= f.arraySize
    requires forall k :: 0 <= k < |items| ==> ValueOk(f, items[k])
    requires EncArray(f, items).Some? && |EncArray(f, items).value| < TWO_TO_THE_32
    ensures forall k :: 0 <= k < |items| ==> ValueReadable(f, items[k])
    ensures f.ltype.Packable? ==> Sized(EncItems(f, items))
    decreases f, 1
  {
    hide ValueOk, ValueReadable, EncValue, EncRecords;
    if items == [] {
      assert EncItems(f, items) == Some([]);
    } else {
      forall k | 0 <= k < |items| ensures ValueReadable(f, items[k]) {
        ItemFits(f, items, k);
        ValidValueReadable(f, items[k]);
      }
    }
  }

  lemma {:induction false} ValidCellReadable(f: Field, c: Cell)
    requires FieldOk(f) && (f.ptr.Submsg? ==> DescOk(f.ptr.d))
    requires CellOk(f, c) && EncField(f, c).Some? && |EncField(f, c).value| < TWO_TO_THE_32
    ensures CellReadable(f, c)
    decreases f, 2
  {
    hide ValueOk, ValueReadable, EncValue, EncArray, EncItems;
    if f.htype.Repeated? {
      ValidItemsReadable(f, c.items);
    } else if IsSingular(f) && IsDefault(f, c) {
      DefaultReadable(f, c.v);
    } else if (f.htype.Optional? && f.sizeOffset != 0 ==> c.has) && (f.htype.Oneof? ==> c.which == f.tag) {
      ValidValueReadable(f, c.v);
    }
  }

  /** Whatever is valid and not too long meets the encoder's precondition. */
  lemma {:induction false} ValidIsReadable(d: Desc, m: Cells)
    requires DescOk(d) && MsgOk(d, m) && EncMessage(d, m).Some? && |EncMessage(d, m).value| < TWO_TO_THE_32
    ensures Readable(d, m)
    decreases d
  {
    hide EncField, CellOk, CellReadable, EncFrom;
    forall k | 0 <= k < |d.fields| ensures d.fields[k].at in m && CellReadable(d.fields[k], m[d.fields[k].at]) {
      assert FieldOk(d.fields[k]);
      FieldFits(d, 0, m, k);
      ValidCellReadable(d.fields[k], m[d.fields[k].at]);
    }
  }

  // ---- encode, then decode ----

  /**
   * A valid message through a buffer of `bufsize` bytes: it arrives, with nothing left over,
   * exactly when it fits. pb_get_encoded_size tells the size that is enough.
   */
  method SendAndReceive(d: Desc, m: Cells, bufsize: nat) returns (ok: bool, m': Cells, left: nat)
    requires DescOk(d) && MsgOk(d, m)
    requires EncMessage(d, m).Some? ==> |EncMessage(d, m).value| < TWO_TO_THE_32
    ensures EncMessage(d, m).Some? && (ok <==> |EncMessage(d, m).value| <= bufsize)
    ensures ok ==> left == 0 && Same(d, m', d, m) && EncMessage(d, m') == EncMessage(d, m)
  {
    hide DescOk, MsgOk, Readable, EncMessage, Dec, Same;
    m', left := map[], 0;
    WholeMessage(d, m);
    ValidIsReadable(d, m);
    var buffer := new byte[bufsize](_ => 0);
    var output := new OStream.FromBuffer(buffer, bufsize);
    ok := Encode(output, d, m);
    if !ok {
      return;
    }
    assert buffer[..output.bytesWritten] == EncMessage(d, m).value;
    var input := new IStream.FromBuffer(buffer, output.bytesWritten);
    var dest := new Decoder.Struct(map[]);
    ok := Decoder.Decode(input, d, dest);
    m', left := dest.cells, input.bytesLeft;
  }
}
