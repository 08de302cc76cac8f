/**
 * What a struct holds after decoding, for every input and at every depth: each member is its
 * default, or what its records say.
 */
module StructContents {
  import opened Common
  import opened Descriptor
  import opened DecodeSpec
  import opened RequiredCheck
  import opened Validity

  // ---- storage whose first bytes are zero ----

  /** Of a value whose first `z` bytes are zero, whatever these bytes settle is zero. */
  ghost predicate Zeroed(f: Field, v: Value, z: int)
    decreases f, 0
  {
    if f.ltype.LSubmessage? then
      f.ptr.Submsg? && v.Sub? && forall i :: 0 <= i < |f.ptr.d.fields| ==> ZeroedMember(f.ptr.d.fields[i], v.cells, z)
    else Settled(f, z) ==> HoldsZero(f, v)
  }

  /** Nothing is set in a struct whose first `z` bytes are zero. */
  ghost predicate ZeroedMember(f: Field, cells: Cells, z: int)
    decreases f, 1
  {
    && (SettledMember(f, z) ==> f.at in cells)
    && (f.at in cells ==>
          var c := cells[f.at];
          Fits(f, c) &&
          match f.htype
          case Required => Zeroed(f, c.v, z - f.at)
          case Optional => Zeroed(f, c.v, z - f.at) && (c.Flagged? ==> !c.has)
          case Repeated =>
            if f.sizeOffset != 0 then c.items == []
            else forall k :: 0 <= k < |c.items| ==> Zeroed(f, c.items[k], z - f.at - k * f.dataSize)
          case Oneof => c.which == 0)
  }

  lemma {:induction false} ClearedIsZeroed(f: Field, z: int)
    requires FieldOk(f) && (f.ptr.Submsg? ==> DescOk(f.ptr.d))
    ensures Zeroed(f, Cleared(f, z), z)
    decreases f, 0
  {
    if f.ltype.LSubmessage? {
      var d := f.ptr.d;
      var cells := ClearedFrom(d, z, 0, map[]);
      DescFacts(d);
      forall i | 0 <= i < |d.fields| ensures ZeroedMember(d.fields[i], cells, z) {
        ClearedAt(d, z, 0, map[], i);
        ClearedMemberZeroed(d.fields[i], cells, z);
      }
    }
  }

  lemma {:induction false} ClearedMemberZeroed(f: Field, cells: Cells, z: int)
    requires FieldOk(f) && (f.ptr.Submsg? ==> DescOk(f.ptr.d)) && ClearedAs(cells, f, z)
    ensures ZeroedMember(f, cells, z)
    decreases f, 1
  {
    hide Zeroed, Cleared, Settled, SettledArray;
    if f.htype.Required? || f.htype.Optional? {
      ClearedIsZeroed(f, z - f.at);
    } else if IsFixedCount(f) {
      forall k | 0 <= k < f.arraySize ensures Zeroed(f, ClearedItems(f, z - f.at)[k], z - f.at - k * f.dataSize) {
        ClearedItemAt(f, z - f.at, f.arraySize, k);
        ClearedIsZeroed(f, z - f.at - k * f.dataSize);
      }
    }
  }

  /** All-zero storage is zero however many bytes are looked at. */
  lemma {:induction false} ZeroIsZeroed(f: Field, z: int)
    requires FieldOk(f) && (f.ptr.Submsg? ==> DescOk(f.ptr.d))
    ensures Zeroed(f, ZeroValue(f), z)
    decreases f
  {
    if f.ltype.LSubmessage? {
      var d := f.ptr.d;
      var cells := ZeroFrom(d, 0, map[]);
      DescFacts(d);
      forall i | 0 <= i < |d.fields| ensures ZeroedMember(d.fields[i], cells, z) {
        ZeroAt(d, 0, map[], i);
        var g := d.fields[i];
        ZeroIsZeroed(g, z - g.at);
        forall k | 0 <= k < g.arraySize ensures Zeroed(g, ZeroValue(g), z - g.at - k * g.dataSize) {
          ZeroIsZeroed(g, z - g.at - k * g.dataSize);
        }
      }
    }
  }

  // ---- every member ----

  /** The default without a payload, what the last payload says, or the merged submessage. */
  ghost predicate ValueHolds(f: Field, v: Value, ps: seq<bytes>, z: bool)
    decreases f, 0
  {
    if f.ltype.LSubmessage? then
      f.ptr.Submsg? && v.Sub? && Holds(f.ptr.d, v.cells, KnownAll(f.ptr.d, Bodies(ps)), z)
    else if ps == [] then HoldsDefault(f, v)
    else DecValue(f, ps[|ps| - 1], Garbage) == Some(v)
  }

  /** One entry for each payload; numbers may also come packed. */
  ghost predicate EntriesHold(f: Field, items: seq<Value>, ps: seq<bytes>)
    decreases f, 1
  {
    !f.ltype.Packable? ==> |items| == |ps| && forall k :: 0 <= k < |items| ==> ValueHolds(f, items[k], [ps[k]], false)
  }

  /** Entry `k` of an array without records: zero as far as the default write or the caller cleared it. */
  ghost predicate UntouchedEntry(f: Field, v: Value, k: nat, z: bool) {
    if z then forall n: int :: Zeroed(f, v, n) else Zeroed(f, v, COUNTER_SIZE - k * f.dataSize)
  }

  ghost predicate MemberHolds(f: Field, c: Cell, ps: seq<bytes>, last: bool, z: bool)
    decreases f, 2
  {
    Fits(f, c) &&
    match f.htype
    case Required => ValueHolds(f, c.v, ps, z)
    case Optional => ValueHolds(f, c.v, ps, z) && (c.Flagged? ==> (c.has <==> ps != []))
    case Repeated =>
      if f.sizeOffset != 0 then EntriesHold(f, c.items, ps)
      else if ps != [] then EntriesHold(f, c.items, LastOf(ps, f.arraySize))
      else forall k :: 0 <= k < |c.items| ==> UntouchedEntry(f, c.items[k], k, z)
    case Oneof => last ==> ValueHolds(f, c.v, LastOf(ps, 1), true)
  }

  /** A union belongs to the member whose record came last. */
  ghost predicate WhichHolds(d: Desc, c: Cell, last: Option<nat>) {
    c.Union? ==>
      match last
      case None => c.which == 0
      case Some(k) => k < |d.fields| && c.which == d.fields[k].tag
  }

  /** The struct after the records `h`, from storage that was cleared before, or not. */
  ghost predicate Holds(d: Desc, m: Cells, h: seq<Received>, z: bool)
    decreases d
  {
    forall i :: 0 <= i < |d.fields| ==>
      && d.fields[i].at in m
      && WhichHolds(d, m[d.fields[i].at], LastAt(d, h, d.fields[i].at))
      && MemberHolds(d.fields[i], m[d.fields[i].at], Payloads(h, i), LastAt(d, h, d.fields[i].at) == Some(i), z)
  }

  lemma {:induction false} ValueHeld(f: Field, v: Value, ps: seq<bytes>, z: bool)
    requires FieldOk(f) && (f.ptr.Submsg? ==> DescOk(f.ptr.d)) && SingleMatches(f, v, ps, z)
    ensures ValueHolds(f, v, ps, z)
    decreases f, 0
  {
    hide DescOk, Merged, Holds;
    if f.ltype.LSubmessage? {
      MergedHolds(f.ptr.d, Bodies(ps), z);
    }
  }

  lemma {:induction false} EntriesHeld(f: Field, items: seq<Value>, ps: seq<bytes>)
    requires FieldOk(f) && (f.ptr.Submsg? ==> DescOk(f.ptr.d)) && EntriesMatch(f, items, ps)
    ensures EntriesHold(f, items, ps)
    decreases f, 1
  {
    hide DescOk, SingleMatches, ValueHolds;
    if !f.ltype.Packable? {
      forall k | 0 <= k < |items| ensures ValueHolds(f, items[k], [ps[k]], false) {
        ValueHeld(f, items[k], [ps[k]], false);
      }
    }
  }

  lemma UntouchedHeld(f: Field, k: nat, z: bool)
    requires FieldOk(f) && IsFixedCount(f) && (f.ptr.Submsg? ==> DescOk(f.ptr.d)) && k < f.arraySize
    ensures UntouchedEntry(f, InitialItems(f, z)[k], k, z)
  {
    hide DescOk, Zeroed, ZeroValue, Cleared;
    if z {
      forall n: int ensures Zeroed(f, ZeroValue(f), n) {
        ZeroIsZeroed(f, n);
      }
    } else {
      ClearedItemAt(f, COUNTER_SIZE, f.arraySize, k);
      ClearedIsZeroed(f, COUNTER_SIZE - k * f.dataSize);
    }
  }

  lemma {:induction false} MemberHeld(d: Desc, i: nat, m: Cells, h: seq<Received>, z: bool)
    requires DescOk(d) && i < |d.fields| && FieldMatches(d, i, Start(m), h, z)
    ensures d.fields[i].at in m && WhichHolds(d, m[d.fields[i].at], LastAt(d, h, d.fields[i].at))
    ensures MemberHolds(d.fields[i], m[d.fields[i].at], Payloads(h, i), LastAt(d, h, d.fields[i].at) == Some(i), z)
    decreases d, 0
  {
    hide LaidOut, SingleMatches, EntriesMatch, Payloads, LastAt, ValueHolds, EntriesHold, UntouchedEntry, InitialItems;
    var f, ps, c := d.fields[i], Payloads(h, i), m[d.fields[i].at];
    DescFacts(d);
    if IsFixedCount(f) {
      if ps != [] {
        assert c.items[..f.arraySize] == c.items;
        EntriesHeld(f, c.items, LastOf(ps, f.arraySize));
      } else {
        forall k | 0 <= k < |c.items| ensures UntouchedEntry(f, c.items[k], k, z) {
          UntouchedHeld(f, k, z);
        }
      }
    } else if f.htype.Repeated? {
      EntriesHeld(f, c.items, ps);
    } else if f.htype.Oneof? {
      if LastAt(d, h, f.at) == Some(i) {
        ValueHeld(f, c.v, LastOf(ps, 1), true);
      }
    } else {
      ValueHeld(f, c.v, ps, z);
    }
  }

  /** Any number of strings decoded into one struct one after another. */
  lemma {:induction false} MergedHolds(d: Desc, ss: seq<bytes>, z: bool)
    requires DescOk(d) && Merged(d, ss, z).Some?
    ensures Holds(d, Merged(d, ss, z).value, KnownAll(d, ss), z)
    decreases d, 1
  {
    hide Merged, FieldMatches, DescOk, Payloads, LastAt, KnownAll, MemberHolds, WhichHolds;
    var m, h := Merged(d, ss, z).value, KnownAll(d, ss);
    MergedMatches(d, ss, z);
    forall i | 0 <= i < |d.fields|
      ensures d.fields[i].at in m && WhichHolds(d, m[d.fields[i].at], LastAt(d, h, d.fields[i].at))
      ensures MemberHolds(d.fields[i], m[d.fields[i].at], Payloads(h, i), LastAt(d, h, d.fields[i].at) == Some(i), z)
    {
      MemberHeld(d, i, m, h, z);
    }
  }

  // ---- main results ----

  /** For every input that is accepted, every member holds its default or what its records say. */
  lemma DecodedHolds(d: Desc, s: bytes)
    requires DescOk(d) && Dec(d, s).Some?
    ensures Holds(d, Dec(d, s).value.st.cells, Known(d, s), false)
  {
    hide DescOk, DecNoinit, Holds, Known, Initial;
    assert [s][..0] == [];
    assert Merged(d, [], false) == Some(Initial(d, false)) && KnownAll(d, []) == [];
    assert Merged(d, [s], false) == Some(Dec(d, s).value.st.cells);
    assert KnownAll(d, [s]) == [] + Known(d, s) == Known(d, s);
    MergedHolds(d, [s], false);
  }

  /**
   * A member whose tag is not in the input holds the default value of the table, or zero; its
   * has_ member tells whether the tag is there.
   */
  lemma AbsentIsDefault(d: Desc, s: bytes, j: nat)
    requires DescOk(d) && Dec(d, s).Some? && j < |d.fields|
    requires (d.fields[j].htype.Required? || d.fields[j].htype.Optional?) && !d.fields[j].ltype.LSubmessage?
    ensures d.fields[j].at in Dec(d, s).value.st.cells
    ensures var f, c := d.fields[j], Dec(d, s).value.st.cells[d.fields[j].at];
            && (c.Single? || (c.Flagged? && (c.has <==> f.tag in TagsRead(d, s))))
            && (f.tag !in TagsRead(d, s) ==>
                  if f.ptr.Default? then c.v == f.ptr.v
                  else
                    match f.ltype
                    case Packable(_) => c.v == Int(0)
                    case LFixedLengthBytes =>
                      c.v.Blob? && |c.v.b| == f.dataSize && forall k :: 0 <= k < |c.v.b| ==> c.v.b[k] == 0
                    case _ => c.v == Blob([]))
  {
    hide Dec, Known, Payloads, TagsRead, LaidOut, LastAt, UniqueTags;
    DecodedHolds(d, s);
    DescFacts(d);
    ReadIsReceived(d, s, j);
    var f, c, h := d.fields[j], Dec(d, s).value.st.cells[d.fields[j].at], Known(d, s);
    assert MemberHolds(f, c, Payloads(h, j), LastAt(d, h, f.at) == Some(j), false);
    assert ValueHolds(f, c.v, Payloads(h, j), false);
  }
}
