/** Decoding what was encoded, for structs with pointer fields. */
module PointerRoundTrip {
  import opened Common
  import opened Scalars
  import opened Varint
  import opened Descriptor
  import opened EncodeSpec
  import opened DecodeSpec
  import opened Messages
  import opened Records
  import opened Ownership
  import opened PointerSpec
  import opened PointerEncode
  import LastOneWins
  import Merging
  import Release
  import RoundTrip
  import WireFormat

  // ---- one value ----

  /** A number, bytes of fixed length, a string or bytes. */
  lemma LeafArrives(f: Field, v: Value)
    requires !f.ltype.LSubmessage? && 0 < f.dataSize <= PB_SIZE_MAX && ValidLeaf(f, v)
    requires EncLeaf(f, v).Some? && |EncLeaf(f, v).value| < TWO_TO_THE_32
    ensures var p := EncLeaf(f, v).value;
            && Framed(ItemFraming(f.ltype), p)
            && if f.ltype.LString? then BlobValue(f, p) == Some(Blob(CString(v.b)))
               else if f.ltype.LBytes? then BlobValue(f, p) == Some(v)
               else DecValue(f, p, Garbage) == Some(v)
  {
    hide CString, EncScalar, DecScalar;
    match f.ltype
    case Packable(sc) =>
      ScalarRoundTrip(sc, f.dataSize, v.n);
      ScalarFramed(sc, f.dataSize, v.n);
    case LString => DelimitedParts(CString(v.b));
    case LBytes => DelimitedParts(v.b);
    case LFixedLengthBytes => DelimitedParts(v.b);
    case LSubmessage =>
  }

  /** What is written for one item of a pointer field is read back as the same item. */
  lemma {:induction false} ItemArrives(types: Types, f: Field, sub: nat, it: Item) returns (x: Item)
    requires TypesOk(types) && f.atype.Pointer? && 0 < f.dataSize <= PB_SIZE_MAX
    requires ValidItem(types, f, sub, it)
    requires EncItem(types, f, sub, it).Some? && |EncItem(types, f, sub, it).value| < TWO_TO_THE_32
    ensures var p := EncItem(types, f, sub, it).value;
            Framed(ItemFraming(f.ltype), p) && ItemValue(types, f, sub, p) == Some(x)
    ensures SameItem(types, f, sub, x, it)
    decreases it
  {
    hide TypesOk, EncMsg, Merge, SameMessage, Valid, InitialMessage, EncLeaf, DecValue, BlobValue, CString;
    if f.ltype.LSubmessage? {
      var b := EncMsg(types, sub, it.m).value;
      DelimitedParts(b);
      var a := MessageArrives(types, sub, it.m, true);
      x := Item.Submsg(a.stage.m);
    } else if IsEntries(f) && it.block == None {
      x := NothingArrives(types, f, sub, it);
    } else {
      LeafArrives(f, it.v);
      var c := if f.ltype.LString? then Blob(CString(it.v.b)) else it.v;
      x := if IsEntries(f) then Entry(Some(0), c) else Leaf(c);
      if IsBlob(f) {
        SameBlob(types, f, sub, x, it);
      }
    }
  }

  /** A NULL pointer in an array comes back as an empty value. */
  lemma NothingArrives(types: Types, f: Field, sub: nat, it: Item) returns (x: Item)
    requires IsEntries(f) && it.Entry? && it.block == None
    ensures var p := EncItem(types, f, sub, it).value;
            Framed(ItemFraming(f.ltype), p) && ItemValue(types, f, sub, p) == Some(x)
    ensures SameItem(types, f, sub, x, it)
  {
    DelimitedParts([]);
    x := Entry(Some(0), Blob([]));
  }

  lemma SameBlob(types: Types, f: Field, sub: nat, x: Item, y: Item)
    requires if IsEntries(f) then x.Entry? && y.Entry? && x.block.Some? && y.block.Some? else x.Leaf? && y.Leaf?
    requires IsBlob(f) && ValidLeaf(f, y.v)
    requires x.v == if f.ltype.LString? then Blob(CString(y.v.b)) else y.v
    ensures SameItem(types, f, sub, x, y)
  {
    if f.ltype.LString? {
      RoundTrip.CStringTwice(y.v.b);
    }
  }

  // ---- the records of one field ----

  datatype Wire = Wire(wt: nat, p: bytes)

  function WireBytes(tag: nat, ws: seq<Wire>): bytes {
    if ws == [] then [] else TagBytes(tag, ws[0].wt) + ws[0].p + WireBytes(tag, ws[1..])
  }

  ghost predicate WireOk(f: Field, w: Wire) {
    w.wt < 8 && Framed(if IsPacked(f, w.wt) then ByLength else ItemFraming(f.ltype), w.p)
  }

  /** The slot after these records; `count` is the progress of a fixed count array. */
  function Run(types: Types, f: Field, sub: nat, ws: seq<Wire>, s: Slot, count: nat): Option<(Slot, nat)>
    decreases |ws|
  {
    if ws == [] then Some((s, count))
    else
      match FieldValue(types, f, sub, ws[0].wt, ws[0].p, s, count)
      case None => None
      case Some((s', n)) => Run(types, f, sub, ws[1..], s', n)
  }

  lemma RunOne(types: Types, f: Field, sub: nat, w: Wire, s: Slot, count: nat)
    ensures Run(types, f, sub, [w], s, count) == FieldValue(types, f, sub, w.wt, w.p, s, count)
    ensures WireBytes(f.tag, [w]) == TagBytes(f.tag, w.wt) + w.p
  {
    hide FieldValue;
    assert [w][1..] == [] && WireBytes(f.tag, []) == [];
    assert TagBytes(f.tag, w.wt) + w.p + [] == TagBytes(f.tag, w.wt) + w.p;
  }

  lemma RunCons(types: Types, f: Field, sub: nat, w: Wire, ws: seq<Wire>, s: Slot, count: nat)
    ensures Run(types, f, sub, [w] + ws, s, count) ==
              match FieldValue(types, f, sub, w.wt, w.p, s, count)
              case None => None
              case Some((s', n)) => Run(types, f, sub, ws, s', n)
    ensures WireBytes(f.tag, [w] + ws) == TagBytes(f.tag, w.wt) + w.p + WireBytes(f.tag, ws)
  {
    hide FieldValue;
    assert ([w] + ws)[1..] == ws;
  }

  /** The stage after records of field `i` that have left `s` in its slot. */
  function After(types: Types, t: nat, i: nat, g: Stage, fixed: Progress, s: Slot, n: nat): Stage
    requires t < |types| && i < |types[t].fields| == |g.m.slots|
  {
    Stage(
      Msg(g.m.slots[i := s]),
      State(g.st.cells, g.st.seen + Marks(Table(types, t), i),
            if IsFixedCount(types[t].fields[i]) then Array(i, n) else fixed))
  }

  /** Field `i` of the struct, and what the record loop needs to know about its records. */
  ghost predicate AtField(types: Types, t: nat, i: nat, g: Stage, fixed: Progress) {
    && t < |types| && UniqueTags(types[t].fields)
    && i < |types[t].fields| == |types[t].subs| == |g.m.slots| && 1 <= types[t].fields[i].tag < 0x2000_0000
    && StartArray(Table(types, t), i, g.st.fixed) == Some(fixed)
  }

  function CountOf(f: Field, fixed: Progress): nat {
    if IsFixedCount(f) && fixed.Array? then fixed.count else 0
  }

  lemma StepLoop(types: Types, t: nat, i: nat, w: Wire, g: Stage, fixed: Progress, rest: bytes)
    requires AtField(types, t, i, g, fixed) && WireOk(types[t].fields[i], w)
    ensures var f, sub := types[t].fields[i], types[t].subs[i];
            PointerSpec.Loop(types, t, TagBytes(f.tag, w.wt) + w.p + rest, g) ==
              match FieldValue(types, f, sub, w.wt, w.p, g.m.slots[i], CountOf(f, fixed))
              case None => None
              case Some((s, n)) => PointerSpec.Loop(types, t, rest, After(types, t, i, g, fixed, s, n))
  {
    hide PointerSpec.Loop, FieldValue, FrameLen, Marks, ItemFraming;
    var f, d := types[t].fields[i], Table(types, t);
    var r := Merging.Rec(TagBytes(f.tag, w.wt), f.tag, w.wt, w.p);
    FindUnique(d, i);
    TagRoundTrip(f.tag, w.wt);
    LastOneWins.LoopStep(types, t, r, rest, g);
    assert PointerSpec.Apply(types, t, f.tag, w.wt, w.p, g) == ApplyKnown(types, t, i, w.wt, w.p, g);
  }

  lemma AfterTwice(types: Types, t: nat, i: nat, g: Stage, fixed: Progress, s: Slot, n: nat, s': Slot, n': nat)
    requires AtField(types, t, i, g, fixed)
    ensures var g' := After(types, t, i, g, fixed, s, n);
            var fixed' := if IsFixedCount(types[t].fields[i]) then Array(i, n) else fixed;
            && AtField(types, t, i, g', fixed')
            && CountOf(types[t].fields[i], fixed') == (if IsFixedCount(types[t].fields[i]) then n else 0)
            && g'.m.slots[i] == s
            && After(types, t, i, g', fixed', s', n') == After(types, t, i, g, fixed, s', n')
  {
    hide Marks;
    var m := Marks(Table(types, t), i);
    assert g.st.seen + m + m == g.st.seen + m;
  }

  lemma FieldCount(types: Types, f: Field, sub: nat, wt: nat, p: bytes, s: Slot, count: nat)
    requires FieldValue(types, f, sub, wt, p, s, count).Some? && !IsFixedCount(f)
    ensures FieldValue(types, f, sub, wt, p, s, count).value.1 == count
  {
    hide DecValue, Extend, PointerValue, SubmessageValue;
  }

  /** The record loop over all records of a field. */
  lemma {:induction false} RunLoop(types: Types, t: nat, i: nat, ws: seq<Wire>, g: Stage, fixed: Progress, rest: bytes)
    requires AtField(types, t, i, g, fixed) && ws != []
    requires forall w :: w in ws ==> WireOk(types[t].fields[i], w)
    ensures var f, sub := types[t].fields[i], types[t].subs[i];
            PointerSpec.Loop(types, t, WireBytes(f.tag, ws) + rest, g) ==
              match Run(types, f, sub, ws, g.m.slots[i], CountOf(f, fixed))
              case None => None
              case Some((s, n)) => PointerSpec.Loop(types, t, rest, After(types, t, i, g, fixed, s, n))
    decreases |ws|
  {
    hide PointerSpec.Loop, FieldValue, WireOk, After, AtField;
    FieldInRange(types, t, i, g, fixed);
    var f, sub, w, more := types[t].fields[i], types[t].subs[i], ws[0], ws[1..];
    assert w in ws && ws == [w] + more;
    var behind := WireBytes(f.tag, more) + rest;
    assert WireBytes(f.tag, ws) + rest == TagBytes(f.tag, w.wt) + w.p + behind;
    StepLoop(types, t, i, w, g, fixed, behind);
    var v := FieldValue(types, f, sub, w.wt, w.p, g.m.slots[i], CountOf(f, fixed));
    if v.Some? {
      var (s, n) := v.value;
      var all := Run(types, f, sub, more, s, n);
      var (s', n') := if all.Some? then all.value else (s, n);
      AfterTwice(types, t, i, g, fixed, s, n, s', n');
      if !IsFixedCount(f) {
        FieldCount(types, f, sub, w.wt, w.p, g.m.slots[i], CountOf(f, fixed));
      }
      if more == [] {
        assert behind == rest;
      } else {
        var fixed' := if IsFixedCount(f) then Array(i, n) else fixed;
        RunLoop(types, t, i, more, After(types, t, i, g, fixed, s, n), fixed', rest);
      }
    }
  }

  lemma FieldInRange(types: Types, t: nat, i: nat, g: Stage, fixed: Progress)
    requires AtField(types, t, i, g, fixed)
    ensures t < |types| && i < |types[t].fields| == |types[t].subs| == |g.m.slots|
  {
  }

  // ---- pointer fields ----

  /** A field that is not repeated. */
  lemma {:induction false} SinglePointerArrives(types: Types, f: Field, sub: nat, s: Slot)
    returns (ws: seq<Wire>, s': Slot)
    requires TypesOk(types) && f.atype.Pointer? && !f.htype.Repeated? && 0 < f.dataSize <= PB_SIZE_MAX
    requires ValidSlot(types, f, sub, s)
    requires EncSlot(types, f, sub, s).Some? && |EncSlot(types, f, sub, s).value| < TWO_TO_THE_32
    ensures WireBytes(f.tag, ws) == EncSlot(types, f, sub, s).value && forall w :: w in ws ==> WireOk(f, w)
    ensures Run(types, f, sub, ws, Slot.Pointer(None, []), 0) == Some((s', 0)) && SameSlot(types, f, sub, s', s)
    ensures f.htype.Required? ==> ws != []
    decreases s, 0
  {
    hide TypesOk, ItemValue, SameItem, ValidItem, EncItem, FrameLen;
    if s.block == None {
      ws, s' := [], Slot.Pointer(None, []);
    } else {
      var it := s.items[0];
      var w := Wire(WireType(f.ltype), EncItem(types, f, sub, it).value);
      var x := ItemArrives(types, f, sub, it);
      ws, s' := [w], Slot.Pointer(Some(0), [x]);
      RunOne(types, f, sub, w, Slot.Pointer(None, []), 0);
      assert PointerValue(types, f, sub, w.wt, w.p, Slot.Pointer(None, [])) == Some(s');
    }
  }

  /** A packed record brings the same numbers, behind those already there. */
  lemma {:induction false} PackedPointerArrives(types: Types, f: Field, sub: nat, items: seq<Item>, xs: seq<Item>)
    requires f.atype.Pointer? && f.htype.Repeated? && f.ltype.Packable? && 0 < f.dataSize <= PB_SIZE_MAX
    requires (forall k :: 0 <= k < |items| ==> ValidItem(types, f, sub, items[k])) && |xs| + |items| <= PB_SIZE_MAX
    requires EncPacked(types, f, sub, items).Some? && |EncPacked(types, f, sub, items).value| < TWO_TO_THE_32
    ensures PackedItems(f, EncPacked(types, f, sub, items).value, xs) == Some(xs + items)
    ensures items != [] ==> EncPacked(types, f, sub, items).value != []
    decreases |items|
  {
    hide FrameLen, DecValue, EncLeaf, ValidLeaf;
    if items == [] {
      assert xs + items == xs;
    } else {
      var it, rest := items[0], EncPacked(types, f, sub, items[1..]).value;
      var p := EncItem(types, f, sub, it).value;
      assert ValidItem(types, f, sub, it);
      LeafArrives(f, it.v);
      FramedAppend(ItemFraming(f.ltype), p, rest);
      PackedStep(f, p, rest, xs, it.v);
      PackedPointerArrives(types, f, sub, items[1..], xs + [it]);
      assert xs + [it] + items[1..] == xs + items;
    }
  }

  lemma PackedStep(f: Field, p: bytes, rest: bytes, xs: seq<Item>, v: Value)
    requires p != [] && |xs| < PB_SIZE_MAX
    requires FrameLen(ItemFraming(f.ltype), p + rest) == Some(|p|) && DecValue(f, p, Garbage) == Some(v)
    ensures PackedItems(f, p + rest, xs) == PackedItems(f, rest, xs + [Leaf(v)])
  {
    hide FrameLen, DecValue;
    assert (p + rest)[..|p|] == p && (p + rest)[|p|..] == rest;
  }

  lemma SameEntriesCons(types: Types, f: Field, sub: nat, x: Item, xs: seq<Item>, ys: seq<Item>)
    requires ys != [] && SameItem(types, f, sub, x, ys[0]) && SameEntries(types, f, sub, xs, ys[1..])
    ensures SameEntries(types, f, sub, [x] + xs, ys)
  {
    hide SameItem;
    forall k | 0 <= k < |ys| ensures SameItem(types, f, sub, ([x] + xs)[k], ys[k]) {
      if k > 0 {
        assert ([x] + xs)[k] == xs[k - 1] && ys[k] == ys[1..][k - 1];
      }
    }
  }

  /** One record for every item, behind the items already there. */
  lemma {:induction false} PointerRecordsArrive(types: Types, f: Field, sub: nat, items: seq<Item>,
                                                block: Option<nat>, xs: seq<Item>)
    returns (ws: seq<Wire>, ys: seq<Item>)
    requires TypesOk(types) && f.atype.Pointer? && f.htype.Repeated? && !f.ltype.Packable?
    requires 0 < f.dataSize <= PB_SIZE_MAX && |xs| + |items| <= PB_SIZE_MAX
    requires forall k :: 0 <= k < |items| ==> ValidItem(types, f, sub, items[k])
    requires EncUnpacked(types, f, sub, items).Some? && |EncUnpacked(types, f, sub, items).value| < TWO_TO_THE_32
    ensures WireBytes(f.tag, ws) == EncUnpacked(types, f, sub, items).value && forall w :: w in ws ==> WireOk(f, w)
    ensures Run(types, f, sub, ws, Slot.Pointer(block, xs), 0)
         == Some((Slot.Pointer(if items == [] then block else Some(0), xs + ys), 0))
    ensures SameEntries(types, f, sub, ys, items)
    decreases items, 1
  {
    hide TypesOk, ItemValue, SameItem, ValidItem, EncItem, FrameLen;
    if items == [] {
      ws, ys := [], [];
      assert xs + ys == xs;
    } else {
      var it := items[0];
      var w := Wire(WireType(f.ltype), EncItem(types, f, sub, it).value);
      var x := ItemArrives(types, f, sub, it);
      var slot, next := Slot.Pointer(block, xs), Slot.Pointer(Some(0), xs + [x]);
      assert PointerValue(types, f, sub, w.wt, w.p, slot) == Some(next);
      var wmore, more := PointerRecordsArrive(types, f, sub, items[1..], Some(0), xs + [x]);
      ws, ys := [w] + wmore, [x] + more;
      RunCons(types, f, sub, w, wmore, slot, 0);
      assert xs + [x] + more == xs + ys;
      SameEntriesCons(types, f, sub, x, more, items);
    }
  }

  lemma {:induction false} PointerArrayArrives(types: Types, f: Field, sub: nat, s: Slot)
    returns (ws: seq<Wire>, s': Slot)
    requires TypesOk(types) && f.atype.Pointer? && f.htype.Repeated? && 0 < f.dataSize <= PB_SIZE_MAX
    requires ValidSlot(types, f, sub, s)
    requires EncSlot(types, f, sub, s).Some? && |EncSlot(types, f, sub, s).value| < TWO_TO_THE_32
    ensures WireBytes(f.tag, ws) == EncSlot(types, f, sub, s).value && forall w :: w in ws ==> WireOk(f, w)
    ensures Run(types, f, sub, ws, Slot.Pointer(None, []), 0) == Some((s', 0)) && SameSlot(types, f, sub, s', s)
    decreases s, 0
  {
    hide TypesOk, SameItem, ValidItem, EncPacked, EncUnpacked, PackedItems, FrameLen;
    var none := Slot.Pointer(None, []);
    if s.items == [] {
      ws, s' := [], none;
    } else if f.ltype.Packable? {
      var b := EncPacked(types, f, sub, s.items).value;
      var w := Wire(WT_STRING, Delimited(b));
      PackedPointerArrives(types, f, sub, s.items, []);
      DelimitedParts(b);
      assert [] + s.items == s.items;
      ws, s' := [w], Slot.Pointer(Some(0), s.items);
      RunOne(types, f, sub, w, none, 0);
      assert PointerValue(types, f, sub, w.wt, w.p, none) == Some(s');
      SameNumbers(types, f, sub, s.items);
    } else {
      var ys;
      ws, ys := PointerRecordsArrive(types, f, sub, s.items, None, []);
      assert [] + ys == ys;
      s' := Slot.Pointer(Some(0), ys);
    }
  }

  lemma SameNumbers(types: Types, f: Field, sub: nat, items: seq<Item>)
    requires f.ltype.Packable? && forall k :: 0 <= k < |items| ==> ValidItem(types, f, sub, items[k])
    ensures SameEntries(types, f, sub, items, items)
  {
    hide ValidLeaf;
  }

  // ---- static submessages ----

  /** A proto3 submessage that is left out is what the reader starts from. */
  lemma {:induction false} DefaultMessageSame(types: Types, t: nat, m: Msg, z: bool)
    requires TypesOk(types) && t < |types| && Valid(types, t, m) && AllDefaultSlots(types, t, m, 0)
    ensures SameMessage(types, t, InitialMessage(types, t, z), m)
    decreases m
  {
    hide TypesOk, LaidOut, SameSlot, ValidSlot, IsDefaultSlot, InitialSlot, Ownership.MemberOk;
    Release.TypeFacts(types, t);
    forall i | 0 <= i < |m.slots|
      ensures SameSlot(types, types[t].fields[i], types[t].subs[i], InitialSlot(types, t, i, z), m.slots[i])
    {
      DefaultAt(types, t, m, 0, i);
      DefaultSlotSame(types, t, i, m.slots[i], z);
    }
  }

  lemma {:induction false} DefaultAt(types: Types, t: nat, m: Msg, i: nat, k: nat)
    requires t < |types| && i <= k < |m.slots| && AllDefaultSlots(types, t, m, i)
    ensures k < |types[t].fields| && k < |types[t].subs|
    ensures IsDefaultSlot(types, types[t].fields[k], types[t].subs[k], m.slots[k])
    decreases k - i
  {
    hide IsDefaultSlot;
    if i < k {
      DefaultAt(types, t, m, i + 1, k);
    }
  }

  lemma {:induction false} DefaultSlotSame(types: Types, t: nat, i: nat, s: Slot, z: bool)
    requires TypesOk(types) && t < |types| && i < |types[t].fields| == |types[t].subs|
    requires Ownership.MemberOk(types, t, i)
    requires ValidSlot(types, types[t].fields[i], types[t].subs[i], s)
    requires IsDefaultSlot(types, types[t].fields[i], types[t].subs[i], s)
    ensures SameSlot(types, types[t].fields[i], types[t].subs[i], InitialSlot(types, t, i, z), s)
    decreases s, 0
  {
    hide TypesOk, LaidOut, Valid, SameMessage, AllDefaultSlots, InitialMessage, ValueOk, SameValue;
    var f, sub := types[t].fields[i], types[t].subs[i];
    if f.atype.Static? {
      if f.ltype.LSubmessage? {
        if !HasFlag(f) {
          DefaultMessageSame(types, sub, s.m, z);
        }
      } else {
        DefaultCellSame(f, s.c, z);
      }
    }
  }

  lemma DefaultCellSame(f: Field, c: Cell, z: bool)
    requires FieldOk(f) && !f.ltype.LSubmessage? && !f.htype.Oneof? && CellOk(f, c) && IsDefault(f, c)
    ensures SameCell(f, InitialCell(f, z), f, c)
  {
    hide ValueOk, SameValue, InitialValue;
    if IsSingular(f) {
      RoundTrip.DefaultValueSame(f, f, c.v, z);
    }
  }

  lemma {:induction false} InlineArrives(types: Types, t: nat, i: nat, s: Slot, z: bool)
    returns (ws: seq<Wire>, s': Slot)
    requires TypesOk(types) && t < |types| && i < |types[t].fields| == |types[t].subs|
    requires Ownership.MemberOk(types, t, i)
    requires types[t].fields[i].atype.Static? && types[t].fields[i].ltype.LSubmessage?
    requires ValidSlot(types, types[t].fields[i], types[t].subs[i], s)
    requires EncSlot(types, types[t].fields[i], types[t].subs[i], s).Some?
    requires |EncSlot(types, types[t].fields[i], types[t].subs[i], s).value| < TWO_TO_THE_32
    ensures var f, sub := types[t].fields[i], types[t].subs[i];
            && WireBytes(f.tag, ws) == EncSlot(types, f, sub, s).value && (forall w :: w in ws ==> WireOk(f, w))
            && Run(types, f, sub, ws, InitialSlot(types, t, i, z), 0) == Some((s', 0))
            && SameSlot(types, f, sub, s', s)
            && (f.htype.Required? ==> ws != [])
    decreases s, 0
  {
    hide TypesOk, LaidOut, Valid, SameMessage, AllDefaultSlots, InitialMessage, EncMsg, Merge, ChecksAddress;
    var f, sub := types[t].fields[i], types[t].subs[i];
    var s0 := InitialSlot(types, t, i, z);
    if f.htype.Optional? && IsDefaultSlot(types, f, sub, s) {
      ws, s' := [], s0;
      DefaultSlotSame(types, t, i, s, z);
    } else {
      var b := EncMsg(types, sub, s.m).value;
      var w := Wire(WT_STRING, Delimited(b));
      DelimitedParts(b);
      var a := MessageArrives(types, sub, s.m, z);
      ws, s' := [w], Inline(HasFlag(f), a.stage.m);
      RunOne(types, f, sub, w, s0, 0);
      assert SubmessageValue(types, f, sub, w.p, s0.m) == Some(a.stage.m);
    }
  }

  // ---- other static fields ----

  /** The array when `xs` have arrived in storage that holds `init`. */
  function CellWith(f: Field, init: Cell, xs: seq<Value>): Cell
    requires Fits(f, init) && f.htype.Repeated? && (IsFixedCount(f) ==> |xs| <= f.arraySize)
  {
    if IsFixedCount(f) then Fixed(xs + init.items[|xs|..]) else Counted(xs)
  }

  lemma Extended(types: Types, f: Field, sub: nat, wt: nat, p: bytes, init: Cell, xs: seq<Value>, ys: seq<Value>)
    requires f.atype.Static? && !f.ltype.LSubmessage? && f.htype.Repeated? && Fits(f, init)
    requires |xs| <= |ys| <= f.arraySize && Extend(f, wt, p, xs) == Some(ys)
    ensures FieldValue(types, f, sub, wt, p, Plain(CellWith(f, init, xs)), if IsFixedCount(f) then |xs| else 0)
         == Some((Plain(CellWith(f, init, ys)), if IsFixedCount(f) then |ys| else 0))
  {
    hide Extend;
    if IsFixedCount(f) {
      var items := xs + init.items[|xs|..];
      assert items[..|xs|] == xs && items[|ys|..] == init.items[|ys|..];
    }
  }

  /** Unpacked: one record for every item. */
  lemma {:induction false} CellRecordsArrive(types: Types, f: Field, sub: nat, items: seq<Value>, init: Cell,
                                             xs: seq<Value>)
    returns (ws: seq<Wire>, ys: seq<Value>)
    requires FieldOk(f) && !f.ltype.LSubmessage? && f.htype.Repeated? && !f.ltype.Packable? && Fits(f, init)
    requires |xs| + |items| <= f.arraySize && forall k :: 0 <= k < |items| ==> ValueOk(f, items[k])
    requires EncRecords(f, items).Some? && |EncRecords(f, items).value| < TWO_TO_THE_32
    ensures WireBytes(f.tag, ws) == EncRecords(f, items).value && forall w :: w in ws ==> WireOk(f, w)
    ensures |xs + ys| <= f.arraySize && SameItems(f, ys, f, items)
    ensures Run(types, f, sub, ws, Plain(CellWith(f, init, xs)), if IsFixedCount(f) then |xs| else 0)
         == Some((Plain(CellWith(f, init, xs + ys)), if IsFixedCount(f) then |xs + ys| else 0))
    decreases |items|
  {
    hide EncValue, DecValue, ValueOk, SameValue, CellWith, FrameLen, FieldValue;
    if items == [] {
      ws, ys := [], [];
      assert xs + ys == xs;
    } else {
      var h, p, rest := RoundTrip.RecordsSplit(f, items);
      var w := Wire(WireType(f.ltype), p);
      var x := RoundTrip.ValueArrives(f, f, items[0], Garbage, false);
      assert Extend(f, w.wt, p, xs) == Some(xs + [x]);
      Extended(types, f, sub, w.wt, p, init, xs, xs + [x]);
      var wmore, more := CellRecordsArrive(types, f, sub, items[1..], init, xs + [x]);
      ws, ys := [w] + wmore, [x] + more;
      RunCons(types, f, sub, w, wmore, Plain(CellWith(f, init, xs)), if IsFixedCount(f) then |xs| else 0);
      assert xs + [x] + more == xs + ys;
      RoundTrip.SameItemsCons(f, x, more, f, items);
    }
  }

  lemma {:induction false} CellArrayArrives(types: Types, f: Field, sub: nat, c: Cell, init: Cell)
    returns (ws: seq<Wire>, c': Cell)
    requires FieldOk(f) && !f.ltype.LSubmessage? && f.htype.Repeated? && CellOk(f, c) && Fits(f, init)
    requires !IsFixedCount(f) ==> init == Counted([])
    requires EncArray(f, c.items).Some? && |EncArray(f, c.items).value| < TWO_TO_THE_32
    ensures WireBytes(f.tag, ws) == EncArray(f, c.items).value && forall w :: w in ws ==> WireOk(f, w)
    ensures SameCell(f, c', f, c) && (IsFixedCount(f) ==> ws != [])
    ensures Run(types, f, sub, ws, Plain(init), 0) == Some((Plain(c'), if IsFixedCount(f) then f.arraySize else 0))
  {
    hide EncValue, DecValue, ValueOk, SameValue, FrameLen, FieldValue, EncItems, EncRecords, DecItems;
    var items := c.items;
    var empty := CellWith(f, init, []);
    assert empty == init by {
      assert init.Fixed? ==> [] + init.items[0..] == init.items;
    }
    var ys;
    if items == [] {
      ws, ys := [], [];
    } else if f.ltype.Packable? {
      var b := EncItems(f, items).value;
      var w := Wire(WT_STRING, Delimited(b));
      DelimitedParts(b);
      ys := RoundTrip.PackedItemsArrive(f, f, items, []);
      assert [] + ys == ys;
      assert Extend(f, w.wt, w.p, []) == Some(ys);
      Extended(types, f, sub, w.wt, w.p, init, [], ys);
      ws := [w];
      RunOne(types, f, sub, w, Plain(init), 0);
    } else {
      ws, ys := CellRecordsArrive(types, f, sub, items, init, []);
      assert [] + ys == ys;
    }
    c' := CellWith(f, init, ys);
    assert IsFixedCount(f) ==> ys + init.items[|ys|..] == ys;
  }

  lemma {:induction false} PlainArrives(types: Types, f: Field, sub: nat, c: Cell, z: bool)
    returns (ws: seq<Wire>, c': Cell)
    requires FieldOk(f) && !f.ltype.LSubmessage? && !f.htype.Oneof? && CellOk(f, c)
    requires EncField(f, c).Some? && |EncField(f, c).value| < TWO_TO_THE_32
    ensures WireBytes(f.tag, ws) == EncField(f, c).value && forall w :: w in ws ==> WireOk(f, w)
    ensures SameCell(f, c', f, c) && (IsFixedCount(f) || f.htype.Required? ==> ws != [])
    ensures Run(types, f, sub, ws, Plain(InitialCell(f, z)), 0)
         == Some((Plain(c'), if IsFixedCount(f) then f.arraySize else 0))
  {
    hide EncValue, DecValue, ValueOk, SameValue, FrameLen, EncArray, InitialValue, InitialItems, IsDefaultValue;
    var init := InitialCell(f, z);
    if f.htype.Repeated? {
      ws, c' := CellArrayArrives(types, f, sub, c, init);
    } else if f.htype.Optional? && IsDefault(f, c) {
      DefaultCellSame(f, c, z);
      ws, c' := [], init;
    } else {
      var p := EncValue(f, c.v).value;
      var w := Wire(WireType(f.ltype), p);
      ValueFramed(f, c.v);
      var x := RoundTrip.ValueArrives(f, f, c.v, init.v, z);
      ws, c' := [w], if c.Flagged? then Flagged(true, x) else Single(x);
      RunOne(types, f, sub, w, Plain(init), 0);
      assert ApplyField(f, w.wt, p, init, 0) == Some((c', 0));
    }
  }

  // ---- messages ----

  /** One slot, whatever its kind. */
  lemma {:induction false} SlotArrives(types: Types, t: nat, i: nat, s: Slot, z: bool)
    returns (ws: seq<Wire>, s': Slot)
    requires TypesOk(types) && t < |types| && i < |types[t].fields| == |types[t].subs|
    requires Ownership.MemberOk(types, t, i)
    requires ValidSlot(types, types[t].fields[i], types[t].subs[i], s)
    requires EncSlot(types, types[t].fields[i], types[t].subs[i], s).Some?
    requires |EncSlot(types, types[t].fields[i], types[t].subs[i], s).value| < TWO_TO_THE_32
    ensures var f, sub := types[t].fields[i], types[t].subs[i];
            && WireBytes(f.tag, ws) == EncSlot(types, f, sub, s).value && (forall w :: w in ws ==> WireOk(f, w))
            && Run(types, f, sub, ws, InitialSlot(types, t, i, z), 0)
               == Some((s', if IsFixedCount(f) then f.arraySize else 0))
            && SameSlot(types, f, sub, s', s)
            && (f.htype.Required? || IsFixedCount(f) ==> ws != [])
    decreases s, 1
  {
    hide TypesOk, LaidOut, Run, WireBytes, WireOk, InitialMessage, InitialCell, SameCell, CellOk, SameItem, ValidItem;
    hide EncField, EncPointerArray, EncItemRecord, Valid, SameMessage, EncMsg;
    var f, sub := types[t].fields[i], types[t].subs[i];
    if f.atype.Pointer? {
      if f.htype.Repeated? {
        ws, s' := PointerArrayArrives(types, f, sub, s);
      } else {
        ws, s' := SinglePointerArrives(types, f, sub, s);
      }
    } else if f.ltype.LSubmessage? {
      ws, s' := InlineArrives(types, t, i, s, z);
    } else {
      var c;
      ws, c := PlainArrives(types, f, sub, s.c, z);
      s' := Plain(c);
    }
  }

  /** When the first `i` fields of the message have arrived. */
  ghost predicate Arrived(types: Types, t: nat, m: Msg, i: nat, g: Stage, z: bool)
    requires t < |types|
  {
    var d := Table(types, t);
    && |g.m.slots| == |m.slots| == |types[t].fields| == |types[t].subs|
    && (forall k :: 0 <= k < |m.slots| ==>
          if k < i then
            SameSlot(types, types[t].fields[k], types[t].subs[k], g.m.slots[k], m.slots[k]) && Marks(d, k) <= g.st.seen
          else g.m.slots[k] == InitialSlot(types, t, k, z))
    && ArrayDone(d, g.st.fixed) && (g.st.fixed.Array? ==> g.st.fixed.field < i)
  }

  /** The records of field `i` have arrived, or it had none. */
  lemma NextArrived(types: Types, t: nat, m: Msg, i: nat, g: Stage, z: bool, fixed: Progress, s: Slot, any: bool)
    requires t < |types| && i < |types[t].fields| && Arrived(types, t, m, i, g, z)
    requires SameSlot(types, types[t].fields[i], types[t].subs[i], s, m.slots[i])
    requires fixed == if IsFixedCount(types[t].fields[i]) then Array(i, 0) else g.st.fixed
    requires !any ==> s == g.m.slots[i] && !types[t].fields[i].htype.Required? && !IsFixedCount(types[t].fields[i])
    ensures var g' := if any then After(types, t, i, g, fixed, s, types[t].fields[i].arraySize) else g;
            Arrived(types, t, m, i + 1, g', z)
  {
    hide SameSlot, InitialSlot;
  }

  lemma {:induction false} FieldArrives(types: Types, t: nat, m: Msg, i: nat, g: Stage, z: bool, rest: bytes)
    returns (g': Stage)
    requires TypesOk(types) && t < |types| && Valid(types, t, m) && i < |m.slots| && Arrived(types, t, m, i, g, z)
    requires EncSlot(types, types[t].fields[i], types[t].subs[i], m.slots[i]).Some?
    requires |EncSlot(types, types[t].fields[i], types[t].subs[i], m.slots[i]).value| < TWO_TO_THE_32
    ensures var b := EncSlot(types, types[t].fields[i], types[t].subs[i], m.slots[i]).value;
            PointerSpec.Loop(types, t, b + rest, g) == PointerSpec.Loop(types, t, rest, g')
    ensures Arrived(types, t, m, i + 1, g', z)
    decreases m, 0
  {
    hide TypesOk, LaidOut, ValidSlot, SameSlot, EncSlot, InitialSlot, PointerSpec.Loop, Run, WireBytes, WireOk, Marks;
    Release.TypeFacts(types, t);
    var f := types[t].fields[i];
    assert Ownership.MemberOk(types, t, i);
    var fixed := if IsFixedCount(f) then Array(i, 0) else g.st.fixed;
    var ws, s := SlotArrives(types, t, i, m.slots[i], z);
    RunNothing(types, f, types[t].subs[i], g.m.slots[i]);
    NextArrived(types, t, m, i, g, z, fixed, s, ws != []);
    if ws == [] {
      g' := g;
      assert [] + rest == rest;
    } else {
      assert AtField(types, t, i, g, fixed);
      RunLoop(types, t, i, ws, g, fixed, rest);
      g' := After(types, t, i, g, fixed, s, f.arraySize);
      assert !IsFixedCount(f) ==> After(types, t, i, g, fixed, s, 0) == g';
    }
  }

  lemma RunNothing(types: Types, f: Field, sub: nat, s: Slot)
    ensures Run(types, f, sub, [], s, 0) == Some((s, 0)) && WireBytes(f.tag, []) == []
  {
  }

  lemma {:induction false} FieldsArrive(types: Types, t: nat, m: Msg, i: nat, g: Stage, z: bool, rest: bytes)
    returns (g': Stage)
    requires TypesOk(types) && t < |types| && Valid(types, t, m) && i <= |m.slots| && Arrived(types, t, m, i, g, z)
    requires EncSlots(types, t, m, i).Some? && |EncSlots(types, t, m, i).value| < TWO_TO_THE_32
    ensures PointerSpec.Loop(types, t, EncSlots(types, t, m, i).value + rest, g) == PointerSpec.Loop(types, t, rest, g')
    ensures Arrived(types, t, m, |m.slots|, g', z)
    decreases m, 1, |m.slots| - i
  {
    hide TypesOk, ValidSlot, EncSlot, PointerSpec.Loop, Arrived;
    if i == |m.slots| {
      assert [] + rest == rest;
      g' := g;
    } else {
      var e := EncSlot(types, types[t].fields[i], types[t].subs[i], m.slots[i]).value;
      var more := EncSlots(types, t, m, i + 1).value;
      assert e + more + rest == e + (more + rest);
      var next := FieldArrives(types, t, m, i, g, z, more + rest);
      g' := FieldsArrive(types, t, m, i + 1, next, z, rest);
    }
  }

  lemma NothingArrived(types: Types, t: nat, m: Msg, z: bool)
    requires TypesOk(types) && t < |types| && Valid(types, t, m)
    ensures Arrived(types, t, m, 0, PointerSpec.Start(InitialMessage(types, t, z)), z)
  {
    hide TypesOk, ValidSlot, InitialSlot, SameSlot;
  }

  lemma AllArrived(types: Types, t: nat, m: Msg, g: Stage, z: bool)
    requires t < |types| && Arrived(types, t, m, |m.slots|, g, z)
    ensures SameMessage(types, t, g.m, m)
    ensures ArrayDone(Table(types, t), g.st.fixed) && SeenBelow(CheckedFields(Table(types, t)), g.st.seen)
  {
    hide SameSlot, InitialSlot, Marks, SeenBelow, CheckedFields;
    RoundTrip.RequiredArrived(Table(types, t), CheckedFields(Table(types, t)), g.st.seen);
  }

  // ---- main results ----

  /**
   * A valid message with pointer fields of any kind, encoded and decoded again into a struct
   * set to defaults, is the same message; nothing is left over.
   */
  lemma {:induction false} MessageArrives(types: Types, t: nat, m: Msg, z: bool) returns (a: Arrival)
    requires TypesOk(types) && t < |types| && Valid(types, t, m)
    requires EncMsg(types, t, m).Some? && |EncMsg(types, t, m).value| < TWO_TO_THE_32
    ensures Merge(types, t, EncMsg(types, t, m).value, InitialMessage(types, t, z)) == Some(a)
    ensures a.rest == [] && !a.zeroTag && SameMessage(types, t, a.stage.m, m)
    decreases m, 2
  {
    hide TypesOk, Valid, Arrived, EncSlots, SameMessage, PointerSpec.Loop, InitialMessage;
    hide ArrayDone, SeenBelow, CheckedFields;
    NothingArrived(types, t, m, z);
    var b := EncMsg(types, t, m).value;
    var g := FieldsArrive(types, t, m, 0, PointerSpec.Start(InitialMessage(types, t, z)), z, []);
    assert b + [] == b;
    AllArrived(types, t, m, g, z);
    PointerSpec.LoopCases(types, t, [], g);
    a := Arrival(g, [], false);
  }

  // ---- encoding is total on valid messages, and a function of the message ----

  lemma {:induction false} ItemEncodes(types: Types, f: Field, sub: nat, it: Item)
    requires TypesOk(types) && f.atype.Pointer? && ValidItem(types, f, sub, it)
    ensures EncItem(types, f, sub, it).Some?
    decreases it, 0
  {
    hide TypesOk, EncMsg, Valid;
    match it
    case Leaf(v) => LeafEncodes(f, v);
    case Entry(block, v) =>
      if block.Some? {
        LeafEncodes(f, v);
      }
    case Submsg(m) => MessageEncodes(types, sub, m);
  }

  lemma LeafEncodes(f: Field, v: Value)
    requires !f.ltype.LSubmessage? && ValidLeaf(f, v)
    ensures EncLeaf(f, v).Some?
  {
    if f.ltype.Packable? || f.ltype.LFixedLengthBytes? {
      ValueEncodes(f, v);
    }
  }

  lemma {:induction false} ItemsEncode(types: Types, f: Field, sub: nat, items: seq<Item>)
    requires TypesOk(types) && f.atype.Pointer? && forall k :: 0 <= k < |items| ==> ValidItem(types, f, sub, items[k])
    ensures EncPacked(types, f, sub, items).Some? && EncUnpacked(types, f, sub, items).Some?
    decreases items, 1
  {
    hide TypesOk, ValidItem, EncItem;
    if items != [] {
      ItemEncodes(types, f, sub, items[0]);
      ItemsEncode(types, f, sub, items[1..]);
    }
  }

  lemma {:induction false} SlotEncodes(types: Types, f: Field, sub: nat, s: Slot)
    requires TypesOk(types) && !f.atype.Callback? && ValidSlot(types, f, sub, s)
    ensures EncSlot(types, f, sub, s).Some?
    decreases s, 0
  {
    hide TypesOk, ValidItem, EncItem, EncPacked, EncUnpacked, EncMsg, Valid, CellOk, EncField, AllDefaultSlots;
    match s
    case Plain(c) => CellEncodes(f, c);
    case Inline(has, m) =>
      if Valid(types, sub, m) {
        MessageEncodes(types, sub, m);
      }
    case Pointer(block, items) =>
      ItemsEncode(types, f, sub, items);
      if |items| == 1 {
        ItemEncodes(types, f, sub, items[0]);
      }
  }

  lemma {:induction false} SlotsEncode(types: Types, t: nat, m: Msg, i: nat)
    requires TypesOk(types) && Valid(types, t, m) && i <= |m.slots|
    ensures EncSlots(types, t, m, i).Some?
    decreases m, 0, |m.slots| - i
  {
    hide TypesOk, ValidSlot, EncSlot, LaidOut;
    if i < |m.slots| {
      Release.TypeFacts(types, t);
      assert Ownership.MemberOk(types, t, i);
      SlotEncodes(types, types[t].fields[i], types[t].subs[i], m.slots[i]);
      SlotsEncode(types, t, m, i + 1);
    }
  }

  /** A valid message always has an encoding. */
  lemma {:induction false} MessageEncodes(types: Types, t: nat, m: Msg)
    requires TypesOk(types) && Valid(types, t, m)
    ensures t < |types| && EncMsg(types, t, m).Some?
    decreases m, 1
  {
    hide TypesOk, ValidSlot, EncSlots;
    SlotsEncode(types, t, m, 0);
  }

  lemma {:induction false} SameItemEncodes(types: Types, f: Field, sub: nat, x: Item, y: Item)
    requires TypesOk(types) && SameItem(types, f, sub, x, y) && ValidItem(types, f, sub, y)
    ensures EncItem(types, f, sub, x) == EncItem(types, f, sub, y)
    decreases x, 0
  {
    hide TypesOk, EncMsg, Valid, CString, SameMessage;
    if f.ltype.LSubmessage? {
      SameMessageEncodes(types, sub, x.m, y.m);
    }
  }

  lemma {:induction false} SameItemsEncode(types: Types, f: Field, sub: nat, xs: seq<Item>, ys: seq<Item>)
    requires TypesOk(types) && SameEntries(types, f, sub, xs, ys)
    requires forall k :: 0 <= k < |ys| ==> ValidItem(types, f, sub, ys[k])
    ensures EncPacked(types, f, sub, xs) == EncPacked(types, f, sub, ys)
    ensures EncUnpacked(types, f, sub, xs) == EncUnpacked(types, f, sub, ys)
    decreases xs, 1
  {
    hide TypesOk, ValidItem, EncItem, SameItem;
    if xs != [] {
      SameItemEncodes(types, f, sub, xs[0], ys[0]);
      SameItemsEncode(types, f, sub, xs[1..], ys[1..]);
    }
  }

  lemma {:induction false} SameSlotEncodes(types: Types, t: nat, i: nat, x: Slot, y: Slot)
    requires TypesOk(types) && t < |types| && i < |types[t].fields| == |types[t].subs|
    requires Ownership.MemberOk(types, t, i)
    requires SameSlot(types, types[t].fields[i], types[t].subs[i], x, y)
    requires ValidSlot(types, types[t].fields[i], types[t].subs[i], y)
    ensures var f, sub := types[t].fields[i], types[t].subs[i];
            && EncSlot(types, f, sub, x) == EncSlot(types, f, sub, y)
            && IsDefaultSlot(types, f, sub, x) == IsDefaultSlot(types, f, sub, y)
    decreases x, 0
  {
    hide TypesOk, LaidOut, ValidItem, EncItem, EncPacked, EncUnpacked, EncMsg, Valid, SameItem, SameMessage;
    hide CellOk, EncField, AllDefaultSlots, ValueOk, SameValue, IsDefaultValue, ChecksAddress;
    var f, sub := types[t].fields[i], types[t].subs[i];
    match x
    case Plain(c) => SameCellEncodes(f, c, y.c);
    case Inline(has, m) =>
      if Valid(types, sub, y.m) && SameMessage(types, sub, m, y.m) {
        SameMessageEncodes(types, sub, m, y.m);
      }
    case Pointer(block, items) =>
      SameItemsEncode(types, f, sub, items, y.items);
      if |items| == 1 {
        assert SameItem(types, f, sub, items[0], y.items[0]);
        SameItemEncodes(types, f, sub, items[0], y.items[0]);
      }
  }

  lemma {:induction false} SameSlotsEncode(types: Types, t: nat, x: Msg, y: Msg, i: nat)
    requires TypesOk(types) && SameMessage(types, t, x, y) && Valid(types, t, y) && i <= |x.slots|
    ensures EncSlots(types, t, x, i) == EncSlots(types, t, y, i)
    ensures AllDefaultSlots(types, t, x, i) == AllDefaultSlots(types, t, y, i)
    decreases x, 0, |x.slots| - i
  {
    hide TypesOk, ValidSlot, SameSlot, EncSlot, IsDefaultSlot, LaidOut;
    if i < |x.slots| {
      Release.TypeFacts(types, t);
      assert Ownership.MemberOk(types, t, i);
      SameSlotEncodes(types, t, i, x.slots[i], y.slots[i]);
      SameSlotsEncode(types, t, x, y, i + 1);
    }
  }

  /** Structs that hold the same message have the same encoding. */
  lemma {:induction false} SameMessageEncodes(types: Types, t: nat, x: Msg, y: Msg)
    requires TypesOk(types) && SameMessage(types, t, x, y) && Valid(types, t, y)
    ensures t < |types| && EncMsg(types, t, x) == EncMsg(types, t, y)
    ensures AllDefaultSlots(types, t, x, 0) == AllDefaultSlots(types, t, y, 0)
    decreases x, 1
  {
    hide TypesOk, ValidSlot, SameSlot, EncSlots, AllDefaultSlots;
    SameSlotsEncode(types, t, x, y, 0);
  }

  /**
   * Round trip: every valid message with pointer fields is encoded; decoding the bytes with
   * dynamic allocation consumes them all and gives the same message, which encodes to the same
   * bytes again.
   */
  lemma WholeMessage(types: Types, t: nat, m: Msg)
    requires TypesOk(types) && t < |types| && Valid(types, t, m)
    requires EncMsg(types, t, m).Some? ==> |EncMsg(types, t, m).value| < TWO_TO_THE_32
    ensures EncMsg(types, t, m).Some?
    ensures var a := Merge(types, t, EncMsg(types, t, m).value, InitialMessage(types, t, false));
            && a.Some? && a.value.rest == [] && !a.value.zeroTag
            && SameMessage(types, t, a.value.stage.m, m)
            && EncMsg(types, t, a.value.stage.m) == EncMsg(types, t, m)
  {
    hide TypesOk, Valid, EncMsg, Merge, InitialMessage, SameMessage;
    MessageEncodes(types, t, m);
    var a := MessageArrives(types, t, m, false);
    SameMessageEncodes(types, t, a.stage.m, m);
  }

  /**
   * One value of any kind in a record: it becomes the value of the field, or a further entry
   * of the array, whatever was there before.
   */
  lemma RecordArrives(types: Types, f: Field, sub: nat, it: Item, s: Slot) returns (x: Item)
    requires TypesOk(types) && f.atype.Pointer? && 0 < f.dataSize <= PB_SIZE_MAX
    requires ValidItem(types, f, sub, it) && s.Pointer? && (f.htype.Repeated? ==> |s.items| < PB_SIZE_MAX)
    requires EncItem(types, f, sub, it).Some? && |EncItem(types, f, sub, it).value| < TWO_TO_THE_32
    ensures PointerValue(types, f, sub, WireType(f.ltype), EncItem(types, f, sub, it).value, s)
         == Some(Slot.Pointer(Some(0), if f.htype.Repeated? then s.items + [x] else [x]))
    ensures SameItem(types, f, sub, x, it)
    ensures f.ltype.Packable? || f.ltype.LFixedLengthBytes? ==> x == it
  {
    hide TypesOk, ItemValue, ValidItem, EncItem, FrameLen, SameMessage, SameContent;
    x := ItemArrives(types, f, sub, it);
  }

  // ---- what a pointer field writes ----

  /**
   * NULL is nothing for an optional field and an error for a required one; numbers in an array
   * are packed; everything else is records that start with the field's key.
   */
  lemma PointerForm(types: Types, f: Field, sub: nat, block: Option<nat>, items: seq<Item>)
    ensures var b := EncSlot(types, f, sub, Slot.Pointer(block, items));
            if !f.htype.Repeated? then
              && (block == None ==> b == if f.htype.Required? then None else Some([]))
              && (block.Some? && |items| == 1 && EncItem(types, f, sub, items[0]).Some? ==>
                    b == Some(Enc(8 * f.tag + WireFormat.WireTypeNumber(f.ltype))
                              + EncItem(types, f, sub, items[0]).value))
            else if items == [] then b == Some([])
            else if f.ltype.Packable? then
              var body := EncPacked(types, f, sub, items);
              b == if body.None? then None else Some(Enc(8 * f.tag + 2) + (Enc(|body.value|) + body.value))
            else
              b.Some? ==> Enc(8 * f.tag + WireFormat.WireTypeNumber(f.ltype)) <= b.value
  {
    hide EncItem, EncPacked, EncUnpacked, Enc;
    if items != [] {
      UnpackedForm(types, f, sub, items);
    }
  }

  lemma UnpackedForm(types: Types, f: Field, sub: nat, items: seq<Item>)
    requires items != []
    ensures EncUnpacked(types, f, sub, items).Some? ==>
              Enc(8 * f.tag + WireFormat.WireTypeNumber(f.ltype)) <= EncUnpacked(types, f, sub, items).value
  {
    hide EncItem, Enc;
    var record := EncItemRecord(types, f, sub, items[0]);
    assert EncUnpacked(types, f, sub, items) == Concat(record, EncUnpacked(types, f, sub, items[1..]));
    assert record.Some? ==> Enc(8 * f.tag + WireFormat.WireTypeNumber(f.ltype)) <= record.value;
  }
}
