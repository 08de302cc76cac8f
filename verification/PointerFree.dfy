/**
 * The build with dynamic allocation, on message types without pointer fields: it decodes
 * exactly what the build with static allocation only decodes.
 */
module PointerFree {
  import opened Common
  import opened Varint32
  import opened Descriptor
  import opened EncodeSpec
  import opened DecodeSpec
  import opened Ownership
  import PointerEncode
  import PointerSpec
  import Records
  import Release

  // Without pointers there are no blocks, so structs are those with an empty record of sizes.

  ghost predicate NoPointers(types: Types) {
    && TypesOk(types)
    && forall t, i :: 0 <= t < |types| && 0 <= i < |types[t].fields| ==> types[t].fields[i].atype.Static?
  }

  /** No two members of a struct have the same offset. */
  ghost predicate Distinct(types: Types) {
    forall t, i, j :: 0 <= t < |types| && 0 <= i < j < |types[t].fields| ==>
      types[t].fields[i].at != types[t].fields[j].at
  }

  lemma NoPointersDistinct(types: Types)
    requires NoPointers(types)
    ensures Distinct(types)
  {
    hide LaidOut;
    forall t, i, j | 0 <= t < |types| && 0 <= i < j < |types[t].fields|
      ensures types[t].fields[i].at != types[t].fields[j].at
    {
      Release.TypeFacts(types, t);
      assert MemberOk(types, t, i);
      OffsetsAscend(types[t].fields, i, j);
    }
  }

  // ---- the same tables and structs in the other form ----

  function FieldOf(types: Types, t: nat, i: nat): Field
    requires t < |types| && i < |types[t].fields|
    decreases t, 0
  {
    var f := types[t].fields[i];
    if f.ltype.LSubmessage? && i < |types[t].subs| && types[t].subs[i] < t
    then f.(ptr := Ptr.Submsg(DescOf(types, types[t].subs[i]))) else f
  }

  function FieldsOf(types: Types, t: nat, i: nat): (r: seq<Field>)
    requires t < |types| && i <= |types[t].fields|
    ensures |r| == |types[t].fields| - i
    ensures forall k :: 0 <= k < |r| ==> r[k] == FieldOf(types, t, i + k)
    decreases t, 1, |types[t].fields| - i
  {
    if i == |types[t].fields| then [] else [FieldOf(types, t, i)] + FieldsOf(types, t, i + 1)
  }

  /** The table with the tables of its submessages nested in it. */
  function DescOf(types: Types, t: nat): (d: Desc)
    requires t < |types|
    ensures |d.fields| == |types[t].fields|
    decreases t, 2
  {
    Desc(FieldsOf(types, t, 0))
  }

  function CellOf(types: Types, t: nat, i: nat, s: Slot): Cell
    requires t < |types| && i < |types[t].fields|
    decreases t, 0
  {
    match s
    case Plain(c) => c
    case Inline(has, m) =>
      var v :=
        if i < |types[t].subs| && types[t].subs[i] < t then Sub(CellsOf(types, types[t].subs[i], m)) else Garbage;
      if HasFlag(types[t].fields[i]) then Flagged(has, v) else Single(v)
    case Pointer(_, _) => Single(Garbage)
  }

  function CellsFrom(types: Types, t: nat, m: Msg, i: nat): Cells
    requires t < |types| && i <= |types[t].fields|
    decreases t, 1, |types[t].fields| - i
  {
    if i == |types[t].fields| || i >= |m.slots| then map[]
    else CellsFrom(types, t, m, i + 1)[types[t].fields[i].at := CellOf(types, t, i, m.slots[i])]
  }

  /** The members by offset instead of by field. */
  function CellsOf(types: Types, t: nat, m: Msg): Cells
    requires t < |types|
    decreases t, 2
  {
    CellsFrom(types, t, m, 0)
  }

  function StateOf(types: Types, t: nat, g: PointerSpec.Stage): State
    requires t < |types|
  {
    State(CellsOf(types, t, g.m), g.st.seen, g.st.fixed)
  }

  /** Every member is found at its offset. */
  lemma {:induction false} CellAt(types: Types, t: nat, m: Msg, i: nat, k: nat)
    requires Distinct(types) && t < |types| && i <= k < |types[t].fields| == |m.slots|
    ensures var cells := CellsFrom(types, t, m, i);
            types[t].fields[k].at in cells && cells[types[t].fields[k].at] == CellOf(types, t, k, m.slots[k])
    decreases k - i
  {
    hide CellOf;
    if i < k {
      CellAt(types, t, m, i + 1, k);
      assert types[t].fields[i].at != types[t].fields[k].at;
    }
  }

  lemma {:induction false} CellKeys(types: Types, t: nat, m: Msg, i: nat, a: nat)
    requires t < |types| && i <= |types[t].fields| == |m.slots|
    ensures a in CellsFrom(types, t, m, i) <==> exists k :: i <= k < |types[t].fields| && types[t].fields[k].at == a
    decreases |types[t].fields| - i
  {
    hide CellOf;
    if i < |types[t].fields| {
      CellKeys(types, t, m, i + 1, a);
    }
  }

  lemma CellsUpdate(types: Types, t: nat, m: Msg, i: nat, s: Slot)
    requires Distinct(types) && t < |types| && i < |types[t].fields| == |m.slots|
    ensures types[t].fields[i].at in CellsOf(types, t, m)
    ensures CellsOf(types, t, m)[types[t].fields[i].at] == CellOf(types, t, i, m.slots[i])
    ensures CellsOf(types, t, Msg(m.slots[i := s]))
         == CellsOf(types, t, m)[types[t].fields[i].at := CellOf(types, t, i, s)]
  {
    hide CellOf;
    var fs := types[t].fields;
    var x, y := CellsOf(types, t, Msg(m.slots[i := s])), CellsOf(types, t, m)[fs[i].at := CellOf(types, t, i, s)];
    var m' := Msg(m.slots[i := s]);
    CellAt(types, t, m, 0, i);
    forall a | a in x.Keys + y.Keys ensures a in x && a in y && x[a] == y[a] {
      CellKeys(types, t, m, 0, a);
      CellKeys(types, t, m', 0, a);
      var k :| 0 <= k < |fs| && fs[k].at == a;
      CellAt(types, t, m, 0, k);
      CellAt(types, t, m', 0, k);
      assert k != i ==> if k < i then fs[k].at != fs[i].at else fs[i].at != fs[k].at;
    }
  }

  // ---- what depends on the table only ----

  /** The same table, but for the `ptr` members. */
  ghost predicate SameTable(d: Desc, d': Desc) {
    && |d.fields| == |d'.fields|
    && forall i :: 0 <= i < |d.fields| ==> d'.fields[i] == d.fields[i].(ptr := d'.fields[i].ptr)
  }

  lemma DescOfSame(types: Types, t: nat)
    requires t < |types|
    ensures SameTable(PointerSpec.Table(types, t), DescOf(types, t))
  {
  }

  lemma {:induction false} FindSame(d: Desc, d': Desc, tag: nat, i: nat)
    requires SameTable(d, d') && i <= |d.fields|
    ensures FindFrom(d'.fields, tag, i) == FindFrom(d.fields, tag, i)
    decreases |d.fields| - i
  {
    if i < |d.fields| {
      FindSame(d, d', tag, i + 1);
    }
  }

  lemma {:induction false} RequiredSame(d: Desc, d': Desc, i: nat)
    requires SameTable(d, d') && i <= |d.fields|
    ensures RequiredBefore(d'.fields, i) == RequiredBefore(d.fields, i)
  {
    if i > 0 {
      RequiredSame(d, d', i - 1);
    }
  }

  /** Framing, the tracking of arrays and required fields, and the final check. */
  lemma TableDecides(d: Desc, d': Desc)
    requires SameTable(d, d')
    ensures forall tag :: Find(d', tag) == Find(d, tag) && MatchesTerminator(d', tag) == MatchesTerminator(d, tag)
    ensures forall tag, wt :: FramingOf(d', tag, wt) == FramingOf(d, tag, wt)
    ensures forall i, fixed :: 0 <= i < |d.fields| ==> StartArray(d', i, fixed) == StartArray(d, i, fixed)
    ensures forall i :: 0 <= i < |d.fields| ==> Marks(d', i) == Marks(d, i)
    ensures forall fixed :: ArrayDone(d', fixed) == ArrayDone(d, fixed)
    ensures CheckedFields(d') == CheckedFields(d)
  {
    hide RequiredBefore, FindFrom;
    RequiredSame(d, d', |d.fields|);
    forall tag ensures Find(d', tag) == Find(d, tag) {
      FindSame(d, d', tag, 0);
    }
    forall i | 0 <= i < |d.fields| ensures Marks(d', i) == Marks(d, i) {
      RequiredSame(d, d', i);
    }
  }

  // ---- default values ----

  lemma {:induction false} InitialKeysOnly(d: Desc, z: bool, i: nat, cells: Cells, a: nat)
    requires i <= |d.fields|
    ensures a in InitialFrom(d, z, i, cells) <==> a in cells || exists k :: i <= k < |d.fields| && d.fields[k].at == a
    decreases |d.fields| - i
  {
    if i < |d.fields| {
      InitialKeysOnly(d, z, i + 1, cells[d.fields[i].at := InitialCell(d.fields[i], z)], a);
    }
  }

  lemma {:induction false} InitialSlotSame(types: Types, t: nat, i: nat, z: bool)
    requires NoPointers(types) && Distinct(types) && t < |types| && i < |types[t].fields| == |types[t].subs|
    requires MemberOk(types, t, i)
    ensures CellOf(types, t, i, PointerSpec.InitialSlot(types, t, i, z)) == InitialCell(FieldOf(types, t, i), z)
    ensures ShapedSlot(types, types[t].fields[i], types[t].subs[i], PointerSpec.InitialSlot(types, t, i, z), map[])
    decreases t, 0
  {
    hide LaidOut, CellsOf, DescOf, TypesOk;
    if types[t].fields[i].ltype.LSubmessage? {
      InitialSame(types, types[t].subs[i], z);
    }
  }

  lemma {:induction false} InitialSame(types: Types, t: nat, z: bool)
    requires NoPointers(types) && Distinct(types) && t < |types|
    ensures CellsOf(types, t, PointerSpec.InitialMessage(types, t, z)) == Initial(DescOf(types, t), z)
    ensures Shaped(types, t, PointerSpec.InitialMessage(types, t, z), map[])
    decreases t, 1
  {
    hide CellOf, InitialCell, FieldOf, LaidOut, TypesOk, ShapedSlot, PointerSpec.InitialSlot, MemberOk;
    Release.TypeFacts(types, t);
    var m, d := PointerSpec.InitialMessage(types, t, z), DescOf(types, t);
    SameLayout(types, t);
    InitialHolds(d, z);
    forall i | 0 <= i < |types[t].fields|
      ensures CellOf(types, t, i, m.slots[i]) == InitialCell(d.fields[i], z) && d.fields[i].at == types[t].fields[i].at
      ensures ShapedSlot(types, types[t].fields[i], types[t].subs[i], m.slots[i], map[])
    {
      InitialSlotSame(types, t, i, z);
      DescOfSame(types, t);
    }
    var x, y := CellsOf(types, t, m), Initial(d, z);
    forall a | a in x.Keys + y.Keys ensures a in x && a in y && x[a] == y[a] {
      InitialKeysOnly(d, z, 0, map[], a);
      CellKeys(types, t, m, 0, a);
      var k :| 0 <= k < |d.fields| && d.fields[k].at == a;
      assert types[t].fields[k].at == a;
      CellAt(types, t, m, 0, k);
    }
  }

  lemma {:induction false} SameLayout(types: Types, t: nat)
    requires t < |types| && LaidOut(types[t].fields)
    ensures LaidOut(DescOf(types, t).fields)
  {
    var fs, gs := types[t].fields, DescOf(types, t).fields;
    DescOfSame(types, t);
    assert forall i :: 0 <= i < |fs| ==> gs[i] == fs[i].(ptr := gs[i].ptr) && MemberSize(gs[i]) == MemberSize(fs[i]);
    forall i | 0 < i < |fs| ensures UnionPlaced(gs[i - 1], gs[i]) || OtherPlaced(gs[i - 1], gs[i]) {
      assert UnionPlaced(fs[i - 1], fs[i]) || OtherPlaced(fs[i - 1], fs[i]);
    }
  }

  // ---- decoding ----

  lemma {:induction false} FieldSame(types: Types, t: nat, i: nat, wt: nat, p: bytes, s: Slot, count: nat)
    requires NoPointers(types) && Distinct(types) && t < |types| && i < |types[t].fields| == |types[t].subs|
    requires MemberOk(types, t, i) && ShapedSlot(types, types[t].fields[i], types[t].subs[i], s, map[])
    ensures var r := PointerSpec.FieldValue(types, types[t].fields[i], types[t].subs[i], wt, p, s, count);
            && (r.Some? ==> ShapedSlot(types, types[t].fields[i], types[t].subs[i], r.value.0, map[]))
            && ApplyField(FieldOf(types, t, i), wt, p, CellOf(types, t, i, s), count) ==
                 match r case None => None case Some((s', n)) => Some((CellOf(types, t, i, s'), n))
    decreases |p|, 0
  {
    hide LaidOut, CellsOf, DescOf, TypesOk, PointerSpec.Merge, DecNoinit, Extend, Shaped;
    if types[t].fields[i].ltype.LSubmessage? && Dec32(p).Some? {
      MergeSame(types, types[t].subs[i], Contents(p), s.m);
    }
  }

  lemma {:induction false} KnownSame(types: Types, t: nat, i: nat, wt: nat, p: bytes, g: PointerSpec.Stage)
    requires NoPointers(types) && Distinct(types) && t < |types| && Shaped(types, t, g.m, map[])
    requires UniqueTags(types[t].fields) && i < |types[t].fields| == |types[t].subs| && MemberOk(types, t, i)
    ensures var r := PointerSpec.ApplyKnown(types, t, i, wt, p, g);
            && (r.Some? ==> Shaped(types, t, r.value.m, map[]))
            && Apply(DescOf(types, t), types[t].fields[i].tag, wt, p, StateOf(types, t, g)) ==
                 match r case None => None case Some(g') => Some(StateOf(types, t, g'))
    decreases |p|, 1
  {
    hide LaidOut, ApplyField, PointerSpec.FieldValue, CellOf, TypesOk, MemberOk;
    hide CellsOf, Shaped, ShapedSlot, NoPointers, Distinct;
    hide Marks;
    var d, d' := PointerSpec.Table(types, t), DescOf(types, t);
    DescOfSame(types, t);
    TableDecides(d, d');
    FindUnique(d, i);
    assert d'.fields[i] == FieldOf(types, t, i);
    Release.ShapedLength(types, t, g.m, map[]);
    SlotOfMessage(types, t, g.m, i, map[]);
    var fixed := StartArray(d, i, g.st.fixed);
    var count := if IsFixedCount(d.fields[i]) && fixed.Some? then fixed.value.count else 0;
    FieldSame(types, t, i, wt, p, g.m.slots[i], count);
    CellsUpdate(types, t, g.m, i, g.m.slots[i]);
    var r := PointerSpec.FieldValue(types, types[t].fields[i], types[t].subs[i], wt, p, g.m.slots[i], count);
    if r.Some? {
      SlotUpdated(types, t, g.m, i, r.value.0, map[]);
      CellsUpdate(types, t, g.m, i, r.value.0);
    }
  }

  lemma {:induction false} ApplySame(types: Types, t: nat, tag: nat, wt: nat, p: bytes, g: PointerSpec.Stage)
    requires NoPointers(types) && Distinct(types) && t < |types| && Shaped(types, t, g.m, map[])
    ensures var r := PointerSpec.Apply(types, t, tag, wt, p, g);
            && (r.Some? ==> Shaped(types, t, r.value.m, map[]))
            && Apply(DescOf(types, t), tag, wt, p, StateOf(types, t, g)) ==
                 match r case None => None case Some(g') => Some(StateOf(types, t, g'))
    decreases |p|, 2
  {
    hide LaidOut, ApplyField, PointerSpec.ApplyKnown, TypesOk, MemberOk, StateOf, DescOf, Shaped, Distinct;
    hide StartArray, Marks;
    var d, d' := PointerSpec.Table(types, t), DescOf(types, t);
    DescOfSame(types, t);
    TableDecides(d, d');
    Release.TypeFacts(types, t);
    var i := Find(d, tag);
    if !MatchesTerminator(d, tag) && i.Some? {
      KnownSame(types, t, i.value, wt, p, g);
    }
  }

  lemma {:induction false} LoopSame(types: Types, t: nat, s: bytes, g: PointerSpec.Stage)
    requires NoPointers(types) && Distinct(types) && t < |types| && Shaped(types, t, g.m, map[])
    ensures var r := PointerSpec.Loop(types, t, s, g);
            && (r.Some? ==> Shaped(types, t, r.value.stage.m, map[]))
            && Loop(DescOf(types, t), s, StateOf(types, t, g)) ==
                 match r
                 case None => None
                 case Some(a) => Some(Outcome(StateOf(types, t, a.stage), a.rest, a.zeroTag))
    decreases |s|, 3
  {
    hide Apply, PointerSpec.Apply, PointerSpec.Loop, Loop, StateOf, DescOf, Shaped;
    hide NoPointers, FrameLen, FramingOf, DecTag, Distinct;
    var d, d', st := PointerSpec.Table(types, t), DescOf(types, t), StateOf(types, t, g);
    PointerSpec.LoopCases(types, t, s, g);
    Records.LoopCases(d', s, st);
    if s != [] && DecTag(s).FieldTag? {
      PointerSpec.LoopTurn(types, t, s, g);
      Records.LoopTurn(d', s, st);
      var FieldTag(tag, wt, n) := DecTag(s);
      DescOfSame(types, t);
      TableDecides(d, d');
      var k := FrameLen(FramingOf(d, tag, wt), s[n..]);
      if k.Some? {
        var p := s[n..][..k.value];
        ApplySame(types, t, tag, wt, p, g);
        var next := PointerSpec.Apply(types, t, tag, wt, p, g);
        if next.Some? {
          LoopSame(types, t, s[n..][k.value..], next.value);
        }
      }
    }
  }

  /** pb_decode_noinit is the same in both builds. */
  lemma {:induction false} MergeSame(types: Types, t: nat, s: bytes, m: Msg)
    requires NoPointers(types) && Distinct(types) && t < |types| && Shaped(types, t, m, map[])
    ensures var r := PointerSpec.Merge(types, t, s, m);
            && (r.Some? ==> Shaped(types, t, r.value.stage.m, map[]))
            && DecNoinit(DescOf(types, t), s, CellsOf(types, t, m)) ==
                 match r
                 case None => None
                 case Some(a) => Some(Outcome(StateOf(types, t, a.stage), a.rest, a.zeroTag))
    decreases |s|, 4
  {
    hide Loop, PointerSpec.Loop, CellsOf, DescOf, Shaped, NoPointers, ArrayDone, SeenBelow, CheckedFields, Distinct;
    DescOfSame(types, t);
    TableDecides(PointerSpec.Table(types, t), DescOf(types, t));
    LoopSame(types, t, s, PointerSpec.Start(m));
  }

  /**
   * pb_decode is the same in both builds, for every input: same success, same struct, same
   * rest of the stream.
   */
  lemma DecodeSame(types: Types, t: nat, s: bytes)
    requires NoPointers(types) && t < |types|
    ensures Distinct(types)
    ensures Dec(DescOf(types, t), s) ==
              match PointerSpec.Merge(types, t, s, PointerSpec.InitialMessage(types, t, false))
              case None => None
              case Some(a) => Some(Outcome(StateOf(types, t, a.stage), a.rest, a.zeroTag))
  {
    hide DecNoinit, PointerSpec.Merge, Initial, NoPointers, Distinct, StateOf;
    NoPointersDistinct(types);
    InitialSame(types, t, false);
    MergeSame(types, t, s, PointerSpec.InitialMessage(types, t, false));
  }

  // ---- encoding ----

  /** A member is encoded alike, and is a proto3 default in both forms or in neither. */
  lemma {:induction false} EncSlotSame(types: Types, t: nat, i: nat, s: Slot)
    requires NoPointers(types) && Distinct(types) && t < |types| && i < |types[t].fields| == |types[t].subs|
    requires MemberOk(types, t, i) && ShapedSlot(types, types[t].fields[i], types[t].subs[i], s, map[])
    ensures var f, sub := types[t].fields[i], types[t].subs[i];
            && EncField(FieldOf(types, t, i), CellOf(types, t, i, s)) == PointerEncode.EncSlot(types, f, sub, s)
            && IsDefault(FieldOf(types, t, i), CellOf(types, t, i, s)) == PointerEncode.IsDefaultSlot(types, f, sub, s)
    decreases s, 0
  {
    hide LaidOut, CellsOf, DescOf, TypesOk, EncFrom, AllDefault, Shaped, TagBytes, Delimited;
    hide PointerEncode.EncMsg, PointerEncode.AllDefaultSlots;
    var f, sub := types[t].fields[i], types[t].subs[i];
    if f.ltype.LSubmessage? {
      EncodeSame(types, sub, s.m);
      var b := EncFrom(DescOf(types, sub), 0, CellsOf(types, sub, s.m));
      var v := Sub(CellsOf(types, sub, s.m));
      var f', key := FieldOf(types, t, i), TagBytes(f.tag, WireType(f.ltype));
      assert EncRecord(f', v) == if b.None? then None else Some(key + Delimited(b.value));
      var c, record := CellOf(types, t, i, s), EncRecord(f', v);
      assert PointerEncode.EncSlot(types, f, sub, s) ==
             if f.htype.Optional? && PointerEncode.IsDefaultSlot(types, f, sub, s) then Some([]) else record;
      assert EncField(f', c) == if f.htype.Optional? && IsDefault(f', c) then Some([]) else record;
      assert IsDefault(f', c) == PointerEncode.IsDefaultSlot(types, f, sub, s);
      assert EncField(f', c) == PointerEncode.EncSlot(types, f, sub, s);
    } else {
      assert FieldOf(types, t, i) == f && CellOf(types, t, i, s) == s.c;
    }
  }

  lemma {:induction false} EncSlotsSame(types: Types, t: nat, m: Msg, i: nat)
    requires NoPointers(types) && Distinct(types) && t < |types| && Shaped(types, t, m, map[]) && i <= |m.slots|
    requires i <= |DescOf(types, t).fields|
    ensures EncFrom(DescOf(types, t), i, CellsOf(types, t, m)) == PointerEncode.EncSlots(types, t, m, i)
    ensures AllDefault(DescOf(types, t), i, CellsOf(types, t, m)) == PointerEncode.AllDefaultSlots(types, t, m, i)
    decreases m, 0, |m.slots| - i
  {
    hide LaidOut, ShapedSlot, EncField, IsDefault, CellOf, FieldOf, TypesOk, MemberOk;
    hide PointerEncode.EncSlot, PointerEncode.IsDefaultSlot;
    var d := DescOf(types, t);
    if i < |m.slots| {
      Release.TypeFacts(types, t);
      DescOfSame(types, t);
      assert d.fields[i] == FieldOf(types, t, i);
      CellAt(types, t, m, 0, i);
      EncSlotSame(types, t, i, m.slots[i]);
      EncSlotsSame(types, t, m, i + 1);
    }
  }

  /** pb_encode is the same in both builds, for every struct. */
  lemma {:induction false} EncodeSame(types: Types, t: nat, m: Msg)
    requires NoPointers(types) && Distinct(types) && t < |types| && Shaped(types, t, m, map[])
    ensures EncMessage(DescOf(types, t), CellsOf(types, t, m)) == PointerEncode.EncMsg(types, t, m)
    ensures AllDefault(DescOf(types, t), 0, CellsOf(types, t, m)) == PointerEncode.AllDefaultSlots(types, t, m, 0)
    decreases m, 1
  {
    hide EncFrom, AllDefault, PointerEncode.EncSlots, PointerEncode.AllDefaultSlots;
    EncSlotsSame(types, t, m, 0);
  }
}
