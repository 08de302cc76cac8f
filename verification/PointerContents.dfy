/**
 * What a struct with pointer fields holds after decoding, for every input and at every depth:
 * each member is NULL or its default, or what its records say.
 */
module PointerContents {
  import opened Common
  import opened Descriptor
  import opened DecodeSpec
  import opened RequiredCheck
  import opened Validity
  import opened Ownership
  import opened PointerSpec
  import Release

  /** The struct after decoding `ss` into it one after another, starting from default values. */
  function MergedFrom(types: Types, t: nat, ss: seq<bytes>, z: bool): Option<Msg>
    requires t < |types|
    decreases |ss|
  {
    if ss == [] then Some(InitialMessage(types, t, z))
    else
      match MergedFrom(types, t, ss[..|ss| - 1], z)
      case None => None
      case Some(m) =>
        match Merge(types, t, ss[|ss| - 1], m)
        case None => None
        case Some(a) => Some(a.stage.m)
  }

  lemma MergedFromAppended(types: Types, t: nat, ss: seq<bytes>, s: bytes, z: bool)
    requires t < |types|
    ensures MergedFrom(types, t, ss + [s], z) ==
              match MergedFrom(types, t, ss, z)
              case None => None
              case Some(m) =>
                match Merge(types, t, s, m)
                case None => None
                case Some(a) => Some(a.stage.m)
  {
    hide Merge, InitialMessage;
    assert (ss + [s])[..|ss|] == ss;
  }

  // ---- what a slot holds while records arrive ----

  /** NULL without a record; else the last value, or for arrays one entry for each record. */
  ghost predicate PointerMatches(types: Types, f: Field, sub: nat, s: Slot, ps: seq<bytes>) {
    s.Pointer? &&
    if !f.htype.Repeated? then
      if ps == [] then s == Slot.Pointer(None, [])
      else s.block == Some(0) && |s.items| == 1 && ItemValue(types, f, sub, ps[|ps| - 1]) == Some(s.items[0])
    else
      && s.block == (if s.items == [] then None else Some(0)) && (ps == [] ==> s.items == [])
      && (!f.ltype.Packable? ==> ItemsMatch(types, f, sub, s.items, ps))
  }

  ghost predicate ItemsMatch(types: Types, f: Field, sub: nat, items: seq<Item>, ps: seq<bytes>) {
    |items| == |ps| && forall k :: 0 <= k < |items| ==> ItemValue(types, f, sub, ps[k]) == Some(items[k])
  }

  /** Static members; submessages are not followed up here. */
  ghost predicate PlainMatches(f: Field, s: Slot, ps: seq<bytes>) {
    && s.Plain? && Fits(f, s.c)
    && (f.htype.Required? || f.htype.Optional? ==>
          SingleMatches(f, s.c.v, ps, false) && (s.c.Flagged? ==> (s.c.has <==> ps != [])))
  }

  ghost predicate SlotMatches(types: Types, f: Field, sub: nat, s: Slot, ps: seq<bytes>, z: bool) {
    if f.atype.Pointer? then PointerMatches(types, f, sub, s, ps)
    else if f.ltype.LSubmessage? then
      && s.Inline? && s.has == (HasFlag(f) && ps != [])
      && sub < |types| && MergedFrom(types, sub, Bodies(ps), z) == Some(s.m)
    else PlainMatches(f, s, ps)
  }

  ghost predicate Matches(types: Types, t: nat, m: Msg, h: seq<Received>, z: bool)
    requires t < |types|
  {
    && |m.slots| == |types[t].fields| == |types[t].subs|
    && forall i :: 0 <= i < |m.slots| ==>
         SlotMatches(types, types[t].fields[i], types[t].subs[i], m.slots[i], Payloads(h, i), z)
  }

  lemma InitialSlotMatches(types: Types, t: nat, i: nat, z: bool)
    requires TypesOk(types) && t < |types| && i < |types[t].fields| == |types[t].subs|
    requires Ownership.MemberOk(types, t, i)
    ensures SlotMatches(types, types[t].fields[i], types[t].subs[i], InitialSlot(types, t, i, z), [], z)
  {
    hide TypesOk, LaidOut, InitialMessage;
    var f, sub := types[t].fields[i], types[t].subs[i];
    if f.atype.Static? && f.ltype.LSubmessage? {
      assert MergedFrom(types, sub, Bodies([]), z) == Some(InitialMessage(types, sub, z));
    } else if f.atype.Static? && !f.htype.Repeated? {
      InitialFieldMatches(f, z);
    }
  }

  lemma InitialMatches(types: Types, t: nat, z: bool)
    requires TypesOk(types) && t < |types|
    ensures Matches(types, t, InitialMessage(types, t, z), [], z)
  {
    hide TypesOk, LaidOut, SlotMatches, InitialSlot, Ownership.MemberOk;
    Release.TypeFacts(types, t);
    forall i | 0 <= i < |types[t].fields|
      ensures SlotMatches(types, types[t].fields[i], types[t].subs[i], InitialSlot(types, t, i, z), Payloads([], i), z)
    {
      InitialSlotMatches(types, t, i, z);
    }
  }

  // ---- one record ----

  lemma {:induction false} PackedGrows(f: Field, c: bytes, items: seq<Item>)
    requires PackedItems(f, c, items).Some?
    ensures |PackedItems(f, c, items).value| >= |items|
    decreases |c|
  {
    hide FrameLen, DecValue;
    if c != [] {
      var k := FrameLen(ItemFraming(f.ltype), c).value;
      PackedGrows(f, c[k..], items + [Leaf(DecValue(f, c[..k], Garbage).value)]);
    }
  }

  lemma PointerRecord(types: Types, f: Field, sub: nat, wt: nat, p: bytes, s: Slot, ps: seq<bytes>)
    requires PointerMatches(types, f, sub, s, ps) && PointerValue(types, f, sub, wt, p, s).Some?
    ensures PointerMatches(types, f, sub, PointerValue(types, f, sub, wt, p, s).value, ps + [p])
  {
    hide ItemValue, PackedItems;
    var s' := PointerValue(types, f, sub, wt, p, s).value;
    if IsPacked(f, wt) {
      PackedGrows(f, Contents(p), s.items);
    } else if f.htype.Repeated? && !f.ltype.Packable? {
      forall k | 0 <= k < |s'.items| ensures ItemValue(types, f, sub, (ps + [p])[k]) == Some(s'.items[k]) {
        assert (ps + [p])[k] == if k < |ps| then ps[k] else p;
      }
    }
  }

  lemma PlainRecord(f: Field, wt: nat, p: bytes, s: Slot, count: nat, ps: seq<bytes>)
    requires FieldOk(f) && !f.ltype.LSubmessage? && PlainMatches(f, s, ps) && ApplyField(f, wt, p, s.c, count).Some?
    ensures PlainMatches(f, Plain(ApplyField(f, wt, p, s.c, count).value.0), ps + [p])
  {
    hide DecValue, Extend, HoldsDefault;
    if f.htype.Required? || f.htype.Optional? {
      OverwritesAll(f, p, s.c.v);
    } else {
      ArrayFits(f, wt, p, s.c, count);
    }
  }

  lemma ArrayFits(f: Field, wt: nat, p: bytes, c: Cell, count: nat)
    requires Fits(f, c) && ApplyField(f, wt, p, c, count).Some?
    ensures Fits(f, ApplyField(f, wt, p, c, count).value.0)
  {
    hide DecValue;
    if IsFixedCount(f) && count <= |c.items| {
      var xs := Extend(f, wt, p, c.items[..count]).value;
      assert |xs| <= f.arraySize;
    }
  }

  lemma OwnSlotMatches(types: Types, t: nat, i: nat, wt: nat, p: bytes, s: Slot, count: nat, ps: seq<bytes>, z: bool)
    requires t < |types| && i < |types[t].fields| == |types[t].subs| && Ownership.MemberOk(types, t, i)
    requires SlotMatches(types, types[t].fields[i], types[t].subs[i], s, ps, z)
    requires FieldValue(types, types[t].fields[i], types[t].subs[i], wt, p, s, count).Some?
    ensures var s' := FieldValue(types, types[t].fields[i], types[t].subs[i], wt, p, s, count).value.0;
            SlotMatches(types, types[t].fields[i], types[t].subs[i], s', ps + [p], z)
  {
    hide PointerMatches, PlainMatches, PointerValue, ApplyField, Merge;
    var f, sub := types[t].fields[i], types[t].subs[i];
    if f.atype.Pointer? {
      assert s.Pointer? by {
        assert PointerMatches(types, f, sub, s, ps);
        SlotIsPointer(types, f, sub, s, ps);
      }
      PointerRecord(types, f, sub, wt, p, s, ps);
    } else if f.ltype.LSubmessage? {
      BodiesAppended(ps, p);
      MergedFromAppended(types, sub, Bodies(ps), Body(p), z);
    } else {
      PlainRecord(f, wt, p, s, count, ps);
    }
  }

  lemma SlotIsPointer(types: Types, f: Field, sub: nat, s: Slot, ps: seq<bytes>)
    requires PointerMatches(types, f, sub, s, ps)
    ensures s.Pointer?
  {
  }

  lemma KnownMatches(types: Types, t: nat, i: nat, wt: nat, p: bytes, g: Stage, h: seq<Received>, z: bool)
    requires TypesOk(types) && t < |types| && i < |types[t].fields| && Matches(types, t, g.m, h, z)
    requires ApplyKnown(types, t, i, wt, p, g).Some?
    ensures Matches(types, t, ApplyKnown(types, t, i, wt, p, g).value.m, h + [Received(i, p)], z)
  {
    hide TypesOk, LaidOut, Ownership.MemberOk, SlotMatches, FieldValue, Payloads, Marks;
    Release.TypeFacts(types, t);
    Appended(Table(types, t), h, Received(i, p));
    var m, m' := g.m, ApplyKnown(types, t, i, wt, p, g).value.m;
    var count := if IsFixedCount(types[t].fields[i]) then StartArray(Table(types, t), i, g.st.fixed).value.count else 0;
    OwnSlotMatches(types, t, i, wt, p, m.slots[i], count, Payloads(h, i), z);
    forall k | 0 <= k < |m.slots|
      ensures SlotMatches(types, types[t].fields[k], types[t].subs[k], m'.slots[k],
                          Payloads(h + [Received(i, p)], k), z)
    {
      if k != i {
        assert Payloads(h, k) + [] == Payloads(h, k);
      }
    }
  }

  lemma RecordMatches(types: Types, t: nat, tag: nat, wt: nat, p: bytes, g: Stage, h: seq<Received>, z: bool)
    requires TypesOk(types) && t < |types| && Matches(types, t, g.m, h, z)
    requires PointerSpec.Apply(types, t, tag, wt, p, g).Some?
    ensures Matches(types, t, PointerSpec.Apply(types, t, tag, wt, p, g).value.m,
                    h + KnownOne(Table(types, t), tag, p), z)
  {
    hide ApplyKnown, Matches, TypesOk;
    var d := Table(types, t);
    if !MatchesTerminator(d, tag) && Find(d, tag).Some? {
      KnownMatches(types, t, Find(d, tag).value, wt, p, g, h, z);
    } else {
      assert h + [] == h;
    }
  }

  /** The record loop, on every input. */
  lemma {:induction false} LoopMatches(types: Types, t: nat, s: bytes, g: Stage, h: seq<Received>, z: bool)
    requires TypesOk(types) && t < |types| && Matches(types, t, g.m, h, z)
    ensures PointerSpec.Loop(types, t, s, g).Some? ==>
              Matches(types, t, PointerSpec.Loop(types, t, s, g).value.stage.m, h + Known(Table(types, t), s), z)
    decreases |s|
  {
    hide PointerSpec.Loop, PointerSpec.Apply, DecTag, FrameLen, FramingOf, Matches, TypesOk, KnownOne;
    PointerSpec.LoopCases(types, t, s, g);
    var d := Table(types, t);
    assert h + [] == h;
    if PointerSpec.Loop(types, t, s, g).Some? && s != [] && DecTag(s).FieldTag? {
      PointerSpec.LoopTurn(types, t, s, g);
      var FieldTag(tag, wt, n) := DecTag(s);
      var k := FrameLen(FramingOf(d, tag, wt), s[n..]).value;
      var p, rest := s[n..][..k], s[n..][k..];
      RecordMatches(types, t, tag, wt, p, g, h, z);
      LoopMatches(types, t, rest, PointerSpec.Apply(types, t, tag, wt, p, g).value, h + KnownOne(d, tag, p), z);
      assert h + KnownOne(d, tag, p) + Known(d, rest) == h + (KnownOne(d, tag, p) + Known(d, rest));
    }
  }

  lemma {:induction false} MergedMatches(types: Types, t: nat, ss: seq<bytes>, z: bool)
    requires TypesOk(types) && t < |types| && MergedFrom(types, t, ss, z).Some?
    ensures Matches(types, t, MergedFrom(types, t, ss, z).value, KnownAll(Table(types, t), ss), z)
    decreases |ss|
  {
    hide PointerSpec.Loop, Matches, TypesOk, InitialMessage, ArrayDone, SeenBelow, CheckedFields, Known;
    if ss == [] {
      InitialMatches(types, t, z);
    } else {
      var before, s := ss[..|ss| - 1], ss[|ss| - 1];
      MergedMatches(types, t, before, z);
      var m := MergedFrom(types, t, before, z).value;
      LoopMatches(types, t, s, PointerSpec.Start(m), KnownAll(Table(types, t), before), z);
    }
  }

  // ---- at every depth ----

  ghost predicate ItemHolds(types: Types, f: Field, sub: nat, it: Item, p: bytes)
    decreases it
  {
    if f.ltype.LSubmessage? then
      it.Submsg? && sub < |types| && Holds(types, sub, it.m, KnownAll(Table(types, sub), [Body(p)]), true)
    else if IsBlob(f) then
      if f.htype.Repeated? then it.Entry? && it.block == Some(0) && BlobValue(f, p) == Some(it.v)
      else it.Leaf? && BlobValue(f, p) == Some(it.v)
    else it.Leaf? && DecValue(f, p, Garbage) == Some(it.v)
  }

  ghost predicate SlotHolds(types: Types, f: Field, sub: nat, s: Slot, ps: seq<bytes>, z: bool)
    decreases s
  {
    if f.atype.Pointer? then
      s.Pointer? &&
      if !f.htype.Repeated? then
        if ps == [] then s.block == None && s.items == []
        else s.block == Some(0) && |s.items| == 1 && ItemHolds(types, f, sub, s.items[0], ps[|ps| - 1])
      else
        && s.block == (if s.items == [] then None else Some(0)) && (ps == [] ==> s.items == [])
        && (!f.ltype.Packable? ==>
              |s.items| == |ps| && forall k :: 0 <= k < |s.items| ==> ItemHolds(types, f, sub, s.items[k], ps[k]))
    else if f.ltype.LSubmessage? then
      && s.Inline? && s.has == (HasFlag(f) && ps != [])
      && sub < |types| && Holds(types, sub, s.m, KnownAll(Table(types, sub), Bodies(ps)), z)
    else PlainMatches(f, s, ps)
  }

  /** The struct after the records `h`, from storage that was cleared before, or not. */
  ghost predicate Holds(types: Types, t: nat, m: Msg, h: seq<Received>, z: bool)
    decreases m
  {
    && t < |types| && |m.slots| == |types[t].fields| == |types[t].subs|
    && forall i :: 0 <= i < |m.slots| ==>
         SlotHolds(types, types[t].fields[i], types[t].subs[i], m.slots[i], Payloads(h, i), z)
  }

  lemma {:induction false} ItemHeld(types: Types, f: Field, sub: nat, it: Item, p: bytes)
    requires TypesOk(types) && ItemValue(types, f, sub, p) == Some(it)
    ensures ItemHolds(types, f, sub, it, p)
    decreases it
  {
    hide TypesOk, Holds, Merge, InitialMessage, BlobValue, DecValue;
    if f.ltype.LSubmessage? {
      var m := InitialMessage(types, sub, true);
      assert [Body(p)] == [] + [Body(p)];
      assert MergedFrom(types, sub, [], true) == Some(m);
      MergedFromAppended(types, sub, [], Body(p), true);
      MergedHolds(types, sub, [Body(p)], true, it.m);
    }
  }

  lemma {:induction false} SlotHeld(types: Types, f: Field, sub: nat, s: Slot, ps: seq<bytes>, z: bool)
    requires TypesOk(types) && SlotMatches(types, f, sub, s, ps, z)
    ensures SlotHolds(types, f, sub, s, ps, z)
    decreases s
  {
    hide TypesOk, Holds, PlainMatches, ItemHolds, ItemValue, MergedFrom;
    if f.atype.Pointer? {
      if !f.htype.Repeated? {
        if ps != [] {
          ItemHeld(types, f, sub, s.items[0], ps[|ps| - 1]);
        }
      } else if !f.ltype.Packable? {
        forall k | 0 <= k < |s.items| ensures ItemHolds(types, f, sub, s.items[k], ps[k]) {
          ItemHeld(types, f, sub, s.items[k], ps[k]);
        }
      }
    } else if f.ltype.LSubmessage? {
      MergedHolds(types, sub, Bodies(ps), z, s.m);
    }
  }

  /** Any number of strings decoded into one struct one after another. */
  lemma {:induction false} MergedHolds(types: Types, t: nat, ss: seq<bytes>, z: bool, m: Msg)
    requires TypesOk(types) && t < |types| && MergedFrom(types, t, ss, z) == Some(m)
    ensures Holds(types, t, m, KnownAll(Table(types, t), ss), z)
    decreases m
  {
    hide TypesOk, SlotHolds, SlotMatches, Payloads, MergedFrom, KnownAll;
    MergedMatches(types, t, ss, z);
    var h := KnownAll(Table(types, t), ss);
    forall i | 0 <= i < |m.slots|
      ensures SlotHolds(types, types[t].fields[i], types[t].subs[i], m.slots[i], Payloads(h, i), z)
    {
      SlotHeld(types, types[t].fields[i], types[t].subs[i], m.slots[i], Payloads(h, i), z);
    }
  }

  // ---- main results ----

  /** For every input that is accepted, every member is NULL, its default, or what its records say. */
  lemma DecodedHolds(types: Types, t: nat, s: bytes, z: bool)
    requires TypesOk(types) && t < |types| && Merge(types, t, s, InitialMessage(types, t, z)).Some?
    ensures Holds(types, t, Merge(types, t, s, InitialMessage(types, t, z)).value.stage.m, Known(Table(types, t), s), z)
  {
    hide TypesOk, Merge, Holds, Known, InitialMessage;
    var d := Table(types, t);
    assert [] + [s] == [s];
    MergedFromAppended(types, t, [], s, z);
    assert MergedFrom(types, t, [], z) == Some(InitialMessage(types, t, z)) && KnownAll(d, []) == [];
    assert [s][..0] == [];
    assert KnownAll(d, [s]) == [] + Known(d, s) == Known(d, s);
    MergedHolds(types, t, [s], z, Merge(types, t, s, InitialMessage(types, t, z)).value.stage.m);
  }

  /** A member whose tag is not in the input is NULL, or holds the default of the table, or zero. */
  lemma AbsentIsDefault(types: Types, t: nat, s: bytes, z: bool, j: nat)
    requires TypesOk(types) && t < |types| && Merge(types, t, s, InitialMessage(types, t, z)).Some?
    requires j < |types[t].fields| && types[t].fields[j].tag !in TagsRead(Table(types, t), s)
    ensures var f, m := types[t].fields[j], Merge(types, t, s, InitialMessage(types, t, z)).value.stage.m;
            && j < |m.slots| == |types[t].subs|
            && (f.atype.Pointer? ==>
                  m.slots[j].Pointer? && m.slots[j].block == None && m.slots[j].items == [])
            && (f.atype.Static? && !f.ltype.LSubmessage? && !f.htype.Repeated? ==>
                  && m.slots[j].Plain? && (m.slots[j].c.Single? || (m.slots[j].c.Flagged? && !m.slots[j].c.has))
                  && (if f.ptr.Default? then m.slots[j].c.v == f.ptr.v else HoldsZero(f, m.slots[j].c.v)))
            && (f.atype.Static? && f.ltype.LSubmessage? ==>
                  m.slots[j].Inline? && !m.slots[j].has && Holds(types, types[t].subs[j], m.slots[j].m, [], z))
  {
    hide TypesOk, Merge, InitialMessage, Known, Payloads, TagsRead, UniqueTags, LaidOut;
    DecodedHolds(types, t, s, z);
    Release.TypeFacts(types, t);
    ReadIsReceived(Table(types, t), s, j);
    var f, sub := types[t].fields[j], types[t].subs[j];
    var m, h := Merge(types, t, s, InitialMessage(types, t, z)).value.stage.m, Known(Table(types, t), s);
    assert Ownership.MemberOk(types, t, j);
    assert SlotHolds(types, f, sub, m.slots[j], Payloads(h, j), z);
  }
}
