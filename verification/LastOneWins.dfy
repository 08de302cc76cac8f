/** Repeated records of a pointer field that is not repeated. */
module LastOneWins {
  import opened Common
  import opened Descriptor
  import opened DecodeSpec
  import opened Ownership
  import opened PointerSpec
  import opened Merging
  import Records

  /** The field is a pointer to one value, in a struct that has its member. */
  ghost predicate IsPointer(types: Types, t: nat, i: nat, g: Stage) {
    && t < |types| && UniqueTags(types[t].fields)
    && i < |types[t].fields| == |types[t].subs| == |g.m.slots|
    && types[t].fields[i].atype.Pointer? && !types[t].fields[i].htype.Repeated?
    && g.m.slots[i].Pointer?
  }

  /** The value in the record, from default values, whatever the struct holds. */
  function ValueOf(types: Types, t: nat, i: nat, p: bytes): Option<Item>
    requires t < |types| && i < |types[t].fields| == |types[t].subs|
  {
    ItemValue(types, types[t].fields[i], types[t].subs[i], p)
  }

  /** One step of the record loop. */
  lemma LoopStep(types: Types, t: nat, r: Rec, rest: bytes, g: Stage)
    requires t < |types| && RecOk(Table(types, t), r)
    ensures PointerSpec.Loop(types, t, r.h + r.p + rest, g) ==
              match PointerSpec.Apply(types, t, r.tag, r.wt, r.p, g)
              case None => None
              case Some(g') => PointerSpec.Loop(types, t, rest, g')
  {
    hide PointerSpec.Apply, PointerSpec.Loop, FrameLen, FramingOf, DecTag;
    var s := r.h + r.p + rest;
    assert s == r.h + (r.p + rest);
    Records.TagAppend(r.h, r.tag, r.wt, r.p + rest);
    Records.FramedAppend(FramingOf(Table(types, t), r.tag, r.wt), r.p, rest);
    assert s[|r.h|..] == r.p + rest;
    assert (r.p + rest)[..|r.p|] == r.p && (r.p + rest)[|r.p|..] == rest;
    LoopTurn(types, t, s, g);
  }

  /** A record replaces the member and sets the field's bit; nothing else changes. */
  lemma ApplyPointer(types: Types, t: nat, i: nat, r: Rec, g: Stage)
    requires IsPointer(types, t, i, g) && r.tag == types[t].fields[i].tag
    ensures PointerSpec.Apply(types, t, r.tag, r.wt, r.p, g) ==
              match ValueOf(types, t, i, r.p)
              case None => None
              case Some(it) =>
                Some(Stage(
                  Msg(g.m.slots[i := Slot.Pointer(Some(0), [it])]),
                  State(g.st.cells, g.st.seen + Marks(Table(types, t), i), g.st.fixed)))
  {
    hide ItemValue, Marks;
    var f, sub, slot := types[t].fields[i], types[t].subs[i], g.m.slots[i];
    FindUnique(Table(types, t), i);
    assert PointerValue(types, f, sub, r.wt, r.p, slot) ==
           match ItemValue(types, f, sub, r.p) case None => None case Some(it) => Some(Slot.Pointer(Some(0), [it]));
    var s' := PointerValue(types, f, sub, r.wt, r.p, slot);
    assert FieldValue(types, f, sub, r.wt, r.p, slot, 0) == if s'.None? then None else Some((s'.value, 0));
    assert StartArray(Table(types, t), i, g.st.fixed) == Some(g.st.fixed);
    assert PointerSpec.Apply(types, t, r.tag, r.wt, r.p, g) == ApplyKnown(types, t, i, r.wt, r.p, g);
  }

  /** An earlier record leaves no trace once a later one is decoded. */
  lemma LaterReplaces(types: Types, t: nat, i: nat, r: Rec, r': Rec, g: Stage, g': Stage)
    requires IsPointer(types, t, i, g) && r.tag == r'.tag == types[t].fields[i].tag
    requires PointerSpec.Apply(types, t, r.tag, r.wt, r.p, g) == Some(g')
    ensures IsPointer(types, t, i, g')
    ensures PointerSpec.Apply(types, t, r'.tag, r'.wt, r'.p, g') == PointerSpec.Apply(types, t, r'.tag, r'.wt, r'.p, g)
  {
    hide ItemValue, Marks, UniqueTags, PointerSpec.Apply;
    ApplyPointer(types, t, i, r, g);
    ApplyPointer(types, t, i, r', g');
    ApplyPointer(types, t, i, r', g);
    var m := Marks(Table(types, t), i);
    assert g.st.seen + m + m == g.st.seen + m;
    var it := ValueOf(types, t, i, r'.p);
    if it.Some? {
      var x := Slot.Pointer(Some(0), [it.value]);
      assert g'.m.slots[i := x] == g.m.slots[i := x];
    }
  }

  /**
   * Last one wins: a run of records of the field leaves what the last one alone leaves, if
   * all of them decode, and is refused if one of them does not, even an earlier one.
   */
  lemma {:induction false} RunIsLast(types: Types, t: nat, i: nat, rs: seq<Rec>, rest: bytes, g: Stage)
    requires t < |types| && i < |types[t].fields| == |types[t].subs| && IsPointer(types, t, i, g) && rs != []
    requires forall r :: r in rs ==> RecOk(Table(types, t), r) && r.tag == types[t].fields[i].tag
    ensures var last := rs[|rs| - 1];
            PointerSpec.Loop(types, t, Bytes(rs) + rest, g) ==
              if forall r :: r in rs ==> ValueOf(types, t, i, r.p).Some?
              then PointerSpec.Loop(types, t, last.h + last.p + rest, g) else None
    decreases |rs|
  {
    hide PointerSpec.Loop, PointerSpec.Apply, ValueOf, RecOk, IsPointer;
    var r, more := rs[0], rs[1..];
    assert r in rs && rs == [r] + more;
    assert Bytes(rs) + rest == r.h + r.p + (Bytes(more) + rest);
    LoopStep(types, t, r, Bytes(more) + rest, g);
    ApplyPointer(types, t, i, r, g);
    var next := PointerSpec.Apply(types, t, r.tag, r.wt, r.p, g);
    if more == [] {
      assert Bytes(more) + rest == rest;
      LoopStep(types, t, r, rest, g);
    } else if next.Some? {
      var last := more[|more| - 1];
      assert last in rs;
      LaterReplaces(types, t, i, r, last, g, next.value);
      RunIsLast(types, t, i, more, rest, next.value);
      LoopStep(types, t, last, rest, g);
      LoopStep(types, t, last, rest, next.value);
      assert forall x :: x in rs <==> x == r || x in more;
    }
  }
}
