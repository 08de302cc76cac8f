/** Which members of a valid struct with pointer fields take no bytes at all. */
module PointerOmission {
  import opened Common
  import opened Descriptor
  import opened EncodeSpec
  import opened Ownership
  import opened PointerEncode
  import Messages
  import Omission
  import Release

  /** NULL, an empty array, has_ false, or a proto3 member with nothing to transmit. */
  ghost predicate Omitted(types: Types, f: Field, sub: nat, s: Slot) {
    match s
    case Plain(c) => Omission.Omitted(f, c)
    case Pointer(block, items) => if f.htype.Repeated? then items == [] else block == None
    case Inline(has, m) =>
      !f.htype.Required? && if HasFlag(f) then !has else sub < |types| && EncMsg(types, sub, m) == Some([])
  }

  lemma KeyNotEmpty(f: Field, wt: nat)
    ensures TagBytes(f.tag, wt) != []
  {
  }

  /** A member takes no bytes exactly when it is one of those. */
  lemma {:induction false} OmittedExactly(types: Types, t: nat, i: nat, s: Slot)
    requires TypesOk(types) && t < |types| && i < |types[t].fields| == |types[t].subs| && MemberOk(types, t, i)
    requires ValidSlot(types, types[t].fields[i], types[t].subs[i], s)
    ensures var f, sub := types[t].fields[i], types[t].subs[i];
            EncSlot(types, f, sub, s) == Some([]) <==> Omitted(types, f, sub, s)
    decreases s, 1
  {
    hide TypesOk, LaidOut, EncField, EncMsg, EncItem, EncPacked, Valid, ValidItem, Messages.CellOk, AllDefaultSlots;
    hide ChecksAddress, Omission.Omitted, TagBytes;
    var f, sub := types[t].fields[i], types[t].subs[i];
    KeyNotEmpty(f, WireType(f.ltype));
    KeyNotEmpty(f, WT_STRING);
    match s
    case Plain(c) => Omission.OmittedExactly(f, c);
    case Inline(_, m) =>
      if IsSingular(f) {
        DefaultExactly(types, sub, m);
      }
    case Pointer(_, items) =>
      if f.htype.Repeated? && items != [] && !f.ltype.Packable? {
        assert EncUnpacked(types, f, sub, items)
            == Concat(EncItemRecord(types, f, sub, items[0]), EncUnpacked(types, f, sub, items[1..]));
      }
  }

  /** The recursive check finds the submessages that have no bytes. */
  lemma {:induction false} DefaultExactly(types: Types, t: nat, m: Msg)
    requires TypesOk(types) && t < |types| && Valid(types, t, m) && !ChecksAddress(types, t)
    ensures AllDefaultSlots(types, t, m, 0) <==> EncMsg(types, t, m) == Some([])
    decreases m, 2
  {
    hide TypesOk, LaidOut, ValidSlot, EncSlot, IsDefaultSlot, AllDefaultSlots, EncSlots, ChecksAddressAt, MemberOk;
    Release.TypeFacts(types, t);
    forall i | 0 <= i < |m.slots|
      ensures var f, sub := types[t].fields[i], types[t].subs[i];
              IsDefaultSlot(types, f, sub, m.slots[i]) <==> EncSlot(types, f, sub, m.slots[i]) == Some([])
    {
      SlotDefaultExactly(types, t, i, m.slots[i]);
    }
    AllOrNothing(types, t, m, 0);
  }

  lemma {:induction false} SlotDefaultExactly(types: Types, t: nat, i: nat, s: Slot)
    requires TypesOk(types) && t < |types| && i < |types[t].fields| == |types[t].subs| && MemberOk(types, t, i)
    requires ValidSlot(types, types[t].fields[i], types[t].subs[i], s) && !ChecksAddressAt(types, t, i)
    ensures var f, sub := types[t].fields[i], types[t].subs[i];
            IsDefaultSlot(types, f, sub, s) <==> EncSlot(types, f, sub, s) == Some([])
    decreases s, 2
  {
    hide TypesOk, LaidOut, EncSlot, EncMsg, Valid, ValidItem, Messages.CellOk, AllDefaultSlots, ChecksAddress;
    hide Omission.Omitted, IsDefault;
    var f, sub := types[t].fields[i], types[t].subs[i];
    OmittedExactly(types, t, i, s);
    match s
    case Plain(c) => CellDefaultExactly(f, c);
    case Inline(_, m) =>
      if IsSingular(f) {
        DefaultExactly(types, sub, m);
      }
    case Pointer(_, _) =>
  }

  lemma CellDefaultExactly(f: Field, c: Cell)
    requires FieldOk(f) && !f.ltype.LSubmessage? && !f.htype.Oneof? && Messages.CellOk(f, c)
    ensures IsDefault(f, c) <==> Omission.Omitted(f, c)
  {
    hide Messages.ValueOk, IsDefaultValue, Omission.NothingToSend;
    if IsSingular(f) {
      Omission.DefaultExactly(f, c.v);
    }
  }

  lemma {:induction false} AllOrNothing(types: Types, t: nat, m: Msg, i: nat)
    requires t < |types| && |m.slots| == |types[t].fields| == |types[t].subs| && i <= |m.slots|
    requires forall k :: 0 <= k < |m.slots| ==>
               (IsDefaultSlot(types, types[t].fields[k], types[t].subs[k], m.slots[k]) <==>
                EncSlot(types, types[t].fields[k], types[t].subs[k], m.slots[k]) == Some([]))
    ensures AllDefaultSlots(types, t, m, i) <==> EncSlots(types, t, m, i) == Some([])
    decreases |m.slots| - i
  {
    hide EncSlot, IsDefaultSlot;
    if i < |m.slots| {
      AllOrNothing(types, t, m, i + 1);
      var nothing: bytes := [];
      assert nothing + nothing == nothing;
    }
  }
}
