/**
 * The bytes pb_encode writes for a struct with pointer fields, and which of these structs are
 * messages that can be written and hold the same message.
 */
module PointerEncode {
  import opened Common
  import opened Descriptor
  import opened EncodeSpec
  import opened Messages
  import opened Ownership

  // ---- one value behind a pointer ----

  /** A string or bytes value has no size of its own to exceed; a string ends at its terminator. */
  function EncLeaf(f: Field, v: Value): Option<bytes> {
    match f.ltype
    case LString => if v.Blob? then Some(Delimited(CString(v.b))) else None
    case LBytes => if v.Blob? then Some(Delimited(v.b)) else None
    case _ => EncValue(f, v)
  }

  /** A NULL pointer in an array stands for an empty value. */
  function EncItem(types: Types, f: Field, sub: nat, it: Item): Option<bytes>
    decreases it, 0
  {
    match it
    case Leaf(v) => EncLeaf(f, v)
    case Entry(block, v) => if block == None then Some(Delimited([])) else EncLeaf(f, v)
    case Submsg(m) =>
      if sub >= |types| then None
      else
        match EncMsg(types, sub, m)
        case None => None
        case Some(b) => Some(Delimited(b))
  }

  function EncItemRecord(types: Types, f: Field, sub: nat, it: Item): Option<bytes>
    decreases it, 1
  {
    Concat(Some(TagBytes(f.tag, WireType(f.ltype))), EncItem(types, f, sub, it))
  }

  function EncPacked(types: Types, f: Field, sub: nat, items: seq<Item>): Option<bytes>
    decreases items, 0
  {
    if items == [] then Some([])
    else Concat(EncItem(types, f, sub, items[0]), EncPacked(types, f, sub, items[1..]))
  }

  function EncUnpacked(types: Types, f: Field, sub: nat, items: seq<Item>): Option<bytes>
    decreases items, 0
  {
    if items == [] then Some([])
    else Concat(EncItemRecord(types, f, sub, items[0]), EncUnpacked(types, f, sub, items[1..]))
  }

  /** encode_array: an array behind a pointer has no largest size. */
  function EncPointerArray(types: Types, f: Field, sub: nat, items: seq<Item>): Option<bytes>
    decreases items, 1
  {
    if items == [] then Some([])
    else if f.ltype.Packable? then
      match EncPacked(types, f, sub, items)
      case None => None
      case Some(b) => Some(TagBytes(f.tag, WT_STRING) + Delimited(b))
    else EncUnpacked(types, f, sub, items)
  }

  // ---- fields and messages ----

  /**
   * Whether the check for proto3 defaults would look at the address in a pointer: at an optional
   * pointer field of the struct, or of a static struct inside it.
   */
  ghost predicate ChecksAddress(types: Types, t: nat)
    requires t < |types|
    decreases t
  {
    exists i :: 0 <= i < |types[t].fields| && i < |types[t].subs| && ChecksAddressAt(types, t, i)
  }

  ghost predicate ChecksAddressAt(types: Types, t: nat, i: nat)
    requires t < |types| && i < |types[t].fields| && i < |types[t].subs|
    decreases t, 0
  {
    var f := types[t].fields[i];
    if f.atype.Pointer? then f.htype.Optional?
    else f.ltype.LSubmessage? && types[t].subs[i] < t && ChecksAddress(types, types[t].subs[i])
  }

  /** pb_check_proto3_default_value, where it does not depend on addresses. */
  predicate IsDefaultSlot(types: Types, f: Field, sub: nat, s: Slot)
    decreases s
  {
    match s
    case Plain(c) => IsDefault(f, c)
    case Pointer(_, items) => f.htype.Repeated? && items == []
    case Inline(has, m) =>
      if f.htype.Required? then false
      else if HasFlag(f) then !has
      else sub < |types| && AllDefaultSlots(types, sub, m, 0)
  }

  predicate AllDefaultSlots(types: Types, t: nat, m: Msg, i: nat)
    requires t < |types|
    decreases m, |m.slots| - i
  {
    i >= |m.slots| ||
    (&& i < |types[t].fields| && i < |types[t].subs|
     && IsDefaultSlot(types, types[t].fields[i], types[t].subs[i], m.slots[i])
     && AllDefaultSlots(types, t, m, i + 1))
  }

  /** encode_basic_field. Instead of a has_ member, a pointer field has NULL. */
  function EncSlot(types: Types, f: Field, sub: nat, s: Slot): Option<bytes>
    decreases s
  {
    match s
    case Plain(c) => EncField(f, c)
    case Inline(has, m) =>
      if f.htype.Optional? && IsDefaultSlot(types, f, sub, s) then Some([])
      else if sub >= |types| then None
      else
        (match EncMsg(types, sub, m)
         case None => None
         case Some(b) => Some(TagBytes(f.tag, WireType(f.ltype)) + Delimited(b)))
    case Pointer(block, items) =>
      if f.htype.Repeated? then EncPointerArray(types, f, sub, items)
      else if block == None then if f.htype.Required? then None else Some([])
      else if |items| != 1 then None
      else EncItemRecord(types, f, sub, items[0])
  }

  /** pb_encode, for the fields from `i` on. */
  function EncSlots(types: Types, t: nat, m: Msg, i: nat): Option<bytes>
    requires t < |types|
    decreases m, |m.slots| - i
  {
    if i >= |m.slots| then Some([])
    else if i >= |types[t].fields| || i >= |types[t].subs| then None
    else
      Concat(EncSlot(types, types[t].fields[i], types[t].subs[i], m.slots[i]), EncSlots(types, t, m, i + 1))
  }

  function EncMsg(types: Types, t: nat, m: Msg): Option<bytes>
    requires t < |types|
    decreases m, |m.slots| + 1
  {
    EncSlots(types, t, m, 0)
  }

  // ---- valid messages ----

  ghost predicate ValidLeaf(f: Field, v: Value) {
    match f.ltype
    case LString => v.Blob?
    case LBytes => v.Blob? && |v.b| <= PB_SIZE_MAX
    case _ => ValueOk(f, v)
  }

  ghost predicate ValidItem(types: Types, f: Field, sub: nat, it: Item)
    decreases it
  {
    if f.ltype.LSubmessage? then it.Submsg? && Valid(types, sub, it.m)
    else if IsEntries(f) then it.Entry? && (it.block.Some? ==> ValidLeaf(f, it.v))
    else it.Leaf? && ValidLeaf(f, it.v)
  }

  ghost predicate ValidSlot(types: Types, f: Field, sub: nat, s: Slot)
    decreases s
  {
    if f.atype.Pointer? then
      && s.Pointer? && (forall k :: 0 <= k < |s.items| ==> ValidItem(types, f, sub, s.items[k]))
      && if f.htype.Repeated? then |s.items| <= PB_SIZE_MAX
         else |s.items| == (if s.block == None then 0 else 1) && (f.htype.Required? ==> s.block.Some?)
    else if f.ltype.LSubmessage? then
      && s.Inline? && ((HasFlag(f) && !s.has) || Valid(types, sub, s.m))
      && (IsSingular(f) ==> sub < |types| && !ChecksAddress(types, sub))
    else s.Plain? && CellOk(f, s.c)
  }

  /** A message every member of which can be written. */
  ghost predicate Valid(types: Types, t: nat, m: Msg)
    decreases m
  {
    && t < |types| && |m.slots| == |types[t].fields| == |types[t].subs|
    && forall i :: 0 <= i < |m.slots| ==> ValidSlot(types, types[t].fields[i], types[t].subs[i], m.slots[i])
  }

  // ---- equal messages ----

  /** The bytes of a string or bytes value. */
  function Content(f: Field, it: Item): Option<bytes>
    requires it.Leaf? || it.Entry?
  {
    if it.Entry? && it.block == None then Some([])
    else if !it.v.Blob? then None
    else Some(if f.ltype.LString? then CString(it.v.b) else it.v.b)
  }

  ghost predicate SameContent(f: Field, x: Item, y: Item)
    requires (x.Leaf? || x.Entry?) && (y.Leaf? || y.Entry?)
  {
    Content(f, x).Some? && Content(f, x) == Content(f, y)
  }

  ghost predicate SameItem(types: Types, f: Field, sub: nat, x: Item, y: Item)
    decreases x
  {
    if f.ltype.LSubmessage? then x.Submsg? && y.Submsg? && SameMessage(types, sub, x.m, y.m)
    else if IsEntries(f) then x.Entry? && y.Entry? && SameContent(f, x, y)
    else x.Leaf? && y.Leaf? && if IsBlob(f) then SameContent(f, x, y) else x == y
  }

  ghost predicate SameEntries(types: Types, f: Field, sub: nat, xs: seq<Item>, ys: seq<Item>)
    decreases xs
  {
    |xs| == |ys| && forall k :: 0 <= k < |xs| ==> SameItem(types, f, sub, xs[k], ys[k])
  }

  ghost predicate SameSlot(types: Types, f: Field, sub: nat, x: Slot, y: Slot)
    decreases x
  {
    if f.atype.Pointer? then
      && x.Pointer? && y.Pointer? && SameEntries(types, f, sub, x.items, y.items)
      && (!f.htype.Repeated? ==> (x.block == None <==> y.block == None))
    else if f.ltype.LSubmessage? then
      && x.Inline? && y.Inline?
      && (HasFlag(f) ==> x.has == y.has)
      && (!HasFlag(f) || x.has ==> SameMessage(types, sub, x.m, y.m))
    else x.Plain? && y.Plain? && SameCell(f, x.c, f, y.c)
  }

  /** Equal as far as the message is concerned: addresses do not matter. */
  ghost predicate SameMessage(types: Types, t: nat, x: Msg, y: Msg)
    decreases x
  {
    && t < |types| && |x.slots| == |y.slots| == |types[t].fields| == |types[t].subs|
    && forall i :: 0 <= i < |x.slots| ==>
         SameSlot(types, types[t].fields[i], types[t].subs[i], x.slots[i], y.slots[i])
  }
}
