/**
 * What pb_decode makes of a byte string when fields are allocated dynamically, as long as
 * no allocation is refused. Message types may contain themselves through pointers.
 */
module PointerSpec {
  import opened Common
  import opened Varint32
  import opened Descriptor
  import opened DecodeSpec
  import opened Ownership

  // ---- contents without addresses ----

  /** NULL, or any address. */
  function BarePointer(p: Option<nat>): Option<nat> {
    if p == None then None else Some(0)
  }

  function BareItem(it: Item): (r: Item)
    ensures it.Leaf? ==> r == it
    decreases it
  {
    match it
    case Leaf(v) => Leaf(v)
    case Submsg(m) => Item.Submsg(Bare(m))
    case Entry(block, v) => Entry(BarePointer(block), v)
  }

  function BareItems(items: seq<Item>): (r: seq<Item>)
    ensures |r| == |items| && forall i :: 0 <= i < |items| ==> r[i] == BareItem(items[i])
    decreases items
  {
    if items == [] then [] else [BareItem(items[0])] + BareItems(items[1..])
  }

  function BareSlot(s: Slot): Slot
    decreases s
  {
    match s
    case Plain(c) => Plain(c)
    case Inline(has, m) => Inline(has, Bare(m))
    case Pointer(block, items) => Slot.Pointer(BarePointer(block), BareItems(items))
  }

  function BareSlots(slots: seq<Slot>): (r: seq<Slot>)
    ensures |r| == |slots| && forall i :: 0 <= i < |slots| ==> r[i] == BareSlot(slots[i])
    decreases slots
  {
    if slots == [] then [] else [BareSlot(slots[0])] + BareSlots(slots[1..])
  }

  /** The struct with every block's address forgotten. */
  function Bare(m: Msg): Msg
    decreases m
  {
    Msg(BareSlots(m.slots))
  }

  // ---- default values ----

  function InitialSlot(types: Types, t: nat, i: nat, zeroed: bool): Slot
    requires t < |types| && i < |types[t].fields|
    decreases t, 0
  {
    var f := types[t].fields[i];
    if f.atype.Pointer? then Slot.Pointer(None, [])
    else if !f.ltype.LSubmessage? then Plain(InitialCell(f, zeroed))
    else if i < |types[t].subs| && types[t].subs[i] < t then
      Inline(false, InitialMessage(types, types[t].subs[i], zeroed))
    else Inline(false, Msg([]))
  }

  /** The slots from field `i` on. */
  function InitialSlots(types: Types, t: nat, i: nat, zeroed: bool): (r: seq<Slot>)
    requires t < |types| && i <= |types[t].fields|
    ensures |r| == |types[t].fields| - i
    ensures forall k :: 0 <= k < |r| ==> r[k] == InitialSlot(types, t, i + k, zeroed)
    decreases t, 1, |types[t].fields| - i
  {
    if i == |types[t].fields| then [] else [InitialSlot(types, t, i, zeroed)] + InitialSlots(types, t, i + 1, zeroed)
  }

  /** pb_message_set_to_defaults. */
  function InitialMessage(types: Types, t: nat, zeroed: bool): Msg
    requires t < |types|
    decreases t, 2
  {
    Msg(InitialSlots(types, t, 0, zeroed))
  }

  /** What a new item in a block holds before it is decoded. */
  function NewItem(types: Types, f: Field, sub: nat): Item {
    if f.ltype.LSubmessage? then
      Item.Submsg(if sub < |types| then InitialMessage(types, sub, true) else Msg([]))
    else if IsEntries(f) then Entry(None, Garbage)
    else Leaf(Garbage)
  }

  // ---- decoding ----

  /** The struct so far; `st` has the required fields seen and the fixed count array. */
  datatype Stage = Stage(m: Msg, st: State)

  datatype Arrival = Arrival(stage: Stage, rest: bytes, zeroTag: bool)

  /** Strings and bytes of any length that can be allocated. */
  function BlobValue(f: Field, p: bytes): Option<Value> {
    if Dec32(p).None? then None
    else if f.ltype.LString? then (if |Contents(p)| >= 0xFFFF_FFFF then None else Some(Blob(Contents(p))))
    else if |Contents(p)| > PB_SIZE_MAX then None
    else Some(Blob(Contents(p)))
  }

  /** A submessage record over the struct `m`; an array entry starts from default values. */
  function SubmessageValue(types: Types, f: Field, sub: nat, p: bytes, m: Msg): Option<Msg>
    decreases |p|, 0
  {
    if Dec32(p).None? || sub >= |types| then None
    else
      match Merge(types, sub, Contents(p), if f.htype.Repeated? then InitialMessage(types, sub, true) else m)
      case None => None
      case Some(a) => Some(a.stage.m)
  }

  /** One value in a block. */
  function ItemValue(types: Types, f: Field, sub: nat, p: bytes): Option<Item>
    decreases |p|, 1
  {
    if f.ltype.LSubmessage? then
      match SubmessageValue(types, f, sub, p, NewItem(types, f, sub).m)
      case None => None
      case Some(m) => Some(Item.Submsg(m))
    else if f.ltype.LString? || f.ltype.LBytes? then
      match BlobValue(f, p)
      case None => None
      case Some(v) => Some(if f.htype.Repeated? then Entry(Some(0), v) else Leaf(v))
    else
      match DecValue(f, p, Garbage)
      case None => None
      case Some(v) => Some(Leaf(v))
  }

  /** The items of a packed array. */
  function PackedItems(f: Field, c: bytes, items: seq<Item>): Option<seq<Item>>
    decreases |c|
  {
    if c == [] then Some(items)
    else if |items| >= PB_SIZE_MAX then None
    else
      match FrameLen(ItemFraming(f.ltype), c)
      case None => None
      case Some(k) =>
        match DecValue(f, c[..k], Garbage)
        case None => None
        case Some(v) => PackedItems(f, c[k..], items + [Leaf(v)])
  }

  /** A record of a pointer field: the last one wins, except that arrays grow. */
  function PointerValue(types: Types, f: Field, sub: nat, wt: nat, p: bytes, s: Slot): Option<Slot>
    requires s.Pointer?
    decreases |p|, 2
  {
    if IsPacked(f, wt) then
      if Dec32(p).None? then None
      else
        match PackedItems(f, Contents(p), s.items)
        case None => None
        case Some(items) => Some(Slot.Pointer(if items == [] then s.block else Some(0), items))
    else if f.htype.Repeated? && |s.items| >= PB_SIZE_MAX then None
    else
      match ItemValue(types, f, sub, p)
      case None => None
      case Some(it) => Some(Slot.Pointer(Some(0), if f.htype.Repeated? then s.items + [it] else [it]))
  }

  /** decode_field. */
  function FieldValue(types: Types, f: Field, sub: nat, wt: nat, p: bytes, s: Slot, count: nat): Option<(Slot, nat)>
    decreases |p|, 3
  {
    if f.atype.Pointer? then
      if !s.Pointer? then None
      else
        match PointerValue(types, f, sub, wt, p, s)
        case None => None
        case Some(s') => Some((s', count))
    else if f.ltype.LSubmessage? then
      if !s.Inline? then None
      else
        match SubmessageValue(types, f, sub, p, s.m)
        case None => None
        case Some(m) => Some((Inline(s.has || HasFlag(f), m), count))
    else if !s.Plain? then None
    else
      match ApplyField(f, wt, p, s.c, count)
      case None => None
      case Some((c, count')) => Some((Plain(c), count'))
  }

  function Table(types: Types, t: nat): Desc
    requires t < |types|
  {
    Desc(types[t].fields)
  }

  /** A record of field `i`. */
  function ApplyKnown(types: Types, t: nat, i: nat, wt: nat, p: bytes, g: Stage): Option<Stage>
    requires t < |types| && i < |types[t].fields|
    decreases |p|, 4
  {
    var d := Table(types, t);
    var f := d.fields[i];
    if i >= |g.m.slots| || i >= |types[t].subs| then None
    else
      match StartArray(d, i, g.st.fixed)
      case None => None
      case Some(fixed) =>
        match FieldValue(types, f, types[t].subs[i], wt, p, g.m.slots[i], if IsFixedCount(f) then fixed.count else 0)
        case None => None
        case Some((s, count)) =>
          Some(Stage(
            Msg(g.m.slots[i := s]),
            State(g.st.cells, g.st.seen + Marks(d, i), if IsFixedCount(f) then Array(i, count) else fixed)))
  }

  function Apply(types: Types, t: nat, tag: nat, wt: nat, p: bytes, g: Stage): Option<Stage>
    requires t < |types|
    decreases |p|, 5
  {
    var d := Table(types, t);
    if MatchesTerminator(d, tag) then
      if Dec32(p).Some? then Some(g) else None
    else
      match Find(d, tag)
      case None => Some(g)
      case Some(i) => ApplyKnown(types, t, i, wt, p, g)
  }

  /** The record loop. */
  function Loop(types: Types, t: nat, s: bytes, g: Stage): Option<Arrival>
    requires t < |types|
    decreases |s|, 6
  {
    if s == [] then Some(Arrival(g, [], false))
    else
      match DecTag(s)
      case BadTag => None
      case EndTag(n) => Some(Arrival(g, s[n..], true))
      case FieldTag(tag, wt, n) =>
        match FrameLen(FramingOf(Table(types, t), tag, wt), s[n..])
        case None => None
        case Some(k) =>
          match Apply(types, t, tag, wt, s[n..][..k], g)
          case None => None
          case Some(g') => Loop(types, t, s[n..][k..], g')
  }

  function Start(m: Msg): Stage {
    Stage(m, State(map[], {}, NoArray))
  }

  /** pb_decode_noinit. */
  function Merge(types: Types, t: nat, s: bytes, m: Msg): Option<Arrival>
    requires t < |types|
    decreases |s|, 7
  {
    match Loop(types, t, s, Start(m))
    case None => None
    case Some(a) =>
      var d := Table(types, t);
      if ArrayDone(d, a.stage.st.fixed) && SeenBelow(CheckedFields(d), a.stage.st.seen) then Some(a) else None
  }

  // ---- one turn of the loop ----

  lemma LoopCases(types: Types, t: nat, s: bytes, g: Stage)
    requires t < |types|
    ensures s == [] ==> Loop(types, t, s, g) == Some(Arrival(g, [], false))
    ensures s != [] && DecTag(s).EndTag? ==> Loop(types, t, s, g) == Some(Arrival(g, s[DecTag(s).n..], true))
    ensures s != [] && DecTag(s).BadTag? ==> Loop(types, t, s, g) == None
  {
    hide Apply, DecTag, FrameLen, FramingOf;
  }

  lemma LoopTurn(types: Types, t: nat, s: bytes, g: Stage)
    requires t < |types| && s != [] && DecTag(s).FieldTag?
    ensures var FieldTag(tag, wt, n) := DecTag(s);
            var k := FrameLen(FramingOf(Table(types, t), tag, wt), s[n..]);
            match if k.Some? then Apply(types, t, tag, wt, s[n..][..k.value], g) else None
            case None => Loop(types, t, s, g) == None
            case Some(g') => Loop(types, t, s, g) == Loop(types, t, s[n..][k.value..], g')
  {
    hide Apply, Dec32, FrameLen, FramingOf;
  }
}
