/** Structs with pointer fields, and the heap blocks they own. */
module Ownership {
  import opened Common
  import opened Descriptor
  import opened Allocator

  /**
   * One message type: its table, and for every field the number of the submessage type.
   * Numbers instead of nested tables allow a type to contain itself through a pointer.
   */
  datatype Type = Type(fields: seq<Field>, subs: seq<nat>)

  type Types = seq<Type>

  /** One item of storage: inside a static member, or in the block a pointer field refers to. */
  datatype Item =
    | Leaf(v: Value)                            // storage without pointers
    | Submsg(m: Msg)
    | Entry(block: Option<nat>, v: Value)       // a pointer to a string or bytes, in an array

  datatype Slot =
    | Plain(c: Cell)                            // static, without pointers
    | Inline(has: bool, m: Msg)                 // static submessage, with its has_ member if any
    | Pointer(block: Option<nat>, items: seq<Item>)

  /** A struct, one slot a field. */
  datatype Msg = Msg(slots: seq<Slot>)

  // ---- owned blocks ----

  ghost function OwnedItem(it: Item): multiset<nat>
    decreases it
  {
    match it
    case Leaf(_) => multiset{}
    case Submsg(m) => Owned(m)
    case Entry(block, _) => Blocks(block)
  }

  ghost function OwnedItems(items: seq<Item>): multiset<nat>
    decreases items
  {
    if items == [] then multiset{} else OwnedItem(items[0]) + OwnedItems(items[1..])
  }

  ghost function OwnedSlot(s: Slot): multiset<nat>
    decreases s
  {
    match s
    case Plain(_) => multiset{}
    case Inline(_, m) => Owned(m)
    case Pointer(block, items) => Blocks(block) + OwnedItems(items)
  }

  ghost function OwnedSlots(slots: seq<Slot>): multiset<nat>
    decreases slots
  {
    if slots == [] then multiset{} else OwnedSlot(slots[0]) + OwnedSlots(slots[1..])
  }

  /** Every block reachable from the struct, counted once for every pointer to it. */
  ghost function Owned(m: Msg): multiset<nat>
    decreases m
  {
    OwnedSlots(m.slots)
  }

  lemma SameSum(x: multiset<nat>, a: multiset<nat>, b: multiset<nat>, c: multiset<nat>, d: multiset<nat>)
    requires a + b == c + d
    ensures x + a + b == x + c + d
  {
    assert x + a + b == x + (a + b) && x + c + d == x + (c + d);
  }

  lemma {:induction false} OwnedSlotsUpdate(slots: seq<Slot>, i: nat, s: Slot)
    requires i < |slots|
    ensures OwnedSlots(slots[i := s]) + OwnedSlot(slots[i]) == OwnedSlots(slots) + OwnedSlot(s)
    ensures OwnedSlot(slots[i]) <= OwnedSlots(slots)
    decreases i
  {
    hide OwnedSlot;
    if i == 0 {
      assert slots[i := s][1..] == slots[1..];
    } else {
      assert slots[i := s][1..] == slots[1..][i - 1 := s];
      OwnedSlotsUpdate(slots[1..], i - 1, s);
      SameSum(OwnedSlot(slots[0]), OwnedSlots(slots[1..][i - 1 := s]), OwnedSlot(slots[i]),
              OwnedSlots(slots[1..]), OwnedSlot(s));
    }
  }

  lemma {:induction false} OwnedItemsUpdate(items: seq<Item>, i: nat, it: Item)
    requires i < |items|
    ensures OwnedItems(items[i := it]) + OwnedItem(items[i]) == OwnedItems(items) + OwnedItem(it)
    ensures OwnedItem(items[i]) <= OwnedItems(items)
    decreases i
  {
    hide OwnedItem;
    if i == 0 {
      assert items[i := it][1..] == items[1..];
    } else {
      assert items[i := it][1..] == items[1..][i - 1 := it];
      OwnedItemsUpdate(items[1..], i - 1, it);
      SameSum(OwnedItem(items[0]), OwnedItems(items[1..][i - 1 := it]), OwnedItem(items[i]),
              OwnedItems(items[1..]), OwnedItem(it));
    }
  }

  lemma {:induction false} OwnedItemsAppend(items: seq<Item>, it: Item)
    ensures OwnedItems(items + [it]) == OwnedItems(items) + OwnedItem(it)
    decreases |items|
  {
    hide OwnedItem;
    if items == [] {
      assert items + [it] == [it] && [it][1..] == [];
    } else {
      assert (items + [it])[1..] == items[1..] + [it];
      OwnedItemsAppend(items[1..], it);
    }
  }

  /** A struct whose every member owns nothing owns nothing, and the other way round. */
  lemma {:induction false} NothingOwned(slots: seq<Slot>)
    ensures OwnedSlots(slots) == multiset{} <==> forall i :: 0 <= i < |slots| ==> OwnedSlot(slots[i]) == multiset{}
    decreases |slots|
  {
    hide OwnedSlot;
    if slots != [] {
      NothingOwned(slots[1..]);
      forall i | 0 < i < |slots| ensures slots[i] == slots[1..][i - 1] {
      }
      if forall i :: 0 <= i < |slots[1..]| ==> OwnedSlot(slots[1..][i]) == multiset{} {
        assert forall i :: 0 < i < |slots| ==> OwnedSlot(slots[i]) == multiset{};
      } else {
        var i :| 0 <= i < |slots[1..]| && OwnedSlot(slots[1..][i]) != multiset{};
        assert slots[i + 1] == slots[1..][i];
      }
    }
  }

  lemma {:induction false} NoItemOwned(items: seq<Item>)
    requires forall i :: 0 <= i < |items| ==> OwnedItem(items[i]) == multiset{}
    ensures OwnedItems(items) == multiset{}
    decreases |items|
  {
    hide OwnedItem;
    if items != [] {
      NoItemOwned(items[1..]);
    }
  }

  /** A block in exchange for another one, and perhaps a further item with what it owns. */
  lemma OwnedPointer(block: Option<nat>, items: seq<Item>, block': Option<nat>, it: Item)
    ensures OwnedSlot(Slot.Pointer(block', items)) + Blocks(block)
         == OwnedSlot(Slot.Pointer(block, items)) + Blocks(block')
    ensures OwnedSlot(Slot.Pointer(block', items + [it])) == OwnedSlot(Slot.Pointer(block', items)) + OwnedItem(it)
  {
    OwnedItemsAppend(items, it);
    var x, y, z := OwnedItems(items), Blocks(block), Blocks(block');
    assert z + x + y == y + x + z;
    assert z + (x + OwnedItem(it)) == z + x + OwnedItem(it);
  }

  // ---- well-formed types and structs ----

  /**
   * A field of the kinds covered: pointer fields, static submessages that are not
   * repeated, and all other static fields; no oneofs and no callbacks. A static submessage
   * has a type defined before, since a C struct cannot contain itself.
   */
  ghost predicate MemberOk(types: Types, t: nat, i: nat)
    requires t < |types| && i < |types[t].fields| && |types[t].subs| == |types[t].fields|
  {
    var f := types[t].fields[i];
    && 1 <= f.tag < 0x2000_0000
    && !f.htype.Oneof? && !f.atype.Callback? && !f.ptr.Submsg?
    && (f.ltype.LSubmessage? ==> types[t].subs[i] < if f.atype.Static? then t else |types|)
    && (f.atype.Static? ==> if f.ltype.LSubmessage? then !f.htype.Repeated? else FieldOk(f))
    && (f.atype.Pointer? ==> 0 < f.dataSize <= PB_SIZE_MAX && (f.htype.Repeated? ==> f.sizeOffset != 0))
  }

  ghost predicate TypeOk(types: Types, t: nat)
    requires t < |types|
  {
    && |types[t].subs| == |types[t].fields|
    && LaidOut(types[t].fields) && UniqueTags(types[t].fields)
    && forall i :: 0 <= i < |types[t].fields| ==> MemberOk(types, t, i)
  }

  ghost predicate TypesOk(types: Types) {
    forall t :: 0 <= t < |types| ==> TypeOk(types, t)
  }

  /** Does a has_ member tell whether the field is set? */
  predicate HasFlag(f: Field) {
    f.htype.Optional? && f.sizeOffset != 0
  }

  /** Is the value a string or bytes? */
  predicate IsBlob(f: Field) {
    f.ltype.LString? || f.ltype.LBytes?
  }

  /** Does the field hold pointers to strings or bytes in an array? */
  predicate IsEntries(f: Field) {
    f.htype.Repeated? && IsBlob(f)
  }

  /** The block has exactly the room for the string and its terminator, or for the bytes and their length. */
  predicate BlobFits(f: Field, v: Value, block: Option<nat>, sizes: map<nat, nat>) {
    block.Some? ==>
      && block.value in sizes
      && (v.Blob? ==> sizes[block.value] == |v.b| + if f.ltype.LString? then 1 else BYTES_OFFSET)
  }

  /** The block has room for all entries, or exactly for the one value. */
  predicate InBlock(f: Field, block: Option<nat>, items: seq<Item>, sizes: map<nat, nat>) {
    if IsBlob(f) && !f.htype.Repeated? then
      block.Some? && |items| == 1 && items[0].Leaf? ==> BlobFits(f, items[0].v, block, sizes)
    else
      block.Some? ==>
        && block.value in sizes
        && if f.htype.Repeated? then |items| * f.dataSize <= sizes[block.value] else sizes[block.value] == f.dataSize
  }

  ghost predicate ShapedItem(types: Types, f: Field, sub: nat, it: Item, sizes: map<nat, nat>)
    decreases it
  {
    if f.ltype.LSubmessage? then it.Submsg? && Shaped(types, sub, it.m, sizes)
    else if IsEntries(f) then it.Entry? && BlobFits(f, it.v, it.block, sizes)
    else it.Leaf?
  }

  /** Every value is inside the block that holds it; a NULL pointer has no items. */
  ghost predicate ShapedSlot(types: Types, f: Field, sub: nat, s: Slot, sizes: map<nat, nat>)
    decreases s
  {
    if f.atype.Static? then
      if f.ltype.LSubmessage? then s.Inline? && Shaped(types, sub, s.m, sizes) else s.Plain?
    else
      && s.Pointer?
      && (s.block.None? ==> s.items == [])
      && (s.block.Some? && !f.htype.Repeated? ==> |s.items| == 1)
      && (f.htype.Repeated? ==> |s.items| <= PB_SIZE_MAX)
      && InBlock(f, s.block, s.items, sizes)
      && forall k :: 0 <= k < |s.items| ==> ShapedItem(types, f, sub, s.items[k], sizes)
  }

  /** The struct is one of type `t`; `sizes` are those of the blocks it refers to. */
  ghost predicate Shaped(types: Types, t: nat, m: Msg, sizes: map<nat, nat>)
    decreases m
  {
    && t < |types| && |m.slots| == |types[t].fields| == |types[t].subs|
    && forall i :: 0 <= i < |m.slots| ==>
         ShapedSlot(types, types[t].fields[i], types[t].subs[i], m.slots[i], sizes)
  }

  /** A slot of the struct replaced by another one of the field. */
  lemma SlotUpdated(types: Types, t: nat, m: Msg, i: nat, s: Slot, sizes: map<nat, nat>)
    requires Shaped(types, t, m, sizes) && i < |types[t].fields|
    requires ShapedSlot(types, types[t].fields[i], types[t].subs[i], s, sizes)
    ensures Shaped(types, t, Msg(m.slots[i := s]), sizes)
    ensures Owned(Msg(m.slots[i := s])) + OwnedSlot(m.slots[i]) == Owned(m) + OwnedSlot(s)
  {
    hide OwnedSlots, OwnedSlot, ShapedSlot;
    OwnedSlotsUpdate(m.slots, i, s);
  }

  lemma SlotOfMessage(types: Types, t: nat, m: Msg, i: nat, sizes: map<nat, nat>)
    requires Shaped(types, t, m, sizes) && i < |types[t].fields|
    ensures i < |types[t].subs| && i < |m.slots|
    ensures ShapedSlot(types, types[t].fields[i], types[t].subs[i], m.slots[i], sizes)
    ensures OwnedSlot(m.slots[i]) <= Owned(m)
  {
    hide OwnedSlots, OwnedSlot, ShapedSlot;
    OwnedSlotsUpdate(m.slots, i, m.slots[i]);
  }

  // ---- only the blocks a struct owns matter ----

  lemma FewerBlocks(a: multiset<nat>, b: multiset<nat>, h: map<nat, nat>, h': map<nat, nat>)
    requires SameSizes(a, h, h') && b <= a
    ensures SameSizes(b, h, h')
  {
    forall x | x in b ensures x in a {
      assert b[x] <= a[x];
    }
  }

  lemma BlockKept(block: Option<nat>, h: map<nat, nat>, h': map<nat, nat>)
    requires SameSizes(Blocks(block), h, h')
    ensures block.Some? && block.value in h ==> block.value in h' && h'[block.value] == h[block.value]
  {
    assert block.Some? ==> block.value in Blocks(block);
  }

  lemma {:induction false} ItemKept(types: Types, f: Field, sub: nat, it: Item, h: map<nat, nat>, h': map<nat, nat>)
    requires ShapedItem(types, f, sub, it, h) && SameSizes(OwnedItem(it), h, h')
    ensures ShapedItem(types, f, sub, it, h')
    decreases it
  {
    hide SameSizes;
    match it
    case Leaf(_) =>
    case Submsg(m) => ShapedKept(types, sub, m, h, h');
    case Entry(block, _) => BlockKept(block, h, h');
  }

  lemma {:induction false} SlotKept(types: Types, f: Field, sub: nat, s: Slot, h: map<nat, nat>, h': map<nat, nat>)
    requires ShapedSlot(types, f, sub, s, h) && SameSizes(OwnedSlot(s), h, h')
    ensures ShapedSlot(types, f, sub, s, h')
    decreases s
  {
    hide SameSizes, ShapedItem, OwnedItem, OwnedItems;
    match s
    case Plain(_) =>
    case Inline(_, m) => ShapedKept(types, sub, m, h, h');
    case Pointer(block, items) =>
      if !f.atype.Static? {
        FewerBlocks(OwnedSlot(s), Blocks(block), h, h');
        BlockKept(block, h, h');
        forall k | 0 <= k < |items| ensures ShapedItem(types, f, sub, items[k], h') {
          OwnedItemsUpdate(items, k, items[k]);
          FewerBlocks(OwnedSlot(s), OwnedItem(items[k]), h, h');
          ItemKept(types, f, sub, items[k], h, h');
        }
      }
  }

  /** A struct is what it was as long as the blocks it owns have the same sizes. */
  lemma {:induction false} ShapedKept(types: Types, t: nat, m: Msg, h: map<nat, nat>, h': map<nat, nat>)
    requires Shaped(types, t, m, h) && SameSizes(Owned(m), h, h')
    ensures Shaped(types, t, m, h')
    decreases m
  {
    hide SameSizes, ShapedSlot, OwnedSlot;
    forall i | 0 <= i < |m.slots|
      ensures ShapedSlot(types, types[t].fields[i], types[t].subs[i], m.slots[i], h')
    {
      OwnedSlotsUpdate(m.slots, i, m.slots[i]);
      FewerBlocks(Owned(m), OwnedSlot(m.slots[i]), h, h');
      SlotKept(types, types[t].fields[i], types[t].subs[i], m.slots[i], h, h');
    }
  }

  /** What the other slots own. */
  lemma OthersOwn(slots: seq<Slot>, i: nat, k: nat)
    requires i < |slots| && k < |slots| && i != k
    ensures OwnedSlot(slots[i]) + OwnedSlot(slots[k]) <= OwnedSlots(slots)
  {
    hide OwnedSlots;
    var empty := Plain(Single(Garbage));
    OwnedSlotsUpdate(slots, i, empty);
    OwnedSlotsUpdate(slots[i := empty], k, empty);
    var rest, a, b := OwnedSlots(slots[i := empty]), OwnedSlot(slots[i]), OwnedSlot(slots[k]);
    assert slots[i := empty][k] == slots[k] && rest + a == OwnedSlots(slots) + multiset{};
    forall x: nat ensures (a + b)[x] <= OwnedSlots(slots)[x] {
      assert (rest + a)[x] == (OwnedSlots(slots) + multiset{})[x] && b[x] <= rest[x];
    }
  }

  /** One slot has exchanged its blocks; the struct has, too, and the other slots are what they were. */
  lemma SlotExchanged(types: Types, t: nat, m: Msg, i: nat, s: Slot, h: Allocation, h': Allocation)
    requires Shaped(types, t, m, h.sizes) && i < |types[t].fields| && Owned(m) <= h.live
    requires Swapped(h, OwnedSlot(m.slots[i]), h', OwnedSlot(s))
    requires ShapedSlot(types, types[t].fields[i], types[t].subs[i], s, h'.sizes)
    ensures Shaped(types, t, Msg(m.slots[i := s]), h'.sizes)
    ensures Swapped(h, Owned(m), h', Owned(Msg(m.slots[i := s])))
  {
    hide OwnedSlots, OwnedSlot, ShapedSlot, Swapped, SameSizes;
    OwnedSlotsUpdate(m.slots, i, s);
    ExchangePart(h, OwnedSlot(m.slots[i]), h', OwnedSlot(s), Owned(m), Owned(Msg(m.slots[i := s])));
    forall k | 0 <= k < |m.slots| && k != i
      ensures ShapedSlot(types, types[t].fields[k], types[t].subs[k], m.slots[k], h'.sizes)
    {
      OthersOwn(m.slots, i, k);
      OthersKeep(h, OwnedSlot(m.slots[i]), h', OwnedSlot(s), OwnedSlot(m.slots[k]));
      SlotKept(types, types[t].fields[k], types[t].subs[k], m.slots[k], h.sizes, h'.sizes);
    }
  }

  /** The block has grown to `n` entries, and stands for the same items. */
  lemma BlockExchanged(types: Types, f: Field, sub: nat, s: Slot, ptr: Option<nat>, n: nat,
                       h: Allocation, h': Allocation)
    requires !f.atype.Static? && f.htype.Repeated? && ShapedSlot(types, f, sub, s, h.sizes) && OwnedSlot(s) <= h.live
    requires Swapped(h, Blocks(s.block), h', Blocks(ptr))
    requires ptr.Some? && ptr.value in h'.sizes && |s.items| * f.dataSize <= n * f.dataSize == h'.sizes[ptr.value]
    ensures ShapedSlot(types, f, sub, Slot.Pointer(ptr, s.items), h'.sizes)
    ensures Swapped(h, OwnedSlot(s), h', OwnedSlot(Slot.Pointer(ptr, s.items)))
  {
    hide OwnedItem, OwnedItems, Swapped, SameSizes, ShapedItem, Blocks;
    OwnedPointer(s.block, s.items, ptr, Leaf(Garbage));
    ExchangePart(h, Blocks(s.block), h', Blocks(ptr), OwnedSlot(s), OwnedSlot(Slot.Pointer(ptr, s.items)));
    OthersKeep(h, Blocks(s.block), h', Blocks(ptr), OwnedItems(s.items));
    forall k | 0 <= k < |s.items| ensures ShapedItem(types, f, sub, s.items[k], h'.sizes) {
      OwnedItemsUpdate(s.items, k, s.items[k]);
      FewerBlocks(OwnedItems(s.items), OwnedItem(s.items[k]), h.sizes, h'.sizes);
      ItemKept(types, f, sub, s.items[k], h.sizes, h'.sizes);
    }
  }

  /** A further item in a block that has room for it, with blocks of its own. */
  lemma ItemExchanged(types: Types, f: Field, sub: nat, s: Slot, it: Item, h: Allocation, h': Allocation)
    requires !f.atype.Static? && f.htype.Repeated? && ShapedSlot(types, f, sub, s, h.sizes) && OwnedSlot(s) <= h.live
    requires s.block.Some? && (|s.items| + 1) * f.dataSize <= h.sizes[s.block.value] && |s.items| < PB_SIZE_MAX
    requires Swapped(h, multiset{}, h', OwnedItem(it)) && ShapedItem(types, f, sub, it, h'.sizes)
    ensures ShapedSlot(types, f, sub, Slot.Pointer(s.block, s.items + [it]), h'.sizes)
    ensures Swapped(h, OwnedSlot(s), h', OwnedSlot(Slot.Pointer(s.block, s.items + [it])))
    ensures s.block.value in h'.sizes && h'.sizes[s.block.value] == h.sizes[s.block.value]
  {
    hide OwnedItem, OwnedItems, Swapped, SameSizes, ShapedItem, Blocks;
    OwnedPointer(s.block, s.items, s.block, it);
    ExchangePart(h, multiset{}, h', OwnedItem(it), OwnedSlot(s), OwnedSlot(Slot.Pointer(s.block, s.items + [it])));
    OthersKeep(h, multiset{}, h', OwnedItem(it), OwnedSlot(s));
    SlotKept(types, f, sub, s, h.sizes, h'.sizes);
    FewerBlocks(OwnedSlot(s), Blocks(s.block), h.sizes, h'.sizes);
    BlockKept(s.block, h.sizes, h'.sizes);
  }
}
