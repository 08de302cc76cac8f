/** pb_release: free every block a struct owns. */
module Release {
  import opened Common
  import opened Descriptor
  import opened FieldIterator
  import opened Allocator
  import opened Ownership

  /** The fields of a type, as the iterator needs them. */
  lemma TypeFacts(types: Types, t: nat)
    requires TypesOk(types) && t < |types|
    ensures LaidOut(types[t].fields) && UniqueTags(types[t].fields)
    ensures |types[t].subs| == |types[t].fields|
    ensures forall i :: 0 <= i < |types[t].fields| ==> types[t].fields[i].tag != 0 && MemberOk(types, t, i)
  {
    assert TypeOk(types, t);
    forall i | 0 <= i < |types[t].fields| ensures types[t].fields[i].tag != 0 && MemberOk(types, t, i) {
      assert MemberOk(types, t, i);
    }
  }

  /**
   * Of the blocks `whole`, those in `left` are still allocated; the others have been freed
   * since `live` and `freed` were `start` and `startFreed`.
   */
  ghost predicate Pending(start: multiset<nat>, startFreed: multiset<nat>, whole: multiset<nat>,
                          live: multiset<nat>, freed: multiset<nat>, left: multiset<nat>)
  {
    whole <= start && left <= live && live + whole == start + left && freed + left == startFreed + whole
  }

  lemma PendingStart(live: multiset<nat>, freed: multiset<nat>, whole: multiset<nat>)
    requires whole <= live
    ensures Pending(live, freed, whole, live, freed, whole)
  {
  }

  lemma PendingStep(start: multiset<nat>, startFreed: multiset<nat>, whole: multiset<nat>,
                    live: multiset<nat>, freed: multiset<nat>, left: multiset<nat>,
                    part: multiset<nat>, live': multiset<nat>, freed': multiset<nat>, left': multiset<nat>)
    requires Pending(start, startFreed, whole, live, freed, left)
    requires live' + part == live && freed' == freed + part && left' + part == left
    ensures Pending(start, startFreed, whole, live', freed', left')
  {
    forall x: nat
      ensures (live' + whole)[x] == (start + left')[x] && (freed' + left')[x] == (startFreed + whole)[x]
      ensures left'[x] <= live'[x]
    {
      assert (live + whole)[x] == (start + left)[x] && (freed + left)[x] == (startFreed + whole)[x];
      assert (live' + part)[x] == live[x] && (left' + part)[x] == left[x];
    }
  }

  lemma PendingLive(start: multiset<nat>, startFreed: multiset<nat>, whole: multiset<nat>,
                    live: multiset<nat>, freed: multiset<nat>, left: multiset<nat>)
    requires Pending(start, startFreed, whole, live, freed, left)
    ensures left <= live
  {
  }

  lemma PendingEnd(start: multiset<nat>, startFreed: multiset<nat>, whole: multiset<nat>,
                   live: multiset<nat>, freed: multiset<nat>)
    requires Pending(start, startFreed, whole, live, freed, multiset{})
    ensures live + whole == start && freed == startFreed + whole
  {
  }

  /** pb_release. Every block the struct owns is freed exactly once, and no other block. */
  method ReleaseMessage(heap: Heap, types: Types, t: nat, m: Msg) returns (m': Msg)
    requires heap.Valid() && TypesOk(types) && Shaped(types, t, m, heap.sizes) && Owned(m) <= heap.live
    modifies heap
    ensures heap.Released(Owned(m))
    ensures Shaped(types, t, m', heap.sizes) && Owned(m') == multiset{}
    decreases m
  {
    hide Owned, Shaped, OwnedSlot, ShapedSlot, TypesOk, LaidOut, MemberOk, Pending, Recorded;
    ShapedLength(types, t, m, heap.sizes);
    TypeFacts(types, t);
    m' := m;
    var fields := types[t].fields;
    var iter := new FieldIter.Begin(fields, 0);
    if fields == [] {
      AllReleased(types, t, m, heap.sizes);
      return;
    }
    ghost var start, startFreed := heap.live, heap.freed;
    PendingStart(start, startFreed, Owned(m));
    var more := true;
    ghost var i := 0;
    while more
      invariant iter.Valid() && iter.start == fields && fresh(iter)
      invariant i <= |fields| && (if more then i == iter.pos else i == |fields|)
      invariant Shaped(types, t, m', heap.sizes) && |m'.slots| == |fields|
      invariant forall k :: i <= k < |fields| ==> m'.slots[k] == m.slots[k]
      invariant forall k :: 0 <= k < i ==> OwnedSlot(m'.slots[k]) == multiset{}
      invariant heap.Valid() && heap.refused == old(heap.refused) && heap.sizes == old(heap.sizes)
      invariant Pending(start, startFreed, Owned(m), heap.live, heap.freed, Owned(m'))
      decreases |fields| - i
    {
      ghost var live, freed, left := heap.live, heap.freed, m';
      PendingLive(start, startFreed, Owned(m), live, freed, Owned(left));
      var slot := m.slots[iter.pos];
      SlotOfMessage(types, t, left, i, heap.sizes);
      var slot' := ReleaseSlot(heap, types, iter.Field(), types[t].subs[iter.pos], slot);
      m' := Msg(m'.slots[iter.pos := slot']);
      SlotUpdated(types, t, left, i, slot', heap.sizes);
      assert Owned(m') + OwnedSlot(slot) == Owned(left) + multiset{} == Owned(left);
      PendingStep(start, startFreed, Owned(m), live, freed, Owned(left),
                  OwnedSlot(slot), heap.live, heap.freed, Owned(m'));
      more := iter.Next();
      i := i + 1;
    }
    AllReleased(types, t, m', heap.sizes);
    PendingEnd(start, startFreed, Owned(m), heap.live, heap.freed);
  }

  lemma ShapedLength(types: Types, t: nat, m: Msg, sizes: map<nat, nat>)
    requires Shaped(types, t, m, sizes)
    ensures t < |types| && |m.slots| == |types[t].fields| == |types[t].subs|
  {
  }

  lemma AllReleased(types: Types, t: nat, m: Msg, sizes: map<nat, nat>)
    requires Shaped(types, t, m, sizes)
    requires forall k :: 0 <= k < |types[t].fields| ==> OwnedSlot(m.slots[k]) == multiset{}
    ensures Owned(m) == multiset{}
  {
    hide OwnedSlots, OwnedSlot, ShapedSlot;
    NothingOwned(m.slots);
  }

  /** pb_release_single_field. */
  method ReleaseSlot(heap: Heap, types: Types, f: Field, sub: nat, s: Slot) returns (s': Slot)
    requires heap.Valid() && TypesOk(types) && ShapedSlot(types, f, sub, s, heap.sizes) && OwnedSlot(s) <= heap.live
    modifies heap
    ensures heap.Released(OwnedSlot(s))
    ensures ShapedSlot(types, f, sub, s', heap.sizes) && OwnedSlot(s') == multiset{}
    ensures s'.Pointer? ==> s'.block == None
    decreases s
  {
    hide OwnedItems, TypesOk, Owned, Shaped, Blocks, ShapedItem;
    match s
    case Plain(_) => s' := s;
    case Inline(has, m) =>
      var m' := ReleaseMessage(heap, types, sub, m);
      s' := Inline(has, m');
    case Pointer(block, items) =>
      NoItems();
      ReleasePointer(heap, types, f, sub, block, items);
      s' := Slot.Pointer(None, []);
  }

  /** First what the block holds, then the block. */
  method ReleasePointer(heap: Heap, types: Types, f: Field, sub: nat, block: Option<nat>, items: seq<Item>)
    requires heap.Valid() && TypesOk(types) && Blocks(block) + OwnedItems(items) <= heap.live
    requires block == None ==> items == []
    requires forall k :: 0 <= k < |items| ==> ShapedItem(types, f, sub, items[k], heap.sizes)
    modifies heap
    ensures heap.Released(Blocks(block) + OwnedItems(items))
    decreases items, 2
  {
    hide OwnedItems, TypesOk, Owned, Shaped, Blocks, ShapedItem;
    ghost var start, startFreed, whole := heap.live, heap.freed, Blocks(block) + OwnedItems(items);
    PendingStart(start, startFreed, whole);
    ReleaseContent(heap, types, f, sub, block, items);
    ghost var live, freed := heap.live, heap.freed;
    PendingStep(start, startFreed, whole, start, startFreed, whole, OwnedItems(items), live, freed, Blocks(block));
    heap.Free(block);
    PendingStep(start, startFreed, whole, live, freed, Blocks(block), Blocks(block), heap.live, heap.freed, multiset{});
  }

  /** What the pointer field's items own. */
  method ReleaseContent(heap: Heap, types: Types, f: Field, sub: nat, block: Option<nat>, items: seq<Item>)
    requires heap.Valid() && TypesOk(types) && OwnedItems(items) <= heap.live
    requires block == None ==> items == []
    requires forall k :: 0 <= k < |items| ==> ShapedItem(types, f, sub, items[k], heap.sizes)
    modifies heap
    ensures heap.Released(OwnedItems(items))
    decreases items, 1
  {
    hide OwnedItems, TypesOk, Owned, Shaped;
    NoItems();
    if f.ltype.LSubmessage? {
      if block != None {
        var items' := ReleaseItems(heap, types, f, sub, items);
      }
    } else if IsEntries(f) {
      var items' := ReleaseEntries(heap, types, f, sub, items);
    } else {
      LeavesOwnNothing(items);
    }
  }

  lemma NoItems()
    ensures OwnedItems([]) == multiset{} && OwnedSlot(Slot.Pointer(None, [])) == multiset{}
  {
  }

  lemma LeavesOwnNothing(items: seq<Item>)
    requires forall k :: 0 <= k < |items| ==> items[k].Leaf?
    ensures OwnedItems(items) == multiset{}
  {
    NoItemOwned(items);
  }

  method ReleaseItem(heap: Heap, types: Types, f: Field, sub: nat, it: Item) returns (it': Item)
    requires heap.Valid() && TypesOk(types) && f.ltype.LSubmessage? && OwnedItem(it) <= heap.live
    requires ShapedItem(types, f, sub, it, heap.sizes)
    modifies heap
    ensures heap.Released(OwnedItem(it))
    ensures ShapedItem(types, f, sub, it', heap.sizes) && OwnedItem(it') == multiset{}
    decreases it
  {
    hide TypesOk, Owned, Shaped;
    var m' := ReleaseMessage(heap, types, sub, it.m);
    it' := Item.Submsg(m');
  }

  /** Release all submessages of an array, or the one submessage. */
  method ReleaseItems(heap: Heap, types: Types, f: Field, sub: nat, items: seq<Item>) returns (items': seq<Item>)
    requires heap.Valid() && TypesOk(types) && f.ltype.LSubmessage? && OwnedItems(items) <= heap.live
    requires forall k :: 0 <= k < |items| ==> ShapedItem(types, f, sub, items[k], heap.sizes)
    modifies heap
    ensures heap.Released(OwnedItems(items))
    ensures |items'| == |items| && OwnedItems(items') == multiset{}
    ensures forall k :: 0 <= k < |items'| ==> ShapedItem(types, f, sub, items'[k], heap.sizes)
    decreases items, 0
  {
    hide OwnedItems, OwnedItem, TypesOk, ShapedItem, Pending;
    items' := items;
    var i := 0;
    ghost var start, startFreed := heap.live, heap.freed;
    PendingStart(start, startFreed, OwnedItems(items));
    while i < |items|
      invariant 0 <= i <= |items| == |items'|
      invariant forall k :: 0 <= k < |items| ==> ShapedItem(types, f, sub, items'[k], heap.sizes)
      invariant forall k :: i <= k < |items| ==> items'[k] == items[k]
      invariant forall k :: 0 <= k < i ==> OwnedItem(items'[k]) == multiset{}
      invariant heap.Valid() && heap.refused == old(heap.refused) && heap.sizes == old(heap.sizes)
      invariant Pending(start, startFreed, OwnedItems(items), heap.live, heap.freed, OwnedItems(items'))
    {
      ghost var live, freed, left := heap.live, heap.freed, items';
      PendingLive(start, startFreed, OwnedItems(items), live, freed, OwnedItems(left));
      OwnedItemsUpdate(left, i, items[i]);
      var it := ReleaseItem(heap, types, f, sub, items[i]);
      items' := items'[i := it];
      OwnedItemsUpdate(left, i, it);
      PendingStep(start, startFreed, OwnedItems(items), live, freed, OwnedItems(left),
                  OwnedItem(items[i]), heap.live, heap.freed, OwnedItems(items'));
      i := i + 1;
    }
    NoItemOwned(items');
    PendingEnd(start, startFreed, OwnedItems(items), heap.live, heap.freed);
  }

  /** Free the strings of an array, and clear the pointers to them. */
  method ReleaseEntries(heap: Heap, types: Types, f: Field, sub: nat, items: seq<Item>) returns (items': seq<Item>)
    requires heap.Valid() && IsEntries(f) && OwnedItems(items) <= heap.live
    requires forall k :: 0 <= k < |items| ==> ShapedItem(types, f, sub, items[k], heap.sizes)
    modifies heap
    ensures heap.Released(OwnedItems(items))
    ensures |items'| == |items| && OwnedItems(items') == multiset{}
  {
    hide OwnedItems, Pending;
    items' := items;
    var i := 0;
    ghost var start, startFreed := heap.live, heap.freed;
    PendingStart(start, startFreed, OwnedItems(items));
    while i < |items|
      invariant 0 <= i <= |items| == |items'|
      invariant forall k :: i <= k < |items| ==> items'[k] == items[k]
      invariant forall k :: 0 <= k < i ==> OwnedItem(items'[k]) == multiset{}
      invariant heap.Valid() && heap.refused == old(heap.refused) && heap.sizes == old(heap.sizes)
      invariant Pending(start, startFreed, OwnedItems(items), heap.live, heap.freed, OwnedItems(items'))
    {
      ghost var live, freed, left := heap.live, heap.freed, items';
      PendingLive(start, startFreed, OwnedItems(items), live, freed, OwnedItems(left));
      OwnedItemsUpdate(left, i, items[i]);
      heap.Free(items[i].block);
      items' := items'[i := Entry(None, items[i].v)];
      OwnedItemsUpdate(left, i, Entry(None, items[i].v));
      PendingStep(start, startFreed, OwnedItems(items), live, freed, OwnedItems(left),
                  OwnedItem(items[i]), heap.live, heap.freed, OwnedItems(items'));
      i := i + 1;
    }
    NoItemOwned(items');
    PendingEnd(start, startFreed, OwnedItems(items), heap.live, heap.freed);
  }
}
