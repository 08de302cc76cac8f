/**
 * pb_decode with dynamically allocated fields. At every return, whatever the input and
 * whenever the allocator fails, the blocks the struct owned before have been exchanged for
 * those it owns now; and unless a request was refused, what is decoded is what the
 * specification says.
 */
module PointerDecoder {
  import opened Common
  import opened Varint32
  import opened Descriptor
  import opened DecodeSpec
  import opened InputStream
  import opened FieldIterator
  import opened RequiredFields
  import opened Allocator
  import opened Ownership
  import opened Release
  import opened PointerSpec
  import Decoder

  /** Success gives the specified result; failure is specified too, or memory was refused. */
  ghost predicate Agrees<T>(spec: Option<T>, ok: bool, v: T, refused: bool) {
    if ok then spec == Some(v) else refused || spec == None
  }

  /** On success exactly the framed payload has been read. */
  twostate predicate Consumed(fr: Framing, stream: IStream, ok: bool)
    requires old(stream.Valid()) && stream.Valid()
    reads stream, stream.buf
  {
    && stream.End() <= old(stream.End()) && stream.pos >= old(stream.pos)
    && (ok ==>
          && stream.End() == old(stream.End())
          && FrameLen(fr, old(stream.Rest())).Some?
          && stream.Rest() == old(stream.Rest())[FrameLen(fr, old(stream.Rest())).value..])
  }

  /** The payload at the front of `s`. */
  function Payload(fr: Framing, s: bytes): Option<bytes> {
    var k := FrameLen(fr, s);
    if k.Some? then Some(s[..k.value]) else None
  }

  // ---- default values ----

  /** pb_field_set_to_default. */
  method FieldSetToDefault(types: Types, t: nat, i: nat, zeroed: bool, ghost sizes: map<nat, nat>) returns (s: Slot)
    requires TypesOk(types) && t < |types| && i < |types[t].fields| == |types[t].subs|
    ensures ShapedSlot(types, types[t].fields[i], types[t].subs[i], s, sizes) && OwnedSlot(s) == multiset{}
    ensures BareSlot(s) == InitialSlot(types, t, i, zeroed)
    decreases t, 0
  {
    hide TypesOk, LaidOut, Shaped, Owned, Bare, InitialMessage;
    TypeFacts(types, t);
    var f := types[t].fields[i];
    assert MemberOk(types, t, i);
    if f.atype.Static? {
      if f.ltype.LSubmessage? {
        var m := MessageSetToDefaults(types, types[t].subs[i], zeroed, sizes);
        s := Inline(false, m);
      } else {
        s := Plain(InitialCell(f, zeroed));
      }
    } else {
      s := Slot.Pointer(None, []);
    }
  }

  /** pb_message_set_to_defaults: every pointer becomes NULL. */
  method MessageSetToDefaults(types: Types, t: nat, zeroed: bool, ghost sizes: map<nat, nat>) returns (m: Msg)
    requires TypesOk(types) && t < |types|
    ensures Shaped(types, t, m, sizes) && Owned(m) == multiset{}
    ensures Bare(m) == InitialMessage(types, t, zeroed)
    decreases t, 1
  {
    hide TypesOk, LaidOut, MemberOk, ShapedSlot, OwnedSlot, OwnedSlots, BareSlot, InitialSlot;
    TypeFacts(types, t);
    var fields := types[t].fields;
    var slots: seq<Slot> := [];
    var iter := new FieldIter.Begin(fields, 0);
    var more := fields != [];
    while more
      invariant iter.Valid() && iter.start == fields && fresh(iter)
      invariant |slots| == if more then iter.pos else |fields|
      invariant |slots| <= |fields| && (more ==> fields != [])
      invariant forall k :: 0 <= k < |slots| ==> ShapedSlot(types, fields[k], types[t].subs[k], slots[k], sizes)
      invariant forall k :: 0 <= k < |slots| ==> OwnedSlot(slots[k]) == multiset{}
      invariant forall k :: 0 <= k < |slots| ==> BareSlot(slots[k]) == InitialSlot(types, t, k, zeroed)
      decreases |fields| - |slots|
    {
      var s := FieldSetToDefault(types, t, iter.pos, zeroed, sizes);
      slots := slots + [s];
      more := iter.Next();
    }
    NothingOwned(slots);
    m := Msg(slots);
  }

  // ---- values ----

  function BlobAt(f: Field, s: bytes): Option<Value> {
    match Payload(ByLength, s)
    case None => None
    case Some(p) => BlobValue(f, p)
  }

  lemma BlobContents(f: Field, s: bytes)
    requires f.ltype.LString? || f.ltype.LBytes?
    ensures var k := FrameLen(ByLength, s);
            && (Dec32(s).Some? ==> Dec32(s).value.0 < TWO_TO_THE_32)
            && (Dec32(s).None? ==> k.None?)
            && (Dec32(s).Some? && |s[Dec32(s).value.1..]| < Dec32(s).value.0 ==> k.None?)
            && (Dec32(s).Some? && |s[Dec32(s).value.1..]| >= Dec32(s).value.0 ==>
                  && k.Some? && s[k.value..] == s[Dec32(s).value.1..][Dec32(s).value.0..]
                  && BlobAt(f, s) ==
                       if Dec32(s).value.0 >= (if f.ltype.LString? then 0xFFFF_FFFF else PB_SIZE_MAX + 1) then None
                       else Some(Blob(s[Dec32(s).value.1..][..Dec32(s).value.0])))
            && (k.None? ==> BlobAt(f, s) == None)
  {
    hide Dec32;
    Decoder.ContentsOnPayload(s);
    Dec32Bound(s);
  }

  /** The content of a block of `room` bytes, with a terminator if there is room for one. */
  method ReadBlob(stream: IStream, size: nat, room: nat) returns (ok: bool, b: bytes)
    requires stream.Valid() && size <= room
    modifies stream
    ensures stream.Valid() && stream.End() == old(stream.End()) && stream.pos >= old(stream.pos)
    ensures |b| == size && (ok <==> size <= |old(stream.Rest())|)
    ensures ok ==> b == old(stream.Rest())[..size] && stream.Rest() == old(stream.Rest())[size..]
  {
    var dest := new byte[room](_ => 0);
    ok := stream.Read(dest, size);
    if size < room {
      dest[size] := 0;
    }
    b := dest[..size];
  }

  /** The pointer branch of pb_dec_string. */
  method DecString(heap: Heap, stream: IStream, f: Field, ptr: Option<nat>)
    returns (ok: bool, ptr': Option<nat>, v: Value)
    requires heap.Valid() && stream.Valid() && Blocks(ptr) <= heap.live && f.ltype.LString?
    modifies heap, stream
    ensures stream.Valid() && Consumed(ByLength, stream, ok)
    ensures Agrees(BlobAt(f, old(stream.Rest())), ok, v, heap.refused > old(heap.refused))
    ensures heap.Exchanged(Blocks(ptr), Blocks(ptr')) && (ptr.Some? ==> ptr'.Some?)
    ensures (ok ==> ptr'.Some?) && BlobFits(f, v, ptr', heap.sizes)
  {
    hide Dec32, FrameLen, BlobAt, Blocks, Swapped, Recorded;
    BlobContents(f, stream.Rest());
    BlockKnown(ptr, heap.Now());
    NothingExchanged(heap.Now(), Blocks(ptr));
    ptr', v := ptr, Garbage;
    var size;
    ok, size := stream.DecodeVarint32();
    if !ok {
      return;
    }
    var allocSize := if size == 0xFFFF_FFFF then 0 else size + 1;
    if allocSize < size {
      return false, ptr', v;
    }
    ok, ptr' := AllocateField(heap, ptr, allocSize, 1);
    if !ok {
      return;
    }
    var b;
    ok, b := ReadBlob(stream, size, allocSize);
    v := Blob(b);
  }

  /** The pointer branch of pb_dec_bytes. */
  method DecBytes(heap: Heap, stream: IStream, f: Field, ptr: Option<nat>)
    returns (ok: bool, ptr': Option<nat>, v: Value)
    requires heap.Valid() && stream.Valid() && Blocks(ptr) <= heap.live && f.ltype.LBytes?
    modifies heap, stream
    ensures stream.Valid() && Consumed(ByLength, stream, ok)
    ensures Agrees(BlobAt(f, old(stream.Rest())), ok, v, heap.refused > old(heap.refused))
    ensures heap.Exchanged(Blocks(ptr), Blocks(ptr')) && (ptr.Some? ==> ptr'.Some?)
    ensures (ok ==> ptr'.Some?) && BlobFits(f, v, ptr', heap.sizes)
  {
    hide Dec32, FrameLen, BlobAt, Blocks, Swapped, Recorded;
    BlobContents(f, stream.Rest());
    BlockKnown(ptr, heap.Now());
    NothingExchanged(heap.Now(), Blocks(ptr));
    ptr', v := ptr, Garbage;
    var size;
    ok, size := stream.DecodeVarint32();
    if !ok {
      return;
    }
    if size > PB_SIZE_MAX {
      return false, ptr', v;
    }
    var allocSize := size + BYTES_OFFSET;
    ok, ptr' := AllocateField(heap, ptr, allocSize, 1);
    if !ok {
      return;
    }
    var b;
    ok, b := ReadBlob(stream, size, size);
    v := Blob(b);
  }

  /** Strings and bytes: the pointer to them is what the field or the array entry holds. */
  method DecBlob(heap: Heap, stream: IStream, f: Field, ptr: Option<nat>)
    returns (ok: bool, ptr': Option<nat>, v: Value)
    requires heap.Valid() && stream.Valid() && Blocks(ptr) <= heap.live && (f.ltype.LString? || f.ltype.LBytes?)
    modifies heap, stream
    ensures stream.Valid() && Consumed(ByLength, stream, ok)
    ensures Agrees(BlobAt(f, old(stream.Rest())), ok, v, heap.refused > old(heap.refused))
    ensures heap.Exchanged(Blocks(ptr), Blocks(ptr')) && (ptr.Some? ==> ptr'.Some?)
    ensures (ok ==> ptr'.Some?) && BlobFits(f, v, ptr', heap.sizes)
  {
    hide FrameLen, BlobAt;
    if f.ltype.LString? {
      ok, ptr', v := DecString(heap, stream, f, ptr);
    } else {
      ok, ptr', v := DecBytes(heap, stream, f, ptr);
    }
  }

  function SubmessageAt(types: Types, f: Field, sub: nat, s: bytes, m: Msg): Option<Msg> {
    match Payload(ByLength, s)
    case None => None
    case Some(p) => SubmessageValue(types, f, sub, p, m)
  }

  /**
   * pb_dec_submessage into `m`. An array entry goes through pb_decode, which releases what
   * it allocated when it fails; other members keep it for the caller to release.
   */
  method DecSubmessage(heap: Heap, stream: IStream, types: Types, f: Field, sub: nat, m: Msg)
    returns (ok: bool, m': Msg)
    requires heap.Valid() && stream.Valid() && TypesOk(types)
    requires Shaped(types, sub, m, heap.sizes) && Owned(m) <= heap.live
    requires sub < |types| && (f.htype.Repeated? ==> Owned(m) == multiset{})
    modifies heap, stream
    ensures stream.Valid() && Consumed(ByLength, stream, ok)
    ensures heap.Exchanged(Owned(m), Owned(m')) && Shaped(types, sub, m', heap.sizes)
    ensures Agrees(SubmessageAt(types, f, sub, old(stream.Rest()), Bare(m)), ok, Bare(m'),
                   heap.refused > old(heap.refused))
    decreases stream.bytesLeft, 0
  {
    hide Shaped, Owned, TypesOk, Bare, Dec32, MergeAt, FrameLen, SubmessageAt, InitialMessage, Swapped, Recorded;
    ghost var s := stream.Rest();
    NothingExchanged(heap.Now(), Owned(m));
    SubmessageContents(types, f, sub, s, Bare(m));
    m' := m;
    var inner;
    ok, inner := stream.MakeStringSubstream();
    if !ok {
      return;
    }
    var status;
    status, m' := DecContents(heap, inner, types, f, sub, m);
    var closed := stream.CloseStringSubstream(inner);
    if !closed {
      return false, m';
    }
    ok := status;
    assert ok ==> stream.Rest() == s[FrameLen(ByLength, s).value..] by {
      if ok {
        assert stream.pos == old(stream.pos) + FrameLen(ByLength, s).value;
      }
    }
  }

  /** The contents of a submessage, on a stream of their own. */
  method DecContents(heap: Heap, inner: IStream, types: Types, f: Field, sub: nat, m: Msg)
    returns (ok: bool, m': Msg)
    requires heap.Valid() && inner.Valid() && TypesOk(types)
    requires Shaped(types, sub, m, heap.sizes) && Owned(m) <= heap.live
    requires sub < |types| && (f.htype.Repeated? ==> Owned(m) == multiset{})
    modifies heap, inner
    ensures inner.Valid() && inner.End() <= old(inner.End()) && inner.pos >= old(inner.pos)
    ensures ok ==> inner.End() == old(inner.End())
    ensures heap.Exchanged(Owned(m), Owned(m')) && Shaped(types, sub, m', heap.sizes)
    ensures var start := if f.htype.Repeated? then InitialMessage(types, sub, true) else Bare(m);
            Agrees(MergeAt(types, sub, old(inner.Rest()), start), ok, (Bare(m'), inner.Rest()),
                   heap.refused > old(heap.refused))
    decreases inner.bytesLeft, 11
  {
    hide Shaped, Owned, TypesOk, Bare, MergeAt, InitialMessage;
    if f.htype.Repeated? {
      ok, m' := Decode(heap, inner, types, sub, true);
    } else {
      ok, m' := DecodeNoinit(heap, inner, types, sub, m);
    }
  }

  /** A submessage record in terms of its contents. */
  lemma SubmessageContents(types: Types, f: Field, sub: nat, s: bytes, m: Msg)
    requires sub < |types|
    ensures var k := FrameLen(ByLength, s);
            var start := if f.htype.Repeated? then InitialMessage(types, sub, true) else m;
            if k.None? then SubmessageAt(types, f, sub, s, m) == None
            else
              && Dec32(s).Some? && Dec32(s).value.1 <= k.value <= |s|
              && k.value == Dec32(s).value.1 + Dec32(s).value.0
              && SubmessageAt(types, f, sub, s, m) ==
                   match MergeAt(types, sub, s[Dec32(s).value.1..k.value], start)
                   case None => None
                   case Some((m', _)) => Some(m')
  {
    hide Merge, Dec32;
    Decoder.ContentsOnPayload(s);
    Decoder.LengthFramed(s);
  }

  /** initialize_pointer_field: the content of a new item, which owns nothing. */
  method InitializeItem(types: Types, f: Field, sub: nat, ghost sizes: map<nat, nat>) returns (it: Item)
    requires TypesOk(types) && (f.ltype.LSubmessage? ==> sub < |types|)
    ensures ShapedItem(types, f, sub, it, sizes) && OwnedItem(it) == multiset{}
    ensures BareItem(it) == NewItem(types, f, sub)
  {
    hide TypesOk, Shaped, Owned, Bare, InitialMessage;
    if f.ltype.LSubmessage? {
      var m := MessageSetToDefaults(types, sub, true, sizes);
      it := Item.Submsg(m);
    } else if IsEntries(f) {
      it := Entry(None, Garbage);
    } else {
      it := Leaf(Garbage);
    }
  }

  function ItemAt(types: Types, f: Field, sub: nat, s: bytes): Option<Item> {
    match Payload(ItemFraming(f.ltype), s)
    case None => None
    case Some(p) => ItemValue(types, f, sub, p)
  }

  /** The value decoder on an item in a block. */
  method DecItem(heap: Heap, stream: IStream, types: Types, f: Field, sub: nat, it: Item)
    returns (ok: bool, it': Item)
    requires heap.Valid() && stream.Valid() && TypesOk(types) && OwnedItem(it) <= heap.live
    requires ShapedItem(types, f, sub, it, heap.sizes) && (f.htype.Repeated? ==> OwnedItem(it) == multiset{})
    requires (f.ltype.LString? || f.ltype.LBytes?) ==> f.htype.Repeated?
    requires (f.ltype.LSubmessage? ==> sub < |types|) && BareItem(it) == NewItem(types, f, sub)
    modifies heap, stream
    ensures stream.Valid() && Consumed(ItemFraming(f.ltype), stream, ok)
    ensures Agrees(ItemAt(types, f, sub, old(stream.Rest())), ok, BareItem(it'), heap.refused > old(heap.refused))
    ensures heap.Exchanged(OwnedItem(it), OwnedItem(it')) && ShapedItem(types, f, sub, it', heap.sizes)
    decreases stream.bytesLeft, 1
  {
    hide TypesOk, Shaped, Owned, Bare, InitialMessage, FrameLen, DecValue, BlobValue, SubmessageValue;
    hide Swapped, Recorded;
    NothingExchanged(heap.Now(), multiset{});
    var v;
    match f.ltype {
      case Packable(_) =>
        ok, v := Decoder.DecScalarValue(stream, f, Garbage);
        it' := Leaf(v);
      case LFixedLengthBytes =>
        ok, v := Decoder.DecFixedLengthBytes(stream, f, Garbage);
        it' := Leaf(v);
      case LSubmessage =>
        var m;
        ok, m := DecSubmessage(heap, stream, types, f, sub, it.m);
        it' := Item.Submsg(m);
      case _ =>
        var ptr;
        ok, ptr, v := DecBlob(heap, stream, f, it.block);
        it' := Entry(ptr, v);
    }
  }

  // ---- pointer fields ----

  function PointerAt(types: Types, f: Field, sub: nat, wt: nat, s: bytes, slot: Slot): Option<Slot>
    requires slot.Pointer?
  {
    match Payload(Decoder.FieldFraming(f, wt), s)
    case None => None
    case Some(p) => PointerValue(types, f, sub, wt, p, slot)
  }

  /** The last record of a field that is not repeated wins. */
  lemma SingleValue(types: Types, f: Field, sub: nat, wt: nat, s: bytes, slot: Slot)
    requires !f.htype.Repeated? && slot.Pointer?
    ensures Decoder.FieldFraming(f, wt) == ItemFraming(f.ltype)
    ensures PointerAt(types, f, sub, wt, s, slot) ==
              match ItemAt(types, f, sub, s)
              case None => None
              case Some(it) => Some(Slot.Pointer(Some(0), [it]))
  {
    hide ItemValue, FrameLen;
  }

  lemma NextValue(types: Types, f: Field, sub: nat, wt: nat, s: bytes, slot: Slot)
    requires f.htype.Repeated? && !IsPacked(f, wt) && slot.Pointer?
    ensures Decoder.FieldFraming(f, wt) == ItemFraming(f.ltype)
    ensures PointerAt(types, f, sub, wt, s, BareSlot(slot)) ==
              if |slot.items| >= PB_SIZE_MAX then None else NextAt(types, f, sub, s, BareItems(slot.items))
  {
    hide ItemValue, FrameLen;
  }

  lemma BlobItem(types: Types, f: Field, sub: nat, s: bytes)
    requires (f.ltype.LString? || f.ltype.LBytes?) && !f.htype.Repeated?
    ensures ItemFraming(f.ltype) == ByLength
    ensures ItemAt(types, f, sub, s) ==
              match BlobAt(f, s)
              case None => None
              case Some(v) => Some(Leaf(v))
  {
    hide BlobValue, FrameLen;
  }

  /** A string or bytes field: the value decoder does the allocation. */
  method DecodeBlobPointer(heap: Heap, stream: IStream, ghost wt: nat, types: Types, f: Field, sub: nat, s: Slot)
    returns (ok: bool, s': Slot)
    requires heap.Valid() && stream.Valid() && OwnedSlot(s) <= heap.live
    requires f.atype.Pointer? && !f.htype.Repeated? && ShapedSlot(types, f, sub, s, heap.sizes)
    requires f.ltype.LString? || f.ltype.LBytes?
    modifies heap, stream
    ensures stream.Valid() && Consumed(Decoder.FieldFraming(f, wt), stream, ok)
    ensures heap.Exchanged(OwnedSlot(s), OwnedSlot(s')) && ShapedSlot(types, f, sub, s', heap.sizes)
    ensures ok ==> s'.Pointer? && s'.block.Some?
    ensures Agrees(PointerAt(types, f, sub, wt, old(stream.Rest()), BareSlot(s)), ok, BareSlot(s'),
                   heap.refused > old(heap.refused))
  {
    hide OwnedSlot, ShapedSlot, BareSlot, BlobFits, Blocks, FrameLen, BlobAt, PointerAt, Swapped, Recorded;
    BlobOwned(types, f, sub, s, heap.sizes);
    SingleValue(types, f, sub, wt, stream.Rest(), BareSlot(s));
    BlobItem(types, f, sub, stream.Rest());
    var ptr, v;
    ok, ptr, v := DecBlob(heap, stream, f, s.block);
    BlobSlot(types, f, sub, ptr, v, heap.sizes);
    s' := if ptr == None then s else Slot.Pointer(ptr, [Leaf(v)]);
    if ptr == None {
      NullAnywhere(types, f, sub, s, old(heap.sizes), heap.sizes);
    }
  }

  /** What a string or bytes field owns is the block. */
  lemma BlobOwned(types: Types, f: Field, sub: nat, s: Slot, sizes: map<nat, nat>)
    requires f.atype.Pointer? && !f.htype.Repeated? && IsBlob(f) && ShapedSlot(types, f, sub, s, sizes)
    ensures s.Pointer? && OwnedSlot(s) == Blocks(s.block) && BareSlot(s).Pointer?
  {
    LeavesOwnNothing(s.items);
    assert Blocks(s.block) + multiset{} == Blocks(s.block);
  }

  lemma BlobSlot(types: Types, f: Field, sub: nat, ptr: Option<nat>, v: Value, sizes: map<nat, nat>)
    requires f.atype.Pointer? && !f.htype.Repeated? && IsBlob(f) && BlobFits(f, v, ptr, sizes)
    ensures var s := Slot.Pointer(ptr, [Leaf(v)]);
            && OwnedSlot(s) == Blocks(ptr) && BareSlot(s) == Slot.Pointer(BarePointer(ptr), [Leaf(v)])
            && (ptr.Some? ==> ShapedSlot(types, f, sub, s, sizes))
  {
    hide BlobFits;
    OneItem(Leaf(v));
    BareAppend(ptr, [], Leaf(v));
    assert Blocks(ptr) + multiset{} == Blocks(ptr);
  }

  lemma NullAnywhere(types: Types, f: Field, sub: nat, s: Slot, h: map<nat, nat>, h': map<nat, nat>)
    requires f.atype.Pointer? && s.Pointer? && s.block == None && ShapedSlot(types, f, sub, s, h)
    ensures ShapedSlot(types, f, sub, s, h')
  {
  }

  lemma BareAppend(ptr: Option<nat>, items: seq<Item>, it: Item)
    ensures BareSlot(Slot.Pointer(ptr, items + [it]))
         == Slot.Pointer(BarePointer(ptr), BareItems(items) + [BareItem(it)])
    ensures items == [] ==> items + [it] == [it] && BareItems(items) + [BareItem(it)] == [BareItem(it)]
  {
    hide BareItem;
    assert BareItems(items + [it]) == BareItems(items) + [BareItem(it)];
  }

  /** The branch of decode_pointer_field for required and optional fields. */
  method DecodeSinglePointer(heap: Heap, stream: IStream, ghost wt: nat, types: Types, f: Field, sub: nat, s: Slot)
    returns (ok: bool, s': Slot)
    requires heap.Valid() && stream.Valid() && TypesOk(types) && OwnedSlot(s) <= heap.live
    requires f.atype.Pointer? && !f.htype.Repeated? && ShapedSlot(types, f, sub, s, heap.sizes)
    requires (f.ltype.LSubmessage? ==> sub < |types|) && 0 < f.dataSize <= PB_SIZE_MAX
    modifies heap, stream
    ensures stream.Valid() && Consumed(Decoder.FieldFraming(f, wt), stream, ok)
    ensures heap.Exchanged(OwnedSlot(s), OwnedSlot(s')) && ShapedSlot(types, f, sub, s', heap.sizes)
    ensures ok ==> s'.Pointer? && s'.block.Some?
    ensures Agrees(PointerAt(types, f, sub, wt, old(stream.Rest()), BareSlot(s)), ok, BareSlot(s'),
                   heap.refused > old(heap.refused))
    decreases stream.bytesLeft, 3
  {
    hide TypesOk, OwnedSlot, ShapedSlot, Blocks, FrameLen, PointerAt;
    s' := ReleaseOld(heap, types, f, sub, s);
    ghost var now, before := heap.Now(), OwnedSlot(s');
    StillLive(old(heap.Now()), OwnedSlot(s), now, before);
    SameBare(types, f, sub, wt, stream.Rest(), s, s');
    if f.ltype.LString? || f.ltype.LBytes? {
      ok, s' := DecodeBlobPointer(heap, stream, wt, types, f, sub, s');
    } else {
      ok, s' := DecodeNewBlock(heap, stream, wt, types, f, sub, s');
    }
    ExchangeThen(old(heap.Now()), OwnedSlot(s), now, before, heap.Now(), OwnedSlot(s'));
  }

  /** What was there before does not matter. */
  lemma SameBare(types: Types, f: Field, sub: nat, wt: nat, s: bytes, x: Slot, y: Slot)
    requires !f.htype.Repeated? && x.Pointer? && y.Pointer?
    ensures PointerAt(types, f, sub, wt, s, BareSlot(x)) == PointerAt(types, f, sub, wt, s, BareSlot(y))
  {
    hide PointerAt;
    SingleValue(types, f, sub, wt, s, BareSlot(x));
    SingleValue(types, f, sub, wt, s, BareSlot(y));
  }

  /** Duplicate field: the old submessage has to be released first. */
  method ReleaseOld(heap: Heap, types: Types, f: Field, sub: nat, s: Slot) returns (s': Slot)
    requires heap.Valid() && TypesOk(types) && OwnedSlot(s) <= heap.live
    requires f.atype.Pointer? && !f.htype.Repeated? && ShapedSlot(types, f, sub, s, heap.sizes)
    modifies heap
    ensures heap.Exchanged(OwnedSlot(s), OwnedSlot(s')) && heap.refused == old(heap.refused)
    ensures s.Pointer? && s'.Pointer? && ShapedSlot(types, f, sub, s', heap.sizes) && OwnedSlot(s') == Blocks(s'.block)
  {
    hide TypesOk, Shaped, Owned, OwnedItem, OwnedItems, Blocks;
    s' := s;
    if f.ltype.LSubmessage? {
      if s'.block != None {
        s' := ReleaseSlot(heap, types, f, sub, s');
      }
      NullOwnsNothing(s');
    } else {
      LeavesOwnNothing(s.items);
      assert Blocks(s.block) + multiset{} == Blocks(s.block);
    }
  }

  /** Any other type: first the block, then the value in it. */
  method DecodeNewBlock(heap: Heap, stream: IStream, ghost wt: nat, types: Types, f: Field, sub: nat, s: Slot)
    returns (ok: bool, s': Slot)
    requires heap.Valid() && stream.Valid() && TypesOk(types) && OwnedSlot(s) <= heap.live
    requires f.atype.Pointer? && !f.htype.Repeated? && ShapedSlot(types, f, sub, s, heap.sizes)
    requires s.Pointer? && OwnedSlot(s) == Blocks(s.block) && !f.ltype.LString? && !f.ltype.LBytes?
    requires (f.ltype.LSubmessage? ==> sub < |types|) && 0 < f.dataSize <= PB_SIZE_MAX
    modifies heap, stream
    ensures stream.Valid() && Consumed(Decoder.FieldFraming(f, wt), stream, ok)
    ensures heap.Exchanged(OwnedSlot(s), OwnedSlot(s')) && ShapedSlot(types, f, sub, s', heap.sizes)
    ensures ok ==> s'.Pointer? && s'.block.Some?
    ensures Agrees(PointerAt(types, f, sub, wt, old(stream.Rest()), BareSlot(s)), ok, BareSlot(s'),
                   heap.refused > old(heap.refused))
    decreases stream.bytesLeft, 2
  {
    hide TypesOk, OwnedItem, OwnedItems, OwnedSlot, Shaped, ShapedSlot, ShapedItem, Blocks, Swapped, Recorded;
    hide FrameLen, PointerAt, ItemAt, BareItem;
    NothingExchanged(heap.Now(), OwnedSlot(s));
    SingleValue(types, f, sub, wt, stream.Rest(), BareSlot(s));
    s' := s;
    var ptr;
    ok, ptr := AllocateField(heap, s.block, f.dataSize, 1);
    if !ok {
      return;
    }
    var it := InitializeItem(types, f, sub, heap.sizes);
    ghost var grown := heap.Now();
    ok, it := DecItem(heap, stream, types, f, sub, it);
    BareAppend(ptr, [], it);
    s' := Slot.Pointer(ptr, [it]);
    NewBlock(types, f, sub, OwnedSlot(s), ptr, it, old(heap.Now()), grown, heap.Now());
  }

  /** The new block and what its one item owns, after both have been allocated. */
  lemma NewBlock(types: Types, f: Field, sub: nat, before: multiset<nat>, ptr: Option<nat>, it: Item,
                 h: Allocation, grown: Allocation, h': Allocation)
    requires f.atype.Pointer? && !f.htype.Repeated? && !IsBlob(f) && ptr.Some?
    requires before <= h.live && Swapped(h, before, grown, Blocks(ptr))
    requires ptr.value in grown.sizes && grown.sizes[ptr.value] == 1 * f.dataSize
    requires Swapped(grown, multiset{}, h', OwnedItem(it)) && ShapedItem(types, f, sub, it, h'.sizes)
    ensures ShapedSlot(types, f, sub, Slot.Pointer(ptr, [it]), h'.sizes)
    ensures Swapped(h, before, h', OwnedSlot(Slot.Pointer(ptr, [it])))
  {
    hide OwnedItem, OwnedItems, Swapped, SameSizes, ShapedItem, Blocks;
    OneItem(it);
    StillLive(h, before, grown, Blocks(ptr));
    OthersKeep(grown, multiset{}, h', OwnedItem(it), Blocks(ptr));
    BlockKept(ptr, grown.sizes, h'.sizes);
    ExchangeMore(h, before, grown, Blocks(ptr), h', OwnedItem(it), OwnedSlot(Slot.Pointer(ptr, [it])));
  }

  lemma NullOwnsNothing(s: Slot)
    requires s.Pointer? && s.block == None && s.items == []
    ensures OwnedSlot(s) == multiset{} == Blocks(s.block)
  {
  }

  lemma OneItem(it: Item)
    ensures OwnedItems([it]) == OwnedItem(it)
    ensures it.Leaf? ==> OwnedItem(it) == multiset{}
  {
    assert [it][1..] == [];
  }

  /** The packed branch: room for the items to come is estimated, and grown when it runs out. */
  method DecodePackedPointer(heap: Heap, stream: IStream, ghost wt: nat, types: Types, f: Field, sub: nat, s: Slot)
    returns (ok: bool, s': Slot)
    requires heap.Valid() && stream.Valid() && TypesOk(types) && OwnedSlot(s) <= heap.live
    requires f.atype.Pointer? && IsPacked(f, wt) && 0 < f.dataSize <= PB_SIZE_MAX
    requires ShapedSlot(types, f, sub, s, heap.sizes)
    modifies heap, stream
    ensures stream.Valid() && Consumed(Decoder.FieldFraming(f, wt), stream, ok)
    ensures heap.Exchanged(OwnedSlot(s), OwnedSlot(s')) && ShapedSlot(types, f, sub, s', heap.sizes)
    ensures Agrees(PointerAt(types, f, sub, wt, old(stream.Rest()), BareSlot(s)), ok, BareSlot(s'),
                   heap.refused > old(heap.refused))
  {
    hide TypesOk, OwnedSlot, ShapedSlot, Dec32, FrameLen, PackedItems, BareItems, PointerAt, BareSlot;
    hide Swapped, Recorded;
    NothingExchanged(heap.Now(), OwnedSlot(s));
    ghost var s0 := stream.Rest();
    Decoder.LengthFramed(s0);
    s' := s;
    PointerFacts(types, f, sub, s, heap.sizes);
    PackedContents(types, f, sub, wt, s0, s);
    var inner;
    ok, inner := stream.MakeStringSubstream();
    if !ok {
      return;
    }
    var status;
    status, s' := DecodePackedItems(heap, inner, types, f, sub, s);
    var closed := stream.CloseStringSubstream(inner);
    if !closed {
      return false, s';
    }
    ok := status;
    assert stream.pos == old(stream.pos) + FrameLen(ByLength, s0).value;
    if ok {
      PackedEnd(f, s');
    }
  }

  /** The loop over the contents of a packed record. */
  method DecodePackedItems(heap: Heap, inner: IStream, types: Types, f: Field, sub: nat, s: Slot)
    returns (ok: bool, s': Slot)
    requires heap.Valid() && inner.Valid() && OwnedSlot(s) <= heap.live
    requires f.atype.Pointer? && f.htype.Repeated? && f.ltype.Packable? && 0 < f.dataSize <= PB_SIZE_MAX
    requires ShapedSlot(types, f, sub, s, heap.sizes)
    modifies heap, inner
    ensures inner.Valid() && inner.End() == old(inner.End()) && inner.pos >= old(inner.pos)
    ensures heap.Exchanged(OwnedSlot(s), OwnedSlot(s')) && ShapedSlot(types, f, sub, s', heap.sizes)
    ensures s.Pointer? && s'.Pointer? && (ok ==> inner.bytesLeft == 0)
    ensures Agrees(PackedItems(f, old(inner.Rest()), BareItems(s.items)), ok, BareItems(s'.items),
                   heap.refused > old(heap.refused))
    ensures ok ==> if s'.items == [] then s' == s else s'.block.Some?
  {
    hide OwnedSlot, ShapedSlot, PackedItems, BareItems;
    PointerFacts(types, f, sub, s, heap.sizes);
    ok, s' := true, s;
    var allocatedSize: nat := |s.items|;
    while inner.bytesLeft > 0
      invariant inner.Valid() && inner.End() == old(inner.End()) && inner.pos >= old(inner.pos)
      invariant ShapedSlot(types, f, sub, s', heap.sizes) && HasRoom(f, s', allocatedSize, heap.sizes)
      invariant heap.Exchanged(OwnedSlot(s), OwnedSlot(s'))
      invariant PackedItems(f, old(inner.Rest()), BareItems(s.items))
             == PackedItems(f, inner.Rest(), BareItems(s'.items))
      invariant s'.items == [] ==> s' == s
      decreases inner.bytesLeft
    {
      ghost var now, before := heap.Now(), OwnedSlot(s');
      StillLive(old(heap.Now()), OwnedSlot(s), now, before);
      ok, s', allocatedSize := DecodePackedItem(heap, inner, types, f, sub, s', allocatedSize);
      ExchangeThen(old(heap.Now()), OwnedSlot(s), now, before, heap.Now(), OwnedSlot(s'));
      PointerFacts(types, f, sub, s', heap.sizes);
      if !ok {
        return;
      }
    }
    PackedEnd(f, s');
  }

  /** `allocatedSize` entries fit the block, and no fewer than there are. */
  predicate HasRoom(f: Field, s: Slot, allocatedSize: nat, sizes: map<nat, nat>) {
    && s.Pointer? && |s.items| <= allocatedSize <= PB_SIZE_MAX && (s.block == None ==> allocatedSize == 0)
    && (s.block.Some? ==> s.block.value in sizes && allocatedSize * f.dataSize <= sizes[s.block.value])
  }

  /** One turn of the loop over packed items. */
  method DecodePackedItem(heap: Heap, inner: IStream, types: Types, f: Field, sub: nat, s: Slot, allocatedSize: nat)
    returns (ok: bool, s': Slot, allocatedSize': nat)
    requires heap.Valid() && inner.Valid() && OwnedSlot(s) <= heap.live && inner.bytesLeft > 0
    requires f.atype.Pointer? && f.htype.Repeated? && f.ltype.Packable? && 0 < f.dataSize <= PB_SIZE_MAX
    requires ShapedSlot(types, f, sub, s, heap.sizes) && HasRoom(f, s, allocatedSize, heap.sizes)
    modifies heap, inner
    ensures inner.Valid() && inner.End() == old(inner.End()) && inner.pos >= old(inner.pos)
    ensures heap.Exchanged(OwnedSlot(s), OwnedSlot(s')) && ShapedSlot(types, f, sub, s', heap.sizes)
    ensures ok ==> HasRoom(f, s', allocatedSize', heap.sizes) && s'.items != []
    ensures ok ==> inner.bytesLeft < old(inner.bytesLeft)
    ensures var spec := PackedItems(f, old(inner.Rest()), BareItems(s.items));
            if ok then spec == PackedItems(f, inner.Rest(), BareItems(s'.items))
            else heap.refused > old(heap.refused) || spec == None
  {
    hide OwnedSlot, ShapedSlot, Dec32, FrameLen, DecValue, Estimate, PackedItems, BareItems;
    PackedStep(f, inner.Rest(), s.items);
    ok, s', allocatedSize' := true, s, allocatedSize;
    var size := |s.items|;
    if size == PB_SIZE_MAX {
      return false, s', allocatedSize';
    }
    if size + 1 > allocatedSize {
      ok, s', allocatedSize' := MakeRoom(heap, types, f, sub, s, inner.bytesLeft);
      if !ok {
        return;
      }
    }
    var v;
    ok, v := Decoder.DecScalarValue(inner, f, Garbage);
    if !ok {
      return;
    }
    AddLeaf(types, f, sub, s', v, allocatedSize', heap.sizes);
    LeafAdded(s.items, v);
    PointerFacts(types, f, sub, s', heap.sizes);
    s' := s'.(items := s'.items + [Leaf(v)]);
  }

  /** A packed record in terms of its contents. */
  lemma PackedContents(types: Types, f: Field, sub: nat, wt: nat, s: bytes, slot: Slot)
    requires IsPacked(f, wt) && slot.Pointer?
    ensures var k := FrameLen(ByLength, s);
            if k.None? then PointerAt(types, f, sub, wt, s, BareSlot(slot)) == None
            else
              && Dec32(s).Some? && Dec32(s).value.1 <= k.value <= |s|
              && PointerAt(types, f, sub, wt, s, BareSlot(slot)) ==
                   match PackedItems(f, s[Dec32(s).value.1..k.value], BareItems(slot.items))
                   case None => None
                   case Some(items) =>
                     Some(Slot.Pointer(if items == [] then BarePointer(slot.block) else Some(0), items))
    ensures Decoder.FieldFraming(f, wt) == ByLength
  {
    hide Dec32, PackedItems, BareItems;
    Decoder.ContentsOnPayload(s);
    Decoder.LengthFramed(s);
  }

  lemma PackedStep(f: Field, c: bytes, items: seq<Item>)
    requires c != []
    ensures |items| >= PB_SIZE_MAX ==> PackedItems(f, c, BareItems(items)) == None
    ensures |items| < PB_SIZE_MAX ==>
              var k := FrameLen(ItemFraming(f.ltype), c);
              var v := if k.Some? then DecValue(f, c[..k.value], Garbage) else None;
              PackedItems(f, c, BareItems(items)) ==
                if v.None? then None else PackedItems(f, c[k.value..], BareItems(items) + [Leaf(v.value)])
  {
    hide FrameLen, DecValue;
  }

  lemma LeafAdded(items: seq<Item>, v: Value)
    ensures BareItems(items + [Leaf(v)]) == BareItems(items) + [Leaf(v)]
  {
  }

  lemma PackedEnd(f: Field, s: Slot)
    requires s.Pointer?
    ensures PackedItems(f, [], BareItems(s.items)) == Some(BareItems(s.items))
    ensures BareItems(s.items) == [] <==> s.items == []
    ensures BareSlot(s) == Slot.Pointer(BarePointer(s.block), BareItems(s.items))
  {
  }

  lemma PointerFacts(types: Types, f: Field, sub: nat, s: Slot, sizes: map<nat, nat>)
    requires f.atype.Pointer? && f.htype.Repeated? && ShapedSlot(types, f, sub, s, sizes)
    ensures s.Pointer? && |s.items| <= PB_SIZE_MAX
    ensures s.block.Some? ==> s.block.value in sizes && |s.items| * f.dataSize <= sizes[s.block.value]
    ensures s.block == None ==> s.items == []
    ensures Blocks(s.block) <= OwnedSlot(s)
  {
  }

  /** Room for the number of entries the remaining bytes may hold, or for one more. */
  function Estimate(allocatedSize: nat, bytesLeft: nat, dataSize: nat): (n: nat)
    requires bytesLeft > 0 && dataSize > 0 && allocatedSize < PB_SIZE_MAX
    ensures allocatedSize < n <= PB_SIZE_MAX
  {
    var remain := (bytesLeft - 1) / dataSize + 1;
    allocatedSize + if remain < PB_SIZE_MAX - allocatedSize then remain else 1
  }

  /** The guess is the remaining bytes divided by the size of an entry, rounded up, if the counter allows it. */
  lemma EstimateMeaning(allocatedSize: nat, bytesLeft: nat, dataSize: nat, entries: nat)
    requires bytesLeft > 0 && dataSize > 0 && allocatedSize < PB_SIZE_MAX
    requires entries * dataSize >= bytesLeft > entries * dataSize - dataSize
    ensures Estimate(allocatedSize, bytesLeft, dataSize)
         == allocatedSize + if allocatedSize + entries < PB_SIZE_MAX then entries else 1
  {
    RoundedUp(bytesLeft, dataSize, entries, (bytesLeft - 1) / dataSize + 1);
  }

  lemma RoundedUp(n: nat, w: nat, a: nat, b: nat)
    requires w > 0 && a * w >= n > a * w - w && b * w >= n > b * w - w
    ensures a == b
  {
    if a < b {
      Monotone(a + 1, b, w);
    } else if b < a {
      Monotone(b + 1, a, w);
    }
  }

  /** More storage: a guess at the number of entries still to come. */
  method MakeRoom(heap: Heap, types: Types, f: Field, sub: nat, s: Slot, bytesLeft: nat)
    returns (ok: bool, s': Slot, allocatedSize': nat)
    requires heap.Valid() && OwnedSlot(s) <= heap.live && bytesLeft > 0
    requires f.atype.Pointer? && f.htype.Repeated? && f.ltype.Packable? && 0 < f.dataSize <= PB_SIZE_MAX
    requires ShapedSlot(types, f, sub, s, heap.sizes) && |s.items| < PB_SIZE_MAX
    modifies heap
    ensures heap.Exchanged(OwnedSlot(s), OwnedSlot(s')) && ShapedSlot(types, f, sub, s', heap.sizes)
    ensures s.Pointer? && s'.Pointer? && s'.items == s.items
    ensures ok || heap.refused > old(heap.refused)
    ensures ok ==> HasRoom(f, s', allocatedSize', heap.sizes) && |s.items| < allocatedSize'
    ensures ok ==>
              && allocatedSize' == Estimate(|s.items|, bytesLeft, f.dataSize)
              && s'.block.Some? && heap.sizes[s'.block.value] == allocatedSize' * f.dataSize
  {
    hide OwnedSlot, ShapedSlot, Estimate, Swapped, Recorded;
    PointerFacts(types, f, sub, s, heap.sizes);
    allocatedSize' := Estimate(|s.items|, bytesLeft, f.dataSize);
    ok, s' := GrowBlock(heap, types, f, sub, s, allocatedSize');
  }

  /** allocate_field for the block of an array, which keeps its entries. */
  method GrowBlock(heap: Heap, types: Types, f: Field, sub: nat, s: Slot, entries: nat) returns (ok: bool, s': Slot)
    requires heap.Valid() && OwnedSlot(s) <= heap.live
    requires f.atype.Pointer? && f.htype.Repeated? && 0 < f.dataSize <= PB_SIZE_MAX
    requires ShapedSlot(types, f, sub, s, heap.sizes) && |s.items| < entries <= PB_SIZE_MAX
    modifies heap
    ensures heap.Exchanged(OwnedSlot(s), OwnedSlot(s')) && ShapedSlot(types, f, sub, s', heap.sizes)
    ensures s.Pointer? && s'.Pointer? && s'.items == s.items
    ensures ok || heap.refused > old(heap.refused)
    ensures ok ==> s'.block.Some? && HasRoom(f, s', entries, heap.sizes)
    ensures ok ==> heap.sizes[s'.block.value] == entries * f.dataSize
  {
    hide OwnedSlot, ShapedSlot, Blocks, Swapped, Recorded;
    PointerFacts(types, f, sub, s, heap.sizes);
    NothingExchanged(heap.Now(), OwnedSlot(s));
    s' := s;
    ProductFits(f.dataSize, entries);
    ghost var before := heap.Now();
    var ptr;
    ok, ptr := AllocateField(heap, s.block, f.dataSize, entries);
    if ok {
      s' := Slot.Pointer(ptr, s.items);
      Monotone(|s.items|, entries, f.dataSize);
      BlockExchanged(types, f, sub, s, ptr, entries, before, heap.Now());
    }
  }

  lemma AddLeaf(types: Types, f: Field, sub: nat, s: Slot, v: Value, allocatedSize: nat, sizes: map<nat, nat>)
    requires f.atype.Pointer? && f.htype.Repeated? && f.ltype.Packable? && ShapedSlot(types, f, sub, s, sizes)
    requires HasRoom(f, s, allocatedSize, sizes) && |s.items| < allocatedSize
    ensures var s' := s.(items := s.items + [Leaf(v)]);
            ShapedSlot(types, f, sub, s', sizes) && OwnedSlot(s') == OwnedSlot(s)
  {
    hide OwnedItems;
    LeavesOwnNothing(s.items);
    LeavesOwnNothing(s.items + [Leaf(v)]);
    Monotone(|s.items| + 1, allocatedSize, f.dataSize);
  }

  /** The entries behind the pointer with one more. */
  function NextAt(types: Types, f: Field, sub: nat, s: bytes, items: seq<Item>): Option<Slot> {
    match ItemAt(types, f, sub, s)
    case None => None
    case Some(it) => Some(Slot.Pointer(Some(0), items + [it]))
  }

  /** The new entry, in a block that has room for just one more. */
  method DecodeEntry(heap: Heap, stream: IStream, types: Types, f: Field, sub: nat, s: Slot)
    returns (ok: bool, s': Slot)
    requires heap.Valid() && stream.Valid() && TypesOk(types) && OwnedSlot(s) <= heap.live
    requires f.atype.Pointer? && f.htype.Repeated? && ShapedSlot(types, f, sub, s, heap.sizes)
    requires (f.ltype.LSubmessage? ==> sub < |types|) && s.Pointer? && |s.items| < PB_SIZE_MAX
    requires s.block.Some? && s.block.value in heap.sizes
    requires heap.sizes[s.block.value] == (|s.items| + 1) * f.dataSize
    modifies heap, stream
    ensures stream.Valid() && Consumed(ItemFraming(f.ltype), stream, ok)
    ensures heap.Exchanged(OwnedSlot(s), OwnedSlot(s')) && ShapedSlot(types, f, sub, s', heap.sizes)
    ensures s'.Pointer? && s'.block == s.block && |s'.items| == |s.items| + 1
    ensures s.block.value in heap.sizes && heap.sizes[s.block.value] == (|s.items| + 1) * f.dataSize
    ensures Agrees(NextAt(types, f, sub, old(stream.Rest()), BareItems(s.items)), ok, BareSlot(s'),
                   heap.refused > old(heap.refused))
    decreases stream.bytesLeft, 2
  {
    hide TypesOk, ShapedSlot, ShapedItem, OwnedSlot, OwnedItem, Blocks, FrameLen, ItemAt, BareItem, Swapped, Recorded;
    var it := InitializeItem(types, f, sub, heap.sizes);
    ok, it := DecItem(heap, stream, types, f, sub, it);
    s' := Slot.Pointer(s.block, s.items + [it]);
    BareAppend(s.block, s.items, it);
    ItemExchanged(types, f, sub, s, it, old(heap.Now()), heap.Now());
  }

  /** One item of an array: the block grows by one entry first. */
  method DecodeNextItem(heap: Heap, stream: IStream, ghost wt: nat, types: Types, f: Field, sub: nat, s: Slot)
    returns (ok: bool, s': Slot)
    requires heap.Valid() && stream.Valid() && TypesOk(types) && OwnedSlot(s) <= heap.live
    requires f.atype.Pointer? && f.htype.Repeated? && ShapedSlot(types, f, sub, s, heap.sizes)
    requires (f.ltype.LSubmessage? ==> sub < |types|) && 0 < f.dataSize <= PB_SIZE_MAX && !IsPacked(f, wt)
    modifies heap, stream
    ensures stream.Valid() && Consumed(Decoder.FieldFraming(f, wt), stream, ok)
    ensures heap.Exchanged(OwnedSlot(s), OwnedSlot(s')) && ShapedSlot(types, f, sub, s', heap.sizes)
    ensures ok ==>
              && s'.Pointer? && s'.block.Some? && s'.block.value in heap.sizes
              && heap.sizes[s'.block.value] == |s'.items| * f.dataSize
    ensures Agrees(PointerAt(types, f, sub, wt, old(stream.Rest()), BareSlot(s)), ok, BareSlot(s'),
                   heap.refused > old(heap.refused))
    decreases stream.bytesLeft, 3
  {
    hide TypesOk, ShapedSlot, OwnedSlot, Blocks, FrameLen, PointerAt, NextAt, BareItems, Swapped, Recorded;
    s' := s;
    PointerFacts(types, f, sub, s, heap.sizes);
    NothingExchanged(heap.Now(), OwnedSlot(s));
    NextValue(types, f, sub, wt, stream.Rest(), s);
    var size := |s.items|;
    if size == PB_SIZE_MAX {
      return false, s';
    }
    ok, s' := GrowBlock(heap, types, f, sub, s, size + 1);
    if !ok {
      return;
    }
    ghost var grown, room := heap.Now(), s';
    StillLive(old(heap.Now()), OwnedSlot(s), grown, OwnedSlot(room));
    ok, s' := DecodeEntry(heap, stream, types, f, sub, s');
    ExchangeThen(old(heap.Now()), OwnedSlot(s), grown, OwnedSlot(room), heap.Now(), OwnedSlot(s'));
  }

  /** decode_pointer_field. */
  method DecodePointerField(heap: Heap, stream: IStream, wt: nat, types: Types, f: Field, sub: nat, s: Slot)
    returns (ok: bool, s': Slot)
    requires heap.Valid() && stream.Valid() && TypesOk(types) && OwnedSlot(s) <= heap.live
    requires f.atype.Pointer? && 0 < f.dataSize <= PB_SIZE_MAX && ShapedSlot(types, f, sub, s, heap.sizes)
    requires f.ltype.LSubmessage? ==> sub < |types|
    modifies heap, stream
    ensures stream.Valid() && Consumed(Decoder.FieldFraming(f, wt), stream, ok)
    ensures heap.Exchanged(OwnedSlot(s), OwnedSlot(s')) && ShapedSlot(types, f, sub, s', heap.sizes)
    ensures ok && !f.htype.Repeated? ==> s'.block.Some?
    ensures Agrees(PointerAt(types, f, sub, wt, old(stream.Rest()), BareSlot(s)), ok, BareSlot(s'),
                   heap.refused > old(heap.refused))
    decreases stream.bytesLeft, 4
  {
    hide TypesOk, OwnedSlot, PointerAt;
    if !f.htype.Repeated? {
      ok, s' := DecodeSinglePointer(heap, stream, wt, types, f, sub, s);
    } else if wt == WT_STRING && f.ltype.Packable? {
      ok, s' := DecodePackedPointer(heap, stream, wt, types, f, sub, s);
    } else {
      ok, s' := DecodeNextItem(heap, stream, wt, types, f, sub, s);
    }
  }

  // ---- messages ----

  /** Required pointer fields that were seen are not NULL. */
  ghost predicate SeenPresent(fields: seq<Field>, seen: set<nat>, m: Msg) {
    |m.slots| == |fields| &&
    forall i :: 0 <= i < |fields| && fields[i].htype.Required? && fields[i].atype.Pointer?
                && RequiredBefore(fields, i) in seen ==>
      m.slots[i].Pointer? && m.slots[i].block.Some?
  }

  /** The required pointer fields among those pb_decode checks are not NULL. */
  ghost predicate RequiredPresent(fields: seq<Field>, m: Msg) {
    |m.slots| == |fields| &&
    forall i :: (0 <= i < |fields| && fields[i].htype.Required? && fields[i].atype.Pointer?
                 && RequiredBefore(fields, i) < 64) ==>
      m.slots[i].Pointer? && m.slots[i].block.Some?
  }

  function FieldAt(types: Types, t: nat, i: nat, wt: nat, s: bytes, slot: Slot, count: nat): Option<(Slot, nat)>
    requires t < |types| && i < |types[t].fields| == |types[t].subs|
  {
    match Payload(Decoder.FieldFraming(types[t].fields[i], wt), s)
    case None => None
    case Some(p) => FieldValue(types, types[t].fields[i], types[t].subs[i], wt, p, slot, count)
  }

  lemma FieldCases(types: Types, t: nat, i: nat, wt: nat, s: bytes, slot: Slot, count: nat)
    requires t < |types| && i < |types[t].fields| == |types[t].subs|
    ensures var f, sub := types[t].fields[i], types[t].subs[i];
            var at := FieldAt(types, t, i, wt, s, slot, count);
            if f.atype.Pointer? then
              slot.Pointer? ==>
                at == match PointerAt(types, f, sub, wt, s, slot) case None => None case Some(x) => Some((x, count))
            else if f.ltype.LSubmessage? then
              slot.Inline? ==>
                && Decoder.FieldFraming(f, wt) == ByLength
                && at == match SubmessageAt(types, f, sub, s, slot.m)
                         case None => None
                         case Some(m) => Some((Inline(slot.has || HasFlag(f), m), count))
            else
              slot.Plain? ==>
                at == match Payload(Decoder.FieldFraming(f, wt), s)
                      case None => None
                      case Some(p) =>
                        match ApplyField(f, wt, p, slot.c, count)
                        case None => None
                        case Some((c, n)) => Some((Plain(c), n))
  {
    hide FrameLen, PointerValue, SubmessageValue, ApplyField;
  }

  /** decode_field on field `i`. `count` is the progress of a fixed count array. */
  method DecodeField(heap: Heap, stream: IStream, wt: nat, types: Types, t: nat, i: nat, s: Slot, count: nat)
    returns (ok: bool, s': Slot, count': nat)
    requires heap.Valid() && stream.Valid() && TypesOk(types) && OwnedSlot(s) <= heap.live
    requires t < |types| && i < |types[t].fields| == |types[t].subs|
    requires ShapedSlot(types, types[t].fields[i], types[t].subs[i], s, heap.sizes)
    requires IsFixedCount(types[t].fields[i]) ==> count <= types[t].fields[i].arraySize
    modifies heap, stream
    ensures stream.Valid() && Consumed(Decoder.FieldFraming(types[t].fields[i], wt), stream, ok)
    ensures heap.Exchanged(OwnedSlot(s), OwnedSlot(s'))
    ensures ShapedSlot(types, types[t].fields[i], types[t].subs[i], s', heap.sizes)
    ensures Agrees(FieldAt(types, t, i, wt, old(stream.Rest()), BareSlot(s), count), ok, (BareSlot(s'), count'),
                   heap.refused > old(heap.refused))
    ensures ok && IsFixedCount(types[t].fields[i]) ==> count' <= types[t].fields[i].arraySize
    ensures ok && types[t].fields[i].atype.Pointer? && types[t].fields[i].htype.Required? ==>
              s'.Pointer? && s'.block.Some?
    decreases stream.bytesLeft, 5
  {
    hide TypesOk, Shaped, Owned, OwnedItems, LaidOut, ApplyField, FrameLen;
    hide Bare, BareItems, PointerAt, SubmessageAt, FieldAt;
    FieldCases(types, t, i, wt, stream.Rest(), BareSlot(s), count);
    TypeFacts(types, t);
    var f, sub := types[t].fields[i], types[t].subs[i];
    assert MemberOk(types, t, i);
    ok, s', count' := false, s, count;
    if f.atype.Pointer? {
      ok, s' := DecodePointerField(heap, stream, wt, types, f, sub, s);
    } else if f.ltype.LSubmessage? {
      var m;
      ok, m := DecSubmessage(heap, stream, types, f, sub, s.m);
      s' := Inline(s.has || HasFlag(f), m);
    } else {
      Decoder.ExtendBoundAll(f, wt, s.c);
      var c;
      ok, c, count' := Decoder.DecodeStaticField(stream, wt, f, s.c, count);
      s' := Plain(c);
    }
  }

  lemma SeenGrows(fields: seq<Field>, seen: set<nat>, m: Msg, i: nat, s: Slot)
    requires SeenPresent(fields, seen, m) && i < |fields|
    requires fields[i].atype.Pointer? && fields[i].htype.Required? ==> s.Pointer? && s.block.Some?
    ensures SeenPresent(fields, seen + Marks(Desc(fields), i), Msg(m.slots[i := s]))
  {
    forall k | 0 <= k < |fields| && k != i && fields[k].htype.Required? && fields[i].htype.Required?
      ensures RequiredBefore(fields, k) != RequiredBefore(fields, i)
    {
      RequiredMonotone(fields, if k < i then k else i, if k < i then i else k);
    }
  }

  function KnownAt(types: Types, t: nat, i: nat, wt: nat, s: bytes, g: Stage): Option<Stage>
    requires t < |types| && i < |types[t].fields|
  {
    match Payload(Decoder.FieldFraming(types[t].fields[i], wt), s)
    case None => None
    case Some(p) => ApplyKnown(types, t, i, wt, p, g)
  }

  /** The part of a turn of the record loop for a field of the type. */
  method DecodeKnown(heap: Heap, stream: IStream, wt: nat, types: Types, t: nat, m: Msg, iter: FieldIter,
                     fieldsSeen: FieldsSeen, arrayField: int, arraySize: nat, ghost g: Stage)
    returns (ok: bool, m': Msg, arrayField': int, arraySize': nat, ghost g': Stage)
    requires heap.Valid() && stream.Valid() && TypesOk(types)
    requires Shaped(types, t, m, heap.sizes) && Owned(m) <= heap.live
    requires t < |types| && iter.Valid() && iter.start == types[t].fields && types[t].fields != []
    requires fieldsSeen.Valid() && SeenPresent(types[t].fields, fieldsSeen.Seen(), m)
    requires g.m == Bare(m) && Decoder.Tracks(Table(types, t), g.st, fieldsSeen.Seen(), arrayField, arraySize)
    modifies heap, stream, fieldsSeen.words
    ensures stream.Valid() && Consumed(Decoder.FieldFraming(types[t].fields[iter.pos], wt), stream, ok)
    ensures heap.Exchanged(Owned(m), Owned(m')) && Shaped(types, t, m', heap.sizes)
    ensures fieldsSeen.Valid() && (ok ==> SeenPresent(types[t].fields, fieldsSeen.Seen(), m'))
    ensures Agrees(KnownAt(types, t, iter.pos, wt, old(stream.Rest()), g), ok, g', heap.refused > old(heap.refused))
    ensures ok ==>
              && g'.m == Bare(m')
              && Decoder.Tracks(Table(types, t), g'.st, fieldsSeen.Seen(), arrayField', arraySize')
    decreases stream.bytesLeft, 6
  {
    hide TypesOk, ShapedSlot, OwnedSlot, Shaped, Owned, LaidOut, RequiredBefore;
    hide FrameLen, KnownAt, FieldAt, StartArray, Marks;
    hide Decoder.Tracks, Decoder.FieldFraming, BareSlot, Bare, SeenPresent;
    var f, i := iter.Field(), iter.pos;
    assert f == types[t].fields[i];
    ok, m', arrayField', arraySize', g' := false, m, arrayField, arraySize, g;
    ghost var seen := fieldsSeen.Seen();
    ghost var d := Table(types, t);
    TypeFacts(types, t);
    ShapedLength(types, t, m, heap.sizes);
    SlotOfMessage(types, t, m, i, heap.sizes);
    BareUpdate(m, i, m.slots[i]);
    ghost var s0 := stream.Rest();
    KnownOfField(types, t, i, wt, s0, g);
    ghost var started: State;
    Decoder.TracksCount(d, g.st, seen, arrayField, arraySize);
    ok, arrayField', arraySize', started :=
      Decoder.StartRecord(Table(types, t), iter, fieldsSeen, arrayField, arraySize, g.st);
    assert stream.Rest() == s0;
    if !ok {
      return;
    }
    var isArray := f.htype.Repeated? && iter.pSize == iter.pData;
    assert isArray == IsFixedCount(f);
    Decoder.TracksCount(d, started, fieldsSeen.Seen(), arrayField', arraySize');
    ghost var before := arraySize';
    var s, n;
    ok, s, n := DecodeField(heap, stream, wt, types, t, i, m.slots[i], if isArray then arraySize' else 0);
    m' := Msg(m.slots[i := s]);
    SlotExchanged(types, t, m, i, s, old(heap.Now()), heap.Now());
    if ok {
      if isArray {
        arraySize' := n;
      }
      g' := Stage(Bare(m'), State(g.st.cells, started.seen, Decoder.ProgressOf(arrayField', arraySize')));
      BareUpdate(m, i, s);
      Decoder.TracksOn(d, started, g'.st, fieldsSeen.Seen(), arrayField', before, arraySize');
      assert fieldsSeen.Seen() == seen + Marks(d, i);
      SeenGrows(iter.start, seen, m, i, s);
    }
  }

  lemma KnownOfField(types: Types, t: nat, i: nat, wt: nat, s: bytes, g: Stage)
    requires t < |types| && i < |types[t].fields| == |types[t].subs| && i < |g.m.slots|
    ensures var d := Table(types, t);
            var fixed := StartArray(d, i, g.st.fixed);
            && (fixed.None? ==> KnownAt(types, t, i, wt, s, g) == None)
            && (fixed.Some? ==>
                  KnownAt(types, t, i, wt, s, g) ==
                    match FieldAt(types, t, i, wt, s, g.m.slots[i],
                                  if IsFixedCount(d.fields[i]) then fixed.value.count else 0)
                    case None => None
                    case Some((x, n)) =>
                      Some(Stage(
                        Msg(g.m.slots[i := x]),
                        State(g.st.cells, g.st.seen + Marks(d, i),
                              if IsFixedCount(d.fields[i]) then Array(i, n) else fixed.value))))
  {
    hide FieldValue, FrameLen, Marks;
  }

  lemma BareUpdate(m: Msg, i: nat, s: Slot)
    requires i < |m.slots|
    ensures |Bare(m).slots| == |m.slots| && Bare(m).slots[i] == BareSlot(m.slots[i])
    ensures Bare(Msg(m.slots[i := s])) == Msg(Bare(m).slots[i := BareSlot(s)])
  {
  }

  function RecordAt(types: Types, t: nat, tag: nat, wt: nat, s: bytes, g: Stage): Option<Stage>
    requires t < |types|
  {
    match Payload(FramingOf(Table(types, t), tag, wt), s)
    case None => None
    case Some(p) => PointerSpec.Apply(types, t, tag, wt, p, g)
  }

  lemma RecordOfField(types: Types, t: nat, i: nat, wt: nat, s: bytes, g: Stage)
    requires t < |types| && UniqueTags(types[t].fields) && i < |types[t].fields|
    ensures FramingOf(Table(types, t), types[t].fields[i].tag, wt) == Decoder.FieldFraming(types[t].fields[i], wt)
    ensures RecordAt(types, t, types[t].fields[i].tag, wt, s, g) == KnownAt(types, t, i, wt, s, g)
  {
    hide ApplyKnown, FrameLen;
    FindUnique(Table(types, t), i);
  }

  lemma RecordOfNone(types: Types, t: nat, tag: nat, wt: nat, s: bytes, g: Stage)
    requires t < |types| && Find(Table(types, t), tag).None? && !MatchesTerminator(Table(types, t), tag)
    ensures FramingOf(Table(types, t), tag, wt) == SkipFraming(wt)
    ensures RecordAt(types, t, tag, wt, s, g) == if FrameLen(SkipFraming(wt), s).Some? then Some(g) else None
  {
    hide ApplyKnown, FrameLen;
  }

  /** One turn of the record loop after the tag: find the field and decode it, or skip the payload. */
  method DecodeRecord(heap: Heap, stream: IStream, tag: nat, wt: nat, types: Types, t: nat, m: Msg, iter: FieldIter,
                      fieldsSeen: FieldsSeen, arrayField: int, arraySize: nat, ghost g: Stage)
    returns (ok: bool, m': Msg, arrayField': int, arraySize': nat, ghost g': Stage)
    requires heap.Valid() && stream.Valid() && TypesOk(types)
    requires Shaped(types, t, m, heap.sizes) && Owned(m) <= heap.live
    requires t < |types| && iter.Valid() && iter.start == types[t].fields
    requires fieldsSeen.Valid() && SeenPresent(types[t].fields, fieldsSeen.Seen(), m)
    requires g.m == Bare(m) && Decoder.Tracks(Table(types, t), g.st, fieldsSeen.Seen(), arrayField, arraySize)
    modifies heap, stream, iter, fieldsSeen.words
    ensures stream.Valid() && Consumed(FramingOf(Table(types, t), tag, wt), stream, ok)
    ensures iter.Valid()
    ensures heap.Exchanged(Owned(m), Owned(m')) && Shaped(types, t, m', heap.sizes)
    ensures fieldsSeen.Valid() && (ok ==> SeenPresent(types[t].fields, fieldsSeen.Seen(), m'))
    ensures Agrees(RecordAt(types, t, tag, wt, old(stream.Rest()), g), ok, g', heap.refused > old(heap.refused))
    ensures ok ==>
              && g'.m == Bare(m')
              && Decoder.Tracks(Table(types, t), g'.st, fieldsSeen.Seen(), arrayField', arraySize')
    decreases stream.bytesLeft, 7
  {
    hide TypesOk, Shaped, Owned, LaidOut, RequiredBefore, SeenPresent, FrameLen, ApplyField, Bare;
    hide Decoder.Tracks, FramingOf, Decoder.FieldFraming, RecordAt, KnownAt, SkipFraming;
    TypeFacts(types, t);
    m', arrayField', arraySize', g' := m, arrayField, arraySize, g;
    ghost var seen, s := fieldsSeen.Seen(), stream.Rest();
    ghost var d := Table(types, t);
    var found := iter.Find(tag);
    assert fieldsSeen.Seen() == seen;
    if !found {
      RecordOfNone(types, t, tag, wt, s, g);
      ok := stream.SkipField(wt);
    } else if iter.start == [] {
      TerminatorRecord(types, t, wt, s, g);
      var c, n;
      ok, c, n := Decoder.DecodeStaticField(stream, wt, TERMINATOR, Single(Garbage), 0);
    } else {
      RecordOfField(types, t, iter.pos, wt, s, g);
      ok, m', arrayField', arraySize', g' :=
        DecodeKnown(heap, stream, wt, types, t, m, iter, fieldsSeen, arrayField, arraySize, g);
      return;
    }
    assert fieldsSeen.Seen() == seen;
  }

  lemma TerminatorRecord(types: Types, t: nat, wt: nat, s: bytes, g: Stage)
    requires t < |types| && types[t].fields == []
    ensures FramingOf(Table(types, t), 0, wt) == Decoder.FieldFraming(TERMINATOR, wt)
    ensures RecordAt(types, t, 0, wt, s, g) ==
              match Payload(Decoder.FieldFraming(TERMINATOR, wt), s)
              case None => None
              case Some(p) => if ApplyField(TERMINATOR, wt, p, Single(Garbage), 0).Some? then Some(g) else None
  {
    hide Dec32;
  }

  function MergeAt(types: Types, t: nat, s: bytes, m: Msg): Option<(Msg, bytes)>
    requires t < |types|
  {
    match Merge(types, t, s, m)
    case None => None
    case Some(a) => Some((a.stage.m, a.rest))
  }

  /** The record loop. */
  method DecodeRecords(heap: Heap, stream: IStream, types: Types, t: nat, m: Msg, iter: FieldIter,
                       fieldsSeen: FieldsSeen)
    returns (ok: bool, m': Msg, arrayField: int, arraySize: nat, ghost a: Arrival)
    requires heap.Valid() && stream.Valid() && TypesOk(types)
    requires Shaped(types, t, m, heap.sizes) && Owned(m) <= heap.live
    requires t < |types| && iter.Valid() && iter.start == types[t].fields
    requires fieldsSeen.Valid() && fieldsSeen.Seen() == {}
    modifies heap, stream, iter, fieldsSeen.words
    ensures stream.Valid() && stream.End() <= old(stream.End()) && stream.pos >= old(stream.pos)
    ensures ok ==> stream.End() == old(stream.End())
    ensures iter.Valid() && fieldsSeen.Valid()
    ensures heap.Exchanged(Owned(m), Owned(m')) && Shaped(types, t, m', heap.sizes)
    ensures Agrees(PointerSpec.Loop(types, t, old(stream.Rest()), PointerSpec.Start(Bare(m))), ok, a,
                   heap.refused > old(heap.refused))
    ensures ok ==>
              && a.stage.m == Bare(m') && a.rest == stream.Rest() && SeenPresent(types[t].fields, fieldsSeen.Seen(), m')
              && Decoder.Tracks(Table(types, t), a.stage.st, fieldsSeen.Seen(), arrayField, arraySize)
    decreases stream.bytesLeft, 8
  {
    hide TypesOk, Shaped, Owned, LaidOut, RequiredBefore, FrameLen, Bare, Dec32, DecTag, FramingOf, SeenPresent;
    hide Decoder.Tracks, PointerSpec.Loop, PointerSpec.Apply, RecordAt;
    m', arrayField, arraySize := m, -1, 0;
    ghost var g := PointerSpec.Start(Bare(m));
    ghost var first := PointerSpec.Loop(types, t, stream.Rest(), g);
    a := Arrival(g, [], false);
    Decoder.TracksStart(Table(types, t), map[]);
    ShapedLength(types, t, m, heap.sizes);
    NothingSeen(types[t].fields, m);
    while stream.bytesLeft > 0
      invariant stream.Valid() && stream.End() == old(stream.End()) && stream.pos >= old(stream.pos)
      invariant iter.Valid() && fieldsSeen.Valid() && SeenPresent(types[t].fields, fieldsSeen.Seen(), m')
      invariant g.m == Bare(m') && Decoder.Tracks(Table(types, t), g.st, fieldsSeen.Seen(), arrayField, arraySize)
      invariant first == PointerSpec.Loop(types, t, stream.Rest(), g)
      invariant heap.Exchanged(Owned(m), Owned(m')) && Shaped(types, t, m', heap.sizes)
      decreases stream.bytesLeft
    {
      ghost var s := stream.Rest();
      PointerSpec.LoopCases(types, t, s, g);
      var tag, wt, eof;
      ok, wt, tag, eof := stream.DecodeTag();
      if !ok {
        a := Arrival(g, stream.Rest(), true);
        ok := eof;
        return;
      }
      LoopRecord(types, t, s, g);
      ghost var now, before := heap.Now(), Owned(m');
      StillLive(old(heap.Now()), Owned(m), now, before);
      ok, m', arrayField, arraySize, g :=
        DecodeRecord(heap, stream, tag, wt, types, t, m', iter, fieldsSeen, arrayField, arraySize, g);
      ExchangeThen(old(heap.Now()), Owned(m), now, before, heap.Now(), Owned(m'));
      if !ok {
        return;
      }
    }
    PointerSpec.LoopCases(types, t, stream.Rest(), g);
    ok, a := true, Arrival(g, stream.Rest(), false);
  }

  /** pb_decode_noinit. */
  method DecodeNoinit(heap: Heap, stream: IStream, types: Types, t: nat, m: Msg) returns (ok: bool, m': Msg)
    requires heap.Valid() && stream.Valid() && TypesOk(types)
    requires Shaped(types, t, m, heap.sizes) && Owned(m) <= heap.live
    requires t < |types|
    modifies heap, stream
    ensures stream.Valid() && stream.End() <= old(stream.End()) && stream.pos >= old(stream.pos)
    ensures ok ==> stream.End() == old(stream.End())
    ensures heap.Exchanged(Owned(m), Owned(m')) && Shaped(types, t, m', heap.sizes)
    ensures Agrees(MergeAt(types, t, old(stream.Rest()), Bare(m)), ok, (Bare(m'), stream.Rest()),
                   heap.refused > old(heap.refused))
    ensures ok ==> RequiredPresent(types[t].fields, m')
    decreases stream.bytesLeft, 9
  {
    hide TypesOk, Shaped, Owned, LaidOut, Bare, SeenPresent, RequiredPresent;
    hide Decoder.Tracks, PointerSpec.Loop, ArrayDone, SeenBelow, CheckedFields, MergeAt;
    TypeFacts(types, t);
    MergeOfLoop(types, t, stream.Rest(), Bare(m));
    var d := Table(types, t);
    var fieldsSeen := new FieldsSeen();
    var iter := new FieldIter.Begin(d.fields, 0);
    var arrayField, arraySize;
    ghost var a;
    ok, m', arrayField, arraySize, a := DecodeRecords(heap, stream, types, t, m, iter, fieldsSeen);
    if !ok {
      return;
    }
    Decoder.TracksEnd(d, a.stage.st, fieldsSeen.Seen(), arrayField, arraySize);
    if arrayField >= 0 && arraySize != d.fields[arrayField].arraySize {
      return false, m';
    }
    ghost var seen := fieldsSeen.Seen();
    ok := Decoder.CheckRequired(d, iter, fieldsSeen);
    assert fieldsSeen.Seen() == seen;
    if ok {
      AllPresent(d, seen, m');
    }
  }

  lemma MergeOfLoop(types: Types, t: nat, s: bytes, m: Msg)
    requires t < |types|
    ensures MergeAt(types, t, s, m) ==
              match PointerSpec.Loop(types, t, s, PointerSpec.Start(m))
              case None => None
              case Some(Arrival(g, rest, _)) =>
                if ArrayDone(Table(types, t), g.st.fixed) && SeenBelow(CheckedFields(Table(types, t)), g.st.seen)
                then Some((g.m, rest)) else None
  {
    hide PointerSpec.Loop, ArrayDone, SeenBelow, CheckedFields;
  }

  lemma NothingSeen(fields: seq<Field>, m: Msg)
    requires |m.slots| == |fields|
    ensures SeenPresent(fields, {}, m)
  {
  }

  /** One turn of the loop, from the stream's point of view. */
  lemma LoopRecord(types: Types, t: nat, s: bytes, g: Stage)
    requires t < |types| && s != [] && DecTag(s).FieldTag?
    ensures var FieldTag(tag, wt, n) := DecTag(s);
            match RecordAt(types, t, tag, wt, s[n..], g)
            case None => PointerSpec.Loop(types, t, s, g) == None
            case Some(g') =>
              var k := FrameLen(FramingOf(Table(types, t), tag, wt), s[n..]);
              k.Some? && PointerSpec.Loop(types, t, s, g) == PointerSpec.Loop(types, t, s[n..][k.value..], g')
  {
    hide PointerSpec.Apply, PointerSpec.Loop, Dec32, FrameLen, FramingOf;
    PointerSpec.LoopTurn(types, t, s, g);
  }

  lemma AllPresent(d: Desc, seen: set<nat>, m: Msg)
    requires SeenPresent(d.fields, seen, m) && forall k: nat :: k < CheckedFields(d) ==> k in seen
    ensures RequiredPresent(d.fields, m)
  {
    forall i | 0 <= i < |m.slots| && RequiredBefore(d.fields, i) < PB_MAX_REQUIRED_FIELDS && d.fields[i].htype.Required?
      ensures RequiredBefore(d.fields, i) in seen
    {
      RequiredMonotone(d.fields, i, |d.fields|);
    }
  }

  /**
   * pb_decode, on any input and with any allocator. After a failure the heap is what it was
   * before; after success the struct owns exactly the blocks that are new, each through one
   * pointer, it holds what the specification says, and the required pointer fields that are
   * checked are not NULL. Decoding fails only if the specification says so, or if a request
   * for memory was refused. `zeroed` tells whether the struct was cleared before.
   */
  method Decode(heap: Heap, stream: IStream, types: Types, t: nat, zeroed: bool) returns (ok: bool, m: Msg)
    requires heap.Valid() && stream.Valid() && TypesOk(types) && t < |types|
    modifies heap, stream
    ensures stream.Valid() && stream.End() <= old(stream.End()) && stream.pos >= old(stream.pos)
    ensures ok ==> stream.End() == old(stream.End())
    ensures Shaped(types, t, m, heap.sizes)
    ensures heap.Exchanged(multiset{}, Owned(m))
    ensures !ok ==> heap.live == old(heap.live) && Owned(m) == multiset{}
    ensures Agrees(MergeAt(types, t, old(stream.Rest()), InitialMessage(types, t, zeroed)),
                   ok, (Bare(m), stream.Rest()), heap.refused > old(heap.refused))
    ensures ok ==> RequiredPresent(types[t].fields, m)
    decreases stream.bytesLeft, 10
  {
    hide TypesOk, ShapedSlot, Owned, RequiredBefore, Bare, Merge, InitialMessage;
    m := MessageSetToDefaults(types, t, zeroed, heap.sizes);
    ok, m := DecodeNoinit(heap, stream, types, t, m);
    if !ok {
      StillLive(old(heap.Now()), multiset{}, heap.Now(), Owned(m));
      ghost var now, owned := heap.Now(), Owned(m);
      m := ReleaseMessage(heap, types, t, m);
      Freed(now, owned, heap.Now());
      ExchangeThen(old(heap.Now()), multiset{}, now, owned, heap.Now(), multiset{});
      assert heap.live + multiset{} == heap.live && old(heap.live) + multiset{} == old(heap.live);
    }
  }
}
