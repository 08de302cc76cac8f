/** Packed and unpacked forms of a repeated scalar field behind a pointer. */
module PointerPacked {
  import opened Common
  import opened Varint
  import opened Descriptor
  import opened DecodeSpec
  import opened Records
  import opened Packed
  import opened Ownership
  import opened PointerSpec
  import opened PointerRoundTrip
  import EncodeSpec
  import WireFormat

  /** The entries after the items have been received one at a time. */
  function ReceiveItems(f: Field, items: seq<bytes>, xs: seq<Item>): Option<seq<Item>>
    decreases |items|
  {
    if items == [] then Some(xs)
    else if |xs| >= PB_SIZE_MAX then None
    else
      match DecValue(f, items[0], Garbage)
      case None => None
      case Some(v) => ReceiveItems(f, items[1..], xs + [Leaf(v)])
  }

  lemma {:induction false} ReceiveItemsAppend(f: Field, ps: seq<bytes>, qs: seq<bytes>, xs: seq<Item>)
    ensures ReceiveItems(f, ps + qs, xs) ==
              match ReceiveItems(f, ps, xs)
              case None => None
              case Some(ys) => ReceiveItems(f, qs, ys)
    decreases |ps|
  {
    hide DecValue;
    if ps == [] {
      assert ps + qs == qs;
    } else {
      assert (ps + qs)[1..] == ps[1..] + qs;
      var v := DecValue(f, ps[0], Garbage);
      if v.Some? {
        ReceiveItemsAppend(f, ps[1..], qs, xs + [Leaf(v.value)]);
      }
    }
  }

  /** The packed form receives its items one at a time. */
  lemma {:induction false} PackedItemsReceives(f: Field, items: seq<bytes>, xs: seq<Item>)
    requires forall p :: p in items ==> Framed(ItemFraming(f.ltype), p)
    ensures PackedItems(f, Join(items), xs) == ReceiveItems(f, items, xs)
    decreases |items|
  {
    hide DecValue, ItemFraming, FrameLen;
    if items != [] {
      var p, rest := items[0], Join(items[1..]);
      FramedAppend(ItemFraming(f.ltype), p, rest);
      FramedNonEmpty(f.ltype, p);
      assert (p + rest)[..|p|] == p && (p + rest)[|p|..] == rest;
      var v := DecValue(f, p, Garbage);
      if |xs| < PB_SIZE_MAX && v.Some? {
        PackedItemsReceives(f, items[1..], xs + [Leaf(v.value)]);
      }
    }
  }

  /** A repeated scalar field behind a pointer; a block is allocated if there are entries. */
  ghost predicate IsPointerArray(f: Field, s: Slot) {
    && f.atype.Pointer? && f.htype.Repeated? && f.ltype.Packable? && !IsFixedCount(f)
    && s.Pointer? && (s.items != [] ==> s.block == Some(0))
  }

  /** The slot with these entries instead. */
  function WithItems(s: Slot, items: seq<Item>): Slot
    requires s.Pointer?
  {
    Slot.Pointer(if items == [] then s.block else Some(0), items)
  }

  function WireOf(c: Chunk): Wire {
    Wire(ChunkWireType(c), ChunkPayload(c))
  }

  function WiresOf(cs: seq<Chunk>): (ws: seq<Wire>)
    ensures |ws| == |cs|
  {
    if cs == [] then [] else [WireOf(cs[0])] + WiresOf(cs[1..])
  }

  lemma ChunkReceived(types: Types, f: Field, sub: nat, c: Chunk, s: Slot)
    requires IsPointerArray(f, s) && ChunkOk(f, c)
    ensures WireOk(f, WireOf(c))
    ensures FieldValue(types, f, sub, ChunkWireType(c), ChunkPayload(c), s, 0) ==
              match ReceiveItems(f, ChunkItems(c), s.items)
              case None => None
              case Some(items) => Some((WithItems(s, items), 0))
  {
    hide DecValue, FrameLen, PackedItems, ReceiveItems;
    match c
    case Together(items) =>
      DelimitedParts(Join(items));
      assert forall p :: p in items ==> p in ChunkItems(c);
      PackedItemsReceives(f, items, s.items);
    case Alone(wt, item) =>
      assert item in ChunkItems(c);
      OneReceived(f, item, s.items);
      assert PointerValue(types, f, sub, wt, item, s) ==
             match ReceiveItems(f, [item], s.items) case None => None case Some(items) => Some(WithItems(s, items));
  }

  lemma OneReceived(f: Field, item: bytes, xs: seq<Item>)
    ensures ReceiveItems(f, [item], xs) ==
              if |xs| >= PB_SIZE_MAX || DecValue(f, item, Garbage).None? then None
              else Some(xs + [Leaf(DecValue(f, item, Garbage).value)])
  {
    hide DecValue;
    assert [item][1..] == [];
  }

  /** The records of a mixture leave what their items leave when they come one at a time. */
  lemma {:induction false} MixtureRun(types: Types, f: Field, sub: nat, cs: seq<Chunk>, s: Slot)
    requires IsPointerArray(f, s) && forall c :: c in cs ==> ChunkOk(f, c)
    ensures WireBytes(f.tag, WiresOf(cs)) == ChunksBytes(f.tag, cs) && forall w :: w in WiresOf(cs) ==> WireOk(f, w)
    ensures Run(types, f, sub, WiresOf(cs), s, 0) ==
              match ReceiveItems(f, ChunksItems(cs), s.items)
              case None => None
              case Some(items) => Some((WithItems(s, items), 0))
    decreases |cs|
  {
    hide FieldValue, DecValue, WireOk, ChunkOk, ChunkPayload, ChunkItems, ChunkWireType, ReceiveItems;
    if cs == [] {
      NothingReceivedYet(f, s);
    } else {
      var c, more := cs[0], cs[1..];
      assert c in cs;
      ChunkReceived(types, f, sub, c, s);
      ReceiveItemsAppend(f, ChunkItems(c), ChunksItems(more), s.items);
      RunCons(types, f, sub, WireOf(c), WiresOf(more), s, 0);
      var items := ReceiveItems(f, ChunkItems(c), s.items);
      MixtureRun(types, f, sub, more, if items.Some? then WithItems(s, items.value) else s);
      if items.Some? {
        var all := ReceiveItems(f, ChunksItems(more), items.value);
        if all.Some? {
          ReceivedMore(f, ChunksItems(more), items.value);
        }
      }
    }
  }

  lemma NothingReceivedYet(f: Field, s: Slot)
    requires IsPointerArray(f, s)
    ensures ReceiveItems(f, [], s.items) == Some(s.items) && WithItems(s, s.items) == s
  {
  }

  lemma {:induction false} ReceivedMore(f: Field, items: seq<bytes>, xs: seq<Item>)
    requires ReceiveItems(f, items, xs).Some?
    ensures xs <= ReceiveItems(f, items, xs).value
    decreases |items|
  {
    hide DecValue;
    if items != [] {
      ReceivedMore(f, items[1..], xs + [Leaf(DecValue(f, items[0], Garbage).value)]);
    }
  }

  /**
   * However a sequence of items is cut into packed and single records, they leave the same
   * entries in the array behind the pointer, and the loop goes on in the same way.
   */
  lemma AnyMixture(types: Types, t: nat, i: nat, cs: seq<Chunk>, g: Stage, rest: bytes)
    requires AtField(types, t, i, g, g.st.fixed) && IsPointerArray(types[t].fields[i], g.m.slots[i])
    requires forall c :: c in cs ==> ChunkOk(types[t].fields[i], c)
    ensures var f, s := types[t].fields[i], g.m.slots[i];
            PointerSpec.Loop(types, t, ChunksBytes(f.tag, cs) + rest, g) ==
              match ReceiveItems(f, ChunksItems(cs), s.items)
              case None => None
              case Some(items) =>
                PointerSpec.Loop(types, t, rest, Stage(Msg(g.m.slots[i := WithItems(s, items)]), g.st))
  {
    hide PointerSpec.Loop, Run, ReceiveItems, WireOk, ChunkOk;
    var f, s := types[t].fields[i], g.m.slots[i];
    MixtureRun(types, f, types[t].subs[i], cs, s);
    if cs == [] {
      NothingReceivedYet(f, s);
      assert g.m.slots[i := s] == g.m.slots && [] + rest == rest;
    } else {
      RunLoop(types, t, i, WiresOf(cs), g, g.st.fixed, rest);
      assert g.st.seen + Marks(Table(types, t), i) == g.st.seen;
    }
  }

  /** Two mixtures of the same items are read alike: both fail, or both append the same entries. */
  lemma PackedAgreesWithUnpacked(types: Types, t: nat, i: nat, cs: seq<Chunk>, cs': seq<Chunk>, g: Stage, rest: bytes)
    requires AtField(types, t, i, g, g.st.fixed) && IsPointerArray(types[t].fields[i], g.m.slots[i])
    requires forall c :: c in cs + cs' ==> ChunkOk(types[t].fields[i], c)
    requires ChunksItems(cs) == ChunksItems(cs')
    ensures PointerSpec.Loop(types, t, ChunksBytes(types[t].fields[i].tag, cs) + rest, g)
         == PointerSpec.Loop(types, t, ChunksBytes(types[t].fields[i].tag, cs') + rest, g)
  {
    hide PointerSpec.Loop, ReceiveItems, ChunkOk, AtField;
    FieldInRange(types, t, i, g, g.st.fixed);
    forall c | c in cs ensures ChunkOk(types[t].fields[i], c) {
      assert c in cs + cs';
    }
    forall c | c in cs' ensures ChunkOk(types[t].fields[i], c) {
      assert c in cs + cs';
    }
    AnyMixture(types, t, i, cs, g, rest);
    AnyMixture(types, t, i, cs', g, rest);
  }

  /** When every item decodes, only the limit of the counter makes them fail; else all are appended in order. */
  lemma {:induction false} ReceiveFailsOnOverflow(f: Field, items: seq<bytes>, xs: seq<Item>)
    requires |xs| <= PB_SIZE_MAX
    requires forall p :: p in items ==> DecValue(f, p, Garbage).Some?
    ensures ReceiveItems(f, items, xs).Some? <==> |xs| + |items| <= PB_SIZE_MAX
    ensures ReceiveItems(f, items, xs).Some? ==>
              && |ReceiveItems(f, items, xs).value| == |xs| + |items|
              && ReceiveItems(f, items, xs).value[..|xs|] == xs
              && forall k :: 0 <= k < |items| ==>
                   ReceiveItems(f, items, xs).value[|xs| + k] == Leaf(DecValue(f, items[k], Garbage).value)
    decreases |items|
  {
    hide DecValue;
    if items != [] && |xs| < PB_SIZE_MAX {
      var v := DecValue(f, items[0], Garbage).value;
      ReceiveFailsOnOverflow(f, items[1..], xs + [Leaf(v)]);
      var r := ReceiveItems(f, items, xs);
      if r.Some? {
        assert r.value[..|xs| + 1] == xs + [Leaf(v)];
        assert r.value[..|xs|] == r.value[..|xs| + 1][..|xs|];
        forall k | 0 <= k < |items| ensures r.value[|xs| + k] == Leaf(DecValue(f, items[k], Garbage).value) {
          if k > 0 {
            assert items[k] == items[1..][k - 1];
          }
        }
      }
    }
  }

  // ---- wire types ----

  /**
   * The type in the key of a known field is not looked at, pointer or not, except that type 2
   * means a packed array for a repeated field of numbers.
   */
  lemma TypeNotChecked(types: Types, t: nat, i: nat, wt: nat, wt': nat, s: bytes, g: Stage)
    requires t < |types| && UniqueTags(types[t].fields) && i < |types[t].fields|
    requires 1 <= types[t].fields[i].tag < 0x2000_0000 && wt < 8 && wt' < 8
    requires types[t].fields[i].htype.Repeated? && types[t].fields[i].ltype.Packable? ==> (wt == 2 <==> wt' == 2)
    ensures PointerSpec.Loop(types, t, Enc(8 * types[t].fields[i].tag + wt) + s, g)
         == PointerSpec.Loop(types, t, Enc(8 * types[t].fields[i].tag + wt') + s, g)
  {
    hide PointerSpec.Loop, FrameLen, DecTag, PointerSpec.Apply, UniqueTags, FramingOf;
    var tag := types[t].fields[i].tag;
    FindUnique(Table(types, t), i);
    TypeInKey(types, t, tag, wt, s, g);
    TypeInKey(types, t, tag, wt', s, g);
    WireFormat.SameFraming(Table(types, t), i, wt, wt');
    forall p ensures PointerSpec.Apply(types, t, tag, wt, p, g) == PointerSpec.Apply(types, t, tag, wt', p, g) {
      SameApply(types, t, i, wt, wt', p, g);
    }
  }

  /** One turn of the loop behind a key. */
  lemma TypeInKey(types: Types, t: nat, tag: nat, wt: nat, s: bytes, g: Stage)
    requires t < |types| && 1 <= tag < 0x2000_0000 && wt < 8
    ensures PointerSpec.Loop(types, t, Enc(8 * tag + wt) + s, g) ==
              match FrameLen(FramingOf(Table(types, t), tag, wt), s)
              case None => None
              case Some(k) =>
                match PointerSpec.Apply(types, t, tag, wt, s[..k], g)
                case None => None
                case Some(g') => PointerSpec.Loop(types, t, s[k..], g')
  {
    hide PointerSpec.Loop, FrameLen, DecTag, PointerSpec.Apply, FramingOf;
    var h := EncodeSpec.TagBytes(tag, wt);
    TagRoundTrip(tag, wt);
    TagAppend(h, tag, wt, s);
    assert (h + s)[|h|..] == s;
    PointerSpec.LoopTurn(types, t, h + s, g);
  }

  lemma SameField(types: Types, f: Field, sub: nat, wt: nat, wt': nat, p: bytes, s: Slot, count: nat)
    requires f.htype.Repeated? && f.ltype.Packable? ==> (wt == 2 <==> wt' == 2)
    ensures FieldValue(types, f, sub, wt, p, s, count) == FieldValue(types, f, sub, wt', p, s, count)
  {
    hide ApplyField, SubmessageValue, ItemValue, PackedItems;
    assert IsPacked(f, wt) == IsPacked(f, wt');
    if s.Plain? {
      WireFormat.SameRecord(f, wt, wt', p, s.c, count);
    }
  }

  lemma SameApply(types: Types, t: nat, i: nat, wt: nat, wt': nat, p: bytes, g: Stage)
    requires t < |types| && i < |types[t].fields| && Find(Table(types, t), types[t].fields[i].tag) == Some(i)
    requires types[t].fields[i].htype.Repeated? && types[t].fields[i].ltype.Packable? ==> (wt == 2 <==> wt' == 2)
    ensures PointerSpec.Apply(types, t, types[t].fields[i].tag, wt, p, g)
         == PointerSpec.Apply(types, t, types[t].fields[i].tag, wt', p, g)
  {
    hide FieldValue, Find, Marks;
    var f, fixed := types[t].fields[i], StartArray(Table(types, t), i, g.st.fixed);
    if i < |g.m.slots| && i < |types[t].subs| && fixed.Some? {
      SameField(types, f, types[t].subs[i], wt, wt', p, g.m.slots[i], if IsFixedCount(f) then fixed.value.count else 0);
    }
    assert ApplyKnown(types, t, i, wt, p, g) == ApplyKnown(types, t, i, wt', p, g);
  }
}
