/** Packed and unpacked forms of a repeated scalar field. */
module Packed {
  import opened Common
  import opened Descriptor
  import opened EncodeSpec
  import opened DecodeSpec
  import opened Records

  /** A piece of a repeated field on the wire: several item payloads in one record, or one. */
  datatype Chunk = Together(items: seq<bytes>) | Alone(wt: nat, item: bytes)

  function Join(items: seq<bytes>): bytes {
    if items == [] then [] else items[0] + Join(items[1..])
  }

  function ChunkItems(c: Chunk): seq<bytes> {
    match c
    case Together(items) => items
    case Alone(_, item) => [item]
  }

  function ChunkPayload(c: Chunk): bytes {
    match c
    case Together(items) => Delimited(Join(items))
    case Alone(_, item) => item
  }

  function ChunkWireType(c: Chunk): nat {
    if c.Together? then WT_STRING else c.wt
  }

  function ChunksItems(cs: seq<Chunk>): seq<bytes> {
    if cs == [] then [] else ChunkItems(cs[0]) + ChunksItems(cs[1..])
  }

  function ChunksBytes(tag: nat, cs: seq<Chunk>): bytes {
    if cs == [] then []
    else TagBytes(tag, ChunkWireType(cs[0])) + ChunkPayload(cs[0]) + ChunksBytes(tag, cs[1..])
  }

  /** Each item payload is framed for the field's type; whether it decodes is left open. */
  ghost predicate ChunkOk(f: Field, c: Chunk) {
    && (forall p :: p in ChunkItems(c) ==> Framed(ItemFraming(f.ltype), p))
    && |ChunkPayload(c)| < TWO_TO_THE_32
    && (c.Alone? ==> c.wt < 8 && c.wt != WT_STRING)
  }

  /** The entries after the items have been received one at a time. */
  function Receive(f: Field, items: seq<bytes>, xs: seq<Value>): (r: Option<seq<Value>>)
    ensures r.Some? && |xs| <= f.arraySize ==> |r.value| <= f.arraySize
    decreases |items|
  {
    if items == [] then Some(xs)
    else if |xs| >= f.arraySize then None
    else
      match DecValue(f, items[0], Garbage)
      case None => None
      case Some(v) => Receive(f, items[1..], xs + [v])
  }

  lemma {:induction false} ReceiveAppend(f: Field, ps: seq<bytes>, qs: seq<bytes>, xs: seq<Value>)
    ensures Receive(f, ps + qs, xs) ==
              match Receive(f, ps, xs)
              case None => None
              case Some(ys) => Receive(f, qs, ys)
    decreases |ps|
  {
    hide DecValue;
    if ps == [] {
      assert ps + qs == qs;
    } else {
      assert (ps + qs)[1..] == ps[1..] + qs;
      var v := DecValue(f, ps[0], Garbage);
      if v.Some? {
        ReceiveAppend(f, ps[1..], qs, xs + [v.value]);
      }
    }
  }

  /** The packed form receives its items one at a time. */
  lemma {:induction false} DecItemsReceives(f: Field, items: seq<bytes>, xs: seq<Value>)
    requires forall p :: p in items ==> Framed(ItemFraming(f.ltype), p)
    ensures DecItems(f, Join(items), xs) == Receive(f, items, xs)
    decreases |items|
  {
    hide DecValue, ItemFraming, FrameLen;
    if items != [] {
      var p, rest := items[0], Join(items[1..]);
      FramedAppend(ItemFraming(f.ltype), p, rest);
      FramedNonEmpty(f.ltype, p);
      assert (p + rest)[..|p|] == p && (p + rest)[|p|..] == rest;
      var v := DecValue(f, p, Garbage);
      if |xs| < f.arraySize && v.Some? {
        DecItemsReceives(f, items[1..], xs + [v.value]);
      }
    }
  }

  lemma FramedNonEmpty(lt: LType, p: bytes)
    requires Framed(ItemFraming(lt), p)
    ensures p != []
  {
  }

  /** A repeated scalar field, with or without a _count member, and its place in the struct. */
  ghost predicate IsScalarArray(d: Desc, j: nat, st: State) {
    && DescOk(d) && j < |d.fields|
    && d.fields[j].htype.Repeated? && d.fields[j].ltype.Packable?
    && d.fields[j].at in st.cells && Fits(d.fields[j], st.cells[d.fields[j].at])
  }

  /** The entries received so far. None while another fixed count array is incomplete. */
  function Entries(d: Desc, j: nat, st: State): Option<seq<Value>>
    requires j < |d.fields| && d.fields[j].htype.Repeated?
    requires d.fields[j].at in st.cells && Fits(d.fields[j], st.cells[d.fields[j].at])
  {
    var items := st.cells[d.fields[j].at].items;
    if d.fields[j].sizeOffset != 0 then Some(items)
    else
      match StartArray(d, j, st.fixed)
      case None => None
      case Some(fixed) => if fixed.count > |items| then None else Some(items[..fixed.count])
  }

  function WithEntries(d: Desc, j: nat, st: State, xs: seq<Value>): State
    requires j < |d.fields| && d.fields[j].htype.Repeated?
    requires d.fields[j].at in st.cells && Fits(d.fields[j], st.cells[d.fields[j].at])
    requires d.fields[j].sizeOffset == 0 ==> |xs| <= d.fields[j].arraySize
  {
    var at := d.fields[j].at;
    if d.fields[j].sizeOffset != 0 then State(st.cells[at := Counted(xs)], st.seen, st.fixed)
    else State(st.cells[at := Fixed(xs + st.cells[at].items[|xs|..])], st.seen, Array(j, |xs|))
  }

  function Received(d: Desc, j: nat, st: State, items: seq<bytes>): Option<State>
    requires j < |d.fields| && d.fields[j].htype.Repeated?
    requires d.fields[j].at in st.cells && Fits(d.fields[j], st.cells[d.fields[j].at])
  {
    match Entries(d, j, st)
    case None => None
    case Some(xs) =>
      match Receive(d.fields[j], items, xs)
      case None => None
      case Some(ys) => Some(WithEntries(d, j, st, ys))
  }

  lemma ApplyChunk(d: Desc, j: nat, c: Chunk, st: State)
    requires IsScalarArray(d, j, st) && ChunkOk(d.fields[j], c)
    ensures Apply(d, d.fields[j].tag, ChunkWireType(c), ChunkPayload(c), st) == Received(d, j, st, ChunkItems(c))
    ensures Framed(FramingOf(d, d.fields[j].tag, ChunkWireType(c)), ChunkPayload(c))
  {
    hide DecValue, FrameLen;
    var f := d.fields[j];
    FindUnique(d, j);
    assert st.seen + Marks(d, j) == st.seen;
    var xs := Entries(d, j, st);
    ChunkExtends(f, c, if xs.Some? then xs.value else []);
  }

  /** One record extends the entries by its items. */
  lemma ChunkExtends(f: Field, c: Chunk, xs: seq<Value>)
    requires ChunkOk(f, c) && f.htype.Repeated? && f.ltype.Packable?
    ensures Extend(f, ChunkWireType(c), ChunkPayload(c), xs) == Receive(f, ChunkItems(c), xs)
    ensures Framed(if c.Together? then ByLength else ItemFraming(f.ltype), ChunkPayload(c))
  {
    hide DecValue, FrameLen;
    match c
    case Together(items) => JoinDelimited(f, items, xs);
    case Alone(wt, item) =>
      assert item in ChunkItems(c);
      assert [item][1..] == [];
  }

  lemma JoinDelimited(f: Field, items: seq<bytes>, xs: seq<Value>)
    requires ChunkOk(f, Together(items)) && f.htype.Repeated? && f.ltype.Packable?
    ensures Extend(f, WT_STRING, Delimited(Join(items)), xs) == Receive(f, items, xs)
    ensures Framed(ByLength, Delimited(Join(items)))
  {
    hide DecValue, DecItems;
    DelimitedParts(Join(items));
    forall p | p in items ensures Framed(ItemFraming(f.ltype), p) {
      assert p in ChunkItems(Together(items));
    }
    DecItemsReceives(f, items, xs);
  }

  /**
   * However a sequence of items is cut into packed and single records, the decoder goes on
   * exactly as if the items had come one at a time. Without a _count member, the first
   * record starts the array, even if it has no items.
   */
  lemma {:induction false} AnyMixture(d: Desc, j: nat, cs: seq<Chunk>, t: bytes, st: State)
    requires IsScalarArray(d, j, st)
    requires forall c :: c in cs ==> ChunkOk(d.fields[j], c)
    ensures Loop(d, ChunksBytes(d.fields[j].tag, cs) + t, st)
         == if cs == [] then Loop(d, t, st) else Continue(d, Received(d, j, st, ChunksItems(cs)), t)
    decreases |cs|
  {
    hide Loop, Apply, Received, ChunkPayload, ChunkOk, ChunkItems;
    var f := d.fields[j];
    if cs == [] {
      assert [] + t == t;
    } else {
      var c, rest := cs[0], ChunksBytes(f.tag, cs[1..]);
      var h, p := TagBytes(f.tag, ChunkWireType(c)), ChunkPayload(c);
      assert ChunkOk(f, c);
      WireTypeSmall(f, c);
      assert FieldOk(f);
      TagRoundTrip(f.tag, ChunkWireType(c));
      ApplyChunk(d, j, c, st);
      assert h + p + rest + t == h + p + (rest + t);
      LoopRecord(d, h, f.tag, ChunkWireType(c), p, rest + t, st);
      var next := Received(d, j, st, ChunkItems(c));
      ReceivedTwice(d, j, st, ChunkItems(c), ChunksItems(cs[1..]));
      if next.Some? {
        AnyMixture(d, j, cs[1..], t, next.value);
      }
      if cs[1..] == [] {
        assert ChunkItems(c) + [] == ChunkItems(c);
      }
    }
  }

  lemma WireTypeSmall(f: Field, c: Chunk)
    requires ChunkOk(f, c)
    ensures ChunkWireType(c) < 8
  {
  }

  lemma NothingReceived(d: Desc, j: nat, st: State)
    requires IsScalarArray(d, j, st) && d.fields[j].sizeOffset != 0
    ensures Received(d, j, st, []) == Some(st)
  {
    assert st.cells[d.fields[j].at := st.cells[d.fields[j].at]] == st.cells;
  }

  lemma {:induction false} ReceiveExtends(f: Field, items: seq<bytes>, xs: seq<Value>)
    requires Receive(f, items, xs).Some?
    ensures xs <= Receive(f, items, xs).value
    decreases |items|
  {
    hide DecValue;
    if items != [] {
      ReceiveExtends(f, items[1..], xs + [DecValue(f, items[0], Garbage).value]);
    }
  }

  lemma ReceivedTwice(d: Desc, j: nat, st: State, ps: seq<bytes>, qs: seq<bytes>)
    requires IsScalarArray(d, j, st)
    ensures match Received(d, j, st, ps)
            case None => Received(d, j, st, ps + qs) == None
            case Some(mid) => IsScalarArray(d, j, mid) && Received(d, j, st, ps + qs) == Received(d, j, mid, qs)
  {
    hide Receive;
    var f := d.fields[j];
    var xs := Entries(d, j, st);
    if xs.Some? {
      ReceiveAppend(f, ps, qs, xs.value);
      var ys := Receive(f, ps, xs.value);
      if ys.Some? {
        var mid := WithEntries(d, j, st, ys.value);
        assert Entries(d, j, mid) == Some(ys.value);
        var zs := Receive(f, qs, ys.value);
        if zs.Some? {
          ReceiveExtends(f, qs, ys.value);
          EntriesTwice(d, j, st, ys.value, zs.value);
        }
      }
    }
  }

  lemma EntriesTwice(d: Desc, j: nat, st: State, ys: seq<Value>, zs: seq<Value>)
    requires IsScalarArray(d, j, st) && ys <= zs
    requires d.fields[j].sizeOffset == 0 ==> |zs| <= d.fields[j].arraySize
    ensures IsScalarArray(d, j, WithEntries(d, j, st, ys))
    ensures WithEntries(d, j, WithEntries(d, j, st, ys), zs) == WithEntries(d, j, st, zs)
  {
    var at := d.fields[j].at;
    if d.fields[j].sizeOffset == 0 {
      var items := st.cells[at].items;
      assert (ys + items[|ys|..])[|zs|..] == items[|zs|..];
      assert st.cells[at := Fixed(ys + items[|ys|..])][at := Fixed(zs + items[|zs|..])]
          == st.cells[at := Fixed(zs + items[|zs|..])];
    } else {
      assert st.cells[at := Counted(ys)][at := Counted(zs)] == st.cells[at := Counted(zs)];
    }
  }

  /**
   * Two mixtures of the same items are read alike: both fail, or both append the same.
   * Without a _count member that takes a record on both sides or on none.
   */
  lemma PackedAgreesWithUnpacked(d: Desc, j: nat, cs: seq<Chunk>, cs': seq<Chunk>, t: bytes, st: State)
    requires IsScalarArray(d, j, st)
    requires forall c :: c in cs + cs' ==> ChunkOk(d.fields[j], c)
    requires ChunksItems(cs) == ChunksItems(cs')
    requires d.fields[j].sizeOffset != 0 || (cs == [] <==> cs' == [])
    ensures Loop(d, ChunksBytes(d.fields[j].tag, cs) + t, st) == Loop(d, ChunksBytes(d.fields[j].tag, cs') + t, st)
  {
    hide Loop, ChunkOk, Received;
    forall c | c in cs ensures ChunkOk(d.fields[j], c) {
      assert c in cs + cs';
    }
    forall c | c in cs' ensures ChunkOk(d.fields[j], c) {
      assert c in cs + cs';
    }
    AnyMixture(d, j, cs, t, st);
    AnyMixture(d, j, cs', t, st);
    if d.fields[j].sizeOffset != 0 {
      NothingReceived(d, j, st);
    }
  }

  /**
   * The condition cannot be dropped: a packed record without items is not the same as no
   * record, because it starts an array that has to be completed.
   */
  lemma EmptyRecordStarts(d: Desc, j: nat, cells: Cells)
    requires IsScalarArray(d, j, Start(cells)) && d.fields[j].sizeOffset == 0
    ensures DecNoinit(d, ChunksBytes(d.fields[j].tag, [Together([])]), cells) == None
    ensures ChunksItems([Together([])]) == ChunksItems([])
    ensures Loop(d, ChunksBytes(d.fields[j].tag, []), Start(cells)) == Some(Outcome(Start(cells), [], false))
  {
    hide Loop;
    var f, cs, st := d.fields[j], [Together([])], Start(cells);
    assert FieldOk(f);
    DelimitedParts([]);
    assert ChunkOk(f, Together([]));
    assert cs[1..] == [] && ChunksItems(cs) == [];
    AnyMixture(d, j, cs, [], st);
    var s := ChunksBytes(f.tag, cs);
    assert s + [] == s;
    assert Entries(d, j, st) == Some([]);
    LoopEmpty(d, WithEntries(d, j, st, []));
    LoopEmpty(d, st);
  }

  /** When every item decodes, only exceeding the array size makes them fail. */
  lemma {:induction false} ReceiveFailsOnOverflow(f: Field, items: seq<bytes>, xs: seq<Value>)
    requires |xs| <= f.arraySize
    requires forall p :: p in items ==> DecValue(f, p, Garbage).Some?
    ensures Receive(f, items, xs).Some? <==> |xs| + |items| <= f.arraySize
    ensures Receive(f, items, xs).Some? ==>
              && |Receive(f, items, xs).value| == |xs| + |items|
              && Receive(f, items, xs).value[..|xs|] == xs
              && forall k :: 0 <= k < |items| ==>
                   DecValue(f, items[k], Garbage) == Some(Receive(f, items, xs).value[|xs| + k])
    decreases |items|
  {
    hide DecValue;
    if items != [] && |xs| < f.arraySize {
      var v := DecValue(f, items[0], Garbage).value;
      ReceiveFailsOnOverflow(f, items[1..], xs + [v]);
      var r := Receive(f, items, xs);
      if r.Some? {
        assert r.value[..|xs| + 1] == xs + [v];
        assert r.value[..|xs|] == r.value[..|xs| + 1][..|xs|];
        forall k | 0 <= k < |items| ensures DecValue(f, items[k], Garbage) == Some(r.value[|xs| + k]) {
          if k > 0 {
            assert items[k] == items[1..][k - 1];
          }
        }
      }
    }
  }
}
