/**
 * Whether what the decoder accepts is a valid message. Fixed count arrays are the only
 * members it may leave uninitialised, in the message or in one inside it; a valid message
 * can be encoded again, and that encoding decodes to the same message.
 */
module Validity {
  import opened Common
  import opened Varint32
  import opened Scalars
  import opened Descriptor
  import opened EncodeSpec
  import opened DecodeSpec
  import opened Messages
  import opened Records
  import opened RoundTrip
  import opened RequiredCheck

  // ---- storage whose first bytes are zero ----

  /** Does clearing the first `z` bytes of an item of `f` make it a valid value? */
  ghost predicate Settled(f: Field, z: int)
    decreases f, 0
  {
    match f.ltype
    case LString => z >= 1
    case LBytes => z >= BYTES_OFFSET
    case LSubmessage =>
      f.ptr.Submsg? && forall i :: 0 <= i < |f.ptr.d.fields| ==> SettledMember(f.ptr.d.fields[i], z)
    case _ => z >= f.dataSize
  }

  /** A member of a struct; its has_, _count or which_ member decides, if there is one. */
  ghost predicate SettledMember(f: Field, z: int)
    decreases f, 2
  {
    match f.htype
    case Required => Settled(f, z - f.at)
    case Optional => if f.sizeOffset == 0 then Settled(f, z - f.at) else z >= f.at + f.sizeOffset + 1
    case Repeated => if f.sizeOffset == 0 then SettledArray(f, z - f.at) else z >= f.at + f.sizeOffset + COUNTER_SIZE
    case Oneof => z >= f.at + f.sizeOffset + COUNTER_SIZE
  }

  /** The last entry decides: the fewest of the cleared bytes are its own. */
  ghost predicate SettledArray(f: Field, z: int)
    decreases f, 1
  {
    Settled(f, z - (f.arraySize - 1) * f.dataSize)
  }

  /** Does the zero that pb_field_set_to_default writes into a fixed count array initialise it? */
  ghost predicate SettledByDefault(f: Field) {
    SettledArray(f, COUNTER_SIZE)
  }

  lemma {:induction false} SettledMore(f: Field, z: int, z': int)
    requires Settled(f, z) && z <= z'
    ensures Settled(f, z')
    decreases f
  {
    if f.ltype.LSubmessage? {
      forall i | 0 <= i < |f.ptr.d.fields| ensures SettledMember(f.ptr.d.fields[i], z') {
        var g := f.ptr.d.fields[i];
        assert SettledMember(g, z);
        if g.htype.Required? || IsSingular(g) {
          SettledMore(g, z - g.at, z' - g.at);
        } else if IsFixedCount(g) {
          var before := (g.arraySize - 1) * g.dataSize;
          assert SettledArray(g, z - g.at);
          SettledMore(g, z - g.at - before, z' - g.at - before);
          assert SettledArray(g, z' - g.at);
        }
      }
    }
  }

  /** The members after clearing: set as ClearedCell says, or without known content. */
  predicate ClearedAs(cells: Cells, f: Field, z: int) {
    match ClearedCell(f, z)
    case None => f.at !in cells
    case Some(c) => f.at in cells && cells[f.at] == c
  }

  lemma {:induction false} ClearedAt(d: Desc, z: int, i: nat, cells: Cells, k: nat)
    requires LaidOut(d.fields) && i <= |d.fields| && k < |d.fields|
    requires ClearedAs(cells, d.fields[k], z) || (k >= i && d.fields[k].at !in cells)
    ensures ClearedAs(ClearedFrom(d, z, i, cells), d.fields[k], z)
    decreases |d.fields| - i
  {
    if i < |d.fields| {
      var f, g := d.fields[i], d.fields[k];
      var next := match ClearedCell(f, z) case None => cells case Some(c) => cells[f.at := c];
      if i != k && f.at == g.at {
        OffsetsAscend(d.fields, if i < k then i else k, if i < k then k else i);
        assert ClearedCell(f, z) == ClearedCell(g, z);
      }
      ClearedAt(d, z, i + 1, next, k);
    }
  }

  /** Clearing the first bytes makes a value valid exactly when they settle it. */
  lemma {:induction false} ClearedIsValid(f: Field, z: int)
    requires FieldOk(f) && (f.ptr.Submsg? ==> DescOk(f.ptr.d))
    ensures ValueOk(f, Cleared(f, z)) <==> Settled(f, z)
    decreases f, 0
  {
    if f.ltype.LSubmessage? {
      var d := f.ptr.d;
      var cells := ClearedFrom(d, z, 0, map[]);
      forall i | 0 <= i < |d.fields| ensures MemberOk(d, i, cells) <==> SettledMember(d.fields[i], z) {
        assert FieldOk(d.fields[i]);
        ClearedAt(d, z, 0, map[], i);
        ClearedMember(d, i, cells, z);
      }
      MembersDecide(d, cells);
    }
  }

  /** The part of MsgOk about one field. */
  ghost predicate MemberOk(d: Desc, i: nat, m: Cells)
    requires i < |d.fields|
  {
    && d.fields[i].at in m
    && CellOk(d.fields[i], m[d.fields[i].at])
    && (d.fields[i].htype.Oneof? ==> WhichOk(d, d.fields[i].at, m[d.fields[i].at].which))
  }

  lemma MembersDecide(d: Desc, m: Cells)
    ensures MsgOk(d, m) <==> forall i :: 0 <= i < |d.fields| ==> MemberOk(d, i, m)
  {
    if forall i :: 0 <= i < |d.fields| ==> MemberOk(d, i, m) {
      forall i | 0 <= i < |d.fields|
        ensures d.fields[i].at in m && CellOk(d.fields[i], m[d.fields[i].at])
                && (d.fields[i].htype.Oneof? ==> WhichOk(d, d.fields[i].at, m[d.fields[i].at].which))
      {
        assert MemberOk(d, i, m);
      }
    }
  }

  lemma {:induction false} ClearedMember(d: Desc, i: nat, cells: Cells, z: int)
    requires i < |d.fields| && ClearedAs(cells, d.fields[i], z)
    requires FieldOk(d.fields[i]) && (d.fields[i].ptr.Submsg? ==> DescOk(d.fields[i].ptr.d))
    ensures MemberOk(d, i, cells) <==> SettledMember(d.fields[i], z)
    decreases d.fields[i], 2
  {
    hide ValueOk, Settled, Cleared, SettledArray;
    var f := d.fields[i];
    if f.htype.Required? || IsSingular(f) {
      ClearedIsValid(f, z - f.at);
    } else if IsFixedCount(f) {
      ClearedArrayIsValid(f, z - f.at, cells[f.at].items);
    }
  }

  lemma {:induction false} ClearedArrayIsValid(f: Field, z: int, items: seq<Value>)
    requires items == ClearedItems(f, z)
    requires FieldOk(f) && f.htype.Repeated? && (f.ptr.Submsg? ==> DescOk(f.ptr.d))
    ensures (forall k :: 0 <= k < f.arraySize ==> ValueOk(f, items[k])) <==> SettledArray(f, z)
    decreases f, 1
  {
    hide ValueOk, Settled, Cleared;
    var n := f.arraySize;
    ClearedItemAt(f, z, n, n - 1);
    ClearedIsValid(f, z - (n - 1) * f.dataSize);
    assert ValueOk(f, items[n - 1]) <==> SettledArray(f, z);
    if SettledArray(f, z) {
      forall k | 0 <= k < n ensures ValueOk(f, items[k]) {
        ProductOrder(k, n, f.dataSize);
        SettledMore(f, z - (n - 1) * f.dataSize, z - k * f.dataSize);
        ClearedIsValid(f, z - k * f.dataSize);
        ClearedItemAt(f, z, n, k);
      }
    }
  }

  lemma {:induction false} ClearedItemAt(f: Field, z: int, n: nat, k: nat)
    requires k < n
    ensures ClearedArray(f, z, n)[k] == Cleared(f, z - k * f.dataSize)
    decreases n
  {
    hide Cleared;
    if k > 0 {
      ClearedItemAt(f, z - f.dataSize, n - 1, k - 1);
      assert z - f.dataSize - (k - 1) * f.dataSize == z - k * f.dataSize;
    }
  }

  lemma ProductOrder(k: nat, n: nat, w: nat)
    requires k < n
    ensures k * w <= (n - 1) * w
  {
  }

  // ---- cleared storage is valid ----

  lemma {:induction false} ZeroAt(d: Desc, i: nat, cells: Cells, k: nat)
    requires LaidOut(d.fields) && i <= |d.fields| && k < |d.fields|
    requires k < i ==> d.fields[k].at in cells && cells[d.fields[k].at] == ZeroCell(d.fields[k])
    ensures var r := ZeroFrom(d, i, cells); d.fields[k].at in r && r[d.fields[k].at] == ZeroCell(d.fields[k])
    decreases |d.fields| - i
  {
    if i < |d.fields| {
      if k < i {
        OffsetsAscend(d.fields, k, i);
      }
      ZeroAt(d, i + 1, cells[d.fields[i].at := ZeroCell(d.fields[i])], k);
    }
  }

  lemma {:induction false} ZeroOk(f: Field)
    requires FieldOk(f) && (f.ptr.Submsg? ==> DescOk(f.ptr.d))
    ensures ValueOk(f, ZeroValue(f))
    decreases f
  {
    if f.ltype.LSubmessage? {
      var d := f.ptr.d;
      var cells := ZeroFrom(d, 0, map[]);
      forall i | 0 <= i < |d.fields| ensures MemberOk(d, i, cells) {
        assert FieldOk(d.fields[i]);
        ZeroAt(d, 0, map[], i);
        ZeroOk(d.fields[i]);
        ZeroMember(d, i, cells);
      }
      MembersDecide(d, cells);
    }
  }

  lemma ZeroMember(d: Desc, i: nat, cells: Cells)
    requires i < |d.fields| && d.fields[i].at in cells && cells[d.fields[i].at] == ZeroCell(d.fields[i])
    requires FieldOk(d.fields[i]) && ValueOk(d.fields[i], ZeroValue(d.fields[i]))
    ensures MemberOk(d, i, cells)
  {
    hide ValueOk, ZeroValue;
  }

  // ---- default values ----

  ghost predicate DefaultOk(f: Field) {
    f.ptr.Default? ==> ValueOk(f, f.ptr.v)
  }

  /** The default values of the fields are valid, at any depth. */
  ghost predicate DefaultsOk(d: Desc)
    decreases d
  {
    forall i :: 0 <= i < |d.fields| ==>
      DefaultOk(d.fields[i]) && (d.fields[i].ptr.Submsg? ==> DefaultsOk(d.fields[i].ptr.d))
  }

  // ---- what has been received ----

  /** A record of field `i` with payload `p`. */
  datatype Received = Received(i: nat, p: bytes)

  function KnownOne(d: Desc, tag: nat, p: bytes): seq<Received> {
    if MatchesTerminator(d, tag) || Find(d, tag).None? then [] else [Received(Find(d, tag).value, p)]
  }

  /** The records of known fields the loop reads in `s`. */
  function Known(d: Desc, s: bytes): seq<Received>
    decreases |s|
  {
    if s == [] || !DecTag(s).FieldTag? then []
    else
      var FieldTag(tag, wt, n) := DecTag(s);
      match FrameLen(FramingOf(d, tag, wt), s[n..])
      case None => []
      case Some(k) => KnownOne(d, tag, s[n..][..k]) + Known(d, s[n..][k..])
  }

  /** The same for strings decoded one after another. */
  function KnownAll(d: Desc, ss: seq<bytes>): seq<Received>
    decreases |ss|
  {
    if ss == [] then [] else KnownAll(d, ss[..|ss| - 1]) + Known(d, ss[|ss| - 1])
  }

  /** The payloads of field `i`, in order. */
  function Payloads(h: seq<Received>, i: nat): seq<bytes>
    decreases |h|
  {
    if h == [] then []
    else
      var r := h[|h| - 1];
      Payloads(h[..|h| - 1], i) + if r.i == i then [r.p] else []
  }

  /** The field whose record came last among those stored at `at`. */
  function LastAt(d: Desc, h: seq<Received>, at: nat): Option<nat>
    decreases |h|
  {
    if h == [] then None
    else
      var r := h[|h| - 1];
      if r.i < |d.fields| && d.fields[r.i].at == at then Some(r.i) else LastAt(d, h[..|h| - 1], at)
  }

  function Body(p: bytes): bytes {
    if Dec32(p).Some? then Contents(p) else []
  }

  function Bodies(ps: seq<bytes>): (r: seq<bytes>)
    ensures |r| == |ps|
    decreases |ps|
  {
    if ps == [] then [] else Bodies(ps[..|ps| - 1]) + [Body(ps[|ps| - 1])]
  }

  /** The struct after decoding `ss` into it one after another, starting from defaults. */
  function Merged(d: Desc, ss: seq<bytes>, z: bool): Option<Cells>
    decreases |ss|
  {
    if ss == [] then Some(Initial(d, z))
    else
      match Merged(d, ss[..|ss| - 1], z)
      case None => None
      case Some(m) =>
        match DecNoinit(d, ss[|ss| - 1], m)
        case None => None
        case Some(o) => Some(o.st.cells)
  }

  lemma Appended(d: Desc, h: seq<Received>, r: Received)
    ensures forall i :: Payloads(h + [r], i) == Payloads(h, i) + if r.i == i then [r.p] else []
    ensures forall at :: LastAt(d, h + [r], at) ==
              if r.i < |d.fields| && d.fields[r.i].at == at then Some(r.i) else LastAt(d, h, at)
  {
    assert (h + [r])[..|h|] == h;
  }

  lemma BodiesAppended(ps: seq<bytes>, p: bytes)
    ensures Bodies(ps + [p]) == Bodies(ps) + [Body(p)]
  {
    assert (ps + [p])[..|ps|] == ps;
  }

  lemma MergedAppended(d: Desc, ss: seq<bytes>, s: bytes, z: bool)
    ensures Merged(d, ss + [s], z) ==
              match Merged(d, ss, z)
              case None => None
              case Some(m) =>
                match DecNoinit(d, s, m)
                case None => None
                case Some(o) => Some(o.st.cells)
  {
    hide DecNoinit;
    assert (ss + [s])[..|ss|] == ss;
  }

  // ---- the condition ----

  /** Have all fixed count arrays arrived, in the message and in those inside it? */
  ghost predicate Complete(d: Desc, h: seq<Received>, z: bool)
    decreases d
  {
    forall i :: 0 <= i < |d.fields| ==>
      FieldComplete(d.fields[i], Payloads(h, i), LastAt(d, h, d.fields[i].at) == Some(i), z)
  }

  /**
   * One field, by its payloads: a fixed count array that the default does not settle needs
   * records; the submessages that count are the merged one, the entries that are left, or
   * the last one of a oneof.
   */
  ghost predicate FieldComplete(f: Field, ps: seq<bytes>, last: bool, z: bool)
    decreases f, 2
  {
    match f.htype
    case Required => SingleComplete(f, ps, z)
    case Optional => (f.sizeOffset != 0 && ps == []) || SingleComplete(f, ps, z)
    case Repeated =>
      if f.sizeOffset != 0 then EntriesComplete(f, ps)
      else if ps == [] then z || SettledByDefault(f)
      else EntriesComplete(f, LastOf(ps, f.arraySize))
    case Oneof => last ==> SingleComplete(f, LastOf(ps, 1), true)
  }

  ghost predicate SingleComplete(f: Field, ps: seq<bytes>, z: bool)
    decreases f, 0
  {
    f.ltype.LSubmessage? ==> f.ptr.Submsg? && Complete(f.ptr.d, KnownAll(f.ptr.d, Bodies(ps)), z)
  }

  ghost predicate EntriesComplete(f: Field, ps: seq<bytes>)
    decreases f, 1
  {
    f.ltype.LSubmessage? ==> forall k :: 0 <= k < |ps| ==> SingleComplete(f, [ps[k]], false)
  }

  function LastOf(ps: seq<bytes>, n: nat): seq<bytes> {
    if |ps| >= n then ps[|ps| - n..] else ps
  }

  // ---- what a struct holds while records arrive ----

  /** The number zero, no bytes, or only zero bytes. */
  ghost predicate HoldsZero(f: Field, v: Value) {
    match f.ltype
    case Packable(_) => v == Int(0)
    case LBytes => v == Blob([])
    case LString => v == Blob([])
    case LFixedLengthBytes => v.Blob? && |v.b| == f.dataSize && forall k :: 0 <= k < |v.b| ==> v.b[k] == 0
    case LSubmessage => false
  }

  /** The default value of the table, or else zero. */
  ghost predicate HoldsDefault(f: Field, v: Value) {
    if f.ptr.Default? then v == f.ptr.v else HoldsZero(f, v)
  }

  /**
   * A value that is the outcome of these payloads: the default without one, else what the last
   * one says. Submessages are merged, which is not followed up here.
   */
  ghost predicate SingleMatches(f: Field, v: Value, ps: seq<bytes>, z: bool) {
    if f.ltype.LSubmessage? then f.ptr.Submsg? && v.Sub? && Merged(f.ptr.d, Bodies(ps), z) == Some(v.cells)
    else if ps == [] then HoldsDefault(f, v)
    else DecValue(f, ps[|ps| - 1], Garbage) == Some(v)
  }

  /** One entry for each payload, except that packed ones may bring any number of valid numbers. */
  ghost predicate EntriesMatch(f: Field, items: seq<Value>, ps: seq<bytes>) {
    && (!f.ltype.Packable? ==> |items| == |ps|)
    && forall k :: 0 <= k < |items| ==>
         if f.ltype.Packable? then ValueOk(f, items[k]) else SingleMatches(f, items[k], [ps[k]], false)
  }

  /** A fixed count array, of which `n` entries are from records. */
  ghost predicate ArrayMatches(f: Field, c: Cell, n: nat, ps: seq<bytes>) {
    && c.Fixed? && |c.items| == f.arraySize && n <= f.arraySize
    && (!f.ltype.Packable? ==> n <= |ps|)
    && EntriesMatch(f, c.items[..n], LastOf(ps, n))
  }

  ghost predicate FieldMatches(d: Desc, i: nat, st: State, h: seq<Received>, z: bool)
    requires i < |d.fields|
  {
    var f := d.fields[i];
    var ps := Payloads(h, i);
    && f.at in st.cells && Fits(f, st.cells[f.at])
    && var c := st.cells[f.at];
       match f.htype
       case Required => SingleMatches(f, c.v, ps, z)
       case Optional => SingleMatches(f, c.v, ps, z) && (c.Flagged? ==> (c.has <==> ps != []))
       case Repeated =>
         if f.sizeOffset != 0 then |c.items| <= f.arraySize && EntriesMatch(f, c.items, ps)
         else if st.fixed.Array? && st.fixed.field == i then ps != [] && ArrayMatches(f, c, st.fixed.count, ps)
         else if ps != [] then ArrayMatches(f, c, f.arraySize, ps)
         else c == InitialCell(f, z)
       case Oneof =>
         match LastAt(d, h, f.at)
         case None => c.which == 0
         case Some(k) =>
           && k < |d.fields| && d.fields[k].at == f.at && c.which == d.fields[k].tag
           && (k == i ==> ps != [] && SingleMatches(f, c.v, LastOf(ps, 1), true))
  }

  ghost predicate Matches(d: Desc, st: State, h: seq<Received>, z: bool) {
    forall i :: 0 <= i < |d.fields| ==> FieldMatches(d, i, st, h, z)
  }

  lemma InitialMatches(d: Desc, z: bool)
    requires DescOk(d)
    ensures Matches(d, Start(Initial(d, z)), [], z)
  {
    hide ValueOk, LaidOut, Cleared;
    DescFacts(d);
    InitialHolds(d, z);
    forall i | 0 <= i < |d.fields| ensures FieldMatches(d, i, Start(Initial(d, z)), [], z) {
      if !d.fields[i].htype.Repeated? && !d.fields[i].htype.Oneof? {
        InitialFieldMatches(d.fields[i], z);
      }
      assert Payloads([], i) == [] && LastAt(d, [], d.fields[i].at) == None;
    }
  }

  lemma InitialFieldMatches(f: Field, z: bool)
    requires FieldOk(f) && !f.htype.Repeated? && !f.htype.Oneof?
    ensures SingleMatches(f, InitialValue(f, z), [], z)
  {
    if f.ltype.LSubmessage? {
      assert Merged(f.ptr.d, Bodies([]), z) == Some(Initial(f.ptr.d, z));
    }
  }

  /** A later call starts without an array in progress. */
  lemma RestartMatches(d: Desc, st: State, h: seq<Received>, z: bool)
    requires Matches(d, st, h, z) && ArrayDone(d, st.fixed)
    ensures Matches(d, Start(st.cells), h, z)
  {
    hide SingleMatches, EntriesMatch;
    forall i | 0 <= i < |d.fields| ensures FieldMatches(d, i, Start(st.cells), h, z) {
      assert FieldMatches(d, i, st, h, z);
    }
  }

  // ---- one record ----

  /** A payload stored over what came before it. */
  lemma ValueMatches(f: Field, p: bytes, prev: Value, ps: seq<bytes>, z: bool)
    requires FieldOk(f) && DecValue(f, p, prev).Some?
    requires if f.htype.Repeated? then ps == [] && !z else f.ltype.LSubmessage? ==> SingleMatches(f, prev, ps, z)
    ensures SingleMatches(f, DecValue(f, p, prev).value, ps + [p], z)
  {
    hide Merged, Bodies, Initial;
    if f.ltype.LSubmessage? {
      SubmessageMatches(f, p, prev, ps, z);
    } else {
      OverwritesAll(f, p, prev);
    }
  }

  /** Values other than submessages do not depend on what they are stored over. */
  lemma OverwritesAll(f: Field, p: bytes, prev: Value)
    requires !f.ltype.LSubmessage?
    ensures DecValue(f, p, prev) == DecValue(f, p, Garbage)
  {
  }

  /** What is decoded is valid. */
  lemma DecodedOk(f: Field, p: bytes, prev: Value)
    requires FieldOk(f) && !f.ltype.LSubmessage? && DecValue(f, p, prev).Some?
    ensures ValueOk(f, DecValue(f, p, prev).value)
  {
    match f.ltype {
      case Packable(sc) => DecScalarInRange(sc, f.dataSize, p);
      case LString => CStringShort(Contents(p));
      case _ =>
    }
  }

  lemma SubmessageMatches(f: Field, p: bytes, prev: Value, ps: seq<bytes>, z: bool)
    requires f.ltype.LSubmessage? && DecValue(f, p, prev).Some?
    requires if f.htype.Repeated? then ps == [] && !z else SingleMatches(f, prev, ps, z)
    ensures SingleMatches(f, DecValue(f, p, prev).value, ps + [p], z)
  {
    hide DecNoinit, Initial;
    BodiesAppended(ps, p);
    MergedAppended(f.ptr.d, Bodies(ps), Body(p), z);
    assert Merged(f.ptr.d, [], z) == Some(Initial(f.ptr.d, z));
  }

  lemma CStringShort(b: bytes)
    ensures |CString(b)| <= |b|
  {
  }

  lemma {:induction false} DecItemsValid(f: Field, c: bytes, items: seq<Value>)
    requires FieldOk(f) && f.ltype.Packable? && f.htype.Repeated?
    requires forall k :: 0 <= k < |items| ==> ValueOk(f, items[k])
    requires DecItems(f, c, items).Some?
    ensures forall k :: 0 <= k < |DecItems(f, c, items).value| ==> ValueOk(f, DecItems(f, c, items).value[k])
    decreases |c|
  {
    hide DecValue, FrameLen, ItemFraming, ValueOk;
    if c != [] {
      var k := FrameLen(ItemFraming(f.ltype), c).value;
      var v := DecValue(f, c[..k], Garbage);
      DecodedOk(f, c[..k], Garbage);
      DecItemsValid(f, c[k..], items + [v.value]);
    }
  }

  /** A record of a repeated field behind the entries `items`, which came with `ps`. */
  lemma ExtendMatches(f: Field, wt: nat, p: bytes, items: seq<Value>, ps: seq<bytes>)
    requires FieldOk(f) && f.htype.Repeated? && EntriesMatch(f, items, ps) && Extend(f, wt, p, items).Some?
    ensures EntriesMatch(f, Extend(f, wt, p, items).value, ps + [p])
    ensures !f.ltype.Packable? ==> |Extend(f, wt, p, items).value| == |items| + 1
  {
    hide DecValue, DecItems, ValueOk, SingleMatches;
    var xs := Extend(f, wt, p, items).value;
    if IsPacked(f, wt) {
      DecItemsValid(f, Contents(p), items);
    } else {
      if !f.ltype.Packable? {
        ValueMatches(f, p, Garbage, [], false);
        assert [] + [p] == [p];
        forall k | 0 <= k < |xs| ensures SingleMatches(f, xs[k], [(ps + [p])[k]], false) {
          assert (ps + [p])[k] == if k < |ps| then ps[k] else p;
        }
      } else {
        DecodedOk(f, p, Garbage);
      }
    }
  }

  /** A record of a fixed count array behind its first `n` entries. */
  lemma ArrayRecord(f: Field, wt: nat, p: bytes, c: Cell, n: nat, ps: seq<bytes>)
    requires FieldOk(f) && IsFixedCount(f) && ArrayMatches(f, c, n, ps) && Extend(f, wt, p, c.items[..n]).Some?
    ensures var xs := Extend(f, wt, p, c.items[..n]).value;
            |xs| <= f.arraySize && ArrayMatches(f, Fixed(xs + c.items[|xs|..]), |xs|, ps + [p])
  {
    hide Extend, SingleMatches, ValueOk;
    var xs := Extend(f, wt, p, c.items[..n]).value;
    ExtendMatches(f, wt, p, c.items[..n], LastOf(ps, n));
    assert (xs + c.items[|xs|..])[..|xs|] == xs;
    if !f.ltype.Packable? {
      assert LastOf(ps + [p], n + 1) == LastOf(ps, n) + [p];
    }
  }

  /** The first record of a pass finds no entries, a later one those of the pass. */
  lemma ArrayStarts(d: Desc, i: nat, st: State, h: seq<Received>, z: bool)
    requires i < |d.fields| && IsFixedCount(d.fields[i]) && FieldMatches(d, i, st, h, z)
    requires StartArray(d, i, st.fixed).Some?
    ensures ArrayMatches(d.fields[i], st.cells[d.fields[i].at], StartArray(d, i, st.fixed).value.count, Payloads(h, i))
  {
    hide SingleMatches, ValueOk, Payloads;
    assert LastOf(Payloads(h, i), 0) == [];
  }

  lemma OneofRecord(f: Field, p: bytes, prev: Value)
    requires FieldOk(f) && f.htype.Oneof?
    requires f.ltype.LSubmessage? ==> prev == Sub(Initial(f.ptr.d, true))
    requires DecValue(f, p, prev).Some?
    ensures SingleMatches(f, DecValue(f, p, prev).value, [p], true)
  {
    hide DecValue, ValueOk, Initial;
    if f.ltype.LSubmessage? {
      assert Merged(f.ptr.d, Bodies([]), true) == Some(Initial(f.ptr.d, true));
    }
    ValueMatches(f, p, prev, [], true);
    assert [] + [p] == [p];
  }

  /** The field of the record. */
  lemma OwnFieldMatches(d: Desc, i: nat, wt: nat, p: bytes, st: State, h: seq<Received>, z: bool)
    requires DescOk(d) && i < |d.fields| && FieldMatches(d, i, st, h, z)
    requires Apply(d, d.fields[i].tag, wt, p, st).Some?
    ensures FieldMatches(d, i, Apply(d, d.fields[i].tag, wt, p, st).value, h + [Received(i, p)], z)
  {
    hide LaidOut, DecValue, Extend, SingleMatches, EntriesMatch, ArrayMatches, ValueOk, Payloads, LastAt, Initial;
    var f, ps, c := d.fields[i], Payloads(h, i), st.cells[d.fields[i].at];
    DescFacts(d);
    FindUnique(d, i);
    Appended(d, h, Received(i, p));
    if IsFixedCount(f) {
      ArrayStarts(d, i, st, h, z);
      ArrayRecord(f, wt, p, c, StartArray(d, i, st.fixed).value.count, ps);
    } else if f.htype.Repeated? {
      ExtendMatches(f, wt, p, c.items, ps);
    } else if f.htype.Oneof? {
      OneofRecord(f, p, if f.ltype.LSubmessage? then Sub(Initial(f.ptr.d, true)) else c.v);
      assert LastOf(ps + [p], 1) == [p];
    } else {
      ValueMatches(f, p, c.v, ps, z);
    }
  }

  /** Any other field: its cell is another one, or the union it shares has changed hands. */
  lemma OtherFieldMatches(d: Desc, i: nat, k: nat, p: bytes, st: State, st': State, h: seq<Received>, z: bool, c: Cell)
    requires DescOk(d) && i < |d.fields| && k < |d.fields| && k != i && FieldMatches(d, k, st, h, z)
    requires d.fields[i].htype.Oneof? ==> c.Union? && c.which == d.fields[i].tag
    requires st'.cells == st.cells[d.fields[i].at := c]
    requires st'.fixed == st.fixed || (ArrayDone(d, st.fixed) && st'.fixed.Array? && st'.fixed.field == i)
             || (st.fixed.Array? && st'.fixed.Array? && st.fixed.field == st'.fixed.field == i)
    ensures FieldMatches(d, k, st', h + [Received(i, p)], z)
  {
    hide LaidOut, SingleMatches, EntriesMatch, ArrayMatches, Payloads, LastAt, Initial;
    var f, g := d.fields[i], d.fields[k];
    DescFacts(d);
    Appended(d, h, Received(i, p));
    assert Payloads(h, k) + [] == Payloads(h, k);
    if f.at == g.at {
      OffsetsAscend(d.fields, if i <= k then i else k, if i <= k then k else i);
    }
  }

  lemma ApplyTakesUnion(f: Field, wt: nat, p: bytes, c: Cell, count: nat)
    requires f.htype.Oneof? && ApplyField(f, wt, p, c, count).Some?
    ensures ApplyField(f, wt, p, c, count).value.0.Union? && ApplyField(f, wt, p, c, count).value.0.which == f.tag
  {
    hide DecValue;
  }

  lemma RecordMatches(d: Desc, tag: nat, wt: nat, p: bytes, st: State, h: seq<Received>, z: bool)
    requires DescOk(d) && Matches(d, st, h, z) && Apply(d, tag, wt, p, st).Some?
    ensures Matches(d, Apply(d, tag, wt, p, st).value, h + KnownOne(d, tag, p), z)
  {
    hide ApplyField, FieldMatches, LaidOut;
    var st' := Apply(d, tag, wt, p, st).value;
    if !MatchesTerminator(d, tag) && Find(d, tag).Some? {
      var i := Find(d, tag).value;
      var c := st'.cells[d.fields[i].at];
      if d.fields[i].htype.Oneof? {
        ApplyTakesUnion(d.fields[i], wt, p, st.cells[d.fields[i].at], 0);
      }
      forall k | 0 <= k < |d.fields| ensures FieldMatches(d, k, st', h + [Received(i, p)], z) {
        assert FieldMatches(d, k, st, h, z);
        if k == i {
          OwnFieldMatches(d, i, wt, p, st, h, z);
        } else {
          OtherFieldMatches(d, i, k, p, st, st', h, z, c);
        }
      }
    } else {
      assert h + [] == h;
    }
  }

  /**
   * The record loop, on every input: each member holds what its own records make of it, a
   * fixed count array as far as it has been received.
   */
  lemma {:induction false} LoopMatches(d: Desc, s: bytes, st: State, h: seq<Received>, z: bool)
    requires DescOk(d) && Matches(d, st, h, z)
    ensures Loop(d, s, st).Some? ==> Matches(d, Loop(d, s, st).value.st, h + Known(d, s), z)
    decreases |s|
  {
    hide Loop, Apply, DecTag, FrameLen, FramingOf, Matches, DescOk, KnownOne;
    LoopCases(d, s, st);
    assert h + [] == h;
    if Loop(d, s, st).Some? && s != [] && DecTag(s).FieldTag? {
      LoopTurn(d, s, st);
      var FieldTag(tag, wt, n) := DecTag(s);
      var k := FrameLen(FramingOf(d, tag, wt), s[n..]).value;
      var p, rest := s[n..][..k], s[n..][k..];
      RecordMatches(d, tag, wt, p, st, h, z);
      LoopMatches(d, rest, Apply(d, tag, wt, p, st).value, h + KnownOne(d, tag, p), z);
      assert h + KnownOne(d, tag, p) + Known(d, rest) == h + (KnownOne(d, tag, p) + Known(d, rest));
    }
  }

  lemma {:induction false} MergedMatches(d: Desc, ss: seq<bytes>, z: bool)
    requires DescOk(d) && Merged(d, ss, z).Some?
    ensures Matches(d, Start(Merged(d, ss, z).value), KnownAll(d, ss), z)
    decreases |ss|
  {
    hide Loop, Matches, DescOk, Initial, ArrayDone, SeenBelow, CheckedFields, Known;
    if ss == [] {
      InitialMatches(d, z);
    } else {
      var before, s := ss[..|ss| - 1], ss[|ss| - 1];
      MergedMatches(d, before, z);
      var m := Merged(d, before, z).value;
      LoopMatches(d, s, Start(m), KnownAll(d, before), z);
      RestartMatches(d, Loop(d, s, Start(m)).value.st, KnownAll(d, ss), z);
    }
  }

  // ---- validity, from the inside out ----

  lemma {:induction false} SingleValid(f: Field, v: Value, ps: seq<bytes>, z: bool)
    requires FieldOk(f) && DefaultOk(f) && (f.ptr.Submsg? ==> DescOk(f.ptr.d) && DefaultsOk(f.ptr.d))
    requires SingleMatches(f, v, ps, z)
    ensures ValueOk(f, v) <==> SingleComplete(f, ps, z)
    decreases f, 0
  {
    hide DescOk, DefaultsOk, Merged;
    if f.ltype.LSubmessage? {
      MergedIsValid(f.ptr.d, Bodies(ps), z);
    } else if ps != [] {
      DecodedOk(f, ps[|ps| - 1], Garbage);
    }
  }

  lemma {:induction false} EntriesValid(f: Field, items: seq<Value>, ps: seq<bytes>)
    requires FieldOk(f) && (f.ptr.Submsg? ==> DescOk(f.ptr.d) && DefaultsOk(f.ptr.d))
    requires EntriesMatch(f, items, ps)
    ensures (forall k :: 0 <= k < |items| ==> ValueOk(f, items[k])) <==> EntriesComplete(f, ps)
    decreases f, 1
  {
    hide DescOk, DefaultsOk, SingleMatches, ValueOk, SingleComplete, DecValue;
    if f.ltype.LSubmessage? {
      forall k | 0 <= k < |items| ensures ValueOk(f, items[k]) <==> SingleComplete(f, [ps[k]], false) {
        SingleValid(f, items[k], [ps[k]], false);
      }
    } else if !f.ltype.Packable? {
      forall k | 0 <= k < |items| ensures ValueOk(f, items[k]) {
        DecodedMatches(f, items[k], ps[k]);
        DecodedOk(f, ps[k], Garbage);
      }
    }
  }

  lemma DecodedMatches(f: Field, v: Value, p: bytes)
    requires !f.ltype.LSubmessage? && SingleMatches(f, v, [p], false)
    ensures DecValue(f, p, Garbage) == Some(v)
  {
    assert [p][|[p]| - 1] == p;
  }

  lemma {:induction false} ArrayValid(f: Field, c: Cell, ps: seq<bytes>, z: bool)
    requires FieldOk(f) && IsFixedCount(f) && (f.ptr.Submsg? ==> DescOk(f.ptr.d) && DefaultsOk(f.ptr.d))
    requires if ps != [] then ArrayMatches(f, c, f.arraySize, ps) else c == InitialCell(f, z)
    ensures CellOk(f, c) <==> FieldComplete(f, ps, false, z)
    decreases f, 2
  {
    hide DescOk, DefaultsOk, ValueOk, EntriesMatch, EntriesComplete, Cleared, SettledArray;
    if ps != [] {
      assert c.items[..f.arraySize] == c.items;
      EntriesValid(f, c.items, LastOf(ps, f.arraySize));
    } else {
      ZeroOk(f);
      ClearedArrayIsValid(f, COUNTER_SIZE, ClearedItems(f, COUNTER_SIZE));
    }
  }

  lemma {:induction false} FieldValid(d: Desc, i: nat, m: Cells, h: seq<Received>, z: bool)
    requires DescOk(d) && DefaultsOk(d) && i < |d.fields| && FieldMatches(d, i, Start(m), h, z)
    ensures MemberOk(d, i, m) <==>
              FieldComplete(d.fields[i], Payloads(h, i), LastAt(d, h, d.fields[i].at) == Some(i), z)
    decreases d, 0
  {
    hide LaidOut, ValueOk, SingleMatches, EntriesMatch, ArrayMatches, SingleComplete, EntriesComplete, Payloads, LastAt;
    var f, ps, c := d.fields[i], Payloads(h, i), m[d.fields[i].at];
    DescFacts(d);
    if IsFixedCount(f) {
      ArrayValid(f, c, ps, z);
    } else if f.htype.Repeated? {
      EntriesValid(f, c.items, ps);
    } else if f.htype.Oneof? {
      if LastAt(d, h, f.at) == Some(i) {
        SingleValid(f, c.v, LastOf(ps, 1), true);
      }
    } else {
      SingleValid(f, c.v, ps, z);
    }
  }

  /** What strings decoded one after another leave is valid exactly when all arrays have arrived. */
  lemma {:induction false} MergedIsValid(d: Desc, ss: seq<bytes>, z: bool)
    requires DescOk(d) && DefaultsOk(d) && Merged(d, ss, z).Some?
    ensures MsgOk(d, Merged(d, ss, z).value) <==> Complete(d, KnownAll(d, ss), z)
    decreases d, 1
  {
    hide MsgOk, Merged, FieldMatches, MemberOk, FieldComplete, DescOk, DefaultsOk, Payloads, LastAt, KnownAll;
    var m, h := Merged(d, ss, z).value, KnownAll(d, ss);
    MergedMatches(d, ss, z);
    forall i | 0 <= i < |d.fields|
      ensures MemberOk(d, i, m) <==>
                FieldComplete(d.fields[i], Payloads(h, i), LastAt(d, h, d.fields[i].at) == Some(i), z)
    {
      FieldValid(d, i, m, h, z);
    }
    MembersDecide(d, m);
  }

  // ---- main results ----

  /**
   * What a successful call leaves in the struct is a valid message exactly when every fixed
   * count array which the default leaves uninitialised has arrived, in the message and in
   * every message inside it that counts.
   */
  lemma DecodedIsValid(d: Desc, s: bytes)
    requires DescOk(d) && DefaultsOk(d) && Dec(d, s).Some?
    ensures MsgOk(d, Dec(d, s).value.st.cells) <==> Complete(d, Known(d, s), false)
  {
    hide DescOk, DefaultsOk, DecNoinit, MsgOk, Complete, Known, Initial;
    assert [s][..0] == [];
    assert Merged(d, [], false) == Some(Initial(d, false)) && KnownAll(d, []) == [];
    assert Merged(d, [s], false) == Some(Dec(d, s).value.st.cells);
    assert KnownAll(d, [s]) == [] + Known(d, s) == Known(d, s);
    MergedIsValid(d, [s], false);
  }

  /**
   * In that case it can be encoded, and decoding the encoding gives the same message, with
   * the same encoding, again.
   */
  lemma DecodedIsCanonical(d: Desc, s: bytes)
    requires DescOk(d) && DefaultsOk(d) && Dec(d, s).Some? && Complete(d, Known(d, s), false)
    ensures MsgOk(d, Dec(d, s).value.st.cells)
    ensures var m := Dec(d, s).value.st.cells;
            && EncMessage(d, m).Some?
            && (|EncMessage(d, m).value| < TWO_TO_THE_32 ==>
                  var again := Dec(d, EncMessage(d, m).value);
                  && again.Some? && again.value.rest == [] && Same(d, again.value.st.cells, d, m)
                  && EncMessage(d, again.value.st.cells) == EncMessage(d, m))
  {
    hide Dec, DescOk, DefaultsOk, MsgOk, Same, EncFrom, Complete;
    DecodedIsValid(d, s);
    var m := Dec(d, s).value.st.cells;
    FieldsEncode(d, 0, m);
    if |EncMessage(d, m).value| < TWO_TO_THE_32 {
      WholeMessage(d, m);
    }
  }

  // ---- messages without messages inside ----

  /** Each fixed count array which the default leaves uninitialised has a record in the input. */
  ghost predicate ArraysArrive(d: Desc, s: bytes) {
    forall j :: 0 <= j < |d.fields| && IsFixedCount(d.fields[j]) && !SettledByDefault(d.fields[j]) ==>
      d.fields[j].tag in TagsRead(d, s)
  }

  lemma {:induction false} PayloadsOfConcat(a: seq<Received>, b: seq<Received>, i: nat)
    ensures Payloads(a + b, i) == Payloads(a, i) + Payloads(b, i)
    decreases |b|
  {
    if b == [] {
      assert a + b == a && Payloads(a, i) + [] == Payloads(a, i);
    } else {
      var init := b[..|b| - 1];
      assert (a + b)[..|a + b| - 1] == a + init;
      PayloadsOfConcat(a, init, i);
    }
  }

  lemma {:induction false} ReadIsReceived(d: Desc, s: bytes, j: nat)
    requires UniqueTags(d.fields) && j < |d.fields|
    ensures Payloads(Known(d, s), j) != [] <==> d.fields[j].tag in TagsRead(d, s)
    decreases |s|
  {
    hide DecTag, FrameLen, FramingOf, UniqueTags;
    FindUnique(d, j);
    if s != [] && DecTag(s).FieldTag? {
      var FieldTag(tag, wt, n) := DecTag(s);
      var k := FrameLen(FramingOf(d, tag, wt), s[n..]);
      if k.Some? {
        var one, rest := KnownOne(d, tag, s[n..][..k.value]), s[n..][k.value..];
        ReadIsReceived(d, rest, j);
        PayloadsOfConcat(one, Known(d, rest), j);
        assert one != [] ==> one[..0] == [];
      }
    }
  }

  /** Without messages inside, the condition is about the tags in the input only. */
  lemma CompleteByTags(d: Desc, s: bytes)
    requires UniqueTags(d.fields) && forall i :: 0 <= i < |d.fields| ==> !d.fields[i].ltype.LSubmessage?
    ensures Complete(d, Known(d, s), false) <==> ArraysArrive(d, s)
  {
    hide Known, TagsRead, Payloads, UniqueTags, SettledArray;
    var h := Known(d, s);
    forall j | 0 <= j < |d.fields|
      ensures FieldComplete(d.fields[j], Payloads(h, j), LastAt(d, h, d.fields[j].at) == Some(j), false) <==>
                (IsFixedCount(d.fields[j]) && !SettledByDefault(d.fields[j]) ==> d.fields[j].tag in TagsRead(d, s))
    {
      ReadIsReceived(d, s, j);
    }
  }

  /**
   * An input at which the decoder succeeds and the struct is not a valid message: the empty
   * one, for a table with a fixed count array longer than the default write.
   */
  lemma MissingFixedArray(d: Desc, j: nat)
    requires DescOk(d) && j < |d.fields| && IsFixedCount(d.fields[j]) && !SettledByDefault(d.fields[j])
    requires forall i :: 0 <= i < |d.fields| ==> !d.fields[i].htype.Required?
    ensures Dec(d, []).Some? && !MsgOk(d, Dec(d, []).value.st.cells)
    ensures d.fields[j].at in Dec(d, []).value.st.cells
    ensures Dec(d, []).value.st.cells[d.fields[j].at] == Fixed(ClearedItems(d.fields[j], COUNTER_SIZE))
  {
    hide ValueOk, LaidOut, SettledArray;
    DescFacts(d);
    InitialHolds(d, false);
    NoneRequired(d.fields, |d.fields|);
    var f := d.fields[j];
    ClearedArrayIsValid(f, COUNTER_SIZE, InitialCell(f, false).items);
    assert !CellOk(f, InitialCell(f, false));
  }

  lemma {:induction false} NoneRequired(fs: seq<Field>, n: nat)
    requires n <= |fs| && forall i :: 0 <= i < |fs| ==> !fs[i].htype.Required?
    ensures RequiredBefore(fs, n) == 0
  {
    if n > 0 {
      NoneRequired(fs, n - 1);
    }
  }
}
