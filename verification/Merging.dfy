/**
 * Decoding as merging: concatenated messages, and records in another order.
 */
module Merging {
  import opened Common
  import opened Varint32
  import opened Descriptor
  import opened DecodeSpec
  import opened Records

  /** No repeated field lacks a _count member. */
  ghost predicate NoFixedCount(d: Desc) {
    forall i :: 0 <= i < |d.fields| ==> !IsFixedCount(d.fields[i])
  }

  // ---- concatenation ----

  /** What is read first does not depend on what follows, unless it ends the message. */
  lemma {:induction false} LoopAppend(d: Desc, a: bytes, b: bytes, st: State)
    requires Loop(d, a, st).Some?
    ensures var o := Loop(d, a, st).value;
            Loop(d, a + b, st) ==
              if o.zeroTag then Some(Outcome(o.st, o.rest + b, true))
              else Loop(d, b, o.st)
    decreases |a|
  {
    hide Loop, Apply, DecTag, FrameLen, FramingOf;
    LoopCases(d, a, st);
    if a == [] {
      assert a + b == b;
    } else if DecTag(a).EndTag? {
      EndTagAppend(a, b);
      assert (a + b)[DecTag(a).n..] == a[DecTag(a).n..] + b;
      LoopCases(d, a + b, st);
    } else {
      var h, tag, wt, p, rest := LoopSplit(d, a, st);
      LoopRecord(d, h, tag, wt, p, rest + b, st);
      assert a + b == h + p + (rest + b);
      LoopAppend(d, rest, b, Apply(d, tag, wt, p, st).value);
    }
  }

  lemma EndTagAppend(a: bytes, b: bytes)
    requires a != [] && DecTag(a).EndTag?
    ensures DecTag(a + b) == DecTag(a)
  {
    Dec32End(a);
    Dec32Local(a, b);
  }

  lemma ApplySeen(d: Desc, tag: nat, wt: nat, p: bytes, st: State, extra: set<nat>)
    ensures Apply(d, tag, wt, p, State(st.cells, st.seen + extra, st.fixed)) ==
              match Apply(d, tag, wt, p, st)
              case None => None
              case Some(next) => Some(State(next.cells, next.seen + extra, next.fixed))
  {
    if !MatchesTerminator(d, tag) && Find(d, tag).Some? {
      var i := Find(d, tag).value;
      assert st.seen + extra + Marks(d, i) == st.seen + Marks(d, i) + extra;
    }
  }

  /** Bits that are already set do not influence the loop. */
  lemma {:induction false} LoopSeen(d: Desc, s: bytes, st: State, extra: set<nat>)
    ensures Loop(d, s, State(st.cells, st.seen + extra, st.fixed)) ==
              match Loop(d, s, st)
              case None => None
              case Some(o) => Some(Outcome(State(o.st.cells, o.st.seen + extra, o.st.fixed), o.rest, o.zeroTag))
    decreases |s|
  {
    hide Apply, DecTag, FrameLen, FramingOf;
    if s != [] && DecTag(s).FieldTag? {
      var FieldTag(tag, wt, n) := DecTag(s);
      var k := FrameLen(FramingOf(d, tag, wt), s[n..]);
      if k.Some? {
        var p := s[n..n + k.value];
        ApplySeen(d, tag, wt, p, st, extra);
        var next := Apply(d, tag, wt, p, st);
        if next.Some? {
          LoopSeen(d, s[n + k.value..], next.value, extra);
        }
      }
    }
  }

  lemma ApplyKeepsNoArray(d: Desc, tag: nat, wt: nat, p: bytes, st: State)
    requires NoFixedCount(d) && st.fixed.NoArray?
    ensures Apply(d, tag, wt, p, st).Some? ==>
              Apply(d, tag, wt, p, st).value.fixed.NoArray? && st.seen <= Apply(d, tag, wt, p, st).value.seen
  {
    hide ApplyField;
  }

  lemma {:induction false} LoopKeepsNoArray(d: Desc, s: bytes, st: State)
    requires NoFixedCount(d) && st.fixed.NoArray?
    ensures Loop(d, s, st).Some? ==> Loop(d, s, st).value.st.fixed.NoArray?
    ensures Loop(d, s, st).Some? ==> st.seen <= Loop(d, s, st).value.st.seen
    decreases |s|
  {
    hide Loop, Apply, DecTag, FrameLen, FramingOf;
    LoopCases(d, s, st);
    if Loop(d, s, st).Some? && s != [] && DecTag(s).FieldTag? {
      var h, tag, wt, p, rest := LoopSplit(d, s, st);
      ApplyKeepsNoArray(d, tag, wt, p, st);
      LoopKeepsNoArray(d, rest, Apply(d, tag, wt, p, st).value);
    }
  }

  lemma {:induction false} SeenMonotone(n: nat, seen: set<nat>, more: set<nat>)
    requires SeenBelow(n, seen) && seen <= more
    ensures SeenBelow(n, more)
  {
    if n > 0 {
      SeenMonotone(n - 1, seen, more);
    }
  }

  /**
   * Concatenation is merging. If `a` is read completely into a struct and `b` after it into
   * the same struct, then reading `a + b` at once gives the same struct, the same rest and
   * the same way of ending.
   */
  lemma ConcatenationMerges(d: Desc, a: bytes, b: bytes, cells: Cells)
    requires NoFixedCount(d)
    requires DecNoinit(d, a, cells).Some? && !DecNoinit(d, a, cells).value.zeroTag
    requires DecNoinit(d, b, DecNoinit(d, a, cells).value.st.cells).Some?
    ensures var two := DecNoinit(d, b, DecNoinit(d, a, cells).value.st.cells).value;
            var one := DecNoinit(d, a + b, cells);
            one.Some? && one.value.st.cells == two.st.cells && one.value.rest == two.rest
            && one.value.zeroTag == two.zeroTag
  {
    var first := Loop(d, a, Start(cells)).value;
    LoopAppend(d, a, b, Start(cells));
    LoopKeepsNoArray(d, a, Start(cells));
    var st := Start(first.st.cells);
    LoopKeepsNoArray(d, b, st);
    LoopSeen(d, b, st, first.st.seen);
    assert State(st.cells, st.seen + first.st.seen, st.fixed) == first.st by {
      assert {} + first.st.seen == first.st.seen;
    }
    var second := Loop(d, b, st).value;
    SeenMonotone(CheckedFields(d), second.st.seen, second.st.seen + first.st.seen);
  }

  /** A message that ends with a zero tag hides whatever is appended to it. */
  lemma ZeroTagEnds(d: Desc, a: bytes, b: bytes, cells: Cells)
    requires DecNoinit(d, a, cells).Some? && DecNoinit(d, a, cells).value.zeroTag
    ensures var o := DecNoinit(d, a, cells).value;
            DecNoinit(d, a + b, cells) == Some(Outcome(o.st, o.rest + b, true))
  {
    LoopAppend(d, a, b, Start(cells));
  }

  // ---- reordering ----

  /** A record with its tag's bytes, in any varint form, and its payload. */
  datatype Rec = Rec(h: bytes, tag: nat, wt: nat, p: bytes)

  ghost predicate RecOk(d: Desc, r: Rec) {
    IsTag(r.h, r.tag, r.wt) && Framed(FramingOf(d, r.tag, r.wt), r.p)
  }

  function Bytes(rs: seq<Rec>): bytes {
    if rs == [] then [] else rs[0].h + rs[0].p + Bytes(rs[1..])
  }

  function ApplyAll(d: Desc, rs: seq<Rec>, st: State): Option<State>
    decreases |rs|
  {
    if rs == [] then Some(st)
    else
      match Apply(d, rs[0].tag, rs[0].wt, rs[0].p, st)
      case None => None
      case Some(next) => ApplyAll(d, rs[1..], next)
  }

  lemma {:induction false} LoopRecords(d: Desc, rs: seq<Rec>, t: bytes, st: State)
    requires forall r :: r in rs ==> RecOk(d, r)
    ensures Loop(d, Bytes(rs) + t, st) == Continue(d, ApplyAll(d, rs, st), t)
    decreases |rs|
  {
    hide Loop, Apply;
    if rs == [] {
      assert [] + t == t;
    } else {
      var r, rest := rs[0], Bytes(rs[1..]);
      assert RecOk(d, r);
      assert Bytes(rs) + t == r.h + r.p + (rest + t);
      LoopRecord(d, r.h, r.tag, r.wt, r.p, rest + t, st);
      var next := Apply(d, r.tag, r.wt, r.p, st);
      if next.Some? {
        LoopRecords(d, rs[1..], t, next.value);
      }
    }
  }

  /** The storage a record writes to: members of one union share it. */
  function SlotOf(d: Desc, r: Rec): Option<nat> {
    match Find(d, r.tag)
    case None => None
    case Some(i) => Some(d.fields[i].at)
  }

  /** The records for one storage slot, in order. */
  function Project(d: Desc, rs: seq<Rec>, slot: nat): seq<Rec> {
    if rs == [] then []
    else (if SlotOf(d, rs[0]) == Some(slot) then [rs[0]] else []) + Project(d, rs[1..], slot)
  }

  function ApplyCell(d: Desc, r: Rec, c: Cell): Option<Cell> {
    match Find(d, r.tag)
    case None => Some(c)
    case Some(i) =>
      match ApplyField(d.fields[i], r.wt, r.p, c, 0)
      case None => None
      case Some((c', _)) => Some(c')
  }

  function FoldCell(d: Desc, rs: seq<Rec>, c: Cell): Option<Cell>
    decreases |rs|
  {
    if rs == [] then Some(c)
    else
      match ApplyCell(d, rs[0], c)
      case None => None
      case Some(c') => FoldCell(d, rs[1..], c')
  }

  function RecMarks(d: Desc, r: Rec): set<nat> {
    match Find(d, r.tag)
    case None => {}
    case Some(i) => Marks(d, i)
  }

  function AllMarks(d: Desc, rs: seq<Rec>): set<nat> {
    set r, k | r in rs && k in RecMarks(d, r) :: k
  }

  /** A record outside the struct, or with its storage present. */
  predicate Placeable(d: Desc, r: Rec, cells: Cells) {
    && (MatchesTerminator(d, r.tag) ==> Dec32(r.p).Some?)
    && (SlotOf(d, r).Some? ==> SlotOf(d, r).value in cells)
  }

  /** Each slot evolves on its own. */
  ghost predicate Slotwise(d: Desc, rs: seq<Rec>, st: State, next: State) {
    && next.cells.Keys == st.cells.Keys
    && (forall a :: a in st.cells ==> FoldCell(d, Project(d, rs, a), st.cells[a]) == Some(next.cells[a]))
    && next.seen == st.seen + AllMarks(d, rs)
    && next.fixed == st.fixed
    && (forall r :: r in rs ==> Placeable(d, r, st.cells))
  }

  lemma ApplyOne(d: Desc, r: Rec, st: State)
    requires NoFixedCount(d)
    ensures Placeable(d, r, st.cells) && SlotOf(d, r).None? ==> Apply(d, r.tag, r.wt, r.p, st) == Some(st)
    ensures Placeable(d, r, st.cells) && SlotOf(d, r).Some? ==>
              var a := SlotOf(d, r).value;
              Apply(d, r.tag, r.wt, r.p, st) ==
                match ApplyCell(d, r, st.cells[a])
                case None => None
                case Some(c) => Some(State(st.cells[a := c], st.seen + RecMarks(d, r), st.fixed))
    ensures !Placeable(d, r, st.cells) ==> Apply(d, r.tag, r.wt, r.p, st).None?
    ensures Apply(d, r.tag, r.wt, r.p, st).Some? ==>
              Placeable(d, r, st.cells) && Apply(d, r.tag, r.wt, r.p, st).value.cells.Keys == st.cells.Keys
    ensures Placeable(d, r, st.cells) && SlotOf(d, r).Some? ==> SlotOf(d, r).value in st.cells
  {
    hide ApplyField;
  }

  lemma AllMarksStep(d: Desc, rs: seq<Rec>)
    requires rs != []
    ensures AllMarks(d, rs) == RecMarks(d, rs[0]) + AllMarks(d, rs[1..])
  {
    assert forall r :: r in rs <==> r == rs[0] || r in rs[1..];
  }

  /** The first record is the slot's own, or another slot's. */
  lemma FoldStep(d: Desc, rs: seq<Rec>, a: nat, c: Cell)
    requires rs != []
    ensures FoldCell(d, Project(d, rs, a), c) ==
              if SlotOf(d, rs[0]) != Some(a) then FoldCell(d, Project(d, rs[1..], a), c)
              else
                match ApplyCell(d, rs[0], c)
                case None => None
                case Some(c') => FoldCell(d, Project(d, rs[1..], a), c')
  {
    hide ApplyCell, SlotOf;
    if SlotOf(d, rs[0]) == Some(a) {
      assert Project(d, rs, a)[1..] == Project(d, rs[1..], a);
    } else {
      assert Project(d, rs, a) == Project(d, rs[1..], a);
    }
  }

  lemma PlaceableSame(d: Desc, r: Rec, cells: Cells, cells': Cells)
    requires cells.Keys == cells'.Keys
    ensures Placeable(d, r, cells) == Placeable(d, r, cells')
  {
    hide SlotOf;
  }

  /** Success means that each slot evolves on its own. */
  lemma {:induction false} ApplyAllSlotwise(d: Desc, rs: seq<Rec>, st: State)
    requires DescOk(d) && NoFixedCount(d) && ApplyAll(d, rs, st).Some?
    ensures Slotwise(d, rs, st, ApplyAll(d, rs, st).value)
    decreases |rs|
  {
    hide DescOk, Apply, ApplyCell, RecMarks, FoldCell, Project, Placeable, AllMarks, SlotOf;
    if rs == [] {
      NothingApplied(d);
    } else {
      var r := rs[0];
      ApplyOne(d, r, st);
      var mid := Apply(d, r.tag, r.wt, r.p, st).value;
      ApplyAllSlotwise(d, rs[1..], mid);
      AllMarksStep(d, rs);
      var next := ApplyAll(d, rs, st).value;
      MarksOutside(d, r);
      forall r' | r' in rs ensures Placeable(d, r', st.cells) {
        PlaceableSame(d, r', st.cells, mid.cells);
      }
      forall a | a in st.cells
        ensures FoldCell(d, Project(d, rs, a), st.cells[a]) == Some(next.cells[a])
      {
        FoldStep(d, rs, a, st.cells[a]);
        assert FoldCell(d, Project(d, rs[1..], a), mid.cells[a]) == Some(next.cells[a]);
      }
    }
  }

  lemma NothingApplied(d: Desc)
    ensures forall a, c :: FoldCell(d, Project(d, [], a), c) == Some(c)
    ensures AllMarks(d, []) == {}
  {
  }

  lemma MarksOutside(d: Desc, r: Rec)
    ensures SlotOf(d, r).None? ==> RecMarks(d, r) == {}
  {
  }

  /** If every slot can take its records, all records can be applied. */
  lemma {:induction false} SlotsSucceed(d: Desc, rs: seq<Rec>, st: State)
    requires NoFixedCount(d)
    requires forall r :: r in rs ==> Placeable(d, r, st.cells)
    requires forall a :: a in st.cells ==> FoldCell(d, Project(d, rs, a), st.cells[a]).Some?
    ensures ApplyAll(d, rs, st).Some?
    decreases |rs|
  {
    hide Apply, ApplyCell, Find, RecMarks;
    if rs != [] {
      var r := rs[0];
      assert Placeable(d, r, st.cells);
      ApplyOne(d, r, st);
      if SlotOf(d, r).Some? {
        var a := SlotOf(d, r).value;
        assert Project(d, rs, a)[0] == r;
      }
      var mid := Apply(d, r.tag, r.wt, r.p, st).value;
      forall r' | r' in rs[1..] ensures Placeable(d, r', mid.cells) {
        assert r' in rs;
      }
      forall a | a in mid.cells ensures FoldCell(d, Project(d, rs[1..], a), mid.cells[a]).Some? {
        if SlotOf(d, r) == Some(a) {
          assert Project(d, rs, a)[1..] == Project(d, rs[1..], a);
        } else {
          assert Project(d, rs, a) == Project(d, rs[1..], a);
        }
      }
      SlotsSucceed(d, rs[1..], mid);
    }
  }

  /** `rs'` is `rs` in another order that keeps the order within every slot. */
  ghost predicate Reordered(d: Desc, rs: seq<Rec>, rs': seq<Rec>) {
    && multiset(rs) == multiset(rs')
    && forall a :: Project(d, rs, a) == Project(d, rs', a)
  }

  lemma ApplyAllReordered(d: Desc, rs: seq<Rec>, rs': seq<Rec>, st: State)
    requires DescOk(d) && NoFixedCount(d) && Reordered(d, rs, rs') && ApplyAll(d, rs, st).Some?
    ensures ApplyAll(d, rs', st) == ApplyAll(d, rs, st)
  {
    hide DescOk, ApplyCell, Find, RecMarks, Placeable, ApplyAll, FoldCell, Project;
    ApplyAllSlotwise(d, rs, st);
    assert forall r :: r in rs' ==> r in multiset(rs');
    assert forall r :: r in rs ==> r in multiset(rs);
    assert forall r :: r in rs' <==> r in rs;
    SlotsSucceed(d, rs', st);
    ApplyAllSlotwise(d, rs', st);
    var x, y := ApplyAll(d, rs, st).value, ApplyAll(d, rs', st).value;
    assert AllMarks(d, rs) == AllMarks(d, rs');
    assert x.cells == y.cells by {
      forall a | a in x.cells ensures x.cells[a] == y.cells[a] {
        assert Project(d, rs, a) == Project(d, rs', a);
      }
    }
  }

  /**
   * Field order does not matter: any reordering that keeps the order of records of one
   * field and of one oneof is decoded with the same outcome, success or failure.
   */
  lemma OrderIndependent(d: Desc, rs: seq<Rec>, rs': seq<Rec>, t: bytes, cells: Cells)
    requires DescOk(d) && NoFixedCount(d) && Reordered(d, rs, rs')
    requires forall r :: r in rs ==> RecOk(d, r)
    ensures DecNoinit(d, Bytes(rs) + t, cells) == DecNoinit(d, Bytes(rs') + t, cells)
  {
    hide DescOk, Loop, ApplyAll, RecOk;
    var st := Start(cells);
    forall r | r in rs' ensures RecOk(d, r) {
      assert r in multiset(rs');
      assert r in rs;
    }
    LoopRecords(d, rs, t, st);
    LoopRecords(d, rs', t, st);
    if ApplyAll(d, rs, st).Some? {
      ApplyAllReordered(d, rs, rs', st);
    } else if ApplyAll(d, rs', st).Some? {
      ApplyAllReordered(d, rs', rs, st);
    }
  }

  lemma {:induction false} ProjectAppend(d: Desc, xs: seq<Rec>, ys: seq<Rec>, a: nat)
    ensures Project(d, xs + ys, a) == Project(d, xs, a) + Project(d, ys, a)
  {
    if xs == [] {
      assert xs + ys == ys;
    } else {
      assert (xs + ys)[1..] == xs[1..] + ys;
      ProjectAppend(d, xs[1..], ys, a);
    }
  }

  lemma SwapProjects(d: Desc, xs: seq<Rec>, r: Rec, r': Rec, ys: seq<Rec>, a: nat)
    requires SlotOf(d, r).None? || SlotOf(d, r) != SlotOf(d, r')
    ensures Project(d, xs + [r, r'] + ys, a) == Project(d, xs + [r', r] + ys, a)
  {
    hide SlotOf;
    ProjectAppend(d, xs + [r, r'], ys, a);
    ProjectAppend(d, xs + [r', r], ys, a);
    ProjectAppend(d, xs, [r, r'], a);
    ProjectAppend(d, xs, [r', r], a);
    assert [r, r'][1..] == [r'] && [r', r][1..] == [r] && [r][1..] == [] && [r'][1..] == [];
    assert Project(d, [r, r'], a) == Project(d, [r', r], a);
  }

  /** In particular, neighbouring records of different slots can be swapped. */
  lemma SwapNeighbours(d: Desc, xs: seq<Rec>, r: Rec, r': Rec, ys: seq<Rec>, t: bytes, cells: Cells)
    requires DescOk(d) && NoFixedCount(d)
    requires forall q :: q in xs + [r, r'] + ys ==> RecOk(d, q)
    requires SlotOf(d, r).None? || SlotOf(d, r) != SlotOf(d, r')
    ensures DecNoinit(d, Bytes(xs + [r, r'] + ys) + t, cells)
         == DecNoinit(d, Bytes(xs + [r', r] + ys) + t, cells)
  {
    hide DecNoinit, RecOk, SlotOf, Bytes, Project;
    var rs, rs' := xs + [r, r'] + ys, xs + [r', r] + ys;
    forall a ensures Project(d, rs, a) == Project(d, rs', a) {
      SwapProjects(d, xs, r, r', ys, a);
    }
    assert multiset(rs) == multiset(rs') by {
      assert rs == xs + [r] + [r'] + ys && rs' == xs + [r'] + [r] + ys;
    }
    OrderIndependent(d, rs, rs', t, cells);
  }
}
