/**
 * The zero pb_field_set_to_default writes where a counter would be, in the bytes of memory. A
 * fixed count array has no counter, so the zero lands on the array, and behind it if the
 * array is too small. FieldOk excludes that case, as nothing said about separate members
 * holds in it.
 */
module DefaultWrite {
  import opened Common
  import opened Varint
  import opened Varint32
  import opened Scalars
  import opened Descriptor
  import opened DecodeSpec
  import opened Records
  import opened Merging

  /** `*(pb_size_t*)iter->pSize = 0`. */
  function ClearCounter(mem: bytes, pSize: nat): (r: bytes)
    requires pSize + COUNTER_SIZE <= |mem|
    ensures |r| == |mem|
    ensures forall a :: 0 <= a < |mem| ==> r[a] == if pSize <= a < pSize + COUNTER_SIZE then 0 else mem[a]
  {
    mem[..pSize] + seq(COUNTER_SIZE, _ => 0) + mem[pSize + COUNTER_SIZE..]
  }

  /** Nothing but the member of `f` in the struct at `base` differs. */
  ghost predicate OnlyMember(f: Field, base: nat, mem: bytes, mem': bytes) {
    && |mem'| == |mem|
    && forall a :: 0 <= a < |mem| && !(base + f.at <= a < base + f.at + MemberSize(f)) ==> mem'[a] == mem[a]
  }

  /** The write for a fixed count array of the struct at `base`, whatever is in memory. */
  ghost predicate StaysInside(f: Field, base: nat) {
    forall mem: bytes :: base + f.at + COUNTER_SIZE <= |mem| ==>
      OnlyMember(f, base, mem, ClearCounter(mem, base + f.at))
  }

  /** The write leaves other members alone exactly when the array has room for a counter. */
  lemma StaysInsideExactly(f: Field, base: nat)
    requires f.atype.Static? && IsFixedCount(f)
    ensures StaysInside(f, base) <==> HoldsCounter(f)
  {
    hide ClearCounter;
    var end := base + f.at + MemberSize(f);
    if MemberSize(f) < COUNTER_SIZE {
      var mem: bytes := seq(base + f.at + COUNTER_SIZE, _ => 1);
      var mem' := ClearCounter(mem, base + f.at);
      assert mem[end] == 1 && mem'[end] == 0;
      assert !OnlyMember(f, base, mem, mem');
    }
  }

  // ---- at any depth ----

  /** How many structs the member of a submessage field holds. */
  function Entries(f: Field): nat {
    if f.htype.Repeated? then f.arraySize else 1
  }

  function EntryAddress(f: Field, base: nat, k: nat): nat {
    base + f.at + k * f.dataSize
  }

  ghost predicate StaticTables(d: Desc)
    decreases d
  {
    forall i :: 0 <= i < |d.fields| ==>
      && d.fields[i].atype.Static? && Entries(d.fields[i]) > 0
      && (d.fields[i].ptr.Submsg? ==> StaticTables(d.fields[i].ptr.d))
  }

  /** Every such write for the struct at `base` and all structs inside it stays inside its array. */
  ghost predicate AllStayInside(d: Desc, base: nat)
    decreases d
  {
    forall i :: 0 <= i < |d.fields| ==>
      && (IsFixedCount(d.fields[i]) ==> StaysInside(d.fields[i], base))
      && (d.fields[i].ptr.Submsg? ==>
            forall k :: 0 <= k < Entries(d.fields[i]) ==>
              AllStayInside(d.fields[i].ptr.d, EntryAddress(d.fields[i], base, k)))
  }

  /** Every fixed count array has room for a counter. */
  ghost predicate CountersFit(d: Desc)
    decreases d
  {
    forall i :: 0 <= i < |d.fields| ==>
      && (IsFixedCount(d.fields[i]) ==> HoldsCounter(d.fields[i]))
      && (d.fields[i].ptr.Submsg? ==> CountersFit(d.fields[i].ptr.d))
  }

  lemma {:induction false} AllStayInsideExactly(d: Desc, base: nat)
    requires StaticTables(d)
    ensures AllStayInside(d, base) <==> CountersFit(d)
    decreases d
  {
    hide StaysInside, HoldsCounter, EntryAddress;
    forall i | 0 <= i < |d.fields| && IsFixedCount(d.fields[i])
      ensures StaysInside(d.fields[i], base) <==> HoldsCounter(d.fields[i])
    {
      StaysInsideExactly(d.fields[i], base);
    }
    forall i, k | 0 <= i < |d.fields| && d.fields[i].ptr.Submsg? && 0 <= k < Entries(d.fields[i])
      ensures AllStayInside(d.fields[i].ptr.d, EntryAddress(d.fields[i], base, k)) <==> CountersFit(d.fields[i].ptr.d)
    {
      AllStayInsideExactly(d.fields[i].ptr.d, EntryAddress(d.fields[i], base, k));
    }
    if AllStayInside(d, base) {
      forall i | 0 <= i < |d.fields| && d.fields[i].ptr.Submsg? ensures CountersFit(d.fields[i].ptr.d) {
        assert Entries(d.fields[i]) > 0;
        assert AllStayInside(d.fields[i].ptr.d, EntryAddress(d.fields[i], base, 0));
      }
    }
  }

  /** In the tables the theorems are about, no write reaches another member. */
  lemma {:induction false} DescOkStaysInside(d: Desc, base: nat)
    requires DescOk(d)
    ensures StaticTables(d) && AllStayInside(d, base)
    decreases d
  {
    DescOkFits(d);
    AllStayInsideExactly(d, base);
  }

  lemma {:induction false} DescOkFits(d: Desc)
    requires DescOk(d)
    ensures StaticTables(d) && CountersFit(d)
    decreases d
  {
    forall i | 0 <= i < |d.fields|
      ensures FieldOk(d.fields[i])
      ensures d.fields[i].ptr.Submsg? ==> StaticTables(d.fields[i].ptr.d) && CountersFit(d.fields[i].ptr.d)
    {
      if d.fields[i].ptr.Submsg? {
        DescOkFits(d.fields[i].ptr.d);
      }
    }
  }

  // ---- where it does not stay inside ----

  /** `bool a[1]`, without a counter. */
  const A: Field := Field(1, Packable(LBool), Repeated, Static, 0, 0, 1, 1, Null, 0)

  const INNER: Desc := Desc([A])

  /** `pb_size_t r_count; Inner r[1]; uint8_t x;` with a `pb_size_t` of two bytes. */
  const R: Field := Field(1, LSubmessage, Repeated, Static, 2, -2, 1, 1, Submsg(INNER), 2)
  const X: Field := Field(2, Packable(LUVarint), Required, Static, 0, 0, 1, 0, Null, 3)

  const OUTER: Desc := Desc([R, X])

  /** x = 5, and one entry of r. */
  const X_RECORD: Rec := Rec([0x10], 2, WT_VARINT, [0x05])
  const R_RECORD: Rec := Rec([0x0A], 1, WT_STRING, [0x02, 0x08, 0x01])

  /**
   * A table that misses DescOk only because the array in Inner has no room for a counter, and
   * two records whose order decides: the write for r clears byte 3 of the struct, which is x.
   * Read before r, x ends up 0; read after it, 5.
   */
  lemma OverrunDecides(mem: bytes)
    requires PB_SIZE_MAX == 0xFFFF && |mem| == 4
    ensures LaidOut(OUTER.fields) && UniqueTags(OUTER.fields) && FieldOk(R) && FieldOk(X)
    ensures LaidOut(INNER.fields) && UniqueTags(INNER.fields) && !HoldsCounter(A) && !DescOk(OUTER)
    ensures R.at + A.at == 2 && X.at == 3
    ensures ClearCounter(mem[X.at := 5], R.at + A.at)[X.at] == 0
    ensures ClearCounter(mem, R.at + A.at)[X.at := 5][X.at] == 5
  {
  }

  /** With members kept apart, as in the specification, x would be 5 in both orders. */
  lemma ApartNothingDecides()
    requires PB_SIZE_MAX == 0xFFFF
    ensures Bytes([X_RECORD, R_RECORD]) == [0x10, 0x05, 0x0A, 0x02, 0x08, 0x01]
    ensures var r := Dec(OUTER, Bytes([X_RECORD, R_RECORD]));
            r.Some? && X.at in r.value.st.cells && r.value.st.cells[X.at] == Single(Int(5))
    ensures Dec(OUTER, Bytes([R_RECORD, X_RECORD])) == Dec(OUTER, Bytes([X_RECORD, R_RECORD]))
  {
    hide Loop, Apply, Dec32, RecOk, ApplyAll;
    RecordsOk();
    RequiredOfOuter();
    InitialHolds(OUTER, false);
    var st := Start(Initial(OUTER, false));
    var v := EntryDecodes();
    var xDone := State(st.cells[X.at := Single(Int(5))], {0}, NoArray);
    var rDone := State(st.cells[R.at := Counted([v])], {}, NoArray);
    assert {} + {0} == {0};
    ApplyX(st);
    ApplyR(xDone, v);
    ApplyR(st, v);
    ApplyX(rDone);
    var end := State(rDone.cells[X.at := Single(Int(5))], {0}, NoArray);
    assert end == State(xDone.cells[R.at := Counted([v])], {0}, NoArray);
    TwoRecords(OUTER, X_RECORD, R_RECORD, st, xDone, end);
    TwoRecords(OUTER, R_RECORD, X_RECORD, st, rDone, end);
  }

  lemma TwoRecords(d: Desc, r: Rec, r': Rec, st: State, mid: State, end: State)
    requires RecOk(d, r) && RecOk(d, r')
    requires Apply(d, r.tag, r.wt, r.p, st) == Some(mid) && Apply(d, r'.tag, r'.wt, r'.p, mid) == Some(end)
    ensures Bytes([r, r']) == r.h + r.p + r'.h + r'.p
    ensures Loop(d, Bytes([r, r']), st) == Some(Outcome(end, [], false))
  {
    hide Loop, Apply, RecOk;
    var rs := [r, r'];
    assert rs[1..] == [r'] && [r'][1..] == [];
    assert ApplyAll(d, [r'], mid) == Some(end) && ApplyAll(d, rs, st) == ApplyAll(d, [r'], mid);
    LoopRecords(d, rs, [], st);
    assert Bytes([r']) == r'.h + r'.p + [] == r'.h + r'.p;
    assert Bytes(rs) == r.h + r.p + (r'.h + r'.p) && Bytes(rs) + [] == Bytes(rs);
    LoopEmpty(d, end);
  }

  lemma RequiredOfOuter()
    ensures CheckedFields(OUTER) == 1 && SeenBelow(1, {0}) && Marks(OUTER, 0) == {} && Marks(OUTER, 1) == {0}
  {
    assert RequiredBefore(OUTER.fields, 1) == 0 && RequiredBefore(OUTER.fields, 2) == 1;
  }

  lemma RecordsOk()
    ensures RecOk(OUTER, X_RECORD) && RecOk(OUTER, R_RECORD)
    ensures Find(OUTER, 1) == Some(0) && Find(OUTER, 2) == Some(1)
  {
    assert Dec32([0x10]) == Some((0x10, 1)) && Dec32([0x0A]) == Some((0x0A, 1));
    assert First([0x05]) == 0 && Dec32([0x02, 0x08, 0x01]) == Some((2, 1));
    assert FindFrom(OUTER.fields, 2, 1) == Some(1);
  }

  lemma ApplyX(st: State)
    requires X.at in st.cells && st.cells[X.at].Single? && st.fixed.NoArray?
    ensures Apply(OUTER, 2, WT_VARINT, [0x05], st) ==
              Some(State(st.cells[X.at := Single(Int(5))], st.seen + {0}, NoArray))
  {
    hide Dec64;
    RecordsOk();
    RequiredOfOuter();
    FiveDecodes();
  }

  lemma FiveDecodes()
    ensures Dec64([0x05]) == Some((5, 1))
  {
    assert Enc(5) + [] == [0x05];
    Dec64Enc(5, []);
  }

  lemma ApplyR(st: State, v: Value)
    requires R.at in st.cells && st.cells[R.at] == Counted([]) && st.fixed.NoArray?
    requires DecValue(R, [0x02, 0x08, 0x01], Garbage) == Some(v)
    ensures Apply(OUTER, 1, WT_STRING, [0x02, 0x08, 0x01], st) ==
              Some(State(st.cells[R.at := Counted([v])], st.seen, NoArray))
  {
    hide DecValue;
    RecordsOk();
    RequiredOfOuter();
    assert st.seen + {} == st.seen && [] + [v] == [v];
  }

  /** The entry of r: its array receives one bool. */
  lemma EntryDecodes() returns (v: Value)
    ensures DecValue(R, [0x02, 0x08, 0x01], Garbage) == Some(v)
  {
    hide Loop;
    var p: bytes := [0x02, 0x08, 0x01];
    var st := Start(Initial(INNER, false));
    InitialHolds(INNER, false);
    assert Dec32(p) == Some((2, 1)) && p[1..] == [0x08, 0x01];
    assert Dec32([0x08]) == Some((8, 1)) && Dec32([0x01]) == Some((1, 1)) && First([0x01]) == 0;
    assert Find(INNER, 1) == Some(0);
    var c := Fixed([Int(1)]);
    var end := State(st.cells[0 := c], {}, Array(0, 1));
    assert Apply(INNER, 1, WT_VARINT, [0x01], st) == Some(end) by {
      assert st.seen + {} == {};
      assert InitialItems(A, false)[..0] == [] && [] + [Int(1)] == [Int(1)];
      assert [Int(1)] + InitialItems(A, false)[1..] == [Int(1)];
    }
    assert [0x08] + [0x01] + [] == p[1..];
    LoopRecord(INNER, [0x08], 1, WT_VARINT, [0x01], [], st);
    LoopEmpty(INNER, end);
    assert RequiredBefore(INNER.fields, 1) == 0;
    v := Sub(end.cells);
  }
}
