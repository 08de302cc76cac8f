/**
 * Field descriptors, the struct memory they describe, and the layout the descriptor
 * macros produce.
 */
module Descriptor {
  import opened Common
  import opened Bits
  import opened Scalars

  /** Data types; the scalar ones are the packable ones. */
  datatype LType =
    | Packable(scalar: Scalar)
    | LBytes
    | LString
    | LSubmessage
    | LFixedLengthBytes

  datatype HType = Required | Optional | Repeated | Oneof

  datatype AType = Static | Pointer | Callback

  /** The `ptr` member: NULL, a default value, or the fields of a submessage. */
  datatype Ptr = Null | Default(v: Value) | Submsg(d: Desc)

  /**
   * One entry of a descriptor table. `dataOffset` and `sizeOffset` are the relative
   * offsets stored in the table; `at` is the absolute offset of the struct member the
   * macro was given, which the table does not store.
   */
  datatype Field = Field(
    tag: nat,
    ltype: LType,
    htype: HType,
    atype: AType,
    dataOffset: nat,
    sizeOffset: int,
    dataSize: nat,
    arraySize: nat,
    ptr: Ptr,
    at: nat)

  /** A table without its terminating entry. */
  datatype Desc = Desc(fields: seq<Field>)

  /** The content of one storage slot. `Garbage` is storage nothing has initialised. */
  datatype Value =
    | Int(n: int)
    | Blob(b: bytes)
    | Sub(cells: Cells)
    | Garbage

  /** What a struct holds at the offset of a field, with its has_, _count or which_ member. */
  datatype Cell =
    | Single(v: Value)                  // required, or optional without has_
    | Flagged(has: bool, v: Value)      // optional with has_
    | Counted(items: seq<Value>)        // repeated: the first _count entries
    | Fixed(items: seq<Value>)          // repeated without _count: the whole array
    | Union(which: nat, v: Value)       // oneof: v is meaningful when which != 0

  /** Struct memory, by absolute member offset. */
  type Cells = map<nat, Cell>

  const PB_MAX_REQUIRED_FIELDS: nat := 64

  type PointerSize = n: nat | n == 2 || n == 4 || n == 8 witness 8

  /** sizeof(void*), left unconstrained like PB_SIZE_MAX. */
  const POINTER_SIZE: PointerSize

  /** sizeof(pb_size_t). */
  const COUNTER_SIZE: nat :=
    if PB_SIZE_MAX == 0xFF then 1 else if PB_SIZE_MAX == 0xFFFF then 2 else 4

  /** offsetof(pb_bytes_array_t, bytes): the bytes follow a `pb_size_t`. */
  const BYTES_OFFSET: nat := COUNTER_SIZE

  /** The counter has as many bytes as its largest value needs. */
  lemma CounterHoldsSizes()
    ensures Pow2(8 * COUNTER_SIZE) == PB_SIZE_MAX + 1 && BYTES_OFFSET == COUNTER_SIZE
  {
    Pow2Values();
    assert Pow2(8) == 256;
    Pow2Add(8, 8);
  }

  // ---- wire types ----

  const WT_VARINT: nat := 0
  const WT_64BIT: nat := 1
  const WT_STRING: nat := 2
  const WT_32BIT: nat := 5

  function WireType(lt: LType): nat {
    match lt
    case Packable(LFixed32) => WT_32BIT
    case Packable(LFixed64) => WT_64BIT
    case Packable(_) => WT_VARINT
    case _ => WT_STRING
  }

  // ---- lookup ----

  function FindFrom(fs: seq<Field>, tag: nat, i: nat): (r: Option<nat>)
    requires i <= |fs|
    ensures r.Some? ==> i <= r.value < |fs| && fs[r.value].tag == tag
    ensures r.None? ==> forall k :: i <= k < |fs| ==> fs[k].tag != tag
    decreases |fs| - i
  {
    if i == |fs| then None else if fs[i].tag == tag then Some(i) else FindFrom(fs, tag, i + 1)
  }

  function Find(d: Desc, tag: nat): (r: Option<nat>)
    ensures r.Some? ==> r.value < |d.fields| && d.fields[r.value].tag == tag
    ensures r.None? ==> forall k :: 0 <= k < |d.fields| ==> d.fields[k].tag != tag
  {
    FindFrom(d.fields, tag, 0)
  }

  /** Number of required fields among the first `i`. */
  function RequiredBefore(fs: seq<Field>, i: nat): (n: nat)
    requires i <= |fs|
    ensures n <= i
  {
    if i == 0 then 0 else RequiredBefore(fs, i - 1) + if fs[i - 1].htype.Required? then 1 else 0
  }

  /** The required field with index `k` among the required fields. */
  lemma {:induction false} RequiredAt(fs: seq<Field>, i: nat, k: nat) returns (j: nat)
    requires i <= |fs| && k < RequiredBefore(fs, i)
    ensures j < i && fs[j].htype.Required? && RequiredBefore(fs, j) == k
  {
    if RequiredBefore(fs, i - 1) == k {
      j := i - 1;
    } else {
      j := RequiredAt(fs, i - 1, k);
    }
  }

  // ---- layout ----

  /** sizeof the struct member of `f`. */
  function MemberSize(f: Field): nat {
    if f.atype.Pointer? then POINTER_SIZE
    else if f.atype.Static? && f.htype.Repeated? then f.dataSize * f.arraySize
    else f.dataSize
  }

  /** A field placed with PB_DATAOFFSET_UNION after `prev`: a further member of its union. */
  predicate UnionPlaced(prev: Field, f: Field) {
    && prev.htype.Oneof? && f.htype.Oneof?
    && f.dataOffset == PB_SIZE_MAX
    && f.at == prev.at && f.sizeOffset == prev.sizeOffset
  }

  /** A field placed with PB_DATAOFFSET_OTHER: the offset counts from the end of `prev`. */
  predicate OtherPlaced(prev: Field, f: Field) {
    && f.at == prev.at + MemberSize(prev) + f.dataOffset
    && !(prev.htype.Oneof? && f.htype.Oneof? && f.dataOffset == PB_SIZE_MAX)
  }

  /** The offsets are those the placement macros compute. */
  ghost predicate LaidOut(fs: seq<Field>) {
    && (fs != [] ==> fs[0].dataOffset == fs[0].at)
    && (forall i :: 0 <= i < |fs| ==> MemberSize(fs[i]) > 0)
    && (forall i :: 0 < i < |fs| ==> UnionPlaced(fs[i - 1], fs[i]) || OtherPlaced(fs[i - 1], fs[i]))
  }

  /**
   * Fields i <= j of a laid-out table: offsets ascend, a member ends before the next one
   * starts, and only oneof members share an offset.
   */
  lemma {:induction false} OffsetsAscend(fs: seq<Field>, i: nat, j: nat)
    requires LaidOut(fs) && i <= j < |fs|
    ensures fs[i].at <= fs[j].at
    ensures i < j && fs[i].at == fs[j].at ==>
              fs[i].htype.Oneof? && fs[j].htype.Oneof? && fs[i].sizeOffset == fs[j].sizeOffset
    ensures i < j && !fs[i].htype.Oneof? ==>
              fs[i].at + (if fs[i].atype.Pointer? then POINTER_SIZE
                          else if fs[i].atype.Static? && fs[i].htype.Repeated? then fs[i].dataSize * fs[i].arraySize
                          else fs[i].dataSize) <= fs[j].at
  {
    if i < j {
      OffsetsAscend(fs, i, j - 1);
      assert UnionPlaced(fs[j - 1], fs[j]) || OtherPlaced(fs[j - 1], fs[j]);
    }
  }

  // ---- kinds of field ----

  predicate IsSingular(f: Field) {
    f.htype.Optional? && f.sizeOffset == 0
  }

  predicate IsFixedCount(f: Field) {
    f.htype.Repeated? && f.sizeOffset == 0
  }

  /** The shape of the cell a field uses. */
  predicate Fits(f: Field, c: Cell) {
    match f.htype
    case Required => c.Single?
    case Optional => if f.sizeOffset == 0 then c.Single? else c.Flagged?
    case Repeated => if f.sizeOffset == 0 then c.Fixed? && |c.items| == f.arraySize else c.Counted?
    case Oneof => c.Union?
  }

  // ---- well-formed descriptors ----

  predicate SizeOk(f: Field) {
    match f.ltype
    case Packable(LBool) => f.dataSize == 1
    case Packable(LFixed32) => f.dataSize == 4
    case Packable(LFixed64) => f.dataSize == 8
    case Packable(_) => IntegerSize(f.dataSize)
    case LBytes => BYTES_OFFSET < f.dataSize
    case _ => 0 < f.dataSize
  }

  /** Is there room for a counter in the member? Without one, a zero is written there all the same. */
  predicate HoldsCounter(f: Field) {
    COUNTER_SIZE <= f.dataSize * f.arraySize
  }

  /** A single entry as the macros for statically allocated fields produce it. */
  predicate FieldOk(f: Field) {
    && f.atype.Static?
    && 1 <= f.tag < 0x2000_0000 && f.tag <= PB_SIZE_MAX
    && SizeOk(f) && f.dataSize <= PB_SIZE_MAX
    && (f.htype.Repeated? ==> 0 < f.arraySize <= PB_SIZE_MAX)
    && (IsFixedCount(f) ==> HoldsCounter(f))
    && (f.htype.Required? ==> f.sizeOffset == 0)
    && (f.htype.Oneof? ==> f.sizeOffset != 0)
    && (f.ltype.LSubmessage? <==> f.ptr.Submsg?)
    && (IsSingular(f) && !f.ltype.LSubmessage? ==> f.ptr.Null?)
  }

  ghost predicate UniqueTags(fs: seq<Field>) {
    forall i, j :: 0 <= i < j < |fs| ==> fs[i].tag != fs[j].tag
  }

  /** A table of statically allocated fields, and all tables it refers to. */
  ghost predicate DescOk(d: Desc)
    decreases d
  {
    && LaidOut(d.fields)
    && UniqueTags(d.fields)
    && forall i :: 0 <= i < |d.fields| ==>
         FieldOk(d.fields[i]) && (d.fields[i].ptr.Submsg? ==> DescOk(d.fields[i].ptr.d))
  }

  lemma FindUnique(d: Desc, i: nat)
    requires UniqueTags(d.fields) && i < |d.fields|
    ensures Find(d, d.fields[i].tag) == Some(i)
  {
    var k := Find(d, d.fields[i].tag).value;
    assert k == i || k < i || i < k;
  }

  lemma DescFacts(d: Desc)
    requires DescOk(d)
    ensures UniqueTags(d.fields) && LaidOut(d.fields)
    ensures forall i :: 0 <= i < |d.fields| ==>
              && d.fields[i].tag != 0
              && FieldOk(d.fields[i]) && (d.fields[i].ptr.Submsg? ==> DescOk(d.fields[i].ptr.d))
  {
    assert forall i :: 0 <= i < |d.fields| ==> FieldOk(d.fields[i]);
  }

  // ---- initial values ----

  /** All-zero storage for one item of `f`. */
  function ZeroValue(f: Field): Value
    decreases f, 0
  {
    match f.ltype
    case Packable(_) => Int(0)
    case LBytes => Blob([])
    case LString => Blob([])
    case LFixedLengthBytes => Blob(seq(f.dataSize, _ => 0))
    case LSubmessage => if f.ptr.Submsg? then Sub(ZeroFrom(f.ptr.d, 0, map[])) else Garbage
  }

  function ZeroCell(f: Field): Cell
    decreases f, 1
  {
    match f.htype
    case Required => Single(ZeroValue(f))
    case Optional => if f.sizeOffset == 0 then Single(ZeroValue(f)) else Flagged(false, ZeroValue(f))
    case Repeated => if f.sizeOffset == 0 then Fixed(Copies(ZeroValue(f), f.arraySize)) else Counted([])
    case Oneof => Union(0, Garbage)
  }

  /** memset(struct, 0, ...), for the fields from `i` on. */
  function ZeroFrom(d: Desc, i: nat, cells: Cells): Cells
    requires i <= |d.fields|
    decreases d, |d.fields| - i
  {
    if i == |d.fields| then cells
    else ZeroFrom(d, i + 1, cells[d.fields[i].at := ZeroCell(d.fields[i])])
  }

  function Copies(v: Value, n: nat): (s: seq<Value>)
    ensures |s| == n && forall i :: 0 <= i < n ==> s[i] == v
  {
    if n == 0 then [] else [v] + Copies(v, n - 1)
  }

  /** Storage for one item of `f` whose first `z` bytes are zero, the others uninitialised. */
  function Cleared(f: Field, z: int): Value
    decreases f, 0
  {
    match f.ltype
    case Packable(_) => if z >= f.dataSize then Int(0) else Garbage
    case LBytes => if z >= BYTES_OFFSET then Blob([]) else Garbage
    case LString => if z >= 1 then Blob([]) else Garbage
    case LFixedLengthBytes => if z >= f.dataSize then Blob(seq(f.dataSize, _ => 0)) else Garbage
    case LSubmessage => if f.ptr.Submsg? then Sub(ClearedFrom(f.ptr.d, z, 0, map[])) else Garbage
  }

  /** An array of `n` items of `f` whose first `z` bytes are zero. */
  function ClearedArray(f: Field, z: int, n: nat): (s: seq<Value>)
    ensures |s| == n
    decreases f, 1, n
  {
    if n == 0 then [] else [Cleared(f, z)] + ClearedArray(f, z - f.dataSize, n - 1)
  }

  function ClearedItems(f: Field, z: int): (s: seq<Value>)
    ensures |s| == f.arraySize
    decreases f, 2
  {
    ClearedArray(f, z, f.arraySize)
  }

  /**
   * The member of `f` in a struct whose first `z` bytes are zero. None when its has_, _count
   * or which_ member is uninitialised.
   */
  function ClearedCell(f: Field, z: int): Option<Cell>
    decreases f, 3
  {
    match f.htype
    case Required => Some(Single(Cleared(f, z - f.at)))
    case Optional =>
      if f.sizeOffset == 0 then Some(Single(Cleared(f, z - f.at)))
      else if z >= f.at + f.sizeOffset + 1 then Some(Flagged(false, Cleared(f, z - f.at)))
      else None
    case Repeated =>
      if f.sizeOffset == 0 then Some(Fixed(ClearedItems(f, z - f.at)))
      else if z >= f.at + f.sizeOffset + COUNTER_SIZE then Some(Counted([]))
      else None
    case Oneof => if z >= f.at + f.sizeOffset + COUNTER_SIZE then Some(Union(0, Garbage)) else None
  }

  function ClearedFrom(d: Desc, z: int, i: nat, cells: Cells): Cells
    requires i <= |d.fields|
    decreases d, |d.fields| - i
  {
    if i == |d.fields| then cells
    else
      ClearedFrom(d, z, i + 1,
                  match ClearedCell(d.fields[i], z)
                  case None => cells
                  case Some(c) => cells[d.fields[i].at := c])
  }

  /**
   * The value a non-array field gets. `zeroed` says that the storage was cleared first;
   * otherwise most of a fixed count array inside it is left uninitialised.
   */
  function InitialValue(f: Field, zeroed: bool): Value
    decreases f, 0
  {
    if f.ltype.LSubmessage? then
      if f.ptr.Submsg? then Sub(InitialFrom(f.ptr.d, zeroed, 0, map[])) else Garbage
    else if f.ptr.Default? then f.ptr.v
    else ZeroValue(f)
  }

  /**
   * A fixed count array after pb_field_set_to_default. It has no counter, and the zero
   * written in place of one covers the first bytes of the array itself.
   */
  function InitialItems(f: Field, zeroed: bool): (s: seq<Value>)
    ensures |s| == f.arraySize
  {
    if zeroed then Copies(ZeroValue(f), f.arraySize) else ClearedItems(f, COUNTER_SIZE)
  }

  /** pb_field_set_to_default on one field. */
  function InitialCell(f: Field, zeroed: bool): Cell
    decreases f, 1
  {
    match f.htype
    case Required => Single(InitialValue(f, zeroed))
    case Optional =>
      if f.sizeOffset == 0 then Single(InitialValue(f, zeroed)) else Flagged(false, InitialValue(f, zeroed))
    case Repeated => if f.sizeOffset == 0 then Fixed(InitialItems(f, zeroed)) else Counted([])
    case Oneof => Union(0, Garbage)
  }

  /** pb_message_set_to_defaults, for the fields from `i` on. */
  function InitialFrom(d: Desc, zeroed: bool, i: nat, cells: Cells): Cells
    requires i <= |d.fields|
    decreases d, |d.fields| - i
  {
    if i == |d.fields| then cells
    else InitialFrom(d, zeroed, i + 1, cells[d.fields[i].at := InitialCell(d.fields[i], zeroed)])
  }

  function Initial(d: Desc, zeroed: bool): Cells {
    InitialFrom(d, zeroed, 0, map[])
  }

  /** After initialisation every member holds its initial cell, whatever was there before. */
  lemma {:induction false} InitialAt(d: Desc, zeroed: bool, i: nat, cells: Cells, k: nat)
    requires LaidOut(d.fields) && i <= |d.fields| && k < |d.fields|
    requires k < i ==> d.fields[k].at in cells && cells[d.fields[k].at] == InitialCell(d.fields[k], zeroed)
    ensures var r := InitialFrom(d, zeroed, i, cells);
            d.fields[k].at in r && r[d.fields[k].at] == InitialCell(d.fields[k], zeroed)
    decreases |d.fields| - i
  {
    if i < |d.fields| {
      if k < i {
        OffsetsAscend(d.fields, k, i);
      }
      InitialAt(d, zeroed, i + 1, cells[d.fields[i].at := InitialCell(d.fields[i], zeroed)], k);
    }
  }

  lemma InitialHolds(d: Desc, zeroed: bool)
    requires LaidOut(d.fields)
    ensures forall k :: 0 <= k < |d.fields| ==>
              d.fields[k].at in Initial(d, zeroed)
              && Initial(d, zeroed)[d.fields[k].at] == InitialCell(d.fields[k], zeroed)
  {
    forall k | 0 <= k < |d.fields|
      ensures d.fields[k].at in Initial(d, zeroed)
      ensures Initial(d, zeroed)[d.fields[k].at] == InitialCell(d.fields[k], zeroed)
    {
      InitialAt(d, zeroed, 0, map[], k);
    }
  }

  /** Every offset in the result is the offset of a field, or was there before. */
  lemma {:induction false} InitialKeys(d: Desc, zeroed: bool, i: nat, cells: Cells, cells': Cells)
    requires i <= |d.fields|
    requires forall a :: a in cells.Keys + cells'.Keys ==>
               || (a in cells && a in cells' && cells[a] == cells'[a])
               || exists k :: i <= k < |d.fields| && d.fields[k].at == a
    ensures InitialFrom(d, zeroed, i, cells) == InitialFrom(d, zeroed, i, cells')
    decreases |d.fields| - i
  {
    if i == |d.fields| {
      assert cells == cells';
    } else {
      var f := d.fields[i];
      var c, c' := cells[f.at := InitialCell(f, zeroed)], cells'[f.at := InitialCell(f, zeroed)];
      forall a | a in c.Keys + c'.Keys
        ensures (a in c && a in c' && c[a] == c'[a]) || exists k :: i + 1 <= k < |d.fields| && d.fields[k].at == a
      {
        if a != f.at {
          assert a in cells.Keys + cells'.Keys;
        }
      }
      InitialKeys(d, zeroed, i + 1, c, c');
    }
  }
}
