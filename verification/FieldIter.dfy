/**
 * pb_field_iter_t: a cyclic walk over a descriptor table which keeps the addresses of the
 * current member and of its has_, _count or which_ member up to date by adding relative
 * offsets.
 */
module FieldIterator {
  import opened Common
  import opened Scalars
  import opened Descriptor

  /** PB_LAST_FIELD. */
  const TERMINATOR: Field :=
    Field(0, Packable(LBool), Required, Static, 0, 0, 0, 0, Null, 0)

  /** Entry `i` of the table with its terminating entry. */
  function Entry(fs: seq<Field>, i: nat): Field {
    if i < |fs| then fs[i] else TERMINATOR
  }

  class FieldIter {
    const start: seq<Field>
    const destStruct: int
    var pos: nat
    var requiredFieldIndex: nat
    var pData: int
    var pSize: int

    /**
     * The table is laid out by the macros and has no inner terminator; the position is on
     * a field, or on the terminator of an empty table; both addresses are the absolute
     * ones, and the index counts the required fields before the position.
     */
    ghost predicate Valid()
      reads this
    {
      && LaidOut(start) && (forall i :: 0 <= i < |start| ==> start[i].tag != 0)
      && (if start == [] then pos == 0 else pos < |start|)
      && pData == destStruct + Entry(start, pos).at
      && pSize == pData + Entry(start, pos).sizeOffset
      && requiredFieldIndex == RequiredBefore(start, pos)
    }

    function Field(): Field
      reads this
    {
      Entry(start, pos)
    }

    /** pb_field_iter_begin. */
    constructor Begin(fields: seq<Field>, destStruct: int)
      requires LaidOut(fields) && forall i :: 0 <= i < |fields| ==> fields[i].tag != 0
      ensures Valid() && start == fields && this.destStruct == destStruct && pos == 0
    {
      start := fields;
      this.destStruct := destStruct;
      pos := 0;
      requiredFieldIndex := 0;
      pData := destStruct + Entry(fields, 0).dataOffset;
      pSize := destStruct + Entry(fields, 0).dataOffset + Entry(fields, 0).sizeOffset;
    }

    /** pb_field_iter_begin on an existing iterator. */
    method Rewind() returns (nonEmpty: bool)
      requires LaidOut(start) && forall i :: 0 <= i < |start| ==> start[i].tag != 0
      modifies this
      ensures Valid() && pos == 0 && nonEmpty == (start != [])
    {
      pos := 0;
      requiredFieldIndex := 0;
      pData := destStruct + Entry(start, pos).dataOffset;
      pSize := pData + Entry(start, pos).sizeOffset;
      nonEmpty := Entry(start, pos).tag != 0;
    }

    /** pb_field_iter_next: the next field, or back to the first one with result false. */
    method Next() returns (more: bool)
      requires Valid()
      modifies this
      ensures Valid()
      ensures more == (old(pos) + 1 < |start|)
      ensures pos == if more then old(pos) + 1 else 0
    {
      var prev := Entry(start, pos);
      if prev.tag == 0 {
        return false;
      }
      pos := pos + 1;
      var f := Entry(start, pos);
      if f.tag == 0 {
        var nonEmpty := Rewind();
        return false;
      }
      assert UnionPlaced(start[pos - 1], start[pos]) || OtherPlaced(start[pos - 1], start[pos]);
      var prevSize := prev.dataSize;
      if prev.htype.Oneof? && f.htype.Oneof? && f.dataOffset == PB_SIZE_MAX {
        return true;
      } else if prev.atype.Static? && prev.htype.Repeated? {
        prevSize := prevSize * prev.arraySize;
      } else if prev.atype.Pointer? {
        prevSize := POINTER_SIZE;
      }
      if prev.htype.Required? {
        requiredFieldIndex := requiredFieldIndex + 1;
      }
      pData := pData + prevSize + f.dataOffset;
      pSize := pData + f.sizeOffset;
      return true;
    }

    /**
     * pb_field_iter_find: from any position, stop at the next field with the tag; without
     * one, end up where the search started. The terminator of an empty table has tag 0.
     */
    method Find(tag: nat) returns (found: bool)
      requires Valid()
      modifies this
      ensures Valid()
      ensures found <==> Field().tag == tag
      ensures found <==> (exists i :: 0 <= i < |start| && start[i].tag == tag) || (start == [] && tag == 0)
      ensures !found ==> pos == old(pos) && pData == old(pData) && pSize == old(pSize)
      ensures found && old(pos) <= pos ==> forall i :: old(pos) <= i < pos ==> start[i].tag != tag
      ensures found && pos < old(pos) ==>
                && (forall i :: old(pos) <= i < |start| ==> start[i].tag != tag)
                && (forall i :: 0 <= i < pos ==> start[i].tag != tag)
    {
      var first := pos;
      ghost var wrapped := false;
      while true
        invariant Valid()
        invariant if wrapped then 0 <= pos < first else first <= pos
        invariant forall i :: first <= i < |start| && (wrapped || i < pos) ==> start[i].tag != tag
        invariant wrapped ==> forall i :: 0 <= i < pos ==> start[i].tag != tag
        decreases !wrapped, |start| - pos
      {
        if Field().tag == tag {
          return true;
        }
        var more := Next();
        if !more {
          wrapped := true;
        }
        if pos == first {
          break;
        }
      }
      return false;
    }
  }
}
