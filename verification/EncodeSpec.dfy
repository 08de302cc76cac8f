/** The bytes pb_encode writes for a struct, as a function of descriptor and memory. */
module EncodeSpec {
  import opened Common
  import opened Varint
  import opened Scalars
  import opened Descriptor

  /** `(field_number << 3) | wiretype`, as a varint. */
  function TagBytes(tag: nat, wt: nat): bytes {
    Enc(8 * tag + wt)
  }

  function Delimited(b: bytes): bytes {
    Enc(|b|) + b
  }

  /** The content of a character array up to its terminator. */
  function CString(b: bytes): (s: bytes)
    ensures s <= b && 0 !in s
    ensures |s| < |b| ==> b[|s|] == 0
  {
    if b == [] || b[0] == 0 then [] else [b[0]] + CString(b[1..])
  }

  /** strnlen: the terminator is looked for in the first `max` bytes only. */
  function StringContent(b: bytes, max: nat): bytes {
    if |CString(b)| <= max then CString(b) else b[..max]
  }

  function Concat(a: Option<bytes>, b: Option<bytes>): Option<bytes> {
    if a.Some? && b.Some? then Some(a.value + b.value) else None
  }

  /** One value with its length prefix, if any; None where the encoder reports an error. */
  function EncValue(f: Field, v: Value): Option<bytes>
    decreases f, 0
  {
    match f.ltype
    case Packable(sc) => if v.Int? then EncScalar(sc, f.dataSize, v.n) else None
    case LBytes =>
      if v.Blob? && |v.b| + BYTES_OFFSET <= f.dataSize then Some(Delimited(v.b)) else None
    case LString => if v.Blob? then Some(Delimited(StringContent(v.b, f.dataSize))) else None
    case LFixedLengthBytes => if v.Blob? && |v.b| == f.dataSize then Some(Delimited(v.b)) else None
    case LSubmessage =>
      if v.Sub? && f.ptr.Submsg? then
        match EncFrom(f.ptr.d, 0, v.cells)
        case None => None
        case Some(b) => Some(Delimited(b))
      else None
  }

  function EncRecord(f: Field, v: Value): Option<bytes>
    decreases f, 1
  {
    Concat(Some(TagBytes(f.tag, WireType(f.ltype))), EncValue(f, v))
  }

  /** The payload of a packed array. */
  function EncItems(f: Field, items: seq<Value>): Option<bytes>
    decreases f, 1, |items|
  {
    if items == [] then Some([]) else Concat(EncValue(f, items[0]), EncItems(f, items[1..]))
  }

  function EncRecords(f: Field, items: seq<Value>): Option<bytes>
    decreases f, 2, |items|
  {
    if items == [] then Some([]) else Concat(EncRecord(f, items[0]), EncRecords(f, items[1..]))
  }

  /** encode_array: packed whenever the type allows it. */
  function EncArray(f: Field, items: seq<Value>): Option<bytes>
    decreases f, 3
  {
    if items == [] then Some([])
    else if |items| > f.arraySize then None
    else if f.ltype.Packable? then
      match EncItems(f, items)
      case None => None
      case Some(b) => Some(TagBytes(f.tag, WT_STRING) + Delimited(b))
    else EncRecords(f, items)
  }

  /** pb_check_proto3_default_value: is there nothing to transmit in this member? */
  predicate IsDefault(f: Field, c: Cell)
    decreases f, 1
  {
    match f.htype
    case Required => false
    case Repeated => f.sizeOffset != 0 && c.Counted? && c.items == []
    case Oneof => c.Union? && c.which == 0
    case Optional =>
      if f.sizeOffset != 0 then c.Flagged? && !c.has else c.Single? && IsDefaultValue(f, c.v)
  }

  predicate IsDefaultValue(f: Field, v: Value)
    decreases f, 0
  {
    match f.ltype
    case Packable(_) => v == Int(0)
    case LBytes => v.Blob? && v.b == []
    case LString => v.Blob? && (v.b == [] || v.b[0] == 0)
    case LFixedLengthBytes => f.dataSize == 0
    case LSubmessage => v.Sub? && f.ptr.Submsg? && AllDefault(f.ptr.d, 0, v.cells)
  }

  predicate AllDefault(d: Desc, i: nat, cells: Cells)
    requires i <= |d.fields|
    decreases d, |d.fields| - i
  {
    i == |d.fields| ||
    (&& d.fields[i].at in cells
     && IsDefault(d.fields[i], cells[d.fields[i].at])
     && AllDefault(d, i + 1, cells))
  }

  /** encode_basic_field. A cell of the wrong shape has no encoding. */
  function EncField(f: Field, c: Cell): Option<bytes>
    decreases f, 4
  {
    if !Fits(f, c) then None
    else
      match f.htype
      case Required => EncRecord(f, c.v)
      case Optional =>
        if (if f.sizeOffset != 0 then c.has else !IsDefault(f, c)) then EncRecord(f, c.v) else Some([])
      case Repeated => EncArray(f, c.items)
      case Oneof => if c.which == f.tag then EncRecord(f, c.v) else Some([])
  }

  /** pb_encode, for the fields from `i` on. */
  function EncFrom(d: Desc, i: nat, cells: Cells): Option<bytes>
    requires i <= |d.fields|
    decreases d, |d.fields| - i
  {
    if i == |d.fields| then Some([])
    else if d.fields[i].at !in cells then None
    else Concat(EncField(d.fields[i], cells[d.fields[i].at]), EncFrom(d, i + 1, cells))
  }

  function EncMessage(d: Desc, cells: Cells): Option<bytes> {
    EncFrom(d, 0, cells)
  }
}
