/**
 * What pb_decode makes of a byte string. Each record is first framed, which only looks
 * at its bytes and the descriptor, and then applied to the struct.
 */
module DecodeSpec {
  import opened Common
  import opened Varint
  import opened Varint32
  import opened Scalars
  import opened Descriptor

  // ---- tags and framing ----

  /** Outcome of pb_decode_tag: an error, the terminating zero, or a tag of `n` bytes. */
  datatype TagResult = BadTag | EndTag(n: nat) | FieldTag(tag: nat, wt: nat, n: nat)

  function DecTag(s: bytes): (r: TagResult)
    ensures !r.BadTag? ==> 1 <= r.n <= |s|
  {
    match Dec32(s)
    case None => BadTag
    case Some((v, n)) => if v == 0 then EndTag(n) else FieldTag(v / 8, v % 8, n)
  }

  /** How the length of a record's payload is found. */
  datatype Framing = ByVarint | ByWidth(width: nat) | ByLength | Unframed

  /** pb_skip_field. */
  function SkipFraming(wt: nat): Framing {
    if wt == WT_VARINT then ByVarint
    else if wt == WT_64BIT then ByWidth(8)
    else if wt == WT_STRING then ByLength
    else if wt == WT_32BIT then ByWidth(4)
    else Unframed
  }

  /** One value of the field's type; the wire type is not consulted. */
  function ItemFraming(lt: LType): (fr: Framing)
    ensures fr.ByWidth? ==> fr.width > 0
  {
    match lt
    case Packable(LFixed32) => ByWidth(4)
    case Packable(LFixed64) => ByWidth(8)
    case Packable(_) => ByVarint
    case _ => ByLength
  }

  /** A length-delimited record of a repeated packable field is a packed array. */
  predicate IsPacked(f: Field, wt: nat) {
    f.htype.Repeated? && wt == WT_STRING && f.ltype.Packable?
  }

  /**
   * An empty table's terminating entry matches field number 0: it acts as a bool field
   * stored outside the struct.
   */
  predicate MatchesTerminator(d: Desc, tag: nat) {
    d.fields == [] && tag == 0
  }

  function FramingOf(d: Desc, tag: nat, wt: nat): Framing {
    if MatchesTerminator(d, tag) then ByVarint
    else
      match Find(d, tag)
      case None => SkipFraming(wt)
      case Some(i) => if IsPacked(d.fields[i], wt) then ByLength else ItemFraming(d.fields[i].ltype)
  }

  /** Length of the payload at the front of `s`. */
  function FrameLen(fr: Framing, s: bytes): (r: Option<nat>)
    ensures r.Some? ==> r.value <= |s|
    ensures r.Some? ==> if fr.ByWidth? then r.value == fr.width else 1 <= r.value
  {
    match fr
    case ByVarint => if First(s) < |s| then Some(First(s) + 1) else None
    case ByWidth(w) => if w <= |s| then Some(w) else None
    case ByLength =>
      if Dec32(s).Some? && Dec32(s).value.1 + Dec32(s).value.0 <= |s|
      then Some(Dec32(s).value.1 + Dec32(s).value.0) else None
    case Unframed => None
  }

  /** A length-delimited payload without its length. */
  function Contents(p: bytes): (c: bytes)
    requires Dec32(p).Some?
    ensures |c| < |p|
  {
    p[Dec32(p).value.1..]
  }

  // ---- the state of pb_decode_noinit ----

  /** Progress of the fixed count array being received: its table index and entry count. */
  datatype Progress = NoArray | Array(field: nat, count: nat)

  /** `seen` holds the required-field indices whose bit is set in `fields_seen`. */
  datatype State = State(cells: Cells, seen: set<nat>, fixed: Progress)

  datatype Outcome = Outcome(st: State, rest: bytes, zeroTag: bool)

  /** One value stored over `prev`, or None where the decoder reports an error. */
  function DecValue(f: Field, p: bytes, prev: Value): Option<Value>
    decreases |p|, 1
  {
    match f.ltype
    case Packable(sc) =>
      (match DecScalar(sc, f.dataSize, p)
       case None => None
       case Some(n) => Some(Int(n)))
    case LBytes =>
      if Dec32(p).None? then None
      else
        var c := Contents(p);
        if |c| > PB_SIZE_MAX || |c| + BYTES_OFFSET > f.dataSize then None else Some(Blob(c))
    case LString =>
      if Dec32(p).None? then None
      else if |Contents(p)| + 1 > f.dataSize then None
      else Some(Blob(Contents(p)))
    case LFixedLengthBytes =>
      if Dec32(p).None? then None
      else
        var c := Contents(p);
        if |c| > PB_SIZE_MAX then None
        else if c == [] then Some(Blob(seq(f.dataSize, _ => 0)))
        else if |c| != f.dataSize then None
        else Some(Blob(c))
    case LSubmessage =>
      if Dec32(p).None? || !f.ptr.Submsg? then None
      else
        var start := if f.htype.Repeated? then Sub(Initial(f.ptr.d, false)) else prev;
        if !start.Sub? then None
        else
          match DecNoinit(f.ptr.d, Contents(p), start.cells)
          case None => None
          case Some(o) => Some(Sub(o.st.cells))
  }

  /** Items of a packed array, appended to `items` while there is room. */
  function DecItems(f: Field, c: bytes, items: seq<Value>): (r: Option<seq<Value>>)
    ensures r.Some? ==> items <= r.value
    ensures r.Some? && |items| <= f.arraySize ==> |r.value| <= f.arraySize
    decreases |c|, 2
  {
    if c == [] then Some(items)
    else if |items| >= f.arraySize then None
    else
      match FrameLen(ItemFraming(f.ltype), c)
      case None => None
      case Some(k) =>
        match DecValue(f, c[..k], Garbage)
        case None => None
        case Some(v) => DecItems(f, c[k..], items + [v])
  }

  /** A record of a repeated field, on the entries received so far. */
  function Extend(f: Field, wt: nat, p: bytes, items: seq<Value>): (r: Option<seq<Value>>)
    ensures r.Some? ==> items <= r.value
    ensures r.Some? && |items| <= f.arraySize ==> |r.value| <= f.arraySize
    decreases |p|, 3
  {
    if IsPacked(f, wt) then
      if Dec32(p).None? then None else DecItems(f, Contents(p), items)
    else if |items| >= f.arraySize then None
    else
      match DecValue(f, p, Garbage)
      case None => None
      case Some(v) => Some(items + [v])
  }

  /** decode_static_field. `count` is the progress of a fixed count array. */
  function ApplyField(f: Field, wt: nat, p: bytes, c: Cell, count: nat): Option<(Cell, nat)>
    decreases |p|, 4
  {
    if !Fits(f, c) then None
    else
      match f.htype
      case Required =>
        (match DecValue(f, p, c.v)
         case None => None
         case Some(v) => Some((Single(v), count)))
      case Optional =>
        (match DecValue(f, p, c.v)
         case None => None
         case Some(v) => Some((if f.sizeOffset == 0 then Single(v) else Flagged(true, v), count)))
      case Repeated =>
        if f.sizeOffset == 0 then
          if count > |c.items| then None
          else
            match Extend(f, wt, p, c.items[..count])
            case None => None
            case Some(xs) => Some((Fixed(xs + c.items[|xs|..]), |xs|))
        else
          (match Extend(f, wt, p, c.items)
           case None => None
           case Some(xs) => Some((Counted(xs), count)))
      case Oneof =>
        var start :=
          if f.ltype.LSubmessage? && f.ptr.Submsg? then Sub(Initial(f.ptr.d, true)) else c.v;
        match DecValue(f, p, start)
        case None => None
        case Some(v) => Some((Union(f.tag, v), count))
  }

  /** Progress to use for field `i`: a new fixed count array may only start after a full one. */
  function StartArray(d: Desc, i: nat, fixed: Progress): Option<Progress>
    requires i < |d.fields|
  {
    if !IsFixedCount(d.fields[i]) then Some(fixed)
    else if fixed.Array? && fixed.field == i then Some(fixed)
    else if fixed.Array? && !ArrayDone(d, fixed) then None
    else Some(Array(i, 0))
  }

  predicate ArrayDone(d: Desc, fixed: Progress) {
    fixed.Array? ==> fixed.field < |d.fields| && fixed.count == d.fields[fixed.field].arraySize
  }

  /** The required-field bits set by a record of field `i`. */
  function Marks(d: Desc, i: nat): set<nat>
    requires i < |d.fields|
  {
    if d.fields[i].htype.Required? && RequiredBefore(d.fields, i) < PB_MAX_REQUIRED_FIELDS
    then {RequiredBefore(d.fields, i)} else {}
  }

  /** One framed record. */
  function Apply(d: Desc, tag: nat, wt: nat, p: bytes, st: State): Option<State>
    decreases |p|, 5
  {
    if MatchesTerminator(d, tag) then
      if Dec32(p).Some? then Some(st) else None
    else
      match Find(d, tag)
      case None => Some(st)
      case Some(i) =>
        var f := d.fields[i];
        if f.at !in st.cells then None
        else
          match StartArray(d, i, st.fixed)
          case None => None
          case Some(fixed) =>
            var count := if IsFixedCount(f) then fixed.count else 0;
            match ApplyField(f, wt, p, st.cells[f.at], count)
            case None => None
            case Some((c, count')) =>
              Some(State(
                st.cells[f.at := c],
                st.seen + Marks(d, i),
                if IsFixedCount(f) then Array(i, count') else fixed))
  }

  /** The record loop of pb_decode_noinit. */
  function Loop(d: Desc, s: bytes, st: State): Option<Outcome>
    decreases |s|, 6
  {
    if s == [] then Some(Outcome(st, [], false))
    else
      match DecTag(s)
      case BadTag => None
      case EndTag(n) => Some(Outcome(st, s[n..], true))
      case FieldTag(tag, wt, n) =>
        match FrameLen(FramingOf(d, tag, wt), s[n..])
        case None => None
        case Some(k) =>
          match Apply(d, tag, wt, s[n..n + k], st)
          case None => None
          case Some(st') => Loop(d, s[n + k..], st')
  }

  function Start(cells: Cells): State {
    State(cells, {}, NoArray)
  }

  /** All indices below `n` are marked. */
  predicate SeenBelow(n: nat, seen: set<nat>) {
    n == 0 || (n - 1 in seen && SeenBelow(n - 1, seen))
  }

  /** How many required fields are checked. */
  function CheckedFields(d: Desc): nat {
    var n := RequiredBefore(d.fields, |d.fields|);
    if n > PB_MAX_REQUIRED_FIELDS then PB_MAX_REQUIRED_FIELDS else n
  }

  /** pb_decode_noinit: merge the records of `s` into `cells`. */
  function DecNoinit(d: Desc, s: bytes, cells: Cells): Option<Outcome>
    decreases |s|, 7
  {
    match Loop(d, s, Start(cells))
    case None => None
    case Some(o) =>
      if ArrayDone(d, o.st.fixed) && SeenBelow(CheckedFields(d), o.st.seen) then Some(o) else None
  }

  /** pb_decode: start from default values. */
  function Dec(d: Desc, s: bytes): Option<Outcome> {
    DecNoinit(d, s, Initial(d, false))
  }
}
