/** Records inside a message: a framed record is applied, and the loop goes on behind it. */
module Records {
  import opened Common
  import opened Varint
  import opened Varint32
  import opened Scalars
  import opened Descriptor
  import opened EncodeSpec
  import opened DecodeSpec

  /** `p` is exactly one payload. */
  predicate Framed(fr: Framing, p: bytes) {
    FrameLen(fr, p) == Some(|p|)
  }

  /** `h` is exactly one non-zero tag. */
  predicate IsTag(h: bytes, tag: nat, wt: nat) {
    DecTag(h) == FieldTag(tag, wt, |h|)
  }

  /** Framing looks at the payload's own bytes only. */
  lemma FramedAppend(fr: Framing, p: bytes, t: bytes)
    requires Framed(fr, p)
    ensures FrameLen(fr, p + t) == Some(|p|)
  {
    match fr
    case ByVarint => FirstAppend(p, t);
    case ByWidth(_) =>
    case ByLength =>
      Dec32End(p);
      Dec32Local(p, t);
    case Unframed =>
  }

  lemma TagAppend(h: bytes, tag: nat, wt: nat, t: bytes)
    requires IsTag(h, tag, wt)
    ensures DecTag(h + t) == FieldTag(tag, wt, |h|)
  {
    Dec32End(h);
    Dec32Local(h, t);
  }

  lemma TagRoundTrip(tag: nat, wt: nat)
    requires 1 <= tag < 0x2000_0000 && wt < 8
    ensures IsTag(TagBytes(tag, wt), tag, wt)
  {
    Dec32Enc(8 * tag + wt, []);
    assert TagBytes(tag, wt) + [] == TagBytes(tag, wt);
  }

  /** The tag at the front of `s`, on its own. */
  lemma TagPrefix(s: bytes)
    requires DecTag(s).FieldTag?
    ensures IsTag(s[..DecTag(s).n], DecTag(s).tag, DecTag(s).wt)
  {
    Dec32End(s);
    var n := DecTag(s).n;
    var h, t := s[..n], s[n..];
    assert s == h + t;
    FirstUnique(h, n - 1);
    Dec32Local(h, t);
  }

  /** The payload at the front of `s`, on its own. */
  lemma FramePrefix(fr: Framing, s: bytes)
    requires FrameLen(fr, s).Some?
    ensures Framed(fr, s[..FrameLen(fr, s).value])
  {
    var k := FrameLen(fr, s).value;
    var p, t := s[..k], s[k..];
    assert s == p + t;
    match fr
    case ByVarint => FirstUnique(p, k - 1);
    case ByWidth(_) =>
    case ByLength =>
      Dec32End(s);
      FirstUnique(p, First(s));
      Dec32Local(p, t);
    case Unframed =>
  }

  /** The result of applying one record and continuing with `t`. */
  function Continue(d: Desc, next: Option<State>, t: bytes): Option<Outcome> {
    match next
    case None => None
    case Some(st) => Loop(d, t, st)
  }

  /** One step of the record loop. */
  lemma LoopRecord(d: Desc, h: bytes, tag: nat, wt: nat, p: bytes, t: bytes, st: State)
    requires IsTag(h, tag, wt) && Framed(FramingOf(d, tag, wt), p)
    ensures Loop(d, h + p + t, st) == Continue(d, Apply(d, tag, wt, p, st), t)
  {
    var s := h + p + t;
    assert s == h + (p + t);
    TagAppend(h, tag, wt, p + t);
    assert s[|h|..] == p + t;
    FramedAppend(FramingOf(d, tag, wt), p, t);
    assert s[|h|..|h| + |p|] == p;
    assert s[|h| + |p|..] == t;
  }

  /** A field record at the front of `s`. */
  lemma LoopSplit(d: Desc, s: bytes, st: State) returns (h: bytes, tag: nat, wt: nat, p: bytes, rest: bytes)
    requires s != [] && DecTag(s).FieldTag?
    requires FrameLen(FramingOf(d, DecTag(s).tag, DecTag(s).wt), s[DecTag(s).n..]).Some?
    ensures s == h + p + rest && |rest| < |s|
    ensures IsTag(h, tag, wt) && Framed(FramingOf(d, tag, wt), p)
    ensures Loop(d, s, st) == Continue(d, Apply(d, tag, wt, p, st), rest)
  {
    hide Loop, Apply, Dec32;
    var n := DecTag(s).n;
    tag, wt := DecTag(s).tag, DecTag(s).wt;
    var fr := FramingOf(d, tag, wt);
    var k := FrameLen(fr, s[n..]).value;
    h, p, rest := s[..n], s[n..][..k], s[n..][k..];
    TagPrefix(s);
    FramePrefix(fr, s[n..]);
    assert s == h + p + rest;
    LoopRecord(d, h, tag, wt, p, rest, st);
  }

  /** The loop ends without an error, or there is a record to apply. */
  lemma LoopCases(d: Desc, s: bytes, st: State)
    ensures s == [] ==> Loop(d, s, st) == Some(Outcome(st, [], false))
    ensures s != [] && DecTag(s).EndTag? ==> Loop(d, s, st) == Some(Outcome(st, s[DecTag(s).n..], true))
    ensures s != [] && DecTag(s).BadTag? ==> Loop(d, s, st) == None
    ensures s != [] && DecTag(s).FieldTag?
            && FrameLen(FramingOf(d, DecTag(s).tag, DecTag(s).wt), s[DecTag(s).n..]).None? ==>
              Loop(d, s, st) == None
  {
    hide Apply, DecTag, FrameLen, FramingOf;
  }

  lemma LoopEmpty(d: Desc, st: State)
    ensures Loop(d, [], st) == Some(Outcome(st, [], false))
  {
  }

  /** One turn of the loop, from the stream's point of view. */
  lemma LoopTurn(d: Desc, s: bytes, st: State)
    requires s != [] && DecTag(s).FieldTag?
    ensures var FieldTag(tag, wt, n) := DecTag(s);
            match FrameLen(FramingOf(d, tag, wt), s[n..])
            case None => Loop(d, s, st) == None
            case Some(k) => Loop(d, s, st) == Continue(d, Apply(d, tag, wt, s[n..][..k], st), s[n..][k..])
  {
    hide Apply, Dec32, FrameLen, FramingOf;
    var FieldTag(tag, wt, n) := DecTag(s);
    var k := FrameLen(FramingOf(d, tag, wt), s[n..]);
    if k.Some? {
      assert s[n..n + k.value] == s[n..][..k.value];
      assert s[n + k.value..] == s[n..][k.value..];
    }
  }

  lemma DelimitedParts(b: bytes)
    requires |b| < TWO_TO_THE_32
    ensures Dec32(Delimited(b)).Some? && Contents(Delimited(b)) == b
    ensures Framed(ByLength, Delimited(b))
  {
    Dec32Enc(|b|, b);
  }

  lemma ScalarFramed(sc: Scalar, size: nat, n: int)
    requires EncScalar(sc, size, n).Some?
    ensures Framed(ItemFraming(Packable(sc)), EncScalar(sc, size, n).value)
  {
    match sc
    case LBool => EncComplete(if n != 0 then 1 else 0);
    case LVarint => EncComplete(ToUnsigned64(n));
    case LUVarint => EncComplete(n);
    case LSVarint => EncComplete(ZigZag(n));
    case _ =>
  }

  /** Whatever the encoder writes for a value is framed the way a reader frames it. */
  lemma ValueFramed(f: Field, v: Value)
    requires EncValue(f, v).Some? && |EncValue(f, v).value| < TWO_TO_THE_32
    ensures Framed(ItemFraming(f.ltype), EncValue(f, v).value)
    ensures EncValue(f, v).value != []
  {
    match f.ltype
    case Packable(sc) => ScalarFramed(sc, f.dataSize, v.n);
    case LBytes => DelimitedParts(v.b);
    case LString => DelimitedParts(StringContent(v.b, f.dataSize));
    case LFixedLengthBytes => DelimitedParts(v.b);
    case LSubmessage => DelimitedParts(EncFrom(f.ptr.d, 0, v.cells).value);
  }

  /** A reader that does not know the field skips the same payload. */
  lemma SkipSame(lt: LType)
    ensures SkipFraming(WireType(lt)) == ItemFraming(lt)
  {
  }

  // ---- records without a field ----

  /** Whatever its wire type and payload, a record with this number is skipped. */
  ghost predicate AlwaysSkipped(d: Desc, tag: nat) {
    && (forall wt :: FramingOf(d, tag, wt) == SkipFraming(wt))
    && (forall wt, p, st :: Apply(d, tag, wt, p, st) == Some(st))
  }

  /** Records no field has the number of are skipped, except for number 0 and an empty table. */
  lemma UnknownIsSkipped(d: Desc, tag: nat)
    requires Find(d, tag).None?
    ensures AlwaysSkipped(d, tag) <==> !(d.fields == [] && tag == 0)
  {
    if MatchesTerminator(d, tag) {
      assert FramingOf(d, tag, WT_64BIT) != SkipFraming(WT_64BIT);
    }
  }

  /**
   * The exception at an input: a length-delimited record with number 0 that fills the
   * message. Skipping would consume exactly its two payload bytes; instead the first of them
   * is taken for a bool, and the second for a tag.
   */
  lemma TerminatorMisread()
    ensures DecTag([0x02, 0x01, 0x81]) == FieldTag(0, WT_STRING, 1)
    ensures FrameLen(SkipFraming(WT_STRING), [0x01, 0x81]) == Some(2)
    ensures Dec(Desc([]), [0x02, 0x01, 0x81]) == None
  {
    var s: bytes := [0x02, 0x01, 0x81];
    assert s[1..] == [0x01, 0x81];
    assert Dec32([0x01, 0x81]) == Some((1, 1));
    assert First([0x01, 0x81]) == 0;
    assert [0x01, 0x81][..1] == [0x01] && s[1..][1..] == [0x81] && s[2..] == [0x81];
    assert Dec32([0x81]) == None;
    assert DecTag([0x81]) == BadTag;
    var st := Start(Initial(Desc([]), false));
    assert Loop(Desc([]), [0x81], st) == None;
    LoopTurn(Desc([]), s, st);
  }
}
