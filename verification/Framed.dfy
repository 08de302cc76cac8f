/** Streams of messages: length-delimited, and terminated by a zero byte. */
module Framed {
  import opened Common
  import opened Varint
  import opened Varint32
  import opened Descriptor
  import opened EncodeSpec
  import opened DecodeSpec
  import opened Messages
  import opened Records
  import opened RoundTrip

  /** pb_encode_delimited. */
  function EncDelimited(d: Desc, m: Cells): Option<bytes> {
    match EncMessage(d, m)
    case None => None
    case Some(b) => Some(Delimited(b))
  }

  /** pb_decode_delimited: the struct, and what is left of the stream. */
  function DecDelimited(d: Desc, s: bytes): Option<(Cells, bytes)> {
    match FrameLen(ByLength, s)
    case None => None
    case Some(k) =>
      match Dec(d, s[Dec32(s).value.1..k])
      case None => None
      case Some(o) => Some((o.st.cells, s[k..]))
  }

  function EncAll(d: Desc, ms: seq<Cells>): Option<bytes> {
    if ms == [] then Some([]) else Concat(EncDelimited(d, ms[0]), EncAll(d, ms[1..]))
  }

  /** `n` calls of pb_decode_delimited. */
  function DecAll(d: Desc, n: nat, s: bytes): Option<(seq<Cells>, bytes)> {
    if n == 0 then Some(([], s))
    else
      match DecDelimited(d, s)
      case None => None
      case Some((m, rest)) =>
        match DecAll(d, n - 1, rest)
        case None => None
        case Some((ms, end)) => Some(([m] + ms, end))
  }

  lemma DelimitedRoundTrip(d: Desc, m: Cells, t: bytes)
    requires DescOk(d) && MsgOk(d, m)
    requires EncMessage(d, m).Some? ==> |EncMessage(d, m).value| < TWO_TO_THE_32
    ensures EncDelimited(d, m).Some?
    ensures var r := DecDelimited(d, EncDelimited(d, m).value + t);
            r.Some? && r.value.1 == t && Same(d, r.value.0, d, m)
  {
    hide Dec, DescOk, MsgOk, Same, EncMessage;
    WholeMessage(d, m);
    var b := EncMessage(d, m).value;
    var s := Delimited(b) + t;
    DelimitedParts(b);
    FramedAppend(ByLength, Delimited(b), t);
    Dec32Enc(|b|, b + t);
    assert Enc(|b|) + (b + t) == s;
    assert s[Dec32(s).value.1..|Delimited(b)|] == b;
    assert s[..|Delimited(b)|] == Delimited(b) && s[|Delimited(b)|..] == t;
  }

  /** The bound on the length is exact: the reader takes lengths as 32-bit numbers. */
  lemma DelimitedTooLong(d: Desc, m: Cells, t: bytes)
    requires EncMessage(d, m).Some? && TWO_TO_THE_32 <= |EncMessage(d, m).value| < TWO_TO_THE_63
    ensures DecDelimited(d, EncDelimited(d, m).value + t) == None
  {
    hide Dec, Dec32, Enc, EncMessage;
    var b := EncMessage(d, m).value;
    Dec32EncTooLarge(|b|, b + t);
    assert Enc(|b|) + (b + t) == Delimited(b) + t;
  }

  /** There are such messages: one member of fixed length bytes, as long as `pb_size_t` allows. */
  lemma LongMessage() returns (d: Desc, m: Cells)
    requires PB_SIZE_MAX == 0xFFFF_FFFF
    ensures DescOk(d) && MsgOk(d, m)
    ensures EncMessage(d, m).Some? && TWO_TO_THE_32 <= |EncMessage(d, m).value| < TWO_TO_THE_63
    ensures DecDelimited(d, EncDelimited(d, m).value) == None
  {
    hide Enc, Dec, Dec32, DecDelimited;
    var f := Field(1, LFixedLengthBytes, Required, Static, 0, 0, PB_SIZE_MAX, 0, Null, 0);
    var b: bytes := seq(PB_SIZE_MAX, _ => 0);
    d, m := Desc([f]), map[0 := Single(Blob(b))];
    assert DescOk(d) by {
      assert LaidOut(d.fields) && UniqueTags(d.fields) && FieldOk(f);
    }
    assert MsgOk(d, m) by {
      assert CellOk(f, m[0]);
    }
    EncLengthBounds(8 * f.tag + WireType(f.ltype));
    EncLengthBounds(|b|);
    var e := TagBytes(f.tag, WireType(f.ltype)) + Delimited(b);
    assert EncRecord(f, Blob(b)) == Some(e);
    assert EncFrom(d, 1, m) == Some([]) && e + [] == e;
    assert EncField(f, m[f.at]) == Some(e);
    assert EncFrom(d, 0, m) == Concat(EncField(f, m[f.at]), EncFrom(d, 1, m));
    assert EncMessage(d, m) == Some(e);
    assert |e| >= 1 + |b|;
    DelimitedTooLong(d, m, []);
    var s := EncDelimited(d, m).value;
    assert s + [] == s;
  }

  /** A sequence of delimited messages is recovered one by one, up to exactly what follows. */
  lemma {:induction false} StreamRoundTrip(d: Desc, ms: seq<Cells>, t: bytes)
    requires DescOk(d)
    requires forall m :: m in ms ==> MsgOk(d, m)
    requires forall m :: m in ms && EncMessage(d, m).Some? ==> |EncMessage(d, m).value| < TWO_TO_THE_32
    ensures EncAll(d, ms).Some?
    ensures var r := DecAll(d, |ms|, EncAll(d, ms).value + t);
            && r.Some? && r.value.1 == t && |r.value.0| == |ms|
            && forall k :: 0 <= k < |ms| ==> Same(d, r.value.0[k], d, ms[k])
    decreases |ms|
  {
    hide DecDelimited, EncDelimited, Same, MsgOk, DescOk, EncMessage;
    if ms == [] {
      assert [] + t == t;
    } else {
      assert forall m :: m in ms[1..] ==> m in ms;
      StreamRoundTrip(d, ms[1..], t);
      var rest := EncAll(d, ms[1..]).value;
      assert ms[0] in ms;
      DelimitedRoundTrip(d, ms[0], rest + t);
      var e := EncDelimited(d, ms[0]).value;
      assert e + rest + t == e + (rest + t);
      var (m, left) := DecDelimited(d, e + (rest + t)).value;
      var (more, end) := DecAll(d, |ms| - 1, rest + t).value;
      forall k | 0 <= k < |ms| ensures Same(d, ([m] + more)[k], d, ms[k]) {
        if k > 0 {
          assert ms[k] == ms[1..][k - 1];
        }
      }
    }
  }

  /** A null-terminated message is recovered, leaving exactly what follows the zero byte. */
  lemma NullTerminatedRoundTrip(d: Desc, m: Cells, t: bytes)
    requires DescOk(d) && MsgOk(d, m)
    requires EncMessage(d, m).Some? ==> |EncMessage(d, m).value| < TWO_TO_THE_32
    ensures EncMessage(d, m).Some?
    ensures var o := Dec(d, EncMessage(d, m).value + [0] + t);
            o.Some? && o.value.zeroTag && o.value.rest == t && Same(d, o.value.st.cells, d, m)
  {
    hide Loop, DescOk, MsgOk, Same, EncFrom;
    OlderReflexive(d);
    FieldsEncode(d, 0, m);
    var b := EncMessage(d, m).value;
    var st := MessageArrives(d, d, m, false, [0] + t);
    assert b + [0] + t == b + ([0] + t);
    LoopCases(d, [0] + t, st);
    assert ([0] + t)[1..] == t;
  }
}
