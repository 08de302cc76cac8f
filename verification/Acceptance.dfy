/** Which payloads the value decoders accept, by content, and what they store. */
module Acceptance {
  import opened Common
  import opened Bits
  import opened Varint
  import opened Varint32
  import opened Scalars
  import opened Descriptor
  import opened DecodeSpec
  import opened Records
  import PointerSpec

  /**
   * A 64-bit varint ends at its first byte below 128, which must be among the first ten; it
   * stands for the sum of its groups mod 2^64.
   */
  lemma Dec64Accepts(s: bytes, k: nat)
    requires k <= |s| && (forall i :: 0 <= i < k ==> s[i] >= 128) && (k < |s| ==> s[k] < 128)
    ensures Dec64(s).Some? <==> k < |s| && k < 10
    ensures Dec64(s).Some? ==>
              && Dec64(s).value.1 == k + 1 && Dec64(s).value.0 < 0x1_0000_0000_0000_0000
              && SameLow64(Dec64(s).value.0, Varint.Value(s[..k + 1]))
  {
    hide Varint.Value, Trunc;
    Pow2Values();
    if k < |s| {
      FirstUnique(s, k);
      TruncIsRemainder(Varint.Value(s[..k + 1]), 64);
    }
    if Dec64(s).Some? {
      Congruent(Varint.Value(s[..k + 1]), Dec64(s).value.0);
    }
  }

  lemma Congruent(v: nat, r: nat)
    requires exists q: nat :: v == q * 0x1_0000_0000_0000_0000 + r
    ensures SameLow64(r, v)
  {
    var q: nat :| v == q * 0x1_0000_0000_0000_0000 + r;
    var d := 0 - q as int;
    assert r - v == d * 0x1_0000_0000_0000_0000;
  }

  /** Any number but zero is true. */
  lemma BoolAccepted(size: nat, p: bytes)
    ensures DecScalar(LBool, size, p) == if Dec32(p).None? then None else Some(if Dec32(p).value.0 == 0 then 0 else 1)
  {
  }

  /** Strings that leave room for the terminator. */
  lemma StringAccepted(f: Field, c: bytes, prev: Value)
    requires f.ltype.LString? && |c| < 0x1_0000_0000
    ensures DecValue(f, Enc(|c|) + c, prev) == if |c| < f.dataSize then Some(Blob(c)) else None
  {
    hide Enc, Dec32;
    DelimitedParts(c);
  }

  /** Bytes that fit with the length in front of them, and whose length fits it. */
  lemma BytesAccepted(f: Field, c: bytes, prev: Value)
    requires f.ltype.LBytes? && |c| < 0x1_0000_0000
    ensures DecValue(f, Enc(|c|) + c, prev) ==
              if |c| <= PB_SIZE_MAX && |c| + COUNTER_SIZE <= f.dataSize then Some(Blob(c)) else None
  {
    hide Enc, Dec32;
    DelimitedParts(c);
  }

  /** Just the right number of bytes, or none, which stands for zeros. */
  lemma FixedLengthAccepted(f: Field, c: bytes, prev: Value)
    requires f.ltype.LFixedLengthBytes? && 0 < f.dataSize <= PB_SIZE_MAX && |c| < 0x1_0000_0000
    ensures var v := DecValue(f, Enc(|c|) + c, prev);
            if |c| == f.dataSize then v == Some(Blob(c))
            else if c == [] then
              && v.Some? && v.value.Blob? && |v.value.b| == f.dataSize
              && forall k :: 0 <= k < f.dataSize ==> v.value.b[k] == 0
            else v == None
  {
    hide Enc, Dec32;
    DelimitedParts(c);
  }

  /** A submessage is merged into what is there; an array entry starts from default values. */
  lemma SubmessageAccepted(f: Field, c: bytes, prev: Cells)
    requires f.ltype.LSubmessage? && f.ptr.Submsg? && |c| < 0x1_0000_0000
    ensures var o := if f.htype.Repeated? then Dec(f.ptr.d, c) else DecNoinit(f.ptr.d, c, prev);
            DecValue(f, Enc(|c|) + c, Sub(prev)) == if o.None? then None else Some(Sub(o.value.st.cells))
  {
    hide Enc, Dec32, DecNoinit, Initial;
    DelimitedParts(c);
  }

  /** In a block of its own a string may have any length that can be requested with a terminator. */
  lemma PointerBlobAccepted(f: Field, c: bytes)
    requires (f.ltype.LString? || f.ltype.LBytes?) && |c| < 0x1_0000_0000
    ensures PointerSpec.BlobValue(f, Enc(|c|) + c) ==
              if (if f.ltype.LString? then |c| < 0xFFFF_FFFF else |c| <= PB_SIZE_MAX) then Some(Blob(c)) else None
  {
    hide Enc, Dec32;
    DelimitedParts(c);
  }

  /** Four and eight bytes are read as they are. */
  lemma FixedAccepted(size: nat, n: int)
    ensures 0 <= n < 0x1_0000_0000 ==> DecScalar(LFixed32, size, LittleEndian(n, 4)) == Some(n)
    ensures 0 <= n < 0x1_0000_0000_0000_0000 ==> DecScalar(LFixed64, size, LittleEndian(n, 8)) == Some(n)
    ensures forall p: bytes :: |p| < 4 ==> DecScalar(LFixed32, size, p) == None
    ensures forall p: bytes :: |p| < 8 ==> DecScalar(LFixed64, size, p) == None
  {
    hide LittleEndian, FromLittleEndian;
    if 0 <= n < 0x1_0000_0000 {
      ScalarRoundTrip(LFixed32, size, n);
    }
    if 0 <= n < 0x1_0000_0000_0000_0000 {
      ScalarRoundTrip(LFixed64, size, n);
    }
  }
}
