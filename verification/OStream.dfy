/** pb_ostream_t over a memory buffer or for sizing only, and the writers that advance it. */
module OutputStream {
  import opened Common
  import opened Bits
  import opened Varint
  import opened Scalars
  import opened EncodeSpec

  datatype Snapshot = Snapshot(buffer: Option<bytes>, pos: nat, maxSize: nat, bytesWritten: nat)
  {
    predicate Valid() {
      buffer.Some? ==> bytesWritten <= maxSize && End() <= |buffer.value|
    }

    function End(): int {
      pos + maxSize - bytesWritten
    }

    predicate Room(n: nat) {
      buffer == None || bytesWritten + n <= maxSize
    }
  }

  /**
   * Writing `b` succeeds exactly when there is something to write and it fits. Success
   * appends exactly these bytes and counts them. Nothing before the old position and
   * nothing from the stream's end on ever changes.
   */
  ghost predicate Writes(s: Snapshot, t: Snapshot, b: Option<bytes>, ok: bool)
    requires s.Valid() && t.Valid()
  {
    && t.maxSize == s.maxSize && t.buffer.Some? == s.buffer.Some?
    && (ok <==> b.Some? && s.Room(|b.value|))
    && (ok ==> t.bytesWritten == s.bytesWritten + |b.value|)
    && (s.buffer.Some? ==>
          && t.pos >= s.pos && t.End() == s.End()
          && |t.buffer.value| == |s.buffer.value|
          && t.buffer.value[..s.pos] == s.buffer.value[..s.pos]
          && t.buffer.value[s.End()..] == s.buffer.value[s.End()..]
          && (ok ==>
                && t.pos == s.pos + |b.value|
                && t.buffer.value[..t.pos] == s.buffer.value[..s.pos] + b.value
                && t.buffer.value[t.pos..] == s.buffer.value[t.pos..]))
  }

  /** Writing one thing after another is writing the two together. */
  lemma WritesThen(s: Snapshot, t: Snapshot, u: Snapshot, a: bytes, b: Option<bytes>, ok: bool)
    requires s.Valid() && t.Valid() && u.Valid()
    requires Writes(s, t, Some(a), true) && Writes(t, u, b, ok)
    ensures Writes(s, u, Concat(Some(a), b), ok)
  {
    if s.buffer.Some? {
      var x, y, z := s.buffer.value, t.buffer.value, u.buffer.value;
      assert z[..s.pos] == z[..t.pos][..s.pos] == y[..t.pos][..s.pos] == y[..s.pos];
      if ok {
        assert z[..u.pos] == x[..s.pos] + a + b.value == x[..s.pos] + (a + b.value);
        assert y[u.pos..] == y[t.pos..][u.pos - t.pos..] == x[t.pos..][u.pos - t.pos..] == x[u.pos..];
      }
    }
  }

  lemma WritesNothing(s: Snapshot)
    requires s.Valid()
    ensures Writes(s, s, Some([]), true)
  {
  }

  lemma WritesSomething(s: Snapshot, t: Snapshot, b: Option<bytes>)
    requires s.Valid() && t.Valid() && Writes(s, t, b, true)
    ensures b.Some?
  {
  }

  /** A sizing stream never runs out of room; it only counts. */
  lemma WritesSize(s: Snapshot, t: Snapshot, b: Option<bytes>, ok: bool)
    requires s.Valid() && t.Valid() && s.buffer == None && Writes(s, t, b, ok)
    ensures ok <==> b.Some?
    ensures ok ==> t.bytesWritten == s.bytesWritten + |b.value|
  {
  }

  lemma WritesCount(s: Snapshot, t: Snapshot, b: bytes)
    requires s.Valid() && s.buffer == None
    requires t.buffer == None && t.maxSize == s.maxSize && t.bytesWritten == s.bytesWritten + |b|
    ensures Writes(s, t, Some(b), true)
  {
  }

  lemma WritesFails(s: Snapshot, b: Option<bytes>)
    requires s.Valid() && (b.None? || !s.Room(|b.value|))
    ensures Writes(s, s, b, false)
  {
  }

  /** Where a first part fails, so does the whole. */
  lemma Shortfall(s: Snapshot, t: Snapshot, a: Option<bytes>, b: Option<bytes>)
    requires s.Valid() && t.Valid() && Writes(s, t, a, false)
    ensures Writes(s, t, Concat(a, b), false)
  {
  }

  class OStream {
    /** Null for a sizing stream, whose callback is NULL. */
    const buf: array?<byte>
    var pos: nat
    var maxSize: nat
    var bytesWritten: nat

    ghost predicate Valid()
      reads this
    {
      buf != null ==> bytesWritten <= maxSize && End() <= buf.Length
    }

    /** Where the stream's part of the buffer ends. */
    ghost function End(): int
      reads this
    {
      pos + maxSize - bytesWritten
    }

    /** Can `n` more bytes be written? */
    predicate Room(n: nat)
      reads this
    {
      buf == null || bytesWritten + n <= maxSize
    }

    /** pb_ostream_from_buffer. */
    constructor FromBuffer(buf: array<byte>, bufsize: nat)
      requires bufsize <= buf.Length
      ensures Valid() && this.buf == buf && pos == 0 && maxSize == bufsize && bytesWritten == 0
    {
      this.buf := buf;
      pos := 0;
      maxSize := bufsize;
      bytesWritten := 0;
    }

    /** PB_OSTREAM_SIZING. */
    constructor Sizing()
      ensures Valid() && buf == null && bytesWritten == 0
    {
      buf := null;
      pos := 0;
      maxSize := 0;
      bytesWritten := 0;
    }

    /** The substream of pb_encode_submessage: the same place, room for `size` bytes. */
    constructor Window(other: OStream, size: nat)
      requires other.Valid() && other.buf != null && other.Room(size)
      ensures Valid() && buf == other.buf && pos == other.pos && maxSize == size && bytesWritten == 0
    {
      buf := other.buf;
      pos := other.pos;
      maxSize := size;
      bytesWritten := 0;
    }

    /** The stream and its buffer, as a value. */
    ghost function Now(): Snapshot
      reads this, buf
    {
      Snapshot(if buf == null then None else Some(buf[..]), pos, maxSize, bytesWritten)
    }

    /** What every writer promises: a step of `Writes` between the two states. */
    twostate predicate Wrote(new b: Option<bytes>, ok: bool)
      reads this, buf
    {
      old(Valid()) && Valid() && Writes(old(Now()), Now(), b, ok)
    }

    /** buf_write. */
    method BufWrite(src: bytes)
      requires buf != null && pos + |src| <= buf.Length
      modifies this`pos, buf
      ensures pos == old(pos) + |src|
      ensures buf[..] == old(buf[..pos]) + src + old(buf[..])[pos..]
    {
      var dest := pos;
      pos := dest + |src|;
      var i := 0;
      while i < |src|
        invariant 0 <= i <= |src| && pos == dest + |src|
        invariant buf[..] == old(buf[..dest]) + src[..i] + old(buf[..])[dest + i..]
        modifies buf
      {
        buf[dest + i] := src[i];
        i := i + 1;
      }
    }

    /** pb_write. */
    method Write(src: bytes) returns (ok: bool)
      requires Valid()
      modifies this, buf
      ensures Wrote(Some(src), ok)
    {
      if |src| > 0 && buf != null {
        if bytesWritten + |src| > maxSize {
          return false;
        }
        BufWrite(src);
      }
      bytesWritten := bytesWritten + |src|;
      return true;
    }

    /** pb_write with a null pointer, on a sizing stream. */
    method WriteNothing(count: nat) returns (ok: bool)
      requires buf == null
      modifies this
      ensures ok && bytesWritten == old(bytesWritten) + count && maxSize == old(maxSize)
    {
      bytesWritten := bytesWritten + count;
      return true;
    }

    /** pb_encode_varint. The ten bytes of the local buffer are enough. */
    method EncodeVarint(value: nat) returns (ok: bool)
      requires Valid() && value < TWO_TO_THE_64
      modifies this, buf
      ensures Wrote(Some(Enc(value)), ok)
    {
      if value <= 0x7F {
        ok := Write([value]);
        return;
      }
      EncLengthBounds(value);
      var buffer := new byte[10](_ => 0);
      var i, v := 0, value;
      while v != 0
        invariant 0 <= i <= 10
        invariant v != 0 ==> Enc(value) == buffer[..i] + Enc(v)
        invariant v == 0 ==> i > 0 && buffer[i - 1] >= 128 && Enc(value) == buffer[..i - 1] + [buffer[i - 1] - 128]
        modifies buffer
        decreases v
      {
        buffer[i] := v % 128 + 128;
        ghost var e := Enc(v);
        assert buffer[..i + 1] == buffer[..i] + [v % 128 + 128];
        v := v / 128;
        i := i + 1;
      }
      buffer[i - 1] := buffer[i - 1] - 128;
      assert buffer[..i] == Enc(value);
      ok := Write(buffer[..i]);
    }

    /**
     * pb_encode_negative_varint of the build without 64-bit integers: the 32-bit value of
     * a negative number is written as the 64-bit sign extension would be. The missing 32
     * upper bits are shifted in from the top, seven at a time.
     */
    method EncodeNegativeVarint(value: nat) returns (ok: bool)
      requires Valid() && TWO_TO_THE_31 <= value < TWO_TO_THE_32
      modifies this, buf
      ensures Wrote(Some(Enc(value + 0xFFFF_FFFF_0000_0000)), ok)
    {
      var b := CompensatedBytes(value);
      ok := Write(b);
    }

    /** pb_encode_svarint. */
    method EncodeSvarint(value: int) returns (ok: bool)
      requires Valid() && InSigned(8, value)
      modifies this, buf
      ensures Wrote(Some(Enc(ZigZag(value))), ok)
    {
      ZigZagMeaning(value);
      ok := EncodeVarint(ZigZag(value));
    }

    /** pb_encode_fixed32 and pb_encode_fixed64. */
    method EncodeFixed(value: nat, width: nat) returns (ok: bool)
      requires Valid()
      modifies this, buf
      ensures Wrote(Some(LittleEndian(value, width)), ok)
    {
      ok := Write(LittleEndian(value, width));
    }

    /** pb_encode_tag. */
    method EncodeTag(wt: nat, tag: nat) returns (ok: bool)
      requires Valid() && tag < 0x2000_0000 && wt < 8
      modifies this, buf
      ensures Wrote(Some(TagBytes(tag, wt)), ok)
    {
      ok := EncodeVarint(8 * tag + wt);
    }

    /** pb_encode_string. */
    method EncodeString(b: bytes) returns (ok: bool)
      requires Valid() && |b| < TWO_TO_THE_64
      modifies this, buf
      ensures Wrote(Some(Delimited(b)), ok)
    {
      ok := EncodeVarint(|b|);
      if !ok {
        return;
      }
      ok := Write(b);
    }
  }

  // ---- the compensation loop ----

  /** `0xFFu >> (8 - bits)`. */
  function Ones(bits: nat): nat
    requires bits <= 8
  {
    0xFF / Pow2(8 - bits)
  }

  /** The lowest `bits` bits, set. */
  lemma OnesAreSet(bits: nat)
    requires bits <= 8
    ensures Ones(bits) == Pow2(bits) - 1
    ensures Ones(4) == 0xF && Ones(7) == 0x7F
  {
    assert Pow2(1) == 2 && Pow2(2) == 4 && Pow2(3) == 8 && Pow2(4) == 16;
    assert Pow2(5) == 32 && Pow2(6) == 64 && Pow2(7) == 128 && Pow2(8) == 256;
  }

  /** `v` with the `compensation` bits above bit 31 set. */
  function Extended(v: nat, compensation: nat): nat {
    v + (Upper(compensation) - 1) * 0x1_0000_0000
  }

  function Upper(compensation: nat): (n: nat)
    ensures n > 0
  {
    if compensation == 32 then 0x1_0000_0000
    else if compensation == 25 then 0x200_0000
    else if compensation == 18 then 0x4_0000
    else if compensation == 11 then 0x800
    else if compensation == 4 then 0x10
    else 1
  }

  /** The loop of pb_encode_negative_varint on its local buffer. */
  method CompensatedBytes(value: nat) returns (b: bytes)
    requires TWO_TO_THE_31 <= value < TWO_TO_THE_32
    ensures b == Enc(value + 0xFFFF_FFFF_0000_0000)
  {
    hide Enc, Extended, NextWord;
    ghost var whole := value + 0xFFFF_FFFF_0000_0000;
    EncLengthBounds(whole);
    WholeIsExtended(value);
    var buffer := new byte[10](_ => 0);
    var i, v: nat, compensation: nat := 0, value, 32;
    while v != 0
      invariant 0 <= i <= 10 && v < TWO_TO_THE_32 && |Enc(whole)| <= 10
      invariant compensation in {32, 25, 18, 11, 4, 0} && (compensation > 0 ==> v != 0)
      invariant v != 0 ==> Enc(whole) == buffer[..i] + Enc(Extended(v, compensation))
      invariant v == 0 ==> i > 0 && buffer[i - 1] >= 128 && Enc(whole) == buffer[..i - 1] + [buffer[i - 1] - 128]
      decreases compensation, v
    {
      ExtendedStep(v, compensation);
      buffer[i] := v % 128 + 128;
      assert buffer[..i + 1] == buffer[..i] + [v % 128 + 128];
      v := NextWord(v, compensation);
      compensation := if compensation > 7 then compensation - 7 else 0;
      i := i + 1;
    }
    buffer[i - 1] := buffer[i - 1] - 128;
    b := buffer[..i];
  }

  lemma WholeIsExtended(v: nat)
    requires v < TWO_TO_THE_32
    ensures Extended(v, 32) == v + 0xFFFF_FFFF_0000_0000
  {
  }

  /**
   * The 32-bit word after one round of the loop: `value >>= 7`, then the next missing bits
   * are xor-ed in from bit 25 on, as long as some are left to compensate.
   */
  function NextWord(v: nat, compensation: nat): nat {
    if compensation == 0 then v / 128
    else XorShl(v / 128, Ones(if compensation > 7 then 7 else compensation), 25, 32)
  }

  /** One round: seven bits of the extended value are taken off. */
  lemma ExtendedStep(v: nat, compensation: nat)
    requires 0 < v < TWO_TO_THE_32 && compensation in {32, 25, 18, 11, 4, 0}
    ensures var next := NextWord(v, compensation);
            var left := if compensation > 7 then compensation - 7 else 0;
            && next < TWO_TO_THE_32 && (left > 0 ==> next != 0)
            && (compensation == 0 ==> next < v)
            && (next != 0 ==> Enc(Extended(v, compensation)) == [v % 128 + 128] + Enc(Extended(next, left)))
            && (next == 0 ==> Enc(Extended(v, compensation)) == [v % 128])
            && Enc(Extended(v, compensation)) != []
  {
    hide XorShl, Extended, Ones, Pow2, Enc;
    EncTail(Extended(v, compensation));
    if compensation > 0 {
      OnesAreSet(7);
      var bits := if compensation > 7 then 7 else compensation;
      MissingBits(v / 128, bits);
      ExtendedShift(v, compensation, bits);
    } else {
      NothingExtended(v);
      NothingExtended(v / 128);
    }
  }

  lemma NothingExtended(v: nat)
    ensures Extended(v, 0) == v
  {
  }

  lemma ExtendedShift(v: nat, compensation: nat, bits: nat)
    requires 0 < v < TWO_TO_THE_32 && compensation in {32, 25, 18, 11, 4}
    requires bits == if compensation > 7 then 7 else compensation
    ensures Extended(v, compensation) % 128 == v % 128 && Extended(v, compensation) >= 128
    ensures Extended(v, compensation) / 128 == Extended(v / 128 + Ones(bits) * 0x200_0000, compensation - bits)
  {
    hide Ones;
    OnesAreSet(7);
    assert Extended(v, compensation) == v + 128 * ((Upper(compensation) - 1) * 0x200_0000);
  }

  lemma MissingBits(v: nat, bits: nat)
    requires v < 0x200_0000 && (bits == 7 || bits == 4)
    ensures XorShl(v, Ones(bits), 25, 32) == v + Ones(bits) * 0x200_0000 < TWO_TO_THE_32
  {
    assert Pow2(25) == 0x200_0000 by {
      assert Pow2(5) == 32;
      Pow2Add(5, 5);
      Pow2Add(10, 10);
      Pow2Add(20, 5);
    }
    Pow2Values();
    OnesAreSet(7);
    XorAbove(v, Ones(bits), 25, 32);
  }
}
