/** pb_istream_t over a memory buffer, and the readers that advance it. */
module InputStream {
  import opened Common
  import opened Bits
  import opened Varint
  import opened Varint32
  import opened Descriptor
  import opened DecodeSpec

  class IStream {
    const buf: array<byte>
    var pos: nat
    var bytesLeft: nat

    ghost predicate Valid()
      reads this
    {
      pos + bytesLeft <= buf.Length
    }

    /** The bytes that may still be read. */
    ghost function Rest(): (s: bytes)
      requires Valid()
      reads this, buf
      ensures |s| == bytesLeft
    {
      buf[pos..pos + bytesLeft]
    }

    ghost function End(): nat
      reads this
    {
      pos + bytesLeft
    }

    /** pb_istream_from_buffer. */
    constructor FromBuffer(buf: array<byte>, bufsize: nat)
      requires bufsize <= buf.Length
      ensures Valid() && this.buf == buf && pos == 0 && bytesLeft == bufsize
      ensures Rest() == buf[..bufsize]
    {
      this.buf := buf;
      pos := 0;
      bytesLeft := bufsize;
    }

    /** Structure assignment: a second stream on the same buffer. */
    constructor Copy(other: IStream)
      ensures buf == other.buf && pos == other.pos && bytesLeft == other.bytesLeft
    {
      buf := other.buf;
      pos := other.pos;
      bytesLeft := other.bytesLeft;
    }

    /** buf_read: copy `count` bytes to `dest`, or drop them when it is null. */
    method BufRead(dest: array?<byte>, count: nat)
      requires Valid() && count <= bytesLeft
      requires dest != null ==> dest != buf && count <= dest.Length
      modifies this`pos, dest
      ensures pos == old(pos) + count
      ensures dest != null ==> dest[..count] == old(Rest())[..count] && dest[count..] == old(dest[count..])
    {
      var source := pos;
      pos := pos + count;
      if dest != null {
        var i := 0;
        while i < count
          invariant 0 <= i <= count
          invariant dest[..i] == buf[source..source + i]
          invariant dest[i..] == old(dest[i..])
          modifies dest
        {
          dest[i] := buf[source + i];
          i := i + 1;
        }
      }
    }

    /** pb_read. */
    method Read(dest: array?<byte>, count: nat) returns (ok: bool)
      requires Valid()
      requires dest != null ==> dest != buf && count <= dest.Length
      modifies this, dest
      ensures Valid() && End() == old(End()) && pos >= old(pos)
      ensures ok <==> count <= old(bytesLeft)
      ensures ok ==> Rest() == old(Rest())[count..]
      ensures ok && dest != null ==> dest[..count] == old(Rest())[..count]
      ensures dest != null ==> dest[count..] == old(dest[count..])
    {
      if count == 0 {
        return true;
      }
      if bytesLeft < count {
        return false;
      }
      BufRead(dest, count);
      bytesLeft := bytesLeft - count;
      return true;
    }

    /** pb_readbyte. */
    method ReadByte() returns (ok: bool, b: byte)
      requires Valid()
      modifies this
      ensures Valid() && End() == old(End()) && pos >= old(pos)
      ensures ok <==> old(bytesLeft) > 0
      ensures ok ==> b == old(Rest())[0] && Rest() == old(Rest())[1..]
      ensures !ok ==> bytesLeft == 0
    {
      if bytesLeft == 0 {
        return false, 0;
      }
      b := buf[pos];
      pos := pos + 1;
      bytesLeft := bytesLeft - 1;
      ok := true;
    }

    /** pb_decode_varint32_eof. `eof` tells whether the stream was already empty. */
    method DecodeVarint32Eof() returns (ok: bool, value: nat, eof: bool)
      requires Valid()
      modifies this
      ensures Valid() && End() == old(End()) && pos >= old(pos)
      ensures ok <==> Dec32(old(Rest())).Some?
      ensures ok ==> value == Dec32(old(Rest())).value.0
      ensures ok ==> Rest() == old(Rest())[Dec32(old(Rest())).value.1..]
      ensures eof <==> old(bytesLeft) == 0
    {
      ghost var s := Rest();
      eof := false;
      var b;
      ok, b := ReadByte();
      if !ok {
        if bytesLeft == 0 {
          eof := true;
        }
        return false, 0, eof;
      }
      if b < 128 {
        return true, b, eof;
      }
      var bitpos := 7;
      var result := Group(b);
      ghost var i := 1;
      while true
        invariant 1 <= i <= |s| && Valid() && End() == old(End()) && pos >= old(pos) && Rest() == s[i..]
        invariant Dec32(s) == Scan(s, i, bitpos, result)
        decreases |s| - i
      {
        ok, b := ReadByte();
        if !ok {
          return false, 0, eof;
        }
        if bitpos >= 32 {
          var signExtension := if bitpos < 63 then 0xFF else 0x01;
          if Group(b) != 0 && (result < 0x8000_0000 || b != signExtension) {
            return false, 0, eof;
          }
        } else {
          result := OrShl(result, Group(b), bitpos, 32);
        }
        bitpos := NextBitpos(bitpos);
        i := i + 1;
        if b < 128 {
          break;
        }
      }
      if bitpos == 35 && Group(b) >= 16 {
        return false, 0, eof;
      }
      return true, result, eof;
    }

    /** pb_decode_varint32. */
    method DecodeVarint32() returns (ok: bool, value: nat)
      requires Valid()
      modifies this
      ensures Valid() && End() == old(End()) && pos >= old(pos)
      ensures ok <==> Dec32(old(Rest())).Some?
      ensures ok ==> value == Dec32(old(Rest())).value.0
      ensures ok ==> Rest() == old(Rest())[Dec32(old(Rest())).value.1..]
    {
      var eof;
      ok, value, eof := DecodeVarint32Eof();
    }

    /** pb_decode_varint. */
    method DecodeVarint() returns (ok: bool, value: nat)
      requires Valid()
      modifies this
      ensures Valid() && End() == old(End()) && pos >= old(pos)
      ensures ok <==> Dec64(old(Rest())).Some?
      ensures ok ==> value == Dec64(old(Rest())).value.0
      ensures ok ==> Rest() == old(Rest())[Dec64(old(Rest())).value.1..]
    {
      ghost var s := Rest();
      var bitpos := 0;
      var b: byte := 0x80;
      value := 0;
      ghost var i := 0;
      while true
        invariant 0 <= i <= |s| && i <= 10 && bitpos == 7 * i
        invariant Valid() && End() == old(End()) && pos >= old(pos) && Rest() == s[i..]
        invariant forall k :: 0 <= k < i ==> s[k] >= 128
        invariant value == Trunc(Varint.Value(s[..i]), 64)
        decreases |s| - i
      {
        if bitpos >= 64 {
          return false, 0;
        }
        ok, b := ReadByte();
        if !ok {
          return false, 0;
        }
        assert s[..i + 1] == s[..i] + [b];
        GroupStep(s[..i], b, 64);
        value := OrShl(value, Group(b), bitpos, 64);
        bitpos := bitpos + 7;
        i := i + 1;
        if b < 128 {
          break;
        }
      }
      FirstUnique(s, i - 1);
      return true, value;
    }

    /** pb_skip_varint. */
    method SkipVarint() returns (ok: bool)
      requires Valid()
      modifies this
      ensures Valid() && End() == old(End()) && pos >= old(pos)
      ensures ok <==> FrameLen(ByVarint, old(Rest())).Some?
      ensures ok ==> Rest() == old(Rest())[FrameLen(ByVarint, old(Rest())).value..]
    {
      ghost var s := Rest();
      ghost var i := 0;
      var byte := new byte[1](_ => 0);
      while true
        invariant 0 <= i <= |s| && Valid() && End() == old(End()) && pos >= old(pos) && Rest() == s[i..]
        invariant forall k :: 0 <= k < i ==> s[k] >= 128
        invariant fresh(byte) && byte.Length == 1
        decreases |s| - i
      {
        ok := Read(byte, 1);
        if !ok {
          return false;
        }
        assert byte[0] == byte[..1][0] == s[i];
        i := i + 1;
        if byte[0] < 128 {
          break;
        }
      }
      FirstUnique(s, i - 1);
      return true;
    }

    /** pb_skip_string. */
    method SkipString() returns (ok: bool)
      requires Valid()
      modifies this
      ensures Valid() && End() == old(End()) && pos >= old(pos)
      ensures ok <==> FrameLen(ByLength, old(Rest())).Some?
      ensures ok ==> Rest() == old(Rest())[FrameLen(ByLength, old(Rest())).value..]
    {
      var length;
      ok, length := DecodeVarint32();
      if !ok {
        return false;
      }
      ok := Read(null, length);
    }

    /** pb_skip_field. */
    method SkipField(wt: nat) returns (ok: bool)
      requires Valid()
      modifies this
      ensures Valid() && End() == old(End()) && pos >= old(pos)
      ensures ok <==> FrameLen(SkipFraming(wt), old(Rest())).Some?
      ensures ok ==> Rest() == old(Rest())[FrameLen(SkipFraming(wt), old(Rest())).value..]
    {
      if wt == WT_VARINT {
        ok := SkipVarint();
      } else if wt == WT_64BIT {
        ok := Read(null, 8);
      } else if wt == WT_STRING {
        ok := SkipString();
      } else if wt == WT_32BIT {
        ok := Read(null, 4);
      } else {
        ok := false;
      }
    }

    /** pb_decode_tag. The end of a message is either the end of the stream or a zero tag. */
    method DecodeTag() returns (ok: bool, wt: nat, tag: nat, eof: bool)
      requires Valid()
      modifies this
      ensures Valid() && End() == old(End()) && pos >= old(pos)
      ensures ok <==> DecTag(old(Rest())).FieldTag?
      ensures ok ==> tag == DecTag(old(Rest())).tag && wt == DecTag(old(Rest())).wt
      ensures !ok ==> (eof <==> old(bytesLeft) == 0 || DecTag(old(Rest())).EndTag?)
      ensures !DecTag(old(Rest())).BadTag? ==> Rest() == old(Rest())[DecTag(old(Rest())).n..]
    {
      var temp;
      wt, tag := 0, 0;
      ok, temp, eof := DecodeVarint32Eof();
      if !ok {
        return;
      }
      if temp == 0 {
        return false, wt, tag, true;
      }
      tag := temp / 8;
      wt := temp % 8;
    }

    /** pb_make_string_substream. The parent stays in front of the contents until closing. */
    method MakeStringSubstream() returns (ok: bool, sub: IStream)
      requires Valid()
      modifies this
      ensures Valid() && End() <= old(End()) && pos >= old(pos)
      ensures ok <==> FrameLen(ByLength, old(Rest())).Some?
      ensures ok ==> fresh(sub) && sub.Valid() && sub.buf == buf && sub.pos == pos
      ensures ok ==> sub.Rest() == old(Rest())[Dec32(old(Rest())).value.1..FrameLen(ByLength, old(Rest())).value]
      ensures ok ==> sub.End() + bytesLeft == old(End())
      ensures ok ==> sub.bytesLeft < old(bytesLeft)
      ensures ok ==> bytesLeft == old(bytesLeft) - FrameLen(ByLength, old(Rest())).value
    {
      hide Dec32;
      ghost var s := Rest();
      var size;
      ok, size := DecodeVarint32();
      sub := new IStream.Copy(this);
      if !ok {
        return;
      }
      if sub.bytesLeft < size {
        return false, sub;
      }
      sub.bytesLeft := size;
      bytesLeft := bytesLeft - size;
      ghost var n := Dec32(s).value.1;
      assert sub.Rest() == s[n..][..size] == s[n..n + size];
    }

    /** pb_close_string_substream: drop what was not read, and continue behind it. */
    method CloseStringSubstream(sub: IStream) returns (ok: bool)
      requires Valid() && sub != this && sub.Valid() && sub.buf == buf
      requires pos <= sub.pos && sub.End() + bytesLeft <= buf.Length
      modifies this, sub
      ensures Valid() && ok && pos == old(sub.End()) && bytesLeft == old(bytesLeft)
    {
      if sub.bytesLeft > 0 {
        ok := sub.Read(null, sub.bytesLeft);
        if !ok {
          return;
        }
      }
      pos := sub.pos;
      return true;
    }
  }

  /** The length prefix is read alike from the whole stream and from the record alone. */
  lemma LengthPrefixLocal(s: bytes, k: nat)
    requires FrameLen(ByLength, s) == Some(k)
    ensures k <= |s| && Dec32(s[..k]) == Dec32(s)
    ensures Contents(s[..k]) == s[Dec32(s).value.1..k]
  {
    Dec32End(s);
    FirstUnique(s[..k], First(s));
    assert s == s[..k] + s[k..];
    Dec32Local(s[..k], s[k..]);
  }
}
