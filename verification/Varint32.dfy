/** The 32-bit varint decoder, with its overflow rules, against the 64-bit one. */
module Varint32 {
  import opened Common
  import opened Bits
  import opened Varint

  /** One byte at bit position `bitpos`: the new accumulator, or None for "varint overflow". */
  function Absorb(b: byte, bitpos: nat, result: nat): Option<nat> {
    if bitpos >= 32 then
      var signExtension := if bitpos < 63 then 0xFF else 0x01;
      if Group(b) != 0 && (result < 0x8000_0000 || b != signExtension) then None
      else Some(result)
    else
      Some(OrShl(result, Group(b), bitpos, 32))
  }

  /** `bitpos` is an 8-bit counter, so it wraps around on very long inputs. */
  function NextBitpos(bitpos: nat): nat {
    if bitpos + 7 < 256 then bitpos + 7 else bitpos + 7 - 256
  }

  /** The multibyte loop from byte `i` on. */
  function Scan(s: bytes, i: nat, bitpos: nat, result: nat): (r: Option<(nat, nat)>)
    ensures r.Some? ==> i < r.value.1 <= |s|
    decreases |s| - i
  {
    if i >= |s| then None
    else
      match Absorb(s[i], bitpos, result)
      case None => None
      case Some(r) =>
        var bp := NextBitpos(bitpos);
        if s[i] >= 128 then Scan(s, i + 1, bp, r)
        else if bp == 35 && Group(s[i]) >= 16 then None
        else Some((r, i + 1))
  }

  /** Value and length of the varint at the front of `s`, as the 32-bit decoder reads it. */
  function Dec32(s: bytes): (r: Option<(nat, nat)>)
    ensures r.Some? ==> 1 <= r.value.1 <= |s|
  {
    if s == [] then None
    else if s[0] < 128 then Some((s[0], 1))
    else Scan(s, 1, 7, Group(s[0]))
  }

  lemma {:induction false} ScanEnd(s: bytes, i: nat, bitpos: nat, result: nat)
    requires i <= |s| && forall k :: 0 <= k < i ==> s[k] >= 128
    ensures Scan(s, i, bitpos, result).Some? ==>
              First(s) < |s| && Scan(s, i, bitpos, result).value.1 == First(s) + 1
    decreases |s| - i
  {
    if i < |s| {
      var a := Absorb(s[i], bitpos, result);
      if s[i] < 128 {
        FirstUnique(s, i);
      } else if a.Some? {
        ScanEnd(s, i + 1, NextBitpos(bitpos), a.value);
      }
    }
  }

  /** Success consumes exactly up to and including the first byte with a clear top bit. */
  lemma Dec32End(s: bytes)
    ensures Dec32(s).Some? ==> First(s) < |s| && Dec32(s).value.1 == First(s) + 1
  {
    if s != [] && s[0] >= 128 {
      ScanEnd(s, 1, 7, Group(s[0]));
    }
  }

  lemma {:induction false} ScanBound(s: bytes, i: nat, bitpos: nat, result: nat)
    requires result < TWO_TO_THE_32
    ensures Scan(s, i, bitpos, result).Some? ==> Scan(s, i, bitpos, result).value.0 < TWO_TO_THE_32
    decreases |s| - i
  {
    if i < |s| {
      var a := Absorb(s[i], bitpos, result);
      if a.Some? {
        if bitpos < 32 {
          Pow2Values();
          OrShlBound(result, Group(s[i]), bitpos, 32);
        }
        ScanBound(s, i + 1, NextBitpos(bitpos), a.value);
      }
    }
  }

  lemma Dec32Bound(s: bytes)
    ensures Dec32(s).Some? ==> Dec32(s).value.0 < TWO_TO_THE_32
  {
    if s != [] && s[0] >= 128 {
      ScanBound(s, 1, 7, Group(s[0]));
    }
  }

  lemma {:induction false} ScanLocal(s: bytes, t: bytes, i: nat, bitpos: nat, result: nat)
    requires i <= |s| && forall k :: 0 <= k < i ==> s[k] >= 128
    requires First(s) < |s|
    ensures Scan(s + t, i, bitpos, result) == Scan(s, i, bitpos, result)
    decreases |s| - i
  {
    if i < |s| {
      var a := Absorb(s[i], bitpos, result);
      if s[i] >= 128 && a.Some? {
        ScanLocal(s, t, i + 1, NextBitpos(bitpos), a.value);
      }
    }
  }

  /** The 32-bit decoder looks at its own bytes only. */
  lemma Dec32Local(s: bytes, t: bytes)
    requires First(s) < |s|
    ensures Dec32(s + t) == Dec32(s)
  {
    if s[0] >= 128 {
      ScanLocal(s, t, 1, 7, Group(s[0]));
    }
  }

  // ---- agreement with the 64-bit decoder ----

  /** The low 32 bits of the groups in `s`. */
  function Low(s: bytes): nat {
    Trunc(Value(s), 32)
  }

  /** From the sixth group on, a group lies above the low 32 bits. */
  lemma HighGroupsVanish(s: bytes, b: byte)
    requires |s| >= 5
    ensures Low(s + [b]) == Low(s)
  {
    ValueAppend(s, b);
    Pow2Add(32, 7 * |s| - 32);
    MulRearrange(Group(b), Pow2(32), Pow2(7 * |s| - 32));
    TruncAdd(Value(s), Group(b) * Pow2(7 * |s| - 32), 32);
  }

  lemma MulRearrange(a: nat, b: nat, c: nat)
    ensures a * (b * c) == (a * c) * b
  {
    assert a * (b * c) == a * (c * b) == (a * c) * b;
  }

  /** The accumulator after the first `i` bytes, when no overflow is reported. */
  function LowAt(s: bytes, i: nat): nat
    requires 1 <= i <= |s|
  {
    if i == 1 then Group(s[0])
    else if i <= 5 then OrShl(LowAt(s, i - 1), Group(s[i - 1]), 7 * (i - 1), 32)
    else LowAt(s, i - 1)
  }

  lemma {:induction false} LowAtIsLow(s: bytes, i: nat)
    requires 1 <= i <= |s|
    ensures LowAt(s, i) == Low(s[..i])
  {
    if i == 1 {
      FirstByte(s);
    } else {
      LowAtIsLow(s, i - 1);
      assert s[..i] == s[..i - 1] + [s[i - 1]];
      if i <= 5 {
        GroupStep(s[..i - 1], s[i - 1], 32);
      } else {
        HighGroupsVanish(s[..i - 1], s[i - 1]);
      }
    }
  }

  lemma FirstByte(s: bytes)
    requires s != []
    ensures Low(s[..1]) == Group(s[0])
  {
    assert s[..1] == [s[0]];
    assert Value(s[..1]) == Group(s[0]) + 128 * Value([]);
    Pow2Values();
  }

  lemma {:induction false} ScanAgrees(s: bytes, i: nat)
    requires 1 <= i <= |s| && First(s) < 10 && i <= First(s) + 1
    requires forall k :: 0 <= k < i ==> s[k] >= 128
    ensures var r := Scan(s, i, 7 * i, LowAt(s, i));
            r.Some? ==> First(s) < |s| && r.value.0 == LowAt(s, First(s) + 1)
    decreases |s| - i
  {
    if i < |s| {
      var a := Absorb(s[i], 7 * i, LowAt(s, i));
      if a.Some? {
        assert a.value == LowAt(s, i + 1);
        if s[i] < 128 {
          FirstUnique(s, i);
        } else {
          ScanAgrees(s, i + 1);
        }
      }
    }
  }

  lemma Dec32LowAt(s: bytes)
    requires Dec32(s).Some? && First(s) < 10
    ensures First(s) < |s| && Dec32(s) == Some((LowAt(s, First(s) + 1), First(s) + 1))
  {
    Dec32End(s);
    if First(s) > 0 {
      ScanAgrees(s, 1);
    }
  }

  lemma Dec32Value(s: bytes)
    requires Dec32(s).Some? && First(s) < 10
    ensures First(s) < |s| && Dec32(s) == Some((Low(s[..First(s) + 1]), First(s) + 1))
  {
    Dec32LowAt(s);
    LowAtIsLow(s, First(s) + 1);
  }

  /**
   * Whenever the 32-bit decoder succeeds, it consumes n bytes; the 64-bit decoder then
   * succeeds exactly when n <= 10, consuming the same bytes, with a value equal mod 2^32.
   */
  lemma Dec32AgreesWithDec64(s: bytes)
    ensures Dec32(s).Some? ==>
              var (v, n) := Dec32(s).value;
              && (Dec64(s).Some? <==> n <= 10)
              && (Dec64(s).Some? ==> Dec64(s).value.1 == n && Trunc(Dec64(s).value.0, 32) == v)
  {
    if Dec32(s).Some? {
      Dec32End(s);
      var n := First(s) + 1;
      if n <= 10 {
        Dec32Value(s);
        TruncTwice(Value(s[..n]), 64, 32);
      }
    }
  }

  // ---- where the 8-bit position wraps around ----

  /** Bytes 2 to 37 with empty groups change nothing but the position, which then is 3. */
  lemma {:induction false} EmptyGroups(s: bytes, i: nat, result: nat)
    requires 1 <= i <= 37 < |s| && forall k :: 1 <= k < 37 ==> s[k] == 0x80
    requires result < TWO_TO_THE_32
    ensures Scan(s, i, if i == 37 then 3 else 7 * i, result) == Scan(s, 37, 3, result)
    decreases 37 - i
  {
    if i < 37 {
      if i < 5 {
        NothingAdded(result, 7 * i);
      }
      EmptyGroups(s, i + 1, result);
    }
  }

  lemma NothingAdded(a: nat, k: nat)
    requires a < TWO_TO_THE_32
    ensures OrShl(a, 0, k, 32) == a
  {
    Pow2Values();
    OrZero(a, k, 32);
    TruncIsRemainder(a, 32);
  }

  lemma {:induction false} OrZero(a: nat, k: nat, w: nat)
    ensures OrShl(a, 0, k, w) == Trunc(a, w)
  {
    if w > 0 {
      OrZero(a, k, w - 1);
      TruncStep(a, w - 1);
    } else {
      TruncIsRemainder(a, 0);
    }
  }

  /** The bit position of byte `i`, counted in 8 bits. */
  function Position(i: nat): nat {
    if i == 0 then 0 else NextBitpos(Position(i - 1))
  }

  lemma {:induction false} PositionIsProduct(i: nat)
    requires i <= 36
    ensures Position(i) == 7 * i
  {
    if i > 0 {
      PositionIsProduct(i - 1);
    }
  }

  /** It is 7 * i mod 256. */
  lemma {:induction false} PositionMeaning(i: nat) returns (turns: nat)
    ensures Position(i) < 256 && 7 * i == 256 * turns + Position(i)
  {
    turns := 0;
    if i > 0 {
      turns := PositionMeaning(i - 1);
      turns := if Position(i - 1) + 7 < 256 then turns else turns + 1;
    }
  }

  /** Does the group, shifted, have a bit below 2^32 that `a` has not? */
  ghost predicate AddsBit(a: nat, g: nat, k: nat) {
    exists j :: k <= j < 32 && Bit(g, j - k) && !Bit(a, j)
  }

  /** An or never loses anything, and gains something exactly when there is a new bit. */
  lemma {:induction false} OrGrows(a: nat, g: nat, k: nat, w: nat)
    ensures OrShl(a, g, k, w) >= Trunc(a, w)
    ensures OrShl(a, g, k, w) == Trunc(a, w) <==> forall j :: k <= j < w && Bit(g, j - k) ==> Bit(a, j)
  {
    if w == 0 {
      TruncIsRemainder(a, 0);
    } else {
      OrGrows(a, g, k, w - 1);
      TruncStep(a, w - 1);
    }
  }

  lemma OrAddsBit(a: nat, g: nat, k: nat)
    requires a < TWO_TO_THE_32
    ensures a <= OrShl(a, g, k, 32) < TWO_TO_THE_32
    ensures OrShl(a, g, k, 32) == a <==> !AddsBit(a, g, k)
  {
    hide Pow2, OrShl, Trunc, Bit;
    Pow2Values();
    OrGrows(a, g, k, 32);
    OrShlBound(a, g, k, 32);
    TruncWord(a);
  }

  lemma TruncWord(a: nat)
    requires a < TWO_TO_THE_32
    ensures Trunc(a, 32) == a
  {
    Pow2Values();
  }

  /** From byte `i` on, the accumulator stays as it is exactly when no group adds a bit. */
  lemma {:induction false} ScanKeeps(s: bytes, i: nat, result: nat)
    requires i <= First(s) < |s| && result < TWO_TO_THE_32
    ensures var r := Scan(s, i, Position(i), result);
            r.Some? ==>
              && r.value.0 >= result
              && (r.value.0 == result <==>
                    forall k :: i <= k <= First(s) && Position(k) < 32 ==> !AddsBit(result, Group(s[k]), Position(k)))
    decreases |s| - i
  {
    hide AddsBit, OrShl;
    var a := Absorb(s[i], Position(i), result);
    var i' := i + 1;
    assert Position(i') == NextBitpos(Position(i));
    OrAddsBit(result, Group(s[i]), Position(i));
    if a.Some? && i < First(s) {
      assert s[i] >= 128;
      ScanKeeps(s, i', a.value);
    }
  }

  lemma {:induction false} LowAtFive(s: bytes, n: nat)
    requires 5 <= n <= |s|
    ensures LowAt(s, n) == LowAt(s, 5)
  {
    if n > 5 {
      LowAtFive(s, n - 1);
    }
  }

  lemma {:induction false} LowAtBound(s: bytes, i: nat)
    requires 1 <= i <= |s|
    ensures LowAt(s, i) < TWO_TO_THE_32
  {
    Pow2Values();
    if i > 1 {
      LowAtBound(s, i - 1);
      OrShlBound(LowAt(s, i - 1), Group(s[i - 1]), 7 * (i - 1), 32);
    }
  }

  /**
   * Whatever its length, a varint the decoder accepts is read as the sum of its groups mod
   * 2^32 exactly when no group behind the fifth, shifted by its wrapped position, has a bit
   * that the sum has not.
   */
  lemma Dec32Exact(s: bytes)
    requires Dec32(s).Some?
    ensures First(s) < |s| && Dec32(s).value.1 == First(s) + 1
    ensures var sum := Low(s[..First(s) + 1]);
            Dec32(s).value.0 == sum <==>
              forall k :: 5 <= k <= First(s) && Position(k) < 32 ==> !AddsBit(sum, Group(s[k]), Position(k))
  {
    hide AddsBit, Low, Dec32;
    Dec32End(s);
    if First(s) < 10 {
      Dec32Value(s);
      forall k | 5 <= k <= First(s) ensures Position(k) >= 32 {
        PositionIsProduct(k);
      }
    } else {
      Dec32FromFive(s);
      LowAtIsLow(s, First(s) + 1);
      LowAtFive(s, First(s) + 1);
      LowAtBound(s, 5);
      ScanKeeps(s, 5, LowAt(s, 5));
    }
  }

  lemma Dec32FromFive(s: bytes)
    requires 5 <= First(s) < |s|
    ensures Dec32(s) == Scan(s, 5, Position(5), LowAt(s, 5))
  {
    PositionIsProduct(5);
    ScanLow(s, 1);
  }

  /** In particular up to 37 bytes; `PositionWraps` has 38. */
  lemma Dec32UpTo37(s: bytes)
    requires Dec32(s).Some? && First(s) < 37
    ensures First(s) < |s|
    ensures Dec32(s) == Some((Low(s[..First(s) + 1]), First(s) + 1))
  {
    hide AddsBit, Low, Dec32;
    Dec32Exact(s);
    forall k | 5 <= k <= First(s) ensures Position(k) >= 32 {
      PositionIsProduct(k);
    }
  }

  /**
   * A varint of 38 bytes whose groups sum to 1 mod 2^32 is read as 9: the last group is
   * shifted by 3 instead of 259.
   */
  lemma PositionWraps(s: bytes)
    requires |s| == 38 && s[0] == 0x81 && s[37] == 0x01 && forall k :: 1 <= k < 37 ==> s[k] == 0x80
    ensures Dec32(s) == Some((9, 38)) && Low(s) == 1
  {
    hide OrShl, Scan, LowAt, Low;
    EmptyGroups(s, 1, 1);
    WrappedByte(s);
    LowAtIsLow(s, 38);
    assert s[..38] == s;
    LowAtStays(s, 38);
  }

  lemma WrappedByte(s: bytes)
    requires |s| == 38 && s[37] == 0x01
    ensures Scan(s, 37, 3, 1) == Some((9, 38))
  {
    hide OrShl, Trunc;
    Pow2Values();
    assert Pow2(3) == 8;
    OrAbove(1, 1, 3, 32);
    TruncWord(9);
  }

  lemma {:induction false} LowAtStays(s: bytes, i: nat)
    requires 1 <= i <= |s| && Group(s[0]) < TWO_TO_THE_32 && forall k :: 1 <= k < i && k < 5 ==> Group(s[k]) == 0
    ensures LowAt(s, i) == Group(s[0])
  {
    if i > 1 {
      LowAtStays(s, i - 1);
      if i <= 5 {
        NothingAdded(Group(s[0]), 7 * (i - 1));
      }
    }
  }

  // ---- on the encoder's output ----

  lemma {:induction false} ScanShort(s: bytes, i: nat, result: nat)
    requires 1 <= i <= First(s) < |s| && First(s) <= 4
    requires First(s) == 4 ==> s[4] < 16
    ensures Scan(s, i, 7 * i, result).Some?
    decreases |s| - i
  {
    if i < First(s) {
      ScanShort(s, i + 1, OrShl(result, Group(s[i]), 7 * i, 32));
    }
  }

  lemma {:induction false} ScanLong(s: bytes, i: nat, result: nat)
    requires 1 <= i <= First(s) < |s| && 4 <= First(s) <= 8
    requires if First(s) == 4 then s[4] >= 16 else s[First(s)] > 0
    ensures Scan(s, i, 7 * i, result).None?
    decreases |s| - i
  {
    var a := Absorb(s[i], 7 * i, result);
    if i < First(s) && a.Some? {
      ScanLong(s, i + 1, a.value);
    }
  }

  /** A byte behind the fifth: nothing in it, or the sign of a negative number. */
  predicate SignByte(s: bytes, k: nat, low: nat)
    requires k < |s|
  {
    Group(s[k]) == 0 || (low >= 0x8000_0000 && s[k] == if k < 9 then 0xFF else 0x01)
  }

  lemma {:induction false} ScanAccepts(s: bytes, i: nat, result: nat)
    requires 5 <= i <= First(s) < |s| && First(s) <= 36
    ensures Scan(s, i, 7 * i, result).Some? <==> forall k :: i <= k <= First(s) ==> SignByte(s, k, result)
    decreases |s| - i
  {
    if i < First(s) {
      ScanAccepts(s, i + 1, result);
    }
    assert SignByte(s, i, result) <==> Absorb(s[i], 7 * i, result) == Some(result);
  }

  /**
   * Of the varints up to 37 bytes those are accepted whose fifth byte has four bits at most
   * if it is the last, and behind which only zero groups follow, or the sign extension of a
   * negative number.
   */
  lemma Dec32Accepts(s: bytes)
    requires First(s) < |s| && First(s) <= 36
    ensures Dec32(s).Some? <==>
              if First(s) <= 3 then true
              else if First(s) == 4 then s[4] < 16
              else forall k :: 5 <= k <= First(s) ==> SignByte(s, k, Low(s[..5]))
  {
    hide Scan, Low, SignByte;
    var n := First(s);
    if n <= 4 && (n == 4 ==> s[4] < 16) {
      Dec32Short(s);
    } else if n == 4 {
      ScanLong(s, 1, Group(s[0]));
    } else {
      Dec32FromFive(s);
      PositionIsProduct(5);
      LowAtIsLow(s, 5);
      ScanAccepts(s, 5, LowAt(s, 5));
    }
  }

  lemma Dec32Short(s: bytes)
    requires First(s) < |s| && First(s) <= 4 && (First(s) == 4 ==> s[4] < 16)
    ensures Dec32(s).Some?
  {
    if First(s) > 0 {
      ScanShort(s, 1, Group(s[0]));
    }
  }

  lemma Dec32Whole(e: bytes, t: bytes)
    requires Complete(e) && |e| <= 5 && (|e| == 5 ==> e[4] < 16) && Value(e) < TWO_TO_THE_32
    ensures Dec32(e + t) == Some((Value(e), |e|))
  {
    hide Dec32, Trunc, Pow2, Value;
    FirstAppend(e, t);
    Dec32Short(e + t);
    Dec32Value(e + t);
    assert (e + t)[..|e|] == e;
    LowIsValue(e);
  }

  lemma LowIsValue(e: bytes)
    requires Value(e) < TWO_TO_THE_32
    ensures Low(e) == Value(e)
  {
    hide Value;
    Pow2Values();
  }

  /** The 32-bit decoder undoes the encoder below 2^32, whatever follows. */
  lemma Dec32Enc(v: nat, t: bytes)
    requires v < TWO_TO_THE_32
    ensures Dec32(Enc(v) + t) == Some((v, |Enc(v)|))
  {
    EncComplete(v);
    EncLengthBounds(v);
    if |Enc(v)| == 5 {
      EncFifth(v);
    }
    Dec32Whole(Enc(v), t);
  }

  /** It reports an overflow on every larger value that is not a negative 64-bit integer. */
  lemma Dec32EncTooLarge(v: nat, t: bytes)
    requires TWO_TO_THE_32 <= v < TWO_TO_THE_63
    ensures Dec32(Enc(v) + t) == None
  {
    var e, s := Enc(v), Enc(v) + t;
    EncComplete(v);
    EncLast(v);
    EncLength(v, 4);
    EncLength(v, 9);
    Pow2Values();
    FirstAppend(e, t);
    if |e| == 5 {
      EncFifth(v);
    }
    ScanLong(s, 1, Group(s[0]));
  }

  /** A sign-extended negative int32 takes ten bytes and decodes to its low 32 bits. */
  lemma Dec32EncNegative(v: nat, t: bytes)
    requires TWO_TO_THE_64 - TWO_TO_THE_31 <= v < TWO_TO_THE_64
    ensures |Enc(v)| == 10
    ensures Dec32(Enc(v) + t) == Some((Trunc(v, 32), 10))
  {
    NegativeBytes(v);
    var p5 := Enc(v)[..5];
    EncComplete(v);
    LowPart(v, p5);
    NegativeScan(p5, t);
  }

  /** What the 32-bit build writes for a negative int32 is read back by the 32-bit decoder. */
  lemma NegativeArrives(word: nat, t: bytes)
    requires TWO_TO_THE_31 <= word < TWO_TO_THE_32
    ensures Dec32(Enc(word + 0xFFFF_FFFF_0000_0000) + t) == Some((word, 10))
  {
    hide Enc, Dec32, Trunc, Pow2;
    var v := word + 0xFFFF_FFFF_0000_0000;
    Dec32EncNegative(v, t);
    Pow2Values();
    TruncAdd(word, 0xFFFF_FFFF, 32);
    TruncIsRemainder(word, 32);
  }

  lemma NegativeScan(p5: bytes, t: bytes)
    requires |p5| == 5 && forall k :: 0 <= k < 5 ==> p5[k] >= 128
    requires TWO_TO_THE_31 <= Low(p5) < TWO_TO_THE_32
    ensures Dec32(p5 + [0xFF, 0xFF, 0xFF, 0xFF, 0x01] + t) == Some((Low(p5), 10))
  {
    var s := p5 + [0xFF, 0xFF, 0xFF, 0xFF, 0x01] + t;
    assert s[..5] == p5;
    LowAtIsLow(s, 5);
    ScanLow(s, 1);
    ScanTail(s, LowAt(s, 5));
  }

  /** The first four rounds only accumulate. */
  lemma {:induction false} ScanLow(s: bytes, i: nat)
    requires 1 <= i <= 5 <= |s| && forall k :: 0 <= k < 5 ==> s[k] >= 128
    ensures Scan(s, i, 7 * i, LowAt(s, i)) == Scan(s, 5, 35, LowAt(s, 5))
    decreases 5 - i
  {
    if i < 5 {
      ScanLow(s, i + 1);
    }
  }

  lemma NegativeBytes(v: nat)
    requires TWO_TO_THE_64 - TWO_TO_THE_31 <= v < TWO_TO_THE_64
    ensures |Enc(v)| == 10 && Enc(v) == Enc(v)[..5] + [0xFF, 0xFF, 0xFF, 0xFF, 0x01]
    ensures forall k :: 0 <= k < 5 ==> Enc(v)[k] >= 128
  {
    var v1 := v / 128;
    var v2 := v1 / 128;
    var v3 := v2 / 128;
    var v4 := v3 / 128;
    assert v4 / 128 == 0x1FFF_FFFF;
    NegativeTail();
    EncStep(v4);
    EncStep(v3);
    EncStep(v2);
    EncStep(v1);
    EncStep(v);
    assert Enc(v)[5..] == Enc(v1)[4..] == Enc(v2)[3..] == Enc(v3)[2..] == Enc(v4)[1..];
  }

  lemma EncStep(v: nat)
    requires v >= 128
    ensures |Enc(v)| == 1 + |Enc(v / 128)| && Enc(v)[0] >= 128 && Enc(v)[1..] == Enc(v / 128)
  {
  }

  lemma NegativeTail()
    ensures Enc(0x1FFF_FFFF) == [0xFF, 0xFF, 0xFF, 0xFF, 0x01]
  {
    assert Enc(0x1FFF_FFFF) == [0xFF] + Enc(0x3F_FFFF);
    assert Enc(0x3F_FFFF) == [0xFF] + Enc(0x7FFF);
    assert Enc(0x7FFF) == [0xFF] + Enc(0xFF);
    assert Enc(0xFF) == [0xFF, 0x01];
  }

  lemma LowPart(v: nat, p5: bytes)
    requires TWO_TO_THE_64 - TWO_TO_THE_31 <= v < TWO_TO_THE_64
    requires |Enc(v)| == 10 && p5 == Enc(v)[..5]
    ensures TWO_TO_THE_32 > Low(p5) == Trunc(v, 32) >= TWO_TO_THE_31
  {
    hide Enc, Value, Trunc, Pow2;
    var e := Enc(v);
    LowOfTail(e, 10);
    assert e[..10] == e;
    EncComplete(v);
    WordOfNegative(v);
  }

  lemma WordOfNegative(v: nat)
    requires TWO_TO_THE_64 - TWO_TO_THE_31 <= v < TWO_TO_THE_64
    ensures TWO_TO_THE_32 > Trunc(v, 32) == v - 0xFFFF_FFFF_0000_0000 >= TWO_TO_THE_31
  {
    hide Trunc, Pow2;
    var word := v - 0xFFFF_FFFF_0000_0000;
    Pow2Values();
    TruncAdd(word, 0xFFFF_FFFF, 32);
    TruncWord(word);
  }

  lemma {:induction false} LowOfTail(e: bytes, n: nat)
    requires 5 <= n <= |e|
    ensures Low(e[..n]) == Low(e[..5])
  {
    if n > 5 {
      LowOfTail(e, n - 1);
      assert e[..n] == e[..n - 1] + [e[n - 1]];
      HighGroupsVanish(e[..n - 1], e[n - 1]);
    }
  }

  lemma ScanTail(s: bytes, low: nat)
    requires |s| >= 10 && s[5] == s[6] == s[7] == s[8] == 0xFF && s[9] == 0x01
    requires TWO_TO_THE_31 <= low < TWO_TO_THE_32
    ensures Scan(s, 5, 35, low) == Some((low, 10))
  {
    assert Scan(s, 9, 63, low) == Some((low, 10));
    assert Scan(s, 8, 56, low) == Some((low, 10));
    assert Scan(s, 7, 49, low) == Some((low, 10));
    assert Scan(s, 6, 42, low) == Some((low, 10));
  }
}
