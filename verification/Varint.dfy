/** Base 128 varints: the encoder's bytes, the 64-bit decoder's result, and how they meet. */
module Varint {
  import opened Common
  import opened Bits

  /** The groups of `v`, least significant first, the top bit marking "more follows". */
  function Enc(v: nat): (s: bytes)
    ensures s != []
  {
    if v < 128 then [v] else [v % 128 + 128] + Enc(v / 128)
  }

  /** `byte & 0x7F`: the seven payload bits. */
  function Group(b: byte): nat {
    if b >= 128 then b - 128 else b
  }

  /** Number of leading bytes whose top bit is set. */
  function First(s: bytes): (n: nat)
    ensures n <= |s|
    ensures forall i :: 0 <= i < n ==> s[i] >= 128
    ensures n < |s| ==> s[n] < 128
  {
    if s == [] || s[0] < 128 then 0 else 1 + First(s[1..])
  }

  /** Sum of the 7-bit groups, without truncation. */
  function Value(s: bytes): nat {
    if s == [] then 0 else Group(s[0]) + 128 * Value(s[1..])
  }

  /** A complete varint: only the last byte has a clear top bit. */
  ghost predicate Complete(s: bytes) {
    s != [] && First(s) == |s| - 1
  }

  /** Value and length of the varint at the front of `s`, as a 64-bit decoder reads it. */
  function Dec64(s: bytes): (r: Option<(nat, nat)>)
    ensures r.Some? ==> 1 <= r.value.1 <= |s|
  {
    var n := First(s) + 1;
    if n > |s| || n > 10 then None else Some((Trunc(Value(s[..n]), 64), n))
  }

  lemma {:induction false} FirstUnique(s: bytes, n: nat)
    requires n < |s| && s[n] < 128
    requires forall i :: 0 <= i < n ==> s[i] >= 128
    ensures First(s) == n
  {
    if n > 0 {
      FirstUnique(s[1..], n - 1);
    }
  }

  lemma {:induction false} FirstAppend(s: bytes, t: bytes)
    ensures First(s) < |s| ==> First(s + t) == First(s)
    ensures First(s) == |s| ==> First(s + t) == |s| + First(t)
  {
    if s == [] {
      assert s + t == t;
    } else if s[0] >= 128 {
      assert (s + t)[1..] == s[1..] + t;
      FirstAppend(s[1..], t);
    }
  }

  lemma {:induction false} ValueAppend(s: bytes, b: byte)
    ensures Value(s + [b]) == Value(s) + Group(b) * Pow2(7 * |s|)
  {
    hide Group;
    assert Pow2(0) == 1;
    if s == [] {
      assert s + [b] == [b];
    } else {
      ValueAppend(s[1..], b);
      assert (s + [b])[1..] == s[1..] + [b];
      GroupUp(Group(b), |s[1..]|);
    }
  }

  /** One place higher. */
  lemma GroupUp(g: nat, n: nat)
    ensures 128 * (g * Pow2(7 * n)) == g * Pow2(7 * (n + 1))
  {
    hide Pow2;
    Pow2OfSeven();
    Pow2Add(7, 7 * n);
    Rearranged(g, Pow2(7 * n));
  }

  lemma Pow2OfSeven()
    ensures Pow2(7) == 128
  {
  }

  lemma Rearranged(a: nat, b: nat)
    ensures 128 * (a * b) == a * (128 * b)
  {
  }

  lemma {:induction false} ValueBound(s: bytes)
    ensures Value(s) < Pow2(7 * |s|)
  {
    if s != [] {
      ValueBound(s[1..]);
      Pow2Add(7, 7 * |s[1..]|);
      assert Pow2(7) == 128;
    }
  }

  lemma {:induction false} EncComplete(v: nat)
    ensures Complete(Enc(v))
    ensures Value(Enc(v)) == v
  {
    if v >= 128 {
      EncComplete(v / 128);
      assert Enc(v)[1..] == Enc(v / 128);
    }
  }

  lemma {:induction false} EncLength(v: nat, k: nat)
    requires k >= 1
    ensures v < Pow2(7 * k) <==> |Enc(v)| <= k
  {
    assert Pow2(7) == 128;
    Pow2Monotone(7, 7 * k);
    if v >= 128 {
      if k > 1 {
        EncLength(v / 128, k - 1);
        Pow2Add(7, 7 * (k - 1));
      }
    }
  }

  lemma EncLengthBounds(v: nat)
    requires v < TWO_TO_THE_64
    ensures 1 <= |Enc(v)| <= 10
    ensures v < TWO_TO_THE_32 ==> |Enc(v)| <= 5
  {
    EncLength(v, 10);
    EncLength(v, 5);
    Pow2Values();
  }

  /** Among all complete varints of value `v`, the encoder's is the only shortest one. */
  lemma {:induction false} EncShortest(v: nat, s: bytes)
    requires Complete(s) && Value(s) == v
    ensures |Enc(v)| <= |s|
    ensures |Enc(v)| == |s| ==> Enc(v) == s
  {
    hide Enc;
    EncTail(v);
    if |s| == 1 {
      assert s[1..] == [];
      assert s == [v];
    } else {
      var tail := s[1..];
      TailValue(s, v);
      EncShortest(v / 128, tail);
      assert s == [s[0]] + tail;
    }
  }

  /** The first byte carries the lowest seven bits, the others the rest. */
  lemma TailValue(s: bytes, v: nat)
    requires Complete(s) && Value(s) == v && |s| > 1
    ensures Complete(s[1..]) && Value(s[1..]) == v / 128 && s[0] == v % 128 + 128
  {
    assert s[0] >= 128;
    assert v == (s[0] - 128) + 128 * Value(s[1..]);
  }

  lemma EncTail(v: nat)
    ensures |Enc(v)| <= 1 + |Enc(v / 128)|
    ensures v >= 128 ==> Enc(v) == [v % 128 + 128] + Enc(v / 128)
    ensures v < 128 ==> Enc(v) == [v]
  {
  }

  lemma Dec64Bound(s: bytes)
    ensures Dec64(s).Some? ==> Dec64(s).value.0 < TWO_TO_THE_64
  {
    Pow2Values();
    if Dec64(s).Some? {
      TruncIsRemainder(Value(s[..First(s) + 1]), 64);
    }
  }

  lemma Dec64Whole(e: bytes, t: bytes)
    requires Complete(e) && |e| <= 10 && Value(e) < TWO_TO_THE_64
    ensures Dec64(e + t) == Some((Value(e), |e|))
  {
    hide Value;
    Pow2Values();
    FirstAppend(e, t);
    assert (e + t)[..|e|] == e;
  }

  /** Decoding undoes encoding, whatever follows. */
  lemma Dec64Enc(v: nat, t: bytes)
    requires v < TWO_TO_THE_64
    ensures Dec64(Enc(v) + t) == Some((v, |Enc(v)|))
  {
    EncComplete(v);
    EncLengthBounds(v);
    Dec64Whole(Enc(v), t);
  }

  /** The 64-bit decoder looks at its own bytes only. */
  lemma Dec64Local(s: bytes, t: bytes)
    requires First(s) < |s|
    ensures Dec64(s + t) == Dec64(s)
  {
    hide Trunc, Value, First;
    FirstAppend(s, t);
    var n := First(s) + 1;
    assert s[..n] == (s + t)[..n];
    assert Dec64(s) == if n > 10 then None else Some((Trunc(Value(s[..n]), 64), n));
    assert Dec64(s + t) == if n > 10 then None else Some((Trunc(Value((s + t)[..n]), 64), n));
  }

  /** One round of the decoding loop: `result |= (byte & 0x7F) << bitpos`. */
  lemma GroupStep(s: bytes, b: byte, w: nat)
    requires 7 * |s| < w
    ensures OrShl(Trunc(Value(s), w), Group(b), 7 * |s|, w) == Trunc(Value(s + [b]), w)
  {
    ValueBound(s);
    Pow2Monotone(7 * |s|, w);
    OrAbove(Value(s), Group(b), 7 * |s|, w);
    ValueAppend(s, b);
  }

  /** The encoder never ends on an empty group. */
  lemma {:induction false} EncLast(v: nat)
    requires v > 0
    ensures Enc(v)[|Enc(v)| - 1] > 0
  {
    if v >= 128 {
      EncLast(v / 128);
    }
  }

  lemma EncFifth(v: nat)
    requires |Enc(v)| == 5
    ensures Enc(v)[4] == v / 0x1000_0000
  {
    var v1 := v / 128;
    var v2 := v1 / 128;
    var v3 := v2 / 128;
    var v4 := v3 / 128;
    assert Enc(v)[4] == Enc(v1)[3] == Enc(v2)[2] == Enc(v3)[1] == Enc(v4)[0];
  }
}
