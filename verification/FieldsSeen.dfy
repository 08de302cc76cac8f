/** The `fields_seen` bitmap of pb_decode_noinit, and the final check on it. */
module RequiredFields {
  import opened Bits
  import opened Descriptor
  import opened DecodeSpec

  const ALL_BITS: nat := 0xFFFF_FFFF

  /** Bit `k` of the bitmap made of 32-bit words. */
  predicate BitAt(words: seq<nat>, k: nat)
    requires k < 32 * |words|
  {
    Bit(words[k / 32], k % 32)
  }

  /** Two 32-bit words stand for a set of required-field indices below 64. */
  class FieldsSeen {
    const words: array<nat>

    ghost predicate Valid()
      reads this, words
    {
      && words.Length == 2
      && forall w :: 0 <= w < 2 ==> words[w] < Pow2(32)
    }

    /** The indices whose bit is set. */
    ghost function Seen(): (s: set<nat>)
      requires Valid()
      reads this, words
      ensures forall k: nat :: k in s <==> k < 64 && BitAt(words[..], k)
    {
      set k: nat | k < 64 && BitAt(words[..], k)
    }

    constructor ()
      ensures Valid() && fresh(words) && Seen() == {}
    {
      words := new nat[2](_ => 0);
    }

    /** `fields_seen[index >> 5] |= 1 << (index & 31)`. */
    method Mark(index: nat)
      requires Valid() && index < PB_MAX_REQUIRED_FIELDS
      modifies words
      ensures Valid() && Seen() == old(Seen()) + {index}
    {
      var w, b := index / 32, index % 32;
      ghost var before := words[..];
      words[w] := OrShl(words[w], 1, b, 32);
      OrShlBound(before[w], 1, b, 32);
      forall k: nat | k < 64 ensures BitAt(words[..], k) <==> BitAt(before, k) || k == index {
        if k / 32 == w {
          BitOfOr(before[w], 1, b, 32, k % 32);
          if k % 32 >= b {
            BitOfOne(k % 32 - b);
          }
        }
      }
    }

    /**
     * The final check for `count` required fields: whole words first, then the remaining
     * bits. Bits beyond `count` are never set, so comparing for equality is enough.
     */
    method Complete(count: nat) returns (ok: bool)
      requires Valid() && count <= PB_MAX_REQUIRED_FIELDS
      requires forall k :: k in Seen() ==> k < count
      ensures ok <==> forall k: nat :: k < count ==> k in Seen()
    {
      hide BitAt, LowBits, Pow2;
      ghost var seen := Seen();
      if count > 0 {
        var i := 0;
        while i < count / 32
          invariant 0 <= i <= count / 32
          invariant forall k: nat :: k < 32 * i ==> k in seen
        {
          if words[i] != ALL_BITS {
            ghost var k := MissingBit(words[..], i, 32);
            assert k < count && k !in Seen();
            return false;
          }
          WordFull(words[..], i, 32);
          i := i + 1;
        }
        if count % 32 != 0 {
          forall k: nat | count <= k < 64 ensures !BitAt(words[..], k) {
            assert k !in seen;
          }
          assert count == 32 * (count / 32) + count % 32;
          if words[count / 32] != LowBits(count % 32) {
            ghost var k := MissingBit(words[..], count / 32, count % 32);
            assert k < count && k !in Seen();
            return false;
          }
          WordFull(words[..], count / 32, count % 32);
        }
      }
      return true;
    }
  }

  /** `allbits >> (32 - r)`: the `r` lowest bits. */
  function LowBits(r: nat): nat
    requires 0 < r <= 32
  {
    ALL_BITS / Pow2(32 - r)
  }

  lemma LowBitsIsMask(r: nat)
    requires 0 < r <= 32
    ensures LowBits(r) == Pow2(r) - 1
  {
    Pow2Values();
    Pow2Add(r, 32 - r);
    QuotientOfMask(ALL_BITS, Pow2(r), Pow2(32 - r));
  }

  lemma QuotientOfMask(x: nat, p: nat, q: nat)
    requires p > 0 && q > 0 && x == p * q - 1
    ensures x / q == p - 1
  {
    var d, m := x / q, x % q;
    assert x == d * q + m && x == (p - 1) * q + (q - 1);
    assert d < p - 1 ==> (d + 1) * q <= (p - 1) * q;
    assert d > p - 1 ==> p * q <= d * q;
  }

  /** A word whose bits from `r` on are clear equals the mask exactly when the others are set. */
  lemma WordFull(words: seq<nat>, w: nat, r: nat)
    requires |words| == 2 && w < 2 && words[w] < Pow2(32) && 0 < r <= 32
    requires forall k: nat :: 32 * w + r <= k < 32 * w + 32 ==> !BitAt(words, k)
    ensures words[w] == LowBits(r) <==> forall k: nat :: 32 * w <= k < 32 * w + r ==> BitAt(words, k)
    ensures r == 32 ==> LowBits(r) == ALL_BITS
  {
    Pow2Values();
    LowBitsIsMask(r);
    IsMask(words[w], r, 32);
    forall j: nat | j < 32 ensures Bit(words[w], j) == BitAt(words, 32 * w + j) {
      assert (32 * w + j) / 32 == w && (32 * w + j) % 32 == j;
    }
    if words[w] == LowBits(r) {
      forall k: nat | 32 * w <= k < 32 * w + r ensures BitAt(words, k) {
        assert Bit(words[w], k - 32 * w) == BitAt(words, 32 * w + (k - 32 * w));
      }
    }
    if forall k: nat :: 32 * w <= k < 32 * w + r ==> BitAt(words, k) {
      forall j: nat | j < 32 ensures Bit(words[w], j) == (j < r) {
        assert Bit(words[w], j) == BitAt(words, 32 * w + j);
      }
    }
  }

  lemma MissingBit(words: seq<nat>, w: nat, r: nat) returns (k: nat)
    requires |words| == 2 && w < 2 && words[w] < Pow2(32) && 0 < r <= 32
    requires forall k: nat :: 32 * w + r <= k < 32 * w + 32 ==> !BitAt(words, k)
    requires words[w] != LowBits(r) || (r == 32 && words[w] != ALL_BITS)
    ensures 32 * w <= k < 32 * w + r && !BitAt(words, k)
  {
    hide BitAt, LowBits;
    WordFull(words, w, r);
    k :| 32 * w <= k < 32 * w + r && !BitAt(words, k);
  }

  /** The set-based check of the specification is the same for-all statement. */
  lemma {:induction false} SeenBelowIsForall(n: nat, seen: set<nat>)
    ensures SeenBelow(n, seen) <==> forall k: nat :: k < n ==> k in seen
  {
    if n > 0 {
      SeenBelowIsForall(n - 1, seen);
    }
  }

  lemma {:induction false} RequiredMonotone(fs: seq<Field>, i: nat, j: nat)
    requires i < j <= |fs| && fs[i].htype.Required?
    ensures RequiredBefore(fs, i) < RequiredBefore(fs, j)
  {
    if i < j - 1 {
      RequiredMonotone(fs, i, j - 1);
    }
  }

  /** A record never sets a bit at or beyond the number of checked fields. */
  lemma MarksChecked(d: Desc, i: nat)
    requires i < |d.fields|
    ensures forall k :: k in Marks(d, i) ==> k < CheckedFields(d)
  {
    if d.fields[i].htype.Required? {
      RequiredMonotone(d.fields, i, |d.fields|);
    }
  }

}
