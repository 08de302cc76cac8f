/** Bitwise operators on natural numbers, as the C code uses them on unsigned words. */
module Bits {

  function Pow2(n: nat): (p: nat)
    ensures p > 0
  {
    if n == 0 then 1 else 2 * Pow2(n - 1)
  }

  /** `v` truncated to an unsigned word of `w` bits. */
  function Trunc(v: nat, w: nat): nat
    decreases v
  {
    if v < Pow2(w) then v else Trunc(v - Pow2(w), w)
  }

  /** Bit `j` of `v`. */
  predicate Bit(v: nat, j: nat) {
    Trunc(v, j + 1) >= Pow2(j)
  }

  /** The word `a | (g << k)`, `w` bits wide. */
  function OrShl(a: nat, g: nat, k: nat, w: nat): nat
    decreases w, a, g, k
  {
    if w == 0 then 0
    else
      OrShl(a, g, k, w - 1)
      + if Bit(a, w - 1) || (w - 1 >= k && Bit(g, w - 1 - k)) then Pow2(w - 1) else 0
  }

  /** The word `a ^ (g << k)`, `w` bits wide. */
  function XorShl(a: nat, g: nat, k: nat, w: nat): nat
    decreases w, a, g, k
  {
    if w == 0 then 0
    else
      XorShl(a, g, k, w - 1)
      + if Bit(a, w - 1) != (w - 1 >= k && Bit(g, w - 1 - k)) then Pow2(w - 1) else 0
  }

  lemma {:induction false} Pow2Add(a: nat, b: nat)
    ensures Pow2(a + b) == Pow2(a) * Pow2(b)
  {
    if a != 0 {
      Pow2Add(a - 1, b);
      assert Pow2(a + b) == 2 * Pow2(a - 1 + b);
      assert 2 * (Pow2(a - 1) * Pow2(b)) == (2 * Pow2(a - 1)) * Pow2(b);
    }
  }

  lemma Pow2Values()
    ensures Pow2(7) == 128 && Pow2(31) == 0x8000_0000 && Pow2(32) == 0x1_0000_0000
    ensures Pow2(63) == 0x8000_0000_0000_0000 && Pow2(64) == 0x1_0000_0000_0000_0000
    ensures Pow2(35) == 0x8_0000_0000 && Pow2(70) == 0x40_0000_0000_0000_0000
    ensures Pow2(28) == 0x1000_0000
  {
    assert Pow2(7) == 128;
    Pow2Add(7, 7);
    Pow2Add(14, 14);
    Pow2Add(28, 3);
    Pow2Add(28, 7);
    Pow2Add(31, 1);
    Pow2Add(31, 32);
    Pow2Add(32, 32);
    Pow2Add(35, 35);
  }

  lemma {:induction false} Pow2Monotone(a: nat, b: nat)
    requires a <= b
    ensures Pow2(a) <= Pow2(b)
  {
    if a < b {
      Pow2Monotone(a, b - 1);
    }
  }

  /** Truncation is the remainder modulo 2^w. */
  lemma {:induction false} TruncIsRemainder(v: nat, w: nat)
    ensures exists q: nat :: v == q * Pow2(w) + Trunc(v, w)
    ensures Trunc(v, w) < Pow2(w)
    decreases v
  {
    if v < Pow2(w) {
      assert v == 0 * Pow2(w) + Trunc(v, w);
    } else {
      TruncIsRemainder(v - Pow2(w), w);
      var q: nat :| v - Pow2(w) == q * Pow2(w) + Trunc(v - Pow2(w), w);
      assert v == (q + 1) * Pow2(w) + Trunc(v, w);
    }
  }

  lemma {:induction false} TruncAdd(v: nat, q: nat, w: nat)
    ensures Trunc(v + q * Pow2(w), w) == Trunc(v, w)
    decreases q
  {
    if q > 0 {
      TruncAdd(v, q - 1, w);
      assert v + q * Pow2(w) - Pow2(w) == v + (q - 1) * Pow2(w);
    }
  }

  /** Truncating to a wide word first does not change the low bits. */
  lemma {:induction false} TruncTwice(v: nat, w: nat, u: nat)
    requires u <= w
    ensures Trunc(Trunc(v, w), u) == Trunc(v, u)
    decreases v
  {
    if v >= Pow2(w) {
      TruncTwice(v - Pow2(w), w, u);
      Pow2Add(w - u, u);
      TruncAdd(v - Pow2(w), Pow2(w - u), u);
    }
  }

  /** One more bit of `v`. */
  lemma TruncStep(v: nat, w: nat)
    ensures Trunc(v, w + 1) == Trunc(v, w) + if Bit(v, w) then Pow2(w) else 0
  {
    TruncIsRemainder(v, w + 1);
    TruncTwice(v, w + 1, w);
  }

  lemma ScaledOrder(a: nat, g: nat, p: nat, q: nat)
    requires a < p
    ensures g < q ==> a + g * p < q * p
    ensures g >= q ==> a + g * p - q * p == a + (g - q) * p >= 0
  {
    if g < q {
      assert (g + 1) * p <= q * p;
    }
  }

  /** Truncating a value that has `a` in its low `k` bits. */
  lemma {:induction false} TruncShifted(a: nat, g: nat, k: nat, j: nat)
    requires a < Pow2(k)
    ensures Trunc(a + g * Pow2(k), j + k) == a + Trunc(g, j) * Pow2(k)
    decreases g
  {
    Pow2Add(j, k);
    ScaledOrder(a, g, Pow2(k), Pow2(j));
    if g >= Pow2(j) {
      TruncShifted(a, g - Pow2(j), k, j);
    }
  }

  lemma TruncShiftedStep(a: nat, g: nat, k: nat, j: nat)
    requires a < Pow2(k)
    ensures Trunc(a + g * Pow2(k), j + 1 + k)
         == Trunc(a + g * Pow2(k), j + k) + if Bit(g, j) then Pow2(j + k) else 0
  {
    TruncShifted(a, g, k, j);
    TruncShifted(a, g, k, j + 1);
    TruncStep(g, j);
    Pow2Add(j, k);
    var t := Trunc(g, j);
    assert (t + Pow2(j)) * Pow2(k) == t * Pow2(k) + Pow2(j) * Pow2(k);
  }

  /** Or-ing a group into bits above everything set so far adds it, inside the word. */
  lemma {:induction false} OrAbove(a: nat, g: nat, k: nat, w: nat)
    requires a < Pow2(k)
    ensures OrShl(a, g, k, w) == Trunc(a + g * Pow2(k), w)
    decreases w
  {
    if w == 0 {
      TruncIsRemainder(a + g * Pow2(k), 0);
    } else {
      OrAbove(a, g, k, w - 1);
      if w <= k {
        LowBitsAgree(a, g, k, w);
        LowBitsAgree(a, g, k, w - 1);
        TruncStep(a, w - 1);
      } else {
        Pow2Monotone(k, w - 1);
        TruncShiftedStep(a, g, k, w - 1 - k);
      }
    }
  }

  lemma LowBitsAgree(a: nat, g: nat, k: nat, w: nat)
    requires w <= k
    ensures Trunc(a + g * Pow2(k), w) == Trunc(a, w)
  {
    Pow2Add(k - w, w);
    assert g * Pow2(k) == (g * Pow2(k - w)) * Pow2(w);
    TruncAdd(a, g * Pow2(k - w), w);
  }

  /** Xor-ing a group into bits above everything set so far adds it, inside the word. */
  lemma XorAbove(a: nat, g: nat, k: nat, w: nat)
    requires a < Pow2(k)
    ensures XorShl(a, g, k, w) == Trunc(a + g * Pow2(k), w)
  {
    OrAbove(a, g, k, w);
    XorIsOr(a, g, k, w);
  }

  lemma {:induction false} XorIsOr(a: nat, g: nat, k: nat, w: nat)
    requires a < Pow2(k)
    ensures XorShl(a, g, k, w) == OrShl(a, g, k, w)
    decreases w
  {
    if w > 0 {
      XorIsOr(a, g, k, w - 1);
      if w - 1 >= k {
        Pow2Monotone(k, w - 1);
      }
    }
  }

  /** What `a | (g << k)` means bit by bit. */
  lemma {:induction false} BitOfOr(a: nat, g: nat, k: nat, w: nat, j: nat)
    requires j < w
    ensures Bit(OrShl(a, g, k, w), j) <==> Bit(a, j) || (j >= k && Bit(g, j - k))
    decreases w
  {
    OrShlBound(a, g, k, w);
    OrShlBound(a, g, k, w - 1);
    if j < w - 1 {
      BitOfOr(a, g, k, w - 1, j);
      LowBitsAgree(OrShl(a, g, k, w - 1), 1, w - 1, j + 1);
    }
  }

  lemma {:induction false} OrShlBound(a: nat, g: nat, k: nat, w: nat)
    ensures OrShl(a, g, k, w) < Pow2(w)
    decreases w
  {
    if w > 0 {
      OrShlBound(a, g, k, w - 1);
    }
  }

  lemma BitOfOne(j: nat)
    ensures Bit(1, j) <==> j == 0
  {
    if j > 0 {
      Pow2Monotone(1, j);
    }
  }

  /** A `w`-bit word is the mask `2^r - 1` exactly when its bits below `r` are set and no others. */
  lemma {:induction false} IsMask(v: nat, r: nat, w: nat)
    requires v < Pow2(w) && r <= w
    ensures v == Pow2(r) - 1 <==> forall j: nat | j < w :: Bit(v, j) == (j < r)
  {
    if v == Pow2(r) - 1 {
      forall j: nat | j < w ensures Bit(v, j) == (j < r) {
        MaskBit(r, j);
      }
    }
    if forall j: nat | j < w :: Bit(v, j) == (j < r) {
      MaskFromBits(v, r, w);
    }
  }

  lemma MaskBit(r: nat, j: nat)
    ensures Bit(Pow2(r) - 1, j) == (j < r)
  {
    if j < r {
      Pow2Add(r - (j + 1), j + 1);
      TruncOneLess(Pow2(r - (j + 1)), j + 1, Pow2(r) - 1);
    } else {
      Pow2Monotone(r, j);
    }
  }

  lemma TruncOneLess(q: nat, n: nat, x: nat)
    requires q > 0 && x == q * Pow2(n) - 1
    ensures Trunc(x, n) == Pow2(n) - 1
  {
    assert x == (Pow2(n) - 1) + (q - 1) * Pow2(n);
    TruncAdd(Pow2(n) - 1, q - 1, n);
  }

  lemma {:induction false} MaskFromBits(v: nat, r: nat, n: nat)
    requires forall j: nat | j < n :: Bit(v, j) == (j < r)
    ensures Trunc(v, n) == Pow2(if n < r then n else r) - 1
  {
    if n == 0 {
      TruncIsRemainder(v, 0);
    } else {
      MaskFromBits(v, r, n - 1);
      TruncStep(v, n - 1);
    }
  }
}
