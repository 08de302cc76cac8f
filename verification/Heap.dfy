/** The heap behind pb_realloc and pb_free, and allocate_field (PB_ENABLE_MALLOC). */
module Allocator {
  import opened Common

  const SIZE_MAX: nat := 0xFFFF_FFFF_FFFF_FFFF

  /** `(size_t)1 << (sizeof(size_t) * 4)`. */
  const CHECK_LIMIT: nat := 0x1_0000_0000

  /** The block a pointer refers to, if it is not NULL. */
  function Blocks(p: Option<nat>): multiset<nat> {
    if p.Some? then multiset{p.value} else multiset{}
  }

  /** What is allocated: the blocks, and the size last requested for each of them. */
  datatype Allocation = Allocation(live: multiset<nat>, sizes: map<nat, nat>)

  /** No block is allocated twice, and the size of every allocated block is known. */
  ghost predicate Recorded(h: Allocation) {
    forall b :: h.live[b] <= 1 && (b in h.live ==> b in h.sizes)
  }

  /** Blocks `a` have been exchanged for blocks `b`; the others are still there, as large as before. */
  ghost predicate Swapped(h: Allocation, a: multiset<nat>, h': Allocation, b: multiset<nat>) {
    && Recorded(h) && Recorded(h')
    && h'.live + a == h.live + b
    && forall x :: x in h.live && x !in a ==> x in h'.sizes && h'.sizes[x] == h.sizes[x]
  }

  class Heap {
    /** What the allocator answers to its n-th request; None is NULL. Any allocator will do. */
    const answers: nat -> Option<nat>
    var calls: nat
    /** The allocated blocks. */
    var live: multiset<nat>
    /** By block, the size of the last request that was answered with it. */
    var sizes: map<nat, nat>
    /** Every call of pb_free so far, by block. */
    var freed: multiset<nat>
    /** How many requests have been answered with NULL. */
    var refused: nat

    function Now(): Allocation
      reads this
    {
      Allocation(live, sizes)
    }

    ghost predicate Valid()
      reads this
    {
      Recorded(Now())
    }

    /** Blocks `a` that were allocated have been exchanged for blocks `b`; no others are touched. */
    twostate predicate Exchanged(a: multiset<nat>, b: multiset<nat>)
      reads this
    {
      Valid() && Swapped(old(Now()), a, Now(), b) && refused >= old(refused)
    }

    /** Exactly the blocks `a` have been freed, each as often as it occurs in `a`. */
    twostate predicate Released(a: multiset<nat>)
      reads this
    {
      && Valid() && live + a == old(live) && sizes == old(sizes)
      && freed == old(freed) + a && refused == old(refused)
    }

    constructor (answers: nat -> Option<nat>)
      ensures Valid() && live == multiset{} && freed == multiset{}
    {
      this.answers := answers;
      calls := 0;
      live := multiset{};
      sizes := map[];
      freed := multiset{};
      refused := 0;
    }

    /**
     * pb_realloc. It may fail at any call and then leaves the old block alone. An answer
     * that is another block in use is not an answer.
     */
    method Realloc(ptr: Option<nat>, size: nat) returns (r: Option<nat>)
      requires Valid() && Blocks(ptr) <= live && 0 < size <= SIZE_MAX
      modifies this
      ensures freed == old(freed)
      ensures r.None? ==> Valid() && Now() == old(Now()) && refused == old(refused) + 1
      ensures r.Some? ==> Exchanged(Blocks(ptr), Blocks(r)) && refused == old(refused)
      ensures r.Some? ==> r.value in live && r.value in sizes && sizes[r.value] == size
    {
      hide Swapped, Recorded, Blocks, Moved;
      r := answers(calls);
      calls := calls + 1;
      if r.Some? && r != ptr && r.value in live {
        r := None;
      }
      if r.Some? {
        Replaced(Now(), ptr, r.value, size);
        var next := Moved(Now(), ptr, r.value, size);
        live, sizes := next.live, next.sizes;
      } else {
        refused := refused + 1;
      }
    }

    /** pb_free. Only an allocated block or NULL may be freed. */
    method Free(ptr: Option<nat>)
      requires Valid() && Blocks(ptr) <= live
      modifies this
      ensures Released(Blocks(ptr))
    {
      live := live - Blocks(ptr);
      freed := freed + Blocks(ptr);
    }
  }

  /** A block of `size` bytes at `r` instead of the one at `ptr`, if there was one. */
  function Moved(h: Allocation, ptr: Option<nat>, r: nat, size: nat): Allocation {
    Allocation(h.live - Blocks(ptr) + multiset{r}, h.sizes[r := size])
  }

  lemma Replaced(h: Allocation, ptr: Option<nat>, r: nat, size: nat)
    requires Recorded(h) && Blocks(ptr) <= h.live && (r !in h.live || ptr == Some(r))
    ensures var h' := Moved(h, ptr, r, size);
            Recorded(h') && Swapped(h, Blocks(ptr), h', Blocks(Some(r)))
            && r in h'.live && r in h'.sizes && h'.sizes[r] == size
  {
    var live := h.live - Blocks(ptr) + multiset{r};
    assert live + Blocks(ptr) == h.live + multiset{r};
    assert forall b :: live[b] <= 1;
  }

  /**
   * allocate_field: the block has room for all entries, and the product handed to the
   * allocator never wraps around. Sizes that can be requested fail only if memory is refused.
   */
  method AllocateField(heap: Heap, ptr: Option<nat>, dataSize: nat, arraySize: nat)
    returns (ok: bool, ptr': Option<nat>)
    requires heap.Valid() && Blocks(ptr) <= heap.live
    modifies heap
    ensures heap.Exchanged(Blocks(ptr), Blocks(ptr')) && heap.freed == old(heap.freed)
    ensures ok ==>
              && ptr'.Some? && ptr'.value in heap.live && ptr'.value in heap.sizes
              && heap.sizes[ptr'.value] == arraySize * dataSize
              && 0 < arraySize * dataSize <= 0xFFFF_FFFF_FFFF_FFFF
    ensures !ok ==> ptr' == ptr && heap.Now() == old(heap.Now())
    ensures !ok && 0 < arraySize * dataSize <= 0xFFFF_FFFF_FFFF_FFFF ==> heap.refused > old(heap.refused)
  {
    ptr' := ptr;
    if dataSize == 0 || arraySize == 0 {
      return false, ptr';
    }
    if dataSize >= CHECK_LIMIT || arraySize >= CHECK_LIMIT {
      QuotientDecides(dataSize, arraySize);
      if SIZE_MAX / arraySize < dataSize {
        return false, ptr';
      }
    } else {
      ProductFits(dataSize, arraySize);
    }
    Positive(dataSize, arraySize);
    var r := heap.Realloc(ptr, arraySize * dataSize);
    if r == None {
      return false, ptr';
    }
    return true, r;
  }

  lemma Positive(a: nat, b: nat)
    requires a > 0 && b > 0
    ensures b * a > 0
  {
  }

  /** The division tells whether the product fits `size_t`. */
  lemma QuotientDecides(dataSize: nat, arraySize: nat)
    requires arraySize > 0
    ensures SIZE_MAX / arraySize < dataSize <==> arraySize * dataSize > 0xFFFF_FFFF_FFFF_FFFF
  {
    var q := SIZE_MAX / arraySize;
    if q < dataSize {
      Monotone(q + 1, dataSize, arraySize);
    } else {
      Monotone(dataSize, q, arraySize);
    }
  }

  /** Without the division, products of numbers below 2^32 fit. */
  lemma ProductFits(dataSize: nat, arraySize: nat)
    requires 0 < dataSize < 0x1_0000_0000 && 0 < arraySize < 0x1_0000_0000
    ensures 0 < arraySize * dataSize <= 0xFFFF_FFFF_FFFF_FFFF
  {
    Monotone(arraySize, 0xFFFF_FFFF, dataSize);
    Monotone(dataSize, 0xFFFF_FFFF, 0xFFFF_FFFF);
    Positive(dataSize, arraySize);
  }

  lemma Monotone(a: nat, b: nat, c: nat)
    requires a <= b
    ensures a * c <= b * c && c * a <= c * b
  {
  }

  /** What was exchanged for live blocks is live. */
  lemma StillLive(h: Allocation, a: multiset<nat>, h': Allocation, b: multiset<nat>)
    requires a <= h.live && Swapped(h, a, h', b)
    ensures b <= h'.live
  {
    forall x | x in b ensures b[x] <= h'.live[x] {
      assert (h'.live + a)[x] == h'.live[x] + a[x] && (h.live + b)[x] == h.live[x] + b[x];
    }
  }

  lemma BlockKnown(ptr: Option<nat>, h: Allocation)
    requires Recorded(h) && Blocks(ptr) <= h.live
    ensures ptr.Some? ==> ptr.value in h.sizes
  {
    assert ptr.Some? ==> ptr.value in Blocks(ptr);
  }

  lemma NothingExchanged(h: Allocation, a: multiset<nat>)
    requires Recorded(h)
    ensures Swapped(h, a, h, a)
  {
  }

  /** Freeing blocks is exchanging them for nothing. */
  lemma Freed(h: Allocation, a: multiset<nat>, h': Allocation)
    requires Recorded(h) && h'.live + a == h.live && h'.sizes == h.sizes
    ensures Swapped(h, a, h', multiset{})
  {
    assert h'.live + a == h.live + multiset{};
    forall b ensures h'.live[b] <= 1 && (b in h'.live ==> b in h'.sizes) {
      assert h.live[b] == (h'.live + a)[b];
    }
  }

  /** One exchange after another. */
  lemma ExchangeThen(h: Allocation, a: multiset<nat>, h': Allocation, b: multiset<nat>,
                     h'': Allocation, c: multiset<nat>)
    requires Swapped(h, a, h', b) && Swapped(h', b, h'', c)
    ensures Swapped(h, a, h'', c)
  {
    forall x: nat
      ensures (h''.live + a)[x] == (h.live + c)[x]
      ensures x in h.live && x !in a ==> x in h'.live && x !in b
    {
      assert (h'.live + a)[x] == (h.live + b)[x] && (h''.live + b)[x] == (h'.live + c)[x];
    }
  }

  /** After an exchange, further blocks `c` in addition. */
  lemma ExchangeMore(h: Allocation, a: multiset<nat>, h': Allocation, b: multiset<nat>,
                     h'': Allocation, c: multiset<nat>, whole: multiset<nat>)
    requires Swapped(h, a, h', b) && Swapped(h', multiset{}, h'', c) && whole == b + c
    ensures Swapped(h, a, h'', whole)
  {
    forall x: nat
      ensures (h''.live + a)[x] == (h.live + whole)[x]
      ensures x in h.live && x !in a ==> x in h'.live
    {
      assert (h'.live + a)[x] == (h.live + b)[x] && (h''.live + multiset{})[x] == (h'.live + c)[x];
      assert whole[x] == b[x] + c[x];
    }
  }

  /** Exchanging a part is exchanging the whole for the whole with that part exchanged. */
  lemma ExchangePart(h: Allocation, part: multiset<nat>, h': Allocation, part': multiset<nat>,
                     whole: multiset<nat>, whole': multiset<nat>)
    requires Swapped(h, part, h', part') && whole' + part == whole + part' && part <= whole
    ensures Swapped(h, whole, h', whole')
  {
    forall x: nat
      ensures (h'.live + whole)[x] == (h.live + whole')[x]
      ensures x !in whole ==> x !in part
    {
      assert (h'.live + part)[x] == (h.live + part')[x] && (whole' + part)[x] == (whole + part')[x];
    }
  }

  /** Blocks of which nothing is exchanged keep their sizes. */
  predicate SameSizes(blocks: multiset<nat>, h: map<nat, nat>, h': map<nat, nat>) {
    forall b <- blocks :: b in h ==> b in h' && h'[b] == h[b]
  }

  /** If `part` and `other` are both allocated, exchanging `part` keeps the sizes of `other`. */
  lemma OthersKeep(h: Allocation, part: multiset<nat>, h': Allocation, part': multiset<nat>, other: multiset<nat>)
    requires Swapped(h, part, h', part') && part + other <= h.live
    ensures SameSizes(other, h.sizes, h'.sizes)
  {
    forall b | b in other ensures b in h.live && b !in part {
      assert (part + other)[b] == part[b] + other[b] <= h.live[b] <= 1;
    }
  }
}
