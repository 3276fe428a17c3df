/** The bump arena of stack_allocator.h: a cursor over a fixed N-byte buffer
    with an aligned heap fallback, and the typed allocator that forwards to it.
    Addresses and sizes are 64-bit words; the buffer occupies [base, base + N). */
module StackAlloc {
  import opened Bits

  /** `align_ptr`: the address rounded up to `alignment` with the source's word
      arithmetic: `misalign = addr & (alignment - 1)`,
      `adjust = (alignment - misalign) & (alignment - 1)`, `addr + adjust`. */
  function AlignPtr(p: Word, alignment: Word): Word
  {
    var mask := WordSub(alignment, 1);
    var misalign := And(p, mask);
    var adjust := And(WordSub(alignment, misalign), mask);
    (p + adjust) % AddrSpace
  }

  /** The runtime check `(alignment & (alignment - 1)) == 0` of `allocate`. */
  predicate AlignmentAsserted(alignment: Word)
  {
    And(alignment, WordSub(alignment, 1)) == 0
  }

  /** Where a request is served: in the buffer at `addr`, or by the fallback. */
  datatype Placement = InArena(addr: Word) | Fallback

  /** The decision of `allocate` as the source writes it: align the cursor,
      refuse a size that would overflow the address space, then take the block
      if it ends at or before the buffer's end. */
  function PlaceAsWritten(base: Word, N: nat, ptr: Word, n: Word, alignment: Word): Placement
  {
    var aligned := AlignPtr(ptr, alignment);
    if n > WordMax - aligned then Fallback
    else if aligned + n <= base + N then InArena(aligned)
    else Fallback
  }

  /** The decision the arena model takes: as written, except that an alignment
      adjustment that wraps past the top of the address space also goes to the
      fallback (the overflow check of the source only covers `n`). */
  function Place(base: Word, N: nat, ptr: Word, n: Word, alignment: Word): Placement
  {
    if AlignPtr(ptr, alignment) < ptr then Fallback
    else PlaceAsWritten(base, N, ptr, n, alignment)
  }

  /** The cursor after serving `n` bytes with placement `pl`. */
  function NextCursor(pl: Placement, ptr: Word, n: Word): nat
  {
    if pl.InArena? then pl.addr + n else ptr
  }

  /** One `owns` test as the source writes it: inside [base, base + N). */
  predicate OwnsAsWritten(base: Word, N: nat, p: Word)
  {
    base <= p < base + N
  }

  datatype HeapCall = FallbackAlloc(size: Word, alignment: Word, addr: Word) | FallbackFree(addr: Word)

  /** `detail::fallback_alloc` / `detail::fallback_free`: an aligned heap that
      hands out addresses at or above `lo`, and the calls made on it. */
  class FallbackHeap {
    const lo: Word
    var calls: seq<HeapCall>

    constructor (lo: Word)
      ensures this.lo == lo && calls == []
    {
      this.lo := lo;
      calls := [];
    }

    method Alloc(n: Word, alignment: Word) returns (p: Word)
      modifies this
      ensures lo <= p
      ensures calls == old(calls) + [FallbackAlloc(n, alignment, p)]
    {
      p :| lo <= p;
      calls := calls + [FallbackAlloc(n, alignment, p)];
    }

    method Free(p: Word)
      modifies this
      ensures calls == old(calls) + [FallbackFree(p)]
    {
      calls := calls + [FallbackFree(p)];
    }
  }

  /** `StackArena<N, Alignment>`: the buffer is `alignas(Alignment)` and the
      fallback heap's addresses lie beyond the buffer's one-past-the-end address. */
  class StackArena {
    const base: Word
    const N: nat
    const Alignment: nat
    const heap: FallbackHeap
    var ptr: Word

    ghost predicate Valid()
      reads this
    {
      && IsPow2(Alignment)
      && base % Alignment == 0
      && base + N < heap.lo
      && base <= ptr <= base + N
    }

    /** `StackArena()`: the cursor starts at the buffer. */
    constructor (base: Word, N: nat, Alignment: nat, heap: FallbackHeap)
      requires IsPow2(Alignment) && base % Alignment == 0 && base + N < heap.lo
      ensures Valid()
      ensures this.base == base && this.N == N && this.Alignment == Alignment && this.heap == heap
      ensures ptr == base && Used() == 0
    {
      this.base, this.N, this.Alignment, this.heap := base, N, Alignment, heap;
      ptr := base;
    }

    /** `allocate(n, alignment)`. */
    method Allocate(n: Word, alignment: Word) returns (p: Word)
      requires Valid() && IsPow2(alignment)
      modifies this, heap
      ensures Valid() && old(ptr) <= ptr
      ensures var pl := Place(base, N, old(ptr), n, alignment);
        && ptr == NextCursor(pl, old(ptr), n)
        && (pl.InArena? ==> p == pl.addr && heap.calls == old(heap.calls))
        && (pl.Fallback? ==> heap.lo <= p && heap.calls == old(heap.calls) + [FallbackAlloc(n, alignment, p)])
    {
      ghost var pl := Place(base, N, ptr, n, alignment);
      var aligned := AlignPtr(ptr, alignment);
      if aligned < ptr {
        p := heap.Alloc(n, alignment);
        return;
      }
      if n > WordMax - aligned {
        p := heap.Alloc(n, alignment);
        return;
      }
      var end := aligned + n;
      if end <= base + N {
        PlaceBounds(base, N, ptr, n, alignment);
        ptr := end;
        p := aligned;
        return;
      }
      p := heap.Alloc(n, alignment);
    }

    /** `deallocate(p, n)`: nothing for arena memory, `fallback_free` otherwise. */
    method Deallocate(p: Word, n: Word)
      modifies heap
      ensures heap.calls == old(heap.calls) + (if Owns(p) then [] else [FallbackFree(p)])
    {
      if !Owns(p) {
        heap.Free(p);
      }
    }

    /** `reset()`: rewind the cursor to the start of the buffer. */
    method Reset()
      requires Valid()
      modifies this
      ensures Valid() && ptr == base && Used() == 0
    {
      ptr := base;
    }

    /** `used()`. */
    function Used(): (r: nat)
      reads this
      requires Valid()
      ensures r <= Capacity()
    {
      ptr - base
    }

    /** `capacity()`. */
    function Capacity(): nat
    {
      N
    }

    /** `owns(p)`, counting the one-past-the-end address as the arena's: it is
        what a zero-byte request on a full arena returns. */
    predicate Owns(p: Word): (r: bool)
      ensures r <==> OwnsAsWritten(base, N, p) || p == base + N
    {
      base <= p <= base + N
    }
  }

  datatype AllocResult = Allocated(addr: Word) | BadAlloc

  /** `StackAllocator<T, N, Alignment>`, with `sizeof(T)` and `alignof(T)` as
      `elemSize` and `elemAlign`. */
  class StackAllocator {
    const arena: StackArena
    const elemSize: Word
    const elemAlign: Word

    ghost predicate Valid()
    {
      elemSize > 0 && IsPow2(elemAlign)
    }

    constructor (arena: StackArena, elemSize: Word, elemAlign: Word)
      requires elemSize > 0 && IsPow2(elemAlign)
      ensures Valid()
      ensures this.arena == arena && this.elemSize == elemSize && this.elemAlign == elemAlign
    {
      this.arena, this.elemSize, this.elemAlign := arena, elemSize, elemAlign;
    }

    /** The converting constructor `StackAllocator(const StackAllocator<U> &o)`. */
    constructor FromOther(o: StackAllocator, elemSize: Word, elemAlign: Word)
      requires elemSize > 0 && IsPow2(elemAlign)
      ensures Valid()
      ensures arena == o.arena && this.elemSize == elemSize && this.elemAlign == elemAlign
    {
      this.arena, this.elemSize, this.elemAlign := o.arena, elemSize, elemAlign;
    }

    /** `allocate(n)`: `bad_alloc` when `n * sizeof(T)` overflows, otherwise
        `n * sizeof(T)` bytes from the arena at `alignof(T)`. */
    method Allocate(n: Word) returns (r: AllocResult)
      requires Valid() && arena.Valid()
      modifies arena, arena.heap
      ensures arena.Valid()
      ensures r.BadAlloc? <==> n * elemSize > WordMax
      ensures r.BadAlloc? ==> arena.ptr == old(arena.ptr) && arena.heap.calls == old(arena.heap.calls)
      ensures r.Allocated? ==> n * elemSize <= WordMax
      ensures r.Allocated? ==>
        var pl := Place(arena.base, arena.N, old(arena.ptr), n * elemSize, elemAlign);
        && arena.ptr == NextCursor(pl, old(arena.ptr), n * elemSize)
        && (pl.InArena? ==> r.addr == pl.addr && arena.heap.calls == old(arena.heap.calls))
        && (pl.Fallback? ==>
              && arena.heap.lo <= r.addr
              && arena.heap.calls == old(arena.heap.calls) + [FallbackAlloc(n * elemSize, elemAlign, r.addr)])
    {
      OverflowGuard(n, elemSize);
      if n > WordMax / elemSize {
        return BadAlloc;
      }
      var p := arena.Allocate(n * elemSize, elemAlign);
      r := Allocated(p);
    }

    /** `deallocate(p, n)`: forwards to the arena. */
    method Deallocate(p: Word, n: Word)
      modifies arena.heap
      ensures arena.heap.calls == old(arena.heap.calls) + (if arena.Owns(p) then [] else [FallbackFree(p)])
    {
      arena.Deallocate(p, (n * elemSize) % AddrSpace);
    }

    /** `operator==`: the same arena. */
    predicate Equals(o: StackAllocator)
    {
      arena == o.arena
    }

    /** `operator!=`: different arenas. */
    predicate NotEquals(o: StackAllocator): (r: bool)
      ensures r <==> !Equals(o)
    {
      arena != o.arena
    }
  }

  /** The guard of `StackAllocator::allocate`, `n > size_t(-1) / sizeof(T)`,
      holds exactly when `n * sizeof(T)` does not fit in a word. */
  lemma OverflowGuard(n: nat, s: nat)
    requires s > 0
    ensures n > WordMax / s <==> n * s > WordMax
  {
    var q := WordMax / s;
    assert WordMax == s * q + WordMax % s;
    MulAwayFromZero(s, n - q);
    Distribute(s, n, q);
  }

  /** `align_ptr` for a power of two computes `p + (alignment - p % alignment) % alignment`
      modulo 2^64. */
  lemma AlignPtrValue(p: Word, alignment: Word)
    requires IsPow2(alignment)
    ensures AlignPtr(p, alignment) == (p + (alignment - p % alignment) % alignment) % AddrSpace
  {
    MisalignValue(p, alignment);
    AdjustValue(p, alignment);
  }

  /** `p & (alignment - 1)` is `p % alignment`. */
  lemma MisalignValue(p: Word, alignment: Word)
    requires IsPow2(alignment)
    ensures And(p, WordSub(alignment, 1)) == p % alignment
  {
    assert WordSub(alignment, 1) == alignment - 1;
    AndLowMask(p, alignment);
  }

  /** `(alignment - p % alignment) & (alignment - 1)` is that difference modulo `alignment`. */
  lemma AdjustValue(p: Word, alignment: Word)
    requires IsPow2(alignment)
    ensures And(WordSub(alignment, p % alignment), WordSub(alignment, 1)) == (alignment - p % alignment) % alignment
  {
    assert WordSub(alignment, 1) == alignment - 1;
    assert WordSub(alignment, p % alignment) == alignment - p % alignment;
    AndLowMask(alignment - p % alignment, alignment);
  }

  /** An unaligned `p` rounds up to the next multiple of `a`, less than `a`
      above it. */
  lemma RoundUpUnaligned(p: nat, a: nat) returns (s: nat)
    requires a > 0 && p % a != 0
    ensures s == p + (a - p % a) % a
    ensures p < s < p + a && s % a == 0 && s == a * (p / a + 1)
  {
    var r, k := p % a, p / a;
    DivMod(p, a);
    ModUnique(a - r, a, 0, a - r);
    s := p + (a - r);
    Distribute(a, k + 1, 1);
    assert s == a * (k + 1);
    ModUnique(s, a, k + 1, 0);
  }

  /** The next multiple of `a` above a word is at most 2^64 when `a` divides 2^64. */
  lemma RoundUpAtMostTop(p: Word, a: nat, K: nat, s: nat)
    requires a > 0 && AddrSpace == a * K
    requires s == a * (p / a + 1)
    ensures s <= AddrSpace
  {
    var k := p / a;
    DivMod(p, a);
    Distribute(a, K, k);
    MulAwayFromZero(a, K - k);
    assert K - k >= 1;
    Distribute(a, K, k + 1);
    MulAwayFromZero(a, K - k - 1);
  }

  /** The arithmetic behind `align_ptr`: `p` rounded up to a multiple of `a`,
      reduced modulo 2^64. */
  lemma {:induction false} RoundUpFacts(p: Word, a: nat, K: nat)
    requires a > 0 && AddrSpace == a * K
    ensures var q := (p + (a - p % a) % a) % AddrSpace;
      && q % a == 0
      && (q >= p ==> q - p < a)
      && (q < p <==> q == 0 && p % a != 0 && AddrSpace - p < a)
  {
    var q := (p + (a - p % a) % a) % AddrSpace;
    if p % a == 0 {
      ModUnique(a, a, 1, 0);
      assert (a - p % a) % a == 0;
      assert q == p;
    } else {
      var s := RoundUpUnaligned(p, a);
      RoundUpAtMostTop(p, a, K, s);
      if s < AddrSpace {
        assert q == s;
      } else {
        assert s == AddrSpace;
        assert q == 0;
        assert AddrSpace - p < a;
      }
    }
  }

  /** `align_ptr(p, a)` for a power of two `a` is `a`-aligned and less than `a`
      above `p`; it lies below `p` only when it wrapped to 0, which happens
      exactly when `p` is unaligned and within `a` of the top of the address
      space. */
  lemma AlignPtrFacts(p: Word, a: Word)
    requires IsPow2(a)
    ensures AlignPtr(p, a) % a == 0
    ensures AlignPtr(p, a) >= p ==> AlignPtr(p, a) - p < a
    ensures AlignPtr(p, a) < p <==> AlignPtr(p, a) == 0 && p % a != 0 && AddrSpace - p < a
  {
    AlignPtrValue(p, a);
    var K := Pow2Cofactor(a);
    RoundUpFacts(p, a, K);
  }

  /** Two multiples of `a` less than `a` apart (in that order) are equal. */
  lemma CloseMultiples(a: nat, x: nat, y: nat)
    requires a > 0 && x % a == 0 && y % a == 0 && y <= x < y + a
    ensures x == y
  {
    var m1, m2 := x / a, y / a;
    ModUnique(x, a, m1, 0);
    ModUnique(y, a, m2, 0);
    Distribute(a, m1, m2);
    MulAwayFromZero(a, m1 - m2);
  }

  /** No `a`-aligned address lies between `p` and `align_ptr(p, a)`: it is the
      least aligned address not below `p`. */
  lemma AlignPtrIsLeast(p: Word, a: Word, q: nat)
    requires IsPow2(a) && AlignPtr(p, a) >= p
    requires p <= q && q % a == 0
    ensures AlignPtr(p, a) <= q
  {
    AlignPtrFacts(p, a);
    var al := AlignPtr(p, a);
    if q < al {
      CloseMultiples(a, al, q);
    }
  }

  /** A block the arena serves lies inside the buffer at or after the cursor,
      within `alignment` of it and `alignment`-aligned. */
  lemma PlaceBounds(base: Word, N: nat, ptr: Word, n: Word, alignment: Word)
    requires IsPow2(alignment) && base <= ptr <= base + N < AddrSpace
    ensures var pl := Place(base, N, ptr, n, alignment);
      pl.InArena? ==>
        && ptr <= pl.addr && pl.addr - ptr < alignment && pl.addr % alignment == 0
        && base <= pl.addr && pl.addr + n <= base + N
  {
    AlignPtrFacts(ptr, alignment);
  }

  /** The arena serves a request exactly when some aligned block at or after
      the cursor fits before the buffer's end. */
  lemma PlaceInArena(base: Word, N: nat, ptr: Word, n: Word, alignment: Word)
    requires IsPow2(alignment) && base <= ptr <= base + N < AddrSpace
    ensures Place(base, N, ptr, n, alignment).InArena? <==>
      exists q: nat :: ptr <= q && q % alignment == 0 && q + n <= base + N
  {
    AlignPtrFacts(ptr, alignment);
    var al := AlignPtr(ptr, alignment);
    if al >= ptr && al + n <= base + N {
      assert ptr <= al && al % alignment == 0 && al + n <= base + N;
    }
    if q: nat :| ptr <= q && q % alignment == 0 && q + n <= base + N {
      if al < ptr {
        Pow2DividesAddrSpace(alignment);
        CloseMultiples(alignment, AddrSpace, q);
      } else {
        AlignPtrIsLeast(ptr, alignment, q);
      }
    }
  }

  /** Serving a request never moves the cursor back and never past the
      buffer's end; it moves exactly when the request is served in the arena. */
  lemma CursorAdvances(base: Word, N: nat, ptr: Word, n: Word, alignment: Word)
    requires IsPow2(alignment) && base <= ptr <= base + N < AddrSpace
    ensures var pl := Place(base, N, ptr, n, alignment);
      ptr <= NextCursor(pl, ptr, n) <= base + N
    ensures var pl := Place(base, N, ptr, n, alignment);
      NextCursor(pl, ptr, n) != ptr ==> pl.InArena?
  {
    PlaceBounds(base, N, ptr, n, alignment);
  }

  /** An address that is already aligned is left where it is. */
  lemma AlignPtrOfAligned(p: Word, a: Word)
    requires IsPow2(a) && p % a == 0
    ensures AlignPtr(p, a) == p
  {
    AlignPtrFacts(p, a);
    CloseMultiples(a, AlignPtr(p, a), p);
  }

  /** Divisibility is transitive. */
  lemma DividesTrans(a: nat, b: nat, x: nat)
    requires a > 0 && b > 0 && b % a == 0 && x % b == 0
    ensures x % a == 0
  {
    var m, k := b / a, x / b;
    ModUnique(b, a, m, 0);
    ModUnique(x, b, k, 0);
    assert x == (a * m) * k;
    assert x == a * (m * k);
    ModUnique(x, a, m * k, 0);
  }

  /** The first request on a fresh (or reset) arena whose alignment does not
      exceed the buffer's `Alignment`, and whose size fits, is placed at the
      start of the buffer. */
  lemma FreshArenaPlacesAtBase(base: Word, N: nat, Alignment: nat, n: Word, alignment: Word)
    requires IsPow2(Alignment) && base % Alignment == 0 && base + N < AddrSpace
    requires IsPow2(alignment) && alignment <= Alignment && n <= N
    ensures Place(base, N, base, n, alignment) == InArena(base)
  {
    Pow2Divides(alignment, Alignment);
    DividesTrans(alignment, Alignment, base);
    AlignPtrOfAligned(base, alignment);
  }

  /** Memory the arena hands out is memory it owns (with the corrected `owns`),
      and memory the fallback hands out is not. */
  lemma ArenaOwnership(a: StackArena, p: Word, n: Word, alignment: Word)
    requires a.Valid() && IsPow2(alignment)
    ensures var pl := Place(a.base, a.N, a.ptr, n, alignment);
      pl.InArena? ==> a.Owns(pl.addr)
    ensures p >= a.heap.lo ==> !a.Owns(p)
  {
    PlaceBounds(a.base, a.N, a.ptr, n, alignment);
  }
}
