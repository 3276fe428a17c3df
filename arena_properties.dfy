/** Properties of the arena over several requests, and the three places where
    stack_allocator.h as written departs from what it evidently intends. */
module ArenaProperties {
  import opened Bits
  import opened StackAlloc

  /** One `allocate(size, alignment)` call. */
  datatype Request = Request(size: Word, alignment: Word)

  predicate AlignmentsArePow2(reqs: seq<Request>)
  {
    forall k :: 0 <= k < |reqs| ==> IsPow2(reqs[k].alignment)
  }

  /** Successive `allocate` calls from cursor `ptr`: the final cursor and where
      each request was placed. Between the calls the cursor stays inside the
      buffer, and every block served from the buffer lies between the first
      cursor and the last. */
  function Serve(base: Word, N: nat, ptr: Word, reqs: seq<Request>): (r: (Word, seq<Placement>))
    requires base <= ptr <= base + N < AddrSpace && AlignmentsArePow2(reqs)
    ensures ptr <= r.0 <= base + N && |r.1| == |reqs|
    ensures forall k :: 0 <= k < |reqs| && r.1[k].InArena? ==>
      ptr <= r.1[k].addr && r.1[k].addr + reqs[k].size <= r.0
    decreases |reqs|
  {
    if reqs == [] then (ptr, [])
    else
      var pl := Place(base, N, ptr, reqs[0].size, reqs[0].alignment);
      PlaceBounds(base, N, ptr, reqs[0].size, reqs[0].alignment);
      var rest := Serve(base, N, NextCursor(pl, ptr, reqs[0].size), reqs[1..]);
      (rest.0, [pl] + rest.1)
  }

  /** The first of successive calls, and the cursor the rest start from. */
  lemma ServeFirst(base: Word, N: nat, ptr: Word, reqs: seq<Request>) returns (next: Word)
    requires base <= ptr <= base + N < AddrSpace && AlignmentsArePow2(reqs) && reqs != []
    ensures base <= next <= base + N && AlignmentsArePow2(reqs[1..])
    ensures var pls := Serve(base, N, ptr, reqs).1;
      && pls == [pls[0]] + Serve(base, N, next, reqs[1..]).1
      && (pls[0].InArena? ==> pls[0].addr + reqs[0].size == next)
  {
    var pl := Place(base, N, ptr, reqs[0].size, reqs[0].alignment);
    CursorAdvances(base, N, ptr, reqs[0].size, reqs[0].alignment);
    next := NextCursor(pl, ptr, reqs[0].size);
  }

  /** No two blocks served from the buffer overlap: an earlier one ends at or
      before a later one starts. */
  ghost predicate Disjoint(pls: seq<Placement>, reqs: seq<Request>)
    requires |pls| == |reqs|
  {
    forall i, j :: 0 <= i < j < |reqs| && pls[i].InArena? && pls[j].InArena? ==>
      pls[i].addr + reqs[i].size <= pls[j].addr
  }

  /** A block ending at `next`, in front of disjoint blocks at or after `next`,
      keeps them disjoint. */
  lemma DisjointCons(pls: seq<Placement>, reqs: seq<Request>, next: nat, rest: seq<Placement>)
    requires |pls| == |reqs| > 0 && pls == [pls[0]] + rest
    requires Disjoint(rest, reqs[1..])
    requires pls[0].InArena? ==> pls[0].addr + reqs[0].size == next
    requires forall k :: 0 <= k < |rest| && rest[k].InArena? ==> next <= rest[k].addr
    ensures Disjoint(pls, reqs)
  {
    forall i, j | 0 <= i < j < |reqs| && pls[i].InArena? && pls[j].InArena?
      ensures pls[i].addr + reqs[i].size <= pls[j].addr
    {
      assert pls[j] == rest[j - 1];
      if i > 0 {
        assert pls[i] == rest[i - 1];
        assert reqs[1..][i - 1] == reqs[i];
      }
    }
  }

  /** Blocks served from the buffer by successive calls never overlap. */
  lemma {:induction false} ServeDisjoint(base: Word, N: nat, ptr: Word, reqs: seq<Request>)
    requires base <= ptr <= base + N < AddrSpace && AlignmentsArePow2(reqs)
    ensures Disjoint(Serve(base, N, ptr, reqs).1, reqs)
    decreases |reqs|
  {
    if reqs != [] {
      var next := ServeFirst(base, N, ptr, reqs);
      ServeDisjoint(base, N, next, reqs[1..]);
      DisjointCons(Serve(base, N, ptr, reqs).1, reqs, next, Serve(base, N, next, reqs[1..]).1);
    }
  }

  /** Bytes requested by the calls that the buffer served. */
  function ArenaBytes(reqs: seq<Request>, pls: seq<Placement>): nat
    requires |pls| == |reqs|
  {
    if reqs == [] then 0
    else (if pls[0].InArena? then reqs[0].size else 0) + ArenaBytes(reqs[1..], pls[1..])
  }

  /** The most padding those calls can have needed: `alignment - 1` each. */
  function MaxPadding(reqs: seq<Request>, pls: seq<Placement>): nat
    requires |pls| == |reqs| && AlignmentsArePow2(reqs)
  {
    if reqs == [] then 0
    else (if pls[0].InArena? then reqs[0].alignment - 1 else 0) + MaxPadding(reqs[1..], pls[1..])
  }

  /** What successive calls add to `used()` is the bytes the buffer served plus
      the alignment padding in front of them: at least the bytes, at most the
      bytes plus `alignment - 1` per served call. With alignment 1 throughout it
      is exactly the bytes served. */
  lemma {:induction false} ServeUsage(base: Word, N: nat, ptr: Word, reqs: seq<Request>)
    requires base <= ptr <= base + N < AddrSpace && AlignmentsArePow2(reqs)
    ensures var r := Serve(base, N, ptr, reqs);
      ArenaBytes(reqs, r.1) <= r.0 - ptr <= ArenaBytes(reqs, r.1) + MaxPadding(reqs, r.1)
    decreases |reqs|
  {
    if reqs != [] {
      var pl := Place(base, N, ptr, reqs[0].size, reqs[0].alignment);
      PlaceBounds(base, N, ptr, reqs[0].size, reqs[0].alignment);
      var next := NextCursor(pl, ptr, reqs[0].size);
      var rest := Serve(base, N, next, reqs[1..]);
      var pls := [pl] + rest.1;
      assert Serve(base, N, ptr, reqs) == (rest.0, pls);
      assert pls[1..] == rest.1;
      ServeUsage(base, N, next, reqs[1..]);
    }
  }

  /** The alignment padding of the served blocks, walking the cursor from
      `ptr`: the gap in front of each block served from the buffer, with the
      cursor then at that block's end. */
  function Padding(ptr: int, reqs: seq<Request>, pls: seq<Placement>): int
    requires |pls| == |reqs|
    decreases |reqs|
  {
    if reqs == [] then 0
    else if pls[0].InArena? then (pls[0].addr - ptr) + Padding(pls[0].addr + reqs[0].size, reqs[1..], pls[1..])
    else Padding(ptr, reqs[1..], pls[1..])
  }

  /** What successive calls add to `used()` is exactly the bytes the buffer
      served plus the padding in front of each of those blocks. */
  lemma {:induction false} ServeUsedExactly(base: Word, N: nat, ptr: Word, reqs: seq<Request>)
    requires base <= ptr <= base + N < AddrSpace && AlignmentsArePow2(reqs)
    ensures var r := Serve(base, N, ptr, reqs);
      r.0 - ptr == ArenaBytes(reqs, r.1) + Padding(ptr, reqs, r.1)
    decreases |reqs|
  {
    if reqs != [] {
      var pl := Place(base, N, ptr, reqs[0].size, reqs[0].alignment);
      PlaceBounds(base, N, ptr, reqs[0].size, reqs[0].alignment);
      var next := NextCursor(pl, ptr, reqs[0].size);
      var rest := Serve(base, N, next, reqs[1..]);
      var pls := [pl] + rest.1;
      assert Serve(base, N, ptr, reqs) == (rest.0, pls);
      assert pls[1..] == rest.1;
      ServeUsedExactly(base, N, next, reqs[1..]);
    }
  }

  // ---------------------------------------------------------------------
  // Finding 1: the alignment adjustment can wrap past the top of the
  // address space; the source then serves address 0 and moves the cursor
  // below the buffer.

  lemma AlignmentWrapEscapesBuffer()
    ensures var base, N := AddrSpace - 8192, 4096;
      var ptr := base + 16;
      && PlaceAsWritten(base, N, ptr, 1, 8192) == InArena(0)
      && NextCursor(InArena(0), ptr, 1) < base
      && Place(base, N, ptr, 1, 8192) == Fallback
  {
    var p := AddrSpace - 8192 + 16;
    assert IsPow2(8192);
    AlignPtrValue(p, 8192);
    ModUnique(p, 8192, 2251799813685247, 16);
    ModUnique(8176, 8192, 0, 8176);
    assert p + 8176 == AddrSpace;
    ModUnique(AddrSpace, AddrSpace, 1, 0);
    assert AlignPtr(p, 8192) == 0;
  }

  // ---------------------------------------------------------------------
  // Finding 2: the runtime check `(alignment & (alignment - 1)) == 0` also
  // admits alignment 0, for which `align_ptr` yields address 0 from any
  // cursor, and `allocate` serves it whenever `n` is below the buffer's end.

  lemma ZeroAlignmentAlignsToNull(p: Word)
    ensures AlignmentAsserted(0)
    ensures AlignPtr(p, 0) == 0
  {
    WordIsPow2();
    var mask := WordSub(0, 1);
    assert mask == AddrSpace - 1;
    AndLowMask(p, AddrSpace);
    ModUnique(p, AddrSpace, 0, p);
    var misalign := And(p, mask);
    assert misalign == p;
    var d := WordSub(0, misalign);
    AndLowMask(d, AddrSpace);
    ModUnique(d, AddrSpace, 0, d);
    assert And(d, mask) == d;
    if p == 0 {
      ModUnique(0, AddrSpace, 0, 0);
    } else {
      assert p + d == AddrSpace;
      ModUnique(AddrSpace, AddrSpace, 1, 0);
    }
    assert AlignPtr(p, 0) == (p + d) % AddrSpace;
  }

  lemma ZeroAlignmentServesNull(base: Word, N: nat, ptr: Word, n: Word)
    requires base <= ptr <= base + N < AddrSpace && n <= base + N
    ensures AlignmentAsserted(0)
    ensures PlaceAsWritten(base, N, ptr, n, 0) == InArena(0)
  {
    ZeroAlignmentAlignsToNull(ptr);
  }

  /** For every non-zero alignment the check means what it says. */
  lemma AssertedAlignmentIsPow2(a: Word)
    requires a > 0
    ensures AlignmentAsserted(a) <==> IsPow2(a)
  {
    PowerOfTwoTest(a);
  }

  // ---------------------------------------------------------------------
  // Finding 3: a zero-byte request on a full arena is served at the
  // one-past-the-end address, which `owns` as written rejects, so
  // `deallocate` would pass a buffer address to `fallback_free`.

  lemma ZeroByteBlockNotOwnedAsWritten(base: Word, N: nat)
    requires base + N < AddrSpace
    ensures PlaceAsWritten(base, N, base + N, 0, 1) == InArena(base + N)
    ensures !OwnsAsWritten(base, N, base + N)
  {
    assert IsPow2(1);
    AlignPtrOfAligned(base + N, 1);
  }
}
