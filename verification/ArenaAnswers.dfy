/**
 What the calls of the arena allocator answer, told from the pool alone: when they succeed, where, and that freeing
 undoes allocating.
 */
module ArenaAnswers {
  import opened Wrappers
  import opened Arena

  function Times(a: nat, k: nat): nat {
    a * k
  }

  lemma {:induction false} MultiplesAreAligned(a: nat, k: nat)
    requires a > 0
    ensures Aligned(Times(a, k), a)
  {
    if k == 0 {
    } else {
      MultiplesAreAligned(a, k - 1);
      assert Aligned(a, a);
      AlignedSum(Times(a, k - 1), a, a);
      assert Times(a, k) == Times(a, k - 1) + a;
    }
  }

  lemma {:induction false} AlignDownIsMultiple(n: nat, a: nat) returns (k: nat)
    requires a > 0
    ensures AlignDown(n, a) == Times(a, k)
  {
    if n < a {
      return 0;
    } else {
      k := AlignDownIsMultiple(n - a, a);
      assert Times(a, k + 1) == Times(a, k) + a;
      k := k + 1;
    }
  }

  /** To be aligned is to be a multiple of the alignment. */
  lemma AlignedIsMultiple(n: nat, a: nat)
    requires a > 0
    ensures Aligned(n, a) <==> exists k :: n == Times(a, k)
  {
    var k := AlignDownIsMultiple(n, a);
    if j: nat :| n == Times(a, j) {
      MultiplesAreAligned(a, j);
    }
  }

  /** What is set aside for an allocation: the least multiple of the alignment that holds it. */
  lemma RoundedUp(n: nat, a: nat)
    requires a > 0
    ensures n <= AlignUp(n, a) < n + a && exists k :: AlignUp(n, a) == Times(a, k)
  {
    AlignUpFacts(n, a);
    AlignedIsMultiple(AlignUp(n, a), a);
  }

  // ---- allocating --------------------------------------------------------------------------------

  /**
   * An allocation succeeds exactly if the current arena has room or malloc gives a block. With room it is put at the
   * cursor, and nothing is asked of malloc; without, it is put at the base of a new arena in the block, behind all
   * others. On failure nothing changes.
   */
  lemma AllocateAnswers(p: Pool, size: nat, got: Option<nat>)
    requires Valid(p) && CanAllocate(p, size, got)
    ensures var (r, last) := (Allocate(p, size, got), p.arenas[|p.arenas| - 1]);
            var room := last.avail + AlignUp(size, p.align) <= last.limit;
            && (r.ptr.Some? <==> room || got.Some?)
            && (room ==> r.ptr == Some(last.avail)
                         && r.pool.arenas
                            == p.arenas[|p.arenas| - 1 := last.(avail := last.avail + AlignUp(size, p.align))])
            && (!room && got.Some? ==>
                  var n := |p.arenas|;
                  && |r.pool.arenas| == n + 1 && r.pool.arenas[..n] == p.arenas
                  && var made := r.pool.arenas[n];
                     made.addr == got.value == r.pool.current && r.ptr == Some(made.base)
                     && made.avail == made.base + AlignUp(size, p.align))
            && (if r.ptr.Some? then r.pool.live == p.live[r.ptr.value := size] else r.pool == p)
  {
    hide AlignDown, BlocksDisjoint, TenantsOk;
    AlignUpFacts(size, p.align);
    var n := |p.arenas|;
    if n > 1 {
      assert ArenaOk(p, n - 1);
    }
  }

  lemma AllocatedIsNew(p: Pool, size: nat, got: Option<nat>)
    requires Valid(p) && CanAllocate(p, size, got) && Allocate(p, size, got).ptr.Some?
    ensures Allocate(p, size, got).ptr.value !in p.live
  {
    hide AlignDown, NewArena, Gross;
    var q := Allocate(p, size, got).ptr.value;
    if q in p.live {
      assert LiveOk(p, q);
      var i: nat :| Holds(p, i, q);
      AllocateKeepsHolding(p, size, got, i, q);
    }
  }

  /** What fits behind something in a plain arena is not oversized. */
  lemma PlainIsSmall(p: Pool, i: nat, size: nat)
    requires Valid(p) && 1 <= i < |p.arenas| && p.arenas[i].header.None? && 0 < size
    requires Fits(p.arenas[i], AlignUp(size, p.align))
    ensures size <= p.arenasize
  {
    hide BlocksDisjoint, TenantsOk, AlignDown;
    var a := p.arenas[i];
    assert ArenaOk(p, i);
    AlignUpFacts(size, p.align);
    AlignedSum(p.arenasize, a.base, p.align);
    AlignedSum(a.avail, AlignUp(size, p.align), p.align);
    AlignedGap(a.avail + AlignUp(size, p.align), a.base + p.arenasize, p.align);
  }

  lemma FreeUndoesBump(p: Pool, size: nat, got: Option<nat>)
    requires Valid(p) && CanAllocate(p, size, got) && Fits(Last(p), AlignUp(size, p.align))
    ensures var r := Allocate(p, size, got);
            var last := |p.arenas| - 1;
            && r.ptr.Some? && last >= 1
            && CanFree(r.pool, last, r.ptr.value) && Free(r.pool, last, r.ptr.value) == p
  {
    hide AlignDown, AlignUp, BlocksDisjoint, TenantsOk, Gross, NewArena;
    var r := Allocate(p, size, got);
    var q, n := r.ptr.value, |p.arenas|;
    AlignUpFacts(size, p.align);
    RoomMeansPlain(p, n - 1, AlignUp(size, p.align));
    AllocatedIsNew(p, size, got);
    assert ArenaOk(p, n - 1);
    PlainIsSmall(p, n - 1, size);
    assert r.pool.arenas[n - 1 := p.arenas[n - 1]] == p.arenas;
    assert p.live[q := size] - {q} == p.live;
  }

  lemma FreeUndoesNewArena(p: Pool, size: nat, got: Option<nat>)
    requires Valid(p) && CanAllocate(p, size, got) && !Fits(Last(p), AlignUp(size, p.align)) && got.Some?
    ensures var r := Allocate(p, size, got);
            var last := |p.arenas|;
            && r.ptr.Some? && |r.pool.arenas| == last + 1 && last >= 1
            && CanFree(r.pool, last, r.ptr.value) && Free(r.pool, last, r.ptr.value) == p
  {
    hide AlignDown, AlignUp, BlocksDisjoint, TenantsOk, Gross, NewArena;
    var r := Allocate(p, size, got);
    var q, n := r.ptr.value, |p.arenas|;
    AlignUpFacts(size, p.align);
    AllocatedIsNew(p, size, got);
    assert r.pool.arenas[..n] == p.arenas && r.pool.arenas[n + 1..] == [];
    assert p.live[q := size] - {q} == p.live;
  }

  /** Freeing what has just been allocated gives back the pool as it was. */
  lemma FreeUndoesAllocate(p: Pool, size: nat, got: Option<nat>)
    requires Valid(p) && CanAllocate(p, size, got) && Allocate(p, size, got).ptr.Some?
    ensures var r := Allocate(p, size, got);
            var last := |r.pool.arenas| - 1;
            last >= 1 && CanFree(r.pool, last, r.ptr.value) && Free(r.pool, last, r.ptr.value) == p
  {
    AllocateAnswers(p, size, got);
    if Fits(Last(p), AlignUp(size, p.align)) {
      FreeUndoesBump(p, size, got);
    } else {
      FreeUndoesNewArena(p, size, got);
    }
    hide Allocate, Free, AlignDown;
  }

  // ---- freeing -----------------------------------------------------------------------------------

  /**
   * Freeing takes away just the allocation. An arena that it started is given back, and the others keep their places
   * and cursors; otherwise the cursor of its arena comes back to where the allocation was, and nothing else moves.
   */
  lemma FreeAnswers(p: Pool, i: nat, q: nat)
    requires Valid(p) && CanFree(p, i, q)
    ensures var p' := Free(p, i, q);
            && p'.live == p.live - {q}
            && if q == p.arenas[i].base then
                 |p'.arenas| == |p.arenas| - 1
                 && forall k :: 0 <= k < |p'.arenas| ==>
                      var (was, now) := (p.arenas[if k < i then k else k + 1], p'.arenas[k]);
                      now.addr == was.addr && now.base == was.base && now.limit == was.limit && now.avail == was.avail
               else
                 p'.arenas == p.arenas[i := p.arenas[i].(avail := q)]
  {
    hide AlignDown, BlocksDisjoint, TenantsOk;
    OversizedOwnsArena(p, q, i);
  }

  lemma SizeIsPositive(p: Pool, q: nat)
    requires Valid(p) && q in p.live
    ensures p.live[q] > 0
  {
    hide AlignDown;
    assert LiveOk(p, q);
  }

  // ---- growing -----------------------------------------------------------------------------------

  /**
   * A grow succeeds if malloc or realloc gives a block, and without asking for one if the allocation is the last of the
   * pool and its arena has room, or if it may be copied behind the cursor. On success the allocation has its new size,
   * in place if it was the last and there was room; on failure nothing changes.
   */
  lemma GrowAnswers(p: Pool, i: nat, q: nat, incr: nat, got: Option<nat>)
    requires Valid(p) && CanGrow(p, i, q, incr, got)
    ensures var (r, last, need) := (Grow(p, i, q, incr, got), p.arenas[|p.arenas| - 1], p.live[q] + incr);
            var isLast := q + AlignUp(p.live[q], p.align) == last.avail;
            var inPlace := isLast && q + AlignUp(need, p.align) <= last.limit;
            var whole := p.live[q] > p.arenasize || (isLast && q == last.base);
            var behind := !whole && last.avail + AlignUp(need, p.align) <= last.limit;
            && (r.ptr.Some? <==> inPlace || behind || got.Some?)
            && (inPlace ==> r.ptr == Some(q) && |r.pool.arenas| == |p.arenas|)
            && (!inPlace && whole ==> |r.pool.arenas| == |p.arenas|)
            && (!inPlace && behind ==> r.ptr == Some(last.avail) && |r.pool.arenas| == |p.arenas|)
            && (!inPlace && !whole && !behind && r.ptr.Some? ==> |r.pool.arenas| == |p.arenas| + 1)
            && (if r.ptr.Some? then r.pool.live == (p.live - {q})[r.ptr.value := need] else r.pool == p)
  {
    hide AlignDown, BlocksDisjoint, TenantsOk, ReallocArena, Gross, NewArena, AlignUp;
    var need := p.live[q] + incr;
    SizeIsPositive(p, q);
    RouteFacts(p, i, q, incr);
    AlignUpFacts(need, p.align);
    AlignUpFacts(p.live[q], p.align);
    match GrowRoute(p, q, incr)
    case InPlace =>
      assert p.live[q := need] == (p.live - {q})[q := need];
    case ByRealloc =>
    case ByCopy =>
      AllocateAnswers(p, need, got);
      if Allocate(p, need, got).ptr.Some? {
        AllocatedIsNew(p, need, got);
        var t := Allocate(p, need, got).ptr.value;
        assert p.live[t := need] - {q} == (p.live - {q})[t := need];
      }
  }
}
