/**
 Runs of arena pool operations: every reachable pool is sound, releasing to a mark undoes everything
 done since the mark, and growing moves an allocation without losing or disturbing bytes.
 */
module ArenaRuns {
  import opened Wrappers
  import opened Arena

  /** One call on a pool. `i` and `k` say which arena holds the allocation or the mark; `got` is
      what malloc or realloc answers if it is asked. */
  datatype Op =
    | Allocating(size: nat, got: Option<nat>)
    | Growing(i: nat, q: nat, incr: nat, got: Option<nat>)
    | Freeing(i: nat, q: nat)
    | Releasing(k: nat, mark: nat)

  ghost predicate Legal(p: Pool, op: Op)
    requires p.align > 0
  {
    match op
    case Allocating(size, got) => CanAllocate(p, size, got)
    case Growing(i, q, incr, got) => CanGrow(p, i, q, incr, got)
    case Freeing(i, q) => CanFree(p, i, q)
    case Releasing(k, mark) => CanRelease(p, k, mark)
  }

  ghost function Step(p: Pool, op: Op): Pool
    requires Valid(p) && Legal(p, op)
  {
    match op
    case Allocating(size, got) => Allocate(p, size, got).pool
    case Growing(i, q, incr, got) => Grow(p, i, q, incr, got).pool
    case Freeing(i, q) => Free(p, i, q)
    case Releasing(k, mark) => Release(p, k, mark)
  }

  lemma StepIsValid(p: Pool, op: Op)
    requires Valid(p) && Legal(p, op)
    ensures Valid(Step(p, op))
  {
    hide AlignDown, Allocate, Grow, Free, Release;
    match op
    case Allocating(size, got) => AllocateIsValid(p, size, got);
    case Growing(i, q, incr, got) => GrowIsValid(p, i, q, incr, got);
    case Freeing(i, q) => FreeIsValid(p, i, q);
    case Releasing(k, mark) => ReleaseIsValid(p, k, mark);
  }

  /** p' is reached from p by the calls ops, each legal where it is made. */
  ghost predicate Reaches(p: Pool, ops: seq<Op>, p': Pool)
    requires Valid(p)
    decreases |ops|
  {
    if ops == [] then p' == p
    else
      Legal(p, ops[0]) &&
      (StepIsValid(p, ops[0]);
       Reaches(Step(p, ops[0]), ops[1..], p'))
  }

  /** Exactly one arena holds q in [base, avail). */
  ghost predicate OneHolder(p: Pool, q: nat)
    requires p.align > 0 && q in p.live
  {
    exists i: nat :: Holds(p, i, q) && forall j: nat :: Holds(p, j, q) ==> j == i
  }

  /** Consuming more than arenasize, carrying a header and naming the predecessor go together. */
  ghost predicate HeaderRule(p: Pool, i: nat)
    requires 1 <= i < |p.arenas|
  {
    var a := p.arenas[i];
    a.header == if a.avail - a.base > p.arenasize then Some(p.arenas[i - 1].addr) else None
  }

  lemma SoundPool(p: Pool)
    requires Valid(p)
    ensures forall q :: q in p.live ==> Aligned(q, p.align) && OneHolder(p, q)
    ensures forall q, r :: q in p.live && r in p.live && q != r ==>
              q + p.live[q] <= r || r + p.live[r] <= q
    ensures forall i :: 1 <= i < |p.arenas| ==> HeaderRule(p, i)
  {
    hide AlignDown;
    forall q | q in p.live
      ensures Aligned(q, p.align) && OneHolder(p, q) && Extent(p, q) >= p.live[q]
    {
      assert LiveOk(p, q);
      AlignUpFacts(p.live[q], p.align);
      var i: nat :| Holds(p, i, q);
      forall j: nat | Holds(p, j, q)
        ensures j == i
      {
        HeldOnce(p, q, i, j);
      }
    }
    forall i | 1 <= i < |p.arenas|
      ensures HeaderRule(p, i)
    {
      OversizedHasHeader(p, i);
    }
  }

  /** The invariant of the allocator, in the words of its source, after any run of calls. */
  lemma {:induction false} RunIsSound(p: Pool, ops: seq<Op>, p': Pool)
    requires Valid(p) && Reaches(p, ops, p')
    ensures Valid(p')
    ensures p'.current == Last(p').addr
    ensures forall q :: q in p'.live ==> Aligned(q, p'.align) && OneHolder(p', q)
    ensures forall q, r :: q in p'.live && r in p'.live && q != r ==>
              q + p'.live[q] <= r || r + p'.live[r] <= q
    ensures forall i :: 1 <= i < |p'.arenas| ==> HeaderRule(p', i)
    decreases |ops|
  {
    if ops != [] {
      StepIsValid(p, ops[0]);
      RunIsSound(Step(p, ops[0]), ops[1..], p');
    } else {
      SoundPool(p);
    }
  }

  // ---- mark and release are a stack discipline -------------------------------------------------

  /** JS_ARENA_MARK. */
  function Mark(p: Pool): nat
    requires |p.arenas| > 0
  {
    Last(p).avail
  }

  /** Allocation q of p was made after the mark of p0. */
  ghost predicate Newer(p0: Pool, p: Pool, q: nat)
    requires p.align > 0 && |p0.arenas| > 0 && q in p.live
  {
    exists i: nat :: Holds(p, i, q) && (i >= |p0.arenas| || (i == |p0.arenas| - 1 && Mark(p0) <= q))
  }

  /** p extends p0: older arenas and allocations are as they were, all else is above p0's mark. */
  ghost predicate Since(p0: Pool, p: Pool)
    requires p.align > 0 && |p0.arenas| > 0
  {
    var n := |p0.arenas|;
    && n <= |p.arenas|
    && p == p0.(arenas := p.arenas, current := p.current, live := p.live)
    && p.arenas[..n - 1] == p0.arenas[..n - 1]
    && p.arenas[n - 1] == Last(p0).(avail := p.arenas[n - 1].avail)
    && Mark(p0) <= p.arenas[n - 1].avail
    && (forall q :: q in p0.live ==> q in p.live && p.live[q] == p0.live[q])
    && (forall q :: q in p.live && q !in p0.live ==> Newer(p0, p, q))
  }

  /** The call concerns only what is newer than p0: an allocation made since, or a nested mark. */
  predicate TouchesNewer(p0: Pool, op: Op)
    requires |p0.arenas| > 0
  {
    match op
    case Allocating(_, _) => true
    case Growing(_, q, _, _) => q !in p0.live
    case Freeing(_, q) => q !in p0.live
    case Releasing(k, mark) => k >= |p0.arenas| || (k == |p0.arenas| - 1 && Mark(p0) <= mark)
  }

  lemma AlignedMark(p: Pool)
    requires Valid(p)
    ensures Aligned(Mark(p), p.align) && AlignUp(Mark(p), p.align) == Mark(p)
    ensures |p.arenas| > 1 ==> Last(p).base < Mark(p)
    ensures Last(p).base <= Mark(p) && p.current == Last(p).addr
  {
    hide AlignDown;
    assert |p.arenas| > 1 ==> ArenaOk(p, |p.arenas| - 1);
    AlignedMeansExact(Mark(p), p.align);
  }

  lemma OlderIsBelow(p0: Pool, p: Pool, q: nat)
    requires Valid(p0) && Valid(p) && Since(p0, p) && q in p0.live
    ensures Below(p, |p0.arenas| - 1, Mark(p0), q)
    ensures Holds(p, |p0.arenas| - 1, q) ==> q + Extent(p, q) <= Mark(p0)
  {
    hide AlignDown;
    var n := |p0.arenas|;
    assert LiveOk(p0, q);
    AlignUpFacts(p.live[q], p.align);
    var i: nat :| Holds(p0, i, q);
    assert p.arenas[i] == if i < n - 1 then p.arenas[..n - 1][i] else p.arenas[n - 1];
    assert Holds(p, i, q);
    if Holds(p, n - 1, q) {
      HeldOnce(p, q, i, n - 1);
    }
  }

  lemma NewerIsNotBelow(p0: Pool, p: Pool, q: nat)
    requires Valid(p0) && Valid(p) && Since(p0, p) && q in p.live && q !in p0.live
    ensures !Below(p, |p0.arenas| - 1, Mark(p0), q)
    ensures Holds(p, |p0.arenas| - 1, q) ==> Mark(p0) <= q
  {
    hide AlignDown;
    var n := |p0.arenas|;
    var i: nat :| Holds(p, i, q) && (i >= n || (i == n - 1 && Mark(p0) <= q));
    forall j: nat | Holds(p, j, q)
      ensures j == i
    {
      HeldOnce(p, q, i, j);
    }
  }

  lemma MarkIsLegal(p0: Pool, p: Pool)
    requires Valid(p0) && Valid(p) && Since(p0, p)
    ensures CanRelease(p, |p0.arenas| - 1, Mark(p0))
  {
    hide AlignDown;
    AlignedMark(p0);
    forall q | q in p.live && Holds(p, |p0.arenas| - 1, q)
      ensures q + Extent(p, q) <= Mark(p0) || Mark(p0) <= q
    {
      if q in p0.live {
        OlderIsBelow(p0, p, q);
      } else {
        NewerIsNotBelow(p0, p, q);
      }
    }
  }

  lemma LiveBelowMark(p0: Pool, p: Pool)
    requires Valid(p0) && Valid(p) && Since(p0, p)
    ensures Release(p, |p0.arenas| - 1, Mark(p0)).live == p0.live
  {
    hide AlignDown, AlignUp, Holds, ArenaOk, Below;
    forall q | q in p.live
      ensures q in p0.live <==> Below(p, |p0.arenas| - 1, Mark(p0), q)
    {
      if q in p0.live {
        OlderIsBelow(p0, p, q);
      } else {
        NewerIsNotBelow(p0, p, q);
      }
    }
  }

  /** Releasing to the mark of p0 is legal in any extension of p0, and gives back p0. */
  lemma ReleaseRestores(p0: Pool, p: Pool)
    requires Valid(p0) && Valid(p) && Since(p0, p)
    ensures CanRelease(p, |p0.arenas| - 1, Mark(p0))
    ensures Release(p, |p0.arenas| - 1, Mark(p0)) == p0
  {
    hide AlignDown, ArenaOk, Below;
    var k := |p0.arenas| - 1;
    MarkIsLegal(p0, p);
    LiveBelowMark(p0, p);
    AlignedMark(p0);
    assert p.arenas[..k] + [Last(p0)] == p0.arenas;
  }

  // ---- every call that touches only newer things keeps the older pool below the mark -----------

  lemma SinceIsReflexive(p: Pool)
    requires Valid(p)
    ensures Since(p, p)
  {
    hide AlignDown;
  }

  /** The pointer answered lies in the last arena, at or above the cursor it had. */
  lemma AllocateIsAtTheEnd(p: Pool, size: nat, got: Option<nat>)
    requires Valid(p) && CanAllocate(p, size, got) && Allocate(p, size, got).ptr.Some?
    ensures var r := Allocate(p, size, got);
            && r.ptr.value in r.pool.live && |r.pool.arenas| >= 2 && |r.pool.arenas| >= |p.arenas|
            && Holds(r.pool, |r.pool.arenas| - 1, r.ptr.value)
            && (|r.pool.arenas| == |p.arenas| ==> r.ptr.value == Mark(p))
            && (|r.pool.arenas| > |p.arenas| ==> r.pool.arenas[..|p.arenas|] == p.arenas)
            && r.pool.live == p.live[r.ptr.value := size]
  {
    hide AlignDown, NewArena, Gross;
    AlignUpFacts(size, p.align);
    if Fits(Last(p), AlignUp(size, p.align)) {
      RoomMeansPlain(p, |p.arenas| - 1, AlignUp(size, p.align));
      assert ArenaOk(p, |p.arenas| - 1);
    }
  }

  lemma AllocateKeepsNewer(p0: Pool, p: Pool, size: nat, got: Option<nat>, q: nat)
    requires Valid(p0) && Valid(p) && Since(p0, p) && CanAllocate(p, size, got)
    requires q in Allocate(p, size, got).pool.live && q !in p0.live
    ensures Newer(p0, Allocate(p, size, got).pool, q)
  {
    hide AlignDown, AlignUp, NewArena, Gross, TenantsOk, BlocksDisjoint;
    var p' := Allocate(p, size, got).pool;
    if q in p.live {
      var i: nat :| Holds(p, i, q) && (i >= |p0.arenas| || (i == |p0.arenas| - 1 && Mark(p0) <= q));
      AllocateKeepsHolding(p, size, got, i, q);
      assert Holds(p', i, q);
    } else {
      AllocateIsAtTheEnd(p, size, got);
      assert Holds(p', |p'.arenas| - 1, q);
    }
  }

  lemma AllocateKeepsOlder(p: Pool, size: nat, got: Option<nat>, q: nat)
    requires Valid(p) && CanAllocate(p, size, got) && q in p.live
    ensures q in Allocate(p, size, got).pool.live && Allocate(p, size, got).pool.live[q] == p.live[q]
  {
    hide AlignDown, NewArena, Gross;
    assert LiveOk(p, q);
    var i: nat :| Holds(p, i, q);
    AllocateKeepsHolding(p, size, got, i, q);
  }

  lemma AllocateKeepsSince(p0: Pool, p: Pool, size: nat, got: Option<nat>)
    requires Valid(p0) && Valid(p) && Since(p0, p) && CanAllocate(p, size, got)
    ensures Since(p0, Allocate(p, size, got).pool)
  {
    hide AlignDown, AlignUp, NewArena, Gross, Newer, TenantsOk, BlocksDisjoint;
    var p' := Allocate(p, size, got).pool;
    forall q | q in p'.live && q !in p0.live
      ensures Newer(p0, p', q)
    {
      AllocateKeepsNewer(p0, p, size, got, q);
    }
    forall q | q in p0.live
      ensures q in p'.live && p'.live[q] == p0.live[q]
    {
      AllocateKeepsOlder(p, size, got, q);
    }
  }

  /** An allocation newer than p0 is not at the base of an arena p0 had. */
  lemma NewerOwnsNewerArena(p0: Pool, p: Pool, i: nat, q: nat)
    requires Valid(p0) && Valid(p) && Since(p0, p) && q in p.live && q !in p0.live && Holds(p, i, q)
    ensures i >= |p0.arenas| - 1
    ensures q == p.arenas[i].base ==> i >= |p0.arenas|
    ensures i == |p0.arenas| - 1 ==> Mark(p0) <= q
  {
    hide AlignDown;
    var n := |p0.arenas|;
    var j: nat :| Holds(p, j, q) && (j >= n || (j == n - 1 && Mark(p0) <= q));
    HeldOnce(p, q, i, j);
    if n > 1 {
      assert ArenaOk(p0, n - 1);
    }
  }

  /** A live allocation other than the one concerned stays newer or older as it was. */
  lemma SameHolderSameAge(p0: Pool, p: Pool, p': Pool, q: nat, i: nat, i': nat)
    requires Valid(p0) && Valid(p) && Since(p0, p) && q in p.live && q !in p0.live && Holds(p, i, q)
    requires p'.align == p.align && q in p'.live && Holds(p', i', q)
    requires i' == i || (i' == i - 1 && i > |p0.arenas|)
    ensures Newer(p0, p', q)
  {
    hide AlignDown;
    NewerOwnsNewerArena(p0, p, i, q);
  }

  lemma ReallocKeepsAge(p0: Pool, p: Pool, i: nat, incr: nat, addr: nat, r: nat)
    requires CanRealloc(p, i, incr, addr) && r in p.live && r != p.arenas[i].base
    requires Valid(p0) && Since(p0, p) && p.arenas[i].base !in p0.live
    ensures var p' := Realloc(p, i, incr, Some(addr)).pool;
            && p'.align == p.align && r in p'.live && p'.live[r] == p.live[r]
            && (r !in p0.live ==> Newer(p0, p', r))
  {
    hide AlignDown, Realloc, ReallocArena, ReallocGross, FreshBlock;
    var q := p.arenas[i].base;
    ReallocShape(p, i, incr, addr);
    assert LiveOk(p, r) && LiveOk(p, q) && Holds(p, i, q);
    var k: nat :| Holds(p, k, r);
    if k == i {
      SpanningTenantIsAlone(p, i, q, r);
    }
    ReallocMissesTenant(p, i, incr, addr, k, r);
    if r !in p0.live {
      SameHolderSameAge(p0, p, Realloc(p, i, incr, Some(addr)).pool, r, k, k);
    }
  }

  lemma ReallocLandsApart(p: Pool, i: nat, incr: nat, addr: nat, r: nat)
    requires CanRealloc(p, i, incr, addr) && r in p.live && r != p.arenas[i].base
    ensures |Realloc(p, i, incr, Some(addr)).pool.arenas| == |p.arenas|
    ensures r != Realloc(p, i, incr, Some(addr)).pool.arenas[i].base
  {
    hide AlignDown, Realloc, ReallocArena, ReallocGross, FreshBlock;
    ReallocShape(p, i, incr, addr);
    ReallocArenaFacts(p, p.arenas[i - 1].addr, addr, p.live[p.arenas[i].base] + incr);
    AlignUpFacts(p.live[p.arenas[i].base] + incr, p.align);
    assert LiveOk(p, r) && LiveOk(p, p.arenas[i].base) && Holds(p, i, p.arenas[i].base);
    AlignUpFacts(p.live[r], p.align);
    var k: nat :| Holds(p, k, r);
    if k == i {
      SpanningTenantIsAlone(p, i, p.arenas[i].base, r);
    }
    ReallocMissesTenant(p, i, incr, addr, k, r);
  }

  lemma ReallocKeepsSince(p0: Pool, p: Pool, i: nat, incr: nat, addr: nat)
    requires CanRealloc(p, i, incr, addr) && Valid(p0) && Since(p0, p) && p.arenas[i].base !in p0.live
    ensures Since(p0, Realloc(p, i, incr, Some(addr)).pool)
  {
    hide AlignDown, Realloc, ReallocArena, ReallocGross, FreshBlock, AlignUp, ArenaOk, BlocksDisjoint;
    var q := p.arenas[i].base;
    var p' := Realloc(p, i, incr, Some(addr)).pool;
    assert LiveOk(p, q) && Holds(p, i, q);
    NewerOwnsNewerArena(p0, p, i, q);
    ReallocShape(p, i, incr, addr);
    ReallocArenaFacts(p, p.arenas[i - 1].addr, addr, p.live[q] + incr);
    forall r | r in p.live && r != q
      ensures r in p'.live && p'.live[r] == p.live[r] && (r !in p0.live ==> Newer(p0, p', r))
      ensures r != p'.arenas[i].base
    {
      ReallocKeepsAge(p0, p, i, incr, addr, r);
      ReallocLandsApart(p, i, incr, addr, r);
    }
    assert Holds(p', i, p'.arenas[i].base);
    assert p'.arenas[..|p0.arenas| - 1] == p.arenas[..|p0.arenas| - 1];
  }

  lemma GrowInPlaceKeepsAge(p0: Pool, p: Pool, i: nat, q: nat, incr: nat, got: Option<nat>, r: nat)
    requires Valid(p0) && Valid(p) && Since(p0, p) && CanGrow(p, i, q, incr, got)
    requires GrowRoute(p, q, incr).InPlace? && r in p.live && r !in p0.live
    ensures Newer(p0, Grow(p, i, q, incr, got).pool, r)
  {
    hide AlignDown, ArenaOk, BlocksDisjoint;
    var p' := Grow(p, i, q, incr, got).pool;
    GrowInPlaceCursor(p, i, q, incr);
    assert LiveOk(p, r);
    var k: nat :| Holds(p, k, r);
    if r == q {
      NewerOwnsNewerArena(p0, p, i, q);
      assert Holds(p', i, q);
    } else {
      assert Holds(p', k, r);
      SameHolderSameAge(p0, p, p', r, k, k);
    }
  }

  lemma GrowInPlaceKeepsSince(p0: Pool, p: Pool, i: nat, q: nat, incr: nat, got: Option<nat>)
    requires Valid(p0) && Valid(p) && Since(p0, p) && CanGrow(p, i, q, incr, got) && q !in p0.live
    requires GrowRoute(p, q, incr).InPlace?
    ensures Since(p0, Grow(p, i, q, incr, got).pool)
  {
    hide AlignDown, AlignUp, ArenaOk, BlocksDisjoint;
    var p' := Grow(p, i, q, incr, got).pool;
    GrowInPlaceCursor(p, i, q, incr);
    NewerOwnsNewerArena(p0, p, i, q);
    forall r | r in p.live && r !in p0.live
      ensures Newer(p0, p', r)
    {
      GrowInPlaceKeepsAge(p0, p, i, q, incr, got, r);
    }
  }

  lemma GrowByCopyKeepsSince(p0: Pool, p: Pool, need: nat, q: nat, got: Option<nat>)
    requires Valid(p0) && Valid(p) && Since(p0, p) && CanAllocate(p, need, got) && q !in p0.live
    ensures var p1 := Allocate(p, need, got).pool; Since(p0, p1.(live := p1.live - {q}))
  {
    hide AlignDown, Allocate, AlignUp, ArenaOk, BlocksDisjoint, FreshBlock;
    var p1 := Allocate(p, need, got).pool;
    var p' := p1.(live := p1.live - {q});
    AllocateKeepsSince(p0, p, need, got);
    forall x | x in p'.live && x !in p0.live
      ensures Newer(p0, p', x)
    {
      var k: nat :| Holds(p1, k, x) && (k >= |p0.arenas| || (k == |p0.arenas| - 1 && Mark(p0) <= x));
      assert Holds(p', k, x);
    }
  }

  lemma ReallocFails(p: Pool, i: nat, incr: nat)
    requires p.align > 0 && 1 <= i < |p.arenas| && p.arenas[i].base in p.live
    ensures Realloc(p, i, incr, None) == Answer(p, None)
  {
  }

  lemma GrowKeepsSince(p0: Pool, p: Pool, i: nat, q: nat, incr: nat, got: Option<nat>)
    requires Valid(p0) && Valid(p) && Since(p0, p) && CanGrow(p, i, q, incr, got) && q !in p0.live
    ensures Since(p0, Grow(p, i, q, incr, got).pool)
  {
    hide AlignDown, Allocate, Realloc, Since, ArenaOk, BlocksDisjoint;
    RouteFacts(p, i, q, incr);
    assert LiveOk(p, q);
    match GrowRoute(p, q, incr) {
      case InPlace => GrowInPlaceKeepsSince(p0, p, i, q, incr, got);
      case ByRealloc =>
        if got.Some? {
          ReallocKeepsSince(p0, p, i, incr, got.value);
        } else {
          ReallocFails(p, i, incr);
        }
      case ByCopy =>
        AllocateKeepsSince(p0, p, p.live[q] + incr, got);
        GrowByCopyKeepsSince(p0, p, p.live[q] + incr, q, got);
    }
  }

  lemma RetractKeepsAge(p0: Pool, p: Pool, i: nat, q: nat, r: nat)
    requires Valid(p0) && Valid(p) && Since(p0, p) && CanFree(p, i, q)
    requires p.live[q] <= p.arenasize && q != p.arenas[i].base
    requires r in p.live && r !in p0.live && r != q
    ensures Newer(p0, Free(p, i, q), r)
  {
    hide AlignDown;
    assert LiveOk(p, r) && LiveOk(p, q);
    AlignUpFacts(p.live[r], p.align);
    AlignUpFacts(p.live[q], p.align);
    var k: nat :| Holds(p, k, r);
    assert Holds(Free(p, i, q), k, r);
    SameHolderSameAge(p0, p, Free(p, i, q), r, k, k);
  }

  lemma FreeKeepsAge(p0: Pool, p: Pool, i: nat, q: nat, r: nat)
    requires Valid(p0) && Valid(p) && Since(p0, p) && CanFree(p, i, q) && q !in p0.live
    requires r in p.live && r !in p0.live && r != q
    ensures Newer(p0, Free(p, i, q), r)
  {
    hide AlignDown, Unlink, BlocksDisjoint, ArenaOk, AlignUp;
    NewerOwnsNewerArena(p0, p, i, q);
    if p.live[q] > p.arenasize || q == p.arenas[i].base {
      OversizedOwnsArena(p, q, i);
      UnlinkShape(p, i);
      assert LiveOk(p, r);
      var k: nat :| Holds(p, k, r);
      if k == i {
        SpanningTenantIsAlone(p, i, q, r);
      }
      assert Holds(Free(p, i, q), if k < i then k else k - 1, r);
      SameHolderSameAge(p0, p, Free(p, i, q), r, k, if k < i then k else k - 1);
    } else {
      RetractKeepsAge(p0, p, i, q, r);
    }
  }

  lemma FreeKeepsSince(p0: Pool, p: Pool, i: nat, q: nat)
    requires Valid(p0) && Valid(p) && Since(p0, p) && CanFree(p, i, q) && q !in p0.live
    ensures Since(p0, Free(p, i, q))
  {
    hide AlignDown, Unlink;
    var p' := Free(p, i, q);
    NewerOwnsNewerArena(p0, p, i, q);
    OversizedOwnsArena(p, q, i);
    UnlinkShape(p, i);
    forall r | r in p'.live && r !in p0.live
      ensures Newer(p0, p', r)
    {
      FreeKeepsAge(p0, p, i, q, r);
    }
    assert p'.arenas[..|p0.arenas| - 1] == p.arenas[..|p0.arenas| - 1];
  }

  lemma ReleaseKeepsHolder(p: Pool, k: nat, mark: nat, i: nat, q: nat)
    requires Valid(p) && CanRelease(p, k, mark) && q in p.live && Holds(p, i, q)
    requires i < k || (i == k && q < mark)
    ensures q in Release(p, k, mark).live && Holds(Release(p, k, mark), i, q)
  {
    hide AlignDown;
    AlignedMeansExact(mark, p.align);
  }

  lemma ReleaseKeepsSince(p0: Pool, p: Pool, k: nat, mark: nat)
    requires Valid(p0) && Valid(p) && Since(p0, p) && CanRelease(p, k, mark)
    requires k >= |p0.arenas| || (k == |p0.arenas| - 1 && Mark(p0) <= mark)
    ensures Since(p0, Release(p, k, mark))
  {
    hide AlignDown;
    var p' := Release(p, k, mark);
    var n := |p0.arenas|;
    AlignedMeansExact(mark, p.align);
    forall q | q in p.live
      ensures q in p0.live ==> Below(p, k, mark, q)
      ensures q in p'.live && q !in p0.live ==> Newer(p0, p', q)
    {
      if q in p0.live {
        OlderIsBelow(p0, p, q);
      } else if q in p'.live {
        var i: nat :| Holds(p, i, q) && (i < k || (i == k && q < mark));
        ReleaseKeepsHolder(p, k, mark, i, q);
        SameHolderSameAge(p0, p, p', q, i, i);
      }
    }
    assert p'.arenas[..n - 1] == p.arenas[..n - 1];
  }

  lemma StepKeepsSince(p0: Pool, p: Pool, op: Op)
    requires Valid(p0) && Valid(p) && Since(p0, p) && Legal(p, op) && TouchesNewer(p0, op)
    ensures Since(p0, Step(p, op))
  {
    hide AlignDown, Allocate, Grow, Free, Release;
    match op
    case Allocating(size, got) => AllocateKeepsSince(p0, p, size, got);
    case Growing(i, q, incr, got) => GrowKeepsSince(p0, p, i, q, incr, got);
    case Freeing(i, q) => FreeKeepsSince(p0, p, i, q);
    case Releasing(k, mark) => ReleaseKeepsSince(p0, p, k, mark);
  }

  /** From any pool that has only grown on top of a marked one, and still does so in a run. */
  lemma {:induction false} ReleaseAfterRun(p0: Pool, p: Pool, ops: seq<Op>, p': Pool)
    requires Valid(p0) && Valid(p) && Since(p0, p) && Reaches(p, ops, p')
    requires forall k :: 0 <= k < |ops| ==> TouchesNewer(p0, ops[k])
    ensures Valid(p') && CanRelease(p', |p0.arenas| - 1, Mark(p0))
    ensures Release(p', |p0.arenas| - 1, Mark(p0)) == p0
    decreases |ops|
  {
    if ops == [] {
      ReleaseRestores(p0, p);
    } else {
      StepIsValid(p, ops[0]);
      assert TouchesNewer(p0, ops[0]);
      StepKeepsSince(p0, p, ops[0]);
      ReleaseAfterRun(p0, Step(p, ops[0]), ops[1..], p');
    }
  }

  /** After a mark, any run of allocations, nested marks and releases, and growing or freeing of what
      was allocated since, the matching release gives back exactly the pool that was marked. */
  lemma MarkReleaseIsAStack(p0: Pool, ops: seq<Op>, p: Pool)
    requires Valid(p0) && Reaches(p0, ops, p)
    requires forall k :: 0 <= k < |ops| ==> TouchesNewer(p0, ops[k])
    ensures Valid(p) && CanRelease(p, |p0.arenas| - 1, Mark(p0))
    ensures Release(p, |p0.arenas| - 1, Mark(p0)) == p0
  {
    SinceIsReflexive(p0);
    ReleaseAfterRun(p0, p0, ops, p);
  }
}
