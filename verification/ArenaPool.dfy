/**
 The arena pool as the object that jsarena.c updates in place: the macros' fast paths, the
 list-walking functions behind them, and the bytes the pool hands out.
 */
module ArenaPool {
  import opened Wrappers
  import opened Arena
  import Spec = Arena

  // ---- the bytes ---------------------------------------------------------------------------------

  type Memory = nat -> bv8

  /** memmove: `size` bytes from one address to another. */
  function Moved(mem: Memory, from: nat, to: nat, size: nat): Memory {
    (x: nat) => if to <= x < to + size then mem(from + (x - to)) else mem(x)
  }

  /** Memory after realloc has put a block of `gross` bytes at `addr` in place of arena was. */
  function ReallocMemory(mem: Memory, was: Arena, addr: nat, gross: nat): Memory {
    var extent := if was.addr <= was.limit then was.limit - was.addr else 0;
    Moved(mem, was.addr, addr, if extent < gross then extent else gross)
  }

  /** Memory after JS_ArenaRealloc. */
  ghost function ReallocedBytes(p: Pool, mem: Memory, i: nat, incr: nat, got: Option<nat>): Memory
    requires Valid(p) && 1 <= i < |p.arenas| && p.arenas[i].base in p.live
  {
    var was := p.arenas[i];
    var need := p.live[was.base] + incr;
    if got.None? then mem
    else
      assert ArenaOk(p, i);
      Moved(ReallocMemory(mem, was, got.value, ReallocGross(p.align, need)), got.value + (was.base - was.addr),
            ReallocArena(p.align, p.arenas[i - 1].addr, got.value, need).base, p.live[was.base])
  }

  lemma ReallocedBytesAre(p: Pool, mem: Memory, i: nat, incr: nat, got: Option<nat>)
    requires Valid(p) && 1 <= i < |p.arenas| && p.arenas[i].base in p.live && p.arenas[i].addr <= p.arenas[i].base
    ensures var was := p.arenas[i]; var need := p.live[was.base] + incr;
            ReallocedBytes(p, mem, i, incr, got) ==
              if got.None? then mem
              else Moved(ReallocMemory(mem, was, got.value, ReallocGross(p.align, need)),
                         got.value + (was.base - was.addr),
                         ReallocArena(p.align, p.arenas[i - 1].addr, got.value, need).base, p.live[was.base])
  {
    hide AlignDown, AlignUp, ArenaOk, BlocksDisjoint, TenantsOk, Moved, ReallocMemory, ReallocArena, ReallocGross;
  }

  /** Two memories agree byte for byte. */
  ghost predicate SameBytes(m: Memory, n: Memory) {
    forall x: nat :: m(x) == n(x)
  }

  /** Memory after a growing call: realloc and the re-alignment of its payload, or a copy. */
  ghost function GrowMemory(p: Pool, mem: Memory, i: nat, q: nat, incr: nat, got: Option<nat>): Memory
    requires Valid(p) && CanGrow(p, i, q, incr, got)
  {
    var r := Grow(p, i, q, incr, got);
    match GrowRoute(p, q, incr)
    case InPlace => mem
    case ByRealloc => (RouteFacts(p, i, q, incr); ReallocedBytes(p, mem, i, incr, got))
    case ByCopy =>
      if r.ptr.None? then mem else Moved(mem, q, r.ptr.value, p.live[q])
  }

  /** The `size` bytes at `to` in mem' are those at `from` in mem. */
  ghost predicate Carried(mem: Memory, from: nat, mem': Memory, to: nat, size: nat) {
    forall y: nat :: to <= y < to + size ==> mem'(y) == mem(from + (y - to))
  }

  lemma LiveIsNotEmpty(p: Pool, q: nat)
    requires Valid(p) && q in p.live
    ensures p.live[q] > 0
  {
    hide AlignDown;
    assert LiveOk(p, q);
  }

  lemma ReallocAnswers(p: Pool, i: nat, incr: nat, addr: nat)
    requires CanRealloc(p, i, incr, addr)
    ensures Realloc(p, i, incr, Some(addr)).ptr ==
            Some(ReallocArena(p.align, p.arenas[i - 1].addr, addr, p.live[p.arenas[i].base] + incr).base)
  {
  }

  lemma ReallocFails(p: Pool, i: nat, incr: nat)
    requires p.align > 0 && 1 <= i < |p.arenas| && p.arenas[i].base in p.live
    ensures Realloc(p, i, incr, None) == Answer(p, None)
  {
  }

  lemma CopyLandsApart(p: Pool, need: nat, got: Option<nat>, s: nat)
    requires Valid(p) && CanAllocate(p, need, got) && Allocate(p, need, got).ptr.Some? && s in p.live
    ensures var r := Allocate(p, need, got).ptr.value; s + p.live[s] <= r || r + need <= s
  {
    hide AlignDown, NewArena;
    AlignUpFacts(need, p.align);
    assert LiveOk(p, s);
    AlignUpFacts(p.live[s], p.align);
    if Fits(Last(p), AlignUp(need, p.align)) {
      RoomMeansPlain(p, |p.arenas| - 1, AlignUp(need, p.align));
      LiveStaysBelow(p, |p.arenas| - 1, s);
    } else {
      NewArenaFacts(p, Last(p).addr, got.value, AlignUp(need, p.align));
      LiveIsOutside(p, got.value, Gross(p, AlignUp(need, p.align)), -1, s);
    }
  }

  lemma CopyKeepsBytes(p: Pool, mem: Memory, q: nat, incr: nat, got: Option<nat>)
    requires Valid(p) && q in p.live && CanAllocate(p, p.live[q] + incr, got)
    requires Allocate(p, p.live[q] + incr, got).ptr.Some?
    ensures var r := Allocate(p, p.live[q] + incr, got).ptr.value;
            && Carried(mem, q, Moved(mem, q, r, p.live[q]), r, p.live[q])
            && forall s :: s in p.live ==> Carried(mem, s, Moved(mem, q, r, p.live[q]), s, p.live[s])
  {
    hide AlignDown, NewArena, AlignUp, Allocate, ArenaOk, TenantsOk, BlocksDisjoint;
    forall s | s in p.live
      ensures var r := Allocate(p, p.live[q] + incr, got).ptr.value; s + p.live[s] <= r || r + p.live[q] <= s
    {
      CopyLandsApart(p, p.live[q] + incr, got, s);
    }
  }

  /** A payload that fits in the old block and the new one survives the move and the re-alignment. */
  lemma MovingBlockCarriesPayload(mem: Memory, was: Arena, addr: nat, gross: nat, to: nat, size: nat)
    requires was.addr <= was.base && was.base + size <= was.limit && was.base - was.addr + size <= gross
    ensures Carried(mem, was.base, Moved(ReallocMemory(mem, was, addr, gross), addr + (was.base - was.addr), to, size),
                    to, size)
  {
  }

  lemma MovingBlockSparesRest(mem: Memory, was: Arena, addr: nat, gross: nat, to: nat, size: nat, s: nat, n: nat)
    requires was.addr <= was.base && addr <= to && to + size <= addr + gross
    requires s + n <= addr || addr + gross <= s
    ensures Carried(mem, s, Moved(ReallocMemory(mem, was, addr, gross), addr + (was.base - was.addr), to, size), s, n)
  {
  }

  lemma TenantsClearOfRealloc(p: Pool, i: nat, incr: nat, addr: nat, s: nat)
    requires CanRealloc(p, i, incr, addr) && s in p.live && s != p.arenas[i].base
    ensures var gross := ReallocGross(p.align, p.live[p.arenas[i].base] + incr);
            s + p.live[s] <= addr || addr + gross <= s
  {
    hide AlignDown;
    var was := p.arenas[i];
    assert LiveOk(p, s) && LiveOk(p, was.base);
    AlignUpFacts(p.live[s], p.align);
    assert Holds(p, i, was.base);
    if Holds(p, i, s) {
      SpanningTenantIsAlone(p, i, was.base, s);
    }
    LiveIsOutside(p, addr, ReallocGross(p.align, p.live[was.base] + incr), i, s);
  }

  /** realloc keeps the block's bytes up to the smaller size, and the payload always fits in it. */
  lemma ReallocKeepsBytes(p: Pool, mem: Memory, i: nat, incr: nat, addr: nat)
    requires CanRealloc(p, i, incr, addr)
    ensures var was := p.arenas[i]; var size := p.live[was.base];
            var gross := ReallocGross(p.align, size + incr);
            var to := ReallocArena(p.align, p.arenas[i - 1].addr, addr, size + incr).base;
            was.addr <= was.base &&
            var mem' := Moved(ReallocMemory(mem, was, addr, gross), addr + (was.base - was.addr), to, size);
            && Carried(mem, was.base, mem', to, size)
            && (forall s :: s in p.live && s != was.base ==> Carried(mem, s, mem', s, p.live[s]))
  {
    hide AlignDown, ReallocArena, BlocksDisjoint, Carried, Moved, ReallocMemory;
    var was := p.arenas[i];
    var size := p.live[was.base];
    var gross := ReallocGross(p.align, size + incr);
    ReallocArenaFacts(p, p.arenas[i - 1].addr, addr, size + incr);
    assert ArenaOk(p, i);
    AlignUpFacts(size, p.align);
    AlignUpFacts(size + incr, p.align);
    var to := ReallocArena(p.align, p.arenas[i - 1].addr, addr, size + incr).base;
    assert was.base - was.addr + size <= gross;
    MovingBlockCarriesPayload(mem, was, addr, gross, to, size);
    forall s | s in p.live && s != was.base
      ensures Carried(mem, s, Moved(ReallocMemory(mem, was, addr, gross), addr + (was.base - was.addr), to, size), s,
                      p.live[s])
    {
      TenantsClearOfRealloc(p, i, incr, addr, s);
      MovingBlockSparesRest(mem, was, addr, gross, to, size, s, p.live[s]);
    }
  }

  /** A growing call keeps the bytes of what it grows, and every byte of every other allocation. */
  lemma GrowKeepsBytes(p: Pool, mem: Memory, i: nat, q: nat, incr: nat, got: Option<nat>)
    requires Valid(p) && CanGrow(p, i, q, incr, got)
    ensures var r := Grow(p, i, q, incr, got).ptr; var mem' := GrowMemory(p, mem, i, q, incr, got);
            && (r.Some? ==> Carried(mem, q, mem', r.value, p.live[q]))
            && (forall s :: s in p.live && (s != q || r.None?) ==> Carried(mem, s, mem', s, p.live[s]))
  {
    hide AlignDown, AlignUp, Allocate, Realloc, ReallocArena, ArenaOk, BlocksDisjoint, TenantsOk, Moved, ReallocMemory;
    RouteFacts(p, i, q, incr);
    LiveIsNotEmpty(p, q);
    match GrowRoute(p, q, incr) {
      case InPlace =>
      case ByRealloc =>
        if got.Some? {
          ReallocKeepsBytes(p, mem, i, incr, got.value);
          ReallocAnswers(p, i, incr, got.value);
        } else {
          ReallocFails(p, i, incr);
        }
      case ByCopy =>
        if Allocate(p, p.live[q] + incr, got).ptr.Some? {
          CopyKeepsBytes(p, mem, q, incr, got);
        }
    }
  }

  /** The word just before an arena's base, where an oversized arena has its back-pointer, is as it was. */
  ghost predicate HeaderKept(mem: Memory, mem': Memory, a: Arena) {
    forall x: nat :: a.base - SIZEOF_PTR <= x < a.base ==> mem'(x) == mem(x)
  }

  /**
   * Back-pointers and allocations are clear of one another: writing the bytes of an allocation, and no others, leaves
   * every back-pointer alone; and setting a back-pointer leaves every allocation alone.
   */
  lemma HeaderIsClear(p: Pool, mem: Memory, mem': Memory, i: nat, q: nat)
    requires Valid(p) && 1 <= i < |p.arenas| && p.arenas[i].header.Some? && q in p.live
    ensures (forall x: nat :: x < q || q + p.live[q] <= x ==> mem'(x) == mem(x)) ==> HeaderKept(mem, mem', p.arenas[i])
    ensures var base := p.arenas[i].base;
            (forall x: nat :: x < base - SIZEOF_PTR || base <= x ==> mem'(x) == mem(x)) ==>
              Carried(mem, q, mem', q, p.live[q])
  {
    hide AlignDown, BlocksDisjoint, TenantsOk;
    assert ArenaOk(p, i);
    LiveStaysBelow(p, i, q);
    AlignUpFacts(p.live[q], p.align);
  }

  /** The back-pointers of two arenas are clear of each other too. */
  lemma HeadersAreApart(p: Pool, i: nat, j: nat)
    requires Valid(p) && 1 <= i < |p.arenas| && 1 <= j < |p.arenas| && i != j && p.arenas[i].header.Some?
    ensures var (a, b) := (p.arenas[i], p.arenas[j]); a.base <= b.base - SIZEOF_PTR || b.base <= a.base - SIZEOF_PTR
  {
    hide AlignDown, TenantsOk;
    assert ArenaOk(p, i) && ArenaOk(p, j);
    BlocksApart(p, if i < j then i else j, if i < j then j else i);
  }

  lemma ReallocSparesHeader(p: Pool, mem: Memory, i: nat, incr: nat, got: Option<nat>, k: nat)
    requires Valid(p) && 1 <= i < |p.arenas| && p.arenas[i].base in p.live
    requires got.Some? ==> CanRealloc(p, i, incr, got.value)
    requires 1 <= k < |p.arenas| && k != i && p.arenas[k].header.Some?
    ensures HeaderKept(mem, ReallocedBytes(p, mem, i, incr, got), p.arenas[k])
  {
    hide AlignDown, AlignUp, ReallocArena, BlocksDisjoint, TenantsOk;
    if got.None? {
      return;
    }
    var addr := got.value;
    var need := p.live[p.arenas[i].base] + incr;
    ReallocArenaFacts(p, p.arenas[i - 1].addr, addr, need);
    AlignUpFacts(need, p.align);
    assert ArenaOk(p, i) && ArenaOk(p, k);
    assert addr + ReallocGross(p.align, need) <= p.arenas[k].addr || End(p, k) <= addr;
  }

  lemma CopySparesHeader(p: Pool, mem: Memory, q: nat, size: nat, need: nat, got: Option<nat>, k: nat)
    requires Valid(p) && CanAllocate(p, need, got) && Allocate(p, need, got).ptr.Some? && size <= need
    requires 1 <= k < |p.arenas| && p.arenas[k].header.Some?
    ensures HeaderKept(mem, Moved(mem, q, Allocate(p, need, got).ptr.value, size), p.arenas[k])
  {
    var after := Allocate(p, need, got);
    AllocateIsValid(p, need, got);
    assert after.pool.arenas[k].base == p.arenas[k].base && after.pool.arenas[k].header == p.arenas[k].header;
    hide AlignDown, Allocate, BlocksDisjoint, TenantsOk;
    assert ArenaOk(after.pool, k);
    LiveStaysBelow(after.pool, k, after.ptr.value);
    AlignUpFacts(need, p.align);
  }

  /** What a growing call moves spares the back-pointers of all arenas but the one that it replaces. */
  lemma GrowKeepsHeaders(p: Pool, mem: Memory, i: nat, q: nat, incr: nat, got: Option<nat>, k: nat)
    requires Valid(p) && CanGrow(p, i, q, incr, got)
    requires 1 <= k < |p.arenas| && p.arenas[k].header.Some? && (GrowRoute(p, q, incr).ByRealloc? ==> k != i)
    ensures HeaderKept(mem, GrowMemory(p, mem, i, q, incr, got), p.arenas[k])
  {
    hide AlignDown, AlignUp, Allocate, Realloc, ReallocArena, ArenaOk, BlocksDisjoint, TenantsOk, Moved, ReallocedBytes;
    RouteFacts(p, i, q, incr);
    LiveIsNotEmpty(p, q);
    match GrowRoute(p, q, incr) {
      case InPlace =>
      case ByRealloc =>
        ReallocSparesHeader(p, mem, i, incr, got, k);
      case ByCopy =>
        if Allocate(p, p.live[q] + incr, got).ptr.Some? {
          CopySparesHeader(p, mem, q, p.live[q], p.live[q] + incr, got, k);
        }
    }
  }

  // ---- pointers ----------------------------------------------------------------------------------

  /** The position in the list of the arena at an address; |arenas| if there is none. */
  function IndexOf(arenas: seq<Arena>, addr: nat): (i: nat)
    ensures i <= |arenas|
    ensures i < |arenas| ==> arenas[i].addr == addr
    ensures forall k :: 0 <= k < i ==> arenas[k].addr != addr
  {
    if arenas == [] || arenas[0].addr == addr then 0 else 1 + IndexOf(arenas[1..], addr)
  }

  /** The back-pointer read just before q, if some arena with a header has its base there. */
  function HeaderAt(arenas: seq<Arena>, q: nat): Option<nat> {
    if arenas == [] then None
    else if arenas[0].base == q && arenas[0].header.Some? then arenas[0].header
    else HeaderAt(arenas[1..], q)
  }

  lemma IndexOfIs(arenas: seq<Arena>, i: nat)
    requires i < |arenas| && forall k :: 0 <= k < |arenas| && k != i ==> arenas[k].addr != arenas[i].addr
    ensures IndexOf(arenas, arenas[i].addr) == i
  {
  }

  lemma {:induction false} HeaderAtIs(arenas: seq<Arena>, i: nat)
    requires i < |arenas| && arenas[i].header.Some?
    requires forall k :: 0 <= k < |arenas| && k != i ==> arenas[k].header.None? || arenas[k].base != arenas[i].base
    ensures HeaderAt(arenas, arenas[i].base) == arenas[i].header
  {
    if i == 0 {
    } else {
      HeaderAtIs(arenas[1..], i - 1);
    }
  }

  /** Addresses identify arenas. */
  lemma AddressIdentifies(p: Pool, i: nat)
    requires Valid(p) && i < |p.arenas|
    ensures IndexOf(p.arenas, p.arenas[i].addr) == i
  {
    hide AlignDown;
    forall k | 0 <= k < |p.arenas| && k != i
      ensures p.arenas[k].addr != p.arenas[i].addr
    {
      BlocksApart(p, if k < i then k else i, if k < i then i else k);
      assert k > 0 ==> ArenaOk(p, k);
      assert i > 0 ==> ArenaOk(p, i);
    }
    IndexOfIs(p.arenas, i);
  }

  /** Reading the word before an oversized allocation and following it leads to its arena. */
  lemma HeaderLeadsHome(p: Pool, i: nat, q: nat)
    requires Valid(p) && q in p.live && Holds(p, i, q) && p.live[q] > p.arenasize
    ensures HeaderAt(p.arenas, q) == Some(p.arenas[i - 1].addr)
    ensures IndexOf(p.arenas, p.arenas[i - 1].addr) == i - 1
  {
    hide AlignDown;
    OversizedOwnsArena(p, q, i);
    OversizedHasHeader(p, i);
    forall k | 0 <= k < |p.arenas| && k != i && p.arenas[k].header.Some?
      ensures p.arenas[k].base != q
    {
      assert ArenaOk(p, k);
      if p.arenas[k].base == q {
        HeldOnce(p, q, i, k);
      }
    }
    HeaderAtIs(p.arenas, i);
    AddressIdentifies(p, i - 1);
  }

  // ---- the pool object ---------------------------------------------------------------------------

  /** The test of a release: unsigned, wrapping differences from the base. */
  predicate Reaches(a: Arena, mark: nat) {
    (mark - a.base) % WORD <= (a.avail - a.base) % WORD
  }

  lemma WrappingTest(a: Arena, mark: nat)
    requires a.base <= a.avail < WORD && mark < WORD
    ensures Reaches(a, mark) <==> a.base <= mark <= a.avail
  {
    if mark < a.base {
      assert (mark - a.base) % WORD == mark - a.base + WORD;
    }
  }

  /** The wrapping test finds the arena of the mark and no other. */
  lemma MarkInOneArena(p: Pool, k: nat, i: nat, mark: nat)
    requires Valid(p) && CanRelease(p, k, mark) && i < |p.arenas|
    ensures Reaches(p.arenas[i], mark) <==> i == k
  {
    hide AlignDown, Reaches;
    var a := p.arenas[i];
    assert i > 0 ==> ArenaOk(p, i);
    assert k > 0 ==> ArenaOk(p, k);
    BlocksApart(p, if k < i then k else i, if k < i then i else k);
    WrappingTest(a, mark);
  }

  /** What the allocator is told if growing has to ask it. */
  ghost function Asked(p: Pool, i: nat, q: nat, incr: nat, malloc: nat -> Option<nat>,
                       realloc: (nat, nat) -> Option<nat>): Option<nat>
    requires p.align > 0 && 0 < |p.arenas| && q in p.live
  {
    match GrowRoute(p, q, incr)
    case InPlace => None
    case ByRealloc =>
      if i < |p.arenas| then realloc(p.arenas[i].addr, ReallocGross(p.align, p.live[q] + incr)) else None
    case ByCopy => malloc(Gross(p, AlignUp(p.live[q] + incr, p.align)))
  }

  /** The answer and the bytes of each route, for the pool object to meet. */
  lemma GrowIs(p: Pool, mem: Memory, i: nat, q: nat, incr: nat, got: Option<nat>)
    requires Valid(p) && CanGrow(p, i, q, incr, got)
    ensures GrowRoute(p, q, incr).InPlace? ==>
              var a := Last(p).(avail := q + AlignUp(p.live[q] + incr, p.align));
              && Grow(p, i, q, incr, got) ==
                   Answer(p.(arenas := p.arenas[|p.arenas| - 1 := a], live := p.live[q := p.live[q] + incr]), Some(q))
              && SameBytes(mem, GrowMemory(p, mem, i, q, incr, got))
    ensures GrowRoute(p, q, incr).ByRealloc? ==>
              && 1 <= i < |p.arenas| && q == p.arenas[i].base
              && Grow(p, i, q, incr, got) == Realloc(p, i, incr, got)
              && GrowMemory(p, mem, i, q, incr, got) == ReallocedBytes(p, mem, i, incr, got)
  {
    hide AlignDown, AlignUp, ArenaOk, BlocksDisjoint, TenantsOk, Realloc, Allocate;
    RouteFacts(p, i, q, incr);
  }

  lemma SameBytesCarry(m: Memory, n: Memory, was: Memory)
    requires SameBytes(m, n)
    ensures forall s, to, size :: Carried(was, s, n, to, size) ==> Carried(was, s, m, to, size)
  {
    forall s: nat, to: nat, size: nat | Carried(was, s, n, to, size)
      ensures Carried(was, s, m, to, size)
    {
      forall y: nat | to <= y < to + size
        ensures m(y) == was(s + (y - to))
      {
        assert m(y) == n(y);
      }
    }
  }

  /** The bytes an owner finds after its allocation, or another's, has grown. */
  lemma GrownBytes(p: Pool, mem: Memory, mem': Memory, i: nat, q: nat, incr: nat, got: Option<nat>)
    requires Valid(p) && CanGrow(p, i, q, incr, got) && SameBytes(mem', GrowMemory(p, mem, i, q, incr, got))
    ensures var r := Grow(p, i, q, incr, got).ptr;
            && (r.Some? ==> Carried(mem, q, mem', r.value, p.live[q]))
            && (forall s :: s in p.live && (s != q || r.None?) ==> Carried(mem, s, mem', s, p.live[s]))
  {
    hide AlignDown, AlignUp, ArenaOk, BlocksDisjoint, TenantsOk, Carried, SameBytes, Grow, GrowMemory;
    GrowKeepsBytes(p, mem, i, q, incr, got);
    SameBytesCarry(mem', GrowMemory(p, mem, i, q, incr, got), mem);
  }

  /** Re-aiming the successor first and then replacing the arena is what reallocating does. */
  lemma RelinkedIsRealloc(p: Pool, i: nat, incr: nat, addr: nat, arenas: seq<Arena>)
    requires p.align > 0 && 1 <= i < |p.arenas| && p.arenas[i].base in p.live
    requires var a := ReallocArena(p.align, p.arenas[i - 1].addr, addr, p.live[p.arenas[i].base] + incr);
             arenas == (if i + 1 < |p.arenas| && p.arenas[i + 1].avail - p.arenas[i + 1].base > p.arenasize
                        then p.arenas[i + 1 := p.arenas[i + 1].(header := Some(addr))]
                        else p.arenas)[i := a]
    ensures var was := p.arenas[i];
            var need := p.live[was.base] + incr;
            var a := ReallocArena(p.align, p.arenas[i - 1].addr, addr, need);
            Realloc(p, i, incr, Some(addr)) ==
              Answer(p.(arenas := arenas, current := if p.current == was.addr then addr else p.current,
                        live := (p.live - {was.base})[a.base := need]), Some(a.base))
  {
    hide AlignDown;
  }

  lemma BaseFollowsStruct(p: Pool, i: nat)
    requires Valid(p) && 1 <= i < |p.arenas|
    ensures p.arenas[i].addr <= p.arenas[i].base <= p.arenas[i].limit
  {
    hide AlignDown;
    assert ArenaOk(p, i);
  }

  lemma SameIsSame(mem: Memory)
    ensures SameBytes(mem, mem)
  {
  }

  /** Aligning the end of an allocation is adding its aligned size to its aligned start. */
  lemma {:induction false} AlignedStartShifts(q: nat, n: nat, a: nat)
    requires a > 0 && Aligned(q, a)
    ensures AlignDown(q + n, a) == q + AlignDown(n, a)
  {
    if q < a {
    } else {
      AlignedStartShifts(q - a, n, a);
    }
  }

  lemma EndOfAllocation(p: Pool, i: nat, q: nat)
    requires Valid(p) && q in p.live && Holds(p, i, q)
    ensures AlignUp(q + p.live[q], p.align) == q + Extent(p, q)
  {
    assert LiveOk(p, q);
    AlignedStartShifts(q, p.live[q] + p.align - 1, p.align);
  }

  /** No two arenas have their cursor at the end of the same allocation. */
  lemma OneArenaEndsHere(p: Pool, i: nat, q: nat, k: nat)
    requires Valid(p) && q in p.live && Holds(p, i, q) && 1 <= k < |p.arenas|
    requires p.arenas[k].avail == q + Extent(p, q)
    ensures k == i
  {
    hide AlignDown;
    assert LiveOk(p, q) && ArenaOk(p, i) && ArenaOk(p, k);
    AlignUpFacts(p.live[q], p.align);
    BlocksApart(p, if k < i then k else i, if k < i then i else k);
  }

  class JSArenaPool {
    const align: nat
    const arenasize: nat
    const poolEnd: nat
    var arenas: seq<Arena>
    var current: nat
    var mem: Memory
    ghost var live: map<nat, nat>

    ghost function Model(): Pool
      reads this
    {
      Pool(align, arenasize, poolEnd, arenas, current, live)
    }

    ghost predicate Sound()
      reads this
    {
      Valid(Model())
    }

    /** JS_InitArenaPool on a pool struct at [addr, poolEnd). */
    constructor (addr: nat, size: nat, align: nat, poolEnd: nat, mem: Memory)
      requires align > 0 && ConfigOk(Init(addr, align, size, poolEnd))
      requires AlignUp(addr + SIZEOF_ARENA, align) < poolEnd < WORD
      ensures Model() == Init(addr, align, size, poolEnd) && Sound() && this.mem == mem
    {
      var start := AlignUp(addr + SIZEOF_ARENA, align);
      this.align, this.arenasize, this.poolEnd := align, size, poolEnd;
      this.arenas, this.current := [Arena(addr, start, start, start, None)], addr;
      this.mem, this.live := mem, map[];
      new;
      InitIsValid(addr, align, size, poolEnd);
    }

    /** JS_ARENA_ALLOCATE: bump the current arena, or go the long way. */
    method Allocate(size: nat, malloc: nat -> Option<nat>) returns (p: Option<nat>)
      requires Sound() && CanAllocate(Model(), size, malloc(Gross(Model(), AlignUp(size, align))))
      modifies this`arenas, this`current, this`live
      ensures var r := Spec.Allocate(old(Model()), size, malloc(Gross(old(Model()), AlignUp(size, align))));
              Model() == r.pool && p == r.ptr
      ensures Sound()
    {
      hide AlignDown, AlignUp, ArenaOk, BlocksDisjoint, TenantsOk, Gross, HeaderSpace, FreshBlock, NewArena;
      AddressIdentifies(Model(), |arenas| - 1);
      AllocateIsValid(Model(), size, malloc(Gross(Model(), AlignUp(size, align))));
      var nb := AlignUp(size, align);
      var i := IndexOf(arenas, current);
      var a := arenas[i];
      if nb > a.limit || a.avail > a.limit - nb {
        p := ArenaAllocate(nb, size, malloc);
      } else {
        p := Some(a.avail);
        arenas := arenas[i := a.(avail := a.avail + nb)];
        live := live[a.avail := size];
      }
    }

    /** JS_ArenaAllocate: search from `current` onward for space, making an arena at the end. */
    method ArenaAllocate(nb: nat, ghost size: nat, malloc: nat -> Option<nat>) returns (p: Option<nat>)
      requires Sound() && nb == AlignUp(size, align) && CanAllocate(Model(), size, malloc(Gross(Model(), nb)))
      modifies this`arenas, this`current, this`live
      ensures var r := Spec.Allocate(old(Model()), size, malloc(Gross(old(Model()), nb)));
              Model() == r.pool && p == r.ptr
    {
      hide AlignDown, AlignUp, ArenaOk, BlocksDisjoint, TenantsOk, Gross, HeaderSpace;
      ghost var was := Model();
      ghost var n := |arenas|;
      ghost var got := malloc(Gross(was, nb));
      AddressIdentifies(was, n - 1);
      AlignUpFacts(size, align);
      var i := IndexOf(arenas, current);
      while nb > arenas[i].limit || arenas[i].avail > arenas[i].limit - nb
        invariant live == was.live
        invariant
          || (i == n - 1 && Model() == was)
          || (i == n && !Fits(Last(was), nb) && got.Some? && Gross(was, nb) < WORD && current == got.value
              && arenas == was.arenas + [NewArena(was, Last(was).addr, got.value, nb)])
        decreases n - i
      {
        if i == n {
          NewArenaFacts(was, Last(was).addr, got.value, nb);
        }
        if i + 1 == |arenas| {
          var ok := LinkNewArena(nb, malloc);
          if !ok {
            return None;
          }
        }
        i := i + 1;
        current := arenas[i].addr;
      }
      p := Some(arenas[i].avail);
      live := live[arenas[i].avail := size];
      arenas := arenas[i := arenas[i].(avail := arenas[i].avail + nb)];
      assert i == n ==> arenas == was.arenas + [arenas[n]];
    }

    /** malloc an arena with room for nb and link it after the last, unless that overflows or fails. */
    method LinkNewArena(nb: nat, malloc: nat -> Option<nat>) returns (ok: bool)
      requires Sound() && nb < WORD
      modifies this`arenas
      ensures ok <==> Gross(old(Model()), nb) < WORD && malloc(Gross(old(Model()), nb)).Some?
      ensures arenas == if ok
        then old(arenas) + [NewArena(old(Model()), Last(old(Model())).addr, malloc(Gross(old(Model()), nb)).value, nb)]
        else old(arenas)
    {
      hide AlignDown, AlignUp, ArenaOk, BlocksDisjoint, TenantsOk;
      var extra := if nb > arenasize then HeaderSize(align) else 0;
      var hdrsz := SIZEOF_ARENA + extra + (align - 1);
      var gross := (hdrsz + if nb > arenasize then nb else arenasize) % WORD;
      if gross < nb {
        return false;
      }
      var b := malloc(gross);
      if b.None? {
        return false;
      }
      var a := arenas[|arenas| - 1].addr;
      if extra > 0 {
        var base := AlignDown(b.value + hdrsz, HeaderAlign(align));
        arenas := arenas + [Arena(b.value, base, b.value + gross, base, Some(a))];
      } else {
        var base := AlignUp(b.value + SIZEOF_ARENA, align);
        arenas := arenas + [Arena(b.value, base, b.value + gross, base, None)];
      }
      return true;
    }

    /** The position of the arena that owns an oversized allocation, by its back-pointer. */
    method FollowHeader(q: nat, ghost i: nat) returns (k: nat)
      requires Sound() && q in live && Holds(Model(), i, q) && live[q] > arenasize
      ensures k == i && 1 <= i < |arenas|
    {
      HeaderLeadsHome(Model(), i, q);
      var header := HeaderAt(arenas, q);
      k := IndexOf(arenas, header.value) + 1;
    }

    /** JS_ArenaFreeAllocation. */
    method FreeAllocation(q: nat, size: nat, ghost i: nat)
      requires Sound() && CanFree(Model(), i, q) && live[q] == size
      modifies this`arenas, this`current, this`live
      ensures Model() == Free(old(Model()), i, q) && Sound()
    {
      hide AlignDown, AlignUp, ArenaOk, BlocksDisjoint, TenantsOk;
      FreeIsValid(Model(), i, q);
      ghost var was := Model();
      var k;
      if size > arenasize {
        k := FollowHeader(q, i);
      } else {
        var end := AlignUp(q + size, align);
        EndOfAllocation(was, i, q);
        k := 1;
        while k < |arenas| && arenas[k].avail != end
          invariant 1 <= k <= i
        {
          k := k + 1;
        }
        OneArenaEndsHere(was, i, q, k);
        if arenas[k].base != q {
          arenas := arenas[k := arenas[k].(avail := q)];
          live := live - {q};
          return;
        }
      }
      // arena k is doomed: current must not point at it, nor a successor's header into it
      if current == arenas[k].addr {
        current := arenas[k - 1].addr;
      }
      var rest := arenas[k + 1..];
      if rest != [] && rest[0].avail - rest[0].base > arenasize {
        rest := rest[0 := rest[0].(header := Some(arenas[k - 1].addr))];
      }
      arenas := arenas[..k] + rest;
      live := live - {q};
    }

    /** JS_ArenaRealloc: enlarge an allocation that fills its arena by reallocating the arena. */
    method ArenaRealloc(q: nat, size: nat, incr: nat, ghost i: nat, realloc: (nat, nat) -> Option<nat>)
      returns (p: Option<nat>)
      requires Sound() && 1 <= i < |arenas| && q == arenas[i].base && q in live && live[q] == size
      requires Holds(Model(), i, q) && q + Extent(Model(), q) == arenas[i].avail
      requires size > arenasize || i == |arenas| - 1
      requires AlignUp(size + incr, align) > arenasize && ReallocGross(align, size + incr) < WORD
      requires var got := realloc(arenas[i].addr, ReallocGross(align, size + incr));
               got.Some? ==> FreshBlock(Model(), got.value, ReallocGross(align, size + incr), i)
      modifies this`arenas, this`current, this`live, this`mem
      ensures var got := realloc(old(arenas)[i].addr, ReallocGross(align, size + incr));
              && Realloc(old(Model()), i, incr, got) == Answer(Model(), p)
              && SameBytes(mem, ReallocedBytes(old(Model()), old(mem), i, incr, got))
    {
      hide AlignDown, AlignUp, ArenaOk, BlocksDisjoint, TenantsOk, ReallocMemory, Moved, Realloc, ReallocArena,
        ReallocGross, SameBytes, FirstOk, ReallocedBytes;
      ghost var was := Model();
      var k := FillingArena(q, size, i);
      BaseFollowsStruct(was, k);
      var gross := ReallocGross(align, size + incr);
      var b := realloc(arenas[k].addr, gross);
      if b.None? {
        ReallocFails(was, i, incr);
        ReallocedBytesAre(was, mem, i, incr, None);
        SameIsSame(mem);
        return None;
      }
      var moved := ReplaceArena(k, b.value, gross, q, size, incr);
      p := Some(moved);
    }

    /** What ArenaRealloc does once the arena at k has moved to a block at addr. */
    method ReplaceArena(k: nat, addr: nat, gross: nat, q: nat, size: nat, incr: nat) returns (p: nat)
      requires Sound() && 1 <= k < |arenas| && q == arenas[k].base && q in live && live[q] == size
      requires AlignUp(size + incr, align) > arenasize && gross == ReallocGross(align, size + incr) < WORD
      requires FreshBlock(Model(), addr, gross, k)
      modifies this`arenas, this`current, this`live, this`mem
      ensures Realloc(old(Model()), k, incr, Some(addr)) == Answer(Model(), Some(p))
      ensures SameBytes(mem, ReallocedBytes(old(Model()), old(mem), k, incr, Some(addr)))
    {
      hide AlignDown, AlignUp, ArenaOk, BlocksDisjoint, TenantsOk, ReallocMemory, Moved, Realloc, ReallocArena,
        ReallocGross, SameBytes, FirstOk, ReallocedBytes, FreshBlock, Carried, HeaderAlign;
      ghost var was := Model();
      var a := arenas[k];
      BaseFollowsStruct(was, k);
      var boff := a.base - a.addr;
      ReallocArenaFacts(was, was.arenas[k - 1].addr, addr, size + incr);
      mem := ReallocMemory(mem, a, addr, gross);
      RelinkMoved(k, addr);
      var grown := ReallocArena(align, arenas[k - 1].addr, addr, size + incr);
      arenas := arenas[k := grown];
      Realign(addr + boff, grown.base, size);
      live := (live - {q})[grown.base := size + incr];
      p := grown.base;
      RelinkedIsRealloc(was, k, incr, addr, arenas);
      ReallocedBytesAre(was, old(mem), k, incr, Some(addr));
    }

    /** Move the payload if the new block put its base at a different offset. */
    method Realign(from: nat, to: nat, size: nat)
      modifies this`mem
      ensures SameBytes(mem, Moved(old(mem), from, to, size))
    {
      if from != to {
        mem := Moved(mem, from, to, size);
      }
    }

    /** The position of the arena that an allocation fills: by its header, or else the current one. */
    method FillingArena(q: nat, size: nat, ghost i: nat) returns (k: nat)
      requires Sound() && q in live && live[q] == size && Holds(Model(), i, q)
      requires size > arenasize || i == |arenas| - 1
      ensures k == i
    {
      hide AlignDown, AlignUp, ArenaOk, BlocksDisjoint, TenantsOk;
      if size > arenasize {
        k := FollowHeader(q, i);
      } else {
        AddressIdentifies(Model(), i);
        k := 1;
        while arenas[k].addr != current
          invariant 1 <= k <= i
          decreases i - k
        {
          k := k + 1;
        }
      }
    }

    /** realloc may have moved arena k: re-aim `current` and an oversized successor's back-pointer. */
    method RelinkMoved(k: nat, addr: nat)
      requires Sound() && 1 <= k < |arenas|
      modifies this`arenas, this`current
      ensures current == if old(current) == old(arenas[k]).addr then addr else old(current)
      ensures arenas ==
        if k + 1 < |old(arenas)| && old(arenas)[k + 1].avail - old(arenas)[k + 1].base > arenasize
        then old(arenas)[k + 1 := old(arenas)[k + 1].(header := Some(addr))]
        else old(arenas)
    {
      hide AlignDown, AlignUp, ArenaOk, BlocksDisjoint, TenantsOk;
      if k + 1 < |arenas| {
        OversizedHasHeader(Model(), k + 1);
      }
      if addr != arenas[k].addr {
        if current == arenas[k].addr {
          current := addr;
        }
        if k + 1 < |arenas| && arenas[k + 1].avail - arenas[k + 1].base > arenasize {
          arenas := arenas[k + 1 := arenas[k + 1].(header := Some(addr))];
        }
      }
    }

    /** JS_ARENA_GROW: extend the last allocation in place if it fits, or go the long way. */
    method Grow(q: nat, size: nat, incr: nat, ghost i: nat, malloc: nat -> Option<nat>,
                realloc: (nat, nat) -> Option<nat>)
      returns (p: Option<nat>)
      requires Sound() && q in live && live[q] == size
      requires CanGrow(Model(), i, q, incr, Asked(Model(), i, q, incr, malloc, realloc))
      modifies this`arenas, this`current, this`live, this`mem
      ensures var got := Asked(old(Model()), i, q, incr, malloc, realloc);
              && Spec.Grow(old(Model()), i, q, incr, got) == Answer(Model(), p)
              && SameBytes(mem, GrowMemory(old(Model()), old(mem), i, q, incr, got))
      ensures Sound()
      ensures p.Some? ==> Carried(old(mem), q, mem, p.value, size)
      ensures forall s :: s in old(live) && (s != q || p.None?) ==> Carried(old(mem), s, mem, s, old(live)[s])
    {
      hide AlignDown, AlignUp, ArenaOk, BlocksDisjoint, TenantsOk, Carried, SameBytes, Realloc, Spec.Grow, GrowMemory;
      ghost var was := Model();
      ghost var old_mem := mem;
      ghost var got := Asked(was, i, q, incr, malloc, realloc);
      GrowIsValid(was, i, q, incr, got);
      GrowIs(was, mem, i, q, incr, got);
      RouteFacts(was, i, q, incr);
      AddressIdentifies(was, |arenas| - 1);
      var k := IndexOf(arenas, current);
      var a := arenas[k];
      if a.avail == q + AlignUp(size, align) {
        var nb := AlignUp(size + incr, align);
        if a.limit >= nb && q <= a.limit - nb {
          arenas := arenas[k := a.(avail := q + nb)];
          live := live[q := size + incr];
          p := Some(q);
        } else if q == a.base {
          EndsAtCursor(was, i, q);
          p := ArenaRealloc(q, size, incr, i, realloc);
        } else {
          p := ArenaGrow(q, size, incr, i, malloc, realloc);
        }
      } else {
        p := ArenaGrow(q, size, incr, i, malloc, realloc);
      }
      GrownBytes(was, old_mem, mem, i, q, incr, got);
    }

    /** JS_ArenaGrow: an oversized allocation is reallocated, any other copied to a new place. */
    method ArenaGrow(q: nat, size: nat, incr: nat, ghost i: nat, malloc: nat -> Option<nat>,
                     realloc: (nat, nat) -> Option<nat>)
      returns (p: Option<nat>)
      requires Sound() && q in live && live[q] == size && Holds(Model(), i, q)
      requires GrowRoute(Model(), q, incr) == if size > arenasize then ByRealloc else ByCopy
      requires CanGrow(Model(), i, q, incr, Asked(Model(), i, q, incr, malloc, realloc))
      modifies this`arenas, this`current, this`live, this`mem
      ensures var got := Asked(old(Model()), i, q, incr, malloc, realloc);
              && Spec.Grow(old(Model()), i, q, incr, got) == Answer(Model(), p)
              && SameBytes(mem, GrowMemory(old(Model()), old(mem), i, q, incr, got))
    {
      hide AlignDown, AlignUp, ArenaOk, BlocksDisjoint, TenantsOk, SameBytes, Realloc, Moved;
      ghost var was := Model();
      RouteFacts(was, i, q, incr);
      if size > arenasize {
        p := ArenaRealloc(q, size, incr, i, realloc);
      } else {
        LiveIsNotEmpty(was, q);
        p := Allocate(size + incr, malloc);
        if p.Some? {
          mem := Moved(mem, q, p.value, size);
          live := live - {q};
        }
        SameIsSame(mem);
      }
    }

    /** JS_ARENA_MARK. */
    method Mark() returns (mark: nat)
      requires Sound()
      ensures mark == Last(Model()).avail
    {
      AddressIdentifies(Model(), |arenas| - 1);
      mark := arenas[IndexOf(arenas, current)].avail;
    }

    /** JS_ARENA_RELEASE: retract the current arena if the mark lies in it, or go the long way. */
    method Release(mark: nat, ghost k: nat)
      requires Sound() && CanRelease(Model(), k, mark)
      modifies this`arenas, this`current, this`live
      ensures Model() == Spec.Release(old(Model()), k, mark) && Sound()
    {
      hide AlignDown, AlignUp, ArenaOk, BlocksDisjoint, TenantsOk, Below;
      ghost var was := Model();
      ReleaseIsValid(was, k, mark);
      AddressIdentifies(was, |arenas| - 1);
      CurrentIsOnlyLast(was, 0);
      var i := IndexOf(arenas, current);
      if current != arenas[0].addr && Reaches(arenas[i], mark) {
        MarkInOneArena(was, k, i, mark);
        arenas := arenas[i := arenas[i].(avail := AlignUp(mark, align))];
        live := Spec.Release(was, k, mark).live;
        assert arenas == was.arenas[..k] + [arenas[k]];
      } else {
        ArenaRelease(mark, k);
      }
    }

    /** JS_ArenaRelease: search from the first arena for the one the mark lies in, and cut there. */
    method ArenaRelease(mark: nat, ghost k: nat)
      requires Sound() && CanRelease(Model(), k, mark)
      modifies this`arenas, this`current, this`live
      ensures Model() == Spec.Release(old(Model()), k, mark)
    {
      hide AlignDown, AlignUp, ArenaOk, BlocksDisjoint, TenantsOk, Below;
      ghost var was := Model();
      MarkInOneArena(was, k, k, mark);
      var i := 0;
      while !Reaches(arenas[i], mark)
        invariant 0 <= i <= k
        decreases k - i
      {
        i := i + 1;
      }
      MarkInOneArena(was, k, i, mark);
      arenas := arenas[i := arenas[i].(avail := AlignUp(mark, align))];
      live := Spec.Release(was, k, mark).live;
      FreeArenaList(i);
      assert arenas == was.arenas[..k] + [arenas[k]];
    }

    /** FreeArenaList: free the arenas after `head` one by one, and make it current. */
    method FreeArenaList(head: nat)
      requires head < |arenas| && (head == |arenas| - 1 ==> current == arenas[head].addr)
      modifies this`arenas, this`current
      ensures arenas == old(arenas)[..head + 1] && current == arenas[head].addr
    {
      if head + 1 == |arenas| {
        return;
      }
      while head + 1 < |arenas|
        invariant head < |arenas| && arenas[..head + 1] == old(arenas)[..head + 1]
        decreases |arenas|
      {
        arenas := arenas[..head + 1] + arenas[head + 2..];
      }
      current := arenas[head].addr;
    }
  }
}
