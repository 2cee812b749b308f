/**
 The arena pool of jsarena.c and jsarena.h as a value: the list of arenas, the `current` pointer
 and the allocations handed out and not yet taken back. Addresses are 32-bit words; a block
 returned by malloc or realloc is a parameter of the operation that asks for it.
 */
module Arena {
  import opened Wrappers

  const WORD: nat := 0x1_0000_0000
  const SIZEOF_PTR: nat := 4
  const SIZEOF_ARENA: nat := 16

  /** JSArena. `addr` is the address of the struct itself, which is also the address of its `next`
      field; `header` is the back-pointer stored just before `base`, if the arena was made with one. */
  datatype Arena = Arena(addr: nat, base: nat, limit: nat, avail: nat, header: Option<nat>)

  /** JSArenaPool. `arenas[0]` is the embedded `first`; the pool struct ends at `poolEnd`.
      `live` maps each live allocation to the size its owner believes it has. */
  datatype Pool = Pool(align: nat, arenasize: nat, poolEnd: nat,
                       arenas: seq<Arena>, current: nat, live: map<nat, nat>)

  // ---- alignment -------------------------------------------------------------------------------

  /** `n & ~mask`: the greatest multiple of the alignment that is at most n. */
  function AlignDown(n: nat, a: nat): nat
    requires a > 0
  {
    if n < a then 0 else a + AlignDown(n - a, a)
  }

  /** JS_ARENA_ALIGN: `(n + mask) & ~mask`. */
  function AlignUp(n: nat, a: nat): nat
    requires a > 0
  {
    AlignDown(n + a - 1, a)
  }

  predicate Aligned(n: nat, a: nat)
    requires a > 0
  {
    AlignDown(n, a) == n
  }

  lemma {:induction false} AlignDownFacts(n: nat, a: nat)
    requires a > 0
    ensures AlignDown(n, a) <= n < AlignDown(n, a) + a && Aligned(AlignDown(n, a), a)
  {
    if n < a {
    } else {
      AlignDownFacts(n - a, a);
    }
  }

  lemma AlignUpFacts(n: nat, a: nat)
    requires a > 0
    ensures n <= AlignUp(n, a) < n + a && Aligned(AlignUp(n, a), a)
  {
    AlignDownFacts(n + a - 1, a);
  }

  lemma {:induction false} AlignedSum(x: nat, y: nat, a: nat)
    requires a > 0 && Aligned(x, a) && Aligned(y, a)
    ensures Aligned(x + y, a)
  {
    if x < a {
    } else {
      AlignedSum(x - a, y, a);
    }
  }

  /** Two aligned addresses less than one unit apart do not pass each other. */
  lemma {:induction false} AlignedGap(x: nat, y: nat, a: nat)
    requires a > 0 && Aligned(x, a) && Aligned(y, a) && x < y + a
    ensures x <= y
  {
    if x >= a && y >= a {
      AlignedGap(x - a, y - a, a);
    }
  }

  // ---- what every reachable pool satisfies -----------------------------------------------------

  predicate ConfigOk(p: Pool) {
    && SIZEOF_PTR <= p.align && Aligned(p.arenasize, p.align)
    && SIZEOF_ARENA + SIZEOF_PTR + p.align + p.arenasize < WORD
  }

  function Last(p: Pool): Arena
    requires |p.arenas| > 0
  {
    p.arenas[|p.arenas| - 1]
  }

  /** One past the memory that arena i keeps others out of. */
  function End(p: Pool, i: nat): nat
    requires i < |p.arenas|
  {
    if i == 0 then p.poolEnd else p.arenas[i].limit
  }

  function Extent(p: Pool, q: nat): nat
    requires p.align > 0 && q in p.live
  {
    AlignUp(p.live[q], p.align)
  }

  /** Arena i holds the live allocation at q. */
  predicate Holds(p: Pool, i: nat, q: nat)
    requires p.align > 0 && q in p.live
  {
    && 1 <= i < |p.arenas|
    && p.arenas[i].base <= q && q + Extent(p, q) <= p.arenas[i].avail
  }

  ghost predicate FirstOk(p: Pool)
    requires p.align > 0 && |p.arenas| > 0
  {
    var a := p.arenas[0];
    && a.addr + SIZEOF_ARENA <= a.base < p.poolEnd < WORD
    && a.avail == a.base && a.limit == a.base && a.header.None?
    && Aligned(a.base, p.align)
  }

  /** A malloced arena: its words, and, if it was made oversized, its header and its single tenant. */
  ghost predicate ArenaOk(p: Pool, i: nat)
    requires p.align > 0 && 1 <= i < |p.arenas|
  {
    var a := p.arenas[i];
    && a.addr + SIZEOF_ARENA <= a.base < a.avail <= a.limit < WORD
    && Aligned(a.base, p.align) && Aligned(a.avail, p.align)
    && a.base < a.addr + SIZEOF_ARENA + (if a.header.Some? then SIZEOF_PTR else 0) + p.align
    && match a.header
       case None => p.arenasize <= a.limit - a.base < p.arenasize + p.align
       case Some(h) =>
         && h == p.arenas[i - 1].addr
         && a.addr + SIZEOF_ARENA + SIZEOF_PTR <= a.base
         && a.limit - a.avail < p.align && a.avail - a.base > p.arenasize
         && a.base in p.live && Extent(p, a.base) == a.avail - a.base
  }

  ghost predicate BlocksDisjoint(p: Pool) {
    forall i, j :: 0 <= i < j < |p.arenas| ==>
      End(p, i) <= p.arenas[j].addr || End(p, j) <= p.arenas[i].addr
  }

  ghost predicate LiveOk(p: Pool, q: nat)
    requires p.align > 0 && q in p.live
  {
    p.live[q] > 0 && Aligned(q, p.align) && exists i :: Holds(p, i, q)
  }

  /** The arenas are in order, clear of one another, and `current` is the last. */
  ghost predicate ArenasOk(p: Pool)
    requires p.align > 0
  {
    && |p.arenas| > 0 && FirstOk(p)
    && (forall i :: 1 <= i < |p.arenas| ==> ArenaOk(p, i))
    && BlocksDisjoint(p)
    && p.current == Last(p).addr
  }

  /** Live allocations are aligned, held by an arena and clear of one another. */
  ghost predicate TenantsOk(p: Pool)
    requires p.align > 0
  {
    && (forall q :: q in p.live ==> LiveOk(p, q))
    && (forall q, r :: q in p.live && r in p.live && q < r ==> q + Extent(p, q) <= r)
  }

  ghost predicate Valid(p: Pool) {
    ConfigOk(p) && ArenasOk(p) && TenantsOk(p)
  }

  /** A pool just initialised by JS_InitArenaPool. */
  function Init(addr: nat, align: nat, arenasize: nat, poolEnd: nat): Pool
    requires align > 0
  {
    var start := AlignUp(addr + SIZEOF_ARENA, align);
    Pool(align, arenasize, poolEnd, [Arena(addr, start, start, start, None)], addr, map[])
  }

  lemma InitIsValid(addr: nat, align: nat, arenasize: nat, poolEnd: nat)
    requires align > 0
    requires ConfigOk(Init(addr, align, arenasize, poolEnd))
    requires AlignUp(addr + SIZEOF_ARENA, align) < poolEnd < WORD
    ensures Valid(Init(addr, align, arenasize, poolEnd))
  {
    AlignUpFacts(addr + SIZEOF_ARENA, align);
  }

  // ---- what validity says in the words of the source --------------------------------------------

  /** An arena has consumed more than arenasize exactly when it carries a header. */
  lemma OversizedHasHeader(p: Pool, i: nat)
    requires Valid(p) && 1 <= i < |p.arenas|
    ensures p.arenas[i].avail - p.arenas[i].base > p.arenasize <==> p.arenas[i].header.Some?
    ensures p.arenas[i].header.Some? ==> p.arenas[i].header.value == p.arenas[i - 1].addr
  {
    var a := p.arenas[i];
    assert ArenaOk(p, i);
    if a.header.None? {
      AlignedSum(p.arenasize, a.base, p.align);
      AlignedGap(a.avail, a.base + p.arenasize, p.align);
    }
  }

  /** A live allocation lies in exactly one arena. */
  lemma HeldOnce(p: Pool, q: nat, i: nat, j: nat)
    requires Valid(p) && q in p.live && Holds(p, i, q) && Holds(p, j, q)
    ensures i == j
  {
    hide AlignDown;
    assert LiveOk(p, q) && ArenaOk(p, i) && ArenaOk(p, j);
    AlignUpFacts(p.live[q], p.align);
  }

  /** An oversized allocation owns its arena: it starts at the base of one with a header. */
  lemma OversizedOwnsArena(p: Pool, q: nat, i: nat)
    requires Valid(p) && q in p.live && Holds(p, i, q)
    ensures p.live[q] > p.arenasize <==> p.arenas[i].header.Some?
    ensures p.arenas[i].header.Some? ==> q == p.arenas[i].base && q + Extent(p, q) == p.arenas[i].avail
  {
    var a := p.arenas[i];
    assert LiveOk(p, q) && ArenaOk(p, i);
    AlignUpFacts(p.live[q], p.align);
    OversizedHasHeader(p, i);
    if a.header.Some? {
      if q != a.base {
        assert false;
      }
      if p.live[q] <= p.arenasize {
        AlignedGap(Extent(p, q), p.arenasize, p.align);
        assert false;
      }
    }
  }

  // ---- JS_ArenaAllocate and the allocating macro ---------------------------------------------

  /** What an operation answers: the pool it leaves and the pointer it returns (None for NULL). */
  datatype Answer = Answer(pool: Pool, ptr: Option<nat>)

  /** The negation of the search loop's guard, which subtracts so as not to overflow. */
  predicate Fits(a: Arena, nb: nat) {
    nb <= a.limit && a.avail <= a.limit - nb
  }

  /** HEADER_SIZE, with its padding for pools aligned more loosely than pointers. */
  function HeaderSize(align: nat): nat {
    SIZEOF_PTR + if align < SIZEOF_PTR then SIZEOF_PTR - align else 0
  }

  /** HEADER_BASE_MASK + 1, the alignment of the base of an arena with a header. */
  function HeaderAlign(align: nat): nat {
    if align < SIZEOF_PTR then SIZEOF_PTR else align
  }

  /** hdrsz: everything malloced that is not payload. */
  function HeaderSpace(align: nat, oversized: bool): nat
    requires align > 0
  {
    SIZEOF_ARENA + (if oversized then HeaderSize(align) else 0) + (align - 1)
  }

  function Gross(p: Pool, nb: nat): nat
    requires p.align > 0
  {
    HeaderSpace(p.align, nb > p.arenasize) + if nb > p.arenasize then nb else p.arenasize
  }

  /** The arena made in a block at `addr`, linked after the arena at `pred`, before it is used. */
  function NewArena(p: Pool, pred: nat, addr: nat, nb: nat): Arena
    requires p.align > 0
  {
    var limit := addr + Gross(p, nb);
    if nb > p.arenasize then
      var base := AlignDown(addr + HeaderSpace(p.align, true), HeaderAlign(p.align));
      Arena(addr, base, limit, base, Some(pred))
    else
      var base := AlignUp(addr + SIZEOF_ARENA, p.align);
      Arena(addr, base, limit, base, None)
  }

  /** A block as malloc may return it: inside the address space and clear of every block in use,
      except, for realloc, the block being replaced. */
  ghost predicate FreshBlock(p: Pool, addr: nat, gross: nat, except: int) {
    && addr + gross < WORD
    && forall j {:trigger End(p, j)} :: 0 <= j < |p.arenas| && j != except ==>
         addr + gross <= p.arenas[j].addr || End(p, j) <= addr
  }

  /** Allocate `size` bytes; `got` is malloc's answer if it is asked. */
  function Allocate(p: Pool, size: nat, got: Option<nat>): Answer
    requires p.align > 0 && |p.arenas| > 0
  {
    var n := |p.arenas|;
    var nb := AlignUp(size, p.align);
    var a := Last(p);
    if Fits(a, nb) then
      Answer(p.(arenas := p.arenas[n - 1 := a.(avail := a.avail + nb)],
                live := p.live[a.avail := size]),
             Some(a.avail))
    else if got.None? || Gross(p, nb) >= WORD then
      Answer(p, None)
    else
      var b := NewArena(p, a.addr, got.value, nb);
      Answer(p.(arenas := p.arenas + [b.(avail := b.base + nb)], current := b.addr,
                live := p.live[b.base := size]),
             Some(b.base))
  }

  /** What JS_ArenaAllocate and malloc are owed: a size the alignment arithmetic can hold. */
  ghost predicate CanAllocate(p: Pool, size: nat, got: Option<nat>)
    requires p.align > 0
  {
    && 0 < size && AlignUp(size, p.align) < WORD
    && (got.Some? ==> FreshBlock(p, got.value, Gross(p, AlignUp(size, p.align)), -1))
  }

  /** Only an arena without a header can have room to spare. */
  lemma RoomMeansPlain(p: Pool, i: nat, nb: nat)
    requires Valid(p) && i < |p.arenas| && 0 < nb && Aligned(nb, p.align) && Fits(p.arenas[i], nb)
    ensures i > 0 && p.arenas[i].header.None?
  {
    var a := p.arenas[i];
    assert a.limit - a.avail >= nb;
    if i > 0 && a.header.Some? {
      assert ArenaOk(p, i);
      AlignedGap(nb, 0, p.align);
    }
  }

  /** A live allocation ends at or before the cursor of its arena, or lies in another block. */
  lemma LiveStaysBelow(p: Pool, i: nat, q: nat)
    requires Valid(p) && 1 <= i < |p.arenas| && q in p.live
    ensures Extent(p, q) > 0
    ensures q + Extent(p, q) <= p.arenas[i].avail || q >= p.arenas[i].limit
    ensures q + Extent(p, q) <= p.arenas[i].addr || q >= p.arenas[i].base
  {
    assert LiveOk(p, q);
    AlignUpFacts(p.live[q], p.align);
    var j: nat :| Holds(p, j, q);
    assert ArenaOk(p, j) && ArenaOk(p, i);
    if j != i {
      assert End(p, i) <= p.arenas[j].addr || End(p, j) <= p.arenas[i].addr;
    }
  }

  /** The tenants of arenas with headers are untouched by a change of the live map. */
  ghost predicate SameTenants(p: Pool, live: map<nat, nat>) {
    forall k :: 1 <= k < |p.arenas| && p.arenas[k].header.Some? ==>
      var b := p.arenas[k].base; b in p.live && b in live && live[b] == p.live[b]
  }

  /** Moving one cursor keeps the arenas in order, if the arena has no header. */
  lemma MoveCursorKeepsArenas(p: Pool, i: nat, avail: nat, live: map<nat, nat>)
    requires Valid(p) && 1 <= i < |p.arenas| && p.arenas[i].header.None?
    requires p.arenas[i].base < avail <= p.arenas[i].limit && Aligned(avail, p.align)
    requires SameTenants(p, live)
    ensures ArenasOk(p.(arenas := p.arenas[i := p.arenas[i].(avail := avail)], live := live))
  {
    hide AlignDown, AlignUp, TenantsOk;
    var p' := p.(arenas := p.arenas[i := p.arenas[i].(avail := avail)], live := live);
    forall k | 1 <= k < |p'.arenas|
      ensures ArenaOk(p', k)
    {
      assert ArenaOk(p, k);
    }
    forall k, j | 0 <= k < j < |p'.arenas|
      ensures End(p', k) <= p'.arenas[j].addr || End(p', j) <= p'.arenas[k].addr
    {
      assert End(p, k) <= p.arenas[j].addr || End(p, j) <= p.arenas[k].addr;
    }
  }

  /** A new allocation clear of the old ones, in arenas that still hold the old ones. */
  lemma AddTenant(p: Pool, p': Pool, ptr: nat, size: nat, home: nat)
    requires p.align > 0 && TenantsOk(p) && p'.align == p.align
    requires p'.live == p.live[ptr := size] && size > 0 && Aligned(ptr, p.align)
    requires Holds(p', home, ptr)
    requires |p.arenas| <= |p'.arenas|
    requires forall i :: 1 <= i < |p.arenas| ==>
               p'.arenas[i].base == p.arenas[i].base && p'.arenas[i].avail >= p.arenas[i].avail
    requires forall q :: q in p.live ==>
               Extent(p, q) > 0 && (q + Extent(p, q) <= ptr || q >= ptr + AlignUp(size, p.align))
    ensures TenantsOk(p')
    ensures ptr !in p.live
  {
    AlignUpFacts(size, p.align);
    forall q | q in p'.live
      ensures LiveOk(p', q)
    {
      if q != ptr {
        assert LiveOk(p, q);
        var i: nat :| Holds(p, i, q);
        assert Holds(p', i, q);
      }
    }
  }

  /** A pointer that is not live yet leaves every tenant as it was. */
  lemma NewPointerKeepsTenants(p: Pool, ptr: nat, size: nat)
    requires Valid(p) && ptr !in p.live
    ensures SameTenants(p, p.live[ptr := size])
  {
    forall k | 1 <= k < |p.arenas| && p.arenas[k].header.Some?
      ensures p.arenas[k].base in p.live
    {
      assert ArenaOk(p, k);
    }
  }

  lemma AllocateInPlaceIsValid(p: Pool, size: nat, got: Option<nat>)
    requires Valid(p) && CanAllocate(p, size, got) && Fits(Last(p), AlignUp(size, p.align))
    ensures Valid(Allocate(p, size, got).pool)
  {
    hide AlignDown, AlignUp, BlocksDisjoint;
    var n := |p.arenas|;
    var nb := AlignUp(size, p.align);
    var a := Last(p);
    AlignUpFacts(size, p.align);
    RoomMeansPlain(p, n - 1, nb);
    assert ArenaOk(p, n - 1);
    AlignedSum(a.avail, nb, p.align);
    forall q | q in p.live
      ensures Extent(p, q) > 0 && (q + Extent(p, q) <= a.avail || q >= a.avail + nb)
    {
      LiveStaysBelow(p, n - 1, q);
    }
    AddTenant(p, Allocate(p, size, got).pool, a.avail, size, n - 1);
    NewPointerKeepsTenants(p, a.avail, size);
    MoveCursorKeepsArenas(p, n - 1, a.avail + nb, p.live[a.avail := size]);
  }

  lemma NewArenaFacts(p: Pool, pred: nat, addr: nat, nb: nat)
    requires ConfigOk(p) && 0 < nb && Aligned(nb, p.align)
    ensures var b := NewArena(p, pred, addr, nb);
            && b.addr == addr && b.limit == addr + Gross(p, nb)
            && addr + SIZEOF_ARENA <= b.base && b.base + nb <= b.limit
            && b.base < addr + SIZEOF_ARENA + (if b.header.Some? then SIZEOF_PTR else 0) + p.align
            && b.avail == b.base && Aligned(b.base, p.align) && Aligned(b.base + nb, p.align)
            && (if nb > p.arenasize
                then b.header == Some(pred) && addr + SIZEOF_ARENA + SIZEOF_PTR <= b.base
                     && b.limit - b.base < nb + p.align
                else b.header == None && p.arenasize <= b.limit - b.base < p.arenasize + p.align)
  {
    AlignUpFacts(addr + SIZEOF_ARENA, p.align);
    AlignDownFacts(addr + HeaderSpace(p.align, true), p.align);
    AlignedSum(NewArena(p, pred, addr, nb).base, nb, p.align);
  }

  /** A live allocation in an arena other than the excepted one is clear of a fresh block. */
  lemma LiveIsOutside(p: Pool, addr: nat, gross: nat, except: int, q: nat)
    requires Valid(p) && FreshBlock(p, addr, gross, except) && q in p.live
    requires except < 0 || (except < |p.arenas| && !Holds(p, except, q))
    ensures Extent(p, q) > 0
    ensures q + Extent(p, q) <= addr || q >= addr + gross
  {
    assert LiveOk(p, q);
    AlignUpFacts(p.live[q], p.align);
    var i: nat :| Holds(p, i, q);
    assert ArenaOk(p, i);
    assert addr + gross <= p.arenas[i].addr || End(p, i) <= addr;
  }

  /** Linking a sound arena in a fresh block after the last keeps the arenas in order. */
  lemma AppendArenaKeepsArenas(p: Pool, b: Arena, live: map<nat, nat>)
    requires Valid(p) && b.addr <= b.limit && FreshBlock(p, b.addr, b.limit - b.addr, -1)
    requires SameTenants(p, live)
    requires ArenaOk(p.(arenas := p.arenas + [b], live := live), |p.arenas|)
    ensures ArenasOk(p.(arenas := p.arenas + [b], current := b.addr, live := live))
  {
    var n := |p.arenas|;
    var p' := p.(arenas := p.arenas + [b], current := b.addr, live := live);
    forall i | 1 <= i < |p'.arenas|
      ensures ArenaOk(p', i)
    {
      if i < n {
        assert ArenaOk(p, i);
      }
    }
    forall i, j | 0 <= i < j < |p'.arenas|
      ensures End(p', i) <= p'.arenas[j].addr || End(p', j) <= p'.arenas[i].addr
    {
      assert End(p', i) == End(p, i);
    }
  }

  lemma AllocateByMallocIsValid(p: Pool, size: nat, got: Option<nat>)
    requires Valid(p) && CanAllocate(p, size, got) && !Fits(Last(p), AlignUp(size, p.align))
    requires got.Some? && Gross(p, AlignUp(size, p.align)) < WORD
    ensures Valid(Allocate(p, size, got).pool)
  {
    hide AlignDown, BlocksDisjoint, LiveOk;
    var nb := AlignUp(size, p.align);
    AlignUpFacts(size, p.align);
    NewArenaFacts(p, Last(p).addr, got.value, nb);
    var b := NewArena(p, Last(p).addr, got.value, nb);
    forall q | q in p.live
      ensures Extent(p, q) > 0 && (q + Extent(p, q) <= b.base || q >= b.base + nb)
    {
      LiveIsOutside(p, got.value, Gross(p, nb), -1, q);
    }
    AddTenant(p, Allocate(p, size, got).pool, b.base, size, |p.arenas|);
    NewPointerKeepsTenants(p, b.base, size);
    AppendArenaKeepsArenas(p, b.(avail := b.base + nb), p.live[b.base := size]);
  }

  /** The new allocation starts where no older one reaches. */
  lemma AllocateIsValid(p: Pool, size: nat, got: Option<nat>)
    requires Valid(p) && CanAllocate(p, size, got)
    ensures Valid(Allocate(p, size, got).pool)
  {
    if Fits(Last(p), AlignUp(size, p.align)) {
      AllocateInPlaceIsValid(p, size, got);
    } else if Allocate(p, size, got).ptr.Some? {
      AllocateByMallocIsValid(p, size, got);
    }
  }

  // ---- JS_ArenaFreeAllocation ------------------------------------------------------------------

  /** Unlink arena i: repair `current` and the back-pointer of an oversized successor. */
  function Unlink(p: Pool, i: nat): Pool
    requires 1 <= i < |p.arenas|
  {
    var n := |p.arenas|;
    var pred := p.arenas[i - 1].addr;
    var rest :=
      if i + 1 < n && p.arenas[i + 1].avail - p.arenas[i + 1].base > p.arenasize then
        p.arenas[i + 1..][0 := p.arenas[i + 1].(header := Some(pred))]
      else
        p.arenas[i + 1..];
    p.(arenas := p.arenas[..i] + rest, current := if p.current == p.arenas[i].addr then pred else p.current)
  }

  /** Free the allocation at q, which arena i holds. */
  function Free(p: Pool, i: nat, q: nat): Pool
    requires 1 <= i < |p.arenas| && q in p.live
  {
    if p.live[q] > p.arenasize || q == p.arenas[i].base then
      Unlink(p, i).(live := p.live - {q})
    else
      p.(arenas := p.arenas[i := p.arenas[i].(avail := q)], live := p.live - {q})
  }

  /** The caller frees a live allocation, and, unless it is oversized, the last of its arena. */
  ghost predicate CanFree(p: Pool, i: nat, q: nat)
    requires p.align > 0
  {
    && q in p.live && Holds(p, i, q)
    && (p.live[q] <= p.arenasize ==> q + Extent(p, q) == p.arenas[i].avail)
  }

  /** No other arena has the address of the last one. */
  lemma CurrentIsOnlyLast(p: Pool, i: nat)
    requires Valid(p) && i < |p.arenas|
    ensures p.current == p.arenas[i].addr <==> i == |p.arenas| - 1
  {
    hide AlignDown;
    var n := |p.arenas|;
    if i < n - 1 {
      assert End(p, i) <= Last(p).addr || End(p, n - 1) <= p.arenas[i].addr;
      assert ArenaOk(p, n - 1);
      if i > 0 {
        assert ArenaOk(p, i);
      }
    }
  }

  /** Unlinking shifts the later arenas down by one and re-aims at most one back-pointer. */
  lemma UnlinkShape(p: Pool, i: nat)
    requires Valid(p) && 1 <= i < |p.arenas|
    ensures var p' := Unlink(p, i);
            && |p'.arenas| == |p.arenas| - 1
            && p' == p.(arenas := p'.arenas, current := Last(p').addr)
    ensures forall k :: 0 <= k < |p.arenas| - 1 ==>
              var was := p.arenas[if k < i then k else k + 1];
              Unlink(p, i).arenas[k] ==
                if k == i && was.header.Some? then was.(header := Some(p.arenas[i - 1].addr)) else was
  {
    hide AlignDown;
    CurrentIsOnlyLast(p, i);
    if i + 1 < |p.arenas| {
      OversizedHasHeader(p, i + 1);
    }
  }

  lemma UnlinkKeepsBlocks(p: Pool, i: nat)
    requires Valid(p) && 1 <= i < |p.arenas|
    ensures BlocksDisjoint(Unlink(p, i))
  {
    hide AlignDown, Unlink;
    UnlinkShape(p, i);
    var p' := Unlink(p, i);
    forall k, j | 0 <= k < j < |p'.arenas|
      ensures End(p', k) <= p'.arenas[j].addr || End(p', j) <= p'.arenas[k].addr
    {
      var k0 := if k < i then k else k + 1;
      var j0 := if j < i then j else j + 1;
      assert End(p, k0) <= p.arenas[j0].addr || End(p, j0) <= p.arenas[k0].addr;
    }
  }

  /** The arena at k after unlinking is the sound arena it was, under its new predecessor. */
  lemma UnlinkKeepsArena(p: Pool, i: nat, live: map<nat, nat>, k: nat)
    requires Valid(p) && 1 <= i < |p.arenas| && 1 <= k < |p.arenas| - 1
    requires var was := p.arenas[if k < i then k else k + 1];
             was.header.Some? ==> was.base in p.live && was.base in live && live[was.base] == p.live[was.base]
    ensures |Unlink(p, i).arenas| == |p.arenas| - 1 && ArenaOk(Unlink(p, i).(live := live), k)
  {
    hide AlignDown, Unlink;
    UnlinkShape(p, i);
    var k0 := if k < i then k else k + 1;
    assert ArenaOk(p, k0);
  }

  lemma UnlinkKeepsArenas(p: Pool, i: nat, live: map<nat, nat>)
    requires Valid(p) && 1 <= i < |p.arenas|
    requires forall k :: 1 <= k < |p.arenas| && k != i && p.arenas[k].header.Some? ==>
               var b := p.arenas[k].base; b in p.live && b in live && live[b] == p.live[b]
    ensures ArenasOk(Unlink(p, i).(live := live))
  {
    hide AlignDown, Unlink, ArenaOk;
    UnlinkShape(p, i);
    UnlinkKeepsBlocks(p, i);
    var p' := Unlink(p, i).(live := live);
    forall k | 1 <= k < |p'.arenas|
      ensures ArenaOk(p', k)
    {
      UnlinkKeepsArena(p, i, live, k);
    }
  }

  /** An allocation that spans its whole arena is alone in it. */
  lemma SpanningTenantIsAlone(p: Pool, i: nat, q: nat, r: nat)
    requires Valid(p) && q in p.live && Holds(p, i, q)
    requires q == p.arenas[i].base && q + Extent(p, q) == p.arenas[i].avail
    requires r in p.live && Holds(p, i, r)
    ensures r == q
  {
    hide AlignDown;
    assert LiveOk(p, r);
    AlignUpFacts(p.live[r], p.align);
  }

  lemma FreeArenaKeepsTenant(p: Pool, i: nat, q: nat, r: nat)
    requires Valid(p) && CanFree(p, i, q) && (p.live[q] > p.arenasize || q == p.arenas[i].base)
    requires r in p.live && r != q
    ensures LiveOk(Free(p, i, q), r)
  {
    hide AlignDown, Unlink, ArenaOk, BlocksDisjoint, AlignUp;
    UnlinkShape(p, i);
    OversizedOwnsArena(p, q, i);
    assert LiveOk(p, r);
    var k: nat :| Holds(p, k, r);
    if k == i {
      SpanningTenantIsAlone(p, i, q, r);
    }
    assert Holds(Free(p, i, q), if k < i then k else k - 1, r);
  }

  lemma FreeArenaIsValid(p: Pool, i: nat, q: nat)
    requires Valid(p) && CanFree(p, i, q) && (p.live[q] > p.arenasize || q == p.arenas[i].base)
    ensures Valid(Free(p, i, q))
  {
    hide AlignDown, Unlink;
    UnlinkShape(p, i);
    var p' := Free(p, i, q);
    forall k | 1 <= k < |p.arenas| && k != i && p.arenas[k].header.Some?
      ensures var b := p.arenas[k].base; b in p.live && b in p'.live && p'.live[b] == p.live[b]
    {
      assert ArenaOk(p, k);
      if p.arenas[k].base == q {
        HeldOnce(p, q, i, k);
      }
    }
    UnlinkKeepsArenas(p, i, p'.live);
    forall r | r in p'.live
      ensures LiveOk(p', r)
    {
      FreeArenaKeepsTenant(p, i, q, r);
    }
  }

  lemma RetractKeepsTenant(p: Pool, i: nat, q: nat, r: nat)
    requires Valid(p) && CanFree(p, i, q) && p.live[q] <= p.arenasize && q != p.arenas[i].base
    requires r in p.live && r != q
    ensures LiveOk(Free(p, i, q), r)
  {
    hide AlignDown, BlocksDisjoint, ArenaOk;
    assert LiveOk(p, r) && LiveOk(p, q);
    AlignUpFacts(p.live[r], p.align);
    AlignUpFacts(p.live[q], p.align);
    var k: nat :| Holds(p, k, r);
    assert Holds(Free(p, i, q), k, r);
  }

  /** Dropping an allocation from the live ones leaves the tenants of headers that are not its arena. */
  lemma RetractIsValid(p: Pool, i: nat, q: nat)
    requires Valid(p) && CanFree(p, i, q) && p.live[q] <= p.arenasize && q != p.arenas[i].base
    ensures Valid(Free(p, i, q))
  {
    hide AlignDown, BlocksDisjoint;
    var p' := Free(p, i, q);
    OversizedOwnsArena(p, q, i);
    assert LiveOk(p, q) && ArenaOk(p, i);
    AlignUpFacts(p.live[q], p.align);
    forall k | 1 <= k < |p.arenas| && p.arenas[k].header.Some?
      ensures var b := p.arenas[k].base; b in p.live && b in p'.live && p'.live[b] == p.live[b]
    {
      assert ArenaOk(p, k);
      if p.arenas[k].base == q {
        HeldOnce(p, q, i, k);
      }
    }
    MoveCursorKeepsArenas(p, i, q, p'.live);
    forall r | r in p'.live
      ensures LiveOk(p', r)
    {
      RetractKeepsTenant(p, i, q, r);
    }
  }

  lemma FreeIsValid(p: Pool, i: nat, q: nat)
    requires Valid(p) && CanFree(p, i, q)
    ensures Valid(Free(p, i, q))
  {
    if p.live[q] > p.arenasize || q == p.arenas[i].base {
      FreeArenaIsValid(p, i, q);
    } else {
      RetractIsValid(p, i, q);
    }
  }

  // ---- JS_ArenaRelease -------------------------------------------------------------------------

  /** Allocation q of p lies below a mark in arena k. */
  ghost predicate Below(p: Pool, k: nat, mark: nat, q: nat)
    requires p.align > 0 && q in p.live
  {
    exists i: nat :: Holds(p, i, q) && (i < k || (i == k && q < mark))
  }

  /** Cut the pool back to a mark in arena k: later arenas are freed, the cursor retracts. */
  ghost function Release(p: Pool, k: nat, mark: nat): Pool
    requires p.align > 0 && k < |p.arenas|
  {
    p.(arenas := p.arenas[..k] + [p.arenas[k].(avail := AlignUp(mark, p.align))],
       current := p.arenas[k].addr,
       live := map q | q in p.live && Below(p, k, mark, q) :: p.live[q])
  }

  /** The mark is one that JS_ARENA_MARK gave while arena k was current and no allocation older than
      it has since been grown across it. A mark is never the base of a malloced arena, because no
      operation leaves such an arena empty. */
  ghost predicate CanRelease(p: Pool, k: nat, mark: nat)
    requires p.align > 0
  {
    && k < |p.arenas| && Aligned(mark, p.align)
    && p.arenas[k].base <= mark <= p.arenas[k].avail
    && (k > 0 ==> p.arenas[k].base < mark)
    && forall q :: q in p.live && Holds(p, k, q) ==> q + Extent(p, q) <= mark || mark <= q
  }

  lemma AlignedMeansExact(n: nat, a: nat)
    requires a > 0 && Aligned(n, a)
    ensures AlignUp(n, a) == n
  {
    AlignUpFacts(n, a);
    AlignedGap(AlignUp(n, a), n, a);
  }

  lemma ReleaseKeepsArena(p: Pool, k: nat, mark: nat, i: nat)
    requires Valid(p) && CanRelease(p, k, mark) && 1 <= i <= k
    ensures ArenaOk(Release(p, k, mark), i)
  {
    hide AlignDown;
    var p' := Release(p, k, mark);
    var a := p.arenas[i];
    assert ArenaOk(p, i);
    AlignedMeansExact(mark, p.align);
    if a.header.Some? {
      assert Holds(p, i, a.base);
      assert Below(p, k, mark, a.base);
      assert Extent(p', a.base) == Extent(p, a.base);
    }
  }

  lemma ReleaseIsValid(p: Pool, k: nat, mark: nat)
    requires Valid(p) && CanRelease(p, k, mark)
    ensures Valid(Release(p, k, mark))
  {
    hide AlignDown;
    var p' := Release(p, k, mark);
    AlignedMeansExact(mark, p.align);
    forall q | q in p'.live
      ensures LiveOk(p', q)
    {
      assert LiveOk(p, q);
      var i: nat :| Holds(p, i, q) && (i < k || (i == k && q < mark));
      assert Holds(p', i, q);
    }
    forall i | 1 <= i < |p'.arenas|
      ensures ArenaOk(p', i)
    {
      ReleaseKeepsArena(p, k, mark, i);
    }
    forall i, j | 0 <= i < j < |p'.arenas|
      ensures End(p', i) <= p'.arenas[j].addr || End(p', j) <= p'.arenas[i].addr
    {
      assert End(p, i) <= p.arenas[j].addr || End(p, j) <= p.arenas[i].addr;
    }
  }

  // ---- JS_ARENA_GROW, JS_ArenaGrow and JS_ArenaRealloc -----------------------------------------

  function ReallocGross(align: nat, need: nat): nat
    requires align > 0
  {
    HeaderSpace(align, true) + AlignUp(need, align)
  }

  /** The arena laid out in the block realloc returned, always with room for a header. */
  function ReallocArena(align: nat, pred: nat, addr: nat, need: nat): Arena
    requires align > 0
  {
    var base := AlignDown(addr + HeaderSpace(align, true), HeaderAlign(align));
    Arena(addr, base, addr + ReallocGross(align, need), base + AlignUp(need, align), Some(pred))
  }

  /** Enlarge the allocation that fills arena i by reallocating the arena. */
  function Realloc(p: Pool, i: nat, incr: nat, got: Option<nat>): Answer
    requires p.align > 0 && 1 <= i < |p.arenas| && p.arenas[i].base in p.live
  {
    var was := p.arenas[i];
    var need := p.live[was.base] + incr;
    if got.None? then
      Answer(p, None)
    else
      var a := ReallocArena(p.align, p.arenas[i - 1].addr, got.value, need);
      var moved := p.arenas[i := a];
      var arenas :=
        if i + 1 < |p.arenas| && moved[i + 1].avail - moved[i + 1].base > p.arenasize then
          moved[i + 1 := moved[i + 1].(header := Some(a.addr))]
        else
          moved;
      Answer(p.(arenas := arenas,
                current := if p.current == was.addr then a.addr else p.current,
                live := (p.live - {was.base})[a.base := need]),
             Some(a.base))
  }

  /** The three ways an allocation grows. */
  datatype Route = InPlace | ByRealloc | ByCopy

  /** The tests of the growing macro and of JS_ArenaGrow, for the allocation at q in arena i. */
  function GrowRoute(p: Pool, q: nat, incr: nat): Route
    requires p.align > 0 && |p.arenas| > 0 && q in p.live
  {
    var a := Last(p);
    var nb := AlignUp(p.live[q] + incr, p.align);
    if a.avail == q + Extent(p, q) && a.limit >= nb && q <= a.limit - nb then InPlace
    else if a.avail == q + Extent(p, q) && q == a.base then ByRealloc
    else if p.live[q] > p.arenasize then ByRealloc
    else ByCopy
  }

  /** What growing is owed: the true size of a live allocation, and sums that do not wrap. */
  ghost predicate CanGrow(p: Pool, i: nat, q: nat, incr: nat, got: Option<nat>)
    requires p.align > 0
  {
    && |p.arenas| > 0 && q in p.live && Holds(p, i, q)
    && ReallocGross(p.align, p.live[q] + incr) < WORD
    && (got.Some? ==>
          match GrowRoute(p, q, incr)
          case InPlace => true
          case ByRealloc => FreshBlock(p, got.value, ReallocGross(p.align, p.live[q] + incr), i)
          case ByCopy => FreshBlock(p, got.value, Gross(p, AlignUp(p.live[q] + incr, p.align)), -1))
  }

  lemma BlocksApart(p: Pool, i: nat, j: nat)
    requires BlocksDisjoint(p) && i <= j < |p.arenas|
    ensures i == j || End(p, i) <= p.arenas[j].addr || End(p, j) <= p.arenas[i].addr
  {
  }

  /** Only the last allocation of the last arena ends at its cursor. */
  lemma EndsAtCursor(p: Pool, i: nat, q: nat)
    requires Valid(p) && q in p.live && Holds(p, i, q)
    requires q + Extent(p, q) == Last(p).avail
    ensures i == |p.arenas| - 1
  {
    hide AlignDown;
    var n := |p.arenas|;
    assert LiveOk(p, q) && ArenaOk(p, i) && ArenaOk(p, n - 1);
    AlignUpFacts(p.live[q], p.align);
    BlocksApart(p, i, n - 1);
  }

  /** Reallocation is only ever asked for an allocation that fills its arena and outgrows it. */
  lemma RouteFacts(p: Pool, i: nat, q: nat, incr: nat)
    requires Valid(p) && q in p.live && Holds(p, i, q)
    ensures GrowRoute(p, q, incr).InPlace? ==> i == |p.arenas| - 1
    ensures GrowRoute(p, q, incr).ByRealloc? ==>
              && q == p.arenas[i].base && q + Extent(p, q) == p.arenas[i].avail
              && AlignUp(p.live[q] + incr, p.align) > p.arenasize
    ensures GrowRoute(p, q, incr).ByCopy? ==> p.live[q] <= p.arenasize
  {
    hide AlignDown;
    OversizedOwnsArena(p, q, i);
    AlignUpFacts(p.live[q] + incr, p.align);
    AlignUpFacts(p.live[q], p.align);
    assert ArenaOk(p, i);
    if q + Extent(p, q) == Last(p).avail {
      EndsAtCursor(p, i, q);
    }
  }

  /** Grow the allocation at q, which arena i holds, by incr bytes. */
  ghost function Grow(p: Pool, i: nat, q: nat, incr: nat, got: Option<nat>): Answer
    requires Valid(p) && CanGrow(p, i, q, incr, got)
  {
    var n := |p.arenas|;
    var need := p.live[q] + incr;
    RouteFacts(p, i, q, incr);
    match GrowRoute(p, q, incr)
    case InPlace =>
      Answer(p.(arenas := p.arenas[n - 1 := Last(p).(avail := q + AlignUp(need, p.align))], live := p.live[q := need]),
             Some(q))
    case ByRealloc => Realloc(p, i, incr, got)
    case ByCopy =>
      var r := Allocate(p, need, got);
      if r.ptr.None? then r else Answer(r.pool.(live := r.pool.live - {q}), r.ptr)
  }

  lemma ReallocArenaFacts(p: Pool, pred: nat, addr: nat, need: nat)
    requires ConfigOk(p) && ReallocGross(p.align, need) < WORD
    ensures var a := ReallocArena(p.align, pred, addr, need);
            && a.addr == addr && a.limit == addr + ReallocGross(p.align, need) && a.header == Some(pred)
            && addr + SIZEOF_ARENA + SIZEOF_PTR <= a.base < addr + SIZEOF_ARENA + SIZEOF_PTR + p.align
            && a.avail <= a.limit
            && a.avail == a.base + AlignUp(need, p.align) && a.limit - a.avail < p.align
            && Aligned(a.base, p.align) && Aligned(a.avail, p.align)
  {
    AlignDownFacts(addr + HeaderSpace(p.align, true), p.align);
    AlignUpFacts(need, p.align);
    AlignedSum(ReallocArena(p.align, pred, addr, need).base, AlignUp(need, p.align), p.align);
  }

  /** The conditions under which arena i is reallocated. */
  ghost predicate CanRealloc(p: Pool, i: nat, incr: nat, addr: nat) {
    && Valid(p) && 1 <= i < |p.arenas|
    && p.arenas[i].base in p.live && p.arenas[i].base + Extent(p, p.arenas[i].base) == p.arenas[i].avail
    && AlignUp(p.live[p.arenas[i].base] + incr, p.align) > p.arenasize
    && ReallocGross(p.align, p.live[p.arenas[i].base] + incr) < WORD
    && FreshBlock(p, addr, ReallocGross(p.align, p.live[p.arenas[i].base] + incr), i)
  }

  /** Reallocating replaces arena i and re-aims the back-pointer of an oversized successor. */
  lemma ReallocShape(p: Pool, i: nat, incr: nat, addr: nat)
    requires CanRealloc(p, i, incr, addr)
    ensures var p' := Realloc(p, i, incr, Some(addr)).pool;
            var a := ReallocArena(p.align, p.arenas[i - 1].addr, addr, p.live[p.arenas[i].base] + incr);
            && |p'.arenas| == |p.arenas| && p'.arenas[i] == a && p'.current == Last(p').addr
            && p' == p.(arenas := p'.arenas, current := p'.current, live := p'.live)
            && p'.live == (p.live - {p.arenas[i].base})[a.base := p.live[p.arenas[i].base] + incr]
            && forall k :: 0 <= k < |p.arenas| && k != i ==>
                 p'.arenas[k] ==
                   if k == i + 1 && p.arenas[k].header.Some? then p.arenas[k].(header := Some(addr)) else p.arenas[k]
  {
    hide AlignDown;
    CurrentIsOnlyLast(p, i);
    if i + 1 < |p.arenas| {
      OversizedHasHeader(p, i + 1);
    }
  }

  lemma ReallocKeepsBlocks(p: Pool, i: nat, incr: nat, addr: nat)
    requires CanRealloc(p, i, incr, addr)
    ensures BlocksDisjoint(Realloc(p, i, incr, Some(addr)).pool)
  {
    hide AlignDown, Realloc;
    ReallocShape(p, i, incr, addr);
    var p' := Realloc(p, i, incr, Some(addr)).pool;
    assert End(p', i) == addr + ReallocGross(p.align, p.live[p.arenas[i].base] + incr);
    forall k, j | 0 <= k < j < |p'.arenas|
      ensures End(p', k) <= p'.arenas[j].addr || End(p', j) <= p'.arenas[k].addr
    {
      assert k != i ==> End(p', k) == End(p, k);
      assert j != i ==> End(p', j) == End(p, j);
      assert End(p, k) <= p.arenas[j].addr || End(p, j) <= p.arenas[k].addr;
    }
  }

  /** A tenant of another arena stays where it was, clear of the reallocated one. */
  lemma ReallocMissesTenant(p: Pool, i: nat, incr: nat, addr: nat, k: nat, r: nat)
    requires CanRealloc(p, i, incr, addr) && k != i && r in p.live && Holds(p, k, r)
    ensures var p' := Realloc(p, i, incr, Some(addr)).pool;
            && |p'.arenas| == |p.arenas|
            && r in p'.live && p'.live[r] == p.live[r] && Holds(p', k, r) && r != p.arenas[i].base
            && (r + Extent(p, r) <= p'.arenas[i].base || r >= p'.arenas[i].avail)
  {
    hide AlignDown, Realloc, ReallocArena;
    ReallocShape(p, i, incr, addr);
    var need := p.live[p.arenas[i].base] + incr;
    ReallocArenaFacts(p, p.arenas[i - 1].addr, addr, need);
    assert LiveOk(p, r);
    AlignUpFacts(p.live[r], p.align);
    AlignUpFacts(need, p.align);
    if Holds(p, i, r) {
      HeldOnce(p, r, i, k);
    }
    assert r != p.arenas[i].base by {
      assert ArenaOk(p, i);
    }
    LiveIsOutside(p, addr, ReallocGross(p.align, need), i, r);
  }

  /** The tenant of another arena with a header is as it was. */
  lemma ReallocKeepsOtherTenant(p: Pool, i: nat, incr: nat, addr: nat, k: nat)
    requires CanRealloc(p, i, incr, addr) && 1 <= k < |p.arenas| && k != i && p.arenas[k].header.Some?
    ensures var p' := Realloc(p, i, incr, Some(addr)).pool; var b := p.arenas[k].base;
            p'.align == p.align && b in p.live && b in p'.live && Extent(p', b) == Extent(p, b)
  {
    hide AlignDown, Realloc;
    ReallocShape(p, i, incr, addr);
    assert ArenaOk(p, k);
    ReallocMissesTenant(p, i, incr, addr, k, p.arenas[k].base);
  }

  lemma ReallocKeepsArena(p: Pool, i: nat, incr: nat, addr: nat, k: nat)
    requires CanRealloc(p, i, incr, addr) && 1 <= k < |p.arenas|
    ensures var p' := Realloc(p, i, incr, Some(addr)).pool; |p'.arenas| == |p.arenas| && ArenaOk(p', k)
  {
    hide AlignDown, Realloc, ReallocArena, AlignUp, BlocksDisjoint, TenantsOk;
    ReallocShape(p, i, incr, addr);
    ReallocArenaFacts(p, p.arenas[i - 1].addr, addr, p.live[p.arenas[i].base] + incr);
    if k != i {
      assert ArenaOk(p, k);
      if p.arenas[k].header.Some? {
        ReallocKeepsOtherTenant(p, i, incr, addr, k);
      }
    }
  }

  lemma ReallocKeepsTenants(p: Pool, i: nat, incr: nat, addr: nat)
    requires CanRealloc(p, i, incr, addr)
    ensures TenantsOk(Realloc(p, i, incr, Some(addr)).pool)
  {
    hide AlignDown, Realloc, ReallocArena, ReallocGross, FreshBlock;
    ReallocShape(p, i, incr, addr);
    var q := p.arenas[i].base;
    var need := p.live[q] + incr;
    var p' := Realloc(p, i, incr, Some(addr)).pool;
    var a := p'.arenas[i];
    ReallocArenaFacts(p, p.arenas[i - 1].addr, addr, need);
    AlignUpFacts(need, p.align);
    forall r | r in p.live && r != q
      ensures r != a.base && r in p'.live && LiveOk(p', r) && Extent(p', r) == Extent(p, r) > 0
      ensures r + Extent(p, r) <= a.base || r >= a.avail
    {
      assert LiveOk(p, r);
      AlignUpFacts(p.live[r], p.align);
      var k: nat :| Holds(p, k, r);
      assert LiveOk(p, q) && Holds(p, i, q);
      if k == i {
        SpanningTenantIsAlone(p, i, q, r);
      }
      ReallocMissesTenant(p, i, incr, addr, k, r);
    }
    assert Holds(p', i, a.base);
  }

  lemma ReallocIsValid(p: Pool, i: nat, incr: nat, addr: nat)
    requires CanRealloc(p, i, incr, addr)
    ensures Valid(Realloc(p, i, incr, Some(addr)).pool)
  {
    hide AlignDown, ArenaOk, Realloc, ReallocArena;
    ReallocShape(p, i, incr, addr);
    ReallocKeepsBlocks(p, i, incr, addr);
    var p' := Realloc(p, i, incr, Some(addr)).pool;
    forall k | 1 <= k < |p'.arenas|
      ensures ArenaOk(p', k)
    {
      ReallocKeepsArena(p, i, incr, addr, k);
    }
    ReallocKeepsTenants(p, i, incr, addr);
  }

  lemma FewerTenants(p: Pool, q: nat)
    requires p.align > 0 && TenantsOk(p)
    ensures TenantsOk(p.(live := p.live - {q}))
  {
    hide AlignDown, AlignUp;
    var p' := p.(live := p.live - {q});
    forall r | r in p'.live
      ensures LiveOk(p', r)
    {
      assert LiveOk(p, r);
      var k: nat :| Holds(p, k, r);
      assert Holds(p', k, r);
    }
  }

  lemma SameBlocks(p: Pool, p': Pool)
    requires BlocksDisjoint(p) && |p'.arenas| == |p.arenas|
    requires forall k :: 0 <= k < |p.arenas| ==> p'.arenas[k].addr == p.arenas[k].addr && End(p', k) == End(p, k)
    ensures BlocksDisjoint(p')
  {
  }

  /** Abandoning an allocation that is not oversized, as a growing copy does, keeps the pool sound. */
  lemma AbandonIsValid(p: Pool, i: nat, q: nat)
    requires Valid(p) && q in p.live && Holds(p, i, q) && p.live[q] <= p.arenasize
    ensures Valid(p.(live := p.live - {q}))
  {
    hide AlignDown, AlignUp;
    var p' := p.(live := p.live - {q});
    OversizedOwnsArena(p, q, i);
    forall k | 1 <= k < |p.arenas|
      ensures ArenaOk(p', k)
    {
      assert ArenaOk(p, k);
      if p.arenas[k].header.Some? && p.arenas[k].base == q {
        HeldOnce(p, q, i, k);
      }
    }
    SameBlocks(p, p');
    FewerTenants(p, q);
  }

  lemma AlignUpGrows(m: nat, n: nat, a: nat)
    requires a > 0 && m <= n
    ensures AlignUp(m, a) <= AlignUp(n, a)
  {
    AlignUpFacts(m, a);
    AlignUpFacts(n, a);
    AlignedGap(AlignUp(m, a), AlignUp(n, a), a);
  }

  /** The last cursor moves up over a grown allocation, and stands still under a header. */
  lemma GrowInPlaceCursor(p: Pool, i: nat, q: nat, incr: nat)
    requires Valid(p) && q in p.live && Holds(p, i, q) && GrowRoute(p, q, incr).InPlace?
    ensures i == |p.arenas| - 1
    ensures var end := q + AlignUp(p.live[q] + incr, p.align);
            && Last(p).avail <= end <= Last(p).limit && Aligned(end, p.align)
            && (Last(p).header.Some? ==> end == Last(p).avail && q == Last(p).base)
  {
    hide AlignDown;
    var need := p.live[q] + incr;
    var a := Last(p);
    RouteFacts(p, i, q, incr);
    OversizedOwnsArena(p, q, i);
    AlignUpFacts(need, p.align);
    assert LiveOk(p, q) && ArenaOk(p, i);
    AlignedSum(q, AlignUp(need, p.align), p.align);
    AlignUpGrows(p.live[q], need, p.align);
    if a.header.Some? {
      AlignedGap(q + AlignUp(need, p.align), a.avail, p.align);
    }
  }

  lemma GrowInPlaceKeepsArena(p: Pool, q: nat, end: nat, need: nat, k: nat)
    requires Valid(p) && 1 <= k < |p.arenas| && q in p.live && Holds(p, |p.arenas| - 1, q)
    requires Last(p).avail <= end <= Last(p).limit && Aligned(end, p.align) && end == q + AlignUp(need, p.align)
    requires Last(p).header.Some? ==> end == Last(p).avail && q == Last(p).base
    ensures ArenaOk(p.(arenas := p.arenas[|p.arenas| - 1 := Last(p).(avail := end)], live := p.live[q := need]), k)
  {
    hide AlignDown, AlignUp;
    assert ArenaOk(p, k);
    if k != |p.arenas| - 1 && p.arenas[k].header.Some? && p.arenas[k].base == q {
      HeldOnce(p, q, |p.arenas| - 1, k);
    }
  }

  lemma GrowInPlaceKeepsTenants(p: Pool, i: nat, q: nat, incr: nat, got: Option<nat>)
    requires Valid(p) && CanGrow(p, i, q, incr, got) && GrowRoute(p, q, incr).InPlace?
    ensures TenantsOk(Grow(p, i, q, incr, got).pool)
  {
    hide AlignDown;
    var n := |p.arenas|;
    var p' := Grow(p, i, q, incr, got).pool;
    RouteFacts(p, i, q, incr);
    AlignUpGrows(p.live[q], p.live[q] + incr, p.align);
    assert LiveOk(p, q);
    forall r | r in p.live && r != q
      ensures LiveOk(p', r) && Extent(p', r) == Extent(p, r) > 0
      ensures r + Extent(p, r) <= q || r >= q + Extent(p', q)
    {
      assert LiveOk(p, r);
      LiveStaysBelow(p, n - 1, r);
      var k: nat :| Holds(p, k, r);
      assert Holds(p', k, r);
    }
    assert Holds(p', n - 1, q);
  }

  /** Growing in place moves the last cursor; the neighbours lie below it. */
  lemma GrowInPlaceIsValid(p: Pool, i: nat, q: nat, incr: nat, got: Option<nat>)
    requires Valid(p) && CanGrow(p, i, q, incr, got) && GrowRoute(p, q, incr).InPlace?
    ensures Valid(Grow(p, i, q, incr, got).pool)
  {
    hide AlignDown, AlignUp, ArenaOk;
    var p' := Grow(p, i, q, incr, got).pool;
    var need := p.live[q] + incr;
    GrowInPlaceCursor(p, i, q, incr);
    GrowInPlaceKeepsTenants(p, i, q, incr, got);
    forall k | 1 <= k < |p.arenas|
      ensures ArenaOk(p', k)
    {
      GrowInPlaceKeepsArena(p, q, q + AlignUp(need, p.align), need, k);
    }
    SameBlocks(p, p');
  }

  /** What the holder of q still holds after another allocation is made. */
  lemma AllocateKeepsHolding(p: Pool, size: nat, got: Option<nat>, i: nat, q: nat)
    requires Valid(p) && CanAllocate(p, size, got) && q in p.live && Holds(p, i, q)
    ensures var p' := Allocate(p, size, got).pool;
            q in p'.live && p'.live[q] == p.live[q] && Holds(p', i, q)
    ensures Allocate(p, size, got).ptr != Some(q)
  {
    hide AlignDown, NewArena;
    AlignUpFacts(size, p.align);
    AlignUpFacts(p.live[q], p.align);
    assert LiveOk(p, q);
    if Fits(Last(p), AlignUp(size, p.align)) {
      RoomMeansPlain(p, |p.arenas| - 1, AlignUp(size, p.align));
      LiveStaysBelow(p, |p.arenas| - 1, q);
    } else if Allocate(p, size, got).ptr.Some? {
      NewArenaFacts(p, Last(p).addr, got.value, AlignUp(size, p.align));
      LiveIsOutside(p, got.value, Gross(p, AlignUp(size, p.align)), -1, q);
    }
  }

  lemma GrowIsValid(p: Pool, i: nat, q: nat, incr: nat, got: Option<nat>)
    requires Valid(p) && CanGrow(p, i, q, incr, got)
    ensures Valid(Grow(p, i, q, incr, got).pool)
  {
    hide AlignDown;
    RouteFacts(p, i, q, incr);
    assert LiveOk(p, q);
    match GrowRoute(p, q, incr) {
      case InPlace => GrowInPlaceIsValid(p, i, q, incr, got);
      case ByRealloc =>
        if got.Some? {
          ReallocIsValid(p, i, incr, got.value);
        }
      case ByCopy =>
        var need := p.live[q] + incr;
        AllocateIsValid(p, need, got);
        var r := Allocate(p, need, got);
        if r.ptr.Some? {
          AllocateKeepsHolding(p, need, got, i, q);
          AbandonIsValid(r.pool, i, q);
        }
    }
  }
}
