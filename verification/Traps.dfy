/**
 Breakpoints (jsdbgapi.c): a trap keeps the opcode it has overwritten in the code. Debugger threads set, clear and patch
 concurrently; what one does between taking the debugger lock and releasing it is one step here. Two operations let
 go of the lock half way, and use a counter of mutations to notice what happened meanwhile.
 */
module Traps {
  import opened Wrappers

  type Op = nat
  type Script = nat
  type Thread = nat
  type Handler = nat

  const JSOP_TRAP: Op := 83
  const WORD: nat := 0x1_0000_0000

  /** A bytecode: its script and its offset there. No two scripts share code. */
  datatype Site = Site(script: Script, pc: nat)

  datatype Trap = Trap(id: nat, site: Site, op: Op, handler: Handler)

  /** What a thread remembers while it does not hold the lock. */
  datatype Phase =
    | Setting(site: Site, handler: Handler, sample: nat)
    | Clearing(script: Option<Script>, sample: nat, next: Option<nat>)

  /**
   * mutations counts what rt->debuggerMutations counts, but without wrapping; the code compares the counts as 32-bit
   * words. threads holds the threads that are between two lock sections of one operation. nextId tells traps apart, as
   * their addresses do.
   */
  datatype State = State(
    traps: seq<Trap>,
    code: map<Site, Op>,
    mutations: nat,
    threads: map<Thread, Phase>,
    nextId: nat)

  datatype Action =
    | SetTrap(thread: Thread, site: Site, handler: Handler)
    | FinishSetTrap(thread: Thread, made: bool)
    | ClearTrap(thread: Thread, site: Site)
    | PatchOpcode(thread: Thread, site: Site, op: Op)
    | ClearTraps(thread: Thread, script: Option<Script>)
    | ContinueClear(thread: Thread)

  // ---- the trap list -----------------------------------------------------------------------------------

  /** FindTrap: the first trap at the site, or the end of the list. */
  function FindTrap(traps: seq<Trap>, site: Site): (i: nat)
    ensures i <= |traps|
    ensures i < |traps| ==> traps[i].site == site
    ensures forall j :: 0 <= j < i ==> traps[j].site != site
  {
    if traps == [] || traps[0].site == site then 0 else 1 + FindTrap(traps[1..], site)
  }

  predicate Matches(trap: Trap, script: Option<Script>) {
    script == None || script == Some(trap.site.script)
  }

  /** The first trap of the script (of any script, if none is given) at or after a place in the list. */
  function FirstMatch(traps: seq<Trap>, script: Option<Script>, from: nat): (i: nat)
    requires from <= |traps|
    ensures from <= i <= |traps|
    ensures i < |traps| ==> Matches(traps[i], script)
    ensures forall j :: from <= j < i ==> !Matches(traps[j], script)
    decreases |traps| - from
  {
    if from == |traps| || Matches(traps[from], script) then from else FirstMatch(traps, script, from + 1)
  }

  /** The trap a saved link leads to; no link leads to the list's head, past the last trap. */
  function Follow(traps: seq<Trap>, next: Option<nat>): (i: nat)
    ensures i <= |traps|
    ensures next.Some? && i < |traps| ==> traps[i].id == next.value
    ensures next.None? ==> i == |traps|
    ensures next.Some? && i == |traps| ==> forall j :: 0 <= j < |traps| ==> traps[j].id != next.value
  {
    if next.None? || traps == [] then |traps|
    else if traps[0].id == next.value then 0
    else 1 + Follow(traps[1..], next)
  }

  /** JS_REMOVE_LINK */
  function Without(traps: seq<Trap>, i: nat): seq<Trap>
    requires i < |traps|
  {
    traps[..i] + traps[i + 1..]
  }

  /** DestroyTrapAndUnlock, up to the unlocking: the byte gets its opcode back. */
  function Destroy(s: State, i: nat): State
    requires i < |s.traps|
  {
    var trap := s.traps[i];
    s.(traps := Without(s.traps, i), code := s.code[trap.site := trap.op], mutations := s.mutations + 1)
  }

  // ---- the steps ---------------------------------------------------------------------------------------

  function Forget(threads: map<Thread, Phase>, thread: Thread): map<Thread, Phase> {
    map t | t in threads && t != thread :: threads[t]
  }

  predicate Enabled(s: State, action: Action) {
    match action
    case FinishSetTrap(thread, _) =>
      thread in s.threads && s.threads[thread].Setting? && s.threads[thread].site in s.code
    case ContinueClear(thread) => thread in s.threads && s.threads[thread].Clearing?
    case SetTrap(thread, site, _) => thread !in s.threads && site in s.code
    case ClearTrap(thread, site) => thread !in s.threads && site in s.code
    case PatchOpcode(thread, site, op) => thread !in s.threads && site in s.code && op != JSOP_TRAP
    case ClearTraps(thread, _) => thread !in s.threads
  }

  function SetHandler(s: State, i: nat, handler: Handler): State
    requires i < |s.traps|
  {
    s.(traps := s.traps[i := s.traps[i].(handler := handler)])
  }

  /** One lock section of the clearing loops, from a place in the list to the next trap destroyed or to the end. */
  function ClearFrom(s: State, thread: Thread, script: Option<Script>, from: nat): State
    requires from <= |s.traps|
  {
    var i := FirstMatch(s.traps, script, from);
    if i == |s.traps| then s.(threads := Forget(s.threads, thread))
    else
      var next := if i + 1 < |s.traps| then Some(s.traps[i + 1].id) else None;
      var t := Destroy(s, i);
      t.(threads := t.threads[thread := Clearing(script, s.mutations, next)])
  }

  function Step(s: State, action: Action): State
    requires Enabled(s, action)
  {
    match action
    case SetTrap(thread, site, handler) =>
      var i := FindTrap(s.traps, site);
      if i < |s.traps| then SetHandler(s, i, handler)
      else s.(threads := s.threads[thread := Setting(site, handler, s.mutations)])
    case FinishSetTrap(thread, made) =>
      var Setting(site, handler, sample) := s.threads[thread];
      var s := s.(threads := Forget(s.threads, thread));
      if !made then s else
      var twin := if s.mutations % WORD != sample % WORD then FindTrap(s.traps, site) else |s.traps|;
      if twin < |s.traps| then SetHandler(s, twin, handler) else
      State(s.traps + [Trap(s.nextId, site, s.code[site], handler)], s.code[site := JSOP_TRAP], s.mutations + 1,
            s.threads, s.nextId + 1)
    case ClearTrap(thread, site) =>
      var i := FindTrap(s.traps, site);
      if i < |s.traps| then Destroy(s, i) else s
    case PatchOpcode(thread, site, op) =>
      var i := FindTrap(s.traps, site);
      if i < |s.traps| then s.(traps := s.traps[i := s.traps[i].(op := op)])
      else s.(code := s.code[site := op])
    case ClearTraps(thread, script) => ClearFrom(s, thread, script, 0)
    case ContinueClear(thread) =>
      var Clearing(script, sample, next) := s.threads[thread];
      ClearFrom(s, thread, script, if s.mutations % WORD != (sample + 1) % WORD then 0 else Follow(s.traps, next))
  }

  // ---- what every step keeps ---------------------------------------------------------------------------

  ghost predicate TrapsOk(traps: seq<Trap>, code: map<Site, Op>, nextId: nat) {
    && (forall i, j :: 0 <= i < j < |traps| ==> traps[i].site != traps[j].site && traps[i].id != traps[j].id)
    && (forall i :: 0 <= i < |traps| ==>
          traps[i].site in code && traps[i].op != JSOP_TRAP && traps[i].id < nextId && code[traps[i].site] == JSOP_TRAP)
  }

  ghost predicate Covered(traps: seq<Trap>, site: Site) {
    exists i :: 0 <= i < |traps| && traps[i].site == site
  }

  ghost predicate Linked(traps: seq<Trap>, next: Option<nat>) {
    next.Some? ==> exists i :: 0 <= i < |traps| && traps[i].id == next.value
  }

  /**
   * What a thread remembers is right for as long as nothing has been changed: the site it is about to trap has no trap,
   * the link it is about to follow leads to a trap in the list.
   */
  ghost predicate PhaseOk(s: State, phase: Phase) {
    match phase
    case Setting(site, _, sample) =>
      site in s.code && sample <= s.mutations && (sample == s.mutations ==> !Covered(s.traps, site))
    case Clearing(_, sample, next) =>
      sample < s.mutations && (sample + 1 == s.mutations ==> Linked(s.traps, next))
  }

  ghost predicate Valid(s: State) {
    && TrapsOk(s.traps, s.code, s.nextId)
    && (forall site :: site in s.code && s.code[site] == JSOP_TRAP ==> Covered(s.traps, site))
    && (forall t :: t in s.threads ==> PhaseOk(s, s.threads[t]))
  }

  /** No thread has let the 32-bit counter come round to where it was while it did not hold the lock. */
  ghost predicate Timely(s: State) {
    forall t :: t in s.threads ==> s.mutations - s.threads[t].sample < WORD
  }

  /** The code as it would be without traps. */
  ghost function View(s: State): map<Site, Op> {
    map site | site in s.code :: var i := FindTrap(s.traps, site); if i < |s.traps| then s.traps[i].op else s.code[site]
  }

  /** What the source asserts, and what its list operations rely on. */
  ghost predicate AssertionsHold(s: State, action: Action)
    requires Enabled(s, action)
  {
    match action
    case SetTrap(_, site, _) => FindTrap(s.traps, site) < |s.traps| ==> s.code[site] == JSOP_TRAP
    case ContinueClear(thread) =>
      var Clearing(_, sample, next) := s.threads[thread];
      s.mutations % WORD == (sample + 1) % WORD && next.Some? ==> Follow(s.traps, next) < |s.traps|
    case _ => true
  }

  lemma SameWord(a: nat, b: nat)
    requires a <= b < a + WORD
    ensures a % WORD == b % WORD ==> a == b
  {
  }

  lemma FindsCovered(traps: seq<Trap>, site: Site)
    ensures FindTrap(traps, site) < |traps| <==> Covered(traps, site)
  {
  }

  lemma FollowsLinked(traps: seq<Trap>, next: Option<nat>)
    requires Linked(traps, next)
    ensures next.Some? ==> Follow(traps, next) < |traps|
  {
  }

  /** The one trap at a site is the one that is found. */
  lemma FindsTheOne(traps: seq<Trap>, i: nat)
    requires i < |traps|
    requires forall j :: 0 <= j < |traps| && j != i ==> traps[j].site != traps[i].site
    ensures FindTrap(traps, traps[i].site) == i
  {
  }

  lemma WithoutFacts(traps: seq<Trap>, code: map<Site, Op>, nextId: nat, i: nat)
    requires TrapsOk(traps, code, nextId) && i < |traps|
    ensures TrapsOk(Without(traps, i), code[traps[i].site := traps[i].op], nextId)
    ensures forall site :: Covered(Without(traps, i), site) <==> Covered(traps, site) && site != traps[i].site
  {
    var left := Without(traps, i);
    assert forall j :: 0 <= j < |left| ==> left[j] == traps[if j < i then j else j + 1];
    forall site | Covered(traps, site) && site != traps[i].site
      ensures Covered(left, site)
    {
      var k :| 0 <= k < |traps| && traps[k].site == site;
      assert left[if k < i then k else k - 1].site == site;
    }
  }

  /** What the view shows of a site: the opcode in its trap, if it has one. */
  lemma ViewOfTrap(s: State, i: nat)
    requires Valid(s) && i < |s.traps|
    ensures s.traps[i].site in View(s) && View(s)[s.traps[i].site] == s.traps[i].op
  {
    FindsTheOne(s.traps, i);
  }

  lemma ViewOfCode(s: State, site: Site)
    requires site in s.code && !Covered(s.traps, site)
    ensures site in View(s) && View(s)[site] == s.code[site]
  {
  }

  lemma DestroyIsValid(s: State, i: nat)
    requires Valid(s) && i < |s.traps|
    ensures Valid(Destroy(s, i))
  {
    WithoutFacts(s.traps, s.code, s.nextId, i);
    hide TrapsOk, Covered, Linked;
  }

  lemma TrapsOfValid(s: State)
    requires Valid(s)
    ensures TrapsOk(s.traps, s.code, s.nextId)
  {
  }

  lemma DestroyKeepsViewAt(s: State, i: nat, site: Site)
    requires Valid(s) && i < |s.traps| && site in s.code
    ensures site in View(Destroy(s, i)) && View(Destroy(s, i))[site] == View(s)[site]
  {
    hide View, TrapsOk, Valid, FindTrap;
    var d := Destroy(s, i);
    DestroyIsValid(s, i);
    WithoutFacts(s.traps, s.code, s.nextId, i) by {
      TrapsOfValid(s);
    }
    ViewOfTrap(s, i);
    if site == s.traps[i].site {
      ViewOfCode(d, site);
    } else if Covered(s.traps, site) {
      var k :| 0 <= k < |s.traps| && s.traps[k].site == site;
      var j := if k < i then k else k - 1;
      assert d.traps[j] == s.traps[k];
      ViewOfTrap(s, k);
      ViewOfTrap(d, j);
    } else {
      ViewOfCode(s, site);
      ViewOfCode(d, site);
    }
  }

  lemma TrapSiteIsCode(s: State, i: nat)
    requires Valid(s) && i < |s.traps|
    ensures s.traps[i].site in s.code && s.traps[i].op != JSOP_TRAP
  {
  }

  lemma DestroyKeepsView(s: State, i: nat)
    requires Valid(s) && i < |s.traps|
    ensures View(Destroy(s, i)) == View(s)
  {
    hide FindTrap, Valid, Without;
    TrapSiteIsCode(s, i);
    assert Destroy(s, i).code.Keys == s.code.Keys;
    forall site | site in s.code
      ensures View(Destroy(s, i))[site] == View(s)[site]
    {
      DestroyKeepsViewAt(s, i, site);
    }
  }

  /** Two lists of traps at the same sites, trap by trap. */
  ghost predicate SameSites(traps: seq<Trap>, others: seq<Trap>) {
    && |traps| == |others|
    && forall i :: 0 <= i < |traps| ==> traps[i].site == others[i].site && traps[i].id == others[i].id
  }

  lemma SameSitesFacts(traps: seq<Trap>, others: seq<Trap>)
    requires SameSites(traps, others)
    ensures forall site :: Covered(traps, site) <==> Covered(others, site)
    ensures forall next :: Linked(traps, next) <==> Linked(others, next)
  {
  }

  /** Changing what a trap holds, but not where it is, keeps everything but the view of its site. */
  lemma ReplaceIsValid(s: State, i: nat, trap: Trap)
    requires Valid(s) && i < |s.traps|
    requires trap.site == s.traps[i].site && trap.id == s.traps[i].id && trap.op != JSOP_TRAP
    ensures Valid(s.(traps := s.traps[i := trap]))
  {
    assert SameSites(s.traps, s.traps[i := trap]);
    SameSitesFacts(s.traps, s.traps[i := trap]);
    hide Covered, Linked;
  }

  lemma ViewDiffersAt(s: State, t: State, i: nat, site: Site)
    requires Valid(s) && Valid(t) && s.code == t.code && site in s.code
    requires i < |s.traps| == |t.traps| && s.traps[i].site == t.traps[i].site
    requires forall k :: 0 <= k < |s.traps| && k != i ==> s.traps[k] == t.traps[k]
    ensures site in View(t) && View(t)[site] == if site == t.traps[i].site then t.traps[i].op else View(s)[site]
  {
    hide View, FindTrap, Valid;
    if site == t.traps[i].site {
      ViewOfTrap(t, i);
    } else if Covered(s.traps, site) {
      var k :| 0 <= k < |s.traps| && s.traps[k].site == site;
      ViewOfTrap(s, k);
      ViewOfTrap(t, k);
    } else {
      ViewOfCode(s, site);
      ViewOfCode(t, site);
    }
  }

  lemma ReplaceChangesView(s: State, i: nat, trap: Trap)
    requires Valid(s) && i < |s.traps|
    requires trap.site == s.traps[i].site && trap.id == s.traps[i].id && trap.op != JSOP_TRAP
    ensures View(s.(traps := s.traps[i := trap])) == View(s)[trap.site := trap.op]
  {
    hide FindTrap, Valid;
    var t := s.(traps := s.traps[i := trap]);
    ReplaceIsValid(s, i, trap);
    TrapSiteIsCode(s, i);
    forall site | site in s.code
      ensures View(t)[site] == View(s)[trap.site := trap.op][site]
    {
      ViewDiffersAt(s, t, i, site);
    }
  }

  lemma PatchKeepsTraps(s: State, site: Site, op: Op)
    requires Valid(s) && site in s.code && FindTrap(s.traps, site) == |s.traps| && op != JSOP_TRAP
    ensures Valid(s.(code := s.code[site := op]))
  {
    FindsCovered(s.traps, site);
    hide FindTrap, Linked;
    assert forall i :: 0 <= i < |s.traps| ==> s.traps[i].site != site;
  }

  lemma PatchIsValid(s: State, site: Site, op: Op)
    requires Valid(s) && site in s.code && FindTrap(s.traps, site) == |s.traps| && op != JSOP_TRAP
    ensures Valid(s.(code := s.code[site := op]))
    ensures View(s.(code := s.code[site := op])) == View(s)[site := op]
  {
    PatchKeepsTraps(s, site, op);
    hide FindTrap, Valid;
  }

  /** Linking a new trap takes the site's byte from the code into the trap. */
  function AddTrap(s: State, site: Site, handler: Handler): State
    requires site in s.code
  {
    s.(traps := s.traps + [Trap(s.nextId, site, s.code[site], handler)], code := s.code[site := JSOP_TRAP],
       mutations := s.mutations + 1, nextId := s.nextId + 1)
  }

  lemma AppendFacts(traps: seq<Trap>, trap: Trap)
    ensures forall site :: Covered(traps + [trap], site) <==> Covered(traps, site) || site == trap.site
  {
    var all := traps + [trap];
    assert all[|traps|] == trap;
    forall site | Covered(traps, site)
      ensures Covered(all, site)
    {
      var k :| 0 <= k < |traps| && traps[k].site == site;
      assert all[k].site == site;
    }
  }

  lemma AppendIsOk(traps: seq<Trap>, code: map<Site, Op>, nextId: nat, site: Site, handler: Handler)
    requires TrapsOk(traps, code, nextId) && site in code && code[site] != JSOP_TRAP && !Covered(traps, site)
    ensures TrapsOk(traps + [Trap(nextId, site, code[site], handler)], code[site := JSOP_TRAP], nextId + 1)
  {
    var all := traps + [Trap(nextId, site, code[site], handler)];
    assert forall i :: 0 <= i < |traps| ==> all[i] == traps[i] && traps[i].site != site;
  }

  lemma AddTrapIsValid(s: State, site: Site, handler: Handler)
    requires Valid(s) && site in s.code && !Covered(s.traps, site)
    ensures Valid(AddTrap(s, site, handler))
  {
    AppendFacts(s.traps, Trap(s.nextId, site, s.code[site], handler));
    AppendIsOk(s.traps, s.code, s.nextId, site, handler);
    hide Linked, Covered, TrapsOk;
  }

  lemma AddTrapKeepsViewAt(s: State, site: Site, handler: Handler, other: Site)
    requires Valid(s) && site in s.code && !Covered(s.traps, site) && other in s.code
    ensures other in View(AddTrap(s, site, handler)) && View(AddTrap(s, site, handler))[other] == View(s)[other]
  {
    var t := AddTrap(s, site, handler);
    AddTrapIsValid(s, site, handler);
    hide View, FindTrap, Valid;
    if other == site {
      ViewOfTrap(t, |s.traps|);
      ViewOfCode(s, site);
    } else if Covered(s.traps, other) {
      var k :| 0 <= k < |s.traps| && s.traps[k].site == other;
      assert t.traps[k] == s.traps[k];
      ViewOfTrap(s, k);
      ViewOfTrap(t, k);
    } else {
      ViewOfCode(s, other);
      ViewOfCode(t, other);
    }
  }

  lemma AddTrapKeepsView(s: State, site: Site, handler: Handler)
    requires Valid(s) && site in s.code && !Covered(s.traps, site)
    ensures View(AddTrap(s, site, handler)) == View(s)
  {
    hide FindTrap, Valid, Covered;
    var t := AddTrap(s, site, handler);
    forall other | other in s.code
      ensures View(t)[other] == View(s)[other]
    {
      AddTrapKeepsViewAt(s, site, handler, other);
    }
  }

  lemma PhaseIsValid(s: State, thread: Thread, phase: Phase)
    requires Valid(s) && PhaseOk(s, phase)
    ensures Valid(s.(threads := s.threads[thread := phase]))
    ensures View(s.(threads := s.threads[thread := phase])) == View(s)
  {
    hide FindTrap, TrapsOk, Covered, Linked;
  }

  lemma NextIsLinked(traps: seq<Trap>, i: nat)
    requires i < |traps|
    ensures i + 1 < |traps| ==> Linked(Without(traps, i), Some(traps[i + 1].id))
  {
    assert i + 1 < |traps| ==> Without(traps, i)[i] == traps[i + 1];
  }

  lemma ForgetIsValid(s: State, thread: Thread)
    requires Valid(s)
    ensures Valid(s.(threads := Forget(s.threads, thread)))
    ensures View(s.(threads := Forget(s.threads, thread))) == View(s)
  {
  }

  lemma ClearFromIsValid(s: State, thread: Thread, script: Option<Script>, from: nat)
    requires Valid(s) && from <= |s.traps|
    ensures Valid(ClearFrom(s, thread, script, from))
    ensures View(ClearFrom(s, thread, script, from)) == View(s)
  {
    hide Valid, View, FindTrap, FirstMatch, Without;
    var i := FirstMatch(s.traps, script, from);
    if i == |s.traps| {
      ForgetIsValid(s, thread);
    } else {
      DestroyIsValid(s, i);
      DestroyKeepsView(s, i);
      var next := if i + 1 < |s.traps| then Some(s.traps[i + 1].id) else None;
      NextIsLinked(s.traps, i);
      PhaseIsValid(Destroy(s, i), thread, Clearing(script, s.mutations, next));
    }
  }

  lemma SetHandlerIsValid(s: State, i: nat, handler: Handler)
    requires Valid(s) && i < |s.traps|
    ensures Valid(SetHandler(s, i, handler))
    ensures View(SetHandler(s, i, handler)) == View(s)
  {
    hide FindTrap, View, Valid;
    var trap := s.traps[i].(handler := handler);
    TrapSiteIsCode(s, i);
    ReplaceIsValid(s, i, trap);
    ReplaceChangesView(s, i, trap);
    ViewOfTrap(s, i);
    assert View(s)[trap.site := trap.op] == View(s);
  }

  lemma FinishIsValid(s: State, thread: Thread, made: bool)
    requires Valid(s) && Timely(s) && Enabled(s, FinishSetTrap(thread, made))
    ensures Valid(Step(s, FinishSetTrap(thread, made)))
    ensures View(Step(s, FinishSetTrap(thread, made))) == View(s)
  {
    ForgetIsValid(s, thread);
    var Setting(site, handler, sample) := s.threads[thread];
    var t := s.(threads := Forget(s.threads, thread));
    FindsCovered(s.traps, site);
    SameWord(sample, s.mutations);
    var twin := if s.mutations % WORD != sample % WORD then FindTrap(s.traps, site) else |s.traps|;
    if made && twin < |s.traps| {
      SetHandlerIsValid(t, twin, handler);
    } else if made {
      assert PhaseOk(s, s.threads[thread]);
      AddTrapIsValid(t, site, handler);
      AddTrapKeepsView(t, site, handler);
      assert Step(s, FinishSetTrap(thread, made)) == AddTrap(t, site, handler);
    }
    hide FindTrap, View, Valid;
  }

  lemma ClearingIsOk(s: State, thread: Thread)
    requires Valid(s) && Timely(s) && Enabled(s, ContinueClear(thread))
    ensures var Clearing(_, sample, next) := s.threads[thread];
            sample < s.mutations < sample + WORD && (sample + 1 == s.mutations ==> Linked(s.traps, next))
  {
    assert PhaseOk(s, s.threads[thread]);
  }

  lemma ContinueIsValid(s: State, thread: Thread)
    requires Valid(s) && Timely(s) && Enabled(s, ContinueClear(thread))
    ensures AssertionsHold(s, ContinueClear(thread))
    ensures Valid(Step(s, ContinueClear(thread)))
    ensures View(Step(s, ContinueClear(thread))) == View(s)
  {
    hide Valid, View, TrapsOk, FindTrap, ClearFrom, Linked, PhaseOk, Timely, Follow;
    var Clearing(script, sample, next) := s.threads[thread];
    ClearingIsOk(s, thread);
    SameWord(sample + 1, s.mutations);
    if s.mutations == sample + 1 {
      FollowsLinked(s.traps, next);
    }
    ClearFromIsValid(s, thread, script, if s.mutations % WORD != (sample + 1) % WORD then 0 else Follow(s.traps, next));
  }

  lemma PatchStepIsValid(s: State, thread: Thread, site: Site, op: Op)
    requires Valid(s) && Enabled(s, PatchOpcode(thread, site, op))
    ensures Valid(Step(s, PatchOpcode(thread, site, op)))
    ensures View(Step(s, PatchOpcode(thread, site, op))) == View(s)[site := op]
  {
    hide Valid, View;
    var i := FindTrap(s.traps, site);
    if i < |s.traps| {
      ReplaceIsValid(s, i, s.traps[i].(op := op));
      ReplaceChangesView(s, i, s.traps[i].(op := op));
    } else {
      PatchIsValid(s, site, op);
    }
  }

  /** Every step keeps the traps in order, and only js_PatchOpcode changes what the code is without them. */
  lemma StepIsValid(s: State, action: Action)
    requires Valid(s) && Timely(s) && Enabled(s, action)
    ensures Valid(Step(s, action)) && AssertionsHold(s, action)
    ensures View(Step(s, action)) == if action.PatchOpcode? then View(s)[action.site := action.op] else View(s)
  {
    match action
    case SetTrap(thread, site, handler) =>
      var i := FindTrap(s.traps, site);
      FindsCovered(s.traps, site);
      if i < |s.traps| {
        SetHandlerIsValid(s, i, handler);
      } else {
        hide FindTrap, TrapsOk;
      }
    case FinishSetTrap(thread, made) =>
      FinishIsValid(s, thread, made);
    case ClearTrap(thread, site) =>
      hide FindTrap, Valid, View;
      var i := FindTrap(s.traps, site);
      if i < |s.traps| {
        DestroyIsValid(s, i);
        DestroyKeepsView(s, i);
      }
    case PatchOpcode(thread, site, op) =>
      PatchStepIsValid(s, thread, site, op);
    case ClearTraps(thread, script) =>
      ClearFromIsValid(s, thread, script, 0);
    case ContinueClear(thread) =>
      ContinueIsValid(s, thread);
  }

  // ---- every run ---------------------------------------------------------------------------------------

  /** A run of steps, in any order, in which no thread lets the counter come round. */
  ghost predicate Reaches(s: State, actions: seq<Action>, end: State)
    decreases |actions|
  {
    && Timely(s)
    && if actions == [] then s == end
       else Enabled(s, actions[0]) && Reaches(Step(s, actions[0]), actions[1..], end)
  }

  /** The code after the patches of a run, as if there were no traps. */
  function Patched(code: map<Site, Op>, actions: seq<Action>): map<Site, Op>
    decreases |actions|
  {
    if actions == [] then code
    else Patched(if actions[0].PatchOpcode? then code[actions[0].site := actions[0].op] else code, actions[1..])
  }

  lemma {:induction false} RunIsValid(s: State, actions: seq<Action>, end: State)
    requires Valid(s) && Reaches(s, actions, end)
    ensures Valid(end) && View(end) == Patched(View(s), actions)
    decreases |actions|
  {
    if actions == [] {
    } else {
      StepIsValid(s, actions[0]);
      hide Valid, View, Step;
      RunIsValid(Step(s, actions[0]), actions[1..], end);
    }
  }

  /**
   * Whatever debugger threads do, starting from code that has no JSOP_TRAP of its own: no two traps are at one
   * bytecode; a byte is JSOP_TRAP exactly when there is a trap for it; under the traps the code is what
   * js_PatchOpcode has made of it; no assertion fails, and a clearing loop goes on from a trap that is still in the
   * list.
   */
  lemma RunIsSafe(code: map<Site, Op>, actions: seq<Action>, s: State)
    requires forall site :: site in code ==> code[site] != JSOP_TRAP
    requires Reaches(State([], code, 0, map[], 0), actions, s)
    ensures forall i, j :: 0 <= i < j < |s.traps| ==> s.traps[i].site != s.traps[j].site
    ensures forall site :: site in s.code ==> (s.code[site] == JSOP_TRAP <==> Covered(s.traps, site))
    ensures View(s) == Patched(code, actions)
    ensures forall action :: Enabled(s, action) && Timely(s) ==> AssertionsHold(s, action)
  {
    var start := State([], code, 0, map[], 0);
    assert View(start) == code;
    RunIsValid(start, actions, s);
    forall action | Enabled(s, action) && Timely(s)
      ensures AssertionsHold(s, action)
    {
      StepIsValid(s, action);
    }
    hide View, FindTrap;
  }

  // ---- the counter coming round ------------------------------------------------------------------------

  /**
   * The condition on runs is needed: a thread that allocates for as long as 2^32 mutations take sees the counter
   * unchanged, and links a second trap at its bytecode, which saves JSOP_TRAP as the opcode to be restored.
   */
  lemma CounterComesRound(s: State, thread: Thread)
    requires Valid(s) && Enabled(s, FinishSetTrap(thread, true))
    ensures var site := s.threads[thread].site;
            Covered(s.traps, site) && s.mutations % WORD == s.threads[thread].sample % WORD
            <==> !Valid(Step(s, FinishSetTrap(thread, true)))
  {
    var Setting(site, handler, sample) := s.threads[thread];
    var t := s.(threads := Forget(s.threads, thread));
    var end := Step(s, FinishSetTrap(thread, true));
    FindsCovered(s.traps, site);
    ForgetIsValid(s, thread);
    hide FindTrap, View, Linked;
    if Covered(s.traps, site) {
      if s.mutations % WORD == sample % WORD {
        var k :| 0 <= k < |s.traps| && s.traps[k].site == site;
        assert end.traps[k].site == end.traps[|s.traps|].site;
      } else {
        SetHandlerIsValid(t, FindTrap(s.traps, site), handler);
      }
    } else {
      AddTrapIsValid(t, site, handler);
      assert end == AddTrap(t, site, handler);
    }
  }

  /** A clearing loop follows a stale link if and only if it has been away too long and the count reads right. */
  lemma ClearingComesRound(s: State, thread: Thread)
    requires Valid(s) && Enabled(s, ContinueClear(thread))
    ensures var Clearing(_, sample, next) := s.threads[thread];
            !AssertionsHold(s, ContinueClear(thread)) <==>
              s.mutations != sample + 1 && s.mutations % WORD == (sample + 1) % WORD && !Linked(s.traps, next)
  {
    var Clearing(_, sample, next) := s.threads[thread];
    assert PhaseOk(s, s.threads[thread]);
    if Linked(s.traps, next) {
      FollowsLinked(s.traps, next);
    }
  }

  /** A run of steps, however long threads stay away. */
  ghost predicate Steps(s: State, actions: seq<Action>, end: State)
    decreases |actions|
  {
    if actions == [] then s == end else Enabled(s, actions[0]) && Steps(Step(s, actions[0]), actions[1..], end)
  }

  lemma {:induction false} StepsJoin(s: State, actions: seq<Action>, mid: State, others: seq<Action>, end: State)
    requires Steps(s, actions, mid) && Steps(mid, others, end)
    ensures Steps(s, actions + others, end)
    decreases |actions|
  {
    hide Step, Enabled;
    if actions == [] {
      assert actions + others == others;
    } else {
      StepsJoin(Step(s, actions[0]), actions[1..], mid, others, end);
      assert (actions + others)[1..] == actions[1..] + others;
    }
  }

  lemma StepOnce(s: State, action: Action)
    requires Enabled(s, action)
    ensures Steps(s, [action], Step(s, action))
  {
    assert Steps(Step(s, action), [], Step(s, action));
  }

  lemma {:induction false} NotFound(traps: seq<Trap>, site: Site)
    requires forall i :: 0 <= i < |traps| ==> traps[i].site != site
    ensures FindTrap(traps, site) == |traps|
  {
    if traps == [] {
    } else {
      NotFound(traps[1..], site);
    }
  }

  /** What the second thread does to set a trap. */
  function TrapAt(site: Site): seq<Action> {
    [SetTrap(2, site, 0), FinishSetTrap(2, true)]
  }

  lemma SetsTrap(s: State, site: Site)
    requires site in s.code && 2 !in s.threads && FindTrap(s.traps, site) == |s.traps|
    ensures Steps(s, TrapAt(site), AddTrap(s, site, 0))
  {
    hide FindTrap;
    var t := Step(s, SetTrap(2, site, 0));
    StepOnce(s, SetTrap(2, site, 0));
    StepOnce(t, FinishSetTrap(2, true));
    assert Forget(t.threads, 2) == s.threads;
    StepsJoin(s, [SetTrap(2, site, 0)], t, [FinishSetTrap(2, true)], AddTrap(s, site, 0));
    assert [SetTrap(2, site, 0)] + [FinishSetTrap(2, true)] == TrapAt(site);
  }

  /** Setting a trap and clearing it again changes nothing but the counters. */
  lemma OneRound(s: State, site: Site)
    requires site in s.code && 2 !in s.threads && FindTrap(s.traps, site) == |s.traps|
    ensures Steps(s, TrapAt(site) + [ClearTrap(2, site)],
                  s.(mutations := s.mutations + 2, nextId := s.nextId + 1))
  {
    var t := AddTrap(s, site, 0);
    var n := |s.traps|;
    var end := s.(mutations := s.mutations + 2, nextId := s.nextId + 1);
    SetsTrap(s, site);
    assert forall j :: 0 <= j < n ==> t.traps[j] == s.traps[j];
    FindsTheOne(t.traps, n);
    assert Without(t.traps, n) == s.traps;
    assert t.code[site := s.code[site]] == s.code;
    hide FindTrap;
    StepOnce(t, ClearTrap(2, site));
    StepsJoin(s, TrapAt(site), t, [ClearTrap(2, site)], end);
  }

  ghost function Rounds(site: Site, n: nat): seq<Action> {
    if n == 0 then [] else Rounds(site, n - 1) + (TrapAt(site) + [ClearTrap(2, site)])
  }

  ghost function Later(s: State, n: nat): State {
    s.(mutations := s.mutations + 2 * n, nextId := s.nextId + n)
  }

  lemma {:induction false} ManyRounds(s: State, site: Site, n: nat)
    requires site in s.code && 2 !in s.threads && FindTrap(s.traps, site) == |s.traps|
    ensures Steps(s, Rounds(site, n), Later(s, n))
  {
    hide Step, Enabled, FindTrap;
    if n > 0 {
      ManyRounds(s, site, n - 1);
      OneRound(Later(s, n - 1), site);
      StepsJoin(s, Rounds(site, n - 1), Later(s, n - 1), TrapAt(site) + [ClearTrap(2, site)], Later(s, n));
    }
  }

  function Untrapped(code: map<Site, Op>): State {
    State([], code, 0, map[], 0)
  }

  lemma AsksForTrap(s: State, site: Site)
    requires site in s.code && 1 !in s.threads && s.traps == []
    ensures Steps(s, [SetTrap(1, site, 0)], s.(threads := s.threads[1 := Setting(site, 0, s.mutations)]))
  {
    StepOnce(s, SetTrap(1, site, 0));
  }

  /** A thread has gone to make a trap at p; another has set one there, and then n times one at q and cleared it. */
  lemma SetWhileWaiting(code: map<Site, Op>, p: Site, q: Site, n: nat) returns (actions: seq<Action>, s: State)
    requires p in code && q in code && p != q
    ensures Steps(Untrapped(code), actions, s)
    ensures s == State([Trap(0, p, code[p], 0), Trap(1 + n, q, code[q], 0)], code[p := JSOP_TRAP][q := JSOP_TRAP],
                       2 + 2 * n, map[1 := Setting(p, 0, 0)], 2 + n)
  {
    hide Step, Enabled, FindTrap, Rounds, Steps;
    var start := Untrapped(code);
    var waiting := start.(threads := map[1 := Setting(p, 0, 0)]);
    var ask := SetTrap(1, p, 0);
    AsksForTrap(start, p);
    NotFound([], p);
    SetsTrap(waiting, p);
    var one := AddTrap(waiting, p, 0);
    NotFound(one.traps, q);
    ManyRounds(one, q, n);
    SetsTrap(Later(one, n), q);
    s := AddTrap(Later(one, n), q, 0);
    actions := [ask] + TrapAt(p) + Rounds(q, n) + TrapAt(q);
    StepsJoin(start, [ask], waiting, TrapAt(p), one);
    StepsJoin(start, [ask] + TrapAt(p), one, Rounds(q, n), Later(one, n));
    StepsJoin(start, [ask] + TrapAt(p) + Rounds(q, n), Later(one, n), TrapAt(q), s);
  }

  /** The counter has come round: the waiting thread links its trap beside the one that is there. */
  lemma LinksATwin(s: State, p: Site)
    requires 1 in s.threads && s.threads[1] == Setting(p, 0, 0) && p in s.code
    requires s.traps != [] && s.traps[0].site == p && s.mutations == WORD
    ensures var last := FinishSetTrap(1, true);
            && Enabled(s, last)
            && var end := Step(s, last);
               && |end.traps| == |s.traps| + 1 && end.traps[0].site == end.traps[|s.traps|].site == p
               && end.traps[|s.traps|].op == s.code[p]
  {
  }

  /**
   * From any code with two bytecodes there is a run that ends with two traps at one of them, and the later one holds
   * JSOP_TRAP as the opcode to be restored.
   */
  lemma TwinTrapsAfterAll(code: map<Site, Op>, p: Site, q: Site) returns (actions: seq<Action>, end: State)
    requires p in code && q in code && p != q
    ensures Steps(Untrapped(code), actions, end)
    ensures |end.traps| == 3 && end.traps[0].site == end.traps[2].site == p && end.traps[2].op == JSOP_TRAP
  {
    hide Step, Enabled, Steps;
    var n: nat := WORD / 2 - 1;
    var before, s := SetWhileWaiting(code, p, q, n);
    var last := FinishSetTrap(1, true);
    LinksATwin(s, p);
    StepOnce(s, last);
    actions, end := before + [last], Step(s, last);
    StepsJoin(Untrapped(code), before, s, [last], end);
  }

  /** A thread that clears all traps has cleared the first of two, and is to go on at the second. */
  lemma ClearsFirst(s: State, first: Trap, second: Trap)
    requires s.traps == [first, second] && 1 !in s.threads
    ensures var t := Destroy(s, 0);
            Steps(s, [ClearTraps(1, None)],
                  t.(threads := s.threads[1 := Clearing(None, s.mutations, Some(second.id))]))
  {
    assert FirstMatch(s.traps, None, 0) == 0;
    StepOnce(s, ClearTraps(1, None));
  }

  lemma ClearsLast(s: State, trap: Trap)
    requires s.traps == [trap] && trap.site in s.code && 2 !in s.threads
    ensures Steps(s, [ClearTrap(2, trap.site)], Destroy(s, 0))
  {
    assert FindTrap(s.traps, trap.site) == 0;
    StepOnce(s, ClearTrap(2, trap.site));
  }

  /** With traps at p and q, one thread clears the first and is to go on at the second, which another clears. */
  lemma ClearsBoth(code: map<Site, Op>, p: Site, q: Site)
    requires p in code && q in code && p != q
    ensures Steps(AddTrap(AddTrap(Untrapped(code), p, 0), q, 0), [ClearTraps(1, None)] + [ClearTrap(2, q)],
                  State([], code, 4, map[1 := Clearing(None, 2, Some(1))], 2))
  {
    hide Step, Enabled, Steps;
    var first, second := Trap(0, p, code[p], 0), Trap(1, q, code[q], 0);
    var two := State([first, second], code[p := JSOP_TRAP][q := JSOP_TRAP], 2, map[], 2);
    var three := State([second], code[q := JSOP_TRAP], 3, map[1 := Clearing(None, 2, Some(1))], 2);
    assert AddTrap(AddTrap(Untrapped(code), p, 0), q, 0) == two;
    ClearsFirst(two, first, second);
    assert two.code[p := code[p]] == three.code && Without(two.traps, 0) == three.traps;
    ClearsLast(three, second);
    assert three.code[q := code[q]] == code && Without(three.traps, 0) == [];
    StepsJoin(two, [ClearTraps(1, None)], three, [ClearTrap(2, q)], three.(traps := [], code := code, mutations := 4));
  }

  /** A thread has cleared the trap at p and is to go on at q; the trap at q is cleared, and others come and go. */
  lemma ClearWhileWaiting(code: map<Site, Op>, p: Site, q: Site, n: nat) returns (actions: seq<Action>, s: State)
    requires p in code && q in code && p != q
    ensures Steps(Untrapped(code), actions, s)
    ensures s == State([Trap(2, p, code[p], 0)], code[p := JSOP_TRAP], 5 + 2 * n, map[1 := Clearing(None, 2, Some(1))],
                       3 + n)
  {
    hide Step, Enabled, FindTrap, FirstMatch, Rounds, Steps;
    var start := Untrapped(code);
    var one := AddTrap(start, p, 0);
    var two := AddTrap(one, q, 0);
    var four := State([], code, 4, map[1 := Clearing(None, 2, Some(1))], 2);
    var five := AddTrap(four, p, 0);
    var clear := [ClearTraps(1, None)] + [ClearTrap(2, q)];
    NotFound([], p);
    NotFound(one.traps, q);
    NotFound(five.traps, q);
    SetsTrap(start, p);
    SetsTrap(one, q);
    ClearsBoth(code, p, q);
    SetsTrap(four, p);
    ManyRounds(five, q, n);
    s := Later(five, n);
    actions := TrapAt(p) + TrapAt(q) + clear + TrapAt(p) + Rounds(q, n);
    StepsJoin(start, TrapAt(p), one, TrapAt(q), two);
    StepsJoin(start, TrapAt(p) + TrapAt(q), two, clear, four);
    StepsJoin(start, TrapAt(p) + TrapAt(q) + clear, four, TrapAt(p), five);
    StepsJoin(start, TrapAt(p) + TrapAt(q) + clear + TrapAt(p), five, Rounds(q, n), s);
  }

  /** Likewise there is a run after which a clearing loop follows a link to a trap that is gone. */
  lemma LostLinkAfterAll(code: map<Site, Op>, p: Site, q: Site) returns (actions: seq<Action>, end: State)
    requires p in code && q in code && p != q
    ensures Steps(Untrapped(code), actions, end)
    ensures Enabled(end, ContinueClear(1)) && !AssertionsHold(end, ContinueClear(1))
  {
    var n: nat := WORD / 2 - 1;
    hide Steps;
    actions, end := ClearWhileWaiting(code, p, q, n);
  }
}
