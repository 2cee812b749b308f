/**
 What the operations on traps do for their callers (jsdbgapi.c), told by the handlers that are in force: a trap that is
 set has the handler given last, a trap that is cleared has none, and nothing else loses or changes its handler.
 */
module TrapAnswers {
  import opened Wrappers
  import opened Traps

  /** A trap at the site has the handler. */
  ghost predicate Handles(traps: seq<Trap>, site: Site, handler: Handler) {
    exists i :: 0 <= i < |traps| && traps[i].site == site && traps[i].handler == handler
  }

  lemma ReplacedHandles(traps: seq<Trap>, i: nat, trap: Trap, site: Site, handler: Handler)
    requires i < |traps| && trap.site == traps[i].site
    requires forall j :: 0 <= j < |traps| && j != i ==> traps[j].site != traps[i].site
    ensures Handles(traps[i := trap], site, handler)
        <==> if site == trap.site then handler == trap.handler else Handles(traps, site, handler)
  {
    var after := traps[i := trap];
    assert after[i] == trap;
    if site != trap.site && Handles(traps, site, handler) {
      var j :| 0 <= j < |traps| && traps[j].site == site && traps[j].handler == handler;
      assert after[j] == traps[j];
    }
  }

  lemma AppendedHandles(traps: seq<Trap>, trap: Trap, site: Site, handler: Handler)
    requires !Covered(traps, trap.site)
    ensures Handles(traps + [trap], site, handler)
        <==> if site == trap.site then handler == trap.handler else Handles(traps, site, handler)
  {
    var after := traps + [trap];
    assert after[|traps|] == trap;
    if site != trap.site && Handles(traps, site, handler) {
      var j :| 0 <= j < |traps| && traps[j].site == site && traps[j].handler == handler;
      assert after[j] == traps[j];
    }
  }

  lemma WithoutHandles(traps: seq<Trap>, i: nat, site: Site, handler: Handler)
    requires i < |traps|
    requires forall j :: 0 <= j < |traps| && j != i ==> traps[j].site != traps[i].site
    ensures Handles(Without(traps, i), site, handler) <==> Handles(traps, site, handler) && site != traps[i].site
  {
    var after := Without(traps, i);
    assert forall j :: 0 <= j < |after| ==> after[j] == traps[if j < i then j else j + 1];
    if site != traps[i].site && Handles(traps, site, handler) {
      var j :| 0 <= j < |traps| && traps[j].site == site && traps[j].handler == handler;
      assert after[if j < i then j else j - 1] == traps[j];
    }
  }

  lemma SitesAreApart(s: State, i: nat)
    requires Valid(s) && i < |s.traps|
    ensures forall j :: 0 <= j < |s.traps| && j != i ==> s.traps[j].site != s.traps[i].site
  {
  }

  /** JS_SetTrap on a bytecode that has a trap gives it the new handler; on another it starts to make a trap. */
  lemma SetAnswers(s: State, thread: Thread, at: Site, handler: Handler, site: Site, other: Handler)
    requires Valid(s) && Enabled(s, SetTrap(thread, at, handler))
    ensures var next := Step(s, SetTrap(thread, at, handler));
            && next.code == s.code
            && (if Covered(s.traps, at)
                then && next.threads == s.threads
                     && (Handles(next.traps, site, other)
                         <==> if site == at then other == handler else Handles(s.traps, site, other))
                else next.traps == s.traps && next.threads == s.threads[thread := Setting(at, handler, s.mutations)])
  {
    FindsCovered(s.traps, at);
    var i := FindTrap(s.traps, at);
    if i < |s.traps| {
      SitesAreApart(s, i);
      ReplacedHandles(s.traps, i, s.traps[i].(handler := handler), site, other);
    }
    hide Handles, FindTrap, Valid;
  }

  /**
   * Once its memory is there, the trap is set: with the handler given, and in the code, whether or not another thread
   * has set one meanwhile. Without memory nothing is set. No other bytecode is touched.
   */
  lemma FinishAnswers(s: State, thread: Thread, made: bool, site: Site, other: Handler)
    requires Valid(s) && Timely(s) && Enabled(s, FinishSetTrap(thread, made))
    ensures var Setting(at, handler, _) := s.threads[thread];
            var next := Step(s, FinishSetTrap(thread, made));
            && (Handles(next.traps, site, other)
                <==> if made && site == at then other == handler else Handles(s.traps, site, other))
            && next.code == (if made then s.code[at := JSOP_TRAP] else s.code)
            && thread !in next.threads
  {
    var Setting(at, handler, sample) := s.threads[thread];
    FindsCovered(s.traps, at);
    assert PhaseOk(s, s.threads[thread]);
    SameWord(sample, s.mutations);
    var i := FindTrap(s.traps, at);
    if made && i < |s.traps| {
      SitesAreApart(s, i);
      TrapSiteIsCode(s, i);
      assert s.code[at] == JSOP_TRAP;
      ReplacedHandles(s.traps, i, s.traps[i].(handler := handler), site, other);
    } else if made {
      AppendedHandles(s.traps, Trap(s.nextId, at, s.code[at], handler), site, other);
    }
    hide Handles, FindTrap, Valid;
  }

  /** JS_ClearTrap leaves no trap at the bytecode, whose opcode is back, and leaves all others. */
  lemma ClearAnswers(s: State, thread: Thread, at: Site, site: Site, other: Handler)
    requires Valid(s) && Enabled(s, ClearTrap(thread, at))
    ensures var next := Step(s, ClearTrap(thread, at));
            && (Handles(next.traps, site, other) <==> Handles(s.traps, site, other) && site != at)
            && next.code == s.code[at := View(s)[at]]
  {
    var i := FindTrap(s.traps, at);
    if i < |s.traps| {
      SitesAreApart(s, i);
      WithoutHandles(s.traps, i, site, other);
      ViewOfTrap(s, i);
    }
    hide FindTrap, Valid;
  }

  /** js_PatchOpcode changes no handler: it patches under a trap, or the byte itself. */
  lemma PatchAnswers(s: State, thread: Thread, at: Site, op: Op, site: Site, other: Handler)
    requires Valid(s) && Enabled(s, PatchOpcode(thread, at, op))
    ensures var next := Step(s, PatchOpcode(thread, at, op));
            && (Handles(next.traps, site, other) <==> Handles(s.traps, site, other))
            && next.code == if Covered(s.traps, at) then s.code else s.code[at := op]
  {
    FindsCovered(s.traps, at);
    var i := FindTrap(s.traps, at);
    if i < |s.traps| {
      SitesAreApart(s, i);
      ReplacedHandles(s.traps, i, s.traps[i].(op := op), site, other);
      assert site == at && Handles(s.traps, site, other) ==> other == s.traps[i].handler;
    }
    hide FindTrap, Valid;
  }

  /** A section of a clearing loop clears one trap of the script, or none and is done. */
  lemma ClearFromAnswers(s: State, thread: Thread, script: Option<Script>, from: nat, site: Site, other: Handler)
    requires Valid(s) && from <= |s.traps|
    ensures var next := ClearFrom(s, thread, script, from);
            if thread in next.threads
            then exists i :: from <= i < |s.traps| && Matches(s.traps[i], script)
                             && (Handles(next.traps, site, other)
                                 <==> Handles(s.traps, site, other) && site != s.traps[i].site)
            else next.traps == s.traps && forall i :: from <= i < |s.traps| ==> !Matches(s.traps[i], script)
  {
    var i := FirstMatch(s.traps, script, from);
    if i < |s.traps| {
      SitesAreApart(s, i);
      WithoutHandles(s.traps, i, site, other);
      assert Matches(s.traps[i], script);
    }
    hide Valid;
  }

  /** A clearing loop starts with the whole list, and again with all of it when others have changed something. */
  lemma ClearingStartsOver(s: State, action: Action, site: Site, other: Handler)
    requires Valid(s) && Timely(s) && Enabled(s, action) && (action.ClearTraps? || action.ContinueClear?)
    requires action.ContinueClear? ==> s.mutations != s.threads[action.thread].sample + 1
    ensures var script := if action.ClearTraps? then action.script else s.threads[action.thread].script;
            var next := Step(s, action);
            if action.thread in next.threads
            then exists i :: 0 <= i < |s.traps| && Matches(s.traps[i], script)
                             && (Handles(next.traps, site, other)
                                 <==> Handles(s.traps, site, other) && site != s.traps[i].site)
            else next.traps == s.traps && forall i :: 0 <= i < |s.traps| ==> !Matches(s.traps[i], script)
  {
    hide ClearFrom, Handles, Matches, Valid, Timely, Follow;
    if action.ContinueClear? {
      ClearingIsOk(s, action.thread);
      SameWord(s.threads[action.thread].sample + 1, s.mutations);
      ClearFromAnswers(s, action.thread, s.threads[action.thread].script, 0, site, other);
    } else {
      ClearFromAnswers(s, action.thread, action.script, 0, site, other);
    }
  }
}
