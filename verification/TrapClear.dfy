/**
 The clearing loops of jsdbgapi.c when no other thread interferes, and the operations on the trap list in place.
 */
module TrapClear {
  import opened Traps
  import opened Wrappers

  // ---- a thread left to itself -------------------------------------------------------------------------

  function Repeat(action: Action, n: nat): seq<Action> {
    if n == 0 then [] else [action] + Repeat(action, n - 1)
  }

  /** The traps that are not the script's. */
  function Kept(traps: seq<Trap>, script: Option<Script>): seq<Trap> {
    if traps == [] then []
    else (if Matches(traps[0], script) then [] else [traps[0]]) + Kept(traps[1..], script)
  }

  lemma {:induction false} NoneToClear(traps: seq<Trap>, script: Option<Script>, n: nat)
    requires n <= |traps| && forall j :: 0 <= j < n ==> !Matches(traps[j], script)
    ensures Kept(traps, script) == traps[..n] + Kept(traps[n..], script)
  {
    if n == 0 {
      assert traps[..0] == [] && traps[0..] == traps;
    } else {
      var rest := traps[1..];
      assert Kept(traps, script) == [traps[0]] + Kept(rest, script);
      hide Kept, Matches;
      NoneToClear(rest, script, n - 1);
      assert rest[n - 1..] == traps[n..];
      assert traps[..n] == [traps[0]] + rest[..n - 1];
    }
  }

  lemma WithoutSlices(traps: seq<Trap>, i: nat)
    requires i < |traps|
    ensures |Without(traps, i)| == |traps| - 1
    ensures Without(traps, i)[i..] == traps[i + 1..] && Without(traps, i)[..i] == traps[..i]
  {
  }

  lemma Slices(traps: seq<Trap>, from: nat, i: nat)
    requires from <= i <= |traps|
    ensures traps[from..][i - from..] == traps[i..]
    ensures forall rest :: traps[..from] + (traps[from..][..i - from] + rest) == traps[..i] + rest
  {
  }

  lemma KeptAfterMatch(traps: seq<Trap>, script: Option<Script>, i: nat)
    requires i < |traps| && Matches(traps[i], script)
    ensures Kept(traps[i..], script) == Kept(traps[i + 1..], script)
  {
    assert traps[i..][1..] == traps[i + 1..];
  }

  lemma NothingLeft(script: Option<Script>)
    ensures Kept([], script) == []
  {
  }

  lemma PassesOver(traps: seq<Trap>, script: Option<Script>, from: nat, i: nat)
    requires from <= |traps| && i == FirstMatch(traps, script, from)
    ensures traps[..from] + Kept(traps[from..], script)
         == traps[..i] + if i < |traps| then Kept(traps[i + 1..], script) else []
  {
    hide FirstMatch, Kept;
    NoneToClear(traps[from..], script, i - from);
    Slices(traps, from, i);
    if i < |traps| {
      KeptAfterMatch(traps, script, i);
    } else {
      NothingLeft(script);
    }
  }

  lemma FollowsOn(s: State, i: nat)
    requires Valid(s) && i < |s.traps|
    ensures Follow(Without(s.traps, i), if i + 1 < |s.traps| then Some(s.traps[i + 1].id) else None) == i
  {
    hide Follow, FindTrap;
    var left := Without(s.traps, i);
    assert i + 1 < |s.traps| ==> left[i] == s.traps[i + 1];
    assert forall j :: 0 <= j < i ==> left[j] == s.traps[j];
    assert forall j :: i < j < |left| ==> left[j] == s.traps[j + 1];
  }

  /** Undisturbed, the saved link leads to the trap after the one destroyed. */
  lemma ContinuesAt(s: State, thread: Thread, script: Option<Script>, from: nat)
    requires Valid(s) && from <= |s.traps|
    requires FirstMatch(s.traps, script, from) < |s.traps|
    ensures var t := ClearFrom(s, thread, script, from);
            Enabled(t, ContinueClear(thread))
            && Step(t, ContinueClear(thread)) == ClearFrom(t, thread, script, FirstMatch(s.traps, script, from))
  {
    hide FirstMatch, FindTrap, Follow, Valid;
    var i := FirstMatch(s.traps, script, from);
    FollowsOn(s, i);
  }

  /** From a place in the list on, the loop removes the traps it is after and leaves the others as they are. */
  lemma {:induction false} ClearsTheRest(s: State, thread: Thread, script: Option<Script>, from: nat)
    returns (n: nat, end: State)
    requires Valid(s) && from <= |s.traps|
    ensures Steps(ClearFrom(s, thread, script, from), Repeat(ContinueClear(thread), n), end)
    ensures end.traps == s.traps[..from] + Kept(s.traps[from..], script)
    ensures thread !in end.threads && Valid(end) && View(end) == View(s)
    decreases |s.traps| - from
  {
    hide Valid, View, Kept, Step, FirstMatch, FindTrap, Enabled, Without;
    var t := ClearFrom(s, thread, script, from);
    ClearFromIsValid(s, thread, script, from);
    var i := FirstMatch(s.traps, script, from);
    PassesOver(s.traps, script, from, i);
    if i == |s.traps| {
      return 0, t;
    }
    WithoutSlices(s.traps, i);
    ContinuesAt(s, thread, script, from);
    n, end := ClearsTheRest(t, thread, script, i);
    n := n + 1;
    assert Repeat(ContinueClear(thread), n)[1..] == Repeat(ContinueClear(thread), n - 1);
  }

  lemma NothingTrapped(s: State)
    requires s.traps == []
    ensures View(s) == s.code
  {
  }

  lemma {:induction false} NothingKept(traps: seq<Trap>)
    ensures Kept(traps, None) == []
  {
    if traps == [] {
    } else {
      NothingKept(traps[1..]);
    }
  }

  /** JS_ClearScriptTraps and JS_ClearAllTraps, undisturbed. */
  lemma ClearUndisturbed(s: State, thread: Thread, script: Option<Script>) returns (n: nat, end: State)
    requires Valid(s) && thread !in s.threads
    ensures Steps(s, [ClearTraps(thread, script)] + Repeat(ContinueClear(thread), n), end)
    ensures end.traps == Kept(s.traps, script)
    ensures thread !in end.threads && Valid(end) && View(end) == View(s)
    ensures script == None ==> end.traps == [] && end.code == View(s)
  {
    hide Valid, View, Kept, FindTrap, ClearFrom;
    n, end := ClearsTheRest(s, thread, script, 0);
    var actions := [ClearTraps(thread, script)] + Repeat(ContinueClear(thread), n);
    assert actions[1..] == Repeat(ContinueClear(thread), n);
    assert s.traps[0..] == s.traps;
    if script == None {
      NothingKept(s.traps);
      NothingTrapped(end);
    }
  }

  // ---- the operations in place -------------------------------------------------------------------------

  /** What rt holds of debugging. Each method is one lock section, taken by one thread among others. */
  class DebuggerRuntime {
    var traps: seq<Trap>
    var code: map<Site, Op>
    var mutations: nat
    var nextId: nat

    /** The state of which the threads remember the rest. */
    ghost function With(threads: map<Thread, Phase>): State
      reads this
    {
      State(traps, code, mutations, threads, nextId)
    }

    method Find(site: Site) returns (i: nat)
      ensures i == FindTrap(traps, site)
    {
      i := 0;
      while i < |traps| && traps[i].site != site
        invariant i <= |traps|
        invariant FindTrap(traps, site) == i + FindTrap(traps[i..], site)
      {
        assert traps[i..][1..] == traps[i + 1..];
        i := i + 1;
      }
    }

    method PatchOpcode(site: Site, op: Op, ghost thread: Thread, ghost threads: map<Thread, Phase>)
      requires Enabled(With(threads), Action.PatchOpcode(thread, site, op))
      modifies `traps, `code
      ensures With(threads) == Step(old(With(threads)), Action.PatchOpcode(thread, site, op))
    {
      var i := Find(site);
      if i < |traps| {
        traps := traps[i := traps[i].(op := op)];
      } else {
        code := code[site := op];
      }
    }

    /** The first half of JS_SetTrap: a trap that is there gets the handler, else the counter is sampled. */
    method SetTrap(site: Site, handler: Handler, ghost thread: Thread, ghost threads: map<Thread, Phase>)
      returns (done: bool, sample: nat, ghost after: map<Thread, Phase>)
      requires Enabled(With(threads), Action.SetTrap(thread, site, handler))
      modifies `traps
      ensures With(after) == Step(old(With(threads)), Action.SetTrap(thread, site, handler))
      ensures if done then after == threads else after == threads[thread := Setting(site, handler, sample)]
    {
      var i := Find(site);
      sample, after, done := mutations, threads, i < |traps|;
      if done {
        traps := traps[i := traps[i].(handler := handler)];
      } else {
        after := threads[thread := Setting(site, handler, sample)];
      }
    }

    /** The second half, after the allocation: unless a twin has turned up, the new trap is linked. */
    method FinishSetTrap(site: Site, handler: Handler, sample: nat, ghost thread: Thread,
                         ghost threads: map<Thread, Phase>)
      requires Enabled(With(threads), Action.FinishSetTrap(thread, true))
      requires threads[thread] == Setting(site, handler, sample)
      modifies this
      ensures With(Forget(threads, thread)) == Step(old(With(threads)), Action.FinishSetTrap(thread, true))
    {
      var twin := |traps|;
      if mutations % WORD != sample % WORD {
        twin := Find(site);
      }
      if twin < |traps| {
        traps := traps[twin := traps[twin].(handler := handler)];
      } else {
        traps := traps + [Trap(nextId, site, code[site], handler)];
        mutations := mutations + 1;
        code := code[site := JSOP_TRAP];
        nextId := nextId + 1;
      }
    }

    method DestroyTrap(i: nat)
      requires i < |traps|
      modifies `traps, `code, `mutations
      ensures forall threads :: With(threads) == Destroy(old(With(map[])), i).(threads := threads)
    {
      mutations := mutations + 1;
      var trap := traps[i];
      traps := Without(traps, i);
      code := code[trap.site := trap.op];
    }

    method ClearTrap(site: Site, ghost thread: Thread, ghost threads: map<Thread, Phase>)
      returns (handler: Option<Handler>)
      requires Enabled(With(threads), Action.ClearTrap(thread, site))
      modifies `traps, `code, `mutations
      ensures With(threads) == Step(old(With(threads)), Action.ClearTrap(thread, site))
      ensures var i := FindTrap(old(traps), site);
              handler == if i < |old(traps)| then Some(old(traps)[i].handler) else None
    {
      var i := Find(site);
      handler := None;
      if i < |traps| {
        handler := Some(traps[i].handler);
        DestroyTrap(i);
      }
    }

    /** A lock section of the clearing loops; next is the link to follow when the lock has been taken again. */
    method ClearSection(script: Option<Script>, from: nat, ghost thread: Thread, ghost threads: map<Thread, Phase>)
      returns (done: bool, sample: nat, next: Option<nat>, ghost after: map<Thread, Phase>)
      requires from <= |traps|
      modifies `traps, `code, `mutations
      ensures With(after) == ClearFrom(old(With(threads)), thread, script, from)
      ensures after == if done then Forget(threads, thread) else threads[thread := Clearing(script, sample, next)]
    {
      var i := from;
      while i < |traps| && !Matches(traps[i], script)
        invariant from <= i <= |traps|
        invariant FirstMatch(traps, script, i) == FirstMatch(traps, script, from)
      {
        i := i + 1;
      }
      done, sample, next := i == |traps|, mutations, None;
      if done {
        after := Forget(threads, thread);
      } else {
        next := if i + 1 < |traps| then Some(traps[i + 1].id) else None;
        DestroyTrap(i);
        after := threads[thread := Clearing(script, sample, next)];
      }
    }
  }
}
