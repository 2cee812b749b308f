/**
 The life cycle of a runtime (jscntxt.c, js_NewContext and js_DestroyContext): any number of threads create and
 destroy contexts; what each does under the GC lock is one step, and the steps of different threads interleave
 freely. The first context brings the runtime up, the last one takes it down, and the others wait.
 */
module ContextLife {
  type Context = nat

  /** JSRuntimeState */
  datatype RuntimeState = DOWN | LAUNCHING | UP | LANDING

  /** Where the thread that creates or destroys a context has got to. */
  datatype Phase =
    | Entering              // in js_NewContext, about to take the lock and look at the state
    | Asleep                // waiting on the condition variable stateChange
    | Linked(first: bool)   // on the context list, about to initialize the context itself
    | Launching             // the first context, initializing the runtime
    | Launched              // the first context, about to announce that the runtime is up
    | Ready                 // about to be shown to the context callback
    | Live                  // handed out to the caller
    | Leaving               // in js_DestroyContext, about to take the lock and leave the list
    | Landing               // the last context, taking the runtime down
    | Unlinked              // off the list, but not the last
    | Gone

  datatype Runtime = Runtime(state: RuntimeState, contextList: seq<Context>, phases: map<Context, Phase>)

  const INITIAL := Runtime(DOWN, [], map[])

  datatype Action =
    | Create(cx: Context)
    | Enter(cx: Context)
    | Wake(cx: Context)
    | InitContext(cx: Context, ok: bool)
    | InitRuntime(cx: Context, ok: bool)
    | Announce(cx: Context)
    | Callback(cx: Context, ok: bool)
    | Destroy(cx: Context)
    | Unlink(cx: Context)
    | TakeDown(cx: Context)
    | Free(cx: Context)

  /** A step is possible when its thread is at the place where the step is taken. */
  predicate Enabled(rt: Runtime, action: Action) {
    var cx := action.cx;
    if action.Create? then cx in rt.phases ==> rt.phases[cx] == Gone
    else
      && cx in rt.phases
      && match action
         case Enter(_) => rt.phases[cx] == Entering
         case Wake(_) => rt.phases[cx] == Asleep
         case InitContext(_, _) => rt.phases[cx].Linked?
         case InitRuntime(_, _) => rt.phases[cx] == Launching
         case Announce(_) => rt.phases[cx] == Launched
         case Callback(_, _) => rt.phases[cx] == Ready
         case Destroy(_) => rt.phases[cx] == Live
         case Unlink(_) => rt.phases[cx] == Leaving
         case TakeDown(_) => rt.phases[cx] == Landing
         case Free(_) => rt.phases[cx] == Unlinked
         case Create(_) => false
  }

  /** The assertions in the source that the step runs into, and what its list operation relies on. */
  predicate AssertionsHold(rt: Runtime, action: Action) {
    var first := rt.contextList == [];
    match action
    case Enter(_) =>
      && (rt.state == UP ==> !first)
      && (rt.state == DOWN ==> first)
    case Unlink(cx) =>
      && (rt.state == UP || rt.state == LAUNCHING)
      && cx in rt.contextList
    case _ => true
  }

  function To(rt: Runtime, cx: Context, phase: Phase): Runtime {
    rt.(phases := rt.phases[cx := phase])
  }

  /** JS_REMOVE_LINK */
  function Remove(list: seq<Context>, cx: Context): seq<Context> {
    if list == [] then []
    else if list[0] == cx then list[1..]
    else [list[0]] + Remove(list[1..], cx)
  }

  /** JS_NOTIFY_ALL_CONDVAR: whoever sleeps goes round the loop again. */
  function NotifyAll(phases: map<Context, Phase>): map<Context, Phase> {
    map cx | cx in phases :: if phases[cx] == Asleep then Entering else phases[cx]
  }

  function Step(rt: Runtime, action: Action): Runtime
    requires Enabled(rt, action)
  {
    match action
    case Create(cx) => To(rt, cx, Entering)
    case Enter(cx) =>
      var first := rt.contextList == [];
      if rt.state == UP || rt.state == DOWN then
        var state := if rt.state == DOWN then LAUNCHING else UP;
        To(rt, cx, Linked(first)).(state := state, contextList := rt.contextList + [cx])
      else To(rt, cx, Asleep)
    case Wake(cx) => To(rt, cx, Entering)
    case InitContext(cx, ok) =>
      To(rt, cx, if !ok then Leaving else if rt.phases[cx].first then Launching else Ready)
    case InitRuntime(cx, ok) => To(rt, cx, if ok then Launched else Leaving)
    case Announce(cx) =>
      var rt := To(rt, cx, Ready);
      rt.(state := UP, phases := NotifyAll(rt.phases))
    case Callback(cx, ok) => To(rt, cx, if ok then Live else Leaving)
    case Destroy(cx) => To(rt, cx, Leaving)
    case Unlink(cx) =>
      var list := Remove(rt.contextList, cx);
      if list == [] then To(rt, cx, Landing).(state := LANDING, contextList := list)
      else To(rt, cx, Unlinked).(contextList := list)
    case TakeDown(cx) =>
      var rt := To(rt, cx, Gone);
      rt.(state := DOWN, phases := NotifyAll(rt.phases))
    case Free(cx) => To(rt, cx, Gone)
  }

  /** Some interleaving of steps, in this order, leads from one state to the other. */
  ghost predicate Reaches(rt: Runtime, actions: seq<Action>, end: Runtime)
    decreases |actions|
  {
    if actions == [] then rt == end
    else Enabled(rt, actions[0]) && Reaches(Step(rt, actions[0]), actions[1..], end)
  }

  // ---- the invariant -----------------------------------------------------------------------------------

  predicate OnList(phase: Phase) {
    phase.Linked? || phase in {Launching, Launched, Ready, Live, Leaving}
  }

  /** The phases in which a context brings the runtime up. */
  predicate Initializes(phase: Phase) {
    phase in {Linked(true), Launching, Launched}
  }

  ghost predicate NoDuplicates(list: seq<Context>) {
    forall i, j :: 0 <= i < j < |list| ==> list[i] != list[j]
  }

  ghost predicate ListMatches(rt: Runtime) {
    && NoDuplicates(rt.contextList)
    && (forall cx :: cx in rt.contextList <==> cx in rt.phases && OnList(rt.phases[cx]))
  }

  /** What each state of the runtime says about the contexts. */
  ghost predicate Consistent(rt: Runtime) {
    match rt.state
    case DOWN =>
      && rt.contextList == []
      && (forall cx :: cx in rt.phases ==> rt.phases[cx] != Landing && rt.phases[cx] != Asleep)
    case LAUNCHING =>
      && |rt.contextList| == 1
      && rt.contextList[0] in rt.phases
      && (Initializes(rt.phases[rt.contextList[0]]) || rt.phases[rt.contextList[0]] == Leaving)
      && (forall cx :: cx in rt.phases ==> rt.phases[cx] != Landing)
    case UP =>
      && rt.contextList != []
      && (forall cx :: cx in rt.phases ==>
            !Initializes(rt.phases[cx]) && rt.phases[cx] != Landing && rt.phases[cx] != Asleep)
    case LANDING =>
      && rt.contextList == []
      && (exists cx :: cx in rt.phases && rt.phases[cx] == Landing)
      && (forall cx, dx :: cx in rt.phases && dx in rt.phases && rt.phases[cx] == rt.phases[dx] == Landing ==> cx == dx)
  }

  ghost predicate Valid(rt: Runtime) {
    ListMatches(rt) && Consistent(rt)
  }

  lemma {:induction false} RemoveFacts(list: seq<Context>, cx: Context)
    requires NoDuplicates(list)
    ensures NoDuplicates(Remove(list, cx))
    ensures forall dx :: dx in Remove(list, cx) <==> dx in list && dx != cx
  {
    if list == [] {
    } else {
      var rest := list[1..];
      assert NoDuplicates(rest);
      RemoveFacts(rest, cx);
      assert list == [list[0]] + rest;
      assert list[0] !in rest;
    }
  }

  lemma ListStaysMatched(rt: Runtime, action: Action)
    requires Valid(rt) && Enabled(rt, action)
    ensures ListMatches(Step(rt, action))
  {
    hide Consistent, Remove;
    if action.Unlink? {
      RemoveFacts(rt.contextList, action.cx);
    }
  }

  lemma MembersAreListed(rt: Runtime, cx: Context)
    requires ListMatches(rt)
    ensures cx in rt.phases && OnList(rt.phases[cx]) ==> cx in rt.contextList
  {
  }

  lemma UnlinkStaysConsistent(rt: Runtime, action: Action)
    requires Valid(rt) && Enabled(rt, action) && action.Unlink?
    ensures Consistent(Step(rt, action)) && AssertionsHold(rt, action)
  {
    RemoveFacts(rt.contextList, action.cx);
    MembersAreListed(rt, action.cx);
    hide Remove, ListMatches, OnList;
    var next := Step(rt, action);
    assert next.phases[action.cx] == if Remove(rt.contextList, action.cx) == [] then Landing else Unlinked;
  }

  lemma LandingStaysConsistent(rt: Runtime, action: Action)
    requires Valid(rt) && Enabled(rt, action) && !action.Unlink? && rt.state == LANDING
    ensures Consistent(Step(rt, action)) && AssertionsHold(rt, action)
  {
    assert !action.Announce? by {
      MembersAreListed(rt, action.cx);
    }
    hide ListMatches, OnList;
    var w :| w in rt.phases && rt.phases[w] == Landing;
    assert !action.TakeDown? ==> w in Step(rt, action).phases && Step(rt, action).phases[w] == Landing;
  }

  lemma StaysConsistent(rt: Runtime, action: Action)
    requires Valid(rt) && Enabled(rt, action)
    ensures Consistent(Step(rt, action)) && AssertionsHold(rt, action)
  {
    if action.Unlink? {
      UnlinkStaysConsistent(rt, action);
    } else if rt.state == LANDING {
      LandingStaysConsistent(rt, action);
    } else {
      hide ListMatches, OnList, Remove;
      assert action.Enter? ==> rt.contextList + [action.cx] != [];
      assert action.Announce? ==> rt.contextList != [] by {
        MembersAreListed(rt, action.cx);
      }
    }
  }

  lemma StepIsValid(rt: Runtime, action: Action)
    requires Valid(rt) && Enabled(rt, action)
    ensures Valid(Step(rt, action)) && AssertionsHold(rt, action)
  {
    ListStaysMatched(rt, action);
    StaysConsistent(rt, action);
  }

  // ---- every run ---------------------------------------------------------------------------------------

  lemma {:induction false} RunIsValid(rt: Runtime, actions: seq<Action>, end: Runtime)
    requires Valid(rt) && Reaches(rt, actions, end)
    ensures Valid(end)
    decreases |actions|
  {
    if actions == [] {
    } else {
      StepIsValid(rt, actions[0]);
      RunIsValid(Step(rt, actions[0]), actions[1..], end);
    }
  }

  /** The phases in which a thread changes the runtime as a whole. */
  predicate Owns(phase: Phase) {
    Initializes(phase) || phase == Landing
  }

  /**
   * Whatever the interleaving: an UP runtime has contexts, a DOWN or LANDING one has none, a LAUNCHING one has exactly
   * the context that launches it (or gives up doing so); no assertion in the source fails; and contexts are in the
   * caller's hands only while the runtime is UP, with no thread initializing it or taking it down.
   */
  lemma RunIsSafe(actions: seq<Action>, rt: Runtime)
    requires Reaches(INITIAL, actions, rt)
    ensures rt.state == UP ==> rt.contextList != []
    ensures rt.state == DOWN || rt.state == LANDING ==> rt.contextList == []
    ensures rt.state == LAUNCHING ==>
              exists cx :: rt.contextList == [cx] && cx in rt.phases
                           && (Initializes(rt.phases[cx]) || rt.phases[cx] == Leaving)
    ensures forall action :: Enabled(rt, action) ==> AssertionsHold(rt, action)
    ensures forall cx, dx :: cx in rt.phases && dx in rt.phases && Owns(rt.phases[cx]) && Owns(rt.phases[dx]) ==>
              cx == dx
    ensures forall cx, dx :: cx in rt.phases && dx in rt.phases && rt.phases[cx] == Live ==>
              rt.state == UP && cx in rt.contextList && !Owns(rt.phases[dx])
  {
    RunIsValid(INITIAL, actions, rt);
    forall action | Enabled(rt, action)
      ensures AssertionsHold(rt, action)
    {
      StepIsValid(rt, action);
    }
    if rt.state == LAUNCHING {
      assert rt.contextList == [rt.contextList[0]];
    }
  }

  // ---- nobody sleeps for good --------------------------------------------------------------------------

  /** The thread the sleepers wait for is on its way to announcing that the runtime is up, or down. */
  ghost predicate AwaitedBy(rt: Runtime, cx: Context) {
    && cx in rt.phases
    && (rt.state == LAUNCHING ==> rt.contextList == [cx])
    && (rt.state == LANDING ==> rt.phases[cx] == Landing)
    && (rt.state == LAUNCHING || rt.state == LANDING)
  }

  /** How many steps, at most, it still has to take. */
  function StepsLeft(phase: Phase): nat {
    match phase
    case Linked(_) => 5
    case Launching => 4
    case Launched => 3
    case Leaving => 2
    case Landing => 1
    case _ => 0
  }

  predicate Settled(rt: Runtime) {
    && (rt.state == UP || rt.state == DOWN)
    && (forall cx :: cx in rt.phases ==> rt.phases[cx] != Asleep)
  }

  lemma SomethingEnabled(rt: Runtime, cx: Context)
    requires cx in rt.phases && StepsLeft(rt.phases[cx]) > 0
    ensures exists action: Action :: action.cx == cx && Enabled(rt, action)
  {
    match rt.phases[cx]
    case Linked(_) => assert Enabled(rt, InitContext(cx, true));
    case Launching => assert Enabled(rt, InitRuntime(cx, true));
    case Launched => assert Enabled(rt, Announce(cx));
    case Leaving => assert Enabled(rt, Unlink(cx));
    case Landing => assert Enabled(rt, TakeDown(cx));
  }

  /** There is someone to wait for whenever anyone sleeps, and it is free to go on. */
  lemma SleepersAwaitSomeone(rt: Runtime, sleeper: Context)
    requires Valid(rt) && sleeper in rt.phases && rt.phases[sleeper] == Asleep
    ensures exists cx, action: Action ::
              AwaitedBy(rt, cx) && StepsLeft(rt.phases[cx]) > 0 && action.cx == cx && Enabled(rt, action)
  {
    if rt.state == LAUNCHING {
      var cx := rt.contextList[0];
      assert rt.contextList == [cx] && AwaitedBy(rt, cx);
      SomethingEnabled(rt, cx);
    } else {
      var cx :| cx in rt.phases && rt.phases[cx] == Landing;
      assert AwaitedBy(rt, cx);
      SomethingEnabled(rt, cx);
    }
  }

  /** Each of its own steps brings the end of the wait nearer, and nobody else's step puts it off. */
  lemma StepBringsNearer(rt: Runtime, cx: Context, action: Action)
    requires Valid(rt) && AwaitedBy(rt, cx) && Enabled(rt, action)
    ensures var next := Step(rt, action);
            if action.cx == cx
            then Settled(next) || (AwaitedBy(next, cx) && StepsLeft(next.phases[cx]) < StepsLeft(rt.phases[cx]))
            else AwaitedBy(next, cx) && next.phases[cx] == rt.phases[cx]
  {
    if rt.state == LAUNCHING {
      assert rt.contextList[0] == cx;
    }
    if action.Unlink? && action.cx == cx {
      RemoveFacts(rt.contextList, cx);
    }
  }

  function StepsOf(actions: seq<Action>, cx: Context): nat {
    if actions == [] then 0 else (if actions[0].cx == cx then 1 else 0) + StepsOf(actions[1..], cx)
  }

  /**
   * In every run in which the awaited thread takes the steps it has left, whatever the others do meanwhile, there is a
   * moment at which the runtime is UP or DOWN and every sleeper has been woken.
   */
  lemma {:induction false} SleepersAreWoken(rt: Runtime, cx: Context, actions: seq<Action>, end: Runtime)
    requires Valid(rt) && AwaitedBy(rt, cx) && Reaches(rt, actions, end)
    requires StepsOf(actions, cx) >= StepsLeft(rt.phases[cx])
    ensures exists k, mid :: 0 <= k <= |actions| && Reaches(rt, actions[..k], mid) && Settled(mid)
    decreases |actions|
  {
    assert StepsLeft(rt.phases[cx]) > 0 by {
      if rt.state == LAUNCHING {
        assert rt.contextList[0] == cx;
      }
    }
    var next := Step(rt, actions[0]);
    StepIsValid(rt, actions[0]);
    StepBringsNearer(rt, cx, actions[0]);
    if Settled(next) {
      assert actions[..1] == [actions[0]];
      assert Reaches(rt, actions[..1], next);
    } else {
      SleepersAreWoken(next, cx, actions[1..], end);
      var k, mid :| 0 <= k <= |actions[1..]| && Reaches(next, actions[1..][..k], mid) && Settled(mid);
      assert actions[..k + 1][1..] == actions[1..][..k];
      assert Reaches(rt, actions[..k + 1], mid);
    }
  }

  // ---- which calls hand out a context ------------------------------------------------------------------

  /** What the thread of the context did since the context was last created. */
  function CallOf(actions: seq<Action>, cx: Context): seq<Action> {
    if actions == [] then []
    else
      var k := |actions| - 1;
      if actions[k].cx != cx then CallOf(actions[..k], cx)
      else if actions[k].Create? then []
      else CallOf(actions[..k], cx) + [actions[k]]
  }

  /** An initialization or the callback failed. */
  predicate Fails(action: Action) {
    (action.InitContext? || action.InitRuntime? || action.Callback?) && !action.ok
  }

  /** Something failed, or the caller destroyed the context. */
  ghost predicate Over(call: seq<Action>) {
    exists action :: action in call && (Fails(action) || action.Destroy?)
  }

  predicate EndsWith<T(==)>(s: seq<T>, end: seq<T>) {
    |end| <= |s| && s[|s| - |end|..] == end
  }

  /** The last thing done was the action, and what had been done before it was as told. */
  predicate Last(call: seq<Action>, action: Action, soFar: bool) {
    |call| > 0 && call[|call| - 1] == action && soFar
  }

  function Before(call: seq<Action>): seq<Action> {
    if call == [] then [] else call[..|call| - 1]
  }

  predicate Entered(call: seq<Action>, cx: Context) {
    Last(call, Enter(cx), true)
  }

  predicate InitializedItself(call: seq<Action>, cx: Context) {
    Last(call, InitContext(cx, true), Entered(Before(call), cx))
  }

  predicate InitializedRuntime(call: seq<Action>, cx: Context) {
    Last(call, InitRuntime(cx, true), InitializedItself(Before(call), cx))
  }

  predicate AnnouncedRuntime(call: seq<Action>, cx: Context) {
    Last(call, Announce(cx), InitializedRuntime(Before(call), cx))
  }

  predicate AnsweredWhenReady(call: seq<Action>, cx: Context) {
    Last(call, Callback(cx, true), InitializedItself(Before(call), cx) || AnnouncedRuntime(Before(call), cx))
  }

  predicate Answered(call: seq<Action>, cx: Context) {
    Last(call, Callback(cx, true), true)
  }

  /** The call so far explains where its thread has got to. */
  ghost predicate Explains(call: seq<Action>, cx: Context, phase: Phase) {
    && (Over(call) <==> phase in {Leaving, Landing, Unlinked, Gone})
    && (Answered(call, cx) <==> phase == Live)
    && match phase
       case Linked(_) => Entered(call, cx)
       case Launching => InitializedItself(call, cx)
       case Launched => InitializedRuntime(call, cx)
       case Ready => InitializedItself(call, cx) || AnnouncedRuntime(call, cx)
       case Live => AnsweredWhenReady(call, cx)
       case _ => true
  }

  lemma {:induction false} LastStep(rt: Runtime, actions: seq<Action>, last: Action, end: Runtime)
    requires Reaches(rt, actions + [last], end)
    ensures exists mid :: Reaches(rt, actions, mid) && Enabled(mid, last) && end == Step(mid, last)
    decreases |actions|
  {
    if actions == [] {
      assert (actions + [last])[1..] == [];
      assert Reaches(rt, actions, rt);
    } else {
      assert (actions + [last])[1..] == actions[1..] + [last];
      var next := Step(rt, actions[0]);
      LastStep(next, actions[1..], last, end);
      var mid :| Reaches(next, actions[1..], mid) && Enabled(mid, last) && end == Step(mid, last);
      assert Reaches(rt, actions, mid);
    }
  }

  lemma OverAtLast(call: seq<Action>, action: Action)
    ensures Over(call + [action]) <==> Over(call) || Fails(action) || action.Destroy?
  {
    assert forall a :: a in call + [action] <==> a in call || a == action;
  }

  lemma CallGrows(call: seq<Action>, action: Action)
    ensures var cx, longer := action.cx, call + [action];
            && (action.Enter? ==> Entered(longer, cx))
            && (action == InitContext(cx, true) && Entered(call, cx) ==> InitializedItself(longer, cx))
            && (action == InitRuntime(cx, true) && InitializedItself(call, cx) ==> InitializedRuntime(longer, cx))
            && (action.Announce? && InitializedRuntime(call, cx) ==> AnnouncedRuntime(longer, cx))
            && (Answered(longer, cx) <==> action == Callback(cx, true))
            && (action == Callback(cx, true) && (InitializedItself(call, cx) || AnnouncedRuntime(call, cx)) ==>
                  AnsweredWhenReady(longer, cx))
  {
    assert (call + [action])[..|call|] == call && (call + [action])[|call|] == action;
    assert Before(call + [action]) == call;
  }

  /** Where the thread of the context goes by its own step. */
  predicate Goes(before: Phase, action: Action, after: Phase) {
    match action
    case Create(_) => after == Entering
    case Enter(_) => before == Entering && (after.Linked? || after.Asleep?)
    case Wake(_) => before == Asleep && after == Entering
    case InitContext(_, ok) =>
      before.Linked? && after == if !ok then Leaving else if before.first then Launching else Ready
    case InitRuntime(_, ok) => before == Launching && after == if ok then Launched else Leaving
    case Announce(_) => before == Launched && after == Ready
    case Callback(_, ok) => before == Ready && after == if ok then Live else Leaving
    case Destroy(_) => before == Live && after == Leaving
    case Unlink(_) => before == Leaving && (after == Landing || after == Unlinked)
    case TakeDown(_) => before == Landing && after == Gone
    case Free(_) => before == Unlinked && after == Gone
  }

  lemma StepGoes(rt: Runtime, action: Action)
    requires Enabled(rt, action) && !action.Create?
    ensures Goes(rt.phases[action.cx], action, Step(rt, action).phases[action.cx])
  {
  }

  lemma CallIsExplained(call: seq<Action>, action: Action, before: Phase, after: Phase)
    requires !action.Create? && Goes(before, action, after) && Explains(call, action.cx, before)
    ensures Explains(call + [action], action.cx, after)
  {
    hide Over, Entered, InitializedItself, InitializedRuntime, AnnouncedRuntime, Answered, AnsweredWhenReady;
    OverAtLast(call, action);
    CallGrows(call, action);
  }

  lemma StepIsExplained(rt: Runtime, action: Action, call: seq<Action>)
    requires Enabled(rt, action) && !action.Create? && Explains(call, action.cx, rt.phases[action.cx])
    ensures Explains(call + [action], action.cx, Step(rt, action).phases[action.cx])
  {
    StepGoes(rt, action);
    CallIsExplained(call, action, rt.phases[action.cx], Step(rt, action).phases[action.cx]);
  }

  lemma {:induction false} RunIsExplained(actions: seq<Action>, rt: Runtime, cx: Context)
    requires Reaches(INITIAL, actions, rt)
    ensures cx in rt.phases ==> Explains(CallOf(actions, cx), cx, rt.phases[cx])
    decreases |actions|
  {
    if actions == [] {
    } else {
      var k := |actions| - 1;
      assert actions == actions[..k] + [actions[k]];
      LastStep(INITIAL, actions[..k], actions[k], rt);
      var mid :| Reaches(INITIAL, actions[..k], mid) && Enabled(mid, actions[k]) && rt == Step(mid, actions[k]);
      RunIsExplained(actions[..k], mid, cx);
      if actions[k].cx == cx && !actions[k].Create? {
        StepIsExplained(mid, actions[k], CallOf(actions[..k], cx));
      }
    }
  }

  lemma ShortCall(call: seq<Action>, cx: Context)
    requires Answered(call, cx) && InitializedItself(Before(call), cx)
    ensures EndsWith(call, [Enter(cx), InitContext(cx, true), Callback(cx, true)])
  {
    var n := |call|;
    assert call[n - 3] == Enter(cx) && call[n - 2] == InitContext(cx, true);
  }

  lemma LongCall(call: seq<Action>, cx: Context)
    requires Answered(call, cx) && AnnouncedRuntime(Before(call), cx)
    ensures EndsWith(call, [Enter(cx), InitContext(cx, true), InitRuntime(cx, true), Announce(cx), Callback(cx, true)])
  {
    var n := |call|;
    assert call[n - 3] == InitRuntime(cx, true) && call[n - 2] == Announce(cx);
    assert call[n - 5] == Enter(cx) && call[n - 4] == InitContext(cx, true);
  }

  /**
   * Over every run: a context is in the caller's hands just when the last thing its call did was a callback that did
   * not fail, and then the call got its context linked, initialized it, initialized and announced the runtime if the
   * context was the first, and failed nowhere. A call in which anything failed never hands the context out.
   */
  lemma HandedOut(actions: seq<Action>, rt: Runtime, cx: Context)
    requires Reaches(INITIAL, actions, rt) && cx in rt.phases
    ensures var call := CallOf(actions, cx);
            && (rt.phases[cx] == Live <==> |call| > 0 && call[|call| - 1] == Callback(cx, true))
            && (rt.phases[cx] == Live ==>
                  || EndsWith(call, [Enter(cx), InitContext(cx, true), Callback(cx, true)])
                  || EndsWith(call, [Enter(cx), InitContext(cx, true), InitRuntime(cx, true), Announce(cx),
                                     Callback(cx, true)]))
            && (rt.phases[cx] == Live ==> forall action :: action in call ==> !Fails(action) && !action.Destroy?)
  {
    hide EndsWith, CallOf, Reaches, InitializedItself, AnnouncedRuntime, Before;
    RunIsExplained(actions, rt, cx);
    var call := CallOf(actions, cx);
    if rt.phases[cx] == Live {
      if InitializedItself(Before(call), cx) {
        ShortCall(call, cx);
      } else {
        LongCall(call, cx);
      }
    }
  }

  /**
   * Over every run: a thread that looks at the state gets its context onto the list unless another one is bringing the
   * runtime up or taking it down; only then it sleeps, and that other one is on its way to waking it.
   */
  lemma LinkedUnlessOthersAreAtIt(actions: seq<Action>, rt: Runtime, cx: Context)
    requires Reaches(INITIAL, actions, rt) && Enabled(rt, Enter(cx))
    ensures var next := Step(rt, Enter(cx));
            if exists dx :: AwaitedBy(rt, dx)
            then next == rt.(phases := rt.phases[cx := Asleep])
            else && next.contextList == rt.contextList + [cx]
                 && next.phases == rt.phases[cx := Linked(rt.contextList == [])]
                 && (rt.contextList == [] <==> next.state != rt.state)
  {
    RunIsValid(INITIAL, actions, rt);
    if rt.state == LAUNCHING {
      assert rt.contextList == [rt.contextList[0]];
      assert AwaitedBy(rt, rt.contextList[0]);
    } else if rt.state == LANDING {
      var dx :| dx in rt.phases && rt.phases[dx] == Landing;
      assert AwaitedBy(rt, dx);
    }
  }

  /** How many steps of its own a linked context is from the caller's hands, if nothing fails. */
  function Ahead(phase: Phase): nat {
    match phase
    case Linked(first) => if first then 4 else 2
    case Launching => 3
    case Launched => 2
    case Ready => 1
    case _ => 0
  }

  lemma StepGoesOn(rt: Runtime, cx: Context, action: Action)
    requires Enabled(rt, action) && cx in rt.phases && Ahead(rt.phases[cx]) > 0
    requires action.cx == cx ==> !Fails(action)
    ensures cx in Step(rt, action).phases
    ensures var phase := Step(rt, action).phases[cx];
            if action.cx != cx then phase == rt.phases[cx]
            else Ahead(phase) == Ahead(rt.phases[cx]) - 1 && (Ahead(phase) == 0 ==> phase == Live)
  {
  }

  /**
   * From a linked context on, whatever the others do meanwhile: if none of the steps of its own thread fails, then at
   * the latest after four of them the context is in the caller's hands, and a step sooner for each one not needed.
   */
  lemma {:induction false} CallSucceeds(rt: Runtime, cx: Context, actions: seq<Action>, end: Runtime)
    requires Reaches(rt, actions, end) && cx in rt.phases && Ahead(rt.phases[cx]) > 0
    requires forall action :: action in actions && action.cx == cx ==> !Fails(action)
    requires StepsOf(actions, cx) >= Ahead(rt.phases[cx])
    ensures exists k, mid :: 0 <= k <= |actions| && Reaches(rt, actions[..k], mid)
                             && cx in mid.phases && mid.phases[cx] == Live
    decreases |actions|
  {
    var next := Step(rt, actions[0]);
    StepGoesOn(rt, cx, actions[0]);
    if next.phases[cx] == Live {
      assert actions[..1] == [actions[0]];
      assert Reaches(rt, actions[..1], next);
    } else {
      CallSucceeds(next, cx, actions[1..], end);
      var k, mid :| 0 <= k <= |actions[1..]| && Reaches(next, actions[1..][..k], mid)
                    && cx in mid.phases && mid.phases[cx] == Live;
      assert actions[..k + 1][1..] == actions[1..][..k];
      assert Reaches(rt, actions[..k + 1], mid);
    }
  }

  lemma {:induction false} OthersLeaveItAlone(rt: Runtime, actions: seq<Action>, end: Runtime, cx: Context)
    requires Reaches(rt, actions, end) && StepsOf(actions, cx) == 0 && cx in rt.phases && rt.phases[cx] != Asleep
    ensures cx in end.phases && end.phases[cx] == rt.phases[cx]
    decreases |actions|
  {
    if actions == [] {
    } else {
      OthersLeaveItAlone(Step(rt, actions[0]), actions[1..], end, cx);
    }
  }

  /** A context that leaves, because something failed or because its caller destroys it, is gone two steps later. */
  lemma LeavingEnds(rt: Runtime, unlink: Action, mid: Runtime, actions: seq<Action>, later: Runtime, free: Action)
    requires Valid(rt) && unlink.cx in rt.phases && rt.phases[unlink.cx] == Leaving && Enabled(rt, unlink)
    requires mid == Step(rt, unlink) && Reaches(mid, actions, later) && Valid(later)
    requires StepsOf(actions, unlink.cx) == 0 && free.cx == unlink.cx && Enabled(later, free)
    ensures rt.contextList == [unlink.cx] ==> mid.state == LANDING
    ensures rt.contextList != [unlink.cx] ==> mid.state == rt.state && mid.contextList != []
    ensures Step(later, free).phases[free.cx] == Gone
    ensures rt.contextList == [unlink.cx] ==> Step(later, free).state == DOWN
  {
    RemoveFacts(rt.contextList, unlink.cx);
    MembersAreListed(rt, unlink.cx);
    assert Remove(rt.contextList, unlink.cx) == [] ==> |rt.contextList| == 1;
    OthersLeaveItAlone(mid, actions, later, unlink.cx);
  }

  // ---- the lock sections in place ----------------------------------------------------------------------

  /** What the threads share of a JSRuntime. Each method is one section under the GC lock. */
  class JSRuntime {
    var state: RuntimeState
    var contextList: seq<Context>

    ghost function With(phases: map<Context, Phase>): Runtime
      reads this
    {
      Runtime(state, contextList, phases)
    }

    /** One turn of the loop in js_NewContext: the context is linked, or its thread goes to sleep. */
    method Link(cx: Context, ghost phases: map<Context, Phase>)
      returns (linked: bool, first: bool, ghost after: map<Context, Phase>)
      requires Valid(With(phases)) && Enabled(With(phases), Enter(cx))
      modifies this
      ensures With(after) == Step(old(With(phases)), Enter(cx)) && Valid(With(after))
      ensures after == phases[cx := if linked then Linked(first) else Asleep]
    {
      StepIsValid(With(phases), Enter(cx));
      first := contextList == [];
      if state == UP {
        assert !first;
        linked := true;
      } else if state == DOWN {
        assert first;
        state := LAUNCHING;
        linked := true;
      } else {
        linked := false;
      }
      if linked {
        contextList := contextList + [cx];
      }
      after := phases[cx := if linked then Linked(first) else Asleep];
    }

    /** The first context has initialized the runtime. */
    method ComeUp(cx: Context, ghost phases: map<Context, Phase>) returns (ghost after: map<Context, Phase>)
      requires Valid(With(phases)) && Enabled(With(phases), Announce(cx))
      modifies `state
      ensures With(after) == Step(old(With(phases)), Announce(cx)) && Valid(With(after))
    {
      StepIsValid(With(phases), Announce(cx));
      state := UP;
      after := NotifyAll(phases[cx := Ready]);
    }

    /** js_DestroyContext takes the context off the list. */
    method UnlinkContext(cx: Context, ghost phases: map<Context, Phase>)
      returns (last: bool, ghost after: map<Context, Phase>)
      requires Valid(With(phases)) && Enabled(With(phases), Unlink(cx))
      modifies this
      ensures With(after) == Step(old(With(phases)), Unlink(cx)) && Valid(With(after))
      ensures after == phases[cx := if last then Landing else Unlinked]
    {
      StepIsValid(With(phases), Unlink(cx));
      assert state == UP || state == LAUNCHING;
      contextList := Remove(contextList, cx);
      last := contextList == [];
      if last {
        state := LANDING;
      }
      after := phases[cx := if last then Landing else Unlinked];
    }

    /** The last context has taken the runtime down. */
    method GoDown(cx: Context, ghost phases: map<Context, Phase>) returns (ghost after: map<Context, Phase>)
      requires Valid(With(phases)) && Enabled(With(phases), TakeDown(cx))
      modifies `state
      ensures With(after) == Step(old(With(phases)), TakeDown(cx)) && Valid(With(after))
    {
      StepIsValid(With(phases), TakeDown(cx));
      state := DOWN;
      after := NotifyAll(phases[cx := Gone]);
    }
  }
}
