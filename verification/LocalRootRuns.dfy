/**
 Runs of the local-root operations of jscntxt.c: seen from outside, the stack of words with marks in it is a stack of
 scopes, and a place for the result of the outermost one.
 */
module LocalRootRuns {
  import opened LocalRoots

  datatype Op = Entering | Pushing(v: JSVal) | Leaving(rval: JSVal) | Forgetting(v: JSVal)

  /** The words of the stack, and cx->weakRoots.lastInternalResult. */
  datatype Concrete = Concrete(roots: Roots, lastInternalResult: JSVal)

  /** What callers know: the scopes, outermost first, each with its roots. */
  datatype Scoped = Scoped(scopes: seq<seq<JSVal>>, result: JSVal)

  ghost function View(c: Concrete): Scoped
    requires WellFormed(c.roots)
  {
    Scoped(Scopes(c.roots), c.lastInternalResult)
  }

  /** What the callers see to: roots are GC-things pushed in an open scope, and there are fewer than 2^30 words. */
  predicate Legal(c: Concrete, op: Op) {
    match op
    case Entering => |c.roots.words| < MARK_LIMIT
    case Pushing(v) => c.roots.mark != NULL_MARK && v.GCThing?
    case _ => true
  }

  function Step(c: Concrete, op: Op): Concrete
    requires Legal(c, op)
  {
    var r := c.roots;
    match op
    case Entering => c.(roots := Enter(r))
    case Pushing(v) => c.(roots := Push(r, v))
    case Leaving(rval) =>
      if r.mark >= |r.words| then c
      else Concrete(Leave(r, rval), if r.mark == 0 && rval.GCThing? then rval else c.lastInternalResult)
    case Forgetting(v) =>
      if r.mark >= |r.words| then c else c.(roots := Forget(r, v))
  }

  /** The same operation on a stack of scopes. */
  ghost predicate Does(a: Scoped, op: Op, b: Scoped) {
    var n := |a.scopes|;
    match op
    case Entering => b == a.(scopes := a.scopes + [[]])
    case Pushing(v) => n > 0 && b == a.(scopes := a.scopes[n - 1 := a.scopes[n - 1] + [v]])
    case Leaving(rval) =>
      if n == 0 then b == a
      else if !rval.GCThing? then b == a.(scopes := a.scopes[..n - 1])
      else if n == 1 then b == Scoped([], rval)
      else b == a.(scopes := a.scopes[..n - 1][n - 2 := a.scopes[n - 2] + [rval]])
    case Forgetting(v) =>
      if n == 0 then b == a
      else b.result == a.result && |b.scopes| == n && b.scopes[..n - 1] == a.scopes[..n - 1]
           && WithoutOne(a.scopes[n - 1], v, b.scopes[n - 1])
  }

  /** A well-formed stack has no scope, and no mark, or its mark is inside. */
  lemma NullOrInside(r: Roots)
    requires WellFormed(r)
    ensures r.mark == NULL_MARK <==> r.mark >= |r.words|
    ensures r.mark == NULL_MARK <==> Scopes(r) == []
  {
    hide MarkToVal, ValToMark;
  }

  lemma StepRefines(c: Concrete, op: Op)
    requires WellFormed(c.roots) && Legal(c, op)
    ensures WellFormed(Step(c, op).roots) && Does(View(c), op, View(Step(c, op)))
  {
    hide WellFormed, Scopes, Enter, Push, Leave, Forget, WithoutOne;
    var r := c.roots;
    NullOrInside(r);
    match op
    case Entering => EnterOpensScope(r);
    case Pushing(v) => PushAppends(r, v);
    case Leaving(rval) =>
      if r.mark < |r.words| {
        LeavePops(r, rval);
      }
    case Forgetting(v) =>
      if r.mark < |r.words| {
        ForgetRemovesOne(r, v);
      }
  }

  ghost predicate Reaches(c: Concrete, ops: seq<Op>, end: Concrete)
    decreases |ops|
  {
    if ops == [] then c == end else Legal(c, ops[0]) && Reaches(Step(c, ops[0]), ops[1..], end)
  }

  ghost predicate DoesAll(a: Scoped, ops: seq<Op>, b: Scoped)
    decreases |ops|
  {
    if ops == [] then a == b else exists mid :: Does(a, ops[0], mid) && DoesAll(mid, ops[1..], b)
  }

  /**
   * Every run of enter, push, leave and forget is a run on a stack of scopes; and at its end a collector that traces
   * the stack is told of every root in it, as often as it is there, and of nothing else.
   */
  lemma {:induction false} RunRefines(c: Concrete, ops: seq<Op>, end: Concrete)
    requires WellFormed(c.roots) && Reaches(c, ops, end)
    ensures WellFormed(end.roots) && DoesAll(View(c), ops, View(end))
    ensures multiset(Values(Trace(end.roots))) == multiset(All(View(end).scopes))
    decreases |ops|
  {
    if ops == [] {
      TraceReportsAll(end.roots);
    } else {
      StepRefines(c, ops[0]);
      hide WellFormed, Scopes, Does, Step;
      RunRefines(Step(c, ops[0]), ops[1..], end);
    }
  }
}
