/**
 Scoped local GC roots of jscntxt.c as values: one flat stack of words in which each scope begins with
 a saved mark, and the stack of scopes it stands for.
 */
module LocalRoots {
  import opened Wrappers

  const WORD: nat := 0x1_0000_0000
  /** JSLRS_NULL_MARK. */
  const NULL_MARK: nat := 0xFFFF_FFFF
  /** Marks below this survive being stored as a tagged integer. */
  const MARK_LIMIT: nat := 0x4000_0000

  /** A jsval as the root stack sees it: a tagged integer, a GC-thing, null, or another non-GC value. */
  datatype JSVal = Int(i: int) | GCThing(id: nat) | Null | Other(id: nat)

  /** INT_TO_JSVAL on a 32-bit word: the shift drops the top bit. */
  function MarkToVal(mark: nat): JSVal {
    var low := mark % 0x8000_0000;
    Int(if low < 0x4000_0000 then low else low - 0x8000_0000)
  }

  /** JSVAL_TO_INT, read as an unsigned word. */
  function ValToMark(v: JSVal): nat {
    if v.Int? then v.i % WORD else 0
  }

  /** A mark survives the tagging exactly if it is small or among the greatest quarter of words. */
  lemma MarkSurvives(mark: nat)
    requires mark < WORD
    ensures ValToMark(MarkToVal(mark)) == mark <==> mark < MARK_LIMIT || mark >= WORD - MARK_LIMIT
  {
    var low := mark % 0x8000_0000;
    if low >= 0x4000_0000 {
      assert (low - 0x8000_0000) % WORD == low - 0x8000_0000 + WORD;
    }
  }

  /** The words on the stack, and the place of the top scope's saved mark. */
  datatype Roots = Roots(words: seq<JSVal>, mark: nat)

  /** What is below the top scope. */
  function Outer(r: Roots): Roots
    requires r.mark < |r.words|
  {
    Roots(r.words[..r.mark], ValToMark(r.words[r.mark]))
  }

  /** The roots of the top scope, oldest first. */
  function Top(r: Roots): seq<JSVal>
    requires r.mark < |r.words|
  {
    r.words[r.mark + 1..]
  }

  /** Every scope is a saved mark followed by GC-things, down to an outermost scope at place 0. */
  ghost predicate WellFormed(r: Roots)
    decreases |r.words|
  {
    if r.mark == NULL_MARK then r.words == []
    else
      && r.mark < |r.words| && r.mark < MARK_LIMIT
      && r.words[r.mark] == MarkToVal(Outer(r).mark)
      && (forall k :: 0 <= k < |Top(r)| ==> Top(r)[k].GCThing?)
      && WellFormed(Outer(r))
  }

  /** The stack of scopes, outermost first. */
  ghost function Scopes(r: Roots): seq<seq<JSVal>>
    requires WellFormed(r)
    decreases |r.words|
  {
    if r.mark == NULL_MARK then [] else Scopes(Outer(r)) + [Top(r)]
  }

  const NO_ROOTS := Roots([], NULL_MARK)

  // ---- the operations on the flat stack ----------------------------------------------------------

  function Push(r: Roots, v: JSVal): Roots {
    r.(words := r.words + [v])
  }

  function Enter(r: Roots): Roots {
    Roots(r.words + [MarkToVal(r.mark)], |r.words|)
  }

  function Leave(r: Roots, rval: JSVal): Roots
    requires r.mark < |r.words|
  {
    var outer := Outer(r);
    if rval.GCThing? && r.mark != 0 then Push(outer, rval) else outer
  }

  /** The topmost place of v above the mark, searching down from place n. */
  function Find(words: seq<JSVal>, mark: nat, n: nat, v: JSVal): (i: Option<nat>)
    requires mark <= n < |words|
    ensures i.Some? ==> mark < i.value <= n && words[i.value] == v
    decreases n
  {
    if n == mark then None else if words[n] == v then Some(n) else Find(words, mark, n - 1, v)
  }

  /** The last element takes the place of the one at i. */
  function Overwritten<T>(s: seq<T>, i: nat): (t: seq<T>)
    requires i < |s|
    ensures |t| == |s| - 1
  {
    s[i := s[|s| - 1]][..|s| - 1]
  }

  /** Drop the topmost occurrence of v in the top scope, moving the last root into its place. */
  function Forget(r: Roots, v: JSVal): Roots
    requires r.mark < |r.words|
  {
    var n := |r.words| - 1;
    match Find(r.words, r.mark, n, v)
    case None => r
    case Some(i) => r.(words := Overwritten(r.words, i))
  }

  // ---- what they do to the stack of scopes -----------------------------------------------------------

  /** The last scope of the stack is the top one, and the others are those of the outer stack. */
  lemma ScopesSplit(r: Roots)
    requires WellFormed(r) && r.mark != NULL_MARK
    ensures var s := Scopes(r);
            |s| > 0 && s[..|s| - 1] == Scopes(Outer(r)) && s[|s| - 1] == Top(r) && s == Scopes(Outer(r)) + [Top(r)]
  {
    hide MarkToVal, ValToMark;
  }

  lemma EnterOpensScope(r: Roots)
    requires WellFormed(r) && |r.words| < MARK_LIMIT
    ensures WellFormed(Enter(r)) && Scopes(Enter(r)) == Scopes(r) + [[]]
  {
    var e := Enter(r);
    assert r.mark == NULL_MARK || r.mark < MARK_LIMIT;
    MarkSurvives(r.mark);
    assert e.words[..|r.words|] == r.words;
    assert Outer(e) == r && Top(e) == [];
  }

  lemma PushInTop(r: Roots, v: JSVal)
    requires WellFormed(r) && r.mark != NULL_MARK && v.GCThing?
    ensures var p := Push(r, v);
            WellFormed(p) && p.mark == r.mark && Outer(p) == Outer(r) && Top(p) == Top(r) + [v]
  {
    hide MarkToVal, ValToMark;
    var p := Push(r, v);
    assert p.words[..r.mark] == r.words[..r.mark];
    assert Top(p) == Top(r) + [v];
  }

  /** Pushing appends to the top scope and touches no other. */
  lemma PushAppends(r: Roots, v: JSVal)
    requires WellFormed(r) && r.mark != NULL_MARK && v.GCThing?
    ensures WellFormed(Push(r, v))
    ensures var s := Scopes(r); |s| > 0 && Scopes(Push(r, v)) == s[..|s| - 1] + [s[|s| - 1] + [v]]
  {
    PushInTop(r, v);
    hide WellFormed, Scopes, Outer, Top, Push;
    ScopesSplit(r);
    ScopesSplit(Push(r, v));
  }

  lemma OuterIsWellFormed(r: Roots)
    requires WellFormed(r) && r.mark != NULL_MARK
    ensures r.mark < |r.words| && WellFormed(Outer(r)) && (Outer(r).mark == NULL_MARK <==> r.mark == 0)
  {
    hide MarkToVal, ValToMark;
  }

  lemma NoScopes(r: Roots)
    requires WellFormed(r) && r.mark == NULL_MARK
    ensures r.words == [] && Scopes(r) == []
  {
  }

  /** Leaving pops the top scope and hands a GC-thing to the scope below, if there is one. */
  lemma LeavePops(r: Roots, rval: JSVal)
    requires WellFormed(r) && r.mark != NULL_MARK
    ensures WellFormed(Leave(r, rval))
    ensures var s := Scopes(r); |s| > 0 && (|s| == 1 <==> r.mark == 0)
    ensures var s := Scopes(r); var outer := s[..|s| - 1];
            Scopes(Leave(r, rval)) ==
              if rval.GCThing? && |s| > 1 then outer[|outer| - 1 := outer[|outer| - 1] + [rval]] else outer
  {
    hide MarkToVal, ValToMark, Scopes, WellFormed;
    ScopesSplit(r);
    OuterIsWellFormed(r);
    var outer := Outer(r);
    if outer.mark == NULL_MARK {
      NoScopes(outer);
    } else {
      ScopesSplit(outer);
      if rval.GCThing? {
        PushAppends(outer, rval);
      }
    }
  }

  /** t has one v fewer than s if s has any, and otherwise the same elements. */
  ghost predicate WithoutOne<T>(s: seq<T>, v: T, t: seq<T>) {
    multiset(t) == multiset(s) - multiset{v} && |t| == |s| - if v in s then 1 else 0
  }

  lemma MarkIsInside(r: Roots)
    requires WellFormed(r) && r.mark != NULL_MARK
    ensures r.mark < |r.words|
  {
  }

  lemma NotInTop(r: Roots, v: JSVal)
    requires r.mark < |r.words| && forall k :: r.mark < k < |r.words| ==> r.words[k] != v
    ensures WithoutOne(Top(r), v, Top(r))
  {
    forall k | 0 <= k < |Top(r)|
      ensures Top(r)[k] != v
    {
      assert Top(r)[k] == r.words[k + r.mark + 1];
    }
  }

  lemma OverwriteAndPop<T>(s: seq<T>, k: nat)
    requires k < |s|
    ensures multiset(Overwritten(s, k)) == multiset(s) - multiset{s[k]}
  {
    var last := |s| - 1;
    assert s == s[..last] + [s[last]];
    if k < last {
      assert s[..last] == s[..k] + [s[k]] + s[k + 1..last];
      assert s[k := s[last]][..last] == s[..k] + [s[last]] + s[k + 1..last];
    } else {
      assert s[k := s[last]][..last] == s[..last];
    }
  }

  lemma OverwrittenAreOld<T>(s: seq<T>, k: nat)
    requires k < |s|
    ensures forall j :: 0 <= j < |s| - 1 ==> Overwritten(s, k)[j] in s
  {
  }

  lemma OverwriteAbove<T>(s: seq<T>, m: nat, i: nat)
    requires m < i < |s|
    ensures Overwritten(s, i)[m + 1..] == Overwritten(s[m + 1..], i - m - 1)
    ensures Overwritten(s, i)[..m] == s[..m] && Overwritten(s, i)[m] == s[m]
  {
  }

  lemma ForgetInTop(r: Roots, v: JSVal, i: nat)
    requires WellFormed(r) && r.mark < i < |r.words| && r.words[i] == v
    ensures var f := r.(words := Overwritten(r.words, i));
            && WellFormed(f) && r.mark != NULL_MARK && Outer(f) == Outer(r)
            && WithoutOne(Top(r), v, Top(f))
  {
    hide MarkToVal, ValToMark, Overwritten;
    var top, k := Top(r), i - r.mark - 1;
    assert top[k] == v;
    OverwriteAbove(r.words, r.mark, i);
    OverwriteAndPop(top, k);
    OverwrittenAreOld(top, k);
  }

  lemma {:induction false} FindIs(words: seq<JSVal>, mark: nat, n: nat, v: JSVal)
    requires mark <= n < |words|
    ensures match Find(words, mark, n, v)
            case None => forall k :: mark < k <= n ==> words[k] != v
            case Some(i) => mark < i <= n && words[i] == v && forall k :: i < k <= n ==> words[k] != v
  {
    if n > mark && words[n] != v {
      FindIs(words, mark, n - 1, v);
    }
  }

  /** Forgetting removes exactly one occurrence of v from the top scope, or nothing if it has none. */
  lemma ForgetRemovesOne(r: Roots, v: JSVal)
    requires WellFormed(r) && r.mark != NULL_MARK
    ensures WellFormed(Forget(r, v))
    ensures var s, t := Scopes(r), Scopes(Forget(r, v));
            && |s| == |t| > 0 && s[..|s| - 1] == t[..|s| - 1]
            && WithoutOne(s[|s| - 1], v, t[|s| - 1])
  {
    hide MarkToVal, ValToMark, Find, Scopes, WellFormed, WithoutOne, Outer, Top;
    MarkIsInside(r);
    var n := |r.words| - 1;
    FindIs(r.words, r.mark, n, v);
    ScopesSplit(r);
    if Find(r.words, r.mark, n, v).Some? {
      ForgetInTop(r, v, Find(r.words, r.mark, n, v).value);
      hide Forget;
      ScopesSplit(Forget(r, v));
    } else {
      NotInTop(r, v);
    }
  }

  // ---- tracing ---------------------------------------------------------------------------------------

  /** One call of the tracer: the place of a root, and the root. */
  datatype Report = Report(place: nat, root: JSVal)

  /** Places n - 1 down to mark + 1 with their words. */
  function Down(words: seq<JSVal>, n: nat, mark: nat): seq<Report>
    requires n <= |words|
    decreases n
  {
    if n <= mark + 1 then [] else [Report(n - 1, words[n - 1])] + Down(words, n - 1, mark)
  }

  /** What js_TraceLocalRoots reports: each scope from its top down, the marks left out. */
  ghost function Trace(r: Roots): seq<Report>
    requires WellFormed(r)
    decreases |r.words|
  {
    if r.mark == NULL_MARK then [] else Down(r.words, |r.words|, r.mark) + Trace(Outer(r))
  }

  function Values(t: seq<Report>): seq<JSVal> {
    if t == [] then [] else [t[0].root] + Values(t[1..])
  }

  lemma {:induction false} ValuesConcat(s: seq<Report>, t: seq<Report>)
    ensures Values(s + t) == Values(s) + Values(t)
  {
    if s == [] {
      assert s + t == t;
    } else {
      assert (s + t)[1..] == s[1..] + t;
      ValuesConcat(s[1..], t);
    }
  }

  ghost function All(s: seq<seq<JSVal>>): seq<JSVal> {
    if s == [] then [] else All(s[..|s| - 1]) + s[|s| - 1]
  }

  lemma NoRootsNoReports(r: Roots)
    requires WellFormed(r) && r.mark == NULL_MARK
    ensures Trace(r) == [] && Scopes(r) == [] && Values([]) == []
  {
  }

  lemma DownEnds(words: seq<JSVal>, n: nat, mark: nat)
    requires n == mark + 1 <= |words|
    ensures Values(Down(words, n, mark)) == words[mark + 1..n] == []
  {
  }

  lemma DownStep(words: seq<JSVal>, n: nat, mark: nat)
    requires mark + 1 < n <= |words|
    ensures Values(Down(words, n, mark)) == [words[n - 1]] + Values(Down(words, n - 1, mark))
    ensures words[mark + 1..n] == words[mark + 1..n - 1] + [words[n - 1]]
  {
    var d := Down(words, n - 1, mark);
    assert Down(words, n, mark) == [Report(n - 1, words[n - 1])] + d;
    assert ([Report(n - 1, words[n - 1])] + d)[1..] == d;
  }

  lemma FrontOrBack<T>(s: seq<T>, t: seq<T>, x: T)
    requires multiset(s) == multiset(t)
    ensures multiset([x] + s) == multiset(t + [x])
  {
  }

  lemma {:induction false} DownValues(words: seq<JSVal>, n: nat, mark: nat)
    requires mark < n <= |words|
    ensures multiset(Values(Down(words, n, mark))) == multiset(words[mark + 1..n])
    decreases n
  {
    hide Values, Down;
    if n <= mark + 1 {
      DownEnds(words, n, mark);
    } else {
      DownValues(words, n - 1, mark);
      DownStep(words, n, mark);
      FrontOrBack(Values(Down(words, n - 1, mark)), words[mark + 1..n - 1], words[n - 1]);
    }
  }

  /** Tracing reports the roots of all scopes, each as often as it was pushed, and nothing else. */
  lemma {:induction false} TraceReportsAll(r: Roots)
    requires WellFormed(r)
    ensures multiset(Values(Trace(r))) == multiset(All(Scopes(r)))
    decreases |r.words|
  {
    hide MarkToVal, ValToMark, Down, Values, Scopes;
    if r.mark == NULL_MARK {
      NoRootsNoReports(r);
    } else {
      var outer := Outer(r);
      TraceReportsAll(outer);
      DownValues(r.words, |r.words|, r.mark);
      ValuesConcat(Down(r.words, |r.words|, r.mark), Trace(outer));
      assert r.words[r.mark + 1..|r.words|] == Top(r);
      ScopesSplit(r);
      assert All(Scopes(r)) == All(Scopes(outer)) + Top(r);
    }
  }

  /** A traced list: each entry is a word of the stack and a GC-thing, at strictly falling places. */
  ghost predicate Falling(words: seq<JSVal>, t: seq<Report>) {
    && (forall k :: 0 <= k < |t| ==> t[k].place < |words| && words[t[k].place] == t[k].root && t[k].root.GCThing?)
    && (forall j, k :: 0 <= j < k < |t| ==> t[k].place < t[j].place)
  }

  ghost predicate Above(mark: nat, t: seq<Report>) {
    forall k :: 0 <= k < |t| ==> mark < t[k].place
  }

  lemma FallingJoins(words: seq<JSVal>, mark: nat, d: seq<Report>, t: seq<Report>)
    requires mark <= |words| && Falling(words, d) && Falling(words[..mark], t) && Above(mark, d)
    ensures Falling(words, d + t)
  {
  }

  lemma FallingCons(words: seq<JSVal>, n: nat, mark: nat, t: seq<Report>)
    requires mark + 1 < n <= |words| && words[n - 1].GCThing? && Falling(words[..n - 1], t) && Above(mark, t)
    ensures Falling(words[..n], [Report(n - 1, words[n - 1])] + t) && Above(mark, [Report(n - 1, words[n - 1])] + t)
  {
  }

  lemma {:induction false} DownFalls(words: seq<JSVal>, n: nat, mark: nat)
    requires mark < n <= |words| && forall k :: mark < k < n ==> words[k].GCThing?
    ensures Falling(words[..n], Down(words, n, mark)) && Above(mark, Down(words, n, mark))
    decreases n
  {
    if n <= mark + 1 {
    } else {
      DownFalls(words, n - 1, mark);
      FallingCons(words, n, mark, Down(words, n - 1, mark));
    }
  }

  /** No place is reported twice, and no mark is reported: marks are integers. */
  lemma {:induction false} TraceReportsOnce(r: Roots)
    requires WellFormed(r)
    ensures Falling(r.words, Trace(r))
    decreases |r.words|
  {
    hide MarkToVal, ValToMark, Down;
    if r.mark != NULL_MARK {
      var outer := Outer(r);
      TraceReportsOnce(outer);
      forall k | r.mark < k < |r.words|
        ensures r.words[k].GCThing?
      {
        assert r.words[k] == Top(r)[k - r.mark - 1];
      }
      DownFalls(r.words, |r.words|, r.mark);
      assert r.words[..|r.words|] == r.words;
      FallingJoins(r.words, r.mark, Down(r.words, |r.words|, r.mark), Trace(outer));
    }
  }
}
