/**
 What the heap dump of jsapi.c searches: things, the edges between them, and which edges DumpNotify puts on the list
 of things still to be looked at. A thing is an address; 0 is the null pointer.
 */
module HeapSearch {
  type Thing = nat

  datatype Edge = Edge(thing: Thing, name: string)

  /** A heap, and the things that the caller of JS_DumpHeap starts from, looks for and leaves out (0 for none). */
  datatype Query = Query(
    runtimeRoots: seq<Edge>,
    children: map<Thing, seq<Edge>>,
    start: Thing,
    find: Thing,
    ignore: Thing)

  /** What JS_TraceChildren reports of a thing, in order. */
  function Children(q: Query, thing: Thing): seq<Edge> {
    if thing in q.children then q.children[thing] else []
  }

  /** What the first trace reports: JS_TraceRuntime without a start, else the children of the start. */
  function Roots(q: Query): seq<Edge> {
    if q.start == 0 then q.runtimeRoots else Children(q, q.start)
  }

  ghost predicate NoNulls(edges: seq<Edge>) {
    forall e :: e in edges ==> e.thing != 0
  }

  /** No edge leads to the null pointer. */
  ghost predicate Proper(q: Query) {
    NoNulls(q.runtimeRoots) && forall t :: t in q.children ==> NoNulls(q.children[t])
  }

  function Targets(edges: seq<Edge>): set<Thing> {
    set e | e in edges :: e.thing
  }

  function Things(edges: seq<Edge>): (r: seq<Thing>)
    ensures |r| == |edges|
  {
    seq(|edges|, i requires 0 <= i < |edges| => edges[i].thing)
  }

  /** Every thing there is in the heap. */
  ghost function AllThings(q: Query): set<Thing> {
    Targets(q.runtimeRoots) + set t, e | t in q.children && e in q.children[t] :: e.thing
  }

  // ---- DumpNotify --------------------------------------------------------------------------------------

  /** Whether DumpNotify lists a thing. */
  predicate Listed(q: Query, visited: set<Thing>, thing: Thing) {
    thing != q.ignore && (thing == q.find || (thing != q.start && thing !in visited))
  }

  function Mark(q: Query, visited: set<Thing>, thing: Thing): set<Thing> {
    if thing == q.ignore || thing == q.find || thing == q.start then visited else visited + {thing}
  }

  /** What is visited after DumpNotify has been called on the edges, in order. */
  function Marked(q: Query, visited: set<Thing>, edges: seq<Edge>): set<Thing> {
    if edges == [] then visited
    else Mark(q, Marked(q, visited, edges[..|edges| - 1]), edges[|edges| - 1].thing)
  }

  /** The edges that are listed along the way. */
  function Wanted(q: Query, visited: set<Thing>, edges: seq<Edge>): seq<Edge> {
    if edges == [] then [] else
    var (before, e) := (edges[..|edges| - 1], edges[|edges| - 1]);
    Wanted(q, visited, before) + if Listed(q, Marked(q, visited, before), e.thing) then [e] else []
  }

  /** A thing appears only once, unless it is the one looked for. */
  ghost predicate Unrepeated(q: Query, things: seq<Thing>) {
    forall i, j :: 0 <= i < j < |things| && things[i] == things[j] ==> things[i] == q.find
  }

  /** Edges to be left alone, and edges that have been dealt with. */
  predicate Settled(q: Query, visited: set<Thing>, thing: Thing) {
    thing == q.ignore || thing == q.find || thing == q.start || thing in visited
  }

  lemma {:induction false} TraceFacts(q: Query, visited: set<Thing>, edges: seq<Edge>)
    ensures var things := Things(Wanted(q, visited, edges));
            && Unrepeated(q, things)
            && (forall t :: t in Marked(q, visited, edges) <==> t in visited || (t in things && t != q.find))
            && (forall t :: t in things && t != q.find ==> t !in visited)
            && (forall t :: t in things ==> t in Targets(edges) && t != q.ignore)
            && (forall t :: t in Targets(edges) ==> Settled(q, Marked(q, visited, edges), t))
  {
    if edges == [] {
    } else {
      var before, e := edges[..|edges| - 1], edges[|edges| - 1];
      TraceFacts(q, visited, before);
      var marked := Marked(q, visited, before);
      var things := Things(Wanted(q, visited, before));
      assert edges == before + [e];
      assert Targets(edges) == Targets(before) + {e.thing};
      if Listed(q, marked, e.thing) {
        assert Things(Wanted(q, visited, edges)) == things + [e.thing];
      } else {
        assert Things(Wanted(q, visited, edges)) == things;
      }
    }
  }

  // ---- the search --------------------------------------------------------------------------------------

  /**
   * What is visited has been dealt with or is pending, never both and never twice; only the thing looked for may be
   * pending any number of times.
   */
  ghost predicate Frontier(q: Query, visited: set<Thing>, done: set<Thing>, pending: seq<Thing>) {
    && Unrepeated(q, pending)
    && (forall t :: t in pending && t != q.find ==> t !in done)
    && (forall t :: t in visited <==> t in done || (t in pending && t != q.find))
  }

  function Done(q: Query, done: set<Thing>, thing: Thing): set<Thing> {
    if thing == q.find then done else done + {thing}
  }

  lemma FrontierAtStart(q: Query, edges: seq<Edge>)
    ensures Frontier(q, Marked(q, {}, edges), {}, Things(Wanted(q, {}, edges)))
  {
    TraceFacts(q, {}, edges);
  }

  lemma FrontierPassesOver(q: Query, visited: set<Thing>, done: set<Thing>, pending: seq<Thing>)
    requires pending != [] && Frontier(q, visited, done, pending)
    ensures Frontier(q, visited, Done(q, done, pending[0]), pending[1..])
  {
    assert pending == [pending[0]] + pending[1..];
  }

  lemma FrontierGrows(q: Query, visited: set<Thing>, done: set<Thing>, pending: seq<Thing>, marked: set<Thing>,
                      listed: seq<Thing>)
    requires Frontier(q, visited, done, pending)
    requires Unrepeated(q, listed)
    requires forall t :: t in marked <==> t in visited || (t in listed && t != q.find)
    requires forall t :: t in listed && t != q.find ==> t !in visited
    ensures Frontier(q, marked, done, listed + pending)
  {
    var all := listed + pending;
    forall i, j | 0 <= i < j < |all| && all[i] == all[j]
      ensures all[i] == q.find
    {
      if i < |listed| <= j {
        assert all[i] in listed && all[j] in pending;
      } else if |listed| <= i {
        assert pending[i - |listed|] == pending[j - |listed|];
      }
    }
  }

  lemma FrontierDescends(q: Query, visited: set<Thing>, done: set<Thing>, pending: seq<Thing>, edges: seq<Edge>)
    requires Frontier(q, visited, done, pending)
    ensures Frontier(q, Marked(q, visited, edges), done, Things(Wanted(q, visited, edges)) + pending)
  {
    TraceFacts(q, visited, edges);
    FrontierGrows(q, visited, done, pending, Marked(q, visited, edges), Things(Wanted(q, visited, edges)));
  }

  ghost predicate AllSettled(q: Query, visited: set<Thing>, edges: seq<Edge>) {
    forall t :: t in Targets(edges) ==> Settled(q, visited, t)
  }

  /** Every edge from what has been traced has been dealt with. */
  ghost predicate Closed(q: Query, visited: set<Thing>, traced: set<Thing>) {
    forall t :: t in traced ==> AllSettled(q, visited, Children(q, t))
  }

  lemma ClosedGrows(q: Query, visited: set<Thing>, traced: set<Thing>, thing: Thing)
    requires Closed(q, visited, traced)
    ensures Closed(q, Marked(q, visited, Children(q, thing)), traced + {thing})
  {
    var marked := Marked(q, visited, Children(q, thing));
    TraceFacts(q, visited, Children(q, thing));
    hide Marked, Wanted, Things, Targets, Children;
    assert AllSettled(q, marked, Children(q, thing));
    forall t | t in traced
      ensures AllSettled(q, marked, Children(q, t))
    {
      assert AllSettled(q, visited, Children(q, t));
    }
  }

  // ---- reachability ------------------------------------------------------------------------------------

  predicate LeadsOn(q: Query, path: seq<Thing>, i: nat)
    requires i < |path| - 1
  {
    path[i + 1] in Targets(Children(q, path[i]))
  }

  /** A way from the roots along edges that leads through nothing to be ignored. */
  ghost predicate Path(q: Query, path: seq<Thing>) {
    && path != []
    && path[0] in Targets(Roots(q))
    && (forall i :: 0 <= i < |path| - 1 ==> LeadsOn(q, path, i))
    && q.ignore !in path
  }

  ghost predicate Reachable(q: Query, thing: Thing) {
    thing != q.start && exists path :: Path(q, path) && path[|path| - 1] == thing
  }

  ghost predicate AllReachable(q: Query, things: set<Thing>) {
    forall t :: t in things ==> Reachable(q, t)
  }

  lemma {:induction false} MarkedIsOther(q: Query, visited: set<Thing>, edges: seq<Edge>, thing: Thing)
    requires thing in Marked(q, visited, edges) && thing !in visited
    ensures thing != q.ignore && thing != q.start && thing in Targets(edges)
  {
    var before, e := edges[..|edges| - 1], edges[|edges| - 1];
    if thing in Marked(q, visited, before) {
      MarkedIsOther(q, visited, before, thing);
    }
  }

  lemma RootsAreReachable(q: Query)
    ensures AllReachable(q, Marked(q, {}, Roots(q)))
  {
    TraceFacts(q, {}, Roots(q));
    forall t | t in Marked(q, {}, Roots(q))
      ensures Reachable(q, t)
    {
      MarkedIsOther(q, {}, Roots(q), t);
      assert Path(q, [t]) && [t][|[t]| - 1] == t;
    }
  }

  lemma ChildrenAreReachable(q: Query, visited: set<Thing>, thing: Thing)
    requires AllReachable(q, visited) && Reachable(q, thing)
    ensures AllReachable(q, Marked(q, visited, Children(q, thing)))
  {
    var path :| Path(q, path) && path[|path| - 1] == thing;
    forall t | t in Marked(q, visited, Children(q, thing))
      ensures Reachable(q, t)
    {
      if t !in visited {
        MarkedIsOther(q, visited, Children(q, thing), t);
        var longer := path + [t];
        assert forall i: nat :: i < |path| - 1 ==> LeadsOn(q, path, i) && LeadsOn(q, longer, i);
        assert Path(q, longer) && longer[|longer| - 1] == t;
      }
    }
  }

  lemma ChildrenAreNotNull(q: Query, t: Thing, u: Thing)
    requires Proper(q) && u in Targets(Children(q, t))
    ensures u != 0
  {
  }

  /** When everything visited has been traced, everything reachable has been visited. */
  lemma {:induction false} ReachedIsVisited(q: Query, visited: set<Thing>, path: seq<Thing>)
    requires q.find == 0 && Proper(q)
    requires Closed(q, visited, visited)
    requires AllSettled(q, visited, Roots(q))
    requires Path(q, path)
    ensures path[|path| - 1] == q.start || path[|path| - 1] in visited
    decreases |path|
  {
    var n := |path|;
    if n == 1 {
      assert path[0] != 0;
    } else {
      var front := path[..n - 1];
      forall i | 0 <= i < |front| - 1
        ensures LeadsOn(q, front, i)
      {
        assert LeadsOn(q, path, i) && front[i] == path[i] && front[i + 1] == path[i + 1];
      }
      assert Path(q, front);
      ReachedIsVisited(q, visited, front);
      var t, u := path[n - 2], path[n - 1];
      assert LeadsOn(q, path, n - 2);
      ChildrenAreNotNull(q, t, u);
      if t == q.start {
        if n > 2 {
          assert LeadsOn(q, path, n - 3);
          ChildrenAreNotNull(q, path[n - 3], t);
        }
        assert u in Targets(Roots(q));
      } else {
        assert AllSettled(q, visited, Children(q, t));
      }
    }
  }

  /** The search has found exactly what is reachable. */
  lemma FoundAll(q: Query, visited: set<Thing>)
    requires q.find == 0 && Proper(q)
    requires Closed(q, visited, visited) && AllReachable(q, visited)
    requires AllSettled(q, visited, Roots(q))
    ensures forall t :: t in visited <==> Reachable(q, t)
  {
    forall t | Reachable(q, t)
      ensures t in visited
    {
      var path :| Path(q, path) && path[|path| - 1] == t;
      ReachedIsVisited(q, visited, path);
    }
  }

  // ---- the state of the search -------------------------------------------------------------------------

  ghost predicate Distinct(things: seq<Thing>) {
    forall i, j :: 0 <= i < j < |things| ==> things[i] != things[j]
  }

  /** What holds of a search for nothing in particular, which prints all that it finds. */
  ghost predicate Prints(q: Query, maxDepth: nat, visited: set<Thing>, done: set<Thing>, depth: nat,
                         printed: seq<Thing>) {
    && Distinct(printed)
    && (forall t :: t in printed <==> t in done)
    && AllReachable(q, visited)
    && AllSettled(q, visited, Roots(q))
    && depth <= |done| + 1
    && (maxDepth > |AllThings(q)| ==> Closed(q, visited, done))
  }

  ghost predicate Search(q: Query, maxDepth: nat, visited: set<Thing>, done: set<Thing>, depth: nat,
                         pending: seq<Thing>, printed: seq<Thing>) {
    && Frontier(q, visited, done, pending)
    && visited <= AllThings(q)
    && (q.find == 0 ==> Prints(q, maxDepth, visited, done, depth, printed))
  }

  lemma MarkedExists(q: Query, visited: set<Thing>, edges: seq<Edge>)
    requires visited <= AllThings(q) && Targets(edges) <= AllThings(q)
    ensures Marked(q, visited, edges) <= AllThings(q)
  {
    TraceFacts(q, visited, edges);
  }

  lemma EdgesLeadToThings(q: Query, thing: Thing)
    ensures Targets(Children(q, thing)) <= AllThings(q)
    ensures Targets(Roots(q)) <= AllThings(q)
  {
  }

  lemma SearchStarts(q: Query, maxDepth: nat)
    requires Proper(q)
    ensures Search(q, maxDepth, Marked(q, {}, Roots(q)), {}, 1, Things(Wanted(q, {}, Roots(q))), [])
  {
    var edges := Roots(q);
    FrontierAtStart(q, edges);
    RootsAreReachable(q);
    TraceFacts(q, {}, edges);
    EdgesLeadToThings(q, 0);
    MarkedExists(q, {}, edges);
    hide Marked, Wanted, Things, AllThings;
  }

  lemma SetSize(small: set<Thing>, large: set<Thing>)
    requires small <= large
    ensures |small| <= |large|
  {
    if small == {} {
    } else {
      var t :| t in small;
      SetSize(small - {t}, large - {t});
    }
  }

  lemma SettledGrows(q: Query, visited: set<Thing>, more: set<Thing>, edges: seq<Edge>)
    requires AllSettled(q, visited, edges) && visited <= more
    ensures AllSettled(q, more, edges)
  {
  }

  function Print(q: Query, printed: seq<Thing>, thing: Thing): seq<Thing> {
    if q.find == 0 || q.find == thing then printed + [thing] else printed
  }

  /** The walk stops short of a thing's children only when it is as deep as the caller allowed. */
  lemma NeverTooDeep(q: Query, maxDepth: nat, visited: set<Thing>, done: set<Thing>, depth: nat, pending: seq<Thing>,
                     printed: seq<Thing>)
    requires Search(q, maxDepth, visited, done, depth, pending, printed) && pending != []
    requires Proper(q) && q.find == 0 && 0 !in pending && maxDepth > |AllThings(q)|
    ensures depth < maxDepth
  {
    hide AllThings, Closed, AllReachable, AllSettled, Distinct, Unrepeated;
    var x := pending[0];
    assert x in pending && x != q.find;
    assert x in visited && x !in done;
    SetSize(done + {x}, AllThings(q));
  }

  lemma PrintedOnce(q: Query, printed: seq<Thing>, done: set<Thing>, thing: Thing)
    requires q.find == 0 && thing != 0 && thing !in done
    requires Distinct(printed) && forall t :: t in printed <==> t in done
    ensures Distinct(Print(q, printed, thing))
    ensures forall t :: t in Print(q, printed, thing) <==> t in Done(q, done, thing)
    ensures |Done(q, done, thing)| == |done| + 1
  {
  }

  /** A thing is done with without its children being looked at. */
  lemma SearchSkips(q: Query, maxDepth: nat, visited: set<Thing>, done: set<Thing>, depth: nat, shallower: nat,
                    pending: seq<Thing>, printed: seq<Thing>)
    requires Search(q, maxDepth, visited, done, depth, pending, printed) && pending != []
    requires Proper(q) && 0 !in pending
    requires q.find == 0 ==> depth >= maxDepth
    requires shallower <= depth
    ensures Search(q, maxDepth, visited, Done(q, done, pending[0]), shallower, pending[1..],
                   Print(q, printed, pending[0]))
  {
    FrontierPassesOver(q, visited, done, pending);
    assert pending[0] in pending;
    if q.find == 0 {
      PrintedOnce(q, printed, done, pending[0]);
      if maxDepth > |AllThings(q)| {
        NeverTooDeep(q, maxDepth, visited, done, depth, pending, printed);
      }
    }
  }

  /** A thing is printed, and its children take its place. */
  lemma SearchDescends(q: Query, maxDepth: nat, visited: set<Thing>, done: set<Thing>, depth: nat, deeper: nat,
                       pending: seq<Thing>, printed: seq<Thing>)
    requires Search(q, maxDepth, visited, done, depth, pending, printed) && pending != []
    requires Proper(q) && 0 !in pending && deeper <= depth + 1
    ensures var edges := Children(q, pending[0]);
            Search(q, maxDepth, Marked(q, visited, edges), Done(q, done, pending[0]), deeper,
                   Things(Wanted(q, visited, edges)) + pending[1..], Print(q, printed, pending[0]))
  {
    var x := pending[0];
    var edges := Children(q, x);
    var marked := Marked(q, visited, edges);
    assert x in pending;
    FrontierPassesOver(q, visited, done, pending);
    FrontierDescends(q, visited, Done(q, done, x), pending[1..], edges);
    EdgesLeadToThings(q, x);
    MarkedExists(q, visited, edges);
    if q.find == 0 {
      assert visited <= marked by {
        TraceFacts(q, visited, edges);
      }
      PrintedOnce(q, printed, done, x);
      SettledGrows(q, visited, marked, Roots(q));
      ChildrenAreReachable(q, visited, x);
      if maxDepth > |AllThings(q)| {
        ClosedGrows(q, visited, done, x);
      }
    }
  }

  /** When nothing is pending any more, what was printed is what can be reached, each thing once. */
  lemma SearchEnds(q: Query, maxDepth: nat, visited: set<Thing>, done: set<Thing>, depth: nat, printed: seq<Thing>)
    requires Search(q, maxDepth, visited, done, depth, [], printed)
    requires Proper(q) && q.find == 0 && maxDepth > |AllThings(q)|
    ensures Distinct(printed)
    ensures forall t :: t in printed <==> Reachable(q, t)
  {
    assert visited == done;
    FoundAll(q, visited);
  }

  lemma SearchRises(q: Query, maxDepth: nat, visited: set<Thing>, done: set<Thing>, depth: nat, shallower: nat,
                    pending: seq<Thing>, printed: seq<Thing>)
    requires Search(q, maxDepth, visited, done, depth, pending, printed) && shallower <= depth
    ensures Search(q, maxDepth, visited, done, shallower, pending, printed)
  {
  }

  /** How many things are not done with. */
  ghost function Undone(q: Query, done: set<Thing>, findWasTraced: bool): nat {
    |AllThings(q) - done| + if findWasTraced then 0 else 1
  }

  /** Every node the walk looks at leaves fewer things to be done, except the thing looked for, once it was traced. */
  lemma FewerUndone(q: Query, maxDepth: nat, visited: set<Thing>, done: set<Thing>, depth: nat, pending: seq<Thing>,
                    printed: seq<Thing>, was: bool, isNow: bool)
    requires Search(q, maxDepth, visited, done, depth, pending, printed) && pending != []
    requires was ==> isNow
    ensures Undone(q, Done(q, done, pending[0]), isNow) <= Undone(q, done, was)
    ensures pending[0] != q.find || isNow != was ==>
              Undone(q, Done(q, done, pending[0]), isNow) < Undone(q, done, was)
  {
    var x := pending[0];
    if x != q.find {
      assert x in pending && x in visited;
      assert AllThings(q) - (done + {x}) == AllThings(q) - done - {x};
    }
  }
}
