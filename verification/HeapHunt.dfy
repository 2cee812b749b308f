/**
 The heap dump of jsapi.c when it looks for one thing: that thing is listed every time an edge leads to it, but its
 children are looked at only once.
 */
module HeapHunt {
  import opened HeapSearch
  import opened Wrappers

  /** An edge and where it starts: at a thing, or (None) at the roots or the start. */
  datatype Ref = Ref(source: Option<Thing>, edge: Edge)

  function EdgesOf(q: Query, source: Option<Thing>): seq<Edge> {
    if source.None? then Roots(q) else Children(q, source.value)
  }

  function RefsFrom(source: Option<Thing>, edges: seq<Edge>): (r: seq<Ref>)
    ensures |r| == |edges|
  {
    seq(|edges|, i requires 0 <= i < |edges| => Ref(source, edges[i]))
  }

  function ThingsOf(refs: seq<Ref>): (r: seq<Thing>)
    ensures |r| == |refs|
  {
    seq(|refs|, i requires 0 <= i < |refs| => refs[i].edge.thing)
  }

  /** Whatever else is skipped, an edge to the thing looked for is listed. */
  lemma {:induction false} FindIsWanted(q: Query, visited: set<Thing>, edges: seq<Edge>, e: Edge)
    requires e in edges && e.thing == q.find && q.find != q.ignore
    ensures e in Wanted(q, visited, edges)
  {
    var before, last := edges[..|edges| - 1], edges[|edges| - 1];
    assert edges == before + [last];
    if e != last {
      FindIsWanted(q, visited, before, e);
    }
  }

  lemma {:induction false} FindIsNotMarked(q: Query, visited: set<Thing>, edges: seq<Edge>)
    requires q.find !in visited
    ensures q.find !in Marked(q, visited, edges)
  {
    if edges == [] {
    } else {
      FindIsNotMarked(q, visited, edges[..|edges| - 1]);
    }
  }

  /** An edge to the thing looked for, from the roots or from a thing that can be reached. */
  ghost predicate Refers(q: Query, ref: Ref) {
    && (ref.source.Some? ==> Reachable(q, ref.source.value))
    && ref.edge in EdgesOf(q, ref.source)
    && ref.edge.thing == q.find
  }

  // ---- the state of the hunt ---------------------------------------------------------------------------

  /** The children of the source have been looked at. */
  predicate IsTraced(q: Query, done: set<Thing>, findTraced: bool, source: Option<Thing>) {
    match source
    case None => true
    case Some(t) => t in done || (t == q.find && findTraced && q.find != q.start)
  }

  /** Every edge to the thing looked for from what has been traced has been shown, or will be. */
  ghost predicate Shows(q: Query, done: set<Thing>, findTraced: bool, refs: seq<Ref>, shown: set<Ref>) {
    forall source, e :: IsTraced(q, done, findTraced, source) && e in EdgesOf(q, source) && e.thing == q.find ==>
      Ref(source, e) in shown || Ref(source, e) in refs
  }

  ghost predicate Complete(q: Query, visited: set<Thing>, done: set<Thing>, findTraced: bool, refs: seq<Ref>,
                           shown: set<Ref>) {
    && Closed(q, visited, done)
    && (findTraced ==> AllSettled(q, visited, Children(q, q.find)))
    && Shows(q, done, findTraced, refs, shown)
    && (shown != {} ==> findTraced)
  }

  /** The things still to come are there to be reached. */
  ghost predicate AllAwait(q: Query, refs: seq<Ref>) {
    forall ref :: ref in refs ==>
      ref.edge.thing in AllThings(q) && (ref.edge.thing != q.start ==> Reachable(q, ref.edge.thing))
  }

  /** What holds of a search for one thing. */
  ghost predicate Hunts(q: Query, maxDepth: nat, visited: set<Thing>, done: set<Thing>, findTraced: bool, depth: nat,
                        refs: seq<Ref>, shown: set<Ref>) {
    && AllReachable(q, visited) && q.find !in visited && done <= visited <= AllThings(q)
    && AllSettled(q, visited, Roots(q))
    && AllAwait(q, refs)
    && depth <= |done| + 1 + (if findTraced && q.find in AllThings(q) then 1 else 0)
    && (q.find == q.start ==> findTraced)
    && (maxDepth > |AllThings(q)| ==> Complete(q, visited, done, findTraced, refs, shown))
  }

  lemma OneFurther(q: Query, source: Option<Thing>, t: Thing)
    requires t in Targets(EdgesOf(q, source)) && t != q.ignore
    requires source.Some? ==> Reachable(q, source.value)
    ensures t != q.start ==> Reachable(q, t)
  {
    if t == q.start {
    } else if source.None? {
      assert Path(q, [t]) && [t][|[t]| - 1] == t;
    } else {
      var path :| Path(q, path) && path[|path| - 1] == source.value;
      var longer := path + [t];
      assert forall i: nat :: i < |path| - 1 ==> LeadsOn(q, path, i) && LeadsOn(q, longer, i);
      assert Path(q, longer) && longer[|longer| - 1] == t;
    }
  }

  /** What is listed of a reachable thing's children, or of the roots, is reachable. */
  lemma ListedAwait(q: Query, visited: set<Thing>, source: Option<Thing>)
    requires source.Some? ==> Reachable(q, source.value)
    ensures AllAwait(q, RefsFrom(source, Wanted(q, visited, EdgesOf(q, source))))
  {
    var edges := EdgesOf(q, source);
    var wanted := Wanted(q, visited, edges);
    var refs := RefsFrom(source, wanted);
    TraceFacts(q, visited, edges);
    forall ref | ref in refs
      ensures ref.edge.thing in AllThings(q) && (ref.edge.thing != q.start ==> Reachable(q, ref.edge.thing))
    {
      var i :| 0 <= i < |refs| && refs[i] == ref;
      var t := wanted[i].thing;
      assert Things(wanted)[i] == t && t in Things(wanted);
      EdgesLeadToThings(q, if source.Some? then source.value else 0);
      OneFurther(q, source, t);
    }
  }

  lemma WantedRef(q: Query, visited: set<Thing>, source: Option<Thing>, e: Edge)
    requires q.find != q.ignore && e in EdgesOf(q, source) && e.thing == q.find
    ensures Ref(source, e) in RefsFrom(source, Wanted(q, visited, EdgesOf(q, source)))
  {
    var wanted := Wanted(q, visited, EdgesOf(q, source));
    FindIsWanted(q, visited, EdgesOf(q, source), e);
    var i :| 0 <= i < |wanted| && wanted[i] == e;
    assert RefsFrom(source, wanted)[i] == Ref(source, e);
  }

  lemma HuntStarts(q: Query, maxDepth: nat)
    requires q.find != 0 && q.find != q.ignore
    ensures Hunts(q, maxDepth, Marked(q, {}, Roots(q)), {}, q.find == q.start, 1,
                  RefsFrom(None, Wanted(q, {}, Roots(q))), {})
  {
    hide Marked, Wanted, Things, AllThings, Reachable, Targets;
    var edges := Roots(q);
    var visited, refs := Marked(q, {}, edges), RefsFrom(None, Wanted(q, {}, edges));
    RootsAreReachable(q);
    TraceFacts(q, {}, edges);
    EdgesLeadToThings(q, 0);
    MarkedExists(q, {}, edges);
    FindIsNotMarked(q, {}, edges);
    ListedAwait(q, {}, None);
    assert AllSettled(q, visited, edges);
    forall source, e | IsTraced(q, {}, q.find == q.start, source) && e in EdgesOf(q, source) && e.thing == q.find
      ensures Ref(source, e) in refs
    {
      WantedRef(q, {}, source, e);
    }
  }

  lemma RoomFor(done: set<Thing>, all: set<Thing>, x: Thing, y: Thing)
    requires done <= all && x in all && y in all && x !in done && y !in done
    ensures |done| + (if x == y then 1 else 2) <= |all|
  {
    SetSize(done + {x} + {y}, all);
  }

  /** A node that is to be descended from is never as deep as there are things. */
  lemma HuntNeverTooDeep(q: Query, maxDepth: nat, visited: set<Thing>, done: set<Thing>, findTraced: bool, depth: nat,
                     refs: seq<Ref>, shown: set<Ref>)
    requires Hunts(q, maxDepth, visited, done, findTraced, depth, refs, shown)
    requires Frontier(q, visited, done, ThingsOf(refs)) && refs != []
    requires refs[0].edge.thing != q.find || !findTraced
    ensures depth <= |AllThings(q)|
  {
    var x := refs[0].edge.thing;
    assert refs[0] in refs && ThingsOf(refs)[0] == x && x in ThingsOf(refs);
    hide AllThings, Complete, Closed, AllReachable, AllSettled, Unrepeated, Reachable;
    assert x in AllThings(q) && x !in done && q.find !in done;
    RoomFor(done, AllThings(q), x, x);
    if findTraced && q.find in AllThings(q) {
      RoomFor(done, AllThings(q), x, q.find);
    }
  }

  /** Showing a node of the thing looked for. */
  function Show(q: Query, shown: set<Ref>, ref: Ref): set<Ref> {
    if ref.edge.thing == q.find then shown + {ref} else shown
  }

  lemma CompleteSkips(q: Query, visited: set<Thing>, done: set<Thing>, findTraced: bool, refs: seq<Ref>,
                      shown: set<Ref>)
    requires refs != [] && refs[0].edge.thing == q.find && findTraced
    ensures Complete(q, visited, done, findTraced, refs, shown) ==>
              Complete(q, visited, done, findTraced, refs[1..], shown + {refs[0]})
  {
    hide Closed, AllSettled, IsTraced, EdgesOf;
    assert refs == [refs[0]] + refs[1..];
  }

  lemma DoneStays(q: Query, visited: set<Thing>, done: set<Thing>, refs: seq<Ref>)
    requires Frontier(q, visited, done, ThingsOf(refs)) && refs != [] && done <= visited
    ensures var done' := Done(q, done, refs[0].edge.thing); done' <= visited && |done| <= |done'|
  {
    var x := refs[0].edge.thing;
    assert ThingsOf(refs)[0] == x && x in ThingsOf(refs);
    SetSize(done, Done(q, done, x));
  }

  /** A node is done with without its children being looked at. */
  lemma HuntSkips(q: Query, maxDepth: nat, visited: set<Thing>, done: set<Thing>, findTraced: bool, depth: nat,
                  shallower: nat, refs: seq<Ref>, shown: set<Ref>)
    requires Hunts(q, maxDepth, visited, done, findTraced, depth, refs, shown)
    requires Frontier(q, visited, done, ThingsOf(refs)) && refs != []
    requires depth >= maxDepth || (refs[0].edge.thing == q.find && findTraced)
    requires shallower <= depth
    ensures Hunts(q, maxDepth, visited, Done(q, done, refs[0].edge.thing), findTraced, shallower, refs[1..],
                  Show(q, shown, refs[0]))
  {
    hide AllThings, Complete, AllReachable, AllSettled, Reachable, Frontier, ThingsOf;
    var x := refs[0].edge.thing;
    DoneStays(q, visited, done, refs);
    assert refs == [refs[0]] + refs[1..];
    if x == q.find && findTraced {
      CompleteSkips(q, visited, done, findTraced, refs, shown);
    } else if maxDepth > |AllThings(q)| {
      HuntNeverTooDeep(q, maxDepth, visited, done, findTraced, depth, refs, shown);
    }
  }

  lemma HuntRises(q: Query, maxDepth: nat, visited: set<Thing>, done: set<Thing>, findTraced: bool, depth: nat,
                  shallower: nat, refs: seq<Ref>, shown: set<Ref>)
    requires Hunts(q, maxDepth, visited, done, findTraced, depth, refs, shown) && shallower <= depth
    ensures Hunts(q, maxDepth, visited, done, findTraced, shallower, refs, shown)
  {
  }

  /** The thing of a node to be descended from is reachable. */
  lemma DescendedIsReachable(q: Query, visited: set<Thing>, done: set<Thing>, refs: seq<Ref>)
    requires AllReachable(q, visited) && AllAwait(q, refs) && Frontier(q, visited, done, ThingsOf(refs)) && refs != []
    requires refs[0].edge.thing != q.find || q.find != q.start
    ensures Reachable(q, refs[0].edge.thing)
  {
    var x := refs[0].edge.thing;
    assert refs[0] in refs && ThingsOf(refs)[0] == x && x in ThingsOf(refs);
    hide Reachable;
    assert x != q.find ==> Reachable(q, x);
  }

  lemma AwaitTogether(q: Query, kids: seq<Ref>, refs: seq<Ref>)
    requires refs != [] && AllAwait(q, kids) && AllAwait(q, refs)
    ensures AllAwait(q, kids + refs[1..])
  {
    hide Reachable, AllThings;
  }

  lemma DoneCounts(q: Query, visited: set<Thing>, done: set<Thing>, findTraced: bool, refs: seq<Ref>)
    requires Frontier(q, visited, done, ThingsOf(refs)) && refs != [] && AllAwait(q, refs)
    requires refs[0].edge.thing != q.find || !findTraced
    ensures var x := refs[0].edge.thing;
            && Done(q, done, x) <= visited
            && |Done(q, done, x)| + (if (findTraced || x == q.find) && q.find in AllThings(q) then 1 else 0)
            == |done| + (if findTraced && q.find in AllThings(q) then 1 else 0) + 1
  {
    var x := refs[0].edge.thing;
    assert refs[0] in refs && ThingsOf(refs)[0] == x && x in ThingsOf(refs);
    hide AllThings, Reachable, Unrepeated;
  }

  /** The referrers that have been traced go on being shown. */
  lemma CompleteGrows(q: Query, visited: set<Thing>, done: set<Thing>, findTraced: bool, refs: seq<Ref>,
                      shown: set<Ref>)
    requires q.find != q.ignore && refs != [] && (q.find == q.start ==> findTraced)
    requires Complete(q, visited, done, findTraced, refs, shown)
    requires refs[0].edge.thing != q.find || !findTraced
    ensures var x := refs[0].edge.thing;
            var edges := Children(q, x);
            Complete(q, Marked(q, visited, edges), Done(q, done, x), findTraced || x == q.find,
                     RefsFrom(Some(x), Wanted(q, visited, edges)) + refs[1..], Show(q, shown, refs[0]))
  {
    var x := refs[0].edge.thing;
    var edges := Children(q, x);
    var marked := Marked(q, visited, edges);
    var kids := RefsFrom(Some(x), Wanted(q, visited, edges));
    ClosedGrows(q, visited, done, x);
    TraceFacts(q, visited, edges);
    assert AllSettled(q, marked, edges);
    if findTraced {
      SettledGrows(q, visited, marked, Children(q, q.find));
    }
    hide AllSettled, Marked, Wanted, Things, Targets, Settled, Unrepeated;
    assert refs == [refs[0]] + refs[1..];
    forall source, e | IsTraced(q, Done(q, done, x), findTraced || x == q.find, source) && e in EdgesOf(q, source)
                       && e.thing == q.find
      ensures Ref(source, e) in Show(q, shown, refs[0]) || Ref(source, e) in kids + refs[1..]
    {
      if source == Some(x) {
        WantedRef(q, visited, source, e);
        assert Ref(source, e) in kids;
      } else {
        assert IsTraced(q, done, findTraced, source);
      }
    }
  }

  /** A node is done with, and its listed children take its place. */
  lemma HuntDescends(q: Query, maxDepth: nat, visited: set<Thing>, done: set<Thing>, findTraced: bool, depth: nat,
                     deeper: nat, refs: seq<Ref>, shown: set<Ref>)
    requires q.find != q.ignore && deeper <= depth + 1
    requires Hunts(q, maxDepth, visited, done, findTraced, depth, refs, shown)
    requires Frontier(q, visited, done, ThingsOf(refs)) && refs != []
    requires refs[0].edge.thing != q.find || !findTraced
    ensures var x := refs[0].edge.thing;
            var edges := Children(q, x);
            Hunts(q, maxDepth, Marked(q, visited, edges), Done(q, done, x), findTraced || x == q.find, deeper,
                  RefsFrom(Some(x), Wanted(q, visited, edges)) + refs[1..], Show(q, shown, refs[0]))
  {
    var x := refs[0].edge.thing;
    var edges := Children(q, x);
    var marked := Marked(q, visited, edges);
    var kids := RefsFrom(Some(x), Wanted(q, visited, edges));
    assert ThingsOf(refs)[0] == x && x in ThingsOf(refs);
    DescendedIsReachable(q, visited, done, refs);
    ChildrenAreReachable(q, visited, x);
    ListedAwait(q, visited, Some(x));
    FindIsNotMarked(q, visited, edges);
    EdgesLeadToThings(q, x);
    MarkedExists(q, visited, edges);
    assert visited <= marked by {
      TraceFacts(q, visited, edges);
    }
    SettledGrows(q, visited, marked, Roots(q));
    AwaitTogether(q, kids, refs);
    var nowTraced, nowDone := findTraced || x == q.find, Done(q, done, x);
    if maxDepth > |AllThings(q)| {
      CompleteGrows(q, visited, done, findTraced, refs, shown);
    }
    DoneCounts(q, visited, done, findTraced, refs);
    hide AllThings, Complete, AllReachable, AllSettled, Reachable, Unrepeated, Marked, Wanted, Frontier;
  }

  // ---- the end of the hunt -----------------------------------------------------------------------------

  lemma StartIsNotNull(q: Query, path: seq<Thing>, i: nat)
    requires Proper(q) && Path(q, path) && i < |path|
    ensures path[i] != 0
  {
    if i > 0 {
      assert LeadsOn(q, path, i - 1);
      ChildrenAreNotNull(q, path[i - 1], path[i]);
    }
  }

  lemma FollowEdge(q: Query, done: set<Thing>, findTraced: bool, shown: set<Ref>, source: Option<Thing>, t: Thing)
    requires q.find != q.ignore && t != q.ignore && t in Targets(EdgesOf(q, source))
    requires AllSettled(q, done, Roots(q)) && Complete(q, done, done, findTraced, [], shown)
    requires source.Some? ==> source.value != q.start
    requires source.Some? ==> source.value in done || (source.value == q.find && findTraced)
    ensures t in done || t == q.start || (t == q.find && findTraced)
  {
    assert AllSettled(q, done, EdgesOf(q, source));
    if t == q.find {
      var e :| e in EdgesOf(q, source) && e.thing == t;
      assert IsTraced(q, done, findTraced, source);
      assert Ref(source, e) in shown;
    }
  }

  /** A way from the roots has been followed: what it leads to is done with, or is the thing looked for, then traced. */
  lemma {:induction false} PathIsFollowed(q: Query, done: set<Thing>, findTraced: bool, shown: set<Ref>,
                                          path: seq<Thing>)
    requires Proper(q) && q.find != q.ignore && Path(q, path)
    requires AllSettled(q, done, Roots(q)) && Complete(q, done, done, findTraced, [], shown)
    ensures var t := path[|path| - 1];
            t in done || t == q.start || (t == q.find && findTraced)
    decreases |path|
  {
    var n := |path|;
    var t := path[n - 1];
    if n == 1 {
      FollowEdge(q, done, findTraced, shown, None, t);
    } else {
      var front := path[..n - 1];
      forall i | 0 <= i < |front| - 1
        ensures LeadsOn(q, front, i)
      {
        assert LeadsOn(q, path, i) && front[i] == path[i] && front[i + 1] == path[i + 1];
      }
      assert Path(q, front);
      PathIsFollowed(q, done, findTraced, shown, front);
      var s := path[n - 2];
      assert LeadsOn(q, path, n - 2) && front[|front| - 1] == s;
      if s == q.start {
        StartIsNotNull(q, path, n - 2);
        FollowEdge(q, done, findTraced, shown, None, t);
      } else {
        FollowEdge(q, done, findTraced, shown, Some(s), t);
      }
    }
  }

  /** In the end, every edge to the thing looked for, from the roots or from anything reachable, has been shown. */
  lemma HuntEnds(q: Query, maxDepth: nat, visited: set<Thing>, done: set<Thing>, findTraced: bool, depth: nat,
                 shown: set<Ref>)
    requires Proper(q) && q.find != q.ignore && maxDepth > |AllThings(q)|
    requires Hunts(q, maxDepth, visited, done, findTraced, depth, [], shown) && Frontier(q, visited, done, [])
    ensures forall ref :: Refers(q, ref) ==> ref in shown
  {
    assert visited == done;
    forall ref | Refers(q, ref)
      ensures ref in shown
    {
      if ref.source.Some? {
        var path :| Path(q, path) && path[|path| - 1] == ref.source.value;
        PathIsFollowed(q, done, findTraced, shown, path);
      }
      assert IsTraced(q, done, findTraced, ref.source);
      assert Ref(ref.source, ref.edge) == ref;
    }
  }

  // ---- both kinds of search ----------------------------------------------------------------------------

  /** What a walk has come to: refs are still to come, printed and shown have been printed. */
  ghost predicate Progress(q: Query, maxDepth: nat, visited: set<Thing>, done: set<Thing>, findTraced: bool, depth: nat,
                           refs: seq<Ref>, printed: seq<Thing>, shown: set<Ref>) {
    && Search(q, maxDepth, visited, done, depth, ThingsOf(refs), printed)
    && (q.find != 0 && q.find != q.ignore ==> Hunts(q, maxDepth, visited, done, findTraced, depth, refs, shown))
  }

  lemma ThingsOfRefs(source: Option<Thing>, edges: seq<Edge>, refs: seq<Ref>)
    ensures ThingsOf(RefsFrom(source, edges) + refs) == Things(edges) + ThingsOf(refs)
    ensures ThingsOf(RefsFrom(source, edges)) == Things(edges)
    ensures refs != [] ==> ThingsOf(refs[1..]) == ThingsOf(refs)[1..]
  {
  }

  lemma ProgressStarts(q: Query, maxDepth: nat)
    requires Proper(q)
    ensures Progress(q, maxDepth, Marked(q, {}, Roots(q)), {}, q.find != 0 && q.find == q.start, 1,
                     RefsFrom(None, Wanted(q, {}, Roots(q))), [], {})
  {
    ThingsOfRefs(None, Wanted(q, {}, Roots(q)), []);
    hide Search, Hunts, Marked, Wanted, Things, ThingsOf, Proper;
    SearchStarts(q, maxDepth);
    if q.find != 0 && q.find != q.ignore {
      HuntStarts(q, maxDepth);
    }
  }

  lemma FrontierOf(q: Query, maxDepth: nat, visited: set<Thing>, done: set<Thing>, depth: nat, pending: seq<Thing>,
                   printed: seq<Thing>)
    requires Search(q, maxDepth, visited, done, depth, pending, printed)
    ensures Frontier(q, visited, done, pending)
  {
  }

  lemma ProgressSkips(q: Query, maxDepth: nat, visited: set<Thing>, done: set<Thing>, findTraced: bool, depth: nat,
                      refs: seq<Ref>, printed: seq<Thing>, shown: set<Ref>)
    requires Progress(q, maxDepth, visited, done, findTraced, depth, refs, printed, shown) && refs != []
    requires Proper(q) && 0 !in ThingsOf(refs)
    requires depth >= maxDepth || (refs[0].edge.thing == q.find && findTraced)
    ensures Progress(q, maxDepth, visited, Done(q, done, refs[0].edge.thing), findTraced, depth, refs[1..],
                     Print(q, printed, refs[0].edge.thing), Show(q, shown, refs[0]))
  {
    ThingsOfRefs(None, [], refs);
    assert ThingsOf(refs)[0] == refs[0].edge.thing && ThingsOf(refs)[0] in ThingsOf(refs);
    hide Hunts, ThingsOf, Proper, Prints, Frontier;
    SearchSkips(q, maxDepth, visited, done, depth, depth, ThingsOf(refs), printed);
    hide Search;
    if q.find != 0 && q.find != q.ignore {
      FrontierOf(q, maxDepth, visited, done, depth, ThingsOf(refs), printed);
      HuntSkips(q, maxDepth, visited, done, findTraced, depth, depth, refs, shown);
    }
  }

  lemma ProgressDescends(q: Query, maxDepth: nat, visited: set<Thing>, done: set<Thing>, findTraced: bool, depth: nat,
                         deeper: nat, refs: seq<Ref>, printed: seq<Thing>, shown: set<Ref>)
    requires Progress(q, maxDepth, visited, done, findTraced, depth, refs, printed, shown) && refs != []
    requires Proper(q) && 0 !in ThingsOf(refs) && deeper <= depth + 1
    requires refs[0].edge.thing != q.find || !findTraced
    ensures var x := refs[0].edge.thing;
            var edges := Children(q, x);
            Progress(q, maxDepth, Marked(q, visited, edges), Done(q, done, x), findTraced || x == q.find, deeper,
                     RefsFrom(Some(x), Wanted(q, visited, edges)) + refs[1..], Print(q, printed, x),
                     Show(q, shown, refs[0]))
  {
    var x := refs[0].edge.thing;
    var edges := Children(q, x);
    ThingsOfRefs(Some(x), Wanted(q, visited, edges), refs[1..]);
    ThingsOfRefs(None, [], refs);
    assert ThingsOf(refs)[0] == x;
    hide Search, Hunts, Marked, Wanted, Things, ThingsOf, Proper, Frontier;
    SearchDescends(q, maxDepth, visited, done, depth, deeper, ThingsOf(refs), printed);
    if q.find != 0 && q.find != q.ignore {
      FrontierOf(q, maxDepth, visited, done, depth, ThingsOf(refs), printed);
      HuntDescends(q, maxDepth, visited, done, findTraced, depth, deeper, refs, shown);
    }
  }

  lemma ProgressRises(q: Query, maxDepth: nat, visited: set<Thing>, done: set<Thing>, findTraced: bool, depth: nat,
                      shallower: nat, refs: seq<Ref>, printed: seq<Thing>, shown: set<Ref>)
    requires Progress(q, maxDepth, visited, done, findTraced, depth, refs, printed, shown) && shallower <= depth
    ensures Progress(q, maxDepth, visited, done, findTraced, shallower, refs, printed, shown)
  {
    hide Search, Hunts, ThingsOf;
    SearchRises(q, maxDepth, visited, done, depth, shallower, ThingsOf(refs), printed);
    if q.find != 0 && q.find != q.ignore {
      HuntRises(q, maxDepth, visited, done, findTraced, depth, shallower, refs, shown);
    }
  }

  lemma ProgressShrinks(q: Query, maxDepth: nat, visited: set<Thing>, done: set<Thing>, depth: nat, refs: seq<Ref>,
                        printed: seq<Thing>, shown: set<Ref>, was: bool, isNow: bool)
    requires Progress(q, maxDepth, visited, done, was, depth, refs, printed, shown) && refs != []
    requires was ==> isNow
    ensures var x := refs[0].edge.thing;
            && Undone(q, Done(q, done, x), isNow) <= Undone(q, done, was)
            && (x != q.find || isNow != was ==> Undone(q, Done(q, done, x), isNow) < Undone(q, done, was))
  {
    assert ThingsOf(refs)[0] == refs[0].edge.thing;
    hide Search, Hunts, ThingsOf, Undone;
    FewerUndone(q, maxDepth, visited, done, depth, ThingsOf(refs), printed, was, isNow);
  }

  /** When nothing is left: everything reachable was printed once, or every referrer of the thing looked for shown. */
  lemma ProgressEnds(q: Query, maxDepth: nat, visited: set<Thing>, done: set<Thing>, findTraced: bool, depth: nat,
                     printed: seq<Thing>, shown: set<Ref>)
    requires Progress(q, maxDepth, visited, done, findTraced, depth, [], printed, shown)
    requires Proper(q) && maxDepth > |AllThings(q)|
    ensures q.find == 0 ==> Distinct(printed) && forall t :: t in printed <==> Reachable(q, t)
    ensures q.find != 0 && q.find != q.ignore ==> forall ref :: Refers(q, ref) ==> ref in shown
  {
    assert ThingsOf([]) == [];
    hide Search, Hunts, ThingsOf, Reachable, Refers;
    if q.find == 0 {
      SearchEnds(q, maxDepth, visited, done, depth, printed);
    } else if q.find != q.ignore {
      FrontierOf(q, maxDepth, visited, done, depth, [], printed);
      HuntEnds(q, maxDepth, visited, done, findTraced, depth, shown);
    }
  }
}
