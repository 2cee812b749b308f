/**
 What a limited depth leaves out of a heap dump (jsapi.c): nothing but what is below the things that are shown at that
 depth. The roots are all shown, and so are the children of everything shown above it.
 */
module HeapDepth {
  import opened HeapSearch
  import opened HeapWalk
  import opened Wrappers

  /** The edges that the outer levels have still to offer, after the one the walk has gone down. */
  function Remaining(rows: seq<seq<Edge>>): seq<Edge> {
    if rows == [] then [] else (if rows[0] == [] then [] else rows[0][1..]) + Remaining(rows[1..])
  }

  /** The edges still to be looked at, the next one first. */
  function Pending(rows: seq<seq<Edge>>): seq<Edge> {
    if rows == [] then [] else rows[0] + Remaining(rows[1..])
  }

  predicate Full(rows: seq<seq<Edge>>) {
    rows == [] || (rows[0] != [] && Full(rows[1..]))
  }

  lemma NextOfRow(rows: seq<seq<Edge>>)
    requires rows != [] && |rows[0]| > 1
    ensures var next := [rows[0][1..]] + rows[1..];
            Pending(next) == Remaining(rows) && (Full(rows) ==> Full(next))
  {
    assert ([rows[0][1..]] + rows[1..])[1..] == rows[1..];
  }

  lemma NothingInRow(rows: seq<seq<Edge>>)
    requires rows != [] && |rows[0]| == 1
    ensures Remaining(rows) == Remaining(rows[1..])
  {
    assert rows[0][1..] == [];
  }

  lemma OneRow(listed: seq<Edge>)
    ensures Remaining([]) == Pending([]) == [] && Pending([listed]) == listed
    ensures Full([]) && (listed != [] ==> Full([listed]))
  {
  }

  lemma {:induction false} OnwardIsRest(rows: seq<seq<Edge>>)
    requires Full(rows)
    ensures Pending(Onward(rows)) == Remaining(rows) && Full(Onward(rows))
  {
    hide Pending, Remaining;
    if rows == [] {
      OneRow([]);
    } else if |rows[0]| > 1 {
      NextOfRow(rows);
    } else {
      NothingInRow(rows);
      OnwardIsRest(rows[1..]);
    }
  }

  lemma FirstPending(rows: seq<seq<Edge>>)
    requires Full(rows) && rows != []
    ensures Pending(rows) == [rows[0][0]] + Remaining(rows)
  {
    var row, outer := rows[0], rows[1..];
    assert row == [row[0]] + row[1..];
    assert row + Remaining(outer) == [row[0]] + (row[1..] + Remaining(outer));
  }

  lemma {:induction false} RouteThroughAll(rows: seq<seq<Edge>>)
    requires Full(rows)
    ensures |RouteOf(rows)| == |rows|
    ensures rows != [] ==> RouteOf(rows)[0] == rows[0][0]
  {
    if rows == [] {
    } else {
      RouteThroughAll(rows[1..]);
    }
  }

  lemma ThingsJoin(a: seq<Edge>, b: seq<Edge>)
    ensures Things(a + b) == Things(a) + Things(b)
  {
  }

  lemma PendingThings(rows: seq<seq<Edge>>)
    requires Full(rows) && rows != []
    ensures Things(Pending(rows)) == [rows[0][0].thing] + Things(Remaining(rows))
  {
    FirstPending(rows);
    ThingsJoin([rows[0][0]], Remaining(rows));
    assert Things([rows[0][0]]) == [rows[0][0].thing];
  }

  lemma NothingPending(rows: seq<seq<Edge>>)
    requires Full(rows) && (rows == [] || rows[0] == [])
    ensures rows == [] && Things(Pending(rows)) == []
  {
  }

  lemma NoNullThings(edges: seq<Edge>)
    requires NoNulls(edges)
    ensures 0 !in Things(edges)
  {
    assert forall i :: 0 <= i < |edges| ==> edges[i] in edges;
  }

  function Seen(output: seq<Line>): set<Thing> {
    set t | t in Printed(output)
  }

  /** What is shown above the limit has had all its edges dealt with. */
  ghost predicate Deepened(q: Query, maxDepth: nat, visited: set<Thing>, output: seq<Line>) {
    forall line :: line in output && !line.cut && |line.via| < maxDepth ==>
      AllSettled(q, visited, Children(q, line.thing))
  }

  ghost predicate DepthOk(q: Query, maxDepth: nat, s: Walk) {
    s.ok ==>
      && Full(s.rows) && NoNulls(Pending(s.rows))
      && Search(q, maxDepth, s.visited, Seen(s.output), |s.rows|, Things(Pending(s.rows)),
                Printed(s.output))
      && Deepened(q, maxDepth, s.visited, s.output)
  }

  lemma RootsAreNoNulls(q: Query)
    requires Proper(q)
    ensures NoNulls(Wanted(q, {}, Roots(q)))
  {
    NotifyAllFacts(q, Tracing({}, [], None, true), Roots(q));
    hide NotifyAll, Wanted;
    assert NoNulls(Roots(q));
  }

  lemma NothingPrinted()
    ensures Printed([]) == [] && Seen([]) == {}
  {
  }

  lemma StartKeepsDepth(q: Query, maxDepth: nat, memory: Supply, room: Supply)
    requires Proper(q) && q.find == 0 && maxDepth > 0
    ensures DepthOk(q, maxDepth, Start(q, maxDepth, memory, room))
  {
    hide NotifyAll, Marked, Wanted, Search, Things, Pending, Proper, Roots, Printed, NoNulls;
    var s, listed := Start(q, maxDepth, memory, room), Wanted(q, {}, Roots(q));
    NotifyAllFacts(q, Tracing({}, [], memory, true), Roots(q));
    SearchStarts(q, maxDepth);
    RootsAreNoNulls(q);
    OneRow(listed);
    if s.ok {
      assert Pending(s.rows) == listed;
      NothingPrinted();
      SearchRises(q, maxDepth, s.visited, {}, 1, |s.rows|, Things(listed), []);
    }
  }

  /** The line that is printed shows the thing the walk is at, with as many edges as the walk is deep. */
  lemma LineIsOf(rows: seq<seq<Edge>>)
    requires rows != [] && Full(rows)
    ensures RouteOf(rows) != [] && LineOf(RouteOf(rows)).thing == rows[0][0].thing
    ensures LineOf(RouteOf(rows)).cut || |LineOf(RouteOf(rows)).via| == |rows|
  {
    RouteThroughAll(rows);
    HowLongIsVia(RouteOf(rows), Shown(|rows|));
  }

  lemma DeepenedByLine(q: Query, maxDepth: nat, visited: set<Thing>, output: seq<Line>, line: Line, more: set<Thing>)
    requires Deepened(q, maxDepth, visited, output) && visited <= more
    requires !line.cut && |line.via| < maxDepth ==> AllSettled(q, more, Children(q, line.thing))
    ensures Deepened(q, maxDepth, more, output + [line])
  {
    forall l | l in output + [line] && !l.cut && |l.via| < maxDepth
      ensures AllSettled(q, more, Children(q, l.thing))
    {
      if l in output {
        SettledGrows(q, visited, more, Children(q, l.thing));
      }
    }
  }

  lemma PrintedOneMore(q: Query, output: seq<Line>, line: Line)
    requires q.find == 0
    ensures Printed(output + [line]) == Print(q, Printed(output), line.thing)
    ensures line.thing != 0 ==>
              Seen(output + [line]) == Done(q, Seen(output), line.thing)
  {
    PrintedMore(output, line);
  }

  /** A thing at the limit is shown, and its children are not looked at. */
  lemma SkipKeepsDepth(q: Query, maxDepth: nat, s: Walk, line: Line, next: Walk)
    requires Proper(q) && q.find == 0 && DepthOk(q, maxDepth, s) && s.ok && s.rows != [] && |s.rows| >= maxDepth
    requires line.thing == s.rows[0][0].thing && (line.cut || |line.via| == |s.rows|)
    requires next.ok && next.rows == Onward(s.rows) && next.visited == s.visited && next.output == s.output + [line]
    ensures DepthOk(q, maxDepth, next)
  {
    hide Search, Things, Onward, Deepened;
    var printed, done := Printed(s.output), Seen(s.output);
    OnwardIsRest(s.rows);
    OnwardIsShorter(s.rows);
    PendingThings(s.rows);
    NoNullThings(Pending(s.rows));
    assert line.thing in Things(Pending(s.rows));
    SearchSkips(q, maxDepth, s.visited, done, |s.rows|, |next.rows|, Things(Pending(s.rows)), printed);
    PrintedOneMore(q, s.output, line);
    DeepenedByLine(q, maxDepth, s.visited, s.output, line, s.visited);
  }

  lemma PendingBelow(rows: seq<seq<Edge>>, listed: seq<Edge>, next: seq<seq<Edge>>)
    requires Full(rows) && rows != [] && next == if listed == [] then Onward(rows) else [listed] + rows
    ensures Pending(next) == listed + Remaining(rows) && Full(next) && |next| <= |rows| + 1
  {
    OnwardIsRest(rows);
    OnwardIsShorter(rows);
    if listed != [] {
      assert ([listed] + rows)[1..] == rows;
    }
  }

  /** After its children have been listed, a thing has no edge that has not been dealt with. */
  lemma Dealt(q: Query, visited: set<Thing>, thing: Thing)
    ensures var marked := Marked(q, visited, Children(q, thing));
            visited <= marked && AllSettled(q, marked, Children(q, thing))
  {
    TraceFacts(q, visited, Children(q, thing));
  }

  /** Above the limit the children of a thing take its place. */
  lemma DescendKeepsDepth(q: Query, maxDepth: nat, s: Walk, line: Line, next: Walk, listed: seq<Edge>)
    requires Proper(q) && q.find == 0 && DepthOk(q, maxDepth, s) && s.ok && s.rows != []
    requires line.thing == s.rows[0][0].thing
    requires var edges := Children(q, line.thing);
             && next.visited == Marked(q, s.visited, edges) && listed == Wanted(q, s.visited, edges)
    requires next.ok && next.output == s.output + [line] && NoNulls(listed)
    requires next.rows == if listed == [] then Onward(s.rows) else [listed] + s.rows
    ensures DepthOk(q, maxDepth, next)
  {
    hide Search, Things, Onward, Deepened, Marked, Wanted, Children;
    var printed, done, edges := Printed(s.output), Seen(s.output), Children(q, line.thing);
    OnwardIsRest(s.rows);
    OnwardIsShorter(s.rows);
    PendingThings(s.rows);
    ThingsJoin(listed, Remaining(s.rows));
    NoNullThings(Pending(s.rows));
    assert line.thing in Things(Pending(s.rows));
    PendingBelow(s.rows, listed, next.rows);
    SearchDescends(q, maxDepth, s.visited, done, |s.rows|, |next.rows|, Things(Pending(s.rows)), printed);
    PrintedOneMore(q, s.output, line);
    Dealt(q, s.visited, line.thing);
    DeepenedByLine(q, maxDepth, s.visited, s.output, line, next.visited);
  }

  lemma ChildrenAreNoNulls(q: Query, visited: set<Thing>, thing: Thing)
    requires Proper(q)
    ensures NoNulls(Children(q, thing)) && NoNulls(Wanted(q, visited, Children(q, thing)))
  {
    NotifyAllFacts(q, Tracing(visited, [], None, true), Children(q, thing));
  }

  lemma StepKeepsDepth(q: Query, maxDepth: nat, s: Walk)
    requires Proper(q) && q.find == 0 && DepthOk(q, maxDepth, s) && !Finished(s)
    ensures DepthOk(q, maxDepth, Step(q, maxDepth, s))
  {
    hide Search, Things, Onward, Deepened, Marked, Wanted, Children, NotifyAll;
    hide LineOf, Shown, Writes, DotsFail, WidthsOf;
    var next, thing := Step(q, maxDepth, s), s.rows[0][0].thing;
    if next.ok {
      LineIsOf(s.rows);
      assert thing != 0 by {
        FirstPending(s.rows);
        assert s.rows[0][0] in Pending(s.rows);
      }
      var line := LineOf(RouteOf(s.rows));
      if |s.rows| < maxDepth {
        NotifyAllFacts(q, Tracing(s.visited, [], s.memory, true), Children(q, thing));
        ChildrenAreNoNulls(q, s.visited, thing);
        DescendKeepsDepth(q, maxDepth, s, line, next, Wanted(q, s.visited, Children(q, thing)));
      } else {
        SkipKeepsDepth(q, maxDepth, s, line, next);
      }
    }
  }

  lemma {:induction false} AfterKeepsDepth(q: Query, maxDepth: nat, memory: Supply, room: Supply, n: nat)
    requires Proper(q) && q.find == 0 && maxDepth > 0
    ensures DepthOk(q, maxDepth, After(q, maxDepth, Start(q, maxDepth, memory, room), n))
  {
    hide DepthOk, Step, Finished;
    if n == 0 {
      StartKeepsDepth(q, maxDepth, memory, room);
    } else {
      AfterKeepsDepth(q, maxDepth, memory, room, n - 1);
      var before := After(q, maxDepth, Start(q, maxDepth, memory, room), n - 1);
      if !Finished(before) {
        StepKeepsDepth(q, maxDepth, before);
      }
    }
  }

  lemma SettledIsShown(q: Query, maxDepth: nat, end: Walk, e: Edge, edges: seq<Edge>)
    requires q.find == 0 && DepthOk(q, maxDepth, end) && end.ok && end.rows == []
    requires NoNulls(edges) && AllSettled(q, end.visited, edges)
    requires e in edges && e.thing != q.ignore && e.thing != q.start
    ensures e.thing in Printed(end.output)
  {
    hide Things, Printed, Deepened;
    NothingPending(end.rows);
    assert e.thing in Targets(edges);
    assert e.thing in Seen(end.output);
  }

  lemma AtEnd(q: Query, maxDepth: nat, end: Walk)
    requires q.find == 0 && DepthOk(q, maxDepth, end) && end.ok
    ensures AllSettled(q, end.visited, Roots(q)) && Distinct(Printed(end.output))
  {
  }

  lemma EdgesAreProper(q: Query, thing: Thing)
    requires Proper(q)
    ensures NoNulls(Roots(q)) && NoNulls(Children(q, thing))
  {
  }

  /**
   * Each thing is shown once; all that the roots lead to is shown; and so is all that is one edge below anything shown
   * at less than the limit. Only what is to be ignored, and the start, are left out.
   */
  ghost predicate ShownToDepth(q: Query, maxDepth: nat, output: seq<Line>) {
    && Distinct(Printed(output))
    && (forall e :: e in q.runtimeRoots && q.start == 0 && e.thing != q.ignore ==> e.thing in Printed(output))
    && (q.start != 0 && q.start in q.children ==>
          forall e :: e in q.children[q.start] && e.thing != q.ignore && e.thing != q.start ==>
            e.thing in Printed(output))
    && (forall line :: line in output && !line.cut && |line.via| < maxDepth && line.thing in q.children ==>
          forall e :: e in q.children[line.thing] && e.thing != q.ignore && e.thing != q.start ==>
            e.thing in Printed(output))
  }

  /** What a successful dump for nothing in particular shows, whatever the limit of its depth. */
  lemma LimitedDepth(q: Query, maxDepth: nat, memory: Supply, room: Supply, end: Walk)
    requires Proper(q) && q.find == 0 && maxDepth > 0 && Ends(q, maxDepth, memory, room, end) && end.ok
    ensures ShownToDepth(q, maxDepth, end.output)
  {
    var n: nat :| After(q, maxDepth, Start(q, maxDepth, memory, room), n) == end;
    AfterKeepsDepth(q, maxDepth, memory, room, n);
    hide After, Start, Things, Printed;
    NothingPending(end.rows);
    hide Proper, NoNulls, AllSettled, Search;
    assert AllSettled(q, end.visited, Roots(q)) && Distinct(Printed(end.output)) by {
      AtEnd(q, maxDepth, end);
    }
    forall e | e in Roots(q) && e.thing != q.ignore && e.thing != q.start
      ensures e.thing in Printed(end.output)
    {
      EdgesAreProper(q, 0);
      SettledIsShown(q, maxDepth, end, e, Roots(q));
    }
    forall line, e | line in end.output && !line.cut && |line.via| < maxDepth
                     && e in Children(q, line.thing) && e.thing != q.ignore && e.thing != q.start
      ensures e.thing in Printed(end.output)
    {
      assert AllSettled(q, end.visited, Children(q, line.thing));
      EdgesAreProper(q, line.thing);
      SettledIsShown(q, maxDepth, end, e, Children(q, line.thing));
    }
  }
}
