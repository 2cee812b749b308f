/**
 What the heap dump of jsapi.c does, step by step, on values: how many allocations and writes there are to succeed is
 given, and everything else follows from the heap. The walk in place is proved to do these steps.
 */
module HeapWalk {
  import opened HeapSearch
  import opened Wrappers

  // ---- a printed line ----------------------------------------------------------------------------------

  const MAX_PARENTS_TO_PRINT := 10

  /** One edge of a printed chain: from a root or the start, or from a thing. */
  datatype Piece = FromRoot(edgeName: string) | From(thing: Thing, edgeName: string)

  datatype Line = Line(thing: Thing, cut: bool, via: seq<Piece>)

  ghost function PieceAt(route: seq<Edge>, i: nat): Piece
    requires i < |route|
  {
    if i == |route| - 1 then FromRoot(route[i].name) else From(route[i + 1].thing, route[i].name)
  }

  /** The first edges of a route, outermost first. A route leads from a thing outward, edge by edge. */
  ghost function Via(route: seq<Edge>, shown: nat): seq<Piece>
    requires shown <= |route|
  {
    if shown == 0 then [] else [PieceAt(route, shown - 1)] + Via(route, shown - 1)
  }

  /** The things that have a line. */
  function Printed(output: seq<Line>): seq<Thing> {
    seq(|output|, i requires 0 <= i < |output| => output[i].thing)
  }

  lemma PrintedMore(output: seq<Line>, line: Line)
    ensures Printed(output + [line]) == Printed(output) + [line.thing]
  {
  }

  /** How many nodes of a chain are shown. */
  function Shown(parents: nat): nat {
    if parents > MAX_PARENTS_TO_PRINT + 1 then MAX_PARENTS_TO_PRINT + 1 else parents
  }

  /** The line that shows a thing and how it was reached, through at most ten parents. */
  ghost function LineOf(route: seq<Edge>): Line
    requires route != []
  {
    Line(route[0].thing, |route| > MAX_PARENTS_TO_PRINT + 1, Via(route, Shown(|route|)))
  }

  /** How many writes a line takes. */
  function Writes(parents: nat): nat {
    1 + (if parents > MAX_PARENTS_TO_PRINT + 1 then 1 else 0) + Shown(parents) + 1
  }

  /** The "..." of a cut chain cannot be written. */
  predicate DotsFail(parents: nat, room: nat) {
    parents > MAX_PARENTS_TO_PRINT + 1 && room == 1
  }

  // ---- how a walk ends ---------------------------------------------------------------------------------

  /**
   * How a walk ends: with every node freed, at a node whose parent link says that the walk is over although the depth
   * says that it is not, or at a link to a node that has been freed.
   */
  datatype Ending = Sound | StopsShort | Dangles

  /** How a walk ends, and how many nodes it leaves behind. */
  datatype Outcome = Outcome(ending: Ending, left: nat)

  const ALL_FREED := Outcome(Sound, 0)

  function Sum(widths: seq<nat>): nat {
    if widths == [] then 0 else widths[0] + Sum(widths[1..])
  }

  /**
   * What becomes of a walk when the links are left turned on the first n levels, told from the number of nodes on each:
   * it goes wrong at the first of them where the node it is at has no sibling to come, and leaves what is outside.
   */
  function FateWithin(widths: seq<nat>, n: nat, innermost: bool): Outcome {
    if n == 0 || widths == [] then ALL_FREED
    else if widths[0] == 1 then Outcome(if innermost then StopsShort else Dangles, Sum(widths[1..]))
    else FateWithin(widths[1..], n - 1, false)
  }

  function FateOf(widths: seq<nat>): Outcome {
    FateWithin(widths, MAX_PARENTS_TO_PRINT + 1, true)
  }

  lemma {:induction false} FateIsSound(widths: seq<nat>, n: nat, innermost: bool)
    ensures var fate := FateWithin(widths, n, innermost);
            && (fate.ending == Sound <==> forall i :: 0 <= i < |widths| && i < n ==> widths[i] != 1)
            && (fate.ending == Sound ==> fate.left == 0)
  {
    if n == 0 || widths == [] {
    } else if widths[0] != 1 {
      var rest := widths[1..];
      FateIsSound(rest, n - 1, false);
      assert forall i :: 1 <= i < |widths| ==> widths[i] == rest[i - 1];
      assert forall i :: 0 <= i < |rest| ==> rest[i] == widths[i + 1];
    }
  }

  // ---- what may run out --------------------------------------------------------------------------------

  /** How many requests will be granted before one is refused; None if none ever is. */
  type Supply = Option<nat>

  predicate Suffices(supply: Supply, n: nat) {
    supply.None? || supply.value >= n
  }

  function Less(supply: Supply, n: nat): Supply
    requires Suffices(supply, n)
  {
    if supply.None? then None else Some(supply.value - n)
  }

  // ---- DumpNotify --------------------------------------------------------------------------------------

  /** What DumpNotify works on: the table, the list it appends to, and whether anything has failed. */
  datatype Tracing = Tracing(visited: set<Thing>, listed: seq<Edge>, memory: Supply, ok: bool)

  function MakeNode(t: Tracing, e: Edge): Tracing {
    if Suffices(t.memory, 1) then t.(listed := t.listed + [e], memory := Less(t.memory, 1)) else t.(ok := false)
  }

  function Notify(q: Query, t: Tracing, e: Edge): Tracing {
    if !t.ok || e.thing == q.ignore then t
    else if e.thing == q.find then MakeNode(t, e)
    else if e.thing == q.start then t
    else if !Suffices(t.memory, 1) then t.(ok := false)
    else if e.thing in t.visited then t.(memory := Less(t.memory, 1))
    else MakeNode(t.(memory := Less(t.memory, 1), visited := t.visited + {e.thing}), e)
  }

  function NotifyAll(q: Query, t: Tracing, edges: seq<Edge>): Tracing {
    if edges == [] then t
    else Notify(q, NotifyAll(q, t, edges[..|edges| - 1]), edges[|edges| - 1])
  }

  lemma NotifyFacts(q: Query, t: Tracing, e: Edge)
    ensures var t' := Notify(q, t, e);
            && (t'.ok ==> t.ok && t'.visited == Mark(q, t.visited, e.thing)
                          && t'.listed == t.listed + if Listed(q, t.visited, e.thing) then [e] else [])
            && (t'.listed == t.listed || (t'.listed == t.listed + [e] && e.thing != q.ignore))
            && (t'.memory.None? <==> t.memory.None?)
            && (t.ok && t.memory.None? ==> t'.ok)
  {
  }

  /** Unless memory runs out, the edges that are wanted are listed. */
  lemma {:induction false} NotifyAllFacts(q: Query, t: Tracing, edges: seq<Edge>)
    requires t.listed == []
    ensures var t' := NotifyAll(q, t, edges);
            && (t'.ok ==> t.ok && t'.visited == Marked(q, t.visited, edges) && t'.listed == Wanted(q, t.visited, edges))
            && |t'.listed| <= |edges|
            && (forall e :: e in t'.listed ==> e in edges && e.thing != q.ignore)
            && (t'.memory.None? <==> t.memory.None?)
            && (t.ok && t.memory.None? ==> t'.ok)
  {
    hide Notify, Mark, Listed;
    if edges == [] {
    } else {
      var before, e := edges[..|edges| - 1], edges[|edges| - 1];
      NotifyAllFacts(q, t, before);
      NotifyFacts(q, NotifyAll(q, t, before), e);
      assert edges == before + [e];
    }
  }

  /** How many of the edges are looked up in the table. */
  function Entered(q: Query, edges: seq<Edge>): nat {
    if edges == [] then 0 else
    var thing := edges[|edges| - 1].thing;
    Entered(q, edges[..|edges| - 1]) + if thing == q.ignore || thing == q.find || thing == q.start then 0 else 1
  }

  lemma MemoryIsUsedOnce(q: Query, t: Tracing, e: Edge)
    ensures var t' := Notify(q, t, e);
            var n := (if e.thing == q.ignore || e.thing == q.find || e.thing == q.start then 0 else 1)
                     + if Listed(q, t.visited, e.thing) then 1 else 0;
            && (t'.ok <==> t.ok && Suffices(t.memory, n))
            && (t'.ok ==> t'.memory == Less(t.memory, n))
  {
  }

  /** Tracing succeeds exactly if there is memory for an entry per thing looked up and for a node per thing listed. */
  lemma {:induction false} MemoryIsUsed(q: Query, t: Tracing, edges: seq<Edge>)
    requires t.listed == [] && t.ok
    ensures var (t', n) := (NotifyAll(q, t, edges), Entered(q, edges) + |Wanted(q, t.visited, edges)|);
            && (t'.ok <==> Suffices(t.memory, n))
            && (t'.ok ==> t'.memory == Less(t.memory, n))
  {
    if edges == [] {
    } else {
      var before, e := edges[..|edges| - 1], edges[|edges| - 1];
      MemoryIsUsed(q, t, before);
      NotifyAllFacts(q, t, before);
      MemoryIsUsedOnce(q, NotifyAll(q, t, before), e);
      hide Notify, Mark, Listed;
    }
  }

  // ---- the walk ----------------------------------------------------------------------------------------

  /**
   * A walk on its way. rows are the edges still to come, level by level from the innermost, the first of each row being
   * the one the walk is at; torn tells how many there were on the levels whose chain was left turned, if one was; made
   * counts the nodes.
   */
  datatype Walk = Walk(
    visited: set<Thing>,
    ok: bool,
    rows: seq<seq<Edge>>,
    findTraced: bool,
    memory: Supply,
    room: Supply,
    output: seq<Line>,
    torn: seq<nat>,
    made: nat)

  /** The way out from the edge that the walk is at. */
  function RouteOf(rows: seq<seq<Edge>>): seq<Edge> {
    if rows == [] then [] else rows[0][..if rows[0] == [] then 0 else 1] + RouteOf(rows[1..])
  }

  /** What is left when the walk leaves the edge it is at: the next of its row, or else of the row outside, and on. */
  function Onward(rows: seq<seq<Edge>>): seq<seq<Edge>> {
    if rows == [] then [] else if |rows[0]| > 1 then [rows[0][1..]] + rows[1..] else Onward(rows[1..])
  }

  function WidthsOf(rows: seq<seq<Edge>>): (widths: seq<nat>)
    ensures |widths| == |rows|
  {
    if rows == [] then [] else [|rows[0]|] + WidthsOf(rows[1..])
  }

  function Start(q: Query, maxDepth: nat, memory: Supply, room: Supply): Walk {
    var findTraced := q.find != 0 && q.find == q.start;
    if maxDepth == 0 then Walk({}, true, [], findTraced, memory, room, [], [], 0) else
    var t := NotifyAll(q, Tracing({}, [], memory, true), Roots(q));
    Walk(t.visited, t.ok, if t.listed == [] then [] else [t.listed], findTraced, t.memory, room, [], [], |t.listed|)
  }

  predicate Finished(s: Walk) {
    !s.ok || s.rows == [] || s.rows[0] == []
  }

  ghost function PrintLine(s: Walk): Walk
    requires !Finished(s)
  {
    var n := |s.rows|;
    if Suffices(s.room, Writes(n)) then
      s.(output := s.output + [LineOf(RouteOf(s.rows))], room := Less(s.room, Writes(n)))
    else
      s.(ok := false, room := Some(0),
         torn := if DotsFail(n, s.room.value) then WidthsOf(s.rows) else [])
  }

  lemma LineIsPrinted(s: Walk, t: Walk)
    requires !Finished(s) && s.torn == [] && t == s.(ok := t.ok, room := t.room, output := t.output, torn := t.torn)
    requires var n := |s.rows|;
             && t.ok == Suffices(s.room, Writes(n))
             && t.room == (if t.ok then Less(s.room, Writes(n)) else Some(0))
             && t.output == (if t.ok then s.output + [LineOf(RouteOf(s.rows))] else s.output)
             && t.torn == if !t.ok && DotsFail(n, s.room.value) then WidthsOf(s.rows) else []
    ensures t == PrintLine(s)
  {
  }

  function Descend(q: Query, s: Walk): Walk
    requires !Finished(s)
  {
    var thing := s.rows[0][0].thing;
    var t := NotifyAll(q, Tracing(s.visited, [], s.memory, true), Children(q, thing));
    s.(visited := t.visited, ok := t.ok, memory := t.memory, made := s.made + |t.listed|,
       findTraced := s.findTraced || thing == q.find,
       rows := if t.listed == [] then Onward(s.rows) else [t.listed] + s.rows)
  }

  /** Down, across or up. */
  function Continue(q: Query, maxDepth: nat, s: Walk): Walk
    requires !Finished(s)
  {
    if |s.rows| < maxDepth && (s.rows[0][0].thing != q.find || !s.findTraced) then Descend(q, s)
    else s.(rows := Onward(s.rows))
  }

  /** One round: the thing is printed if it is wanted, and the walk goes on. */
  ghost function Step(q: Query, maxDepth: nat, s: Walk): Walk
    requires !Finished(s)
  {
    var p := if q.find == 0 || q.find == s.rows[0][0].thing then PrintLine(s) else s;
    if p.ok then Continue(q, maxDepth, p) else p
  }

  ghost function After(q: Query, maxDepth: nat, s: Walk, n: nat): Walk {
    if n == 0 then s else
    var before := After(q, maxDepth, s, n - 1);
    if Finished(before) then before else Step(q, maxDepth, before)
  }

  ghost predicate ComesTo(q: Query, maxDepth: nat, s: Walk, end: Walk) {
    Finished(end) && exists n :: After(q, maxDepth, s, n) == end
  }

  /** What a walk through the heap comes to, when that many allocations and writes succeed. */
  ghost predicate Ends(q: Query, maxDepth: nat, memory: Supply, room: Supply, end: Walk) {
    ComesTo(q, maxDepth, Start(q, maxDepth, memory, room), end)
  }

  lemma AfterOne(q: Query, maxDepth: nat, s: Walk, n: nat)
    ensures var before := After(q, maxDepth, s, n);
            After(q, maxDepth, s, n + 1) == if Finished(before) then before else Step(q, maxDepth, before)
  {
  }

  lemma ComesToAfter(q: Query, maxDepth: nat, s: Walk, n: nat)
    requires Finished(After(q, maxDepth, s, n))
    ensures ComesTo(q, maxDepth, s, After(q, maxDepth, s, n))
  {
  }

  lemma EndsAtOnce(q: Query, maxDepth: nat, s: Walk)
    ensures After(q, maxDepth, s, 0) == s && (Finished(s) ==> ComesTo(q, maxDepth, s, s))
  {
    assert After(q, maxDepth, s, 0) == s;
  }

  lemma {:induction false} FinishedStays(q: Query, maxDepth: nat, s: Walk, m: nat, n: nat)
    requires m <= n && Finished(After(q, maxDepth, s, m))
    ensures After(q, maxDepth, s, n) == After(q, maxDepth, s, m)
  {
    if m == n {
    } else {
      FinishedStays(q, maxDepth, s, m, n - 1);
    }
  }

  /** The walk depends on nothing else. */
  lemma EndIsOne(q: Query, maxDepth: nat, memory: Supply, room: Supply, end: Walk, other: Walk)
    requires Ends(q, maxDepth, memory, room, end) && Ends(q, maxDepth, memory, room, other)
    ensures end == other
  {
    var s := Start(q, maxDepth, memory, room);
    var m: nat :| After(q, maxDepth, s, m) == end;
    var n: nat :| After(q, maxDepth, s, n) == other;
    FinishedStays(q, maxDepth, s, if m < n then m else n, if m < n then n else m);
  }

  // ---- what holds of every walk ------------------------------------------------------------------------

  /** No thing has more than one edge out of it. */
  ghost predicate IsList(q: Query) {
    |Roots(q)| <= 1 && forall t :: t in q.children ==> |q.children[t]| <= 1
  }

  ghost predicate Narrow(rows: seq<seq<Edge>>) {
    forall i :: 0 <= i < |rows| ==> |rows[i]| <= 1
  }

  /** A chain is left turned only when the last write has failed, and where eleven levels may be exceeded. */
  ghost predicate TornOk(q: Query, maxDepth: nat, s: Walk) {
    s.torn != [] ==>
      && !s.ok && s.room == Some(0) && maxDepth > MAX_PARENTS_TO_PRINT + 1
      && (IsList(q) ==> s.torn[0] == 1)
  }

  ghost predicate WalkOk(q: Query, maxDepth: nat, memory: Supply, room: Supply, s: Walk) {
    && |s.rows| <= maxDepth
    && (IsList(q) ==> Narrow(s.rows))
    && (s.room.None? <==> room.None?)
    && (s.memory.None? <==> memory.None?)
    && TornOk(q, maxDepth, s)
    && (forall line :: line in s.output ==> |line.via| <= maxDepth)
    && (memory.None? && room.None? ==> s.ok)
  }

  lemma {:induction false} OnwardIsShorter(rows: seq<seq<Edge>>)
    ensures |Onward(rows)| <= |rows|
    ensures Narrow(rows) ==> Narrow(Onward(rows))
  {
    if rows != [] && |rows[0]| <= 1 {
      OnwardIsShorter(rows[1..]);
    }
  }

  lemma {:induction false} HowLongIsVia(route: seq<Edge>, shown: nat)
    requires shown <= |route|
    ensures |Via(route, shown)| == shown
  {
    if shown == 0 {
    } else {
      HowLongIsVia(route, shown - 1);
    }
  }

  /** A line takes a write for the thing, one for the dots, if it is cut, one for each piece and one for its end. */
  lemma WritesOfLine(route: seq<Edge>, room: nat)
    requires route != []
    ensures Writes(|route|) == 1 + (if LineOf(route).cut then 1 else 0) + |LineOf(route).via| + 1
    ensures DotsFail(|route|, room) <==> LineOf(route).cut && room == 1
  {
    HowLongIsVia(route, Shown(|route|));
  }

  lemma {:induction false} HowLongIsRoute(rows: seq<seq<Edge>>)
    ensures |RouteOf(rows)| <= |rows|
  {
    if rows == [] {
    } else {
      HowLongIsRoute(rows[1..]);
    }
  }

  lemma PrintLineIsOk(q: Query, maxDepth: nat, memory: Supply, room: Supply, s: Walk)
    requires WalkOk(q, maxDepth, memory, room, s) && !Finished(s)
    ensures WalkOk(q, maxDepth, memory, room, PrintLine(s))
  {
    HowLongIsVia(RouteOf(s.rows), Shown(|RouteOf(s.rows)|));
    HowLongIsRoute(s.rows);
  }

  lemma DescendIsOk(q: Query, maxDepth: nat, memory: Supply, room: Supply, s: Walk)
    requires WalkOk(q, maxDepth, memory, room, s) && !Finished(s) && |s.rows| < maxDepth
    ensures WalkOk(q, maxDepth, memory, room, Descend(q, s))
  {
    var children := Children(q, s.rows[0][0].thing);
    NotifyAllFacts(q, Tracing(s.visited, [], s.memory, true), children);
    OnwardIsShorter(s.rows);
    assert IsList(q) ==> |children| <= 1;
    hide NotifyAll, Onward;
  }

  lemma StepIsOk(q: Query, maxDepth: nat, memory: Supply, room: Supply, s: Walk)
    requires WalkOk(q, maxDepth, memory, room, s) && !Finished(s)
    ensures WalkOk(q, maxDepth, memory, room, Step(q, maxDepth, s))
  {
    PrintLineIsOk(q, maxDepth, memory, room, s);
    var thing := s.rows[0][0].thing;
    var p := if q.find == 0 || q.find == thing then PrintLine(s) else s;
    OnwardIsShorter(p.rows);
    if p.ok && |p.rows| < maxDepth {
      DescendIsOk(q, maxDepth, memory, room, p);
    }
    hide Onward, Descend, TornOk;
  }

  lemma {:induction false} AfterIsOk(q: Query, maxDepth: nat, memory: Supply, room: Supply, n: nat)
    ensures WalkOk(q, maxDepth, memory, room, After(q, maxDepth, Start(q, maxDepth, memory, room), n))
  {
    if n == 0 {
      NotifyAllFacts(q, Tracing({}, [], memory, true), Roots(q));
    } else {
      AfterIsOk(q, maxDepth, memory, room, n - 1);
      var before := After(q, maxDepth, Start(q, maxDepth, memory, room), n - 1);
      if !Finished(before) {
        StepIsOk(q, maxDepth, memory, room, before);
      }
    }
  }

  /**
   * If writing never fails, or if the depth is at most eleven, or if there is still a write to spare in the end, the
   * walk frees every node, whatever else has failed. If nothing can fail, nothing does. In a heap that is a list, a
   * chain left turned always makes the walk stop short.
   */
  lemma EndingIsSound(q: Query, maxDepth: nat, memory: Supply, room: Supply, end: Walk)
    requires Ends(q, maxDepth, memory, room, end)
    ensures room.None? || maxDepth <= MAX_PARENTS_TO_PRINT + 1 || end.ok || end.room != Some(0) ==>
              FateOf(end.torn) == ALL_FREED
    ensures memory.None? && room.None? ==> end.ok
    ensures IsList(q) && end.torn != [] ==> FateOf(end.torn).ending == StopsShort
    ensures forall line :: line in end.output ==> |line.via| <= maxDepth
  {
    var n: nat :| After(q, maxDepth, Start(q, maxDepth, memory, room), n) == end;
    AfterIsOk(q, maxDepth, memory, room, n);
    hide After, Start, IsList, Narrow;
  }

  // ---- walks that fail ---------------------------------------------------------------------------------

  function Next(t: Thing): Edge {
    Edge(t, "next")
  }

  const LINKED: set<Thing> := {1, 2, 3, 4, 5, 6, 7, 8, 9, 10, 11}

  /** A list of eleven things, the last of which leads to one more or to two more. */
  function Deep(two: bool): Query {
    Query([Next(1)], map t | t in LINKED :: if t == 11 && two then [Next(12), Next(13)] else [Next(t + 1)], 0, 0, 0)
  }

  /** The rows when the walk is at a thing of the list. */
  function RowsTo(t: Thing): seq<seq<Edge>> {
    if t == 0 then [] else [[Next(t)]] + RowsTo(t - 1)
  }

  /** How many writes may still be made at a thing, for the second write at the twelfth level to fail. */
  function RoomAt(t: Thing): nat
    decreases 12 - t
  {
    if t >= 12 then 1 else Writes(t) + RoomAt(t + 1)
  }

  lemma RoomIs()
    ensures RoomAt(1) == 89 && RoomAt(12) == 1
  {
  }

  ghost predicate IsAt(s: Walk, t: Thing) {
    && s.ok && s.made == t && s.rows == RowsTo(t) && !s.findTraced
    && s.memory.None? && s.room == Some(RoomAt(t)) && s.torn == []
    && (forall u :: u in s.visited ==> u <= t)
  }

  lemma {:induction false} HowManyRows(t: Thing)
    ensures |RowsTo(t)| == t
  {
    if t == 0 {
    } else {
      HowManyRows(t - 1);
    }
  }

  lemma ListsNext(q: Query, visited: set<Thing>, t: Thing)
    requires q.find == q.start == q.ignore == 0 && t > 0 && t !in visited
    ensures NotifyAll(q, Tracing(visited, [], None, true), [Next(t)])
         == Tracing(visited + {t}, [Next(t)], None, true)
  {
    assert [Next(t)][..0] == [];
    assert NotifyAll(q, Tracing(visited, [], None, true), []) == Tracing(visited, [], None, true);
  }

  lemma ListsTwo(q: Query, visited: set<Thing>, t: Thing)
    requires q.find == q.start == q.ignore == 0 && t > 0 && t !in visited && t + 1 !in visited
    ensures NotifyAll(q, Tracing(visited, [], None, true), [Next(t), Next(t + 1)])
         == Tracing(visited + {t} + {t + 1}, [Next(t), Next(t + 1)], None, true)
  {
    ListsNext(q, visited, t);
    assert [Next(t), Next(t + 1)][..1] == [Next(t)];
    assert [Next(t)] + [Next(t + 1)] == [Next(t), Next(t + 1)];
  }

  lemma RowsBegin(t: Thing)
    requires t > 0
    ensures RowsTo(t) == [[Next(t)]] + RowsTo(t - 1)
  {
  }

  /** From thing to thing, as long as the chain is not cut and the next thing is alone. */
  lemma GoesOn(two: bool, maxDepth: nat, s: Walk, t: Thing)
    requires IsAt(s, t) && 1 <= t <= (if two then 10 else 11) && maxDepth >= 12
    ensures !Finished(s) && IsAt(Step(Deep(two), maxDepth, s), t + 1)
  {
    HowManyRows(t);
    hide RowsTo, WidthsOf, LineOf, RouteOf, NotifyAll;
    assert s.rows[0] == [Next(t)] by {
      RowsBegin(t);
    }
    ListsNext(Deep(two), s.visited, t + 1);
    RowsBegin(t + 1);
  }

  lemma {:induction false} GoesDown(two: bool, maxDepth: nat, room: Supply, t: Thing)
    requires 1 <= t <= (if two then 11 else 12) && maxDepth >= 12 && room == Some(RoomAt(1))
    ensures IsAt(After(Deep(two), maxDepth, Start(Deep(two), maxDepth, None, room), t - 1), t)
  {
    var q := Deep(two);
    var start := Start(q, maxDepth, None, room);
    if t == 1 {
      ListsNext(q, {}, 1);
      assert RowsTo(1) == [[Next(1)]] + RowsTo(0);
    } else {
      GoesDown(two, maxDepth, room, t - 1);
      GoesOn(two, maxDepth, After(q, maxDepth, start, t - 2), t - 1);
    }
  }

  /** What a failing write of the dots makes of the widths. */
  lemma DotsFailAt(q: Query, maxDepth: nat, s: Walk, rest: seq<seq<Edge>>)
    requires !Finished(s) && |s.rows| == 12 && s.room == Some(1) && q.find == 0 && s.rows[1..] == rest && |rest[0]| == 1
    ensures var end := Step(q, maxDepth, s);
            && Finished(end) && end.made == s.made
            && FateOf(end.torn) == if |s.rows[0]| == 1 then Outcome(StopsShort, Sum(WidthsOf(rest)))
                                   else Outcome(Dangles, Sum(WidthsOf(rest[1..])))
  {
    var torn := WidthsOf(s.rows);
    assert torn == [|s.rows[0]|] + WidthsOf(rest) && torn[1..] == WidthsOf(rest);
    assert WidthsOf(rest) == [1] + WidthsOf(rest[1..]) && WidthsOf(rest)[1..] == WidthsOf(rest[1..]);
    assert PrintLine(s).torn == torn && Step(q, maxDepth, s) == PrintLine(s);
    if torn[0] != 1 {
      assert FateWithin(torn, 11, true) == FateWithin(WidthsOf(rest), 10, false);
    }
  }

  lemma {:induction false} ListsAreThin(t: Thing)
    ensures Sum(WidthsOf(RowsTo(t))) == t
  {
    if t == 0 {
    } else {
      ListsAreThin(t - 1);
      var widths := WidthsOf(RowsTo(t));
      assert RowsTo(t)[1..] == RowsTo(t - 1);
      assert widths[0] == 1 && widths[1..] == WidthsOf(RowsTo(t - 1));
    }
  }

  lemma WalkEnds(q: Query, maxDepth: nat, memory: Supply, room: Supply, n: nat)
    requires var s := After(q, maxDepth, Start(q, maxDepth, memory, room), n);
             !Finished(s) && Finished(Step(q, maxDepth, s))
    ensures Ends(q, maxDepth, memory, room,
                 Step(q, maxDepth, After(q, maxDepth, Start(q, maxDepth, memory, room), n)))
  {
    var s := Start(q, maxDepth, memory, room);
    assert After(q, maxDepth, s, n + 1) == Step(q, maxDepth, After(q, maxDepth, s, n));
  }

  /** With room for 89 writes, a list of twelve things is left behind at the twelfth level. */
  lemma ListStopsShort(maxDepth: nat) returns (end: Walk)
    requires maxDepth >= 12
    ensures Ends(Deep(false), maxDepth, None, Some(89), end)
    ensures end.made == 12 && FateOf(end.torn) == Outcome(StopsShort, 11)
  {
    hide After, Start, Step, RowsTo, RoomAt, ComesTo, FateOf;
    var q, room := Deep(false), Some(89);
    RoomIs();
    GoesDown(false, maxDepth, room, 12);
    var s := After(q, maxDepth, Start(q, maxDepth, None, room), 11);
    RowsBegin(12);
    RowsBegin(11);
    HowManyRows(12);
    ListsAreThin(11);
    DotsFailAt(q, maxDepth, s, RowsTo(11));
    WalkEnds(q, maxDepth, None, room, 11);
    end := Step(q, maxDepth, s);
  }

  lemma FansOut(maxDepth: nat, s: Walk)
    requires IsAt(s, 11) && maxDepth >= 12
    ensures !Finished(s)
    ensures var t := Step(Deep(true), maxDepth, s);
            t.rows == [[Next(12), Next(13)]] + RowsTo(11) && t.room == Some(1) && t.ok && t.made == 13
  {
    RowsBegin(11);
    HowManyRows(11);
    hide RowsTo, WidthsOf, LineOf, RouteOf, NotifyAll;
    ListsTwo(Deep(true), s.visited, 12);
  }

  /** If the twelfth thing has a sibling, the walk comes to a node that has been freed. */
  lemma FanDangles(maxDepth: nat) returns (end: Walk)
    requires maxDepth >= 12
    ensures Ends(Deep(true), maxDepth, None, Some(89), end)
    ensures end.made == 13 && FateOf(end.torn) == Outcome(Dangles, 10)
  {
    hide After, Start, Step, RowsTo, IsAt, RoomAt, ComesTo, FateOf;
    var q, room := Deep(true), Some(89);
    RoomIs();
    GoesDown(true, maxDepth, room, 11);
    var start := Start(q, maxDepth, None, room);
    var s := After(q, maxDepth, start, 10);
    FansOut(maxDepth, s);
    AfterOne(q, maxDepth, start, 10);
    RowsBegin(11);
    HowManyRows(11);
    ListsAreThin(10);
    var t := Step(q, maxDepth, s);
    DotsFailAt(q, maxDepth, t, RowsTo(11));
    WalkEnds(q, maxDepth, None, room, 11);
    end := Step(q, maxDepth, t);
  }
}
