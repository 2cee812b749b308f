/**
 The heap dump of jsapi.c: a depth-first walk that keeps its stack in the nodes themselves, by sibling and parent links,
 and frees each node as it leaves it. It does what the walk on values does, and frees all nodes where that one says.
 */
module HeapDump {
  import opened HeapDepth
  import opened HeapHunt
  import opened HeapSearch
  import opened HeapWalk
  import opened Wrappers

  class HeapDumpNode {
    const thing: Thing
    const edgeName: string
    var next: HeapDumpNode?
    var parent: HeapDumpNode?

    constructor (thing: Thing, edgeName: string, parent: HeapDumpNode?)
      ensures this.thing == thing && this.edgeName == edgeName
      ensures this.parent == parent && next == null
    {
      this.thing, this.edgeName, this.parent, this.next := thing, edgeName, parent, null;
    }
  }

  function Edges(nodes: seq<HeapDumpNode>): (r: seq<Edge>)
    ensures |r| == |nodes|
  {
    seq(|nodes|, i requires 0 <= i < |nodes| => Edge(nodes[i].thing, nodes[i].edgeName))
  }

  ghost predicate NoDuplicates(nodes: seq<HeapDumpNode>) {
    forall i, j :: 0 <= i < j < |nodes| ==> nodes[i] != nodes[j]
  }

  // ---- printing the chain of parents -------------------------------------------------------------------

  ghost function Above(chain: seq<HeapDumpNode>, i: int): HeapDumpNode? {
    if 0 <= i < |chain| - 1 then chain[i + 1] else null
  }

  /** A node, its parent, the parent's parent and so on up to a node without one. */
  ghost predicate IsChain(chain: seq<HeapDumpNode>)
    reads chain
  {
    && NoDuplicates(chain)
    && forall i {:trigger chain[i].parent} :: 0 <= i < |chain| ==> chain[i].parent == Above(chain, i)
  }

  ghost function Below(chain: seq<HeapDumpNode>, i: int): HeapDumpNode? {
    if 0 < i <= |chain| then chain[i - 1] else null
  }

  /** The first i nodes of the chain point back down it, the others still point up. */
  ghost predicate Turned(chain: seq<HeapDumpNode>, i: int)
    reads chain
  {
    && NoDuplicates(chain)
    && 0 <= i <= |chain|
    && (forall j {:trigger chain[j].parent} :: 0 <= j < i ==> chain[j].parent == Below(chain, j))
    && (forall j {:trigger chain[j].parent} :: i <= j < |chain| ==> chain[j].parent == Above(chain, j))
  }

  /** Turns the parent links round on the way up, as far as the limit allows. As many writes as room succeed. */
  method TurnChain(start: HeapDumpNode, room: nat, ghost chain: seq<HeapDumpNode>)
    returns (last: HeapDumpNode, following: HeapDumpNode?, cut: bool, ok: bool, left: nat)
    requires chain != [] && start == chain[0] && Turned(chain, 0)
    modifies chain`parent
    ensures cut == (|chain| > MAX_PARENTS_TO_PRINT + 1)
    ensures Turned(chain, Shown(|chain|))
    ensures last == chain[Shown(|chain|) - 1] && following == Above(chain, Shown(|chain|) - 1)
    ensures ok == (cut ==> room > 0) && (ok ==> left == if cut then room - 1 else room)
  {
    var chainLimit := MAX_PARENTS_TO_PRINT;
    var node: HeapDumpNode, prev: HeapDumpNode? := start, null;
    cut, ok, left := false, true, room;
    ghost var shown: nat := 0;
    while true
      invariant shown < |chain| && node == chain[shown] && prev == Below(chain, shown)
      invariant chainLimit == MAX_PARENTS_TO_PRINT - shown >= 0
      invariant Turned(chain, shown)
      decreases |chain| - shown
    {
      following := node.parent;
      node.parent := prev;
      prev := node;
      last := node;
      shown := shown + 1;
      if following == null {
        break;
      }
      node := following;
      if chainLimit == 0 {
        cut := true;
        if left == 0 {
          ok := false;
        } else {
          left := left - 1;
        }
        break;
      }
      chainLimit := chainLimit - 1;
    }
  }

  lemma ViaContinues(route: seq<Edge>, i: nat, via: seq<Piece>, piece: Piece)
    requires 0 < i <= |route|
    requires piece == PieceAt(route, i - 1)
    ensures via + [piece] + Via(route, i - 1) == via + Via(route, i)
    ensures via + [piece] + Via(route, 0) == via + [piece]
  {
  }

  /** Prints each node of a turned chain while writing succeeds, and turns its link back in any case. */
  method PrintChain(last: HeapDumpNode, above: HeapDumpNode?, room: nat, ghost chain: seq<HeapDumpNode>,
                    ghost shown: nat)
    returns (via: seq<Piece>, ok: bool, left: nat)
    requires 0 < shown <= |chain| && Turned(chain, shown)
    requires last == chain[shown - 1] && above == Above(chain, shown - 1)
    modifies chain`parent
    ensures ok <==> room >= shown
    ensures ok ==> left == room - shown && via == Via(Edges(chain), shown)
    ensures Turned(chain, 0)
  {
    hide Via;
    var node: HeapDumpNode, prev := last, above;
    ghost var i := shown;
    via, ok, left := [], true, room;
    while true
      invariant 0 < i <= shown && node == chain[i - 1] && prev == Above(chain, i - 1)
      invariant Turned(chain, i)
      invariant if ok then left == room - (shown - i) else room < shown
      invariant ok ==> via + Via(Edges(chain), i) == Via(Edges(chain), shown)
      decreases i
    {
      if ok && left == 0 {
        ok := false;
      }
      if ok {
        var piece := if prev == null then FromRoot(node.edgeName) else From(prev.thing, node.edgeName);
        ViaContinues(Edges(chain), i, via, piece);
        via, left := via + [piece], left - 1;
      }
      var following := node.parent;
      node.parent := prev;
      prev := node;
      i := i - 1;
      if following == null {
        break;
      }
      node := following;
    }
  }

  /**
   * Prints the chain outermost node first, in one pass up and one pass down, of whose writes the first room succeed.
   * The parent links are afterwards as they were, unless the one write between the passes fails: then the links that
   * have been turned stay so.
   */
  method DumpNode(start: HeapDumpNode, room: nat, ghost chain: seq<HeapDumpNode>)
    returns (ok: bool, line: Line, left: nat)
    requires chain != [] && start == chain[0] && IsChain(chain)
    modifies chain`parent
    ensures ok <==> room >= Writes(|chain|)
    ensures ok ==> line == LineOf(Edges(chain)) && left == room - Writes(|chain|)
    ensures (forall n :: n in chain ==> n.parent == old(n.parent)) <==> !DotsFail(|chain|, room)
    ensures Turned(chain, if DotsFail(|chain|, room) then Shown(|chain|) else 0)
  {
    line, left := Line(start.thing, false, []), 0;
    if room == 0 {
      return false, line, 0;
    }
    var last, following, cut, turned, unused := TurnChain(start, room - 1, chain);
    if !turned {
      assert start.parent != old(start.parent);
      return false, line, 0;
    }
    var via, printed, rest := PrintChain(last, following, unused, chain, Shown(|chain|));
    ok := printed && rest > 0;
    line := Line(start.thing, cut, via);
    left := if ok then rest - 1 else 0;
  }

  // ---- the stack in the nodes --------------------------------------------------------------------------

  /**
   * The nodes the walk holds, innermost level first: the node it is at, followed by the siblings still to come. The
   * nodes it is at, from the innermost out, are the chain of parents.
   */
  datatype Levels = Outside | Level(row: seq<HeapDumpNode>, outer: Levels)

  ghost function Members(row: seq<HeapDumpNode>): set<HeapDumpNode> {
    set n | n in row
  }

  ghost function Nodes(levels: Levels): set<HeapDumpNode> {
    match levels
    case Outside => {}
    case Level(row, outer) => Members(row) + Nodes(outer)
  }

  ghost function Depth(levels: Levels): nat {
    match levels
    case Outside => 0
    case Level(_, outer) => 1 + Depth(outer)
  }

  /** The node the walk is at on the innermost level. */
  ghost function Current(levels: Levels): HeapDumpNode? {
    if levels.Outside? || levels.row == [] then null else levels.row[0]
  }

  /** Siblings linked to one another, below one parent. */
  ghost predicate Row(row: seq<HeapDumpNode>, parent: HeapDumpNode?)
    reads row
  {
    && NoDuplicates(row)
    && forall i {:trigger row[i].next} {:trigger row[i].parent} :: 0 <= i < |row| ==>
         row[i].next == Above(row, i) && row[i].parent == parent
  }

  ghost predicate Linked(levels: Levels)
    reads Nodes(levels)
  {
    match levels
    case Outside => true
    case Level(row, outer) =>
      && row != []
      && Members(row) !! Nodes(outer)
      && Row(row, Current(outer))
      && Linked(outer)
  }

  /** The node the walk is at and its parents. */
  ghost function ChainOf(levels: Levels): seq<HeapDumpNode> {
    match levels
    case Outside => []
    case Level(row, outer) => row[..if row == [] then 0 else 1] + ChainOf(outer)
  }

  /** What is left when the walk leaves the node it is at: its sibling, or else the parent's, and so on up. */
  ghost function Advance(levels: Levels): Levels {
    match levels
    case Outside => Outside
    case Level(row, outer) => if |row| > 1 then Level(row[1..], outer) else Advance(outer)
  }

  /** The edges still to come, level by level. */
  ghost function RowsOf(levels: Levels): seq<seq<Edge>> {
    match levels
    case Outside => []
    case Level(row, outer) => [Edges(row)] + RowsOf(outer)
  }

  /** Where the edges of a level start. */
  ghost function SourceOf(outer: Levels): Option<Thing> {
    if Current(outer) == null then None else Some(Current(outer).thing)
  }

  /** The edges still to come after those of the nodes the walk is at. */
  ghost function RestRefs(levels: Levels): seq<Ref> {
    match levels
    case Outside => []
    case Level(row, outer) => RefsFrom(SourceOf(outer), Edges(row[if row == [] then 0 else 1..])) + RestRefs(outer)
  }

  /** The edge of the node the walk is at, and all still to come. */
  ghost function RefsOf(levels: Levels): seq<Ref> {
    match levels
    case Outside => []
    case Level(row, outer) => RefsFrom(SourceOf(outer), Edges(row)) + RestRefs(outer)
  }

  ghost function CurrentRef(levels: Levels): Ref
    requires Current(levels) != null
  {
    Ref(SourceOf(levels.outer), Edge(Current(levels).thing, Current(levels).edgeName))
  }

  ghost function EdgesBelow(q: Query, parent: HeapDumpNode?): seq<Edge> {
    if parent == null then Roots(q) else Children(q, parent.thing)
  }

  ghost predicate GenuineRow(q: Query, row: seq<HeapDumpNode>, parent: HeapDumpNode?) {
    && |row| <= |EdgesBelow(q, parent)|
    && forall e :: e in Edges(row) ==> e.thing != q.ignore && e in EdgesBelow(q, parent)
  }

  /** Every node stands for an edge out of the thing that its parent stands for, and not to the thing to be ignored. */
  ghost predicate Genuine(q: Query, levels: Levels) {
    match levels
    case Outside => true
    case Level(row, outer) => GenuineRow(q, row, Current(outer)) && Genuine(q, outer)
  }

  predicate LeadsOut(q: Query, route: seq<Edge>, i: nat)
    requires i < |route| - 1
  {
    route[i] in Children(q, route[i + 1].thing)
  }

  /** A way out from a thing to the roots, edge by edge. */
  ghost predicate IsRoute(q: Query, route: seq<Edge>) {
    && route != []
    && route[|route| - 1] in Roots(q)
    && (forall e :: e in route ==> e.thing != q.ignore)
    && forall i :: 0 <= i < |route| - 1 ==> LeadsOut(q, route, i)
  }

  /** The line shows a real way by which its thing is reached. */
  ghost predicate Explained(q: Query, line: Line) {
    && (q.find != 0 ==> line.thing == q.find)
    && exists route :: IsRoute(q, route) && line == LineOf(route)
  }

  /** What the edge of a piece leads to: the thing of the next piece, or the one that is shown. */
  function LeadsTo(line: Line, i: nat): Thing
    requires i < |line.via| && (i < |line.via| - 1 ==> line.via[i + 1].From?)
  {
    if i == |line.via| - 1 then line.thing else line.via[i + 1].thing
  }

  /**
   * A line can be read back: each piece but the first starts at a thing, and is an edge of the heap to the thing of the
   * next piece, the last one to the thing shown. The line is marked as cut exactly when the first piece does not start
   * at a root, and then shows eleven edges; otherwise at most eleven.
   */
  ghost predicate Reads(q: Query, line: Line) {
    && 1 <= |line.via| <= 11
    && (line.cut <==> line.via[0].From?)
    && (line.cut ==> |line.via| == 11)
    && (forall i :: 0 < i < |line.via| ==> line.via[i].From?)
    && forall i :: 0 <= i < |line.via| ==>
         match line.via[i]
         case FromRoot(name) =>
           if q.start == 0 then Edge(LeadsTo(line, i), name) in q.runtimeRoots
           else q.start in q.children && Edge(LeadsTo(line, i), name) in q.children[q.start]
         case From(thing, name) => thing in q.children && Edge(LeadsTo(line, i), name) in q.children[thing]
  }

  lemma {:induction false} ViaAt(route: seq<Edge>, shown: nat)
    requires shown <= |route|
    ensures |Via(route, shown)| == shown
    ensures forall i :: 0 <= i < shown ==> Via(route, shown)[i] == PieceAt(route, shown - 1 - i)
  {
    if shown == 0 {
    } else {
      ViaAt(route, shown - 1);
    }
  }

  /** The line of a way through the heap tells just that way, from the thing shown back to the root or the cut. */
  lemma LineReads(q: Query, route: seq<Edge>)
    requires IsRoute(q, route)
    ensures Reads(q, LineOf(route))
  {
    var line, n := LineOf(route), |LineOf(route).via|;
    ViaAt(route, Shown(|route|));
    hide Via;
    forall i | 0 <= i < n
      ensures i > 0 ==> line.via[i].From?
      ensures match line.via[i]
              case FromRoot(name) => Edge(LeadsTo(line, i), name) in Roots(q)
              case From(thing, name) => Edge(LeadsTo(line, i), name) in Children(q, thing)
    {
      var k := n - 1 - i;
      assert line.via[i] == PieceAt(route, k);
      assert i < n - 1 ==> line.via[i + 1] == PieceAt(route, k - 1);
      assert route[k] == Edge(LeadsTo(line, i), route[k].name);
      if k < |route| - 1 {
        assert LeadsOut(q, route, k);
      }
    }
  }

  lemma OnlyWhatIsLookedFor(q: Query, output: seq<Line>)
    requires forall line :: line in output ==> Explained(q, line)
    ensures forall line :: line in output && q.find != 0 ==> line.thing == q.find
  {
    hide IsRoute;
  }

  lemma LinesRead(q: Query, output: seq<Line>)
    requires forall line :: line in output ==> Explained(q, line)
    ensures forall line :: line in output ==> Reads(q, line)
  {
    hide Reads, LineOf;
    forall line | line in output
      ensures Reads(q, line)
    {
      assert Explained(q, line);
      var route :| IsRoute(q, route) && line == LineOf(route);
      LineReads(q, route);
    }
  }

  /** What a line ends with: the last edge of the way. */
  function PieceOf(ref: Ref): Piece {
    if ref.source.None? then FromRoot(ref.edge.name) else From(ref.source.value, ref.edge.name)
  }

  function Last(via: seq<Piece>): Option<Piece> {
    if via == [] then None else Some(via[|via| - 1])
  }

  /** Some line shows the thing reached by this edge. */
  ghost predicate Showing(output: seq<Line>, ref: Ref) {
    exists line :: line in output && line.thing == ref.edge.thing && Last(line.via) == Some(PieceOf(ref))
  }

  lemma {:induction false} ChainIsChain(levels: Levels)
    requires Linked(levels)
    ensures IsChain(ChainOf(levels))
    ensures Members(ChainOf(levels)) <= Nodes(levels)
    ensures |ChainOf(levels)| == Depth(levels)
    ensures levels.Level? ==> ChainOf(levels)[0] == Current(levels)
  {
    match levels
    case Outside =>
    case Level(row, outer) =>
      ChainIsChain(outer);
      var chain, up := ChainOf(levels), ChainOf(outer);
      assert chain == [row[0]] + up;
      assert row[0].parent == Current(outer) && row[0] in Members(row);
      assert NoDuplicates(chain) by {
        assert forall n :: n in up ==> n in Members(up);
      }
      forall i | 0 <= i < |chain|
        ensures chain[i].parent == Above(chain, i)
      {
        if i > 0 {
          assert chain[i] == up[i - 1] && up[i - 1].parent == Above(up, i - 1);
        }
      }
  }

  lemma LongerRoute(q: Query, e: Edge, route: seq<Edge>)
    requires e.thing != q.ignore
    requires if route == [] then e in Roots(q) else IsRoute(q, route) && e in Children(q, route[0].thing)
    ensures IsRoute(q, [e] + route)
  {
    var longer := [e] + route;
    forall i | 0 <= i < |longer| - 1
      ensures LeadsOut(q, longer, i)
    {
      if i > 0 {
        assert LeadsOut(q, route, i - 1);
      }
    }
  }

  lemma {:induction false} ChainIsRoute(q: Query, levels: Levels)
    requires Linked(levels) && Genuine(q, levels) && levels.Level?
    ensures IsRoute(q, Edges(ChainOf(levels)))
  {
    hide IsRoute, IsChain, Row;
    var row, outer := levels.row, levels.outer;
    var up := Edges(ChainOf(outer));
    var first := Edges(row)[0];
    assert first in Edges(row);
    assert Edges(ChainOf(levels)) == [first] + up;
    if outer.Level? {
      ChainIsRoute(q, outer);
      assert up[0].thing == Current(outer).thing;
    }
    LongerRoute(q, first, up);
  }

  lemma TailIsGenuine(q: Query, row: seq<HeapDumpNode>, parent: HeapDumpNode?)
    requires row != [] && GenuineRow(q, row, parent)
    ensures GenuineRow(q, row[1..], parent)
  {
    forall e | e in Edges(row[1..])
      ensures e in Edges(row)
    {
      var i :| 0 <= i < |row| - 1 && Edges(row[1..])[i] == e;
      assert Edges(row)[i + 1] == e;
    }
  }

  lemma JoinRefs(first: Ref, row: seq<Ref>, rest: seq<Ref>)
    ensures [first] + row + rest == [first] + (row + rest)
  {
  }

  lemma RowBegins(row: seq<HeapDumpNode>, source: Option<Thing>)
    requires row != []
    ensures RefsFrom(source, Edges(row))
         == [Ref(source, Edge(row[0].thing, row[0].edgeName))] + RefsFrom(source, Edges(row[1..]))
  {
  }

  lemma RefsBegin(levels: Levels)
    requires levels.Level? && levels.row != []
    ensures RefsOf(levels) == [CurrentRef(levels)] + RestRefs(levels)
  {
    var row, outer, source := levels.row, levels.outer, SourceOf(levels.outer);
    assert row != [] && CurrentRef(levels) == Ref(source, Edge(row[0].thing, row[0].edgeName));
    RowBegins(row, source);
    hide RefsFrom, Linked, Edges, CurrentRef, SourceOf, Current;
    JoinRefs(CurrentRef(levels), RefsFrom(source, Edges(row[1..])), RestRefs(outer));
  }

  // ---- the stack with links left turned ----------------------------------------------------------------

  /** Siblings linked to one another, below one parent, but the first one's parent link may be another. */
  ghost predicate RowAfter(row: seq<HeapDumpNode>, parent: HeapDumpNode?, first: HeapDumpNode?)
    reads row
  {
    && NoDuplicates(row)
    && forall i {:trigger row[i].next} {:trigger row[i].parent} :: 0 <= i < |row| ==>
         row[i].next == Above(row, i) && row[i].parent == if i == 0 then first else parent
  }

  ghost function Rest(heads: seq<HeapDumpNode?>): (rest: seq<HeapDumpNode?>)
    ensures heads == [] ==> rest == []
  {
    if heads == [] then [] else heads[1..]
  }

  ghost function HeadLink(heads: seq<HeapDumpNode?>, parent: HeapDumpNode?): HeapDumpNode? {
    if heads == [] then parent else heads[0]
  }

  /** On the first levels, heads are the parent links of the nodes the walk is at; all other links are in order. */
  ghost predicate Bent(levels: Levels, heads: seq<HeapDumpNode?>)
    reads Nodes(levels)
  {
    match levels
    case Outside => true
    case Level(row, outer) =>
      && row != []
      && Members(row) !! Nodes(outer)
      && RowAfter(row, Current(outer), HeadLink(heads, Current(outer)))
      && Bent(outer, Rest(heads))
  }

  /** A link out of order leads nowhere, or to a node that is gone by the time the walk follows the link. */
  ghost predicate Stale(levels: Levels, heads: seq<HeapDumpNode?>, gone: set<HeapDumpNode>) {
    match levels
    case Outside => true
    case Level(row, outer) =>
      heads != [] ==>
        && (heads[0] == null || (outer.Level? && (heads[0] == Current(outer) || heads[0] in gone)))
        && Stale(outer, heads[1..], gone + Members(row))
  }

  /** How many nodes the levels hold. */
  ghost function Total(levels: Levels): nat {
    Sum(WidthsOf(RowsOf(levels)))
  }

  /** Where the walk comes to with these links: it follows those of the nodes that are the last of their row. */
  ghost function Fate(levels: Levels, heads: seq<HeapDumpNode?>): Outcome {
    if heads == [] then ALL_FREED else
    match levels
    case Outside => ALL_FREED
    case Level(row, outer) =>
      if |row| == 1 && heads[0] != Current(outer)
      then Outcome(if heads[0] == null then StopsShort else Dangles, Total(outer))
      else Fate(outer, heads[1..])
  }

  /** The parent links of the nodes the walk is at after the chain has been turned on the first n levels. */
  ghost function TurnedHeads(levels: Levels, below: HeapDumpNode?, n: nat): seq<HeapDumpNode?> {
    if n == 0 || levels.Outside? then [] else [below] + TurnedHeads(levels.outer, Current(levels), n - 1)
  }

  /** Going on from node to node, the walk comes to the edges still to come, in order. */
  lemma {:induction false} AdvanceIsRest(levels: Levels, heads: seq<HeapDumpNode?>)
    requires Bent(levels, heads)
    ensures RefsOf(Advance(levels)) == RestRefs(levels)
    ensures Depth(Advance(levels)) <= Depth(levels)
    ensures Nodes(Advance(levels)) <= Nodes(levels)
    ensures Current(Advance(levels)) == null <==> Advance(levels).Outside?
  {
    match levels
    case Outside =>
    case Level(row, outer) =>
      if |row| <= 1 {
        AdvanceIsRest(outer, Rest(heads));
        assert RefsFrom(SourceOf(outer), Edges(row[1..])) == [];
      }
  }

  lemma {:induction false} AdvanceIsOnward(levels: Levels)
    ensures RowsOf(Advance(levels)) == Onward(RowsOf(levels))
  {
    match levels
    case Outside =>
    case Level(row, outer) =>
      assert RowsOf(levels)[1..] == RowsOf(outer);
      if |row| <= 1 {
        AdvanceIsOnward(outer);
      } else {
        assert Edges(row[1..]) == Edges(row)[1..];
      }
  }

  lemma {:induction false} LinkedIsBent(levels: Levels)
    ensures Linked(levels) <==> Bent(levels, [])
    ensures Fate(levels, []) == ALL_FREED
  {
    if levels.Outside? {
    } else {
      LinkedIsBent(levels.outer);
    }
  }

  lemma StraightFate(levels: Levels)
    ensures Fate(levels, []) == FateOf([]) == ALL_FREED
    ensures forall gone :: Stale(levels, [], gone)
  {
  }

  lemma BentBegins(levels: Levels, heads: seq<HeapDumpNode?>)
    requires Bent(levels, heads) && levels.Level?
    ensures levels.row != [] && RowsOf(levels) != [] && |RowsOf(levels)[0]| == |levels.row|
    ensures RowsOf(levels)[0][0].thing == levels.row[0].thing
  {
  }

  lemma {:induction false} RowsAreEdges(levels: Levels)
    requires Linked(levels)
    ensures |RowsOf(levels)| == Depth(levels) && RouteOf(RowsOf(levels)) == Edges(ChainOf(levels))
  {
    match levels
    case Outside =>
    case Level(row, outer) =>
      RowsAreEdges(outer);
      assert ChainOf(levels) == [row[0]] + ChainOf(outer);
      assert RowsOf(levels)[1..] == RowsOf(outer);
      assert Edges(row)[..1] == [Edges(row)[0]];
  }

  /** The first n nodes that the walk is at have these parent links. */
  ghost predicate HeadsAre(levels: Levels, heads: seq<HeapDumpNode?>)
    reads Nodes(levels)
  {
    heads != [] && levels.Level? && levels.row != [] ==>
      levels.row[0].parent == heads[0] && HeadsAre(levels.outer, heads[1..])
  }

  /** The nodes the walk is at on the first n levels. */
  ghost function Firsts(levels: Levels, n: nat): set<HeapDumpNode> {
    if n == 0 || levels.Outside? || levels.row == [] then {} else {levels.row[0]} + Firsts(levels.outer, n - 1)
  }

  lemma {:induction false} FirstsAreHeld(levels: Levels, n: nat)
    ensures Firsts(levels, n) <= Nodes(levels)
  {
    if n > 0 && levels.Level? {
      FirstsAreHeld(levels.outer, n - 1);
    }
  }

  /** Turning the chain bends the levels. */
  twostate lemma {:induction false} TurningBends(levels: Levels, new heads: seq<HeapDumpNode?>)
    requires old(Linked(levels)) && HeadsAre(levels, heads)
    requires forall x :: x in Nodes(levels) && old(allocated(x)) ==>
               x.next == old(x.next) && (x in Firsts(levels, |heads|) || x.parent == old(x.parent))
    ensures Bent(levels, heads)
  {
    match levels
    case Outside =>
    case Level(row, outer) =>
      FirstsAreHeld(outer, if heads == [] then 0 else |heads| - 1);
      assert forall i :: 0 <= i < |row| ==> row[i] in Members(row);
      TurningBends(outer, Rest(heads));
  }

  lemma {:induction false} HowManyHeads(levels: Levels, below: HeapDumpNode?, n: nat)
    requires n <= |ChainOf(levels)|
    ensures |TurnedHeads(levels, below, n)| == n
  {
    if n == 0 {
    } else {
      HowManyHeads(levels.outer, Current(levels), n - 1);
    }
  }

  lemma {:induction false} ChainIsFirsts(levels: Levels, n: nat)
    requires Linked(levels) && n <= |ChainOf(levels)|
    ensures |TurnedHeads(levels, null, n)| == n
    ensures forall i :: 0 <= i < n ==> ChainOf(levels)[i] in Firsts(levels, n)
  {
    HowManyHeads(levels, null, n);
    if n > 0 {
      assert ChainOf(levels) == [levels.row[0]] + ChainOf(levels.outer);
      ChainIsFirsts(levels.outer, n - 1);
    }
  }

  lemma {:induction false} HeadsAreTurned(levels: Levels, chain: seq<HeapDumpNode>, below: HeapDumpNode?, n: nat)
    requires chain == ChainOf(levels) && n <= |chain|
    requires forall i {:trigger chain[i].parent} ::
               0 <= i < n ==> chain[i].parent == if i == 0 then below else chain[i - 1]
    ensures HeadsAre(levels, TurnedHeads(levels, below, n))
  {
    if n > 0 && levels.row != [] {
      var up := ChainOf(levels.outer);
      assert chain == [levels.row[0]] + up && chain[0].parent == below;
      forall i {:trigger up[i].parent} | 0 <= i < n - 1
        ensures up[i].parent == if i == 0 then levels.row[0] else up[i - 1]
      {
        assert up[i] == chain[i + 1] && chain[i + 1].parent == chain[i];
      }
      HeadsAreTurned(levels.outer, up, levels.row[0], n - 1);
    }
  }

  lemma {:induction false} TurnedIsStale(levels: Levels, below: HeapDumpNode?, n: nat, gone: set<HeapDumpNode>)
    requires Linked(levels) && n < Depth(levels) && (below == null || below in gone)
    ensures Stale(levels, TurnedHeads(levels, below, n), gone)
  {
    if n == 0 {
    } else {
      assert levels.row[0] in Members(levels.row);
      TurnedIsStale(levels.outer, levels.row[0], n - 1, gone + Members(levels.row));
    }
  }

  /** What becomes of the walk is told by the number of nodes left on each level. */
  lemma {:induction false} TurnedFate(levels: Levels, below: HeapDumpNode?, n: nat)
    requires Linked(levels) && n < Depth(levels) && (below == null || below !in Nodes(levels))
    ensures Fate(levels, TurnedHeads(levels, below, n)) == FateWithin(WidthsOf(RowsOf(levels)), n, below == null)
  {
    if n == 0 {
    } else {
      var row, outer := levels.row, levels.outer;
      var widths, heads := WidthsOf(RowsOf(levels)), TurnedHeads(levels, below, n);
      assert row[0] in Members(row) && Current(outer) in Nodes(outer);
      TurnedFate(outer, row[0], n - 1);
      assert RowsOf(levels)[1..] == RowsOf(outer);
      assert widths[0] == |row| && widths[1..] == WidthsOf(RowsOf(outer));
      assert heads[0] == below != Current(outer) && heads[1..] == TurnedHeads(outer, row[0], n - 1);
    }
  }

  lemma {:induction false} HowManyMembers(row: seq<HeapDumpNode>)
    requires NoDuplicates(row)
    ensures |Members(row)| == |row|
  {
    if row == [] {
    } else {
      var front, last := row[..|row| - 1], row[|row| - 1];
      HowManyMembers(front);
      assert row == front + [last];
      assert Members(row) == Members(front) + {last};
    }
  }

  lemma {:induction false} HowManyNodes(levels: Levels, heads: seq<HeapDumpNode?>)
    requires Bent(levels, heads)
    ensures |Nodes(levels)| == Total(levels)
  {
    match levels
    case Outside =>
    case Level(row, outer) =>
      HowManyMembers(row);
      HowManyNodes(outer, Rest(heads));
      var widths := WidthsOf(RowsOf(levels));
      assert RowsOf(levels)[1..] == RowsOf(outer);
      assert widths[0] == |row| && widths[1..] == WidthsOf(RowsOf(outer));
  }

  // ---- the tracer --------------------------------------------------------------------------------------

  lemma RefsOfRow(row: seq<HeapDumpNode>, outer: Levels)
    ensures RefsOf(Level(row, outer)) == RefsFrom(SourceOf(outer), Edges(row)) + RestRefs(outer)
    ensures row == [] ==> RefsFrom(SourceOf(outer), Edges(row)) == []
    ensures RestRefs(Outside) == [] && SourceOf(Outside) == None
  {
  }

  lemma RowIsNotNull(q: Query, row: seq<HeapDumpNode>, outer: Levels)
    requires Proper(q) && GenuineRow(q, row, Current(outer))
    ensures 0 !in Things(Edges(row))
  {
    forall i | 0 <= i < |row|
      ensures row[i].thing != 0
    {
      assert Edges(row)[i] in Edges(row);
    }
  }

  lemma {:induction false} RefsAreNotNull(q: Query, levels: Levels)
    requires Proper(q) && Linked(levels) && Genuine(q, levels)
    ensures 0 !in ThingsOf(RefsOf(levels)) && 0 !in ThingsOf(RestRefs(levels))
  {
    match levels
    case Outside =>
    case Level(row, outer) =>
      RefsAreNotNull(q, outer);
      TailIsGenuine(q, row, Current(outer));
      RowIsNotNull(q, row, outer);
      RowIsNotNull(q, row[1..], outer);
      ThingsOfRefs(SourceOf(outer), Edges(row), RestRefs(outer));
      ThingsOfRefs(SourceOf(outer), Edges(row[1..]), RestRefs(outer));
  }

  lemma {:induction false} ViaEnds(route: seq<Edge>, shown: nat)
    requires 0 < shown <= |route|
    ensures Last(Via(route, shown)) == Some(PieceAt(route, 0))
  {
    if shown <= 1 {
    } else {
      ViaEnds(route, shown - 1);
    }
  }

  lemma LineShows(q: Query, levels: Levels, line: Line, output: seq<Line>)
    requires Linked(levels) && Genuine(q, levels) && levels.Level? && ChainOf(levels) != []
    requires line == LineOf(Edges(ChainOf(levels)))
    requires q.find == 0 || q.find == Current(levels).thing
    ensures Explained(q, line) && line.thing == Current(levels).thing
    ensures Showing(output + [line], CurrentRef(levels))
  {
    var chain := ChainOf(levels);
    var route := Edges(chain);
    ChainIsRoute(q, levels);
    ChainIsChain(levels);
    if levels.outer.Level? {
      ChainIsChain(levels.outer);
      assert chain[1] == Current(levels.outer);
    }
    ViaEnds(route, Shown(|route|));
    hide IsRoute, Via;
    assert PieceAt(route, 0) == PieceOf(CurrentRef(levels));
    assert line in output + [line];
  }

  lemma OutputGrows(output: seq<Line>, line: Line)
    ensures forall ref :: Showing(output, ref) ==> Showing(output + [line], ref)
  {
    forall ref | Showing(output, ref)
      ensures Showing(output + [line], ref)
    {
      var shower :| shower in output && shower.thing == ref.edge.thing && Last(shower.via) == Some(PieceOf(ref));
      assert shower in output + [line];
    }
  }

  /** Links that are as they were still hold the levels together. */
  twostate lemma LinkedAgain(levels: Levels)
    requires old(Linked(levels))
    requires forall n :: n in Nodes(levels) && old(allocated(n)) ==> n.next == old(n.next) && n.parent == old(n.parent)
    ensures Linked(levels)
  {
    match levels
    case Outside =>
    case Level(row, outer) =>
      LinkedAgain(outer);
      assert forall i :: 0 <= i < |row| ==> row[i] in Members(row);
  }

  /** The links once the walk has gone on in its row. */
  ghost function Straightened(outer: Levels, heads: seq<HeapDumpNode?>): (straight: seq<HeapDumpNode?>)
    ensures heads == [] ==> straight == []
  {
    if heads == [] then [] else [Current(outer)] + heads[1..]
  }

  lemma MembersOfTail(row: seq<HeapDumpNode>)
    requires row != [] && NoDuplicates(row)
    ensures Members(row[1..]) == Members(row) - {row[0]}
  {
    assert row == [row[0]] + row[1..];
  }

  lemma RowAfterTail(row: seq<HeapDumpNode>, parent: HeapDumpNode?, first: HeapDumpNode?)
    requires |row| > 1 && RowAfter(row, parent, first)
    ensures RowAfter(row[1..], parent, parent)
  {
    var tail := row[1..];
    forall i | 0 <= i < |tail|
      ensures tail[i].next == Above(tail, i) && tail[i].parent == parent
    {
      assert tail[i] == row[i + 1] && row[i + 1].next == Above(row, i + 1);
    }
  }

  /** What stays when the node the walk is at is taken away. */
  lemma FirstLeaves(q: Query, levels: Levels, heads: seq<HeapDumpNode?>, gone: set<HeapDumpNode>)
    requires Bent(levels, heads) && Stale(levels, heads, gone) && Genuine(q, levels) && levels.Level?
    ensures var (row, outer) := (levels.row, levels.outer);
            var (left, bends) := if |row| > 1 then (Level(row[1..], outer), Straightened(outer, heads))
                                 else (outer, Rest(heads));
            && Bent(left, bends)
            && Stale(left, bends, gone + {row[0]})
            && Genuine(q, left)
            && Nodes(left) == Nodes(levels) - {row[0]}
            && Advance(levels) == (if |row| > 1 then left else Advance(outer))
            && (if outer.Level? then Current(outer) != null && Current(outer) in Nodes(outer)
                else Advance(outer) == outer)
            && (|row| > 1 ==> Fate(left, bends) == Fate(levels, heads))
  {
    var row, outer := levels.row, levels.outer;
    if |row| > 1 {
      RowAfterTail(row, Current(outer), HeadLink(heads, Current(outer)));
      TailIsGenuine(q, row, Current(outer));
      MembersOfTail(row);
      assert gone + {row[0]} + Members(row[1..]) == gone + Members(row);
      assert heads != [] ==> Straightened(outer, heads)[1..] == heads[1..];
    } else {
      assert Members(row) == {row[0]};
    }
  }

  /** The links of the node the walk is at, and what comes of them. */
  lemma LinksOfFirst(levels: Levels, heads: seq<HeapDumpNode?>, gone: set<HeapDumpNode>)
    requires Bent(levels, heads) && Stale(levels, heads, gone) && levels.Level?
    ensures var (row, outer, link) := (levels.row, levels.outer, HeadLink(heads, Current(levels.outer)));
            && row != [] && row[0] in Nodes(levels) && row[0].next == Above(row, 0) && row[0].parent == link
            && (link == null || (outer.Level? && (link == Current(outer) || link in gone)))
            && (|row| == 1 ==> Fate(levels, heads) == if link == Current(outer) then Fate(outer, Rest(heads))
                                                     else Outcome(if link == null then StopsShort else Dangles,
                                                                  Total(outer)))
  {
    assert levels.row[0] in Members(levels.row);
  }

  lemma FateOutside(heads: seq<HeapDumpNode?>)
    ensures Fate(Outside, heads) == ALL_FREED && RowsOf(Outside) == [] && RefsOf(Outside) == [] && Nodes(Outside) == {}
  {
  }

  lemma Absorbs<T>(base: set<T>, small: set<T>, large: set<T>)
    requires small <= large
    ensures base + small + large == base + large
  {
  }

  class DumpingTracer {
    const query: Query
    var visited: set<Thing>
    var ok: bool
    var parentNode: HeapDumpNode?
    /** The list lastNodep appends to: its first node, and its last. */
    var children: HeapDumpNode?
    var lastNode: HeapDumpNode?
    var output: seq<Line>
    /** How many requests for memory, and how many writes, are still to succeed. */
    var memory: Supply
    var room: Supply
    /** The nodes that have been given back: following a link to one of them is the end of the walk. */
    var freed: set<HeapDumpNode>
    /** Every node there has been. */
    ghost var made: set<HeapDumpNode>
    /** How many nodes were left on each of the levels whose chain was left turned; none if no chain was. */
    ghost var torn: seq<nat>
    /** The edges to the thing looked for that have been printed. */
    ghost var shown: set<Ref>

    constructor (query: Query, memory: Supply, room: Supply)
      ensures this.query == query && visited == {} && ok && parentNode == null && output == []
      ensures this.memory == memory && this.room == room
      ensures made == freed == {} && shown == {} && torn == []
    {
      this.query, this.memory, this.room := query, memory, room;
      visited, ok, parentNode, output := {}, true, null, [];
      children, lastNode := null, null;
      made, freed, shown, torn := {}, {}, {}, [];
    }

    /** How many nodes there have been. */
    ghost function Count(): nat
      reads `made
    {
      |made|
    }

    /** The list consists of these nodes. */
    ghost predicate Lists(nodes: seq<HeapDumpNode>)
      reads `parentNode, `children, `lastNode, nodes
    {
      && Row(nodes, parentNode)
      && children == (if nodes == [] then null else nodes[0])
      && lastNode == (if nodes == [] then null else nodes[|nodes| - 1])
    }

    /** Makes a node and links it behind the last one. */
    method Append(e: Edge, ghost nodes: seq<HeapDumpNode>) returns (node: HeapDumpNode)
      requires Lists(nodes)
      modifies `children, `lastNode, `made
      modifies Members(nodes)`next
      ensures fresh(node) && node.thing == e.thing && node.edgeName == e.name
      ensures Lists(nodes + [node])
      ensures made == old(made) + {node} && Count() == old(Count()) + 1
    {
      node := new HeapDumpNode(e.thing, e.name, parentNode);
      made := made + {node};
      if lastNode == null {
        children := node;
      } else {
        assert lastNode in Members(nodes);
        lastNode.next := node;
      }
      lastNode := node;
      ghost var listed := nodes + [node];
      assert NoDuplicates(listed);
    }

    /** A request for memory. */
    method Request() returns (granted: bool)
      modifies `memory
      ensures granted == Suffices(old(memory), 1)
      ensures memory == if granted then Less(old(memory), 1) else old(memory)
    {
      granted := memory != Some(0);
      if granted && memory.Some? {
        memory := Some(memory.value - 1);
      }
    }

    /** Where the tracing has come to, if these nodes have been listed. */
    ghost function Tracings(nodes: seq<HeapDumpNode>): Tracing
      reads `visited, `memory, `ok
    {
      Tracing(visited, Edges(nodes), memory, ok)
    }

    method DumpNotify(e: Edge, ghost nodes: seq<HeapDumpNode>) returns (ghost listed: seq<HeapDumpNode>)
      requires Lists(nodes) && Members(nodes) <= made
      modifies `ok, `visited, `memory, `children, `lastNode, `made
      modifies Members(nodes)`next
      ensures Lists(listed)
      ensures Members(nodes) <= Members(listed) && fresh(Members(listed) - Members(nodes))
      ensures made == old(made) + Members(listed)
      ensures Count() - |listed| == old(Count()) - |nodes|
      ensures Tracings(listed) == Notify(query, old(Tracings(nodes)), e)
    {
      hide Count, Row;
      listed := nodes;
      if !ok || e.thing == query.ignore {
        return;
      }
      if query.find != e.thing {
        if e.thing == query.start {
          return;
        }
        var entered := Request();
        if !entered {
          ok := false;
          return;
        }
        if e.thing in visited {
          return;
        }
        visited := visited + {e.thing};
      }
      var granted := Request();
      if !granted {
        ok := false;
        return;
      }
      var node := Append(e, nodes);
      listed := nodes + [node];
      assert Edges(listed) == Edges(nodes) + [e];
    }

    method ClearList() returns (ghost listed: seq<HeapDumpNode>)
      modifies `children, `lastNode
      ensures Lists(listed) && listed == [] && Members(listed) == {}
    {
      children, lastNode := null, null;
      listed := [];
    }

    /** The edges are reported to DumpNotify one after another. */
    method NotifyOfAll(edges: seq<Edge>) returns (ghost listed: seq<HeapDumpNode>)
      modifies `ok, `visited, `memory, `children, `lastNode, `made
      ensures Lists(listed)
      ensures fresh(Members(listed))
      ensures made == old(made) + Members(listed) && Count() == old(Count()) + |listed|
      ensures Tracings(listed) == NotifyAll(query, old(Tracings([])), edges)
    {
      hide Notify, Count, Lists, Edges, Members, Tracings;
      listed := ClearList();
      for i := 0 to |edges|
        invariant Lists(listed)
        invariant fresh(Members(listed))
        invariant made == old(made) + Members(listed) && Count() == old(Count()) + |listed|
        invariant Tracings(listed) == NotifyAll(query, old(Tracings([])), edges[..i])
      {
        assert edges[..i + 1][..i] == edges[..i];
        ghost var before := Members(listed);
        listed := DumpNotify(edges[i], listed);
        Absorbs(old(made), before, Members(listed));
      }
      assert edges[..|edges|] == edges;
    }

    /** JS_TraceChildren and JS_TraceRuntime. */
    method Trace(edges: seq<Edge>) returns (ghost listed: seq<HeapDumpNode>)
      modifies `ok, `visited, `memory, `children, `lastNode, `made
      ensures Lists(listed)
      ensures fresh(Members(listed))
      ensures made == old(made) + Members(listed) && Count() == old(Count()) + |listed|
      ensures Tracings(listed) == NotifyAll(query, old(Tracings([])), edges)
      ensures |listed| <= |edges|
      ensures forall e :: e in Edges(listed) ==> e in edges && e.thing != query.ignore
      ensures ok ==> old(ok) && visited == Marked(query, old(visited), edges)
                     && Edges(listed) == Wanted(query, old(visited), edges)
    {
      hide NotifyAll, Marked, Wanted, Lists, Edges, Count;
      NotifyAllFacts(query, Tracings([]), edges);
      listed := NotifyOfAll(edges);
    }

    method Free(node: HeapDumpNode)
      requires node in made && node !in freed
      modifies `freed
      ensures freed == old(freed) + {node}
    {
      freed := freed + {node};
    }

    /** The tracer's nodes are those of the levels, and no others are left. */
    ghost predicate Holds(levels: Levels)
      reads this, Nodes(levels)
    {
      && Linked(levels)
      && Genuine(query, levels)
      && made == freed + Nodes(levels)
      && freed !! Nodes(levels)
    }

    /** The same when some of the links may have been left turned, which decides how the walk will end. */
    ghost predicate Hangs(levels: Levels, heads: seq<HeapDumpNode?>)
      reads this, Nodes(levels)
    {
      && Bent(levels, heads)
      && Stale(levels, heads, freed)
      && Genuine(query, levels)
      && made == freed + Nodes(levels)
      && freed !! Nodes(levels)
      && Fate(levels, heads) == FateOf(torn)
    }

    /** The walk on values that this one has come to. */
    ghost function State(levels: Levels, findTraced: bool): Walk
      reads `visited, `ok, `memory, `room, `output, `torn, `made
    {
      Walk(visited, ok, RowsOf(levels), findTraced, memory, room, output, torn, Count())
    }

    /** When something has failed, what is still to be visited does not matter. */
    ghost predicate Matches(s: Walk, levels: Levels, findTraced: bool)
      reads `visited, `ok, `memory, `room, `output, `torn, `made
    {
      if ok then s == State(levels, findTraced)
      else !s.ok && s.output == output && s.torn == torn && s.made == Count() && s.memory == memory && s.room == room
    }

    /** The walk has gone wrong, as it was bound to, and leaves as many nodes as it was bound to leave. */
    ghost predicate Abandons(ending: Ending)
      reads `torn, `made, `freed
    {
      ending == FateOf(torn).ending && freed < made && |made - freed| == FateOf(torn).left
    }

    /** What is outside the last node freed is left. */
    lemma OutsideIsLeft(ending: Ending, outer: Levels, heads: seq<HeapDumpNode?>)
      requires Bent(outer, heads) && Current(outer) != null && Current(outer) in Nodes(outer)
      requires made == freed + Nodes(outer) && freed !! Nodes(outer)
      requires FateOf(torn) == Outcome(ending, Total(outer))
      ensures Abandons(ending)
    {
      HowManyNodes(outer, heads);
      assert made - freed == Nodes(outer);
    }

    /** Without turned links the two are one. */
    lemma HangsStraight(levels: Levels)
      requires torn == []
      ensures Holds(levels) <==> Hangs(levels, [])
    {
      LinkedIsBent(levels);
    }

    /** What the walk has come to, as long as nothing has failed. */
    ghost predicate Searches(maxDepth: nat, levels: Levels, done: set<Thing>, findTraced: bool)
      reads `visited, `output, `shown
    {
      Progress(query, maxDepth, visited, done, findTraced, Depth(levels), RefsOf(levels), Printed(output), shown)
    }

    ghost predicate Explains()
      reads `output, `shown
    {
      && (forall line :: line in output ==> Explained(query, line))
      && (forall ref :: ref in shown ==> Showing(output, ref))
    }

    /** Writes the line of the node the walk is at, as far as that many writes go. */
    method DumpWithin(node: HeapDumpNode, enough: nat, ghost levels: Levels)
      returns (ok: bool, line: Line, left: nat, ghost heads: seq<HeapDumpNode?>, ghost widths: seq<nat>)
      requires Linked(levels) && levels.Level? && node == Current(levels)
      modifies Nodes(levels)`parent
      ensures Bent(levels, heads) && Stale(levels, heads, freed) && Fate(levels, heads) == FateOf(widths)
      ensures ok == (enough >= Writes(Depth(levels))) && (ok ==> left == enough - Writes(Depth(levels)))
      ensures widths == if DotsFail(Depth(levels), enough) then WidthsOf(RowsOf(levels)) else []
      ensures widths == [] <==> heads == []
      ensures ok ==> line == LineOf(Edges(ChainOf(levels)))
    {
      hide LineOf, Linked, Bent, Stale, Fate, Firsts, HeadsAre, TurnedHeads, WidthsOf, RowsOf, Edges, IsChain;
      hide FateWithin, Depth, Writes;
      ghost var chain := ChainOf(levels);
      ChainIsChain(levels);
      RowsAreEdges(levels);
      LinkedIsBent(levels);
      StraightFate(levels);
      ghost var n := Shown(|chain|);
      ChainIsFirsts(levels, n);
      if n < |chain| {
        TurnedIsStale(levels, null, n, freed);
        TurnedFate(levels, null, n);
      }
      ok, line, left := DumpNode(node, enough, chain);
      heads, widths := [], [];
      if DotsFail(|chain|, enough) {
        heads, widths := TurnedHeads(levels, null, n), WidthsOf(RowsOf(levels));
        HeadsAreTurned(levels, chain, null, n);
        TurningBends(levels, heads);
      } else {
        LinkedAgain(levels);
        LinkedIsBent(levels);
      }
    }

    /** Writes the line of the node the walk is at, as far as writing succeeds. */
    method DumpCurrent(node: HeapDumpNode, ghost levels: Levels)
      returns (ok: bool, line: Line, ghost heads: seq<HeapDumpNode?>, ghost widths: seq<nat>)
      requires Linked(levels) && levels.Level? && node == Current(levels)
      modifies `room, Nodes(levels)`parent
      ensures Bent(levels, heads) && Stale(levels, heads, freed) && Fate(levels, heads) == FateOf(widths)
      ensures var n := Depth(levels);
              && ok == Suffices(old(room), Writes(n))
              && room == (if ok then Less(old(room), Writes(n)) else Some(0))
              && widths == if !ok && DotsFail(n, old(room).value) then WidthsOf(RowsOf(levels)) else []
      ensures widths == [] <==> heads == []
      ensures ok ==> line == LineOf(Edges(ChainOf(levels)))
    {
      hide LineOf, Linked, Bent, Stale, Fate, FateOf, WidthsOf, RowsOf, Edges, ChainOf, Depth;
      var enough := if room.None? then Writes(MAX_PARENTS_TO_PRINT + 2) else room.value;
      var left;
      ok, line, left, heads, widths := DumpWithin(node, enough, levels);
      if room.Some? || !ok {
        room := Some(if ok then left else 0);
      }
    }

    /** Prints the node the walk is at, if writing succeeds. */
    method PrintCurrent(node: HeapDumpNode, ghost levels: Levels, ghost findTraced: bool)
      returns (ghost heads: seq<HeapDumpNode?>)
      requires Holds(levels) && levels.Level? && node == Current(levels) && Explains()
      requires ok && torn == []
      requires query.find == 0 || query.find == node.thing
      modifies `ok, `room, `output, `shown, `torn, Nodes(levels)`parent
      ensures Hangs(levels, heads) && Explains()
      ensures !Finished(old(State(levels, findTraced)))
      ensures State(levels, findTraced) == PrintLine(old(State(levels, findTraced)))
      ensures ok ==> heads == [] && torn == []
      ensures ok ==> Printed(output) == old(Printed(output)) + [node.thing]
      ensures ok ==> shown == Show(query, old(shown), CurrentRef(levels))
    {
      hide LineOf, Showing, IsRoute, Bent, Stale, Fate, FateOf, Genuine, RowsOf, RouteOf, WidthsOf, Depth;
      hide Printed, PrintLine, Explained, Suffices, Less, DotsFail, Writes, Count, Linked, IsChain, Edges, ChainOf;
      ghost var s := State(levels, findTraced);
      LinkedIsBent(levels);
      BentBegins(levels, []);
      ChainIsChain(levels);
      ChainIsRoute(query, levels);
      RowsAreEdges(levels);
      var line;
      ok, line, heads, torn := DumpCurrent(node, levels);
      if ok {
        LinkedIsBent(levels);
        LineShows(query, levels, line, output);
        OutputGrows(output, line);
        PrintedMore(output, line);
        output := output + [line];
        shown := Show(query, shown, CurrentRef(levels));
      }
      LineIsPrinted(s, State(levels, findTraced));
    }

    /** Puts the roots on the outermost level, if there are any to list. */
    method Begin(maxDepth: nat) returns (node: HeapDumpNode?, ghost levels: Levels)
      requires Proper(query) && ok && visited == {} && output == [] && made == freed == {} && parentNode == null
      requires shown == {} && torn == [] && maxDepth > 0
      modifies `ok, `visited, `memory, `children, `lastNode, `made
      ensures Holds(levels) && Explains() && fresh(Nodes(levels))
      ensures node == Current(levels) && (node == null <==> levels.Outside?) && Depth(levels) <= 1
      ensures State(levels, query.find != 0 && query.find == query.start)
           == Start(query, maxDepth, old(memory), old(room))
      ensures ok ==> Searches(maxDepth, levels, {}, query.find != 0 && query.find == query.start)
    {
      hide Progress, Marked, Wanted, Things, Edges, NotifyAll;
      ghost var row := Trace(Roots(query));
      node := children;
      levels := if node == null then Outside else Level(row, Outside);
      assert Linked(levels);
      assert Nodes(Level(row, Outside)) == Members(row) && (row == [] ==> Members(row) == {});
      assert Genuine(query, levels) && made == Nodes(levels);
      assert Depth(Outside) == 0 && Depth(Level(row, Outside)) == 1;
      assert RowsOf(Outside) == [] && RowsOf(Level(row, Outside)) == [Edges(row)];
      ProgressStarts(query, maxDepth);
      if ok {
        RefsOfRow(row, Outside);
        assert RefsOf(levels) == RefsFrom(None, Edges(row)) && Printed(output) == [];
        ProgressRises(query, maxDepth, visited, {}, query.find != 0 && query.find == query.start, 1, Depth(levels),
                      RefsFrom(None, Edges(row)), [], {});
      }
    }

    /** Puts the children of the node the walk is at on a level of their own, if there are any to list. */
    method TraceBelow(node: HeapDumpNode, ghost levels: Levels)
      returns (first: HeapDumpNode?, ghost below: Levels)
      requires Holds(levels) && levels.Level? && node == Current(levels)
      modifies `ok, `visited, `memory, `children, `lastNode, `made, `parentNode
      ensures Holds(below) && fresh(Nodes(below) - Nodes(levels))
      ensures var t := NotifyAll(query, old(Tracings([])), Children(query, node.thing));
              && visited == t.visited && ok == t.ok && memory == t.memory && Count() == old(Count()) + |t.listed|
              && (first == null <==> t.listed == [])
              && (first != null ==> RowsOf(below) == [t.listed] + RowsOf(levels))
      ensures if first == null then below == levels
              else below.Level? && below.outer == levels && first == Current(below)
      ensures var edges := Children(query, node.thing);
              ok ==> old(ok) && visited == Marked(query, old(visited), edges)
                     && (if first == null then RestRefs(levels) else RefsOf(below))
                     == RefsFrom(Some(node.thing), Wanted(query, old(visited), edges)) + RestRefs(levels)
    {
      hide Marked, Wanted, NotifyAll, Count, RestRefs, RefsOf, Onward;
      parentNode := node;
      ghost var kids := Trace(Children(query, node.thing));
      hide Edges;
      first := children;
      below := if first == null then levels else Level(kids, levels);
      RefsOfRow(kids, levels);
    }

    /** This walk has gone as the other one says, but is still at the node it was at if it has not gone down. */
    ghost predicate Follows(s: Walk, first: HeapDumpNode?, levels: Levels, findTraced: bool)
      reads `visited, `ok, `memory, `room, `output, `torn, `made
    {
      if ok && first == null then s == State(levels, findTraced).(rows := Onward(RowsOf(levels)))
      else Matches(s, levels, findTraced)
    }

    /** Looks at the children of the node the walk is at, if it may; the node itself has been printed if it should. */
    method LookBelow(node: HeapDumpNode, depth: nat, maxDepth: nat, wasTraced: bool, ghost levels: Levels,
                     ghost done: set<Thing>, ghost printed: seq<Thing>, ghost found: set<Ref>)
      returns (first: HeapDumpNode?, isTraced: bool, ghost below: Levels)
      requires ok && torn == [] && Proper(query) && Holds(levels) && levels.Level? && Explains()
      requires node == Current(levels) && depth == Depth(levels) && !Finished(State(levels, wasTraced))
      requires Progress(query, maxDepth, visited, done, wasTraced, depth, RefsOf(levels), printed, found)
      requires Printed(output) == Print(query, printed, node.thing) && shown == Show(query, found, CurrentRef(levels))
      modifies `ok, `visited, `memory, `children, `lastNode, `made, `parentNode
      ensures Holds(below) && Explains() && fresh(Nodes(below) - Nodes(levels))
      ensures if first == null then below == levels
              else below.Level? && below.outer == levels && first == Current(below)
      ensures wasTraced ==> isTraced
      ensures Follows(Continue(query, maxDepth, old(State(levels, wasTraced))), first, below, isTraced)
      ensures first != null ==> depth < maxDepth && (node.thing != query.find || (!wasTraced && isTraced))
      ensures ok ==> Progress(query, maxDepth, visited, Done(query, done, node.thing), isTraced, Depth(below),
                              if first == null then RestRefs(levels) else RefsOf(below), Printed(output), shown)
    {
      hide Progress, Marked, Wanted, Linked, Bent, Genuine, RestRefs, RefsOf, Proper, Explained, Showing, Done;
      hide NotifyAll, Onward, RowsOf, Count, RouteOf, Edges, ChainOf, Printed;
      LinkedIsBent(levels);
      BentBegins(levels, []);
      RowsAreEdges(levels);
      RefsAreNotNull(query, levels);
      RefsBegin(levels);
      ghost var refs, seen := RefsOf(levels), visited;
      assert refs[1..] == RestRefs(levels);
      first, isTraced, below := null, wasTraced, levels;
      if depth < maxDepth && (query.find != node.thing || !wasTraced) {
        first, below := TraceBelow(node, levels);
        if query.find == node.thing {
          isTraced := true;
        }
        ProgressDescends(query, maxDepth, seen, done, wasTraced, depth, Depth(below), refs, printed, found);
      } else {
        ProgressSkips(query, maxDepth, seen, done, wasTraced, depth, refs, printed, found);
      }
    }

    /** Prints the node the walk is at if it should be, and looks at its children if it may. */
    method Visit(node: HeapDumpNode, depth: nat, maxDepth: nat, wasTraced: bool, ghost levels: Levels,
                 ghost done: set<Thing>)
      returns (first: HeapDumpNode?, isTraced: bool, ghost below: Levels, ghost heads: seq<HeapDumpNode?>)
      requires ok && torn == [] && Proper(query) && Holds(levels) && levels.Level? && Explains()
      requires node == Current(levels) && depth == Depth(levels)
      requires Searches(maxDepth, levels, done, wasTraced)
      modifies this, Nodes(levels)`parent
      ensures Hangs(below, heads) && Explains() && fresh(Nodes(below) - Nodes(levels))
      ensures ok ==> heads == [] && torn == []
      ensures if first == null then below == levels
              else below.Level? && below.outer == levels && first == Current(below)
      ensures wasTraced ==> isTraced
      ensures var s := old(State(levels, wasTraced));
              !Finished(s) && Follows(Step(query, maxDepth, s), first, below, isTraced)
      ensures first != null ==> depth < maxDepth && (node.thing != query.find || (!wasTraced && isTraced))
      ensures ok ==> Progress(query, maxDepth, visited, Done(query, done, node.thing), isTraced, Depth(below),
                              if first == null then RestRefs(levels) else RefsOf(below), Printed(output), shown)
    {
      hide Progress, Linked, Bent, Stale, Fate, Genuine, RestRefs, RefsOf, Proper, FateOf, Explained, Showing, Done;
      hide PrintLine, Continue, Onward, RowsOf, Count, RouteOf, Edges, ChainOf, Printed;
      LinkedIsBent(levels);
      BentBegins(levels, []);
      RefsBegin(levels);
      ghost var printed, found := Printed(output), shown;
      first, isTraced, below := null, wasTraced, levels;
      HangsStraight(levels);
      heads := [];
      if query.find == 0 || query.find == node.thing {
        heads := PrintCurrent(node, levels, wasTraced);
      }
      if !ok {
        return;
      }
      HangsStraight(levels);
      first, isTraced, below := LookBelow(node, depth, maxDepth, wasTraced, levels, done, printed, found);
      HangsStraight(below);
    }

    /**
     * Leaves the current node, freeing it, and every parent whose children are all done. If the walk does not end
     * soundly here, it goes on as its links have it: it stops below the outermost level, or comes to a freed node.
     */
    method MoveOn(start: HeapDumpNode, depth: nat, ghost levels: Levels, ghost heads: seq<HeapDumpNode?>)
      returns (node: HeapDumpNode?, shallower: nat, ending: Ending, ghost left: Levels,
               ghost bends: seq<HeapDumpNode?>)
      requires Hangs(levels, heads) && levels.Level? && start == Current(levels) && depth == Depth(levels)
      modifies `freed
      ensures ending != Sound ==> node == null && Abandons(ending)
      ensures ending == Sound ==>
                && Hangs(left, bends) && left == Advance(levels) && node == Current(left)
                && (node == null <==> left.Outside?)
                && shallower == (if left.Outside? then 1 else Depth(left))
                && (heads == [] ==> bends == [])
      ensures torn == [] ==> ending == Sound
      ensures left.Level? || left == Outside
      ensures Nodes(left) <= Nodes(levels)
    {
      hide FateOf, Bent, Stale, Genuine, Fate, Advance, HeadLink, Straightened, Rest, Total, Abandons;
      StraightFate(Outside);
      node, shallower, left, bends, ending := start, depth, levels, heads, Sound;
      while true
        invariant left.Level? && Hangs(left, bends) && node == Current(left) && shallower == Depth(left)
        invariant Advance(left) == Advance(levels) && Nodes(left) <= Nodes(levels)
        invariant heads == [] ==> bends == []
        decreases shallower
      {
        ghost var row, outer, gone := left.row, left.outer, freed;
        LinksOfFirst(left, bends, gone);
        var next, parent := node.next, node.parent;
        Free(node);
        FirstLeaves(query, left, bends, gone);
        node := next;
        if node != null {
          left, bends := Level(row[1..], outer), Straightened(outer, bends);
          break;
        }
        if parent == null {
          if shallower != 1 {
            OutsideIsLeft(StopsShort, outer, Rest(bends));
            return null, shallower, StopsShort, left, bends;
          }
          left, bends := outer, Rest(bends);
          break;
        }
        assert shallower > 1;
        shallower := shallower - 1;
        if parent in freed {
          OutsideIsLeft(Dangles, outer, Rest(bends));
          return null, shallower, Dangles, left, bends;
        }
        node, left, bends := parent, outer, Rest(bends);
      }
    }

    /** One round of the walk: visit the node it is at, and go on to the next, down, across or up. */
    method Round(start: HeapDumpNode, deep: nat, maxDepth: nat, wasTraced: bool, ghost at: Levels,
                 ghost bends: seq<HeapDumpNode?>, ghost was: set<Thing>)
      returns (node: HeapDumpNode?, depth: nat, isTraced: bool, ending: Ending, ghost levels: Levels,
               ghost heads: seq<HeapDumpNode?>, ghost done: set<Thing>)
      requires Proper(query) && Hangs(at, bends) && at.Level? && Explains()
      requires start == Current(at) && deep == Depth(at)
      requires ok ==> bends == [] && torn == [] && Searches(maxDepth, at, was, wasTraced)
      modifies this, Nodes(at)`parent
      ensures Explains()
      ensures var s := old(State(at, wasTraced));
              if old(ok) then !Finished(s) && Matches(Step(query, maxDepth, s), levels, isTraced)
              else Matches(s, levels, isTraced)
      ensures ending != Sound ==> node == null && Abandons(ending)
      ensures ending == Sound ==>
                && Hangs(levels, heads) && fresh(Nodes(levels) - Nodes(at))
                && node == Current(levels) && (node == null <==> levels.Outside?)
                && depth == (if node == null then 1 else Depth(levels))
                && Undone(query, done, isTraced) <= Undone(query, was, wasTraced)
                && (Undone(query, done, isTraced) < Undone(query, was, wasTraced) || |RefsOf(levels)| < |RefsOf(at)|)
      ensures ok ==> heads == [] && torn == [] && ending == Sound && Searches(maxDepth, levels, done, isTraced)
    {
      hide Progress, Undone, Linked, Bent, Stale, Fate, Genuine, RestRefs, RefsOf, Advance, Step, RowsOf, Onward;
      hide Count, Abandons, Explained, Showing, Printed;
      BentBegins(at, bends);
      RefsBegin(at);
      ghost var hung := bends;
      isTraced, done := wasTraced, was;
      if ok {
        ghost var seen, printed, found := visited, Printed(output), shown;
        HangsStraight(at);
        var first;
        ghost var below;
        first, isTraced, below, hung := Visit(start, deep, maxDepth, wasTraced, at, was);
        done := Done(query, was, start.thing);
        ProgressShrinks(query, maxDepth, seen, was, deep, RefsOf(at), printed, found, wasTraced, isTraced);
        if first != null {
          return first, deep + 1, isTraced, Sound, below, hung, done;
        }
      }
      AdvanceIsRest(at, hung);
      AdvanceIsOnward(at);
      node, depth, ending, levels, heads := MoveOn(start, deep, at, hung);
      if ok {
        ProgressRises(query, maxDepth, visited, done, isTraced, deep, Depth(levels), RestRefs(at), Printed(output),
                      shown);
      }
    }

    /** The walk, once there is a node to be at. */
    method WalkOn(first: HeapDumpNode, maxDepth: nat, ghost row: Levels)
      returns (ending: Ending, ghost done: set<Thing>, ghost isTraced: bool, ghost depth: nat,
               ghost end: Walk)
      requires Proper(query) && Holds(row) && row.Level? && Explains() && first == Current(row) && Depth(row) == 1
      requires torn == [] && (ok ==> Searches(maxDepth, row, {}, query.find != 0 && query.find == query.start))
      modifies this, Nodes(row)`parent
      ensures Explains() && ending == FateOf(torn).ending && |made - freed| == FateOf(torn).left
      ensures Matches(end, Outside, isTraced)
      ensures ComesTo(query, maxDepth, old(State(row, query.find != 0 && query.find == query.start)), end)
      ensures if ending == Sound then freed == made else freed < made
      ensures ok ==> Progress(query, maxDepth, visited, done, isTraced, depth, [], Printed(output), shown)
    {
      hide Progress, Undone, Linked, Bent, Stale, Fate, Genuine, Proper, FateOf, Explained, Showing, Step, RowsOf;
      hide Count, Printed, After, ComesTo, RefsOf, Nodes, Depth, Current;
      EndsAtOnce(query, maxDepth, State(row, query.find != 0 && query.find == query.start));
      HangsStraight(row);
      var node: HeapDumpNode? := first;
      var deep, thingToFindWasTraced := 1, query.find != 0 && query.find == query.start;
      ghost var levels, heads: seq<HeapDumpNode?> := row, [];
      done, ending := {}, Sound;
      ghost var start, n: nat := State(row, thingToFindWasTraced), 0;
      while true
        invariant node != null && levels.Level? && node == Current(levels) && deep == Depth(levels)
        invariant fresh(Nodes(levels) - Nodes(row))
        invariant Hangs(levels, heads) && Explains() && ending == Sound
        invariant ok ==> heads == [] && torn == [] && Searches(maxDepth, levels, done, thingToFindWasTraced)
        invariant Matches(After(query, maxDepth, start, n), levels, thingToFindWasTraced)
        decreases Undone(query, done, thingToFindWasTraced), |RefsOf(levels)|
      {
        node, deep, thingToFindWasTraced, ending, levels, heads, done :=
          Round(node, deep, maxDepth, thingToFindWasTraced, levels, heads, done);
        AfterOne(query, maxDepth, start, n);
        n := n + 1;
        if node == null {
          break;
        }
      }
      if ending == Sound {
        assert deep == 1 && levels == Outside;
        FateOutside(heads);
      }
      isTraced, depth := thingToFindWasTraced, Depth(levels);
      end := After(query, maxDepth, start, n);
      ComesToAfter(query, maxDepth, start, n);
    }
  }

  /**
   * JS_DumpHeap. However the heap loops back on itself, the walk comes to an end, and it is the end that the walk on
   * values comes to with that much memory and room for writing: the answer, the lines, the number of nodes made and how
   * it ends are all given by it. No node is freed twice. Every node made is freed, and the depth is back at one, unless
   * the walk ends otherwise, which takes a failing write and more than eleven levels. Every line printed shows a real
   * way from the roots to its thing. If nothing failed, and nothing in particular is looked for, each thing is shown
   * once, and only what is below those shown at the limit may be missing. If the depth is not limited and nothing
   * failed: when nothing in particular is looked for, the things that can be reached without passing through the one to
   * be ignored are printed, each once, and the start is not among them; when one thing is looked for, it alone is
   * printed, and every edge to it, from the roots or from anything that can be reached, is shown by some line.
   */
  method DumpHeap(query: Query, maxDepth: nat, memory: Supply, room: Supply)
    returns (ok: bool, output: seq<Line>, ending: Ending, ghost made: set<HeapDumpNode>,
             ghost freed: set<HeapDumpNode>, ghost end: Walk)
    requires Proper(query)
    ensures Ends(query, maxDepth, memory, room, end)
    ensures ok == end.ok && output == end.output && |made| == end.made
    ensures ending == FateOf(end.torn).ending && |made - freed| == FateOf(end.torn).left
    ensures freed <= made && (freed == made <==> ending == Sound)
    ensures ok || room.None? || maxDepth <= MAX_PARENTS_TO_PRINT + 1 ==> freed == made
    ensures memory.None? && room.None? ==> ok
    ensures forall line :: line in output ==> Reads(query, line) && |line.via| <= maxDepth
    ensures forall line :: line in output && query.find != 0 ==> line.thing == query.find
    ensures forall line :: line in output ==> Explained(query, line)
    ensures ok && maxDepth > 0 && query.find == 0 ==> ShownToDepth(query, maxDepth, output)
    ensures ok && maxDepth > |AllThings(query)| && query.find == 0 ==>
              Distinct(Printed(output)) && forall t :: t in Printed(output) <==> Reachable(query, t)
    ensures ok && maxDepth > |AllThings(query)| && query.find != 0 && query.find != query.ignore ==>
              forall ref :: Refers(query, ref) ==> Showing(output, ref)
  {
    hide Progress, Linked, Genuine, Explained, Distinct, Reachable, Proper, Refers, Showing, FateOf, Step, NotifyAll;
    hide Reads, ShownToDepth;
    StraightFate(Outside);
    ghost var findTraced := query.find != 0 && query.find == query.start;
    ghost var start := Start(query, maxDepth, memory, room);
    ending, end := Sound, start;
    if maxDepth == 0 {
      EndsAtOnce(query, maxDepth, start);
      return true, [], Sound, {}, {}, start;
    }
    var tracer := new DumpingTracer(query, memory, room);
    var node;
    ghost var levels;
    node, levels := tracer.Begin(maxDepth);
    ghost var done: set<Thing>, isTraced, depth := {}, findTraced, Depth(levels);
    if node != null {
      ending, done, isTraced, depth, end := tracer.WalkOn(node, maxDepth, levels);
    } else {
      FateOutside([]);
      EndsAtOnce(query, maxDepth, start);
    }
    EndingIsSound(query, maxDepth, memory, room, end);
    if tracer.ok && query.find == 0 {
      LimitedDepth(query, maxDepth, memory, room, end);
    }
    LinesRead(query, tracer.output);
    OnlyWhatIsLookedFor(query, tracer.output);
    if tracer.ok && maxDepth > |AllThings(query)| {
      ProgressEnds(query, maxDepth, tracer.visited, done, isTraced, depth, Printed(tracer.output), tracer.shown);
    }
    ok, output, made, freed := tracer.ok, tracer.output, tracer.made, tracer.freed;
  }

  /** With room for 89 writes, the dump of a list of twelve things ends at an assertion, and leaves nodes behind. */
  method DumpList() returns (ending: Ending, ghost made: set<HeapDumpNode>, ghost freed: set<HeapDumpNode>)
    ensures ending == StopsShort && |made| == 12 && |made - freed| == 11
  {
    ghost var end := ListStopsShort(12);
    var ok, output;
    ghost var ends;
    ok, output, ending, made, freed, ends := DumpHeap(Deep(false), 12, None, Some(89));
    EndIsOne(Deep(false), 12, None, Some(89), end, ends);
  }
}
