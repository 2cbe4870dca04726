/** What the job's output means for the graph: a suggestion is a pair of nodes with a common
    neighbour, and its number is how many common neighbours they have. Edges are matched by
    the exact pair a line spells, so an edge whose line names the larger node first can come
    back as a suggestion; repeated edges and self-pairs are counted as they are proposed. */
module Suggestions {
  import opened Wrappers
  import Nodes
  import opened NodePairs
  import opened TriadicClosure
  import opened Grouping
  import opened Pipeline
  import Combinations

  // ================================================================ every shared neighbour

  /** Every pair read from the edges file is non-negative, and so is every node in one. */
  lemma EdgesNonNegative(lines: seq<string>, hub: Node, a: Node)
    requires ParseEdges(lines).Ok? && Adjacent(ParseEdges(lines).value, hub, a)
    ensures Nodes.NonNegative(a)
  {
    var edges := ParseEdges(lines).value;
    ParsedNonNegative(lines, if NodePair(hub, a) in edges then NodePair(hub, a) else NodePair(a, hub));
  }

  /** Friend of a friend, the converse: two distinct nodes joined to a common hub are
      proposed by it, smaller node first, whatever order the edges come in. */
  lemma SharedNeighbourProposed(lines: seq<string>, hub: Node, a: Node, b: Node)
    requires ParseEdges(lines).Ok?
    requires Adjacent(ParseEdges(lines).value, hub, a) && Adjacent(ParseEdges(lines).value, hub, b)
    requires a != b
    ensures MapEdges(lines).Ok? && Canonical(a, b) in Proposed(MapEdges(lines).value)
  {
    MapEdgesBothWays(lines, hub, a);
    MapEdgesBothWays(lines, hub, b);
    var mapped := MapEdges(lines).value;
    var vs := ValuesOf(mapped, hub);
    ValuesOfMembership(mapped, hub, a);
    ValuesOfMembership(mapped, hub, b);
    var i :| 0 <= i < |vs| && vs[i] == a;
    var j :| 0 <= j < |vs| && vs[j] == b;
    EdgesNonNegative(lines, hub, a);
    EdgesNonNegative(lines, hub, b);
    CanonicalSymmetric(a, b);
    if i < j {
      assert Canonical(vs[i], vs[j]) == Canonical(a, b);
    } else {
      assert Canonical(vs[j], vs[i]) == Canonical(a, b);
    }
    CandidatesFromPositions(vs, Canonical(a, b));
    var r :| r in mapped && r == Record(hub, a);
    var k :| 0 <= k < |mapped| && mapped[k] == r;
    assert Written(mapped, hub);
    ReducePhaseMembership(HubCandidates, mapped, Canonical(a, b));
  }

  /** Two nodes with a common neighbour that are not already the edge the pair spells are
      suggested, with the number of times they were proposed. */
  lemma SharedNeighbourSuggested(lines: seq<string>, hub: Node, a: Node, b: Node)
    requires ParseEdges(lines).Ok?
    requires Adjacent(ParseEdges(lines).value, hub, a) && Adjacent(ParseEdges(lines).value, hub, b)
    requires a != b && Canonical(a, b) !in ParseEdges(lines).value
    ensures MapEdges(lines).Ok? && Run(lines).Ok?
    ensures Record(Text(Canonical(a, b)), multiset(Proposed(MapEdges(lines).value))[Canonical(a, b)])
            in Run(lines).value
  {
    SharedNeighbourProposed(lines, hub, a, b);
    RunOutput(lines, Record(Text(Canonical(a, b)), multiset(Proposed(MapEdges(lines).value))[Canonical(a, b)]));
  }

  // ================================================================ the count

  /** No edge joins a node to itself, and no two lines join the same two nodes, whichever
      way round they name them. */
  predicate Simple(edges: seq<NodePair>) {
    (forall i :: 0 <= i < |edges| ==> edges[i].node1 != edges[i].node2)
    && (forall i, j :: 0 <= i < j < |edges| ==>
          edges[i] != edges[j] && edges[i] != NodePair(edges[j].node2, edges[j].node1))
  }

  /** The nodes named by some edge. */
  function Endpoints(edges: seq<NodePair>): set<Node> {
    (set e | e in edges :: e.node1) + (set e | e in edges :: e.node2)
  }

  /** The hubs joined to both `a` and `b`. */
  function CommonNeighbours(edges: seq<NodePair>, a: Node, b: Node): set<Node> {
    set h | h in Endpoints(edges) && Adjacent(edges, h, a) && Adjacent(edges, h, b)
  }

  /** Stage one's map output names `v` under `u` exactly when they are adjacent. */
  lemma {:induction false} BothWaysAdjacent(edges: seq<NodePair>, u: Node, v: Node)
    ensures Record(u, v) in BothWays(edges) <==> Adjacent(edges, u, v)
    decreases |edges|
  {
    if edges != [] {
      BothWaysAdjacent(edges[1..], u, v);
      BothWaysCons(edges[0], edges[1..]);
      assert edges == [edges[0]] + edges[1..];
    }
  }

  /** The tail of a simple graph is simple, and repeats its first edge in neither
      orientation. */
  lemma SimpleTail(edges: seq<NodePair>)
    requires edges != [] && Simple(edges)
    ensures Simple(edges[1..])
    ensures NodePair(edges[0].node1, edges[0].node2) !in edges[1..]
    ensures NodePair(edges[0].node2, edges[0].node1) !in edges[1..]
    ensures edges[0].node1 != edges[0].node2
  {
    var rest := edges[1..];
    forall i, j | 0 <= i < j < |rest|
      ensures rest[i] != rest[j] && rest[i] != NodePair(rest[j].node2, rest[j].node1)
    {
      assert rest[i] == edges[i + 1] && rest[j] == edges[j + 1];
    }
    forall j | 0 <= j < |rest|
      ensures rest[j] != edges[0] && NodePair(rest[j].node2, rest[j].node1) != edges[0]
    {
      assert rest[j] == edges[j + 1];
    }
  }

  /** What one edge in front adds to a hub's neighbour list: its other end, if the hub is
      one of its ends. */
  lemma ValuesOfEdge(e: NodePair, rest: seq<NodePair>, hub: Node)
    ensures ValuesOf(BothWays([e] + rest), hub)
            == (if e.node1 == hub then [e.node2] else []) + (if e.node2 == hub then [e.node1] else [])
               + ValuesOf(BothWays(rest), hub)
  {
    var r1, r2 := Record(e.node1, e.node2), Record(e.node2, e.node1);
    BothWaysCons(e, rest);
    ValuesOfCons(r2, BothWays(rest), hub);
    ValuesOfCons(r1, [r2] + BothWays(rest), hub);
    assert [r1, r2] + BothWays(rest) == [r1] + ([r2] + BothWays(rest));
  }

  /** In a simple graph the grouping delivers each of a hub's neighbours once. */
  lemma {:induction false} NeighboursDistinct(edges: seq<NodePair>, hub: Node)
    requires Simple(edges)
    ensures Combinations.Distinct(ValuesOf(BothWays(edges), hub))
    decreases |edges|
  {
    if edges != [] {
      var e, rest := edges[0], edges[1..];
      SimpleTail(edges);
      NeighboursDistinct(rest, hub);
      var vs := ValuesOf(BothWays(rest), hub);
      assert edges == [e] + rest;
      ValuesOfEdge(e, rest, hub);
      if e.node1 == hub || e.node2 == hub {
        var v := if e.node1 == hub then e.node2 else e.node1;
        ValuesOfMembership(BothWays(rest), hub, v);
        BothWaysAdjacent(rest, hub, v);
        DistinctCons(v, vs);
      }
    }
  }

  lemma DistinctCons(v: Node, vs: seq<Node>)
    requires Combinations.Distinct(vs) && v !in vs
    ensures Combinations.Distinct([v] + vs)
  {
    var s := [v] + vs;
    forall i, j | 0 <= i < j < |s|
      ensures s[i] != s[j]
    {
      assert s[j] == vs[j - 1];
      if i > 0 {
        assert s[i] == vs[i - 1];
      }
    }
  }

  /** A node adjacent to another is named by some edge. */
  lemma AdjacentEndpoint(edges: seq<NodePair>, h: Node, a: Node)
    requires Adjacent(edges, h, a)
    ensures h in Endpoints(edges)
  {
    var e := if NodePair(h, a) in edges then NodePair(h, a) else NodePair(a, h);
    assert h == e.node1 || h == e.node2;
  }

  /** In a simple graph each hub proposes the pair of `a` and `b` once when it is joined to
      both, and never otherwise. */
  lemma HubProposesOnce(lines: seq<string>, hub: Node, a: Node, b: Node)
    requires ParseEdges(lines).Ok? && Simple(ParseEdges(lines).value) && a != b
    ensures var edges := ParseEdges(lines).value;
            multiset(HubCandidates(hub, ValuesOf(BothWays(edges), hub)))[Canonical(a, b)]
            == if hub in CommonNeighbours(edges, a, b) then 1 else 0
  {
    var edges := ParseEdges(lines).value;
    var vs := ValuesOf(BothWays(edges), hub);
    var q := Canonical(a, b);
    ValuesOfMembership(BothWays(edges), hub, a);
    ValuesOfMembership(BothWays(edges), hub, b);
    BothWaysAdjacent(edges, hub, a);
    BothWaysAdjacent(edges, hub, b);
    if a in vs && b in vs {
      AdjacentEndpoint(edges, hub, a);
      NeighboursDistinct(edges, hub);
      EdgesNonNegative(lines, hub, a);
      EdgesNonNegative(lines, hub, b);
      CanonicalSymmetric(a, b);
      forall x, y | x in vs && y in vs
        ensures Canonical(x, y) == q <==> (x == a && y == b) || (x == b && y == a)
      {
      }
      Combinations.PairsOnce(Canonical, vs, q, a, b);
    } else {
      CandidatesFromPositions(vs, q);
    }
  }

  /** In a simple graph, the pair of two distinct nodes is proposed once per common
      neighbour. */
  lemma ProposalCount(lines: seq<string>, a: Node, b: Node)
    requires ParseEdges(lines).Ok? && Simple(ParseEdges(lines).value) && a != b
    ensures MapEdges(lines).Ok?
    ensures multiset(Proposed(MapEdges(lines).value))[Canonical(a, b)]
            == |CommonNeighbours(ParseEdges(lines).value, a, b)|
  {
    var edges := ParseEdges(lines).value;
    MapEdgesIsBothWays(lines);
    var mapped := MapEdges(lines).value;
    var hubs := CommonNeighbours(edges, a, b);
    forall k | k in Keys(mapped)
      ensures multiset(HubCandidates(k, ValuesOf(mapped, k)))[Canonical(a, b)] == if k in hubs then 1 else 0
    {
      HubProposesOnce(lines, k, a, b);
    }
    KeysDistinct(mapped);
    ReduceAllCount(HubCandidates, mapped, Keys(mapped), Canonical(a, b), hubs);
    HubsAreKeys(lines, a, b);
  }

  /** The hubs joined to both nodes are among the keys stage one groups by. */
  lemma HubsAreKeys(lines: seq<string>, a: Node, b: Node)
    requires ParseEdges(lines).Ok? && MapEdges(lines).Ok?
    ensures var hubs := CommonNeighbours(ParseEdges(lines).value, a, b);
            (set k | k in Keys(MapEdges(lines).value) && k in hubs) == hubs
  {
    var edges := ParseEdges(lines).value;
    var mapped := MapEdges(lines).value;
    forall h | h in CommonNeighbours(edges, a, b)
      ensures h in Keys(mapped)
    {
      KeysMembership(mapped, h);
      MapEdgesBothWays(lines, h, a);
      var k :| 0 <= k < |mapped| && mapped[k] == Record(h, a);
    }
  }

  /** End to end, in a simple graph: two distinct nodes with a common neighbour, whose pair
      is not already an edge as spelled, are suggested with the number of their common
      neighbours. */
  lemma SuggestionStrength(lines: seq<string>, hub: Node, a: Node, b: Node)
    requires ParseEdges(lines).Ok? && Simple(ParseEdges(lines).value)
    requires Adjacent(ParseEdges(lines).value, hub, a) && Adjacent(ParseEdges(lines).value, hub, b)
    requires a != b && Canonical(a, b) !in ParseEdges(lines).value
    ensures Run(lines).Ok?
    ensures Record(Text(Canonical(a, b)), |CommonNeighbours(ParseEdges(lines).value, a, b)|) in Run(lines).value
  {
    SharedNeighbourSuggested(lines, hub, a, b);
    ProposalCount(lines, a, b);
  }

  /** A hub that lists the same neighbour twice (a repeated edge) pairs it with itself. */
  lemma RepeatedNeighbourSelfPair(a: Node)
    ensures Candidates([a, a]) == [NodePair(a, a)]
  {
    TwoNeighbours(a, a);
  }

  // ================================================================ edges as spelled

  /** Stage two matches edges by the exact pair: an edge written `1-2 1-1` does not stop the
      candidate `1-1 1-2`. */
  lemma ReversedEdgeKept()
    ensures Record(Text(NodePair(N1, N2)), 1)
            in ReducePhase(DedupReduce, Tagged([NodePair(N2, N1)], NODES_FILE)
                                        + Tagged([NodePair(N1, N2)], TRIADIC_FILE))
  {
    DedupPhase([NodePair(N2, N1)], [NodePair(N1, N2)], Record(Text(NodePair(N1, N2)), 1));
    assert NodePair(N1, N2) in [NodePair(N1, N2)];
    assert multiset([NodePair(N1, N2)])[NodePair(N1, N2)] == 1;
  }

  /** A triangle whose first line names the larger node first. */
  function ReversedTriangle(a: Node, b: Node, hub: Node): seq<NodePair> {
    [NodePair(b, a), NodePair(a, hub), NodePair(b, hub)]
  }

  /** In that triangle `a` and `b` have one common neighbour, the hub, and the pair `a b`
      is not an edge as spelled. */
  lemma ReversedTriangleHubs(a: Node, b: Node, hub: Node)
    requires Nodes.Compare(a, b) < 0 && a != hub && b != hub
    ensures var edges := ReversedTriangle(a, b, hub);
            Simple(edges) && Adjacent(edges, hub, a) && Adjacent(edges, hub, b)
            && Canonical(a, b) == NodePair(a, b) && NodePair(a, b) !in edges
            && CommonNeighbours(edges, a, b) == {hub}
  {
    var edges := ReversedTriangle(a, b, hub);
    assert hub in Endpoints(edges) by {
      assert edges[1] in edges;
    }
    assert Adjacent(edges, hub, a) && Adjacent(edges, hub, b) by {
      assert edges[1] in edges && edges[2] in edges;
    }
  }

  /** The triangle whose edge `b a` is written larger node first: the job suggests that very
      edge back, as `a b`, proposed once by the hub. */
  lemma ReversedEdgeSuggested(a: Node, b: Node, hub: Node)
    requires Nodes.NonNegative(a) && Nodes.NonNegative(b) && Nodes.NonNegative(hub)
    requires Nodes.Compare(a, b) < 0 && a != hub && b != hub
    ensures Run(MapSeq(Text, ReversedTriangle(a, b, hub))).Ok?
    ensures Record(Text(NodePair(a, b)), 1) in Run(MapSeq(Text, ReversedTriangle(a, b, hub))).value
  {
    var edges := ReversedTriangle(a, b, hub);
    ParseTexts(edges);
    ReversedTriangleHubs(a, b, hub);
    SuggestionStrength(MapSeq(Text, edges), hub, a, b);
  }

  /** When every edge line names the smaller node first, no edge is suggested, in either
      orientation and under any count. */
  lemma OrientedEdgesNeverSuggested(lines: seq<string>, u: Node, v: Node, c: int)
    requires ParseEdges(lines).Ok?
    requires forall e :: e in ParseEdges(lines).value ==> Nodes.Compare(e.node1, e.node2) <= 0
    requires Adjacent(ParseEdges(lines).value, u, v)
    ensures Run(lines).Ok? && Record(Text(NodePair(u, v)), c) !in Run(lines).value
  {
    var edges := ParseEdges(lines).value;
    var x := Record(Text(NodePair(u, v)), c);
    RunOutput(lines, x);
    if x in Run(lines).value {
      var candidates := Proposed(MapEdges(lines).value);
      var q :| q in candidates && q !in edges && x == Record(Text(q), multiset(candidates)[q]);
      EdgesNonNegative(lines, v, u);
      EdgesNonNegative(lines, u, v);
      ProposedNonNegative(lines, q);
      TextRoundTrip(NodePair(u, v));
      TextRoundTrip(q);
      assert q == NodePair(u, v);
      ProposedShareNeighbour(lines, q);
      assert NodePair(v, u) in edges;
      Nodes.NonNegativeNoOverflow(u, v);
      Nodes.CompareAntisymmetric(u, v);
    }
  }
}
