/** The four map/reduce bodies of the two stages.
    Stage one ("triangles") fans every edge out in both directions, groups by node, and pairs
    up every two neighbours of a node, smaller node first. Stage two ("remove duplicates")
    tags each pair with the file it came from, groups by pair, drops any pair that is already
    an edge and counts how often each remaining candidate was proposed.
    A `context.write(k, v)` becomes one `Record(k, v)` appended to the output sequence. */
module TriadicClosure {
  import opened Wrappers
  import opened KotlinText
  import Nodes
  import opened NodePairs
  import Combinations

  type Node = Nodes.Node

  /** One `context.write(key, value)`. */
  datatype Record<K, V> = Record(key: K, value: V)

  // ================================================================ stage one: map

  /** `TriadicClosureMapper.map`: the edge line is parsed as a pair (a malformed line is an
      exception, here `Err`) and written twice, once keyed by each end. */
  function TriangleMap(line: string): (r: Result<seq<Record<Node, Node>>>)
    ensures r.Ok? <==> FromString(line).Ok?
    ensures r.Ok? ==> |r.value| == 2
                      && r.value[0] == Record(FromString(line).value.node1, FromString(line).value.node2)
                      && r.value[1] == Record(r.value[0].value, r.value[0].key)
  {
    match FromString(line)
    case Err(e) => Err(e)
    case Ok(pair) => Ok([Record(pair.node1, pair.node2), Record(pair.node2, pair.node1)])
  }

  // ================================================================ stage one: reduce

  /** The pair the triangle reducer writes for two neighbours: `a` first when
      `a < b` by `compareTo`, `b` first otherwise (equal nodes included). Even with 32-bit
      wrap-around the first node never compares greater than the second. */
  function Canonical(a: Node, b: Node): (p: NodePair)
    ensures Nodes.Compare(p.node1, p.node2) <= 0
    ensures (p.node1 == a && p.node2 == b) || (p.node1 == b && p.node2 == a)
  {
    Nodes.CompareSwap(a, b);
    if Nodes.Compare(a, b) < 0 then NodePair(a, b) else NodePair(b, a)
  }

  /** Which of the two neighbours comes first does not matter, except when their `codigo`s
      are exactly 2^31 apart: then `compareTo` calls each one smaller than the other. */
  lemma CanonicalSymmetric(a: Node, b: Node)
    ensures Canonical(a, b) == Canonical(b, a) <==> !Nodes.HalfRangeApart(a, b)
  {
    Nodes.CompareSwap(a, b);
    Nodes.CompareSwap(b, a);
  }

  /** The pairs a hub with neighbour list `s` produces: `Canonical` of every two positions
      `i < j`, row by row as the reducer's nested loops visit them. */
  function Candidates(s: seq<Node>): (ps: seq<NodePair>)
    ensures |s| < 2 <==> ps == []
  {
    Combinations.Pairs(Canonical, s)
  }

  /** Every pair a hub produces has its first node no greater than its second, is made of two
      neighbours at positions `i < j`, and every two such positions produce one. */
  lemma CandidatesFromPositions(s: seq<Node>, p: NodePair)
    ensures p in Candidates(s) <==> exists i, j :: 0 <= i < j < |s| && Canonical(s[i], s[j]) == p
    ensures p in Candidates(s) ==> Nodes.Compare(p.node1, p.node2) <= 0 && p.node1 in s && p.node2 in s
  {
    Combinations.PairsMembership(Canonical, s, p);
  }

  /** No two neighbours sit at the one distance where `compareTo` is not antisymmetric. */
  predicate NoHalfRange(s: seq<Node>) {
    forall a, b :: a in s && b in s ==> !Nodes.HalfRangeApart(a, b)
  }

  /** Neighbours read from text are non-negative, so they never sit half a range apart. */
  lemma NonNegativeNoHalfRange(s: seq<Node>)
    requires forall a :: a in s ==> Nodes.NonNegative(a)
    ensures NoHalfRange(s)
  {
  }

  /** The engine may deliver a hub's neighbours in any order: the multiset of pairs written
      is the same, as long as no two neighbours are half a range apart. */
  lemma CandidatesOrderFree(s: seq<Node>, t: seq<Node>)
    requires multiset(s) == multiset(t)
    requires NoHalfRange(s)
    ensures multiset(Candidates(s)) == multiset(Candidates(t))
  {
    forall u, v | u in s && v in s
      ensures Canonical(u, v) == Canonical(v, u)
    {
      CanonicalSymmetric(u, v);
    }
    Combinations.PairsPermutation(Canonical, s, t);
  }

  /** At half-range distance the order of the neighbours does change the pair written. */
  lemma HalfRangeOrderMatters()
    ensures Candidates([Nodes.Node(0, 0), Nodes.Node(0, INT_MIN)])
         == [NodePair(Nodes.Node(0, 0), Nodes.Node(0, INT_MIN))]
    ensures Candidates([Nodes.Node(0, INT_MIN), Nodes.Node(0, 0)])
         == [NodePair(Nodes.Node(0, INT_MIN), Nodes.Node(0, 0))]
  {
    var a, b := Nodes.Node(0, 0), Nodes.Node(0, INT_MIN);
    assert Nodes.Compare(a, b) < 0 && Nodes.Compare(b, a) < 0 by {
      Nodes.CompareSwap(a, b);
    }
    Combinations.PairsCons(Canonical, a, [b]);
    Combinations.PairsCons(Canonical, b, []);
    Combinations.FanCons(Canonical, a, b, []);
    assert [a] + [b] == [a, b] && [b] + [] == [b];
    Combinations.PairsCons(Canonical, b, [a]);
    Combinations.PairsCons(Canonical, a, []);
    Combinations.FanCons(Canonical, b, a, []);
    assert [b] + [a] == [b, a] && [a] + [] == [a];
  }

  /** The `(Text, Text)` record the reducer writes for one pair. */
  function TextRecord(p: NodePair): Record<string, string> {
    Record(Nodes.ToString(p.node1), Nodes.ToString(p.node2))
  }

  /** `f` applied to each element, in order. */
  function MapSeq<A, B>(f: A -> B, xs: seq<A>): (ys: seq<B>)
    ensures |ys| == |xs|
    decreases |xs|
  {
    if xs == [] then [] else [f(xs[0])] + MapSeq(f, xs[1..])
  }

  lemma {:induction false} MapSeqAppend<A, B>(f: A -> B, xs: seq<A>, ys: seq<A>)
    ensures MapSeq(f, xs + ys) == MapSeq(f, xs) + MapSeq(f, ys)
    decreases |xs|
  {
    if xs == [] {
      assert xs + ys == ys;
    } else {
      MapSeqAppend(f, xs[1..], ys);
      assert xs == [xs[0]] + xs[1..];
      assert xs + ys == [xs[0]] + (xs[1..] + ys);
      MapSeqCons(f, xs[0], xs[1..] + ys);
      MapSeqCons(f, xs[0], xs[1..]);
    }
  }

  /** Element `i` of the mapped sequence is `f` of element `i`. */
  lemma {:induction false} MapSeqAt<A, B>(f: A -> B, xs: seq<A>, i: nat)
    requires i < |xs|
    ensures MapSeq(f, xs)[i] == f(xs[i])
    decreases i
  {
    if i > 0 {
      MapSeqAt(f, xs[1..], i - 1);
    }
  }

  lemma MapSeqCons<A, B>(f: A -> B, x: A, xs: seq<A>)
    ensures MapSeq(f, [x] + xs) == [f(x)] + MapSeq(f, xs)
  {
    assert ([x] + xs)[1..] == xs;
  }

  lemma MapSeqSnoc<A, B>(f: A -> B, xs: seq<A>, x: A)
    ensures MapSeq(f, xs + [x]) == MapSeq(f, xs) + [f(x)]
  {
    MapSeqAppend(f, xs, [x]);
    assert [x][1..] == [];
  }

  /** One more column of a written row: the row written for positions before `j`, plus the
      record for position `j`, is the row written for positions up to `j`. */
  lemma RowStep<T, P, R>(pair: (T, T) -> P, write: P -> R, x: T, s: seq<T>, lo: nat, j: nat,
                         row: seq<R>, r: R)
    requires lo <= j < |s|
    requires row == MapSeq(write, Combinations.Fan(pair, x, s[lo..j]))
    requires r == write(pair(x, s[j]))
    ensures row + [r] == MapSeq(write, Combinations.Fan(pair, x, s[lo..j + 1]))
  {
    Combinations.FanExtend(pair, x, s, lo, j);
    MapSeqSnoc(write, Combinations.Fan(pair, x, s[lo..j]), pair(x, s[j]));
  }

  /** The outer `forEachIndexed` body for position `i`: the inner `forEach` over the later
      positions `j`, writing one record for each, in order. `write` is what one
      `context.write` of a pair puts out; the reducer passes `TextRecord`. */
  method WriteRow<R>(write: NodePair -> R, nodes: seq<Node>, i: nat) returns (row: seq<R>)
    requires i < |nodes|
    ensures row == MapSeq(write, Combinations.Fan(Canonical, nodes[i], nodes[i + 1..]))
  {
    var current := nodes[i];
    row := [];
    var j := i + 1;
    while j < |nodes|
      invariant i + 1 <= j <= |nodes|
      invariant row == MapSeq(write, Combinations.Fan(Canonical, current, nodes[i + 1..j]))
    {
      var r := WritePair(write, current, nodes[j]);
      RowStep(Canonical, write, current, nodes, i + 1, j, row, r);
      row := row + [r];
      j := j + 1;
    }
    assert nodes[i + 1..j] == nodes[i + 1..];
  }

  /** The inner `forEach` body: `current` then `other` when `current < other` by
      `compareTo`, and `other` then `current` otherwise, equal nodes included. */
  method WritePair<R>(write: NodePair -> R, current: Node, other: Node) returns (r: R)
    ensures r == write(Canonical(current, other))
  {
    if Nodes.Compare(current, other) < 0 {
      r := write(NodePair(current, other));
    } else {
      r := write(NodePair(other, current));
    }
  }

  /** `TriadicClosureReducer.reduce`: copy the neighbours into a list, then for every pair of
      positions `i < j` write the smaller node's text and the other's, row by row. The hub
      key is not used, and repeated neighbours are kept. */
  method TriangleReduce(key: Node, values: seq<Node>) returns (out: seq<Record<string, string>>)
    ensures out == MapSeq(TextRecord, Candidates(values))
    ensures 2 * |out| == |values| * (|values| - 1)
  {
    var nodes: seq<Node> := [];
    var n := 0;
    while n < |values|
      invariant 0 <= n <= |values|
      invariant nodes == values[..n]
    {
      nodes := nodes + [values[n]];
      n := n + 1;
    }
    assert nodes == values;
    out := [];
    ghost var written: seq<NodePair> := [];
    var i := 0;
    while i < |nodes|
      invariant 0 <= i <= |nodes|
      invariant out == MapSeq(TextRecord, written)
      invariant written + Combinations.Pairs(Canonical, nodes[i..]) == Candidates(nodes)
    {
      var row := WriteRow(TextRecord, nodes, i);
      ghost var fan := Combinations.Fan(Canonical, nodes[i], nodes[i + 1..]);
      MapSeqAppend(TextRecord, written, fan);
      Combinations.RowDone(Canonical, nodes, i, written, written + fan, Candidates(nodes));
      out := out + row;
      written := written + fan;
      i := i + 1;
    }
    assert nodes[i..] == [];
    assert Combinations.Pairs(Canonical, nodes[i..]) == [];
    assert written == Candidates(values);
    Combinations.PairsCount(Canonical, values);
  }

  // ================================================================ stage two: map

  /** The tag of a pair read from the edges file, and of one read from the candidates file. */
  const NODES_FILE: Int8 := 1
  const TRIADIC_FILE: Int8 := 2

  /** The configuration key under which the driver stores the edges file's path. */
  const NODES_PATH_KEY: string := "triadic.file.nodes"

  /** `DuplicatedPairRemoverMapper.map` once the split's file is known: the parsed pair,
      unchanged, with tag 1 when the line came from the edges file and 2 otherwise. */
  function DedupMap(fromEdges: bool, line: string): (r: Result<Record<NodePair, Int8>>)
    ensures r.Ok? <==> FromString(line).Ok?
    ensures r.Ok? ==> r.value.key == FromString(line).value
    ensures r.Ok? ==> (r.value.value == NODES_FILE <==> fromEdges)
    ensures r.Ok? ==> r.value.value in {NODES_FILE, TRIADIC_FILE}
  {
    match FromString(line)
    case Err(e) => Err(e)
    case Ok(pair) =>
      var tag: Int8 := if fromEdges then NODES_FILE else TRIADIC_FILE;
      Ok(Record(pair, tag))
  }

  /** The mapper object: `setup` stores the edges file's path once per task, and `map`
      compares each split's path with it. */
  class DuplicatedPairRemoverMapper {
    var nodesFilePath: Option<string>

    constructor ()
      ensures nodesFilePath == None
    {
      nodesFilePath := None;
    }

    /** `setup`: read the path from the job configuration (null when it is absent). */
    method Setup(configuration: map<string, string>)
      modifies this
      ensures nodesFilePath == if NODES_PATH_KEY in configuration
                               then Some(configuration[NODES_PATH_KEY]) else None
    {
      if NODES_PATH_KEY in configuration {
        nodesFilePath := Some(configuration[NODES_PATH_KEY]);
      } else {
        nodesFilePath := None;
      }
    }

    /** `map`: tag 1 exactly when the split's path equals the stored one; a path that was
        never configured matches nothing. */
    method Map(splitPath: string, line: string) returns (r: Result<Record<NodePair, Int8>>)
      ensures r == DedupMap(nodesFilePath == Some(splitPath), line)
      ensures r.Ok? ==> (r.value.value == NODES_FILE <==> nodesFilePath == Some(splitPath))
    {
      var pair := FromString(line);
      if nodesFilePath == Some(splitPath) {
        r := if pair.Ok? then Ok(Record(pair.value, NODES_FILE)) else Err(pair.error);
      } else {
        r := if pair.Ok? then Ok(Record(pair.value, TRIADIC_FILE)) else Err(pair.error);
      }
    }
  }

  // ================================================================ stage two: reduce

  /** `DuplicatedPairRemoverReducer.reduce`: nothing when any tag is 1 (the pair is already
      an edge); otherwise one record, the pair's text keyed with the number of tags. */
  function DedupReduce(key: NodePair, values: seq<Int8>): (out: seq<Record<string, int>>)
    ensures out == [] <==> NODES_FILE in values
    ensures out != [] ==> out == [Record(Text(key), |values|)]
  {
    if NODES_FILE in values then [] else [Record(Text(key), |values|)]
  }

  /** The reducer looks only at which tags occur and how many there are, so any order the
      engine delivers them in gives the same output. */
  lemma DedupReduceOrderFree(key: NodePair, v1: seq<Int8>, v2: seq<Int8>)
    requires multiset(v1) == multiset(v2)
    ensures DedupReduce(key, v1) == DedupReduce(key, v2)
  {
    assert NODES_FILE in v1 <==> NODES_FILE in multiset(v1);
    assert NODES_FILE in v2 <==> NODES_FILE in multiset(v2);
    assert |v1| == |multiset(v1)| && |v2| == |multiset(v2)|;
  }
}
