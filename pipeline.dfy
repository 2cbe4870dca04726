/** The job the driver runs over an edges file: stage one ("triangles") maps every edge line
    both ways, groups by node and writes the candidate pairs of each node's neighbours as
    `node1<TAB>node2` lines; only if it succeeds, stage two ("remove duplicates") reads the
    edges file (tag 1) and stage one's lines (tag 2), groups by pair and writes each candidate
    that is not already an edge with the number of times it was proposed. */
module Pipeline {
  import opened Wrappers
  import opened KotlinText
  import Nodes
  import opened NodePairs
  import opened TriadicClosure
  import opened Grouping

  // ================================================================ reading the edges

  /** The edges file, line by line, read as pairs; the first bad line fails. */
  function ParseEdges(lines: seq<string>): (r: Result<seq<NodePair>>)
    ensures r.Ok? ==> |r.value| == |lines|
    decreases |lines|
  {
    if lines == [] then Ok([])
    else
      match FromString(lines[0])
      case Err(e) => Err(e)
      case Ok(p) =>
        match ParseEdges(lines[1..])
        case Err(e) => Err(e)
        case Ok(ps) => Ok([p] + ps)
  }

  /** Every pair read from text is non-negative. */
  lemma {:induction false} ParsedNonNegative(lines: seq<string>, p: NodePair)
    requires ParseEdges(lines).Ok? && p in ParseEdges(lines).value
    ensures NonNegative(p)
    decreases |lines|
  {
    var q := FromString(lines[0]).value;
    if p != q {
      ParsedNonNegative(lines[1..], p);
    }
  }

  /** Lines that each read as the pair at their position read as the sequence of those pairs. */
  lemma {:induction false} ParseEach(lines: seq<string>, ps: seq<NodePair>)
    requires |lines| == |ps|
    requires forall i :: 0 <= i < |lines| ==> FromString(lines[i]) == Ok(ps[i])
    ensures ParseEdges(lines) == Ok(ps)
    decreases |ps|
  {
    if ps != [] {
      ParseEach(lines[1..], ps[1..]);
      ParseStep(lines, ps[0], ps[1..]);
      assert ps == [ps[0]] + ps[1..];
    }
  }

  /** Reading the edges file succeeds exactly when every line reads as a pair, and then the
      pair at each position is the one its line reads as. */
  lemma {:induction false} ParseEdgesLines(lines: seq<string>)
    ensures ParseEdges(lines).Ok? <==> forall i :: 0 <= i < |lines| ==> FromString(lines[i]).Ok?
    ensures ParseEdges(lines).Ok? ==>
              forall i :: 0 <= i < |lines| ==> ParseEdges(lines).value[i] == FromString(lines[i]).value
    decreases |lines|
  {
    if lines != [] {
      ParseEdgesLines(lines[1..]);
      forall i | 1 <= i < |lines|
        ensures lines[i] == lines[1..][i - 1]
      {
      }
    }
  }

  /** The pair lines written for non-negative pairs read back as those pairs. */
  lemma ParseTexts(ps: seq<NodePair>)
    requires forall p :: p in ps ==> NonNegative(p)
    ensures ParseEdges(MapSeq(Text, ps)) == Ok(ps)
  {
    var lines := MapSeq(Text, ps);
    forall i | 0 <= i < |lines|
      ensures FromString(lines[i]) == Ok(ps[i])
    {
      MapSeqAt(Text, ps, i);
      TextRoundTrip(ps[i]);
    }
    ParseEach(lines, ps);
  }

  /** One more line read: its pair comes first. */
  lemma ParseStep(lines: seq<string>, p: NodePair, ps: seq<NodePair>)
    requires lines != [] && FromString(lines[0]) == Ok(p) && ParseEdges(lines[1..]) == Ok(ps)
    ensures ParseEdges(lines) == Ok([p] + ps)
  {
  }

  /** `u` and `v` are joined by an edge, in either direction. */
  predicate Adjacent(edges: seq<NodePair>, u: Node, v: Node) {
    NodePair(u, v) in edges || NodePair(v, u) in edges
  }

  // ================================================================ stage one

  /** Stage one's map phase: every line through `TriadicClosureMapper.map`, in line order. */
  function MapEdges(lines: seq<string>): (r: Result<seq<Record<Node, Node>>>)
    ensures r.Ok? ==> |r.value| == 2 * |lines|
    decreases |lines|
  {
    if lines == [] then Ok([])
    else
      match TriangleMap(lines[0])
      case Err(e) => Err(e)
      case Ok(rs) =>
        match MapEdges(lines[1..])
        case Err(e) => Err(e)
        case Ok(rest) => Ok(rs + rest)
  }

  /** The map phase succeeds exactly when every line is an edge, and then writes `(u, v)`
      exactly when `u` and `v` are adjacent: each edge is seen from both ends. */
  lemma {:induction false} MapEdgesBothWays(lines: seq<string>, u: Node, v: Node)
    ensures MapEdges(lines).Ok? <==> ParseEdges(lines).Ok?
    ensures MapEdges(lines).Ok? ==>
              (Record(u, v) in MapEdges(lines).value <==> Adjacent(ParseEdges(lines).value, u, v))
    decreases |lines|
  {
    if lines != [] {
      MapEdgesBothWays(lines[1..], u, v);
    }
  }

  /** Each edge as a record keyed by its first node, then one keyed by its second. */
  function BothWays(edges: seq<NodePair>): (rs: seq<Record<Node, Node>>)
    ensures |rs| == 2 * |edges|
    decreases |edges|
  {
    if edges == [] then []
    else [Record(edges[0].node1, edges[0].node2), Record(edges[0].node2, edges[0].node1)]
         + BothWays(edges[1..])
  }

  lemma BothWaysCons(e: NodePair, es: seq<NodePair>)
    ensures BothWays([e] + es) == [Record(e.node1, e.node2), Record(e.node2, e.node1)] + BothWays(es)
  {
    assert ([e] + es)[1..] == es;
  }

  /** The map phase writes each edge both ways, in line order. */
  lemma {:induction false} MapEdgesIsBothWays(lines: seq<string>)
    ensures MapEdges(lines).Ok? <==> ParseEdges(lines).Ok?
    ensures MapEdges(lines).Ok? ==> MapEdges(lines).value == BothWays(ParseEdges(lines).value)
    decreases |lines|
  {
    if lines != [] {
      MapEdgesIsBothWays(lines[1..]);
      if ParseEdges(lines).Ok? {
        assert ParseEdges(lines).value[1..] == ParseEdges(lines[1..]).value;
      }
    }
  }

  /** What `TriadicClosureReducer.reduce` writes for one hub (see `TriangleReduce`). */
  function TriangleOutput(hub: Node, values: seq<Node>): seq<Record<string, string>> {
    MapSeq(TextRecord, Candidates(values))
  }

  /** The same output as pairs, before they are turned into text. */
  function HubCandidates(hub: Node, values: seq<Node>): seq<NodePair> {
    Candidates(values)
  }

  /** `TextOutputFormat`: a record is written as its key, a tab and its value, so a key
      without a tab is the line's first tab-separated field. */
  function Line(r: Record<string, string>): (l: string)
    ensures '\t' !in r.key ==> Split(l, '\t') == [r.key] + Split(r.value, '\t')
  {
    assert '\t' !in r.key ==> Split(r.key + ['\t'] + r.value, '\t') == [r.key] + Split(r.value, '\t') by {
      if '\t' !in r.key {
        SplitFirstField(r.key, '\t', r.value);
      }
    }
    r.key + "\t" + r.value
  }

  /** Stage one: the map phase, the grouping by node, the reduce phase, written as lines. */
  function StageOne(lines: seq<string>): (r: Result<seq<string>>)
    ensures r.Ok? <==> MapEdges(lines).Ok?
    ensures r.Ok? ==> |r.value| == |Proposed(MapEdges(lines).value)|
  {
    match MapEdges(lines)
    case Err(e) => Err(e)
    case Ok(mapped) =>
      LinesOfKeys(mapped, Keys(mapped));
      Ok(MapSeq(Line, ReducePhase(TriangleOutput, mapped)))
  }

  /** The candidate pairs stage one proposes, one per pair of neighbours of each hub. */
  function Proposed(mapped: seq<Record<Node, Node>>): seq<NodePair> {
    ReducePhase(HubCandidates, mapped)
  }

  lemma {:induction false} MapSeqCompose<A, B, C>(f: A -> B, g: B -> C, h: A -> C, xs: seq<A>)
    requires forall x :: h(x) == g(f(x))
    ensures MapSeq(g, MapSeq(f, xs)) == MapSeq(h, xs)
    decreases |xs|
  {
    if xs != [] {
      MapSeqCompose(f, g, h, xs[1..]);
      assert MapSeq(f, xs)[1..] == MapSeq(f, xs[1..]);
    }
  }

  lemma {:induction false} LinesOfKeys(rs: seq<Record<Node, Node>>, ks: seq<Node>)
    ensures MapSeq(Line, ReduceAll(TriangleOutput, rs, ks)) == MapSeq(Text, ReduceAll(HubCandidates, rs, ks))
    decreases |ks|
  {
    if ks != [] {
      LinesOfKeys(rs, ks[1..]);
      var c := Candidates(ValuesOf(rs, ks[0]));
      forall p: NodePair
        ensures Text(p) == Line(TextRecord(p))
      {
      }
      MapSeqCompose(TextRecord, Line, Text, c);
      MapSeqAppend(Line, MapSeq(TextRecord, c), ReduceAll(TriangleOutput, rs, ks[1..]));
      MapSeqAppend(Text, c, ReduceAll(HubCandidates, rs, ks[1..]));
    }
  }

  /** Stage one's lines are the proposed pairs, each written as `node1<TAB>node2`. */
  lemma StageOneLines(lines: seq<string>)
    ensures StageOne(lines).Ok? <==> ParseEdges(lines).Ok?
    ensures StageOne(lines).Ok? ==>
              StageOne(lines).value == MapSeq(Text, Proposed(MapEdges(lines).value))
  {
    MapEdgesBothWays(lines, Nodes.Node(0, 0), Nodes.Node(0, 0));
    if MapEdges(lines).Ok? {
      var mapped := MapEdges(lines).value;
      LinesOfKeys(mapped, Keys(mapped));
    }
  }

  /** Friend of a friend: every proposed pair is two neighbours of one hub, smaller first. */
  lemma ProposedShareNeighbour(lines: seq<string>, p: NodePair)
    requires ParseEdges(lines).Ok? && MapEdges(lines).Ok?
    requires p in Proposed(MapEdges(lines).value)
    ensures exists hub :: Adjacent(ParseEdges(lines).value, hub, p.node1)
                       && Adjacent(ParseEdges(lines).value, hub, p.node2)
    ensures Nodes.Compare(p.node1, p.node2) <= 0
  {
    var mapped := MapEdges(lines).value;
    ReducePhaseMembership(HubCandidates, mapped, p);
    var hub :| Written(mapped, hub) && p in HubCandidates(hub, ValuesOf(mapped, hub));
    CandidatesFromPositions(ValuesOf(mapped, hub), p);
    ValuesOfMembership(mapped, hub, p.node1);
    ValuesOfMembership(mapped, hub, p.node2);
    MapEdgesBothWays(lines, hub, p.node1);
    MapEdgesBothWays(lines, hub, p.node2);
  }

  /** Proposed pairs are made of nodes read from text, so they are non-negative. */
  lemma ProposedNonNegative(lines: seq<string>, p: NodePair)
    requires ParseEdges(lines).Ok? && MapEdges(lines).Ok?
    requires p in Proposed(MapEdges(lines).value)
    ensures NonNegative(p)
  {
    var edges := ParseEdges(lines).value;
    ProposedShareNeighbour(lines, p);
    var hub :| Adjacent(edges, hub, p.node1) && Adjacent(edges, hub, p.node2);
    ParsedNonNegative(lines, if NodePair(hub, p.node1) in edges then NodePair(hub, p.node1) else NodePair(p.node1, hub));
    ParsedNonNegative(lines, if NodePair(hub, p.node2) in edges then NodePair(hub, p.node2) else NodePair(p.node2, hub));
  }

  // ================================================================ stage two

  /** Stage two's map phase over one file: every line through
      `DuplicatedPairRemoverMapper.map`, tagged 1 when the file is the edges file. */
  function MapPairs(fromEdges: bool, lines: seq<string>): (r: Result<seq<Record<NodePair, Int8>>>)
    ensures r.Ok? ==> |r.value| == |lines|
    decreases |lines|
  {
    if lines == [] then Ok([])
    else
      match DedupMap(fromEdges, lines[0])
      case Err(e) => Err(e)
      case Ok(r) =>
        match MapPairs(fromEdges, lines[1..])
        case Err(e) => Err(e)
        case Ok(rest) => Ok([r] + rest)
  }

  /** Every pair of `ps`, in order, with the same tag. */
  function Tagged(ps: seq<NodePair>, tag: Int8): (rs: seq<Record<NodePair, Int8>>)
    ensures |rs| == |ps|
    decreases |ps|
  {
    if ps == [] then [] else [Record(ps[0], tag)] + Tagged(ps[1..], tag)
  }

  /** The map phase over a file tags each of the file's pairs, and fails where reading fails. */
  lemma {:induction false} MapPairsTagged(fromEdges: bool, lines: seq<string>)
    ensures MapPairs(fromEdges, lines).Ok? <==> ParseEdges(lines).Ok?
    ensures MapPairs(fromEdges, lines).Ok? ==>
              MapPairs(fromEdges, lines).value
              == Tagged(ParseEdges(lines).value, if fromEdges then NODES_FILE else TRIADIC_FILE)
    decreases |lines|
  {
    if lines != [] {
      MapPairsTagged(fromEdges, lines[1..]);
    }
  }

  /** Under key `k` a tagged file contributes its tag once per occurrence of `k`. */
  lemma {:induction false} TaggedValues(ps: seq<NodePair>, tag: Int8, k: NodePair)
    ensures |ValuesOf(Tagged(ps, tag), k)| == multiset(ps)[k]
    ensures forall v :: v in ValuesOf(Tagged(ps, tag), k) ==> v == tag
    decreases |ps|
  {
    if ps != [] {
      TaggedValues(ps[1..], tag, k);
      assert Tagged(ps, tag)[1..] == Tagged(ps[1..], tag);
      assert ps == [ps[0]] + ps[1..];
    }
  }

  /** Stage two: both files through the map phase, then grouped by pair and reduced. */
  function StageTwo(edgeLines: seq<string>, candidateLines: seq<string>): (r: Result<seq<Record<string, int>>>)
    ensures r.Ok? <==> ParseEdges(edgeLines).Ok? && ParseEdges(candidateLines).Ok?
  {
    MapPairsTagged(true, edgeLines);
    MapPairsTagged(false, candidateLines);
    match MapPairs(true, edgeLines)
    case Err(e) => Err(e)
    case Ok(fromEdges) =>
      match MapPairs(false, candidateLines)
      case Err(e) => Err(e)
      case Ok(fromCandidates) => Ok(ReducePhase(DedupReduce, fromEdges + fromCandidates))
  }

  /** `x` is what stage two writes for a candidate `p` that is not an edge: the pair's text
      and the number of times it was proposed. */
  ghost predicate Suggested(edges: seq<NodePair>, candidates: seq<NodePair>, x: Record<string, int>) {
    exists p :: p in candidates && p !in edges && x == Record(Text(p), multiset(candidates)[p])
  }

  /** The values stage two's reducer sees for pair `k`: a 1 per edge `k`, a 2 per proposal. */
  lemma GroupOfPair(edges: seq<NodePair>, candidates: seq<NodePair>, k: NodePair)
    ensures var vs := ValuesOf(Tagged(edges, NODES_FILE) + Tagged(candidates, TRIADIC_FILE), k);
            |vs| == multiset(edges)[k] + multiset(candidates)[k]
            && (NODES_FILE in vs <==> k in edges)
  {
    ValuesOfAppend(Tagged(edges, NODES_FILE), Tagged(candidates, TRIADIC_FILE), k);
    TaggedValues(edges, NODES_FILE, k);
    TaggedValues(candidates, TRIADIC_FILE, k);
    var es := ValuesOf(Tagged(edges, NODES_FILE), k);
    if k in edges {
      assert es[0] in es;
    }
  }

  /** Each record stage two's reduce phase writes is a suggestion. */
  lemma DedupPhaseSound(edges: seq<NodePair>, candidates: seq<NodePair>, k: NodePair, x: Record<string, int>)
    requires Written(Tagged(edges, NODES_FILE) + Tagged(candidates, TRIADIC_FILE), k)
    requires x in DedupReduce(k, ValuesOf(Tagged(edges, NODES_FILE) + Tagged(candidates, TRIADIC_FILE), k))
    ensures Suggested(edges, candidates, x)
  {
    var rs := Tagged(edges, NODES_FILE) + Tagged(candidates, TRIADIC_FILE);
    GroupOfPair(edges, candidates, k);
    var i :| 0 <= i < |rs| && rs[i].key == k;
    ValuesOfMembership(rs, k, rs[i].value);
    assert rs[i] == Record(k, rs[i].value);
  }

  /** Each suggestion is a key of stage two's grouping, and its reducer writes it. */
  lemma DedupPhaseComplete(edges: seq<NodePair>, candidates: seq<NodePair>, p: NodePair)
    requires p in candidates && p !in edges
    ensures Written(Tagged(edges, NODES_FILE) + Tagged(candidates, TRIADIC_FILE), p)
    ensures Record(Text(p), multiset(candidates)[p])
            in DedupReduce(p, ValuesOf(Tagged(edges, NODES_FILE) + Tagged(candidates, TRIADIC_FILE), p))
  {
    var rs := Tagged(edges, NODES_FILE) + Tagged(candidates, TRIADIC_FILE);
    GroupOfPair(edges, candidates, p);
    var vs := ValuesOf(rs, p);
    assert vs[0] in vs;
    ValuesOfMembership(rs, p, vs[0]);
    var i :| 0 <= i < |rs| && rs[i] == Record(p, vs[0]);
    assert rs[i].key == p;
  }

  /** What stage two's reduce phase writes: the records of the candidates that are not
      already edges, counting their proposals; candidates that are edges, and edges, write
      nothing. */
  lemma DedupPhase(edges: seq<NodePair>, candidates: seq<NodePair>, x: Record<string, int>)
    ensures x in ReducePhase(DedupReduce, Tagged(edges, NODES_FILE) + Tagged(candidates, TRIADIC_FILE))
        <==> Suggested(edges, candidates, x)
  {
    var rs := Tagged(edges, NODES_FILE) + Tagged(candidates, TRIADIC_FILE);
    ReducePhaseMembership(DedupReduce, rs, x);
    if x in ReducePhase(DedupReduce, rs) {
      var k :| Written(rs, k) && x in DedupReduce(k, ValuesOf(rs, k));
      DedupPhaseSound(edges, candidates, k, x);
    }
    if Suggested(edges, candidates, x) {
      var p :| p in candidates && p !in edges && x == Record(Text(p), multiset(candidates)[p]);
      DedupPhaseComplete(edges, candidates, p);
    }
  }

  /** A key whose reducer writes something is a candidate that is not an edge. */
  lemma WritingKey(edges: seq<NodePair>, candidates: seq<NodePair>, k: NodePair)
    requires k in Keys(Tagged(edges, NODES_FILE) + Tagged(candidates, TRIADIC_FILE))
    requires DedupReduce(k, ValuesOf(Tagged(edges, NODES_FILE) + Tagged(candidates, TRIADIC_FILE), k)) != []
    ensures k in candidates && k !in edges
  {
    var rs := Tagged(edges, NODES_FILE) + Tagged(candidates, TRIADIC_FILE);
    GroupOfPair(edges, candidates, k);
    KeysMembership(rs, k);
    var i :| 0 <= i < |rs| && rs[i].key == k;
    ValuesOfMembership(rs, k, rs[i].value);
    assert rs[i] == Record(k, rs[i].value);
  }

  /** Two non-negative pairs with the same text are the same pair. */
  lemma TextInjective(p: NodePair, q: NodePair)
    requires NonNegative(p) && NonNegative(q) && Text(p) == Text(q)
    ensures p == q
  {
    TextRoundTrip(p);
    TextRoundTrip(q);
  }

  /** Among the keys of stage two, only the suggested pair's own reducer writes its record,
      and it writes it once. */
  lemma KeyWritesOnce(edges: seq<NodePair>, candidates: seq<NodePair>, p: NodePair, k: NodePair)
    requires forall q :: q in candidates ==> NonNegative(q)
    requires p in candidates && p !in edges
    requires k in Keys(Tagged(edges, NODES_FILE) + Tagged(candidates, TRIADIC_FILE))
    ensures var x := Record(Text(p), multiset(candidates)[p]);
            multiset(DedupReduce(k, ValuesOf(Tagged(edges, NODES_FILE) + Tagged(candidates, TRIADIC_FILE), k)))[x]
            == if k == p then 1 else 0
  {
    var rs := Tagged(edges, NODES_FILE) + Tagged(candidates, TRIADIC_FILE);
    var out := DedupReduce(k, ValuesOf(rs, k));
    GroupOfPair(edges, candidates, k);
    if k == p {
      assert out == [Record(Text(p), multiset(candidates)[p])];
    } else if out != [] {
      WritingKey(edges, candidates, k);
      assert Text(k) != Text(p) by {
        if Text(k) == Text(p) {
          TextInjective(k, p);
        }
      }
      assert out == [Record(Text(k), |ValuesOf(rs, k)|)];
    }
  }

  /** A suggestion is written exactly once by stage two's reduce phase. */
  lemma SuggestionOnce(edges: seq<NodePair>, candidates: seq<NodePair>, p: NodePair)
    requires forall q :: q in candidates ==> NonNegative(q)
    requires p in candidates && p !in edges
    ensures multiset(ReducePhase(DedupReduce, Tagged(edges, NODES_FILE) + Tagged(candidates, TRIADIC_FILE)))
                    [Record(Text(p), multiset(candidates)[p])] == 1
  {
    var rs := Tagged(edges, NODES_FILE) + Tagged(candidates, TRIADIC_FILE);
    var x := Record(Text(p), multiset(candidates)[p]);
    var ks := Keys(rs);
    forall k | k in ks
      ensures multiset(DedupReduce(k, ValuesOf(rs, k)))[x] == if k == p then 1 else 0
    {
      KeyWritesOnce(edges, candidates, p, k);
    }
    KeysDistinct(rs);
    DedupPhaseComplete(edges, candidates, p);
    KeysMembership(rs, p);
    ReduceAllOnce(DedupReduce, rs, ks, x, p);
  }

  /** Stage two writes each suggestion exactly once, and nothing else: no two keys write
      the same record, since the texts of non-negative pairs differ. */
  lemma DedupPhaseCount(edges: seq<NodePair>, candidates: seq<NodePair>, x: Record<string, int>)
    requires forall q :: q in candidates ==> NonNegative(q)
    ensures multiset(ReducePhase(DedupReduce, Tagged(edges, NODES_FILE) + Tagged(candidates, TRIADIC_FILE)))[x]
            == if Suggested(edges, candidates, x) then 1 else 0
  {
    DedupPhase(edges, candidates, x);
    if Suggested(edges, candidates, x) {
      var p :| p in candidates && p !in edges && x == Record(Text(p), multiset(candidates)[p]);
      SuggestionOnce(edges, candidates, p);
    }
  }

  // ================================================================ the job

  /** The driver: stage two runs only when stage one succeeded, on the edges file and stage
      one's lines. */
  function Run(edgeLines: seq<string>): (r: Result<seq<Record<string, int>>>)
    ensures r.Ok? <==> ParseEdges(edgeLines).Ok?
  {
    StageOneLines(edgeLines);
    MapPairsTagged(true, edgeLines);
    match StageOne(edgeLines)
    case Err(e) => Err(e)
    case Ok(candidateLines) =>
      CandidateLinesParse(edgeLines);
      StageTwo(edgeLines, candidateLines)
  }

  /** A single edge line that is not a pair fails the whole job. */
  lemma BadLineFailsRun(edgeLines: seq<string>, i: nat)
    requires i < |edgeLines| && FromString(edgeLines[i]).Err?
    ensures Run(edgeLines).Err?
  {
    ParseEdgesLines(edgeLines);
  }

  /** Stage one's lines always read back in stage two: they are texts of non-negative pairs. */
  lemma CandidateLinesParse(edgeLines: seq<string>)
    requires StageOne(edgeLines).Ok?
    ensures MapEdges(edgeLines).Ok?
    ensures MapPairs(false, StageOne(edgeLines).value)
            == Ok(Tagged(Proposed(MapEdges(edgeLines).value), TRIADIC_FILE))
  {
    StageOneLines(edgeLines);
    MapEdgesBothWays(edgeLines, Nodes.Node(0, 0), Nodes.Node(0, 0));
    var candidates := Proposed(MapEdges(edgeLines).value);
    forall p | p in candidates
      ensures NonNegative(p)
    {
      ProposedNonNegative(edgeLines, p);
    }
    ParseTexts(candidates);
    MapPairsTagged(false, MapSeq(Text, candidates));
  }

  /** End to end: the job succeeds exactly when every edge line parses, and then writes, for
      each pair proposed by stage one that is not an edge, its text and the number of times
      it was proposed, and nothing else. */
  lemma RunOutput(edgeLines: seq<string>, x: Record<string, int>)
    ensures Run(edgeLines).Ok? <==> ParseEdges(edgeLines).Ok?
    ensures Run(edgeLines).Ok? ==>
              (x in Run(edgeLines).value
               <==> Suggested(ParseEdges(edgeLines).value, Proposed(MapEdges(edgeLines).value), x))
  {
    StageOneLines(edgeLines);
    MapPairsTagged(true, edgeLines);
    if ParseEdges(edgeLines).Ok? {
      CandidateLinesParse(edgeLines);
      DedupPhase(ParseEdges(edgeLines).value, Proposed(MapEdges(edgeLines).value), x);
    }
  }

  /** The job writes each suggestion exactly once, and nothing else. */
  lemma RunOutputCount(edgeLines: seq<string>, x: Record<string, int>)
    ensures Run(edgeLines).Ok? ==>
              multiset(Run(edgeLines).value)[x]
              == if Suggested(ParseEdges(edgeLines).value, Proposed(MapEdges(edgeLines).value), x) then 1 else 0
  {
    StageOneLines(edgeLines);
    MapPairsTagged(true, edgeLines);
    if ParseEdges(edgeLines).Ok? {
      CandidateLinesParse(edgeLines);
      var candidates := Proposed(MapEdges(edgeLines).value);
      forall q | q in candidates
        ensures NonNegative(q)
      {
        ProposedNonNegative(edgeLines, q);
      }
      DedupPhaseCount(ParseEdges(edgeLines).value, candidates, x);
    }
  }

  /** No pair is ever suggested in the orientation an edge line gives it, under any count. */
  lemma NoEdgeSuggested(edgeLines: seq<string>, p: NodePair, c: int)
    requires ParseEdges(edgeLines).Ok? && p in ParseEdges(edgeLines).value
    ensures Run(edgeLines).Ok? && Record(Text(p), c) !in Run(edgeLines).value
  {
    RunOutput(edgeLines, Record(Text(p), c));
    MapEdgesBothWays(edgeLines, p.node1, p.node2);
    if Record(Text(p), c) in Run(edgeLines).value {
      var edges := ParseEdges(edgeLines).value;
      var candidates := Proposed(MapEdges(edgeLines).value);
      var q :| q in candidates && q !in edges && Record(Text(p), c) == Record(Text(q), multiset(candidates)[q]);
      ParsedNonNegative(edgeLines, p);
      ProposedNonNegative(edgeLines, q);
      TextRoundTrip(p);
      TextRoundTrip(q);
    }
  }

  /** A graph where every proposal is already an edge (closed under friend of a friend)
      gets no suggestion at all. */
  lemma ClosedGraph(edgeLines: seq<string>)
    requires ParseEdges(edgeLines).Ok? && MapEdges(edgeLines).Ok?
    requires forall p :: p in Proposed(MapEdges(edgeLines).value) ==> p in ParseEdges(edgeLines).value
    ensures Run(edgeLines) == Ok([])
  {
    var out := Run(edgeLines).value;
    if out != [] {
      RunOutput(edgeLines, out[0]);
    }
  }

  // ================================================================ two small graphs

  const N1 := Nodes.Node(1, 1)
  const N2 := Nodes.Node(1, 2)
  const N3 := Nodes.Node(1, 3)

  lemma NodeTexts()
    ensures Nodes.ToString(N1) == "1-1" && Nodes.ToString(N2) == "1-2" && Nodes.ToString(N3) == "1-3"
    ensures Text(NodePair(N1, N2)) == "1-1\t1-2" && Text(NodePair(N2, N3)) == "1-2\t1-3"
    ensures Text(NodePair(N1, N3)) == "1-1\t1-3"
  {
  }

  /** Stage one's map output for the path `1-1 - 1-2 - 1-3`. */
  function PathMapped(): seq<Record<Node, Node>> {
    [Record(N1, N2)] + ([Record(N2, N1)] + ([Record(N2, N3)] + [Record(N3, N2)]))
  }

  lemma PathKeys()
    ensures BothWays([NodePair(N1, N2), NodePair(N2, N3)]) == PathMapped()
    ensures Keys(PathMapped()) == [N1] + ([N2] + [N3])
  {
    var m2 := [Record(N2, N3)] + [Record(N3, N2)];
    KeysCons(Record(N3, N2), []);
    KeysCons(Record(N2, N3), [Record(N3, N2)]);
    KeysCons(Record(N2, N1), m2);
    KeysCons(Record(N1, N2), [Record(N2, N1)] + m2);
  }

  lemma PathValues(k: Node)
    ensures ValuesOf(PathMapped(), k) == if k == N2 then [N1, N3]
                                         else if k == N1 || k == N3 then [N2] else []
  {
    var m2 := [Record(N2, N3)] + [Record(N3, N2)];
    ValuesOfCons(Record(N3, N2), [], k);
    ValuesOfCons(Record(N2, N3), [Record(N3, N2)], k);
    ValuesOfCons(Record(N2, N1), m2, k);
    ValuesOfCons(Record(N1, N2), [Record(N2, N1)] + m2, k);
  }

  /** A hub with one neighbour proposes nothing; `1-2`'s two neighbours are one proposal. */
  lemma PathCandidates()
    ensures Candidates([N2]) == []
    ensures Candidates([N1, N3]) == [NodePair(N1, N3)]
  {
    Combinations.PairsCons(Canonical, N2, []);
    assert [N2] + [] == [N2];
    Combinations.PairsCons(Canonical, N1, [N3]);
    Combinations.PairsCons(Canonical, N3, []);
    Combinations.FanCons(Canonical, N1, N3, []);
    assert [N1] + [N3] == [N1, N3] && [N3] + [] == [N3];
    assert Nodes.Compare(N1, N3) < 0;
  }

  /** The path `1-1 - 1-2 - 1-3`: its one missing edge is proposed once, through `1-2`. */
  lemma PathProposed()
    ensures Proposed(BothWays([NodePair(N1, N2), NodePair(N2, N3)])) == [NodePair(N1, N3)]
  {
    var mapped := PathMapped();
    PathKeys();
    PathCandidates();
    assert HubCandidates(N1, ValuesOf(mapped, N1)) == [] by {
      PathValues(N1);
    }
    assert HubCandidates(N2, ValuesOf(mapped, N2)) == [NodePair(N1, N3)] by {
      PathValues(N2);
    }
    assert HubCandidates(N3, ValuesOf(mapped, N3)) == [] by {
      PathValues(N3);
    }
    ReduceAllThree(HubCandidates, mapped, N1, N2, N3, [], [NodePair(N1, N3)], []);
  }

  /** Stage two's map output for the path: both edges tagged 1, the proposal tagged 2. */
  function PathTagged(): seq<Record<NodePair, Int8>> {
    [Record(NodePair(N1, N2), NODES_FILE)]
    + ([Record(NodePair(N2, N3), NODES_FILE)] + [Record(NodePair(N1, N3), TRIADIC_FILE)])
  }

  lemma PathTaggedGroups(k: NodePair)
    ensures Tagged([NodePair(N1, N2), NodePair(N2, N3)], NODES_FILE)
            + Tagged([NodePair(N1, N3)], TRIADIC_FILE) == PathTagged()
    ensures Keys(PathTagged()) == [NodePair(N1, N2)] + ([NodePair(N2, N3)] + [NodePair(N1, N3)])
    ensures ValuesOf(PathTagged(), k)
         == if k == NodePair(N1, N3) then [TRIADIC_FILE]
            else if k == NodePair(N1, N2) || k == NodePair(N2, N3) then [NODES_FILE] else []
  {
    var r0, r1, r2 := Record(NodePair(N1, N2), NODES_FILE), Record(NodePair(N2, N3), NODES_FILE),
                      Record(NodePair(N1, N3), TRIADIC_FILE);
    KeysCons(r2, []);
    KeysCons(r1, [r2]);
    KeysCons(r0, [r1] + [r2]);
    ValuesOfCons(r2, [], k);
    ValuesOfCons(r1, [r2], k);
    ValuesOfCons(r0, [r1] + [r2], k);
  }

  /** Stage two for the path: only the proposal's group has no 1, and it has one value. */
  lemma PathDedup()
    ensures ReducePhase(DedupReduce, PathTagged()) == [Record(Text(NodePair(N1, N3)), 1)]
  {
    var e12, e23, p13 := NodePair(N1, N2), NodePair(N2, N3), NodePair(N1, N3);
    var rs := PathTagged();
    assert DedupReduce(e12, ValuesOf(rs, e12)) == [] by {
      PathTaggedGroups(e12);
    }
    assert DedupReduce(e23, ValuesOf(rs, e23)) == [] by {
      PathTaggedGroups(e23);
    }
    assert DedupReduce(p13, ValuesOf(rs, p13)) == [Record(Text(p13), 1)] by {
      PathTaggedGroups(p13);
    }
    PathTaggedGroups(p13);
    ReduceAllThree(DedupReduce, rs, e12, e23, p13, [], [], [Record(Text(p13), 1)]);
  }

  /** Stage one over the path writes the one proposal's line. */
  lemma PathStageOne()
    ensures StageOne(MapSeq(Text, [NodePair(N1, N2), NodePair(N2, N3)]))
            == Ok(MapSeq(Text, [NodePair(N1, N3)]))
  {
    var edges := [NodePair(N1, N2), NodePair(N2, N3)];
    var lines := MapSeq(Text, edges);
    assert MapEdges(lines) == Ok(BothWays(edges)) by {
      ParseTexts(edges);
      MapEdgesIsBothWays(lines);
    }
    assert Proposed(BothWays(edges)) == [NodePair(N1, N3)] by {
      PathProposed();
    }
    StageOneLines(lines);
  }

  /** The path's edge lines and its proposal's line. */
  lemma PathLines()
    ensures MapSeq(Text, [NodePair(N1, N2), NodePair(N2, N3)]) == ["1-1\t1-2", "1-2\t1-3"]
    ensures MapSeq(Text, [NodePair(N1, N3)]) == ["1-1\t1-3"]
  {
    NodeTexts();
    MapSeqAt(Text, [NodePair(N1, N2), NodePair(N2, N3)], 0);
    MapSeqAt(Text, [NodePair(N1, N2), NodePair(N2, N3)], 1);
    MapSeqAt(Text, [NodePair(N1, N3)], 0);
  }

  /** Stage two over the path's edges and its one proposal suggests that proposal once. */
  lemma PathStageTwo()
    ensures StageTwo(MapSeq(Text, [NodePair(N1, N2), NodePair(N2, N3)]), MapSeq(Text, [NodePair(N1, N3)]))
            == Ok([Record(Text(NodePair(N1, N3)), 1)])
  {
    var e12, e23, p13 := NodePair(N1, N2), NodePair(N2, N3), NodePair(N1, N3);
    ParseTexts([e12, e23]);
    ParseTexts([p13]);
    MapPairsTagged(true, MapSeq(Text, [e12, e23]));
    MapPairsTagged(false, MapSeq(Text, [p13]));
    PathTaggedGroups(p13);
    PathDedup();
  }

  /** Edges `1-1 - 1-2` and `1-2 - 1-3`: the job suggests `1-1 - 1-3`, proposed once. */
  lemma PathScenario()
    ensures Run(["1-1\t1-2", "1-2\t1-3"]) == Ok([Record("1-1\t1-3", 1)])
  {
    PathLines();
    PathStageOne();
    PathStageTwo();
    NodeTexts();
  }

  /** Stage one's map output for the triangle `1-1 - 1-2 - 1-3 - 1-1`. */
  function TriangleMapped(): seq<Record<Node, Node>> {
    [Record(N1, N2)] + ([Record(N2, N1)] + ([Record(N2, N3)] + ([Record(N3, N2)]
    + ([Record(N1, N3)] + [Record(N3, N1)]))))
  }

  lemma TriangleEdges()
    ensures BothWays([NodePair(N1, N2), NodePair(N2, N3), NodePair(N1, N3)]) == TriangleMapped()
  {
    BothWaysCons(NodePair(N1, N2), [NodePair(N2, N3), NodePair(N1, N3)]);
    BothWaysCons(NodePair(N2, N3), [NodePair(N1, N3)]);
    BothWaysCons(NodePair(N1, N3), []);
    assert [NodePair(N1, N2), NodePair(N2, N3), NodePair(N1, N3)]
        == [NodePair(N1, N2)] + ([NodePair(N2, N3)] + [NodePair(N1, N3)]);
  }

  lemma TriangleKeys()
    ensures Keys(TriangleMapped()) == [N2] + ([N1] + [N3])
  {
    var m4 := [Record(N1, N3)] + [Record(N3, N1)];
    var m3 := [Record(N3, N2)] + m4;
    var m2 := [Record(N2, N3)] + m3;
    KeysCons(Record(N3, N1), []);
    KeysCons(Record(N1, N3), [Record(N3, N1)]);
    KeysCons(Record(N3, N2), m4);
    KeysCons(Record(N2, N3), m3);
    KeysCons(Record(N2, N1), m2);
    KeysCons(Record(N1, N2), [Record(N2, N1)] + m2);
  }

  lemma TriangleValues(k: Node)
    ensures ValuesOf(TriangleMapped(), k) == if k == N1 then [N2, N3]
                                             else if k == N2 then [N1, N3]
                                             else if k == N3 then [N2, N1] else []
  {
    var m4 := [Record(N1, N3)] + [Record(N3, N1)];
    var m3 := [Record(N3, N2)] + m4;
    var m2 := [Record(N2, N3)] + m3;
    ValuesOfCons(Record(N3, N1), [], k);
    ValuesOfCons(Record(N1, N3), [Record(N3, N1)], k);
    ValuesOfCons(Record(N3, N2), m4, k);
    ValuesOfCons(Record(N2, N3), m3, k);
    ValuesOfCons(Record(N2, N1), m2, k);
    ValuesOfCons(Record(N1, N2), [Record(N2, N1)] + m2, k);
  }

  /** Two neighbours are one proposal. */
  lemma TwoNeighbours(a: Node, b: Node)
    ensures Candidates([a, b]) == [Canonical(a, b)]
  {
    Combinations.PairsCons(Canonical, a, [b]);
    Combinations.PairsCons(Canonical, b, []);
    Combinations.FanCons(Canonical, a, b, []);
    assert [a] + [b] == [a, b] && [b] + [] == [b];
  }

  /** Whichever way round two of the three nodes come, the smaller one is written first. */
  lemma TriangleCanonical()
    ensures Canonical(N1, N3) == NodePair(N1, N3) && Canonical(N2, N3) == NodePair(N2, N3)
    ensures Canonical(N2, N1) == NodePair(N1, N2)
  {
    assert Nodes.Compare(N1, N3) < 0 && Nodes.Compare(N2, N3) < 0 && Nodes.Compare(N2, N1) > 0;
  }

  /** In the triangle every hub proposes the edge between its other two nodes. */
  lemma TriangleProposed()
    ensures Proposed(TriangleMapped()) == [NodePair(N1, N3)] + ([NodePair(N2, N3)] + [NodePair(N1, N2)])
  {
    var mapped := TriangleMapped();
    TriangleKeys();
    TriangleCanonical();
    assert HubCandidates(N2, ValuesOf(mapped, N2)) == [NodePair(N1, N3)] by {
      TriangleValues(N2);
      TwoNeighbours(N1, N3);
    }
    assert HubCandidates(N1, ValuesOf(mapped, N1)) == [NodePair(N2, N3)] by {
      TriangleValues(N1);
      TwoNeighbours(N2, N3);
    }
    assert HubCandidates(N3, ValuesOf(mapped, N3)) == [NodePair(N1, N2)] by {
      TriangleValues(N3);
      TwoNeighbours(N2, N1);
    }
    ReduceAllThree(HubCandidates, mapped, N2, N1, N3,
                   [NodePair(N1, N3)], [NodePair(N2, N3)], [NodePair(N1, N2)]);
  }

  /** The triangle's edges, however their lines are spelled: every proposal is an edge. */
  lemma TriangleNothingSuggested()
    ensures Run(MapSeq(Text, [NodePair(N1, N2), NodePair(N2, N3), NodePair(N1, N3)])) == Ok([])
  {
    var edges := [NodePair(N1, N2), NodePair(N2, N3), NodePair(N1, N3)];
    var lines := MapSeq(Text, edges);
    ParseTexts(edges);
    assert Proposed(MapEdges(lines).value) == [NodePair(N1, N3)] + ([NodePair(N2, N3)] + [NodePair(N1, N2)]) by {
      MapEdgesIsBothWays(lines);
      TriangleEdges();
      TriangleProposed();
    }
    ClosedGraph(lines);
  }

  /** The triangle's edge lines. */
  lemma TriangleLines()
    ensures MapSeq(Text, [NodePair(N1, N2), NodePair(N2, N3), NodePair(N1, N3)])
            == ["1-1\t1-2", "1-2\t1-3", "1-1\t1-3"]
  {
    var es := [NodePair(N1, N2), NodePair(N2, N3), NodePair(N1, N3)];
    NodeTexts();
    MapSeqAt(Text, es, 0);
    MapSeqAt(Text, es, 1);
    MapSeqAt(Text, es, 2);
  }

  /** Edges `1-1 - 1-2`, `1-2 - 1-3` and `1-1 - 1-3`: every proposal is already an edge, so
      the job suggests nothing. */
  lemma TriangleScenario()
    ensures Run(["1-1\t1-2", "1-2\t1-3", "1-1\t1-3"]) == Ok([])
  {
    TriangleLines();
    TriangleNothingSuggested();
  }
}
