/** `NodePairWritable`: an ordered pair of nodes, read from tab-separated text, ordered
    lexicographically by the node order, and serialised as the two node encodings one after
    the other. Nothing in the type puts the smaller node first. */
module NodePairs {
  import opened Wrappers
  import opened KotlinText
  import opened BinaryIO
  import Nodes

  datatype NodePair = NodePair(node1: Nodes.Node, node2: Nodes.Node)

  predicate NonNegative(p: NodePair) {
    Nodes.NonNegative(p.node1) && Nodes.NonNegative(p.node2)
  }

  // ---------------------------------------------------------------- text form

  /** The line shape pairs travel in: `node1`, a tab, `node2` (the key the deduplication
      reducer writes, and the line the triangle reducer's output format writes). */
  function Text(p: NodePair): string {
    Nodes.ToString(p.node1) + "\t" + Nodes.ToString(p.node2)
  }

  /** The line splits on its one tab into the two nodes' texts. */
  lemma TextFields(p: NodePair)
    ensures Split(Text(p), '\t') == [Nodes.ToString(p.node1), Nodes.ToString(p.node2)]
  {
    var a, b := Nodes.ToString(p.node1), Nodes.ToString(p.node2);
    assert Text(p) == a + ['\t'] + b;
    SplitFirstField(a, '\t', b);
    SplitNoDelimiter(b, '\t');
  }

  /** `fromString`: split on tab, parse field 0 as `node1`, then field 1 as `node2`; further
      fields are ignored. Field 0 is parsed before field 1 is looked up. */
  function FromString(s: string): (r: Result<NodePair>)
    ensures var data := Split(s, '\t');
            r.Ok? <==> |data| >= 2 && Nodes.FromString(data[0]).Ok? && Nodes.FromString(data[1]).Ok?
    ensures r.Ok? ==> NonNegative(r.value)
    ensures r.Ok? ==> var data := Split(s, '\t');
                      |data| >= 2 && Nodes.FromString(data[0]) == Ok(r.value.node1)
                      && Nodes.FromString(data[1]) == Ok(r.value.node2)
  {
    var data := Split(s, '\t');
    match Nodes.FromString(data[0])
    case Err(e) => Err(e)
    case Ok(node1) =>
      if |data| < 2 then Err(MissingField)
      else
        match Nodes.FromString(data[1])
        case Err(e) => Err(e)
        case Ok(node2) => Ok(NodePair(node1, node2))
  }

  /** Text round trip: parsing `node1.toString() + "\t" + node2.toString()` gives back the
      pair exactly when all four fields are non-negative. */
  lemma TextRoundTrip(p: NodePair)
    ensures FromString(Text(p)) == Ok(p) <==> NonNegative(p)
    ensures FromString(Text(p)).Ok? <==> NonNegative(p)
  {
    TextFields(p);
    Nodes.TextRoundTrip(p.node1);
    Nodes.TextRoundTrip(p.node2);
  }

  /** Fields past the second are ignored. */
  lemma ExtraFieldsIgnored(a: string, b: string, c: string)
    requires '\t' !in a && '\t' !in b
    ensures FromString(a + ['\t'] + b + ['\t'] + c) == FromString(a + ['\t'] + b)
  {
    SplitExtraField(a, b, c, '\t');
  }

  /** A text without a tab is not a pair, whatever its first field. */
  lemma NoTabFails(s: string)
    requires '\t' !in s
    ensures FromString(s).Err?
  {
    SplitNoDelimiter(s, '\t');
  }

  /** Parsing never reorders: `"1-3\t1-1"` keeps `1-3` first although it is the larger node,
      so it is a different key from `"1-1\t1-3"`. */
  lemma NoReordering()
    ensures FromString("1-3\t1-1") == Ok(NodePair(Nodes.Node(1, 3), Nodes.Node(1, 1)))
    ensures Nodes.Compare(Nodes.Node(1, 3), Nodes.Node(1, 1)) > 0
    ensures FromString("1-3\t1-1") != FromString("1-1\t1-3")
  {
    var big, small := Nodes.Node(1, 3), Nodes.Node(1, 1);
    assert Nodes.ToString(big) == "1-3" && Nodes.ToString(small) == "1-1";
    assert Text(NodePair(big, small)) == "1-3\t1-1";
    assert Text(NodePair(small, big)) == "1-1\t1-3";
    TextRoundTrip(NodePair(big, small));
    TextRoundTrip(NodePair(small, big));
  }

  // ---------------------------------------------------------------- order

  /** `compareTo(other)`: 1 for a null `other`; otherwise the `node1` comparison, or the
      `node2` comparison when the first nodes compare equal. */
  function Compare(p: NodePair, other: Option<NodePair>): (r: int)
    ensures other.None? ==> r == 1
    ensures other.Some? ==> (r == 0 <==> p == other.value)
  {
    match other
    case None => 1
    case Some(q) =>
      var first := Nodes.Compare(p.node1, q.node1);
      if first != 0 then first else Nodes.Compare(p.node2, q.node2)
  }

  /** The intended pair order: lexicographic over `Nodes.Below`. */
  predicate Below(p: NodePair, q: NodePair) {
    Nodes.Below(p.node1, q.node1) || (p.node1 == q.node1 && Nodes.Below(p.node2, q.node2))
  }

  predicate NoOverflow(p: NodePair, q: NodePair) {
    Nodes.NoOverflow(p.node1, q.node1) && Nodes.NoOverflow(p.node2, q.node2)
  }

  /** Without overflow, `compareTo` is the lexicographic order, in both directions. */
  lemma CompareIsBelow(p: NodePair, q: NodePair)
    requires NoOverflow(p, q)
    ensures Compare(p, Some(q)) < 0 <==> Below(p, q)
    ensures Compare(p, Some(q)) > 0 <==> Below(q, p)
  {
    Nodes.CompareIsBelow(p.node1, q.node1);
    Nodes.CompareIsBelow(p.node2, q.node2);
  }

  lemma CompareAntisymmetric(p: NodePair, q: NodePair)
    requires NoOverflow(p, q)
    ensures Compare(p, Some(q)) < 0 <==> Compare(q, Some(p)) > 0
  {
    CompareIsBelow(p, q);
    CompareIsBelow(q, p);
  }

  lemma CompareTransitive(p: NodePair, q: NodePair, s: NodePair)
    requires NoOverflow(p, q) && NoOverflow(q, s) && NoOverflow(p, s)
    requires Compare(p, Some(q)) < 0 && Compare(q, Some(s)) < 0
    ensures Compare(p, Some(s)) < 0
  {
    CompareIsBelow(p, q);
    CompareIsBelow(q, s);
    CompareIsBelow(p, s);
  }

  /** Pairs read from text never overflow the comparison. */
  lemma NonNegativeNoOverflow(p: NodePair, q: NodePair)
    requires NonNegative(p) && NonNegative(q)
    ensures NoOverflow(p, q)
  {
  }

  // ---------------------------------------------------------------- binary form

  /** `write`: `node1`'s five bytes, then `node2`'s. */
  function Encode(p: NodePair): (bs: seq<UInt8>)
    ensures |bs| == 10
  {
    Nodes.Encode(p.node1) + Nodes.Encode(p.node2)
  }

  /** `readFields` on a stream holding at least ten bytes. */
  function Decode(bs: seq<UInt8>): (p: NodePair)
    requires |bs| >= 10
    ensures Encode(p) == bs[..10]
  {
    assert bs[5..][..5] == bs[5..10] && bs[..10] == bs[..5] + bs[5..10];
    NodePair(Nodes.Decode(bs), Nodes.Decode(bs[5..]))
  }

  /** The binary form is a bijection between pairs and ten-byte strings. */
  lemma BinaryRoundTrip(p: NodePair, bs: seq<UInt8>)
    requires |bs| == 10
    ensures Decode(Encode(p)) == p
    ensures Encode(Decode(bs)) == bs
  {
    var e := Encode(p);
    assert e[..5] == Nodes.Encode(p.node1) && e[5..] == Nodes.Encode(p.node2);
    Nodes.BinaryRoundTrip(p.node1, bs[..5]);
    Nodes.BinaryRoundTrip(p.node2, bs[5..]);
    assert Nodes.Decode(e) == Nodes.Decode(e[..5]);
    assert Nodes.Decode(bs) == Nodes.Decode(bs[..5]);
    assert bs == bs[..5] + bs[5..];
  }

  /** A pair object: two node objects that `readFields` overwrites in place. */
  class NodePairWritable {
    const node1: Nodes.NodeWritable
    const node2: Nodes.NodeWritable

    function Value(): NodePair
      reads node1, node2
    {
      NodePair(node1.Value(), node2.Value())
    }

    constructor (node1: Nodes.NodeWritable, node2: Nodes.NodeWritable)
      ensures this.node1 == node1 && this.node2 == node2
    {
      this.node1, this.node2 := node1, node2;
    }

    /** `NodePairWritable()`: two fresh default nodes. */
    constructor Default()
      ensures fresh(node1) && fresh(node2)
      ensures Value() == NodePair(Nodes.Node(0, 0), Nodes.Node(0, 0))
      ensures node1.Mirrored() && node2.Mirrored()
    {
      node1 := new Nodes.NodeWritable.Default();
      node2 := new Nodes.NodeWritable.Default();
    }

    /** `write`: the first node's writables, then the second's; when the writables mirror
        the fields this is `Encode` of the pair. */
    method Write(output: DataOutput)
      modifies output
      ensures output.bytes == old(output.bytes)
                              + [ByteOf(node1.tipoWritable)] + IntBytes(node1.codigoWritable)
                              + [ByteOf(node2.tipoWritable)] + IntBytes(node2.codigoWritable)
      ensures node1.Mirrored() && node2.Mirrored() ==>
                output.bytes == old(output.bytes) + Encode(Value())
    {
      node1.Write(output);
      node2.Write(output);
    }

    /** `readFields`: the first node reads five bytes, then the second node reads the next
        five. Should both fields name one object, that object ends with the second read. */
    method ReadFields(input: DataInput) returns (ok: bool)
      modifies node1, node2, input
      ensures ok <==> |old(input.rest)| >= 10
      ensures !ok ==> input.rest == []
      ensures ok ==> node2.Value() == Nodes.Decode(old(input.rest)[5..]) && node2.Mirrored()
                     && input.rest == old(input.rest)[10..]
      ensures ok && node1 != node2 ==> Value() == Decode(old(input.rest)) && node1.Mirrored()
      ensures !ok && |old(input.rest)| >= 5 ==> node1.Value() == Nodes.Decode(old(input.rest))
      ensures !ok && |old(input.rest)| >= 5 && node1 != node2 ==>
                node1.Mirrored() && node2.Value() == old(node2.Value())
      ensures |old(input.rest)| < 5 ==> node1.Value() == old(node1.Value())
                                         && node2.Value() == old(node2.Value())
    {
      ok := node1.ReadFields(input);
      if !ok {
        return;
      }
      ok := node2.ReadFields(input);
      if ok {
        assert old(input.rest)[5..][5..] == old(input.rest)[10..];
      }
    }
  }
}
