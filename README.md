# Triadic closure on Hadoop, modelled in Dafny

The system suggests new friendships in a social graph by triadic closure: two people
who share a friend should probably know each other. It reads an edges file, with one
relation `node1<TAB>node2` per line, where a node is written `tipo-codigo` (a byte
category and an int id). It then runs two MapReduce stages:

1. **Triangles.** The mapper writes every edge twice, keyed once by each end. The engine
   groups the records by node. For every two neighbours of a hub, the reducer writes the
   pair with the node that is smaller by `compareTo` first.
2. **Remove duplicates.** The mapper reads the edges file and stage one's output. It tags
   each pair 1 when it comes from the edges file and 2 otherwise. The engine groups by
   pair. The reducer drops every pair that carries a tag 1, because that pair is already
   an edge. It writes each remaining candidate with the number of times it was proposed.

The Dafny project models:

- the node and node-pair records: their text form, their order and their binary form
  (`nodes.dfy`, `node_pairs.dfy`);
- the parts of the Kotlin/JVM runtime those records rely on:
  - `split` and `toInt`/`toByte` (`kotlin_text.dfy`);
  - big-endian `DataOutput`/`DataInput` (`binary_io.dfy`);
- the four map and reduce bodies (`triadic_closure.dfy`). The triangle reducer is an
  imperative method, proved against the `Candidates` function;
- the combinatorics of the reducer's nested loops, with their order-freedom
  (`combinations.dfy`);
- the engine's group-by-key step (`grouping.dfy`);
- the two stages chained as the driver chains them (`pipeline.dfy`). It is proved end to
  end and on two small graphs: a path and a triangle;
- what the output means for the graph (`suggestions.dfy`): every two nodes with a common
  neighbour are proposed, and in a graph without duplicate edges a suggestion's count is
  their number of common neighbours.

Kotlin `Byte` and `Int` are the subset types `Int8` and `Int32`. Every `Int` subtraction
goes through `Wrap32`, the 32-bit wrap-around. A call that throws in Kotlin becomes an
`Err` of `Result`. A `context.write(k, v)` becomes one `Record(k, v)` appended to the
output sequence.

## Model

| member | source | states |
|---|---|---|
| KotlinText.Wrap32 | src/main/kotlin/pin/ramon/hadoop/grafos/NodeWritable.kt:50 | Int subtraction is the exact difference reduced modulo 2^32 into the signed range. It is the identity on values in range and shifts by 2^32 otherwise. |
| KotlinText.Wrap32DifferenceZero | src/main/kotlin/pin/ramon/hadoop/grafos/NodeWritable.kt:50-51 | A wrapped difference of two Ints is zero exactly when they are equal. |
| KotlinText.Split | src/main/kotlin/pin/ramon/hadoop/grafos/NodeWritable.kt:27 | `split` yields at least one field, and no field contains the delimiter. |
| KotlinText.SplitJoin | src/main/kotlin/pin/ramon/hadoop/grafos/NodeWritable.kt:27 | Gluing the fields back with the delimiter gives the original text, so no character is lost and empty fields are kept. |
| KotlinText.SplitNoDelimiter | src/main/kotlin/pin/ramon/hadoop/grafos/NodeWritable.kt:27 | A text without the delimiter is one field. |
| KotlinText.SplitFirstField | src/main/kotlin/pin/ramon/hadoop/grafos/NodeWritable.kt:27 | The first delimiter ends field 0, and the rest is split on its own. |
| KotlinText.SplitExtraField | src/main/kotlin/pin/ramon/hadoop/grafos/NodeWritable.kt:27 | A third field and whatever follows it leave the first two fields as they were. |
| KotlinText.NatToDigits | src/main/kotlin/pin/ramon/hadoop/grafos/NodeWritable.kt:55 | The decimal digits of a natural number form a non-empty string of digits without `-`. |
| KotlinText.DigitsRoundTrip | src/main/kotlin/pin/ramon/hadoop/grafos/NodeWritable.kt:55 | Reading back the digits of `n` gives `n`. |
| KotlinText.IntToString | src/main/kotlin/pin/ramon/hadoop/grafos/NodeWritable.kt:55 | `toString` of a number is non-empty and contains `-` exactly when the number is negative, where `-` is the first character. |
| KotlinText.IntToStringChars | src/main/kotlin/pin/ramon/hadoop/grafos/NodeWritable.kt:55 | `toString` of a number writes only a sign and decimal digits, so it never holds a tab. |
| KotlinText.ParseDecimal | src/main/kotlin/pin/ramon/hadoop/grafos/NodeWritable.kt:20 | A parsed number needs at least one character and is non-negative when the text has no `-`. |
| KotlinText.ToInt | src/main/kotlin/pin/ramon/hadoop/grafos/NodeWritable.kt:20 | `toInt` succeeds exactly when the text is a decimal number within the Int range, and then yields that number. |
| KotlinText.ToByte | src/main/kotlin/pin/ramon/hadoop/grafos/NodeWritable.kt:20 | `toByte` succeeds exactly when the text is a decimal number within the Byte range, and then yields that number. |
| KotlinText.IntToStringRoundTrip | src/main/kotlin/pin/ramon/hadoop/grafos/NodeWritable.kt:20-55 | Parsing `toString` of any integer, negative ones included, gives it back. |
| BinaryIO.ByteRoundTrip | src/main/kotlin/pin/ramon/hadoop/grafos/NodeWritable.kt:34-44 | Writing a signed byte and reading it back are inverse in both directions. |
| BinaryIO.IntBytes | src/main/kotlin/pin/ramon/hadoop/grafos/NodeWritable.kt:45 | An Int is written as four bytes. |
| BinaryIO.IntRoundTrip | src/main/kotlin/pin/ramon/hadoop/grafos/NodeWritable.kt:35-45 | Reading the four big-endian bytes of an Int gives the Int back. |
| BinaryIO.IntBytesRoundTrip | src/main/kotlin/pin/ramon/hadoop/grafos/NodeWritable.kt:35-45 | Every four bytes are the encoding of the Int they read as. |
| BinaryIO.DataOutput.WriteByte | src/main/kotlin/pin/ramon/hadoop/grafos/NodeWritable.kt:44 | The stream grows by exactly the byte's encoding. |
| BinaryIO.DataOutput.WriteInt | src/main/kotlin/pin/ramon/hadoop/grafos/NodeWritable.kt:45 | The stream grows by exactly the Int's four bytes. |
| BinaryIO.DataInput.ReadByte | src/main/kotlin/pin/ramon/hadoop/grafos/NodeWritable.kt:34 | An empty stream fails. Otherwise the first byte is consumed and returned signed. |
| BinaryIO.DataInput.ReadInt | src/main/kotlin/pin/ramon/hadoop/grafos/NodeWritable.kt:35 | Fewer than four bytes fail. Otherwise four bytes are consumed and returned as an Int. |
| Nodes.FromFields | src/main/kotlin/pin/ramon/hadoop/grafos/NodeWritable.kt:20 | The string constructor succeeds exactly when `tipo` reads as a Byte and `codigo` as an Int, with those values. Otherwise it fails with a number-format error. |
| Nodes.FromString | src/main/kotlin/pin/ramon/hadoop/grafos/NodeWritable.kt:26-29 | Succeeds exactly when the text splits on `-` into at least two fields, field 0 a decimal Byte and field 1 a decimal Int, and then holds those two numbers. Without a dash it fails with a missing field; otherwise a failure is a number-format error. Every node read is non-negative. |
| Nodes.SplitFirstFieldLength | src/main/kotlin/pin/ramon/hadoop/grafos/NodeWritable.kt:27-28 | A text with a dash splits into at least two fields. |
| Nodes.ToStringFields | src/main/kotlin/pin/ramon/hadoop/grafos/NodeWritable.kt:27-55 | How `toString` splits on `-`: two digit fields when nothing is negative, and an empty field where a sign stands. |
| Nodes.TextRoundTrip | src/main/kotlin/pin/ramon/hadoop/grafos/NodeWritable.kt:26-56 | `fromString(toString(n))` gives back `n` exactly when neither field is negative. |
| Nodes.ExtraFieldsIgnored | src/main/kotlin/pin/ramon/hadoop/grafos/NodeWritable.kt:26-29 | Fields after the second do not change the node read. |
| Nodes.ExtraFieldExample | src/main/kotlin/pin/ramon/hadoop/grafos/NodeWritable.kt:26-29 | `"1-2-3"` reads as the node `1-2`. |
| Nodes.Compare | src/main/kotlin/pin/ramon/hadoop/grafos/NodeWritable.kt:49-52 | `compareTo` is zero exactly for equal nodes, wrap-around or not. |
| Nodes.CompareIsBelow | src/main/kotlin/pin/ramon/hadoop/grafos/NodeWritable.kt:49-52 | Without overflow, the sign of `compareTo` is the order by `codigo` then `tipo`, in both directions. |
| Nodes.CompareAntisymmetric | src/main/kotlin/pin/ramon/hadoop/grafos/NodeWritable.kt:49-52 | Without overflow, `a < b` exactly when `b > a`. |
| Nodes.CompareTransitive | src/main/kotlin/pin/ramon/hadoop/grafos/NodeWritable.kt:49-52 | Without overflow, `compareTo` is transitive. |
| Nodes.NonNegativeNoOverflow | src/main/kotlin/pin/ramon/hadoop/grafos/NodeWritable.kt:50 | Non-negative nodes never overflow the subtraction. |
| Nodes.CompareSwap | src/main/kotlin/pin/ramon/hadoop/grafos/NodeWritable.kt:49-52 | Even with wrap-around, `a >= b` implies `b <= a`. Both directions compare negative exactly at half-range distance. |
| Nodes.OverflowFlipsSign | src/main/kotlin/pin/ramon/hadoop/grafos/NodeWritable.kt:50-51 | `Int.MIN_VALUE` is below 1 by `codigo`, yet `compareTo` calls it greater. |
| Nodes.Encode | src/main/kotlin/pin/ramon/hadoop/grafos/NodeWritable.kt:43-47 | A node is written as five bytes. |
| Nodes.Decode | src/main/kotlin/pin/ramon/hadoop/grafos/NodeWritable.kt:33-41 | The node read from five or more bytes is the one whose encoding the first five bytes are. |
| Nodes.BinaryRoundTrip | src/main/kotlin/pin/ramon/hadoop/grafos/NodeWritable.kt:33-47 | `write` then `readFields` is the identity, and every five bytes are some node's encoding. |
| Nodes.NodeWritable.constructor | src/main/kotlin/pin/ramon/hadoop/grafos/NodeWritable.kt:14-17 | The fields and the writables mirroring them hold the given values. |
| Nodes.NodeWritable.Default | src/main/kotlin/pin/ramon/hadoop/grafos/NodeWritable.kt:19 | The no-argument constructor builds node `0-0`. |
| Nodes.NodeWritable.Copy | src/main/kotlin/pin/ramon/hadoop/grafos/NodeWritable.kt:21 | The copy constructor builds a node equal to `other` by value and by `compareTo`. |
| Nodes.NodeWritable.ReadFields | src/main/kotlin/pin/ramon/hadoop/grafos/NodeWritable.kt:33-41 | Succeeds exactly when five bytes remain, consuming them, and then holds their decoding. A short stream is drained and leaves the fields unchanged, but may already have changed `tipoWritable`. |
| Nodes.NodeWritable.Write | src/main/kotlin/pin/ramon/hadoop/grafos/NodeWritable.kt:43-47 | Appends the writables' bytes, which is `Encode` of the node when they mirror the fields. |
| Nodes.WriteThenRead | src/main/kotlin/pin/ramon/hadoop/grafos/NodeWritable.kt:33-47 | A default node that reads what another node wrote becomes equal to it. |
| NodePairs.FromString | src/main/kotlin/pin/ramon/hadoop/grafos/NodePairWritable.kt:17-22 | Succeeds exactly when the text has at least two tab fields and both read as nodes; then field 0 is `node1` and field 1 is `node2`. Both are non-negative. |
| NodePairs.Text | src/main/kotlin/pin/ramon/hadoop/grafos/TriadicClosure.kt:105 | Specified by `TextFields` and `TextRoundTrip`: the text form of a pair that stage two writes. |
| NodePairs.TextFields | src/main/kotlin/pin/ramon/hadoop/grafos/TriadicClosure.kt:105 | The text `node1<TAB>node2` splits on its one tab into exactly the two node texts. |
| Nodes.ToString | src/main/kotlin/pin/ramon/hadoop/grafos/NodeWritable.kt:54-56 | A node's text holds the dash and never a tab; its fields and its round trip are stated by `ToStringFields` and `TextRoundTrip`. |
| NodePairs.TextRoundTrip | src/main/kotlin/pin/ramon/hadoop/grafos/NodePairWritable.kt:17-22 | Parsing `node1<TAB>node2` gives the pair back exactly when all four fields are non-negative. |
| NodePairs.ExtraFieldsIgnored | src/main/kotlin/pin/ramon/hadoop/grafos/NodePairWritable.kt:17-22 | Tab fields after the second are ignored. |
| NodePairs.NoTabFails | src/main/kotlin/pin/ramon/hadoop/grafos/NodePairWritable.kt:18-20 | A line without a tab is never a pair. |
| NodePairs.NoReordering | src/main/kotlin/pin/ramon/hadoop/grafos/NodePairWritable.kt:17-22 | Parsing keeps the larger node first when it is written first, so `1-3<TAB>1-1` and `1-1<TAB>1-3` are different keys. |
| NodePairs.Compare | src/main/kotlin/pin/ramon/hadoop/grafos/NodePairWritable.kt:36-43 | A null `other` compares as 1. Otherwise the result is zero exactly for equal pairs. |
| NodePairs.CompareIsBelow | src/main/kotlin/pin/ramon/hadoop/grafos/NodePairWritable.kt:36-43 | Without overflow, `compareTo` is the lexicographic node order, in both directions. |
| NodePairs.CompareAntisymmetric | src/main/kotlin/pin/ramon/hadoop/grafos/NodePairWritable.kt:36-43 | Without overflow, `p < q` exactly when `q > p`. |
| NodePairs.CompareTransitive | src/main/kotlin/pin/ramon/hadoop/grafos/NodePairWritable.kt:36-43 | Without overflow, the pair order is transitive. |
| NodePairs.NonNegativeNoOverflow | src/main/kotlin/pin/ramon/hadoop/grafos/NodePairWritable.kt:36-43 | Pairs read from text never overflow the comparison. |
| NodePairs.Encode | src/main/kotlin/pin/ramon/hadoop/grafos/NodePairWritable.kt:26-29 | A pair is written as ten bytes. |
| NodePairs.Decode | src/main/kotlin/pin/ramon/hadoop/grafos/NodePairWritable.kt:31-34 | The pair read from ten or more bytes is the one whose encoding the first ten bytes are. |
| NodePairs.BinaryRoundTrip | src/main/kotlin/pin/ramon/hadoop/grafos/NodePairWritable.kt:26-34 | `write` then `readFields` is the identity, and every ten bytes are some pair's encoding. |
| NodePairs.NodePairWritable.constructor | src/main/kotlin/pin/ramon/hadoop/grafos/NodePairWritable.kt:11 | The pair holds the two given node objects. |
| NodePairs.NodePairWritable.Default | src/main/kotlin/pin/ramon/hadoop/grafos/NodePairWritable.kt:13 | The no-argument constructor builds two fresh `0-0` nodes. |
| NodePairs.NodePairWritable.Write | src/main/kotlin/pin/ramon/hadoop/grafos/NodePairWritable.kt:26-29 | Always appends `node1`'s writables' bytes, then `node2`'s, and nothing else; this is `Encode` of the pair when both nodes mirror their fields. |
| NodePairs.NodePairWritable.ReadFields | src/main/kotlin/pin/ramon/hadoop/grafos/NodePairWritable.kt:31-34 | Succeeds exactly when ten bytes remain, consuming them: the two nodes read consecutive five-byte blocks. A failure drains the stream. Fewer than ten but at least five bytes leave `node1` read and `node2` unchanged; fewer than five leave both nodes' values unchanged. |
| Combinations.Fan | src/main/kotlin/pin/ramon/hadoop/grafos/TriadicClosure.kt:53-59 | One row of the nested loops writes one pair per later position. |
| Combinations.Pairs | src/main/kotlin/pin/ramon/hadoop/grafos/TriadicClosure.kt:52-60 | The nested loops write nothing exactly when there are fewer than two elements. Their contents, count and order-freedom are stated by `PairsMembership`, `PairsCount` and `PairsPermutation`. |
| Combinations.FanExtend | src/main/kotlin/pin/ramon/hadoop/grafos/TriadicClosure.kt:53-59 | One more inner-loop step appends the pair of `current` and `nodes[j]`. |
| Combinations.PairsFrom | src/main/kotlin/pin/ramon/hadoop/grafos/TriadicClosure.kt:52-60 | The pairs from position `i` on are row `i`, then the pairs from `i + 1` on. |
| Combinations.RowDone | src/main/kotlin/pin/ramon/hadoop/grafos/TriadicClosure.kt:52-60 | Finishing row `i` keeps the outer loop's invariant: written plus remaining equals all. |
| Combinations.PairsCount | src/main/kotlin/pin/ramon/hadoop/grafos/TriadicClosure.kt:52-60 | `n` neighbours give `n(n-1)/2` pairs. |
| Combinations.PairsMembership | src/main/kotlin/pin/ramon/hadoop/grafos/TriadicClosure.kt:52-60 | An element is written exactly when it is the pair at some two positions `i < j`. |
| Combinations.FanPermutation | src/main/kotlin/pin/ramon/hadoop/grafos/TriadicClosure.kt:53-59 | Permuting the later positions permutes the row. |
| Combinations.PairsMoveFront | src/main/kotlin/pin/ramon/hadoop/grafos/TriadicClosure.kt:52-60 | Moving one neighbour to the front permutes the pairs when the pairing is symmetric. |
| Combinations.PairsPermutation | src/main/kotlin/pin/ramon/hadoop/grafos/TriadicClosure.kt:52-60 | For a pairing symmetric on the neighbours, any order of the neighbours gives the same multiset of pairs. |
| Combinations.FanOnce | src/main/kotlin/pin/ramon/hadoop/grafos/TriadicClosure.kt:53-59 | Over distinct later neighbours, a row writes a pair once when the one neighbour that pairs to it is present, and never otherwise. |
| Combinations.PairsOnce | src/main/kotlin/pin/ramon/hadoop/grafos/TriadicClosure.kt:52-60 | Over distinct neighbours, a pair that only `a` and `b` produce is written once when both are present, and never otherwise. |
| TriadicClosure.TriangleMap | src/main/kotlin/pin/ramon/hadoop/grafos/TriadicClosure.kt:32-36 | The mapper fails exactly when the line is not a pair. Otherwise it writes `(node1, node2)` and then `(node2, node1)`. |
| TriadicClosure.Canonical | src/main/kotlin/pin/ramon/hadoop/grafos/TriadicClosure.kt:54-58 | The pair written is the two neighbours in some order, with the first never comparing greater than the second. |
| TriadicClosure.Candidates | src/main/kotlin/pin/ramon/hadoop/grafos/TriadicClosure.kt:52-60 | A hub proposes nothing exactly when it has fewer than two neighbours. Which pairs it proposes is stated by `CandidatesFromPositions`. |
| TriadicClosure.CanonicalSymmetric | src/main/kotlin/pin/ramon/hadoop/grafos/TriadicClosure.kt:54-58 | The order of the two neighbours matters exactly when their `codigo`s are 2^31 apart. |
| TriadicClosure.CandidatesFromPositions | src/main/kotlin/pin/ramon/hadoop/grafos/TriadicClosure.kt:52-60 | A hub writes exactly the canonical pairs of two of its neighbours, each smaller first. |
| TriadicClosure.NonNegativeNoHalfRange | src/main/kotlin/pin/ramon/hadoop/grafos/TriadicClosure.kt:54 | Neighbours read from text are never half a range apart. |
| TriadicClosure.CandidatesOrderFree | src/main/kotlin/pin/ramon/hadoop/grafos/TriadicClosure.kt:46-60 | Any order in which the engine delivers the neighbours gives the same multiset of pairs, barring half-range distance. |
| TriadicClosure.HalfRangeOrderMatters | src/main/kotlin/pin/ramon/hadoop/grafos/TriadicClosure.kt:54-58 | At half-range distance the delivery order changes the pair written. |
| TriadicClosure.MapSeqAppend | src/main/kotlin/pin/ramon/hadoop/grafos/TriadicClosure.kt:55-57 | Writing two runs of pairs writes each run's records in order. |
| TriadicClosure.MapSeqAt | src/main/kotlin/pin/ramon/hadoop/grafos/TriadicClosure.kt:55-57 | The record written at each position is the one for the pair at that position. |
| TriadicClosure.RowStep | src/main/kotlin/pin/ramon/hadoop/grafos/TriadicClosure.kt:53-59 | One more record written keeps the inner loop's invariant. |
| TriadicClosure.WriteRow | src/main/kotlin/pin/ramon/hadoop/grafos/TriadicClosure.kt:53-59 | The inner loop writes, in order, one record for `current` paired with each later neighbour: the written form of the canonical pair. |
| TriadicClosure.WritePair | src/main/kotlin/pin/ramon/hadoop/grafos/TriadicClosure.kt:54-58 | The inner loop's body writes the canonical pair of the two neighbours, smaller first. |
| TriadicClosure.TriangleReduce | src/main/kotlin/pin/ramon/hadoop/grafos/TriadicClosure.kt:46-60 | The reducer writes the text records of `Candidates(values)`, in loop order, which makes `n(n-1)/2` records for `n` values. |
| TriadicClosure.DedupMap | src/main/kotlin/pin/ramon/hadoop/grafos/TriadicClosure.kt:73-90 | The mapper fails exactly when the line is not a pair. Otherwise it writes the pair unchanged with tag 1 exactly when the line comes from the edges file, and 2 otherwise. |
| TriadicClosure.DuplicatedPairRemoverMapper.constructor | src/main/kotlin/pin/ramon/hadoop/grafos/TriadicClosure.kt:77 | The stored path starts as null. |
| TriadicClosure.DuplicatedPairRemoverMapper.Setup | src/main/kotlin/pin/ramon/hadoop/grafos/TriadicClosure.kt:79-81 | `setup` stores the configured edges path, or null when it is absent. |
| TriadicClosure.DuplicatedPairRemoverMapper.Map | src/main/kotlin/pin/ramon/hadoop/grafos/TriadicClosure.kt:83-90 | Tag 1 exactly when the split's path equals the stored one. A null path matches nothing. |
| TriadicClosure.DedupReduce | src/main/kotlin/pin/ramon/hadoop/grafos/TriadicClosure.kt:100-106 | Writes nothing exactly when a tag 1 is present. Otherwise writes one record: the pair's text and the number of tags. |
| TriadicClosure.DedupReduceOrderFree | src/main/kotlin/pin/ramon/hadoop/grafos/TriadicClosure.kt:100-106 | Any delivery order of the tags gives the same output. |
| Grouping.KeysMembership | src/main/kotlin/pin/ramon/hadoop/grafos/TriadicClosure.kt:34-46 | Exactly the keys that were written reach a reducer. |
| Grouping.KeysDistinct | src/main/kotlin/pin/ramon/hadoop/grafos/TriadicClosure.kt:46 | No key reaches a reducer twice. |
| Grouping.ValuesOf | src/main/kotlin/pin/ramon/hadoop/grafos/TriadicClosure.kt:46 | A key's group is no larger than the map output; its contents are stated by `ValuesOfMembership` and `ValuesOfCount`. |
| Grouping.ValuesOfMembership | src/main/kotlin/pin/ramon/hadoop/grafos/TriadicClosure.kt:100-102 | A value reaches key `k`'s reducer exactly when it was written under `k`. |
| Grouping.ValuesOfCount | src/main/kotlin/pin/ramon/hadoop/grafos/TriadicClosure.kt:46 | Each value reaches key `k`'s reducer as many times as it was written under `k`: the grouping loses and invents nothing. |
| Grouping.ValuesOfAppend | src/main/kotlin/pin/ramon/hadoop/grafos/TriadicClosure.kt:100 | Grouping two map outputs together concatenates each key's groups. |
| Grouping.ReduceAllMembership | src/main/kotlin/pin/ramon/hadoop/grafos/TriadicClosure.kt:100-102 | Reducing a list of keys writes exactly what the reducer writes for one of them. |
| Grouping.ReducePhaseMembership | src/main/kotlin/pin/ramon/hadoop/grafos/TriadicClosure.kt:100-102 | A reduce phase writes exactly what the reducer writes for some written key, given all its values. |
| Grouping.ReduceAllCount | src/main/kotlin/pin/ramon/hadoop/grafos/TriadicClosure.kt:46-60 | When each key's reducer writes a value once for a hit key and never otherwise, reducing distinct keys writes it once per hit key. |
| Grouping.ReduceAllOnce | src/main/kotlin/pin/ramon/hadoop/grafos/TriadicClosure.kt:100-106 | When only key `p`'s reducer writes a value, and writes it once, reducing distinct keys that include `p` writes it once. |
| Pipeline.ParseEdges | src/main/kotlin/pin/ramon/hadoop/grafos/TriadicClosure.kt:33 | Reading an edges file yields one pair per line; `ParseEdgesLines` states which. |
| Pipeline.ParseEdgesLines | src/main/kotlin/pin/ramon/hadoop/grafos/TriadicClosure.kt:33 | Reading the edges file succeeds exactly when every line reads as a pair, and then each position holds the pair its line reads as. |
| Pipeline.ParsedNonNegative | src/main/kotlin/pin/ramon/hadoop/grafos/TriadicClosure.kt:33 | Every pair read from the edges file is non-negative. |
| Pipeline.ParseEach | src/main/kotlin/pin/ramon/hadoop/grafos/TriadicClosure.kt:33 | When each line reads as the pair at its position, the file reads as exactly those pairs. |
| Pipeline.ParseTexts | src/main/kotlin/pin/ramon/hadoop/grafos/TriadicClosure.kt:55-88 | The lines stage one writes for non-negative pairs read back as exactly those pairs in stage two. |
| Pipeline.MapEdges | src/main/kotlin/pin/ramon/hadoop/grafos/TriadicClosure.kt:32-36 | A successful map phase writes two records per line. What they are is stated by `MapEdgesBothWays` and `MapEdgesIsBothWays`. |
| Pipeline.MapEdgesBothWays | src/main/kotlin/pin/ramon/hadoop/grafos/TriadicClosure.kt:32-36 | Stage one's map phase fails exactly when some line is bad. Otherwise it writes `(u, v)` exactly when `u` and `v` are adjacent. |
| Pipeline.MapEdgesIsBothWays | src/main/kotlin/pin/ramon/hadoop/grafos/TriadicClosure.kt:32-36 | Stage one's map output is every edge written forwards and then backwards, in line order. |
| Pipeline.StageOneLines | src/main/kotlin/pin/ramon/hadoop/grafos/TriadicClosure.kt:46-60 | Stage one's lines are the proposed pairs written as `node1<TAB>node2`, and stage one fails exactly when the edges fail to parse. |
| Pipeline.Line | src/main/kotlin/pin/ramon/hadoop/grafos/TriadicClosure.kt:55-57 | A line written for a tab-free key splits on its first tab into the key, then the value's own fields. |
| Pipeline.StageOne | src/main/kotlin/pin/ramon/hadoop/grafos/TriadicClosure.kt:30-64 | Stage one succeeds exactly when its map phase does, and then writes one line per proposed pair. The lines are stated by `StageOneLines`. |
| Pipeline.ProposedShareNeighbour | src/main/kotlin/pin/ramon/hadoop/grafos/TriadicClosure.kt:32-60 | Friend of a friend: every proposed pair is two neighbours of one hub, smaller first. |
| Pipeline.ProposedNonNegative | src/main/kotlin/pin/ramon/hadoop/grafos/TriadicClosure.kt:46-60 | Every proposed pair is made of non-negative nodes. |
| Pipeline.MapPairs | src/main/kotlin/pin/ramon/hadoop/grafos/TriadicClosure.kt:83-90 | A successful map phase writes one tagged record per line. The records are stated by `MapPairsTagged`. |
| Pipeline.MapPairsTagged | src/main/kotlin/pin/ramon/hadoop/grafos/TriadicClosure.kt:83-90 | Stage two's map over one file fails exactly when reading fails. Otherwise it tags every pair of the file with that file's tag. |
| Pipeline.TaggedValues | src/main/kotlin/pin/ramon/hadoop/grafos/TriadicClosure.kt:83-90 | A tagged file contributes its tag under `k` once per occurrence of `k`. |
| Pipeline.StageTwo | src/main/kotlin/pin/ramon/hadoop/grafos/TriadicClosure.kt:70-110 | Stage two succeeds exactly when every line of both files reads as a pair. Its output is stated by `DedupPhase` and `DedupPhaseCount`. |
| Pipeline.GroupOfPair | src/main/kotlin/pin/ramon/hadoop/grafos/TriadicClosure.kt:100-103 | A pair's group holds one tag per edge and per proposal, and contains tag 1 exactly when the pair is an edge. |
| Pipeline.DedupPhaseSound | src/main/kotlin/pin/ramon/hadoop/grafos/TriadicClosure.kt:100-106 | Everything stage two's reducers write is a suggestion. |
| Pipeline.DedupPhaseComplete | src/main/kotlin/pin/ramon/hadoop/grafos/TriadicClosure.kt:100-106 | Every candidate that is not an edge is written with its proposal count. |
| Pipeline.DedupPhase | src/main/kotlin/pin/ramon/hadoop/grafos/TriadicClosure.kt:100-106 | A record is in stage two's output exactly when it is the text of a candidate that is not an edge, with its proposal count. |
| Pipeline.WritingKey | src/main/kotlin/pin/ramon/hadoop/grafos/TriadicClosure.kt:100-106 | A key whose reducer writes something is a candidate and not an edge. |
| Pipeline.TextInjective | src/main/kotlin/pin/ramon/hadoop/grafos/TriadicClosure.kt:105 | Two non-negative pairs with the same key text are the same pair, so distinct keys write distinct records. |
| Pipeline.KeyWritesOnce | src/main/kotlin/pin/ramon/hadoop/grafos/TriadicClosure.kt:100-106 | Of all stage-two keys, only the suggested pair's reducer writes its record, and it writes it once. |
| Pipeline.SuggestionOnce | src/main/kotlin/pin/ramon/hadoop/grafos/TriadicClosure.kt:100-106 | Stage two writes each suggestion exactly once. |
| Pipeline.DedupPhaseCount | src/main/kotlin/pin/ramon/hadoop/grafos/TriadicClosure.kt:100-106 | Stage two writes exactly one record per candidate that is not an edge, holding its proposal count, and nothing else. This holds when the candidates are non-negative, as stage one's always are. |
| Pipeline.Run | src/main/kotlin/pin/ramon/hadoop/grafos/TriadicClosure.kt:119 | The job succeeds exactly when every edge line parses; its output is stated by `RunOutput`. |
| Pipeline.BadLineFailsRun | src/main/kotlin/pin/ramon/hadoop/grafos/TriadicClosure.kt:119 | One edge line that is not a pair fails the whole job. |
| Pipeline.CandidateLinesParse | src/main/kotlin/pin/ramon/hadoop/grafos/TriadicClosure.kt:83-90 | Stage one's output lines read back in stage two as exactly the proposed pairs, each tagged 2. |
| Pipeline.RunOutput | src/main/kotlin/pin/ramon/hadoop/grafos/TriadicClosure.kt:119 | The job succeeds exactly when every edge line parses. It then writes exactly the proposed pairs that are not edges, each with its proposal count. |
| Pipeline.RunOutputCount | src/main/kotlin/pin/ramon/hadoop/grafos/TriadicClosure.kt:119 | The job writes each suggestion exactly once and nothing else: the output has no duplicate lines. |
| Pipeline.NoEdgeSuggested | src/main/kotlin/pin/ramon/hadoop/grafos/TriadicClosure.kt:100-106 | An edge is never suggested in the orientation its line gives it, under any count. |
| Pipeline.ClosedGraph | src/main/kotlin/pin/ramon/hadoop/grafos/TriadicClosure.kt:100-106 | When every proposed pair is already an edge line, the job succeeds and writes nothing. |
| Pipeline.PathProposed | src/main/kotlin/pin/ramon/hadoop/grafos/TriadicClosure.kt:46-60 | On the path `1-1 — 1-2 — 1-3`, stage one proposes only `(1-1, 1-3)`. |
| Pipeline.PathStageOne | src/main/kotlin/pin/ramon/hadoop/grafos/TriadicClosure.kt:46-60 | On the path, stage one writes only the line for `(1-1, 1-3)`. |
| Pipeline.PathDedup | src/main/kotlin/pin/ramon/hadoop/grafos/TriadicClosure.kt:100-106 | On the path, stage two writes only `1-1<TAB>1-3` with count 1. |
| Pipeline.PathStageTwo | src/main/kotlin/pin/ramon/hadoop/grafos/TriadicClosure.kt:83-106 | On the path, stage two reads the edges and stage one's line and writes only that pair's text with count 1. |
| Pipeline.PathScenario | src/main/kotlin/pin/ramon/hadoop/grafos/TriadicClosure.kt:119 | The job on the path's two lines outputs exactly `("1-1\t1-3", 1)`. |
| Pipeline.TwoNeighbours | src/main/kotlin/pin/ramon/hadoop/grafos/TriadicClosure.kt:52-60 | A hub with two neighbours proposes their canonical pair alone. |
| Pipeline.TriangleProposed | src/main/kotlin/pin/ramon/hadoop/grafos/TriadicClosure.kt:46-60 | On a triangle, each hub proposes the pair of its other two nodes. |
| Pipeline.TriangleNothingSuggested | src/main/kotlin/pin/ramon/hadoop/grafos/TriadicClosure.kt:119 | On the triangle's three pair texts, the job succeeds and writes nothing. |
| Pipeline.TriangleScenario | src/main/kotlin/pin/ramon/hadoop/grafos/TriadicClosure.kt:119 | On a triangle, every proposal is an edge, so the job outputs nothing. |
| Suggestions.EdgesNonNegative | src/main/kotlin/pin/ramon/hadoop/grafos/TriadicClosure.kt:33 | Every node joined by an edge line is non-negative. |
| Suggestions.SharedNeighbourProposed | src/main/kotlin/pin/ramon/hadoop/grafos/TriadicClosure.kt:32-60 | Friend of a friend, the converse: two distinct nodes joined to a common hub are proposed, smaller node first, whatever order the lines come in. |
| Suggestions.SharedNeighbourSuggested | src/main/kotlin/pin/ramon/hadoop/grafos/TriadicClosure.kt:100-106 | Two distinct nodes with a common neighbour whose canonical pair is not an edge line are in the job's output, with their proposal count. |
| Suggestions.BothWaysAdjacent | src/main/kotlin/pin/ramon/hadoop/grafos/TriadicClosure.kt:34-35 | Stage one's map output holds `(u, v)` exactly when an edge line joins `u` and `v`, either way round. |
| Suggestions.NeighboursDistinct | src/main/kotlin/pin/ramon/hadoop/grafos/TriadicClosure.kt:46-49 | In a graph without self-loops or duplicate edges, a hub's reducer receives each neighbour once. |
| Suggestions.HubProposesOnce | src/main/kotlin/pin/ramon/hadoop/grafos/TriadicClosure.kt:46-60 | In such a graph a hub proposes the pair of `a` and `b` once when it is joined to both, and never otherwise. |
| Suggestions.HubsAreKeys | src/main/kotlin/pin/ramon/hadoop/grafos/TriadicClosure.kt:34-46 | Every common neighbour of two nodes is a key that stage one groups by. |
| Suggestions.ProposalCount | src/main/kotlin/pin/ramon/hadoop/grafos/TriadicClosure.kt:32-60 | In such a graph the pair of two distinct nodes is proposed exactly as many times as they have common neighbours. |
| Suggestions.SuggestionStrength | src/main/kotlin/pin/ramon/hadoop/grafos/TriadicClosure.kt:100-106 | In such a graph, two distinct nodes with a common neighbour and no edge line spelling their pair are output with the number of their common neighbours. |
| Suggestions.RepeatedNeighbourSelfPair | src/main/kotlin/pin/ramon/hadoop/grafos/TriadicClosure.kt:52-60 | A neighbour delivered twice, as a repeated edge delivers it, is paired with itself. |
| Suggestions.ReversedEdgeKept | src/main/kotlin/pin/ramon/hadoop/grafos/TriadicClosure.kt:100-106 | An edge line `1-2<TAB>1-1` does not stop the proposal `(1-1, 1-2)`: stage two outputs it with count 1. |
| Suggestions.ReversedTriangleHubs | src/main/kotlin/pin/ramon/hadoop/grafos/TriadicClosure.kt:32-60 | In a triangle whose first line names the larger node first, the graph is simple, the hub is the only common neighbour, and the canonical pair is not an edge line. |
| Suggestions.ReversedEdgeSuggested | src/main/kotlin/pin/ramon/hadoop/grafos/TriadicClosure.kt:119 | The job on that triangle suggests the edge `a b` that already exists, with count 1. |
| Suggestions.OrientedEdgesNeverSuggested | src/main/kotlin/pin/ramon/hadoop/grafos/TriadicClosure.kt:100-106 | When every edge line names the smaller node first, no two adjacent nodes are suggested, in either orientation. |

## Left out

- The driver and the command line (`TriadicClosureDriver.triadicCalculation`,
  `duplicatesRemover`, `TriadicClosureJob`) are left out:
  - the job configuration, the output-directory deletion and the exit codes are Hadoop
    and filesystem I/O;
  - `Run` models only the `&&` that runs stage two after stage one succeeds. It feeds
    stage two the edges file and stage one's lines.
- `Grouping` models a single reduce task, which is what both jobs get since the driver
  sets no reducer count.
  - Hadoop's hash partitioning across several reducers is not modelled. Neither
    `NodeWritable` nor `NodePairWritable` overrides `hashCode` or `equals`, so with
    several reducers equal keys could reach different reducers, splitting one key's group
    and breaking the counts and the edge filter.
  - Hadoop sorts keys by `compareTo`; `Grouping` delivers keys in an order of its own.
    With one reduce task this changes only the order of the output lines, and membership
    and counts are proved for any order.
  - Inside a group, values keep the order they were written in.
    `CandidatesOrderFree` and `DedupReduceOrderFree` show the reducers do not depend on
    that order.
  - Whether a key's `compareTo` is a total order is a precondition of the sort, and is
    stated only through `Nodes.CompareIsBelow` and `Nodes.CompareSwap`.
- Run: assumes that every split of the edges file has a path string equal to the
  configured `triadic.file.nodes`, so every edge line is tagged 1. The comparison in
  `DuplicatedPairRemoverMapper.map` is modelled by `DuplicatedPairRemoverMapper.Map`, but
  `Run` does not pass paths: a qualified split path that differs from the configured
  spelling would tag the edges 2 and turn them into candidates.
- Run: a suggestion's count is its number of proposals. `ProposalCount` and
  `SuggestionStrength` prove it is the number of common neighbours only for `Simple`
  graphs. A repeated or flipped duplicate edge line inflates counts, and a neighbour
  delivered twice yields a self-pair (`RepeatedNeighbourSelfPair`).
- Run: edges are matched by the exact pair a line spells, so an edge whose line names the
  larger node first is suggested (`ReversedEdgeKept`, `ReversedEdgeSuggested`).
  `NoEdgeSuggested` covers the written orientation only.
- `context.inputSplit` as a `FileSplit`: the split's path is a parameter of
  `DuplicatedPairRemoverMapper.Map`, and whether a line comes from the edges file is
  a boolean of `DedupMap`.
- The configuration object is a `map<string, string>`.
- `Text` and the Hadoop `Writable` wrappers are their values.
  - `TextOutputFormat` is the `Line` function: key, tab, value.
  - The triangle reducer's `Text` values are `Nodes.ToString` strings.
- Reading the edges and candidates files line by line (`TextInputFormat`) is a
  sequence of lines without line terminators.
- The defensive copy `NodeWritable(current)` in the triangle reducer copies values.
  It is modelled by `Nodes.NodeWritable.Copy`. The reducer keeps the values in a
  `seq`, so the object-reuse aliasing that the copy guards against is not modelled.
- `String.toInt`/`toByte` accept only ASCII digits here. The JVM's `Character.digit`
  also accepts other Unicode decimal digits.
- Exceptions carry only their kind (missing field or bad number), not the JVM exception
  class or message.
- `Nodes.NodeWritable`: the fields and their writables can disagree (`Mirrored` fails).
  Assigning `tipo` or `codigo` directly does not update the writables; no such assignment
  occurs in the modelled code, so no method for it exists. `ReadFields` on a stream with
  one to four bytes sets `tipoWritable` and then fails, which also breaks `Mirrored`;
  `NodePairWritable.Write` after that writes the writables' bytes, not `Encode` of the
  fields.
- `BinaryIO.DataInput.ReadInt`: on a short stream the bytes consumed before the end are
  dropped. The exact position after an `EOFException` is not used by any caller.
