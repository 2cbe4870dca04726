/** `NodeWritable`: the identity of a graph node, a byte `tipo` (the node category) and an
    int `codigo` (the node id). Its text form is `"tipo-codigo"`, its binary form the byte
    followed by the int in four big-endian bytes, and its order compares `codigo` first and
    `tipo` on ties, by 32-bit subtraction. */
module Nodes {
  import opened Wrappers
  import opened KotlinText
  import opened BinaryIO

  datatype Node = Node(tipo: Int8, codigo: Int32)

  /** Both fields are at least zero: the nodes whose text form can be read back. */
  predicate NonNegative(n: Node) {
    n.tipo >= 0 && n.codigo >= 0
  }

  // ---------------------------------------------------------------- text form

  /** `toString()`: `tipo`, a dash, `codigo`. Only signs, digits and the dash appear, so the
      text never holds the tab that separates the two nodes of a pair. */
  function ToString(n: Node): (s: string)
    ensures '-' in s && '\t' !in s
  {
    var t, c := IntToString(n.tipo), IntToString(n.codigo);
    IntToStringChars(n.tipo);
    IntToStringChars(n.codigo);
    assert t + "-" + c == t + ['-'] + c;
    assert (t + ['-'] + c)[|t|] == '-';
    t + "-" + c
  }

  /** The secondary constructor `NodeWritable(tipo: String, codigo: String)`: `tipo.toByte()`
      then `codigo.toInt()`, either failing with `NumberFormatException`. */
  function FromFields(tipo: string, codigo: string): (r: Result<Node>)
    ensures r.Ok? <==> ToByte(tipo).Some? && ToInt(codigo).Some?
    ensures r.Ok? ==> (ParseDecimal(tipo) == Some(r.value.tipo as int)
                       && ParseDecimal(codigo) == Some(r.value.codigo as int))
    ensures r.Err? ==> r.error == BadNumber
  {
    match ToByte(tipo)
    case None => Err(BadNumber)
    case Some(t) =>
      match ToInt(codigo)
      case None => Err(BadNumber)
      case Some(c) => Ok(Node(t, c))
  }

  /** `fromString`: split on `-`, read field 0 as `tipo` and field 1 as `codigo`; further
      fields are ignored. A text without `-` has no field 1, and a field that is not a
      decimal number in range fails to parse. Since `-` is the separator, no field can
      carry a minus sign, so every node read from text is non-negative. */
  function FromString(s: string): (r: Result<Node>)
    ensures '-' !in s ==> r == Err(MissingField)
    ensures var d := Split(s, '-');
            r.Ok? <==> |d| >= 2 && ToByte(d[0]).Some? && ToInt(d[1]).Some?
    ensures var d := Split(s, '-');
            r.Ok? ==> |d| >= 2 && ParseDecimal(d[0]) == Some(r.value.tipo as int)
                      && ParseDecimal(d[1]) == Some(r.value.codigo as int)
    ensures r.Err? ==> r.error == if |Split(s, '-')| < 2 then MissingField else BadNumber
    ensures r.Ok? ==> NonNegative(r.value)
  {
    var data := Split(s, '-');
    if |data| < 2 then
      assert '-' in s ==> |data| >= 2 by {
        if '-' in s {
          var i :| 0 <= i < |s| && s[i] == '-';
          assert s == s[..i] + ['-'] + s[i + 1..];
          SplitFirstFieldLength(s[..i], s[i + 1..]);
        }
      }
      Err(MissingField)
    else
      assert '-' in s by {
        if '-' !in s { SplitNoDelimiter(s, '-'); }
      }
      FromFields(data[0], data[1])
  }

  /** Any text with a dash in it splits into at least two fields. */
  lemma {:induction false} SplitFirstFieldLength(a: string, b: string)
    ensures |Split(a + ['-'] + b, '-')| >= 2
    decreases |a|
  {
    if a != [] {
      assert (a + ['-'] + b)[1..] == a[1..] + ['-'] + b;
      SplitFirstFieldLength(a[1..], b);
    } else {
      assert a + ['-'] + b == ['-'] + b;
      assert (['-'] + b)[1..] == b;
    }
  }

  /** How `ToString` splits: the digits of `tipo`, then the digits of `codigo`, each sign
      becoming an empty field of its own. */
  lemma ToStringFields(n: Node)
    ensures n.tipo >= 0 && n.codigo >= 0 ==>
              Split(ToString(n), '-') == [IntToString(n.tipo), IntToString(n.codigo)]
    ensures n.tipo < 0 ==> Split(ToString(n), '-')[0] == []
    ensures n.tipo >= 0 && n.codigo < 0 ==>
              |Split(ToString(n), '-')| >= 2 && Split(ToString(n), '-')[1] == []
  {
    var t, c := IntToString(n.tipo), IntToString(n.codigo);
    assert ToString(n) == t + ['-'] + c;
    if n.tipo >= 0 {
      assert Split(t + ['-'] + c, '-') == [t] + Split(c, '-') by {
        SplitFirstField(t, '-', c);
      }
      if n.codigo >= 0 {
        SplitNoDelimiter(c, '-');
      } else {
        assert c == [] + ['-'] + c[1..];
        SplitFirstField([], '-', c[1..]);
      }
    } else {
      assert Split(t + ['-'] + c, '-')[0] == [] by {
        assert t + ['-'] + c == [] + ['-'] + (t[1..] + ['-'] + c);
        SplitFirstField([], '-', t[1..] + ['-'] + c);
      }
    }
  }

  /** Text round trip: `fromString(n.toString())` gives back `n` exactly when neither field
      is negative; with a negative field the sign's dash is taken for a separator and an
      empty field fails to parse. */
  lemma TextRoundTrip(n: Node)
    ensures FromString(ToString(n)) == Ok(n) <==> NonNegative(n)
    ensures FromString(ToString(n)).Ok? <==> NonNegative(n)
  {
    ToStringFields(n);
    if NonNegative(n) {
      IntToStringRoundTrip(n.tipo);
      IntToStringRoundTrip(n.codigo);
    }
  }

  /** Only the first two dash-separated fields are read: `"1-2-3"` is the node `1-2`. */
  lemma ExtraFieldsIgnored(a: string, b: string, c: string)
    requires '-' !in a && '-' !in b
    ensures FromString(a + ['-'] + b + ['-'] + c) == FromString(a + ['-'] + b)
  {
    SplitExtraField(a, b, c, '-');
  }

  lemma ExtraFieldExample()
    ensures FromString("1-2-3") == Ok(Node(1, 2))
  {
    ExtraFieldsIgnored("1", "2", "3");
    assert "1-2-3" == "1" + ['-'] + "2" + ['-'] + "3";
    assert "1-2" == "1" + ['-'] + "2";
    TextRoundTrip(Node(1, 2));
    assert ToString(Node(1, 2)) == "1-2";
  }

  // ---------------------------------------------------------------- order

  /** `compareTo`: the 32-bit difference of the `codigo`s, or when that is zero the difference
      of the `tipo`s. It is zero exactly for equal nodes, wrap-around or not. */
  function Compare(a: Node, b: Node): (r: int)
    ensures r == 0 <==> a == b
  {
    Wrap32DifferenceZero(a.codigo, b.codigo);
    var res := Wrap32(a.codigo - b.codigo);
    if res == 0 then a.tipo - b.tipo else res
  }

  /** The order `compareTo` is meant to implement: by `codigo`, then by `tipo`. */
  predicate Below(a: Node, b: Node) {
    a.codigo < b.codigo || (a.codigo == b.codigo && a.tipo < b.tipo)
  }

  /** `codigo - other.codigo` fits in an `Int` whichever way round it is taken. */
  predicate NoOverflow(a: Node, b: Node) {
    INT_MIN < a.codigo - b.codigo <= INT_MAX
  }

  /** Without overflow, the sign of `compareTo` is the intended order, both ways. */
  lemma CompareIsBelow(a: Node, b: Node)
    requires NoOverflow(a, b)
    ensures Compare(a, b) < 0 <==> Below(a, b)
    ensures Compare(a, b) > 0 <==> Below(b, a)
  {
  }

  lemma CompareAntisymmetric(a: Node, b: Node)
    requires NoOverflow(a, b)
    ensures Compare(a, b) < 0 <==> Compare(b, a) > 0
  {
    CompareIsBelow(a, b);
    CompareIsBelow(b, a);
  }

  lemma CompareTransitive(a: Node, b: Node, c: Node)
    requires NoOverflow(a, b) && NoOverflow(b, c) && NoOverflow(a, c)
    requires Compare(a, b) < 0 && Compare(b, c) < 0
    ensures Compare(a, c) < 0
  {
    CompareIsBelow(a, b);
    CompareIsBelow(b, c);
    CompareIsBelow(a, c);
  }

  /** Nodes read from text never overflow the comparison. */
  lemma NonNegativeNoOverflow(a: Node, b: Node)
    requires NonNegative(a) && NonNegative(b)
    ensures NoOverflow(a, b) && NoOverflow(b, a)
  {
  }

  /** The `codigo`s lie exactly 2^31 apart: the one distance at which both subtractions
      wrap to `Int.MIN_VALUE`. */
  predicate HalfRangeApart(a: Node, b: Node) {
    a.codigo - b.codigo == INT_MIN || b.codigo - a.codigo == INT_MIN
  }

  /** With wrap-around, a node that is not below another (compareTo >= 0) still has the
      other not above it; both directions compare negative exactly at half-range distance. */
  lemma CompareSwap(a: Node, b: Node)
    ensures Compare(a, b) >= 0 ==> Compare(b, a) <= 0
    ensures Compare(a, b) < 0 && Compare(b, a) < 0 <==> HalfRangeApart(a, b)
  {
    var d := a.codigo - b.codigo;
    if d != 0 {
      assert Wrap32(d) != 0 && Wrap32(-d) != 0 by {
        Wrap32DifferenceZero(a.codigo, b.codigo);
        Wrap32DifferenceZero(b.codigo, a.codigo);
      }
      if d == -INT_MIN {
        assert Wrap32(d) == INT_MIN;
      } else if d > INT_MAX {
        assert Wrap32(d) == d - TWO_32;
        assert Wrap32(-d) == TWO_32 - d;
      } else if d < INT_MIN {
        assert Wrap32(d) == d + TWO_32;
        assert Wrap32(-d) == -d - TWO_32;
      } else if d == INT_MIN {
        assert Wrap32(-d) == INT_MIN;
      }
    }
  }

  /** The sign flips on overflow: `Int.MIN_VALUE` is below `1` by `codigo`, yet `compareTo`
      calls it greater. */
  lemma OverflowFlipsSign()
    ensures Below(Node(0, INT_MIN), Node(0, 1))
    ensures Compare(Node(0, INT_MIN), Node(0, 1)) > 0
  {
  }

  // ---------------------------------------------------------------- binary form

  /** `write`: the `tipo` byte, then `codigo` in four big-endian bytes. */
  function Encode(n: Node): (bs: seq<UInt8>)
    ensures |bs| == 5
  {
    [ByteOf(n.tipo)] + IntBytes(n.codigo)
  }

  /** `readFields` on a stream holding at least five bytes: the node whose encoding the first
      five bytes are. */
  function Decode(bs: seq<UInt8>): (n: Node)
    requires |bs| >= 5
    ensures Encode(n) == bs[..5]
  {
    ByteRoundTrip(SignedByte(bs[0]), bs[0]);
    IntBytesRoundTrip(bs[1..5]);
    assert bs[..5] == [bs[0]] + bs[1..5];
    Node(SignedByte(bs[0]), IntOfBytes(bs[1..5]))
  }

  /** The binary form is a bijection between nodes and five-byte strings. */
  lemma BinaryRoundTrip(n: Node, bs: seq<UInt8>)
    requires |bs| == 5
    ensures Decode(Encode(n)) == n
    ensures Encode(Decode(bs)) == bs
  {
    ByteRoundTrip(n.tipo, bs[0]);
    IntRoundTrip(n.codigo);
    assert Encode(n)[1..5] == IntBytes(n.codigo);
    IntBytesRoundTrip(bs[1..5]);
    assert bs == [bs[0]] + bs[1..5];
  }

  /** A node object: the fields `tipo` and `codigo` and the Hadoop writables that mirror them
      and are what `write` serialises. */
  class NodeWritable {
    var tipo: Int8
    var codigo: Int32
    var tipoWritable: Int8
    var codigoWritable: Int32

    function Value(): Node
      reads this
    {
      Node(tipo, codigo)
    }

    /** The writables hold the same values as the fields. */
    predicate Mirrored()
      reads this
    {
      tipoWritable == tipo && codigoWritable == codigo
    }

    /** The primary constructor. */
    constructor (tipo: Int8, codigo: Int32)
      ensures Value() == Node(tipo, codigo) && Mirrored()
    {
      this.tipo, this.codigo := tipo, codigo;
      tipoWritable, codigoWritable := tipo, codigo;
    }

    /** `NodeWritable()`: the node `0-0`. */
    constructor Default()
      ensures Value() == Node(0, 0) && Mirrored()
    {
      tipo, codigo := 0, 0;
      tipoWritable, codigoWritable := 0, 0;
    }

    /** The copy constructor: a distinct object that compares equal to `other`. */
    constructor Copy(other: NodeWritable)
      ensures Value() == other.Value() && Mirrored()
      ensures Compare(Value(), other.Value()) == 0
    {
      tipo, codigo := other.tipo, other.codigo;
      tipoWritable, codigoWritable := other.tipo, other.codigo;
    }

    /** `readFields`: the byte into `tipoWritable`, the int into `codigoWritable`, then both
        copied to the fields. A short stream throws part-way: with one to four bytes left,
        `tipoWritable` has already changed while the fields have not. */
    method ReadFields(input: DataInput) returns (ok: bool)
      modifies this, input
      ensures ok <==> |old(input.rest)| >= 5
      ensures ok ==> Value() == Decode(old(input.rest)) && Mirrored()
                     && input.rest == old(input.rest)[5..]
      ensures !ok ==> tipo == old(tipo) && codigo == old(codigo)
                      && codigoWritable == old(codigoWritable) && input.rest == []
      ensures !ok ==> tipoWritable == if old(input.rest) == [] then old(tipoWritable)
                                      else SignedByte(old(input.rest)[0])
    {
      var t := input.ReadByte();
      if t.None? {
        return false;
      }
      tipoWritable := t.value;
      var c := input.ReadInt();
      if c.None? {
        return false;
      }
      codigoWritable := c.value;
      tipo := tipoWritable;
      codigo := codigoWritable;
      ok := true;
      assert old(input.rest)[1..][..4] == old(input.rest)[1..5];
    }

    /** `write`: the writables, byte then int; when they mirror the fields this is `Encode`. */
    method Write(output: DataOutput)
      modifies output
      ensures output.bytes == old(output.bytes) + [ByteOf(tipoWritable)] + IntBytes(codigoWritable)
      ensures Mirrored() ==> output.bytes == old(output.bytes) + Encode(Value())
    {
      output.WriteByte(tipoWritable);
      output.WriteInt(codigoWritable);
    }
  }

  /** What a writer and a reader agree on: a fresh default node that reads what another node
      wrote ends up equal to it. */
  method WriteThenRead(n: NodeWritable) returns (copy: NodeWritable, ok: bool)
    requires n.Mirrored()
    ensures ok && copy.Value() == n.Value() && copy.Mirrored()
  {
    var output := new DataOutput();
    n.Write(output);
    var input := new DataInput(output.bytes);
    copy := new NodeWritable.Default();
    ok := copy.ReadFields(input);
    BinaryRoundTrip(n.Value(), output.bytes);
  }
}
