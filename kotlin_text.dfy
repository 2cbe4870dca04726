/** The pieces of the Kotlin/JVM runtime that the node text form relies on:
    the fixed-width integer ranges, `Int` subtraction with wrap-around,
    `String.split` on one delimiter, `Byte.toString` / `Int.toString`, and
    `String.toByte` / `String.toInt` (which are `java.lang.Byte.parseByte` and
    `java.lang.Integer.parseInt` in radix 10). */
module KotlinText {
  import opened Wrappers

  const BYTE_MIN: int := -0x80
  const BYTE_MAX: int := 0x7f
  const INT_MIN: int := -0x8000_0000
  const INT_MAX: int := 0x7fff_ffff
  const TWO_32: int := 0x1_0000_0000

  /** Kotlin `Byte`. */
  type Int8 = x: int | -0x80 <= x <= 0x7f
  /** Kotlin `Int`. */
  type Int32 = x: int | -0x8000_0000 <= x <= 0x7fff_ffff

  /** Kotlin `Int` arithmetic: the exact result reduced modulo 2^32 into the signed range. */
  function Wrap32(x: int): (r: Int32)
    ensures (x - r) % TWO_32 == 0
    ensures INT_MIN <= x <= INT_MAX ==> r == x
    ensures INT_MIN <= x - TWO_32 <= INT_MAX ==> r == x - TWO_32
    ensures INT_MIN <= x + TWO_32 <= INT_MAX ==> r == x + TWO_32
  {
    (x - INT_MIN) % TWO_32 + INT_MIN
  }

  /** A wrapped difference of two `Int`s is zero only when the two are equal. */
  lemma Wrap32DifferenceZero(a: Int32, b: Int32)
    ensures Wrap32(a - b) == 0 <==> a == b
  {
    var d := a - b;
    if Wrap32(d) == 0 {
      assert d % TWO_32 == 0;
      assert -TWO_32 < d < TWO_32;
    }
  }

  // ---------------------------------------------------------------- split

  /** Kotlin `CharSequence.split(d)` for a one-character delimiter: every occurrence of `d`
      ends a field, and empty fields (leading, inner and trailing) are kept. */
  function Split(s: string, d: char): (fields: seq<string>)
    ensures |fields| >= 1
    ensures forall i :: 0 <= i < |fields| ==> d !in fields[i]
    decreases |s|
  {
    if s == [] then [[]]
    else
      var rest := Split(s[1..], d);
      if s[0] == d then [[]] + rest
      else [[s[0]] + rest[0]] + rest[1..]
  }

  /** The inverse of `Split`: the fields glued back with the delimiter between them. */
  function Join(fields: seq<string>, d: char): string
    requires |fields| >= 1
    decreases |fields|
  {
    if |fields| == 1 then fields[0] else fields[0] + [d] + Join(fields[1..], d)
  }

  lemma {:induction false} SplitJoin(s: string, d: char)
    ensures Join(Split(s, d), d) == s
    decreases |s|
  {
    if s != [] {
      SplitJoin(s[1..], d);
      var rest := Split(s[1..], d);
      if s[0] == d {
        assert Split(s, d)[1..] == rest;
      } else {
        var fs := Split(s, d);
        if |rest| == 1 {
          assert fs == [[s[0]] + rest[0]];
        } else {
          assert fs[1..] == rest[1..];
          assert Join(rest, d) == rest[0] + [d] + Join(rest[1..], d);
        }
      }
    }
  }

  /** Text without the delimiter is a single field. */
  lemma {:induction false} SplitNoDelimiter(a: string, d: char)
    requires d !in a
    ensures Split(a, d) == [a]
    decreases |a|
  {
    if a != [] {
      assert d !in a[1..];
      SplitNoDelimiter(a[1..], d);
      assert [a[0]] + a[1..] == a;
    }
  }

  /** The first delimiter ends the first field; the rest is split on its own. */
  lemma {:induction false} SplitFirstField(a: string, d: char, b: string)
    requires d !in a
    ensures Split(a + [d] + b, d) == [a] + Split(b, d)
    decreases |a|
  {
    if a == [] {
      assert a + [d] + b == [d] + b;
      assert ([d] + b)[1..] == b;
    } else {
      assert d !in a[1..];
      SplitFirstField(a[1..], d, b);
      assert (a + [d] + b)[1..] == a[1..] + [d] + b;
      assert [a[0]] + a[1..] == a;
    }
  }

  /** A third field changes nothing about the first two: the fields of `a d b d c` are `a`,
      `b`, then the fields of `c`, where `a d b` has just `a` and `b`. */
  lemma SplitExtraField(a: string, b: string, c: string, d: char)
    requires d !in a && d !in b
    ensures Split(a + [d] + b + [d] + c, d) == [a, b] + Split(c, d)
    ensures Split(a + [d] + b, d) == [a, b]
  {
    assert Split(a + [d] + b + [d] + c, d) == [a] + Split(b + [d] + c, d) by {
      assert a + [d] + b + [d] + c == a + [d] + (b + [d] + c);
      SplitFirstField(a, d, b + [d] + c);
    }
    SplitFirstField(b, d, c);
    assert Split(a + [d] + b, d) == [a] + Split(b, d) by {
      SplitFirstField(a, d, b);
    }
    SplitNoDelimiter(b, d);
  }


  // ---------------------------------------------------------------- digits

  predicate IsDigit(c: char) { '0' <= c <= '9' }

  predicate AllDigits(s: string) { forall i :: 0 <= i < |s| ==> IsDigit(s[i]) }

  function DigitChar(v: int): char
    requires 0 <= v < 10
  {
    ('0' as int + v) as char
  }

  function DigitValue(c: char): int
    requires IsDigit(c)
  {
    c as int - '0' as int
  }

  /** The decimal digits of a natural number, most significant first, without leading zeros. */
  function NatToDigits(n: nat): (s: string)
    ensures |s| >= 1 && AllDigits(s)
    ensures '-' !in s
    decreases n
  {
    if n < 10 then [DigitChar(n)] else NatToDigits(n / 10) + [DigitChar(n % 10)]
  }

  /** The value of a string of decimal digits (leading zeros allowed, as `parseInt` allows them). */
  function DigitsValue(s: string): nat
    requires AllDigits(s)
    decreases |s|
  {
    if s == [] then 0 else DigitsValue(s[..|s| - 1]) * 10 + DigitValue(s[|s| - 1])
  }

  lemma {:induction false} DigitsRoundTrip(n: nat)
    ensures DigitsValue(NatToDigits(n)) == n
    decreases n
  {
    if n >= 10 {
      DigitsRoundTrip(n / 10);
      var s := NatToDigits(n);
      assert s[..|s| - 1] == NatToDigits(n / 10);
    }
  }

  /** `Byte.toString()` / `Int.toString()`: decimal, with a leading `-` for negative values. */
  function IntToString(x: int): (s: string)
    ensures |s| >= 1
    ensures x >= 0 <==> '-' !in s
    ensures x < 0 ==> s[0] == '-'
  {
    if x < 0 then ['-'] + NatToDigits(-x) else NatToDigits(x)
  }

  /** Only a sign and digits appear in a number's text. */
  lemma IntToStringChars(x: int)
    ensures forall i :: 0 <= i < |IntToString(x)| ==> IntToString(x)[i] == '-' || IsDigit(IntToString(x)[i])
  {
    if x < 0 {
      assert IntToString(x) == ['-'] + NatToDigits(-x);
    }
  }

  // ---------------------------------------------------------------- parsing

  /** `Integer.parseInt(s)` before its range check: an optional `+` or `-`, then one or more
      decimal digits; anything else (the empty string, a lone sign) is rejected. */
  function ParseDecimal(s: string): (r: Option<int>)
    ensures r.Some? && '-' !in s ==> r.value >= 0
    ensures r.Some? ==> |s| >= 1
  {
    if |s| == 0 then None
    else if s[0] == '-' || s[0] == '+' then
      if |s| == 1 || !AllDigits(s[1..]) then None
      else if s[0] == '-' then Some(-(DigitsValue(s[1..]) as int))
      else Some(DigitsValue(s[1..]))
    else if AllDigits(s) then Some(DigitsValue(s))
    else None
  }

  /** `String.toInt()`: a decimal number that fits in a Kotlin `Int`. */
  function ToInt(s: string): (r: Option<Int32>)
    ensures r.Some? <==> ParseDecimal(s).Some? && INT_MIN <= ParseDecimal(s).value <= INT_MAX
    ensures r.Some? ==> r.value == ParseDecimal(s).value
  {
    match ParseDecimal(s)
    case Some(v) => if INT_MIN <= v <= INT_MAX then Some(v) else None
    case None => None
  }

  /** `String.toByte()`: a decimal number that fits in a Kotlin `Byte`. */
  function ToByte(s: string): (r: Option<Int8>)
    ensures r.Some? <==> ParseDecimal(s).Some? && BYTE_MIN <= ParseDecimal(s).value <= BYTE_MAX
    ensures r.Some? ==> r.value == ParseDecimal(s).value
  {
    match ParseDecimal(s)
    case Some(v) => if BYTE_MIN <= v <= BYTE_MAX then Some(v) else None
    case None => None
  }

  /** `toString` and `parseInt` are inverse for every integer, negative ones included. */
  lemma IntToStringRoundTrip(x: int)
    ensures ParseDecimal(IntToString(x)) == Some(x)
  {
    var s := IntToString(x);
    if x < 0 {
      var digits := NatToDigits(-x);
      assert s == ['-'] + digits && s[1..] == digits;
      DigitsRoundTrip(-x);
      assert ParseDecimal(s) == Some(-(DigitsValue(digits) as int));
    } else {
      assert s == NatToDigits(x);
      DigitsRoundTrip(x);
      assert IsDigit(s[0]);
      assert ParseDecimal(s) == Some(DigitsValue(s));
    }
  }
}
