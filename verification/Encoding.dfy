/** Tagged, length-prefixed fields: what is put can be read back in one way only. */
module Encoding {
  import opened Bytes

  const U64: nat := 0x1_0000_0000_0000_0000
  const U32: nat := 0x1_0000_0000

  /** One byte of an encoding; texts hold one byte to a `char`. */
  function Byte(n: nat): char
    requires n < 256
  {
    n as char
  }

  /** The last `k` big-endian bytes of a number, as a cast to that width keeps them. */
  function BigEndian(n: nat, k: nat): (t: Text)
    ensures |t| == k
  {
    if k == 0 then [] else BigEndian(n / 256, k - 1) + [Byte(n % 256)]
  }

  function Base(k: nat): (n: nat)
    ensures n > 0
  {
    if k == 0 then 1 else 256 * Base(k - 1)
  }

  lemma {:induction false} BigEndianIsInjective(a: nat, b: nat, k: nat)
    requires a < Base(k) && b < Base(k) && BigEndian(a, k) == BigEndian(b, k)
    ensures a == b
  {
    if k > 0 {
      var x, y := BigEndian(a, k), BigEndian(b, k);
      assert x[..k - 1] == BigEndian(a / 256, k - 1) && y[..k - 1] == BigEndian(b / 256, k - 1);
      assert x[k - 1] == Byte(a % 256) && y[k - 1] == Byte(b % 256);
      assert a % 256 == b % 256;
      BigEndianIsInjective(a / 256, b / 256, k - 1);
    }
  }

  lemma WordSizes()
    ensures Base(8) == U64 && Base(4) == U32
  {
    assert Base(1) == 256 && Base(2) == 0x1_0000 && Base(3) == 0x100_0000 && Base(4) == U32;
    assert Base(5) == 256 * U32 && Base(6) == 0x1_0000 * U32 && Base(7) == 0x100_0000 * U32;
  }

  /** A count or a length as eight bytes. */
  function Word(n: nat): (t: Text)
    ensures |t| == 8
  {
    BigEndian(n, 8)
  }

  /** A field: its tag, the length of its value, and the value. */
  function Field(tag: nat, value: Text): (t: Text)
    requires tag < 256
    ensures |t| == 9 + |value|
  {
    [Byte(tag)] + Word(|value|) + value
  }

  lemma SplitAt(a: Text, b: Text, c: Text, d: Text)
    requires a + b == c + d && |a| == |c|
    ensures a == c && b == d
  {
    assert (a + b)[..|a|] == a && (c + d)[..|c|] == c;
    assert (a + b)[|a|..] == b && (c + d)[|c|..] == d;
  }

  lemma WordIsInjective(a: nat, b: nat)
    requires a < U64 && b < U64 && Word(a) == Word(b)
    ensures a == b
  {
    WordSizes();
    BigEndianIsInjective(a, b, 8);
  }

  /** Two texts that begin with a word begin with the same one when they are equal. */
  lemma WordComesOff(a: nat, rest: Text, b: nat, rest': Text)
    requires a < U64 && b < U64 && Word(a) + rest == Word(b) + rest'
    ensures a == b && rest == rest'
  {
    SplitAt(Word(a), rest, Word(b), rest');
    WordIsInjective(a, b);
  }

  lemma FieldOpens(tag: nat, value: Text, rest: Text)
    requires tag < 256
    ensures Field(tag, value) + rest == [Byte(tag)] + (Word(|value|) + (value + rest))
  {
    hide Word;
    var a := Word(|value|);
    assert [Byte(tag)] + a + value + rest == [Byte(tag)] + (a + (value + rest));
  }

  /** Two texts that begin with a field of one tag are equal only if those fields and what follows
      them are. */
  lemma FieldComesOff(tag: nat, value: Text, rest: Text, value': Text, rest': Text)
    requires tag < 256 && |value| < U64 && |value'| < U64
    requires Field(tag, value) + rest == Field(tag, value') + rest'
    ensures value == value' && rest == rest'
  {
    hide Field, Word;
    var t := [Byte(tag)];
    FieldOpens(tag, value, rest);
    FieldOpens(tag, value', rest');
    SplitAt(t, Word(|value|) + (value + rest), t, Word(|value'|) + (value' + rest'));
    WordComesOff(|value|, value + rest, |value'|, value' + rest');
    SplitAt(value, rest, value', rest');
  }

  /** A list of values under one tag, one field each. */
  function Fields(tag: nat, values: seq<Text>): Text
    requires tag < 256
  {
    if values == [] then [] else Field(tag, values[0]) + Fields(tag, values[1..])
  }

  ghost predicate Fit(values: seq<Text>) {
    |values| < U64 && forall i :: 0 <= i < |values| ==> |values[i]| < U64
  }

  lemma FirstField(tag: nat, values: seq<Text>, rest: Text)
    requires tag < 256 && values != []
    ensures Fields(tag, values) + rest == Field(tag, values[0]) + (Fields(tag, values[1..]) + rest)
  {
    hide Field;
    var a, b := Field(tag, values[0]), Fields(tag, values[1..]);
    assert a + b + rest == a + (b + rest);
  }

  lemma {:induction false} FieldsComeOff(tag: nat, values: seq<Text>, rest: Text, values': seq<Text>, rest': Text)
    requires tag < 256 && Fit(values) && Fit(values') && |values| == |values'|
    requires Fields(tag, values) + rest == Fields(tag, values') + rest'
    ensures values == values' && rest == rest'
  {
    hide Field;
    if values == [] {
      SplitAt([], rest, [], rest');
    } else {
      FirstField(tag, values, rest);
      FirstField(tag, values', rest');
      hide Fields;
      FieldComesOff(tag, values[0], Fields(tag, values[1..]) + rest, values'[0], Fields(tag, values'[1..]) + rest');
      FieldsComeOff(tag, values[1..], rest, values'[1..], rest');
      assert values == [values[0]] + values[1..] && values' == [values'[0]] + values'[1..];
    }
  }

  /** A tagged count and then its values. */
  function Counted(tag: nat, member: nat, values: seq<Text>): Text
    requires tag < 256 && member < 256
  {
    [Byte(tag)] + Word(|values|) + Fields(member, values)
  }

  lemma CountedComesOff(tag: nat, member: nat, values: seq<Text>, rest: Text, values': seq<Text>, rest': Text)
    requires tag < 256 && member < 256 && Fit(values) && Fit(values')
    requires Counted(tag, member, values) + rest == Counted(tag, member, values') + rest'
    ensures values == values' && rest == rest'
  {
    hide Fields, Word;
    var t := [Byte(tag)];
    var a, b := Fields(member, values) + rest, Fields(member, values') + rest';
    assert Counted(tag, member, values) + rest == t + (Word(|values|) + a);
    assert Counted(tag, member, values') + rest' == t + (Word(|values'|) + b);
    SplitAt(t, Word(|values|) + a, t, Word(|values'|) + b);
    WordComesOff(|values|, a, |values'|, b);
    FieldsComeOff(member, values, rest, values', rest');
  }

  /** An optional value: a discriminator, and the field when there is one. */
  function Optional(tag: nat, value: Option<Text>): Text
    requires tag < 256
  {
    match value
    case None => [Byte(tag), Byte(0)]
    case Some(v) => [Byte(tag), Byte(1)] + Field(tag, v)
  }

  /** The second byte tells whether there is a value. */
  lemma OptionalOpens(tag: nat, value: Option<Text>, rest: Text)
    requires tag < 256
    ensures var all := Optional(tag, value) + rest;
      && |all| >= 2 && all[1] == Byte(if value.Some? then 1 else 0)
      && all == if value.Some? then [Byte(tag), Byte(1)] + (Field(tag, value.value) + rest) else [Byte(tag), Byte(0)] + rest
  {
    hide Field;
    if value.Some? {
      assert [Byte(tag), Byte(1)] + Field(tag, value.value) + rest == [Byte(tag), Byte(1)] + (Field(tag, value.value) + rest);
    }
  }

  lemma OptionalComesOff(tag: nat, value: Option<Text>, rest: Text, value': Option<Text>, rest': Text)
    requires tag < 256 && (value.Some? ==> |value.value| < U64) && (value'.Some? ==> |value'.value| < U64)
    requires Optional(tag, value) + rest == Optional(tag, value') + rest'
    ensures value == value' && rest == rest'
  {
    hide Field, Optional;
    OptionalOpens(tag, value, rest);
    OptionalOpens(tag, value', rest');
    if value.Some? {
      var t := [Byte(tag), Byte(1)];
      SplitAt(t, Field(tag, value.value) + rest, t, Field(tag, value'.value) + rest');
      FieldComesOff(tag, value.value, rest, value'.value, rest');
    } else {
      SplitAt([Byte(tag), Byte(0)], rest, [Byte(tag), Byte(0)], rest');
    }
  }
}
