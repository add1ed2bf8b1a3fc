/** Texts as byte sequences: prefixes, suffixes, occurrences and decimal counts. */
module Bytes {

  /** A text is the sequence of its UTF-8 bytes; each `char` stands for one byte. */
  type Text = string

  datatype Option<+T> = None | Some(value: T)

  /** A half-open range of byte offsets. */
  datatype Span = Span(start: nat, end: nat)

  /** Where the part after the first `k` ranges starts, and where it ends. */
  function GapStart(ranges: seq<Span>, k: nat): nat
    requires k <= |ranges|
  {
    if k == 0 then 0 else ranges[k - 1].end
  }

  function GapEnd(ranges: seq<Span>, k: nat, n: nat): nat
    requires k <= |ranges|
  {
    if k < |ranges| then ranges[k].start else n
  }

  predicate EndsWith(t: Text, suffix: Text) {
    |suffix| <= |t| && t[|t| - |suffix|..] == suffix
  }

  predicate OccursAt(t: Text, w: Text, at: nat) {
    at + |w| <= |t| && t[at..at + |w|] == w
  }

  ghost predicate Occurs(t: Text, w: Text) {
    exists at: nat :: OccursAt(t, w, at)
  }

  lemma SliceOfSlice<T>(t: seq<T>, lo: nat, hi: nat, from: nat, to: nat)
    requires lo <= hi <= |t| && from <= to <= hi - lo
    ensures t[lo..hi][from..to] == t[lo + from..lo + to]
  {
    var u, v := t[lo..hi][from..to], t[lo + from..lo + to];
    assert |u| == |v| && forall i :: 0 <= i < |u| ==> u[i] == v[i];
  }

  lemma ConcatSlices<T>(t: seq<T>, a: nat, b: nat, c: nat, d: nat)
    requires a <= b <= c <= d <= |t|
    ensures t[..a] + t[a..b] + t[b..c] + t[c..d] == t[..d]
  {
    assert t[..a] + t[a..b] == t[..b];
    assert t[..b] + t[b..c] == t[..c];
    assert t[..c] + t[c..d] == t[..d];
  }

  lemma InitAndLast<T>(t: seq<T>)
    requires |t| > 0
    ensures t == t[..|t| - 1] + [t[|t| - 1]]
  {
  }

  lemma ConcatIsAssociative<T>(a: seq<T>, b: seq<T>, c: seq<T>, d: seq<T>, e: seq<T>)
    ensures a + b + c + d + e == a + (b + c + d + e)
  {
    assert a + b + c == a + (b + c);
    assert a + (b + c) + d == a + (b + c + d);
    assert a + (b + c + d) + e == a + (b + c + d + e);
  }

  /** An occurrence inside a slice is an occurrence of the whole, and back. */
  lemma OccursInSlice(t: Text, lo: nat, hi: nat, w: Text, at: nat)
    requires lo <= hi <= |t|
    ensures OccursAt(t[lo..hi], w, at) <==> lo + at + |w| <= hi && OccursAt(t, w, lo + at)
  {
    if lo + at + |w| <= hi {
      SliceOfSlice(t, lo, hi, at, at + |w|);
    }
  }

  // ---- decimal counts ----

  predicate IsDigit(c: char) {
    '0' <= c <= '9'
  }

  function DigitOf(d: nat): (c: char)
    requires d < 10
    ensures IsDigit(c) && c as int == '0' as int + d
  {
    ('0' as int + d) as char
  }

  function ValueOf(c: char): (d: nat)
    requires IsDigit(c)
    ensures d < 10 && DigitOf(d) == c
  {
    c as int - '0' as int
  }

  /** The decimal spelling of `n`, without leading zeros. */
  function Dec(n: nat): (t: Text)
    ensures |t| > 0 && forall i :: 0 <= i < |t| ==> IsDigit(t[i])
    ensures n > 0 ==> t[0] != '0'
  {
    (if n < 10 then [] else Dec(n / 10)) + [DigitOf(n % 10)]
  }

  predicate AllDigits(t: Text) {
    forall i :: 0 <= i < |t| ==> IsDigit(t[i])
  }

  /** The number a run of digits spells. */
  function ParseDec(t: Text): nat
    requires AllDigits(t)
  {
    if |t| == 0 then 0
    else ParseDec(t[..|t| - 1]) * 10 + ValueOf(t[|t| - 1])
  }

  function Pow10(k: nat): (p: nat)
    ensures p > 0
  {
    if k == 0 then 1 else 10 * Pow10(k - 1)
  }

  /** Spelling and parsing are inverse, and the length of a spelling bounds its value. */
  lemma {:induction false} ParseOfDec(n: nat)
    ensures ParseDec(Dec(n)) == n
  {
    var t := Dec(n);
    if n < 10 {
      assert t[..0] == [];
    } else {
      ParseOfDec(n / 10);
      assert t[..|t| - 1] == Dec(n / 10);
    }
  }

  lemma {:induction false} DecOfParse(t: Text)
    requires AllDigits(t) && |t| > 0 && t[0] != '0'
    ensures ParseDec(t) > 0 && Dec(ParseDec(t)) == t
  {
    var init, last := t[..|t| - 1], ValueOf(t[|t| - 1]);
    if |t| == 1 {
      assert init == [];
      assert t == [DigitOf(last)];
    } else {
      DecOfParse(init);
      assert ParseDec(t) / 10 == ParseDec(init) && ParseDec(t) % 10 == last;
      assert t == init + [DigitOf(last)];
    }
  }

  lemma {:induction false} DecLength(n: nat, k: nat)
    requires k > 0
    ensures |Dec(n)| <= k <==> n < Pow10(k)
  {
    if k == 1 {
      assert Pow10(1) == 10 * Pow10(0);
    } else if n >= 10 {
      DecLength(n / 10, k - 1);
      assert n / 10 < Pow10(k - 1) <==> n < 10 * Pow10(k - 1);
    } else {
      assert Pow10(k) == 10 * Pow10(k - 1);
    }
  }

  // ---- sums ----

  function Sum(s: seq<nat>): nat {
    if |s| == 0 then 0 else Sum(s[..|s| - 1]) + s[|s| - 1]
  }
}
