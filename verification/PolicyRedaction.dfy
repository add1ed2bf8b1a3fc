/** What the policy rules redact, rule by rule: told on the units, without the functions that compute it. */
module PolicyRedaction {
  import opened Bytes
  import opened MarkedText
  import opened PolicyStaging
  import opened PolicyRules

  datatype Rule = Literal(word: Text) | Compiled(matcher: Matcher)

  ghost predicate IsRule(rule: Rule) {
    match rule
    case Literal(w) => w != []
    case Compiled(m) => IsMatcher(m)
  }

  // --- What one rule takes ---

  /** A literal rule takes occurrences, and from the end of each to the start of the next no occurrence starts. */
  ghost predicate TakesOccurrences(us: seq<Unit>, w: Text, from: nat, ranges: seq<Span>) {
    && Apart(ranges, |us|)
    && (forall k :: 0 <= k < |ranges| ==>
          from <= ranges[k].start && ranges[k].end == ranges[k].start + |w| && MarkedText.OccursAt(us, w, ranges[k].start))
    && forall k, j: nat :: 0 <= k <= |ranges| && StartOf(ranges, k, from) <= j < GapEnd(ranges, k, |us|) ==>
         !MarkedText.OccursAt(us, w, j)
  }

  function StartOf(ranges: seq<Span>, k: nat, from: nat): nat
    requires k <= |ranges|
  {
    if k == 0 then from else ranges[k - 1].end
  }

  /** The text a compiled rule sees: the characters, and the placeholder for each marker. */
  ghost predicate IsSeen(seen: Text, us: seq<Unit>, p: char) {
    |seen| == |us| && forall i :: 0 <= i < |us| ==> seen[i] == if us[i].Mark? then p else us[i].c
  }

  ghost predicate HoldsChar(us: seq<Unit>, s: Span) {
    exists i :: s.start <= i < s.end && i < |us| && us[i].Char?
  }

  /** A compiled rule takes exactly those of its matches in the text it sees that hold a character. */
  ghost predicate TakesMatches(us: seq<Unit>, m: Matcher, p: char, ranges: seq<Span>) {
    && Apart(ranges, |us|)
    && exists seen :: IsSeen(seen, us, p) && forall s :: s in ranges <==> s in m(seen) && HoldsChar(us, s)
  }

  ghost predicate Takes(rule: Rule, us: seq<Unit>, p: char, ranges: seq<Span>) {
    match rule
    case Literal(w) => TakesOccurrences(us, w, 0, ranges)
    case Compiled(m) => TakesMatches(us, m, p, ranges)
  }

  // --- All rules in turn ---

  function MintedFrom(mint: nat -> Text, from: nat, n: nat): (ms: seq<Text>) {
    seq(n, i requires i >= 0 => mint(from + i))
  }

  /** The rules, in turn, make `vs` of `us` with `total` matches: what each takes becomes the next new markers. */
  ghost predicate Redacts(rules: seq<Rule>, us: seq<Unit>, p: char, mint: nat -> Text, vs: seq<Unit>, total: nat) {
    if rules == [] then vs == us && total == 0
    else
      exists before, n: nat, ranges ::
        && Redacts(rules[..|rules| - 1], us, p, mint, before, n) && Apart(ranges, |before|)
        && Takes(rules[|rules| - 1], before, p, ranges)
        && vs == Replaced(before, ranges, Marks(MintedFrom(mint, n, |ranges|))) && total == n + |ranges|
  }

  function RulesOf(literals: seq<Text>, matchers: seq<Matcher>): seq<Rule> {
    seq(|literals|, i requires 0 <= i < |literals| => Literal(literals[i]))
    + seq(|matchers|, i requires 0 <= i < |matchers| => Compiled(matchers[i]))
  }

  // --- Each rule takes one thing ---

  lemma {:induction false} TakesGreedily(us: seq<Unit>, w: Text, from: nat, ranges: seq<Span>)
    requires w != [] && TakesOccurrences(us, w, from, ranges)
    ensures ranges == Greedy(us, w, from)
    decreases |ranges|
  {
    hide MarkedText.OccursAt, Greedy;
    assert StartOf(ranges, 0, from) == from;
    if ranges == [] {
      forall j: nat | from <= j < |us| + 1 ensures !MarkedText.OccursAt(us, w, j) {
        if j < |us| { assert GapEnd(ranges, 0, |us|) == |us|; } else { PastTheEnd(us, w, j); }
      }
      SkipAll(us, w, from);
    } else {
      var first, rest := ranges[0], ranges[1..];
      assert GapEnd(ranges, 0, |us|) == first.start;
      GreedySkips(us, w, from, first.start);
      RestTakes(us, w, from, ranges);
      TakesGreedily(us, w, first.end, rest);
      GreedyNext(us, w, first.start);
      assert first == Span(first.start, first.start + |w|);
    }
  }

  lemma SkipAll(us: seq<Unit>, w: Text, from: nat)
    requires w != [] && forall j: nat :: from <= j < |us| + 1 ==> !MarkedText.OccursAt(us, w, j)
    ensures Greedy(us, w, from) == []
  {
    hide MarkedText.OccursAt;
    if from <= |us| { GreedySkips(us, w, from, |us| + 1); }
  }

  lemma GreedyNext(us: seq<Unit>, w: Text, at: nat)
    requires w != [] && MarkedText.OccursAt(us, w, at)
    ensures Greedy(us, w, at) == [Span(at, at + |w|)] + Greedy(us, w, at + |w|)
  {
    OccurrenceEnds(us, w, at);
  }

  lemma RestTakes(us: seq<Unit>, w: Text, from: nat, ranges: seq<Span>)
    requires ranges != [] && TakesOccurrences(us, w, from, ranges)
    ensures TakesOccurrences(us, w, ranges[0].end, ranges[1..])
  {
    hide MarkedText.OccursAt;
    var rest := ranges[1..];
    forall k, j: nat | 0 <= k <= |rest| && StartOf(rest, k, ranges[0].end) <= j < GapEnd(rest, k, |us|)
      ensures !MarkedText.OccursAt(us, w, j)
    {
      assert StartOf(ranges, k + 1, from) == StartOf(rest, k, ranges[0].end);
      assert GapEnd(ranges, k + 1, |us|) == GapEnd(rest, k, |us|);
    }
  }

  lemma {:induction false} GreedyTakes(us: seq<Unit>, w: Text, from: nat)
    requires w != []
    ensures TakesOccurrences(us, w, from, Greedy(us, w, from))
    decreases |us| - from
  {
    hide MarkedText.OccursAt;
    GreedyIsApart(us, w, from);
    if from + |w| > |us| {
      forall j: nat | from <= j ensures !MarkedText.OccursAt(us, w, j) { PastTheEnd(us, w, j); }
    } else if MarkedText.OccursAt(us, w, from) {
      GreedyTakes(us, w, from + |w|);
      TakesFirst(us, w, from, Greedy(us, w, from + |w|));
    } else {
      GreedyTakes(us, w, from + 1);
      TakesLater(us, w, from, Greedy(us, w, from + 1));
    }
  }

  lemma TakesFirst(us: seq<Unit>, w: Text, from: nat, rest: seq<Span>)
    requires MarkedText.OccursAt(us, w, from) && TakesOccurrences(us, w, from + |w|, rest)
    requires Apart([Span(from, from + |w|)] + rest, |us|)
    ensures TakesOccurrences(us, w, from, [Span(from, from + |w|)] + rest)
  {
    hide MarkedText.OccursAt;
    var ranges := [Span(from, from + |w|)] + rest;
    assert ranges[1..] == rest;
    forall k, j: nat | 0 <= k <= |ranges| && StartOf(ranges, k, from) <= j < GapEnd(ranges, k, |us|)
      ensures !MarkedText.OccursAt(us, w, j)
    {
      if k > 0 {
        assert StartOf(rest, k - 1, from + |w|) == StartOf(ranges, k, from);
        assert GapEnd(rest, k - 1, |us|) == GapEnd(ranges, k, |us|);
      }
    }
    forall k | 0 <= k < |ranges|
      ensures from <= ranges[k].start && ranges[k].end == ranges[k].start + |w| && MarkedText.OccursAt(us, w, ranges[k].start)
    {
      if k > 0 { assert ranges[k] == rest[k - 1]; }
    }
  }

  lemma TakesLater(us: seq<Unit>, w: Text, from: nat, ranges: seq<Span>)
    requires !MarkedText.OccursAt(us, w, from) && TakesOccurrences(us, w, from + 1, ranges)
    ensures TakesOccurrences(us, w, from, ranges)
  {
    hide MarkedText.OccursAt;
    forall k, j: nat | 0 <= k <= |ranges| && StartOf(ranges, k, from) <= j < GapEnd(ranges, k, |us|)
      ensures !MarkedText.OccursAt(us, w, j)
    {
      if k > 0 || j != from { assert StartOf(ranges, k, from + 1) <= j; }
    }
  }

  /** Ranges that lie apart and are not empty are told by the set of them. */
  lemma {:induction false} ApartIsUnique(a: seq<Span>, b: seq<Span>, n: nat)
    requires Apart(a, n) && Apart(b, n) && forall s :: s in a <==> s in b
    requires forall s :: s in a ==> s.start < s.end
    ensures a == b
    decreases |a|
  {
    hide Apart;
    if a == [] {
      FirstIn(b);
    } else {
      assert a[0] in b;
      var x, y := a[|a| - 1], b[|b| - 1];
      LastIsLast(a, n, y);
      LastIsLast(b, n, x);
      assert x == y;
      InitOf(a, n);
      InitOf(b, n);
      var c, d := a[..|a| - 1], b[..|b| - 1];
      SameInits(a, b, c, d, x);
      ApartIsUnique(c, d, n);
      assert a == c + [x] && b == d + [y];
    }
  }

  lemma FirstIn(b: seq<Span>)
    requires forall s :: s !in b
    ensures b == []
  {
    assert |b| == 0 || exists s :: s in b by { SomeIn(b); }
  }

  lemma SomeIn(b: seq<Span>)
    ensures b != [] ==> exists s :: s in b
  {
    if b != [] { assert b[0] in b; }
  }

  lemma LastIsLast(a: seq<Span>, n: nat, s: Span)
    requires Apart(a, n) && s in a
    ensures s == a[|a| - 1] || s.end <= a[|a| - 1].start
  {
    var i :| 0 <= i < |a| && a[i] == s;
  }

  lemma InitOf(a: seq<Span>, n: nat)
    requires Apart(a, n) && a != [] && forall s :: s in a ==> s.start < s.end
    ensures var init, last := a[..|a| - 1], a[|a| - 1];
      Apart(init, n) && last !in init && forall s :: s in a <==> s in init || s == last
  {
    hide Apart;
    InitIsApart(a, n);
    assert a == a[..|a| - 1] + [a[|a| - 1]];
  }

  lemma SameInits(a: seq<Span>, b: seq<Span>, c: seq<Span>, d: seq<Span>, x: Span)
    requires forall s :: s in a <==> s in b
    requires (forall s :: s in a <==> s in c || s == x) && x !in c
    requires (forall s :: s in b <==> s in d || s == x) && x !in d
    ensures forall s :: s in c <==> s in d
  {
    forall s | s in c || s in d ensures s in c && s in d {
      assert s in a && s in b;
    }
  }

  lemma {:induction false} SeenIs(us: seq<Unit>, p: char)
    ensures IsSeen(Seen(us, p), us, p)
    ensures forall seen :: IsSeen(seen, us, p) ==> seen == Seen(us, p)
  {
    if us != [] { SeenIs(us[..|us| - 1], p); }
  }

  /** A match holds text other than the placeholder exactly when it holds a character. */
  lemma HoldsTextIsChar(us: seq<Unit>, p: char, s: Span)
    requires NoChar(us, p)
    ensures HoldsText(Seen(us, p), s, p) <==> HoldsChar(us, s)
  {
    SeenIs(us, p);
    var seen := Seen(us, p);
    hide Seen;
    forall i | 0 <= i < |us| ensures seen[i] != p <==> us[i].Char? { assert us[i] in us; }
  }

  lemma MatchedTakes(us: seq<Unit>, m: Matcher, p: char, ranges: seq<Span>)
    requires IsMatcher(m) && NoChar(us, p)
    ensures TakesMatches(us, m, p, Matched(Seen(us, p), m, p))
    ensures TakesMatches(us, m, p, ranges) ==> ranges == Matched(Seen(us, p), m, p)
  {
    hide NoChar, HoldsText, HoldsChar, Seen, WithText, IsMatcher;
    var seen := Seen(us, p);
    SeenIs(us, p);
    var taken := Matched(seen, m, p);
    forall s ensures s in taken <==> s in m(seen) && HoldsChar(us, s) { HoldsTextIsChar(us, p, s); }
    if TakesMatches(us, m, p, ranges) {
      forall s | s in taken ensures s.start < s.end { CharsAreInside(us, s); }
      ApartIsUnique(taken, ranges, |us|);
    }
  }

  lemma CharsAreInside(us: seq<Unit>, s: Span)
    ensures HoldsChar(us, s) ==> s.start < s.end
  {
  }

  // --- What a rule leaves ---

  ghost predicate Covers(spans: seq<Span>, i: nat) {
    exists s :: s in spans && s.start <= i < s.end
  }

  /** The characters among units, in order. */
  function CharsIn(us: seq<Unit>): seq<Unit> {
    if us == [] then [] else CharsIn(us[..|us| - 1]) + if us[|us| - 1].Char? then [us[|us| - 1]] else []
  }

  /** The characters among the first `n` units that stand in none of the spans, in order. */
  ghost function CharsOutside(us: seq<Unit>, spans: seq<Span>, n: nat): seq<Unit>
    requires n <= |us|
  {
    if n == 0 then []
    else CharsOutside(us, spans, n - 1) + if us[n - 1].Char? && !Covers(spans, n - 1) then [us[n - 1]] else []
  }

  lemma {:induction false} CharsInBoth(a: seq<Unit>, b: seq<Unit>)
    ensures CharsIn(a + b) == CharsIn(a) + CharsIn(b)
  {
    if b == [] {
      assert a + b == a;
    } else {
      assert (a + b)[..|a + b| - 1] == a + b[..|b| - 1];
      CharsInBoth(a, b[..|b| - 1]);
    }
  }

  lemma {:induction false} OverGap(us: seq<Unit>, spans: seq<Span>, lo: nat, hi: nat)
    requires lo <= hi <= |us| && forall i: nat :: lo <= i < hi ==> !Covers(spans, i)
    ensures CharsOutside(us, spans, hi) == CharsOutside(us, spans, lo) + CharsIn(us[lo..hi])
  {
    hide Covers;
    if lo < hi {
      OverGap(us, spans, lo, hi - 1);
      assert us[lo..hi][..hi - 1 - lo] == us[lo..hi - 1];
    }
  }

  lemma {:induction false} OverRange(us: seq<Unit>, spans: seq<Span>, lo: nat, hi: nat)
    requires lo <= hi <= |us| && forall i: nat :: lo <= i < hi ==> Covers(spans, i)
    ensures CharsOutside(us, spans, hi) == CharsOutside(us, spans, lo)
  {
    hide Covers;
    if lo < hi { OverRange(us, spans, lo, hi - 1); }
  }

  lemma GapIsUncovered(ranges: seq<Span>, n: nat, k: nat, i: nat)
    requires Apart(ranges, n) && k <= |ranges| && GapStart(ranges, k) <= i < GapEnd(ranges, k, n)
    ensures !Covers(ranges, i)
  {
    forall s | s in ranges ensures !(s.start <= i < s.end) {
      var j :| 0 <= j < |ranges| && ranges[j] == s;
    }
  }

  lemma {:induction false} UptoChars(us: seq<Unit>, ranges: seq<Span>, fill: seq<Unit>, k: nat)
    requires Apart(ranges, |us|) && |fill| == |ranges| && k <= |ranges| && forall f :: f in fill ==> f.Mark?
    ensures GapStart(ranges, k) <= |us| && CharsIn(Upto(us, ranges, fill, k)) == CharsOutside(us, ranges, GapStart(ranges, k))
    decreases k
  {
    hide Apart, Covers, CharsIn, CharsOutside;
    GapsAreRanges(ranges, |us|, k);
    if k == 0 {
      NoChars(us, ranges);
    } else {
      UptoChars(us, ranges, fill, k - 1);
      GapsAreRanges(ranges, |us|, k - 1);
      var lo, hi := GapStart(ranges, k - 1), ranges[k - 1].start;
      var a, m := Upto(us, ranges, fill, k - 1), fill[k - 1];
      assert hi <= ranges[k - 1].end <= |us| by { RangeFits(ranges, |us|, k - 1); }
      CharsInBoth(a + us[lo..hi], [m]);
      CharsInBoth(a, us[lo..hi]);
      NoCharInMark(m);
      forall i: nat | lo <= i < hi ensures !Covers(ranges, i) { GapIsUncovered(ranges, |us|, k - 1, i); }
      OverGap(us, ranges, lo, hi);
      forall i: nat | hi <= i < ranges[k - 1].end ensures Covers(ranges, i) { RangeCovers(ranges, k - 1, i); }
      OverRange(us, ranges, hi, ranges[k - 1].end);
    }
  }

  lemma RangeFits(ranges: seq<Span>, n: nat, k: nat)
    requires Apart(ranges, n) && k < |ranges|
    ensures ranges[k].start <= ranges[k].end <= n
  {
  }

  lemma RangeCovers(ranges: seq<Span>, k: nat, i: nat)
    requires k < |ranges| && ranges[k].start <= i < ranges[k].end
    ensures Covers(ranges, i)
  {
    assert ranges[k] in ranges;
  }

  lemma NoChars(us: seq<Unit>, spans: seq<Span>)
    ensures CharsIn([]) == [] && CharsOutside(us, spans, 0) == []
  {
  }

  lemma NoCharInMark(m: Unit)
    requires m.Mark?
    ensures CharsIn([m]) == []
  {
    assert [m][..0] == [];
  }

  /** A replacement by markers leaves just the characters outside its ranges. */
  lemma ReplacedChars(us: seq<Unit>, ranges: seq<Span>, fill: seq<Unit>)
    requires Apart(ranges, |us|) && |fill| == |ranges| && forall f :: f in fill ==> f.Mark?
    ensures CharsIn(Replaced(us, ranges, fill)) == CharsOutside(us, ranges, |us|)
  {
    hide Apart, Covers, CharsIn, CharsOutside, Upto;
    var n := |ranges|;
    var lo := GapStart(ranges, n);
    GapsAreRanges(ranges, |us|, n);
    UptoChars(us, ranges, fill, n);
    CharsInBoth(Upto(us, ranges, fill, n), us[lo..]);
    forall i: nat | lo <= i < |us| ensures !Covers(ranges, i) { GapIsUncovered(ranges, |us|, n, i); }
    OverGap(us, ranges, lo, |us|);
    assert us[lo..|us|] == us[lo..];
  }

  lemma {:induction false} SameOutside(us: seq<Unit>, a: seq<Span>, b: seq<Span>, n: nat)
    requires n <= |us| && forall i: nat :: i < |us| && us[i].Char? ==> (Covers(a, i) <==> Covers(b, i))
    ensures CharsOutside(us, a, n) == CharsOutside(us, b, n)
  {
    hide Covers;
    if n > 0 { SameOutside(us, a, b, n - 1); }
  }

  /** What a compiled rule leaves: every character in one of its matches is gone, and every other stays, in order. */
  lemma MatchedCharsGo(us: seq<Unit>, m: Matcher, p: char, ranges: seq<Span>, minted: seq<Text>)
    requires TakesMatches(us, m, p, ranges) && |minted| == |ranges|
    ensures forall seen :: IsSeen(seen, us, p) ==>
              CharsIn(Replaced(us, ranges, Marks(minted))) == CharsOutside(us, m(seen), |us|)
  {
    hide Replaced, Apart, CharsIn, CharsOutside, Marks;
    ReplacedChars(us, ranges, Marks(minted));
    SeenIs(us, p);
    hide IsSeen;
    forall seen | IsSeen(seen, us, p)
      ensures CharsOutside(us, ranges, |us|) == CharsOutside(us, m(seen), |us|)
    {
      forall i: nat | i < |us| && us[i].Char? ensures Covers(ranges, i) <==> Covers(m(seen), i) { }
      SameOutside(us, ranges, m(seen), |us|);
    }
  }

  // --- The rules, and what they are proved to be ---

  lemma MintedIs(mint: nat -> Text, from: nat, n: nat)
    ensures Minted(mint, from, n) == MintedFrom(mint, from, n)
  {
  }

  lemma NextRedacts(rules: seq<Rule>, rule: Rule, us: seq<Unit>, p: char, mint: nat -> Text, before: seq<Unit>, n: nat,
                    ranges: seq<Span>)
    requires Redacts(rules, us, p, mint, before, n) && Apart(ranges, |before|) && Takes(rule, before, p, ranges)
    ensures Redacts(rules + [rule], us, p, mint,
                    Replaced(before, ranges, Marks(MintedFrom(mint, n, |ranges|))), n + |ranges|)
  {
    hide Takes, Replaced, Apart, Marks;
    assert (rules + [rule])[..|rules|] == rules;
  }

  lemma {:induction false} LiteralsRedact(us: seq<Unit>, literals: seq<Text>, p: char, mint: nat -> Text)
    returns (vs: seq<Unit>, total: nat)
    requires AreWords(literals) && NoChar(us, p)
    ensures Redacts(RulesOf(literals, []), us, p, mint, vs, total) && NoChar(vs, p)
    ensures AfterLiterals(us, literals, mint) == if total <= 256 then Going(vs, total) else Over
  {
    hide NoChar, Takes, Replaced, Apart, Marks, Greedy, Redacts;
    if literals == [] {
      vs, total := us, 0;
      NoneRedacts(us, p, mint);
    } else {
      var init, w := literals[..|literals| - 1], literals[|literals| - 1];
      var before, n := LiteralsRedact(us, init, p, mint);
      GreedyIsApart(before, w, 0);
      GreedyTakes(before, w, 0);
      var ranges := Greedy(before, w, 0);
      TakesLiteral(w, before, p, ranges);
      NextRedacts(RulesOf(init, []), Literal(w), us, p, mint, before, n, ranges);
      assert RulesOf(literals, []) == RulesOf(init, []) + [Literal(w)];
      vs, total := Replaced(before, ranges, Marks(MintedFrom(mint, n, |ranges|))), n + |ranges|;
      MintedIs(mint, n, |ranges|);
      ReplacedHasNoChar(before, ranges, MintedFrom(mint, n, |ranges|), p);
    }
  }

  lemma TakesLiteral(w: Text, us: seq<Unit>, p: char, ranges: seq<Span>)
    requires TakesOccurrences(us, w, 0, ranges)
    ensures Takes(Literal(w), us, p, ranges)
  {
  }

  lemma TakesCompiled(m: Matcher, us: seq<Unit>, p: char, ranges: seq<Span>)
    requires TakesMatches(us, m, p, ranges)
    ensures Takes(Compiled(m), us, p, ranges)
  {
  }

  lemma NoneRedacts(us: seq<Unit>, p: char, mint: nat -> Text)
    ensures Redacts(RulesOf([], []), us, p, mint, us, 0)
  {
  }

  lemma {:induction false} MatchersRedact(us: seq<Unit>, literals: seq<Text>, matchers: seq<Matcher>, p: char, mint: nat -> Text)
    returns (vs: seq<Unit>, total: nat)
    requires AreWords(literals) && AreMatchers(matchers) && NoChar(us, p)
    ensures Redacts(RulesOf(literals, matchers), us, p, mint, vs, total) && NoChar(vs, p)
    ensures AfterMatchers(AfterLiterals(us, literals, mint), matchers, p, mint)
         == if total <= 256 then Going(vs, total) else Over
    decreases |matchers|
  {
    hide NoChar, Takes, Replaced, Apart, Marks, Matched, Redacts, AfterLiterals, IsMatcher, Seen;
    if matchers == [] {
      vs, total := LiteralsRedact(us, literals, p, mint);
    } else {
      var init, m := matchers[..|matchers| - 1], matchers[|matchers| - 1];
      var before, n := MatchersRedact(us, literals, init, p, mint);
      var ranges := Matched(Seen(before, p), m, p);
      MatchedTakes(before, m, p, ranges);
      TakesCompiled(m, before, p, ranges);
      NextRedacts(RulesOf(literals, init), Compiled(m), us, p, mint, before, n, ranges);
      assert RulesOf(literals, matchers) == RulesOf(literals, init) + [Compiled(m)];
      vs, total := Replaced(before, ranges, Marks(MintedFrom(mint, n, |ranges|))), n + |ranges|;
      MintedIs(mint, n, |ranges|);
      ReplacedHasNoChar(before, ranges, MintedFrom(mint, n, |ranges|), p);
    }
  }

  /** What one rule takes is determined. */
  lemma TakesIsUnique(rule: Rule, us: seq<Unit>, p: char, a: seq<Span>, b: seq<Span>)
    requires IsRule(rule) && NoChar(us, p) && Takes(rule, us, p, a) && Takes(rule, us, p, b)
    ensures a == b
  {
    hide TakesOccurrences, TakesMatches, NoChar, IsMatcher, Matched, Greedy, Seen;
    match rule
    case Literal(w) =>
      TakesGreedily(us, w, 0, a);
      TakesGreedily(us, w, 0, b);
    case Compiled(m) =>
      MatchedTakes(us, m, p, a);
      MatchedTakes(us, m, p, b);
  }

  /** So is what all rules make of a text. */
  lemma {:induction false} RedactsIsUnique(rules: seq<Rule>, us: seq<Unit>, p: char, mint: nat -> Text,
                                           vs: seq<Unit>, n: nat, ws: seq<Unit>, m: nat)
    requires (forall rule :: rule in rules ==> IsRule(rule)) && NoChar(us, p)
    requires Redacts(rules, us, p, mint, vs, n) && Redacts(rules, us, p, mint, ws, m)
    ensures vs == ws && n == m && NoChar(vs, p)
    decreases |rules|
  {
    hide NoChar, Takes, Replaced, Apart, Marks, IsRule, Redacts;
    if rules == [] {
      NothingRedacts(us, p, mint, vs, n);
      NothingRedacts(us, p, mint, ws, m);
    } else {
      var init, rule := rules[..|rules| - 1], rules[|rules| - 1];
      var a, i, x := RedactsLast(rules, us, p, mint, vs, n);
      var b, j, y := RedactsLast(rules, us, p, mint, ws, m);
      RedactsIsUnique(init, us, p, mint, a, i, b, j);
      TakesIsUnique(rule, a, p, x, y);
      ReplacedHasNoChar(a, x, MintedFrom(mint, i, |x|), p);
    }
  }

  lemma NothingRedacts(us: seq<Unit>, p: char, mint: nat -> Text, vs: seq<Unit>, n: nat)
    requires Redacts([], us, p, mint, vs, n)
    ensures vs == us && n == 0
  {
  }

  /** The last rule takes its ranges of what the rules before it left. */
  lemma RedactsLast(rules: seq<Rule>, us: seq<Unit>, p: char, mint: nat -> Text, vs: seq<Unit>, total: nat)
    returns (before: seq<Unit>, n: nat, ranges: seq<Span>)
    requires rules != [] && Redacts(rules, us, p, mint, vs, total)
    ensures Redacts(rules[..|rules| - 1], us, p, mint, before, n) && Apart(ranges, |before|)
    ensures Takes(rules[|rules| - 1], before, p, ranges)
    ensures vs == Replaced(before, ranges, Marks(MintedFrom(mint, n, |ranges|))) && total == n + |ranges|
  {
    hide Takes, Replaced, Apart, Marks;
    before, n, ranges :| Redacts(rules[..|rules| - 1], us, p, mint, before, n) && Apart(ranges, |before|)
      && Takes(rules[|rules| - 1], before, p, ranges)
      && vs == Replaced(before, ranges, Marks(MintedFrom(mint, n, |ranges|))) && total == n + |ranges|;
  }

  lemma RulesAreRules(literals: seq<Text>, matchers: seq<Matcher>)
    requires AreWords(literals) && AreMatchers(matchers)
    ensures forall rule :: rule in RulesOf(literals, matchers) ==> IsRule(rule)
  {
    hide IsMatcher;
  }

  /** The rules of a policy, exactly: there is one way the rules in turn take what they find; the text comes out as
      they leave it, or is refused exactly when they take more than 256 matches in all. */
  lemma RuledExactly(isMarker: MarkerTest, text: Text, literals: seq<Text>, matchers: seq<Matcher>, p: char, mint: nat -> Text)
    requires AreWords(literals) && AreMatchers(matchers) && p !in text
    ensures exists vs, total: nat :: Redacts(RulesOf(literals, matchers), Parse(isMarker, text), p, mint, vs, total)
    ensures forall vs, total: nat :: Redacts(RulesOf(literals, matchers), Parse(isMarker, text), p, mint, vs, total) ==>
              Ruled(isMarker, text, literals, matchers, p, mint) == if total <= 256 then Ok(Print(vs)) else TooManyMatches
  {
    hide Parse, Print, NoChar, Redacts, RulesOf, AreMatchers, AreWords, IsRule;
    var us := Parse(isMarker, text);
    ParseHasNoChar(isMarker, text, p);
    var vs, total := MatchersRedact(us, literals, matchers, p, mint);
    RulesAreRules(literals, matchers);
    forall ws, n: nat | Redacts(RulesOf(literals, matchers), us, p, mint, ws, n)
      ensures ws == vs && n == total
    {
      RedactsIsUnique(RulesOf(literals, matchers), us, p, mint, vs, total, ws, n);
    }
  }

  ghost predicate InSome(texts: seq<Text>, c: char) {
    exists t :: t in texts && c in t
  }

  /** The placeholder is the first private-use character in none of the texts, the rules' and the one scrubbed; and the scrub
      is refused for want of one exactly when every one of them is in some text. */
  lemma PlaceholderExactly(texts: seq<Text>, p: char)
    ensures IsFirstFree(texts, p) <==>
      && '\U{E000}' <= p <= '\U{F8FF}' && !InSome(texts, p) && forall c: char :: '\U{E000}' <= c < p ==> InSome(texts, c)
    ensures (forall c :: IsPlaceholder(c) ==> Taken(texts, c)) <==>
      forall c: char :: '\U{E000}' <= c <= '\U{F8FF}' ==> InSome(texts, c)
  {
    forall c: char ensures Taken(texts, c) <==> InSome(texts, c) { }
    hide Taken, InSome;
  }
}
