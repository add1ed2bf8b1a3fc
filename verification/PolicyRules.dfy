/** The policy rules of one scrub, applied to a staged text one after another. */
module PolicyRules {
  import opened Bytes
  import opened MarkedText
  import opened PolicyStaging

  /** What a compiled rule matches in a text. */
  type Matcher = Text -> seq<Span>

  /** Matches come in order and do not overlap. */
  ghost predicate IsMatcher(m: Matcher) {
    forall t: Text :: Apart(m(t), |t|)
  }

  /** No literal rule is empty. */
  ghost predicate AreWords(literals: seq<Text>) {
    forall i :: 0 <= i < |literals| ==> literals[i] != []
  }

  ghost predicate AreMatchers(ms: seq<Matcher>) {
    forall i :: 0 <= i < |ms| ==> IsMatcher(ms[i])
  }

  datatype Scrubbed = Ok(text: Text) | TooManyMatches | NoPlaceholder

  /** The first occurrence of `w` at or after `at`. */
  method Find(t: Text, at: nat, w: Text) returns (r: Option<nat>)
    requires at <= |t|
    ensures r.Some? ==> at <= r.value && Bytes.OccursAt(t, w, r.value)
    ensures r.Some? ==> forall j: nat :: at <= j < r.value ==> !Bytes.OccursAt(t, w, j)
    ensures r.None? ==> forall j: nat :: at <= j ==> !Bytes.OccursAt(t, w, j)
  {
    var j := at;
    while j + |w| <= |t|
      invariant at <= j && forall k: nat :: at <= k < j ==> !Bytes.OccursAt(t, w, k)
    {
      if t[j..j + |w|] == w { return Some(j); }
      j := j + 1;
    }
    r := None;
  }

  /** The occurrences of a word between markers that a replacement from left to right takes. */
  ghost function Greedy(us: seq<Unit>, w: Text, at: nat): seq<Span>
    requires w != []
    decreases |us| - at
  {
    if at + |w| > |us| then []
    else if MarkedText.OccursAt(us, w, at) then [Span(at, at + |w|)] + Greedy(us, w, at + |w|)
    else Greedy(us, w, at + 1)
  }

  lemma {:induction false} GreedySkips(us: seq<Unit>, w: Text, at: nat, j: nat)
    requires w != [] && at <= j && forall k: nat :: at <= k < j ==> !MarkedText.OccursAt(us, w, k)
    ensures Greedy(us, w, at) == Greedy(us, w, j)
    decreases j - at
  {
    hide MarkedText.OccursAt;
    if at < j && at + |w| <= |us| { GreedySkips(us, w, at + 1, j); }
  }

  /** The staged text and its units hold the word at the same places. */
  ghost predicate SamePlaces(t: Text, us: seq<Unit>, w: Text) {
    |us| == |t| && forall j: nat :: MarkedText.OccursAt(us, w, j) <==> Bytes.OccursAt(t, w, j)
  }

  lemma WordsInStaged(t: Text, markers: seq<Text>, p: char, w: Text)
    requires Count(t, p) == |markers| && p !in w
    ensures SamePlaces(t, UnitsOf(t, markers, p), w)
  {
    hide UnitsOf, Count, MarkedText.OccursAt, Bytes.OccursAt;
    forall j: nat ensures MarkedText.OccursAt(UnitsOf(t, markers, p), w, j) <==> Bytes.OccursAt(t, w, j) {
      WordInStaged(t, markers, p, w, j);
    }
  }

  /** All occurrences of a literal from left to right, each searched for after the one before;
      nothing when there are more than `budget`. */
  method FindAll(t: Text, w: Text, budget: nat, ghost us: seq<Unit>) returns (r: Option<seq<Span>>)
    requires w != [] && SamePlaces(t, us, w)
    ensures r == if |Greedy(us, w, 0)| > budget then None else Some(Greedy(us, w, 0))
  {
    hide Bytes.OccursAt, MarkedText.OccursAt;
    var ranges: seq<Span>, at: nat := [], 0;
    while true
      invariant |ranges| <= budget && at <= |t| && Greedy(us, w, 0) == ranges + Greedy(us, w, at)
      decreases |t| - at
    {
      var found := Find(t, at, w);
      if found.None? {
        GreedySkips(us, w, at, |t| + 1);
        assert ranges + [] == ranges;
        return Some(ranges);
      }
      OccurrenceFits(t, w, found.value);
      GreedySkips(us, w, at, found.value);
      if |ranges| == budget { return None; }
      var span := Span(found.value, found.value + |w|);
      assert ranges + ([span] + Greedy(us, w, span.end)) == (ranges + [span]) + Greedy(us, w, span.end);
      ranges := ranges + [span];
      at := span.end;
    }
  }

  lemma OccurrenceFits(t: Text, w: Text, j: nat)
    requires Bytes.OccursAt(t, w, j)
    ensures j + |w| <= |t|
  {
  }

  lemma GreedyFirst(us: seq<Unit>, w: Text, at: nat, g: nat)
    requires w != [] && MarkedText.OccursAt(us, w, at)
    ensures at + |w| <= |us| && Greedy(us, w, at)[1..] == Greedy(us, w, at + |w|)
    ensures g < |Greedy(us, w, at)| ==> at + |w| <= Greedy(us, w, at)[g].end
  {
    hide MarkedText.OccursAt;
    OccurrenceEnds(us, w, at);
    GreedyIsApart(us, w, at);
    assert Greedy(us, w, at)[0].end == at + |w|;
  }

  lemma OccurrenceEnds(us: seq<Unit>, w: Text, at: nat)
    requires MarkedText.OccursAt(us, w, at)
    ensures at + |w| <= |us|
  {
  }

  /** Between, before and after the ranges taken there is no occurrence. */
  lemma {:induction false} NoneInGaps(us: seq<Unit>, w: Text, at: nat, g: nat, j: nat)
    requires w != [] && g <= |Greedy(us, w, at)| && at <= j && (g > 0 ==> Greedy(us, w, at)[g - 1].end <= j)
    requires j + |w| <= GapEnd(Greedy(us, w, at), g, |us|)
    ensures !MarkedText.OccursAt(us, w, j)
    decreases |us| - at
  {
    hide MarkedText.OccursAt;
    if at + |w| > |us| {
      PastTheEnd(us, w, j);
    } else if MarkedText.OccursAt(us, w, at) {
      if g > 0 {
        GreedyFirst(us, w, at, g - 1);
        NoneInGaps(us, w, at + |w|, g - 1, j);
      }
    } else if j > at {
      NoneInGaps(us, w, at + 1, g, j);
    }
  }

  lemma PastTheEnd(us: seq<Unit>, w: Text, j: nat)
    requires j + |w| > |us|
    ensures !MarkedText.OccursAt(us, w, j)
  {
  }

  /** Once its occurrences are replaced, a literal does not occur between markers. */
  lemma LiteralIsGone(us: seq<Unit>, w: Text, minted: seq<Text>)
    requires w != [] && |minted| == |Greedy(us, w, 0)| && Apart(Greedy(us, w, 0), |us|)
    ensures !MarkedText.Occurs(Replaced(us, Greedy(us, w, 0), Marks(minted)), w)
  {
    hide Replaced, Marks, MarkedText.OccursAt, Greedy;
    var ranges, fill := Greedy(us, w, 0), Marks(minted);
    if MarkedText.Occurs(Replaced(us, ranges, fill), w) {
      var i: nat :| MarkedText.OccursAt(Replaced(us, ranges, fill), w, i);
      var g, j := RunInReplaced(us, ranges, fill, w, i);
      NoneInGaps(us, w, 0, g, j);
    }
  }

  /** A range holds something other than markers. */
  predicate HoldsText(t: Text, s: Span, p: char) {
    exists i :: s.start <= i < s.end && i < |t| && t[i] != p
  }

  /** Those of the matches that hold text, in order. */
  function WithText(t: Text, spans: seq<Span>, p: char): (kept: seq<Span>)
    ensures forall s :: s in kept <==> s in spans && HoldsText(t, s, p)
  {
    if spans == [] then []
    else
      var last := spans[|spans| - 1];
      assert spans == spans[..|spans| - 1] + [last];
      WithText(t, spans[..|spans| - 1], p) + if HoldsText(t, last, p) then [last] else []
  }

  lemma {:induction false} FewerBefore(t: Text, spans: seq<Span>, p: char, i: nat)
    requires i <= |spans|
    ensures |WithText(t, spans[..i], p)| <= |WithText(t, spans, p)|
    decreases |spans|
  {
    if i == |spans| {
      assert spans[..i] == spans;
    } else {
      assert spans[..|spans| - 1][..i] == spans[..i];
      FewerBefore(t, spans[..|spans| - 1], p, i);
    }
  }

  /** No literal of the list occurs between markers. */
  ghost predicate FreeOf(us: seq<Unit>, literals: seq<Text>) {
    forall w :: w in literals ==> !MarkedText.Occurs(us, w)
  }

  /** The markers of one replacement, from the supply of new ones. */
  function Minted(mint: nat -> Text, from: nat, n: nat): (ms: seq<Text>)
    ensures |ms| == n && forall i :: 0 <= i < n ==> ms[i] == mint(from + i)
  {
    if n == 0 then [] else Minted(mint, from, n - 1) + [mint(from + n - 1)]
  }

  ghost predicate Mints(isMarker: MarkerTest, mint: nat -> Text) {
    forall n: nat :: isMarker(mint(n))
  }

  /** Replacing keeps the staged text clean and free of every literal it was free of. */
  lemma ReplacingKeeps(isMarker: MarkerTest, us: seq<Unit>, ranges: seq<Span>, minted: seq<Text>, literals: seq<Text>)
    requires MarkersAreBracketed(isMarker) && Clean(isMarker, us) && FreeOf(us, literals)
    requires Apart(ranges, |us|) && |minted| == |ranges| && (forall m :: m in minted ==> isMarker(m))
    requires AreWords(literals)
    ensures var out := Replaced(us, ranges, Marks(minted)); Clean(isMarker, out) && FreeOf(out, literals)
  {
    hide Replaced, MarkersAreBracketed;
    ReplacedIsClean(isMarker, us, ranges, Marks(minted));
    forall w | w in literals ensures !MarkedText.Occurs(Replaced(us, ranges, Marks(minted)), w) {
      ReplacedOccursBefore(us, ranges, Marks(minted), w);
    }
  }

  lemma MintedAreMarkers(isMarker: MarkerTest, mint: nat -> Text, from: nat, n: nat)
    requires Mints(isMarker, mint)
    ensures forall m :: m in Minted(mint, from, n) ==> isMarker(m)
  {
  }

  lemma OneMoreFree(us: seq<Unit>, literals: seq<Text>, k: nat)
    requires k < |literals| && FreeOf(us, literals[..k]) && !MarkedText.Occurs(us, literals[k])
    ensures FreeOf(us, literals[..k + 1])
  {
    assert literals[..k + 1] == literals[..k] + [literals[k]];
  }

  // --- What the rules do ---

  /** The text between markers and the markers, with the number of matches so far; or too many. */
  datatype Outcome = Going(units: seq<Unit>, matches: nat) | Over

  ghost function Redact(o: Outcome, ranges: seq<Span>, mint: nat -> Text): Outcome
    requires o.Going? && Apart(ranges, |o.units|)
  {
    if o.matches + |ranges| > MAX_MATCHES then Over
    else Going(Replaced(o.units, ranges, Marks(Minted(mint, o.matches, |ranges|))), o.matches + |ranges|)
  }

  lemma {:induction false} GreedyIsApart(us: seq<Unit>, w: Text, at: nat)
    requires w != []
    ensures Apart(Greedy(us, w, at), |us|) && forall s :: s in Greedy(us, w, at) ==> s.start >= at
    decreases |us| - at
  {
    hide MarkedText.OccursAt;
    if at + |w| <= |us| { GreedyIsApart(us, w, if MarkedText.OccursAt(us, w, at) then at + |w| else at + 1); }
  }

  /** Each literal in turn: its occurrences between markers become markers. */
  ghost function AfterLiterals(us: seq<Unit>, literals: seq<Text>, mint: nat -> Text): (o: Outcome)
    requires AreWords(literals)
    ensures o.Going? ==> o.matches <= MAX_MATCHES
  {
    if literals == [] then Going(us, 0)
    else
      var w := literals[|literals| - 1];
      var o := AfterLiterals(us, literals[..|literals| - 1], mint);
      if o.Over? then Over
      else
        GreedyIsApart(o.units, w, 0);
        Redact(o, Greedy(o.units, w, 0), mint)
  }

  /** The text a compiled rule sees: every marker is the placeholder. */
  function Seen(us: seq<Unit>, p: char): (t: Text)
    ensures |t| == |us|
  {
    if us == [] then []
    else
      var u := us[|us| - 1];
      Seen(us[..|us| - 1], p) + [if u.Mark? then p else u.c]
  }

  lemma {:induction false} StagedIsSeen(t: Text, markers: seq<Text>, p: char)
    requires Count(t, p) == |markers|
    ensures Seen(UnitsOf(t, markers, p), p) == t
  {
    if t != [] {
      StagedIsSeen(t[..|t| - 1], if t[|t| - 1] == p then markers[..|markers| - 1] else markers, p);
      assert t == t[..|t| - 1] + [t[|t| - 1]];
      var us := UnitsOf(t, markers, p);
      assert us[..|us| - 1] == UnitsOf(t[..|t| - 1], if t[|t| - 1] == p then markers[..|markers| - 1] else markers, p);
    }
  }

  lemma InitIsApart(spans: seq<Span>, n: nat)
    requires Apart(spans, n) && spans != []
    ensures var last := spans[|spans| - 1];
      && last.start <= last.end <= n && Apart(spans[..|spans| - 1], n)
      && forall s :: s in spans[..|spans| - 1] ==> s.end <= last.start
  {
  }

  lemma OneMoreApart(spans: seq<Span>, last: Span, n: nat)
    requires Apart(spans, n) && last.start <= last.end <= n && forall s :: s in spans ==> s.end <= last.start
    ensures Apart(spans + [last], n)
  {
    assert forall i :: 0 <= i < |spans| ==> spans[i] in spans;
  }

  lemma {:induction false} WithTextIsApart(t: Text, spans: seq<Span>, p: char)
    requires Apart(spans, |t|)
    ensures Apart(WithText(t, spans, p), |t|)
    ensures forall s :: s in WithText(t, spans, p) ==> s in spans
  {
    hide HoldsText, Apart;
    if spans != [] {
      var init, last := spans[..|spans| - 1], spans[|spans| - 1];
      InitIsApart(spans, |t|);
      WithTextIsApart(t, init, p);
      OneMoreApart(WithText(t, init, p), last, |t|);
      assert WithText(t, init, p) + [] == WithText(t, init, p);
    }
  }

  /** The matches of a rule that hold text. */
  function Matched(t: Text, m: Matcher, p: char): (spans: seq<Span>)
    requires IsMatcher(m)
    ensures Apart(spans, |t|)
  {
    assert Apart(m(t), |t|);
    WithTextIsApart(t, m(t), p);
    WithText(t, m(t), p)
  }

  /** The matches of a rule that hold text; nothing when there are more than `budget`. */
  method TextMatches(t: Text, m: Matcher, p: char, budget: nat) returns (r: Option<seq<Span>>)
    requires IsMatcher(m)
    ensures r == if |Matched(t, m, p)| > budget then None else Some(Matched(t, m, p))
  {
    hide HoldsText, WithText;
    var all := m(t);
    var ranges: seq<Span> := [];
    NoneWithText(t, p);
    assert all[..0] == [];
    for i := 0 to |all|
      invariant |ranges| <= budget && ranges == WithText(t, all[..i], p)
    {
      OneMoreMatch(t, all, p, i);
      if HoldsText(t, all[i], p) {
        if |ranges| == budget {
          FewerBefore(t, all, p, i + 1);
          return None;
        }
        ranges := ranges + [all[i]];
      }
    }
    assert all[..|all|] == all;
    r := Some(ranges);
  }

  lemma NoneWithText(t: Text, p: char)
    ensures WithText(t, [], p) == []
  {
  }

  lemma OneMoreMatch(t: Text, spans: seq<Span>, p: char, i: nat)
    requires i < |spans|
    ensures WithText(t, spans[..i + 1], p) == WithText(t, spans[..i], p) + if HoldsText(t, spans[i], p) then [spans[i]] else []
  {
    assert spans[..i + 1][..i] == spans[..i];
  }

  /** Each compiled rule in turn: its matches that hold text become markers. */
  ghost function AfterMatchers(o: Outcome, matchers: seq<Matcher>, p: char, mint: nat -> Text): Outcome
    requires AreMatchers(matchers)
  {
    if matchers == [] || o.Over? then o
    else
      var m := matchers[|matchers| - 1];
      var before := AfterMatchers(o, matchers[..|matchers| - 1], p, mint);
      if before.Over? then Over
      else
        Redact(before, Matched(Seen(before.units, p), m, p), mint)
  }

  lemma {:induction false} OverStays(us: seq<Unit>, literals: seq<Text>, mint: nat -> Text, k: nat)
    requires AreWords(literals) && k <= |literals|
    requires AreWords(literals[..k]) && AfterLiterals(us, literals[..k], mint).Over?
    ensures AfterLiterals(us, literals, mint).Over?
    decreases |literals|
  {
    if k == |literals| {
      assert literals[..k] == literals;
    } else {
      var init := literals[..|literals| - 1];
      assert init[..k] == literals[..k];
      OverStays(us, init, mint, k);
    }
  }

  lemma {:induction false} OverStaysToo(o: Outcome, ms: seq<Matcher>, p: char, mint: nat -> Text, k: nat)
    requires AreMatchers(ms) && k <= |ms|
    requires AreMatchers(ms[..k]) && AfterMatchers(o, ms[..k], p, mint).Over?
    ensures AfterMatchers(o, ms, p, mint).Over?
    decreases |ms|
  {
    hide IsMatcher;
    if k == |ms| {
      assert ms[..k] == ms;
    } else {
      var init := ms[..|ms| - 1];
      assert init[..k] == ms[..k];
      OverStaysToo(o, init, p, mint, k);
    }
  }

  /** The placeholder the staging takes: the first private-use character in none of the texts. */
  ghost predicate IsFirstFree(texts: seq<Text>, p: char) {
    IsPlaceholder(p) && !Taken(texts, p) && forall c: char :: PLACEHOLDER_FIRST <= c as int < p as int ==> Taken(texts, c)
  }

  /** What the rules make of a text, when its markers are set aside as `p`. */
  ghost function Ruled(isMarker: MarkerTest, text: Text, literals: seq<Text>, matchers: seq<Matcher>, p: char, mint: nat -> Text)
    : Scrubbed
    requires AreWords(literals) && AreMatchers(matchers)
  {
    match AfterMatchers(AfterLiterals(Parse(isMarker, text), literals, mint), matchers, p, mint)
    case Over => TooManyMatches
    case Going(us, _) => Ok(Print(us))
  }

  lemma {:induction false} LiteralsLeave(isMarker: MarkerTest, us: seq<Unit>, literals: seq<Text>, mint: nat -> Text)
    requires MarkersAreBracketed(isMarker) && Mints(isMarker, mint) && Clean(isMarker, us)
    requires AreWords(literals)
    ensures var o := AfterLiterals(us, literals, mint);
      o.Going? ==> Clean(isMarker, o.units) && FreeOf(o.units, literals)
  {
    hide Clean, Replaced, FreeOf, MarkersAreBracketed, Mints, Greedy, Marks;
    if literals == [] {
      FreeOfNone(us);
    } else {
      var init, w := literals[..|literals| - 1], literals[|literals| - 1];
      LiteralsLeave(isMarker, us, init, mint);
      var before := AfterLiterals(us, init, mint);
      if before.Going? {
        var ranges := Greedy(before.units, w, 0);
        var minted := Minted(mint, before.matches, |ranges|);
        GreedyIsApart(before.units, w, 0);
        MintedAreMarkers(isMarker, mint, before.matches, |ranges|);
        ReplacingKeeps(isMarker, before.units, ranges, minted, init);
        LiteralIsGone(before.units, w, minted);
        OneMoreFree(Replaced(before.units, ranges, Marks(minted)), literals, |init|);
        assert literals[..|literals|] == literals;
      }
    }
  }

  lemma {:induction false} MatchersKeep(isMarker: MarkerTest, o: Outcome, matchers: seq<Matcher>, p: char,
                                        mint: nat -> Text, literals: seq<Text>)
    requires MarkersAreBracketed(isMarker) && Mints(isMarker, mint)
    requires AreWords(literals) && AreMatchers(matchers)
    requires o.Going? ==> Clean(isMarker, o.units) && FreeOf(o.units, literals)
    ensures var a := AfterMatchers(o, matchers, p, mint);
      a.Going? ==> Clean(isMarker, a.units) && FreeOf(a.units, literals)
  {
    hide Clean, Replaced, FreeOf, MarkersAreBracketed, Mints, Marks, Matched, Seen, IsMatcher;
    if matchers != [] && o.Going? {
      var init, m := matchers[..|matchers| - 1], matchers[|matchers| - 1];
      MatchersKeep(isMarker, o, init, p, mint, literals);
      var before := AfterMatchers(o, init, p, mint);
      if before.Going? {
        var ranges := Matched(Seen(before.units, p), m, p);
        MintedAreMarkers(isMarker, mint, before.matches, |ranges|);
        ReplacingKeeps(isMarker, before.units, ranges, Minted(mint, before.matches, |ranges|), literals);
      }
    }
  }

  /** After all rules no literal rule occurs in the text between markers; and what the rules leave,
      read again, has just those markers and that text between them. */
  lemma RulesLeaveNoLiteral(isMarker: MarkerTest, text: Text, literals: seq<Text>, matchers: seq<Matcher>, p: char, mint: nat -> Text)
    requires MarkersAreBracketed(isMarker) && Mints(isMarker, mint)
    requires AreWords(literals) && AreMatchers(matchers)
    ensures var r := Ruled(isMarker, text, literals, matchers, p, mint);
      r.Ok? ==> FreeOf(Parse(isMarker, r.text), literals)
    ensures var o := AfterMatchers(AfterLiterals(Parse(isMarker, text), literals, mint), matchers, p, mint);
      o.Going? ==> Clean(isMarker, o.units) && Parse(isMarker, Print(o.units)) == o.units
  {
    hide Parse, Print, Clean, FreeOf, MarkersAreBracketed, Mints, AfterLiterals, AfterMatchers;
    ParseIsClean(isMarker, text);
    var o := AfterLiterals(Parse(isMarker, text), literals, mint);
    LiteralsLeave(isMarker, Parse(isMarker, text), literals, mint);
    MatchersKeep(isMarker, o, matchers, p, mint, literals);
    var a := AfterMatchers(o, matchers, p, mint);
    if a.Going? { ParseOfPrint(isMarker, a.units); }
  }

  lemma NothingToTake(us: seq<Unit>, w: Text)
    requires w != [] && !MarkedText.Occurs(us, w)
    ensures Greedy(us, w, 0) == []
  {
    hide MarkedText.OccursAt;
    GreedySkips(us, w, 0, |us| + 1);
  }

  lemma {:induction false} FreeIsKept(us: seq<Unit>, literals: seq<Text>, mint: nat -> Text)
    requires AreWords(literals) && FreeOf(us, literals)
    ensures AfterLiterals(us, literals, mint) == Going(us, 0)
  {
    hide Greedy, MarkedText.Occurs;
    if literals != [] {
      var init, w := literals[..|literals| - 1], literals[|literals| - 1];
      assert w in literals;
      FreeIsKept(us, init, mint);
      NothingToTake(us, w);
      UptoNothing(us, [], Marks(Minted(mint, 0, 0)));
    }
  }

  /** Without compiled rules, a text no literal occurs in is left as it is. */
  lemma NothingToRedact(isMarker: MarkerTest, text: Text, literals: seq<Text>, p: char, mint: nat -> Text)
    requires AreWords(literals) && FreeOf(Parse(isMarker, text), literals)
    ensures Ruled(isMarker, text, literals, [], p, mint) == Ok(text)
  {
    hide Parse, Print, FreeOf;
    FreeIsKept(Parse(isMarker, text), literals, mint);
    PrintOfParse(isMarker, text);
  }

  /** The rules of a policy: literals first, then compiled rules, at most `MAX_MATCHES` matches in all. */
  class Policy {
    const literals: seq<Text>
    const matchers: seq<Matcher>
    /** The texts of all rules, which no placeholder may occur in. */
    const sources: seq<Text>

    constructor (ls: seq<Text>, ms: seq<Matcher>, texts: seq<Text>)
      requires AreWords(ls) && AreMatchers(ms) && forall w :: w in ls ==> w in texts
      ensures literals == ls && matchers == ms && sources == texts && Valid()
    {
      literals, matchers, sources := ls, ms, texts;
    }

    ghost predicate Valid() {
      AreWords(literals) && AreMatchers(matchers) && forall w :: w in literals ==> w in sources
    }

    method ApplyLiterals(s: Staged, mint: nat -> Text) returns (total: Option<nat>)
      requires Valid() && s.Valid() && forall t :: t in sources ==> s.placeholder !in t
      modifies s
      ensures s.Valid()
      ensures match AfterLiterals(old(s.Units()), literals, mint)
              case Over => total == None
              case Going(us, n) => total == Some(n) && s.Units() == us
    {
      hide Replaced, UnitsOf, Count, Greedy, SamePlaces, Marks;
      ghost var start := s.Units();
      var matches: nat := 0;
      assert literals[..0] == [];
      for k := 0 to |literals|
        invariant matches <= MAX_MATCHES && s.Valid() && AreWords(literals[..k])
        invariant AfterLiterals(start, literals[..k], mint) == Going(s.Units(), matches)
      {
        var w := literals[k];
        assert w in literals;
        assert literals[..k + 1][..k] == literals[..k] && literals[..k + 1][k] == w;
        ghost var us := s.Units();
        WordsInStaged(s.text, s.markers, s.placeholder, w);
        GreedyIsApart(us, w, 0);
        var found := FindAll(s.text, w, MAX_MATCHES - matches, us);
        if found.None? {
          OverStays(start, literals, mint, k + 1);
          return None;
        }
        s.Replace(found.value, Minted(mint, matches, |found.value|));
        matches := matches + |found.value|;
      }
      assert literals[..|literals|] == literals;
      total := Some(matches);
    }

    method ApplyMatchers(s: Staged, mint: nat -> Text, counted: nat) returns (ok: bool)
      requires Valid() && s.Valid() && counted <= MAX_MATCHES
      modifies s
      ensures s.Valid()
      ensures match AfterMatchers(Going(old(s.Units()), counted), matchers, s.placeholder, mint)
              case Over => !ok
              case Going(us, _) => ok && s.Units() == us
    {
      hide Replaced, UnitsOf, Count, IsMatcher, Matched, Seen, Marks;
      ghost var start := Going(s.Units(), counted);
      var matches: nat := counted;
      assert matchers[..0] == [];
      for k := 0 to |matchers|
        invariant matches <= MAX_MATCHES && s.Valid() && AreMatchers(matchers[..k])
        invariant AfterMatchers(start, matchers[..k], s.placeholder, mint) == Going(s.Units(), matches)
      {
        var m := matchers[k];
        assert m in matchers;
        assert matchers[..k + 1][..k] == matchers[..k] && matchers[..k + 1][k] == m;
        StagedIsSeen(s.text, s.markers, s.placeholder);
        var found := TextMatches(s.text, m, s.placeholder, MAX_MATCHES - matches);
        if found.None? {
          OverStaysToo(start, matchers, s.placeholder, mint, k + 1);
          return false;
        }
        s.Replace(found.value, Minted(mint, matches, |found.value|));
        matches := matches + |found.value|;
      }
      assert matchers[..|matchers|] == matchers;
      ok := true;
    }

    /** The rules over one text: without rules it is left alone, and without a placeholder refused;
        otherwise the outcome is what the rules make of it. */
    method Scrub(isMarker: MarkerTest, scrubbed: Text, mint: nat -> Text) returns (r: Scrubbed)
      requires Valid()
      ensures literals == [] && matchers == [] ==> r == Ok(scrubbed)
      ensures literals != [] || matchers != [] ==>
        forall p :: IsFirstFree([scrubbed] + sources, p) ==> r == Ruled(isMarker, scrubbed, literals, matchers, p, mint)
      ensures r == NoPlaceholder <==>
        (literals != [] || matchers != []) && forall p :: IsPlaceholder(p) ==> Taken([scrubbed] + sources, p)
    {
      hide Parse, UnitsOf, Count, Print, AfterLiterals, AfterMatchers, Taken, IsMatcher;
      if literals == [] && matchers == [] { return Ok(scrubbed); }
      var free := FreePlaceholder([scrubbed] + sources);
      if free.None? { return NoPlaceholder; }
      var p := free.value;
      OnlyFirst([scrubbed] + sources, p);
      NotTaken([scrubbed] + sources, p);
      assert scrubbed in [scrubbed] + sources;
      forall t | t in sources ensures p !in t { assert t in [scrubbed] + sources; }
      var s := new Staged(isMarker, scrubbed, p);
      var total := ApplyLiterals(s, mint);
      if total.None? {
        NothingAfterOver(matchers, p, mint);
        return TooManyMatches;
      }
      var ok := ApplyMatchers(s, mint, total.value);
      if !ok { return TooManyMatches; }
      var out := s.Finish();
      r := Ok(out.value);
    }

    /** The literal rules are idempotent: a second run over their result changes nothing. */
    method LiteralsTwice(isMarker: MarkerTest, scrubbed: Text, mint: nat -> Text, again: nat -> Text)
      returns (first: Scrubbed, second: Scrubbed)
      requires Valid() && matchers == [] && MarkersAreBracketed(isMarker) && Mints(isMarker, mint)
      ensures first.Ok? ==> second == first
    {
      hide Parse, FreeOf, Ruled, Taken, MarkersAreBracketed, Mints, IsFirstFree;
      first := Scrub(isMarker, scrubbed, mint);
      second := first;
      if first.Ok? && literals != [] {
        ghost var c :| IsPlaceholder(c) && !Taken([scrubbed] + sources, c);
        ghost var p := FirstFree([scrubbed] + sources, c);
        RulesLeaveNoLiteral(isMarker, scrubbed, literals, matchers, p, mint);
        StaysFree(isMarker, scrubbed, literals, p, mint, sources);
        ghost var q := FirstFree([first.text] + sources, p);
        NothingToRedact(isMarker, first.text, literals, q, again);
        second := Scrub(isMarker, first.text, again);
      }
    }
  }

  lemma {:induction false} FirstFree(texts: seq<Text>, c: char) returns (p: char)
    requires IsPlaceholder(c) && !Taken(texts, c)
    ensures IsFirstFree(texts, p)
    decreases c as int
  {
    hide Taken;
    if exists d: char :: FreeBelow(texts, d, c) {
      var d: char :| FreeBelow(texts, d, c);
      p := FirstFree(texts, d);
    } else {
      forall d: char | PLACEHOLDER_FIRST <= d as int < c as int ensures Taken(texts, d) {
        assert !FreeBelow(texts, d, c);
      }
      p := c;
    }
  }

  ghost predicate FreeBelow(texts: seq<Text>, c: char, limit: char) {
    IsPlaceholder(c) && c < limit && !Taken(texts, c)
  }

  // --- The placeholder does not come back ---

  ghost predicate NoChar(us: seq<Unit>, p: char) {
    forall u :: u in us ==> u != Char(p)
  }

  lemma {:induction false} ParseHasNoChar(isMarker: MarkerTest, t: Text, p: char)
    requires p !in t
    ensures NoChar(Parse(isMarker, t), p)
    decreases |t|
  {
    hide MarkerLength;
    if t != [] {
      var n := MarkerLength(isMarker, t);
      ParseHasNoChar(isMarker, if n > 0 then t[n..] else t[1..], p);
    }
  }

  lemma ReplacedHasNoChar(us: seq<Unit>, ranges: seq<Span>, minted: seq<Text>, p: char)
    requires NoChar(us, p) && Apart(ranges, |us|) && |minted| == |ranges|
    ensures NoChar(Replaced(us, ranges, Marks(minted)), p)
  {
    hide Upto, Marks;
    var fill := Marks(minted);
    forall u | u in Replaced(us, ranges, fill) ensures u in us || u in fill {
      if u in Upto(us, ranges, fill, |ranges|) {
        MarksOfUpto(us, ranges, fill, |ranges|, u);
      } else {
        assert u in us[GapStart(ranges, |ranges|)..];
      }
    }
  }

  lemma {:induction false} LiteralsHaveNoChar(us: seq<Unit>, literals: seq<Text>, mint: nat -> Text, p: char)
    requires AreWords(literals) && NoChar(us, p)
    ensures var o := AfterLiterals(us, literals, mint); o.Going? ==> NoChar(o.units, p)
  {
    hide Replaced, Greedy, NoChar;
    if literals != [] {
      var init, w := literals[..|literals| - 1], literals[|literals| - 1];
      LiteralsHaveNoChar(us, init, mint, p);
      var before := AfterLiterals(us, init, mint);
      if before.Going? {
        var ranges := Greedy(before.units, w, 0);
        GreedyIsApart(before.units, w, 0);
        ReplacedHasNoChar(before.units, ranges, Minted(mint, before.matches, |ranges|), p);
      }
    }
  }

  /** A placeholder free for a text is free for what the literal rules make of it. */
  lemma StaysFree(isMarker: MarkerTest, text: Text, literals: seq<Text>, p: char, mint: nat -> Text, sources: seq<Text>)
    requires MarkersAreBracketed(isMarker) && Mints(isMarker, mint) && AreWords(literals)
    requires IsFirstFree([text] + sources, p)
    ensures var r := Ruled(isMarker, text, literals, [], p, mint);
      r.Ok? ==> IsPlaceholder(p) && !Taken([r.text] + sources, p)
  {
    hide Parse, Print, Clean, NoChar, AfterLiterals, FreeOf, MarkersAreBracketed, Mints;
    NotTaken([text] + sources, p);
    assert text in [text] + sources;
    forall t | t in sources ensures p !in t { assert t in [text] + sources; }
    ParseIsClean(isMarker, text);
    ParseHasNoChar(isMarker, text, p);
    LiteralsLeave(isMarker, Parse(isMarker, text), literals, mint);
    LiteralsHaveNoChar(Parse(isMarker, text), literals, mint, p);
    var o := AfterLiterals(Parse(isMarker, text), literals, mint);
    if o.Going? { PlaceholderGone(isMarker, o.units, p); }
  }

  lemma OnlyFirst(texts: seq<Text>, p: char)
    requires IsPlaceholder(p) && !Taken(texts, p)
    requires forall c: char :: PLACEHOLDER_FIRST <= c as int < p as int ==> Taken(texts, c)
    ensures forall q :: IsFirstFree(texts, q) <==> q == p
  {
    hide Taken;
    forall q | IsFirstFree(texts, q) ensures q == p {
      assert q as int < p as int ==> Taken(texts, q);
      assert p as int < q as int ==> Taken(texts, p);
    }
  }

  lemma NotTaken(texts: seq<Text>, p: char)
    requires !Taken(texts, p)
    ensures forall t :: t in texts ==> p !in t
  {
  }

  lemma NothingAfterOver(matchers: seq<Matcher>, p: char, mint: nat -> Text)
    requires AreMatchers(matchers)
    ensures AfterMatchers(Over, matchers, p, mint) == Over
  {
  }

  lemma FreeOfNone(us: seq<Unit>)
    ensures FreeOf(us, [])
  {
  }

  lemma PlaceholderGone(isMarker: MarkerTest, us: seq<Unit>, p: char)
    requires MarkersAreBracketed(isMarker) && IsPlaceholder(p) && Clean(isMarker, us) && NoChar(us, p)
    ensures p !in Print(us)
  {
    forall i | 0 <= i < |us| ensures p !in PrintUnit(us[i]) {
      assert us[i] in us;
    }
    PrintedIn(us, p);
  }

  lemma {:induction false} PrintedIn(us: seq<Unit>, p: char)
    requires forall i :: 0 <= i < |us| ==> p !in PrintUnit(us[i])
    ensures p !in Print(us)
  {
    if us != [] {
      assert p !in PrintUnit(us[0]);
      PrintedIn(us[1..], p);
    }
  }
}
