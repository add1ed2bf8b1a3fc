/** Lone private-key lines: long tokens, the regions found beside the lines, and their redaction. */
module KeyBlocks {
  import opened Bytes

  const FALLBACK_WINDOW: nat := 4096
  const FALLBACK_TOKEN_MIN: nat := 40
  const MAX_MATCHES: nat := 256
  const SETTLE_ROUNDS: nat := 8

  predicate IsAlphanumeric(c: char) {
    '0' <= c <= '9' || 'a' <= c <= 'z' || 'A' <= c <= 'Z'
  }

  predicate IsHexDigit(c: char) {
    '0' <= c <= '9' || 'a' <= c <= 'f' || 'A' <= c <= 'F'
  }

  predicate IsKeyByte(c: char) {
    IsAlphanumeric(c) || c == '+' || c == '/' || c == '='
  }

  // --- Long tokens ---

  function Alphanumerics(t: Text): nat {
    if t == [] then 0 else Alphanumerics(t[..|t| - 1]) + if IsAlphanumeric(t[|t| - 1]) then 1 else 0
  }

  /** A run of key bytes that no key byte borders on. */
  ghost predicate IsRun(t: Text, s: Span) {
    && s.start < s.end <= |t|
    && (forall i :: s.start <= i < s.end ==> IsKeyByte(t[i]))
    && (s.start > 0 ==> !IsKeyByte(t[s.start - 1]))
    && (s.end < |t| ==> !IsKeyByte(t[s.end]))
  }

  /** Long, mostly letters and digits, and not hex digits alone. */
  ghost predicate IsLong(w: Text) {
    |w| >= FALLBACK_TOKEN_MIN && Alphanumerics(w) * 4 >= |w| * 3 && exists i :: 0 <= i < |w| && !IsHexDigit(w[i])
  }

  ghost predicate IsToken(t: Text, s: Span) {
    IsRun(t, s) && IsLong(t[s.start..s.end])
  }

  /** In ascending order, each ending before the next starts. */
  ghost predicate Disjoint(spans: seq<Span>) {
    && (forall i :: 0 <= i < |spans| ==> spans[i].start < spans[i].end)
    && (forall i, j :: 0 <= i < j < |spans| ==> spans[i].end < spans[j].start)
  }

  /** Exactly the qualifying maximal runs, in ascending order, apart. */
  method LongTokens(t: Text) returns (tokens: seq<Span>)
    ensures Disjoint(tokens) && forall s :: s in tokens <==> IsToken(t, s)
  {
    hide IsLong, IsKeyByte;
    tokens := [];
    var at := 0;
    while at < |t|
      invariant at <= |t| && Disjoint(tokens)
      invariant at == 0 || at == |t| || !IsKeyByte(t[at]) || !IsKeyByte(t[at - 1])
      invariant forall s :: s in tokens <==> IsToken(t, s) && s.end <= at
      decreases |t| - at
    {
      if !IsKeyByte(t[at]) {
        NoTokenEnds(t, at);
        at := at + 1;
        continue;
      }
      var start := at;
      var end, qualifies := ReadRun(t, at);
      at := end;
      RunsUpTo(t, start, end);
      if qualifies {
        AppendApart(tokens, Span(start, end), t);
        tokens := tokens + [Span(start, end)];
      }
    }
  }

  /** The run of key bytes from `start` on, and whether it is long. */
  method ReadRun(t: Text, start: nat) returns (end: nat, qualifies: bool)
    requires start < |t| && IsKeyByte(t[start])
    ensures start < end <= |t| && (forall i :: start <= i < end ==> IsKeyByte(t[i])) && (end < |t| ==> !IsKeyByte(t[end]))
    ensures qualifies <==> IsLong(t[start..end])
  {
    hide IsKeyByte;
    end := start;
    var alphanumeric, hexOnly := 0, true;
    while end < |t| && IsKeyByte(t[end])
      invariant start <= end <= |t| && (end == start ==> IsKeyByte(t[start]))
      invariant forall i :: start <= i < end ==> IsKeyByte(t[i])
      invariant alphanumeric == Alphanumerics(t[start..end])
      invariant hexOnly <==> forall i :: start <= i < end ==> IsHexDigit(t[i])
    {
      assert t[start..end + 1][..end - start] == t[start..end];
      if IsAlphanumeric(t[end]) { alphanumeric := alphanumeric + 1; }
      hexOnly := hexOnly && IsHexDigit(t[end]);
      end := end + 1;
    }
    var length := end - start;
    qualifies := length >= FALLBACK_TOKEN_MIN && alphanumeric * 4 >= length * 3 && !hexOnly;
    HexInSlice(t, start, end);
  }

  lemma HexInSlice(t: Text, start: nat, end: nat)
    requires start <= end <= |t|
    ensures (exists i :: 0 <= i < end - start && !IsHexDigit(t[start..end][i]))
      <==> !(forall i :: start <= i < end ==> IsHexDigit(t[i]))
  {
    if !(forall i :: start <= i < end ==> IsHexDigit(t[i])) {
      var i :| start <= i < end && !IsHexDigit(t[i]);
      assert !IsHexDigit(t[start..end][i - start]);
    }
  }

  lemma NoTokenEnds(t: Text, at: nat)
    requires at < |t| && !IsKeyByte(t[at])
    ensures forall s :: IsToken(t, s) ==> (s.end <= at <==> s.end <= at + 1)
  {
  }

  /** The only run that ends in the stretch just read is that stretch. */
  lemma RunsUpTo(t: Text, start: nat, end: nat)
    requires start < end <= |t| && (forall i :: start <= i < end ==> IsKeyByte(t[i])) && (end < |t| ==> !IsKeyByte(t[end]))
    requires start == 0 || !IsKeyByte(t[start - 1])
    ensures IsRun(t, Span(start, end))
    ensures forall s :: IsRun(t, s) && start < s.end <= end ==> s == Span(start, end)
  {
    hide IsKeyByte;
  }

  lemma AppendApart(tokens: seq<Span>, s: Span, t: Text)
    requires Disjoint(tokens) && s.start < s.end <= |t| && (s.start > 0 ==> !IsKeyByte(t[s.start - 1]))
    requires forall x :: x in tokens ==> IsRun(t, x) && x.end <= s.start
    ensures Disjoint(tokens + [s])
  {
    forall i | 0 <= i < |tokens| ensures tokens[i].end < s.start {
      assert tokens[i] in tokens;
      assert IsKeyByte(t[tokens[i].end - 1]);
    }
  }

  // --- The tokens near a lone line ---

  /** How many spans satisfy `test`, when those that do come first: binary search. */
  method PartitionPoint(spans: seq<Span>, test: Span -> bool) returns (n: nat)
    requires forall i, j :: 0 <= i < j < |spans| && test(spans[j]) ==> test(spans[i])
    ensures n <= |spans|
    ensures (forall i :: 0 <= i < n ==> test(spans[i])) && forall i :: n <= i < |spans| ==> !test(spans[i])
  {
    n := 0;
    var hi := |spans|;
    while n < hi
      invariant n <= hi <= |spans|
      invariant forall i :: 0 <= i < n ==> test(spans[i])
      invariant forall i :: hi <= i < |spans| ==> !test(spans[i])
    {
      var mid := (n + hi) / 2;
      if test(spans[mid]) { n := mid + 1; } else { hi := mid; }
    }
  }

  predicate InWindowAfter(s: Span, from: nat) {
    from <= s.start && s.end <= from + FALLBACK_WINDOW
  }

  predicate InWindowBefore(s: Span, at: nat) {
    at <= s.start + FALLBACK_WINDOW && s.end <= at
  }

  /** Token `i` is the last in the window after `from`. */
  ghost predicate IsLastAfter(tokens: seq<Span>, from: nat, i: nat) {
    && i < |tokens| && InWindowAfter(tokens[i], from)
    && forall j :: i < j < |tokens| ==> !InWindowAfter(tokens[j], from)
  }

  /** Token `i` is the first in the window before `at`. */
  ghost predicate IsFirstBefore(tokens: seq<Span>, at: nat, i: nat) {
    && i < |tokens| && InWindowBefore(tokens[i], at)
    && forall j :: 0 <= j < i ==> !InWindowBefore(tokens[j], at)
  }

  /** The end of the last token in the window after `from`, as a search through all of them finds it. */
  method LastTokenEndAfter(tokens: seq<Span>, from: nat) returns (r: Option<nat>)
    requires Disjoint(tokens)
    ensures r.None? <==> forall i :: 0 <= i < |tokens| ==> !InWindowAfter(tokens[i], from)
    ensures r.Some? ==> exists i: nat :: IsLastAfter(tokens, from, i) && tokens[i].end == r.value
  {
    var limit := from + FALLBACK_WINDOW;
    var first := PartitionPoint(tokens, (s: Span) => s.start < from);
    var after := PartitionPoint(tokens, (s: Span) => s.end <= limit);
    assert forall i :: first <= i < |tokens| ==> tokens[i].start >= from;
    assert forall i :: 0 <= i < first ==> tokens[i].start < from;
    assert forall i :: 0 <= i < after ==> tokens[i].end <= limit;
    assert forall i :: after <= i < |tokens| ==> tokens[i].end > limit;
    if after > first {
      assert IsLastAfter(tokens, from, after - 1);
      return Some(tokens[after - 1].end);
    }
    r := None;
  }

  /** The start of the first token in the window before `at`. */
  method FirstTokenStartBefore(tokens: seq<Span>, at: nat) returns (r: Option<nat>)
    requires Disjoint(tokens)
    ensures r.None? <==> forall i :: 0 <= i < |tokens| ==> !InWindowBefore(tokens[i], at)
    ensures r.Some? ==> exists i: nat :: IsFirstBefore(tokens, at, i) && tokens[i].start == r.value
  {
    var floor := if at < FALLBACK_WINDOW then 0 else at - FALLBACK_WINDOW;
    var first := PartitionPoint(tokens, (s: Span) => s.start < floor);
    var before := PartitionPoint(tokens, (s: Span) => s.end <= at);
    assert forall i :: first <= i < |tokens| ==> tokens[i].start >= floor;
    assert forall i :: 0 <= i < first ==> tokens[i].start < floor;
    assert forall i :: 0 <= i < before ==> tokens[i].end <= at;
    assert forall i :: before <= i < |tokens| ==> tokens[i].end > at;
    if before > first {
      assert IsFirstBefore(tokens, at, first);
      return Some(tokens[first].start);
    }
    r := None;
  }

  // --- Regions ---

  /** What the line patterns and the readers of key lines find in a text: uninterpreted, but for
      the shape of a region. */
  datatype Finders = Finders(
    headers: Text -> seq<Span>, footers: Text -> seq<Span>,
    runEnd: (Text, nat) -> nat, runStart: (Text, nat) -> Option<nat>)

  ghost predicate FindRegions(f: Finders) {
    && (forall t: Text, s :: s in f.headers(t) || s in f.footers(t) ==> s.start < s.end <= |t|)
    && (forall t: Text, at: nat :: at <= |t| ==> f.runEnd(t, at) <= |t|)
    && (forall t: Text, at: nat :: at <= |t| && f.runStart(t, at).Some? ==> f.runStart(t, at).value <= at)
  }

  /** The region of one header: through its run of key lines, or else through the last long token
      in reach. */
  ghost predicate HeaderRegion(f: Finders, t: Text, h: Span, r: Span) {
    && r.start == h.start
    && if f.runEnd(t, h.end) > h.end then r.end == f.runEnd(t, h.end)
       else exists s :: IsToken(t, s) && InWindowAfter(s, h.end) && r.end == s.end
              && forall x :: IsToken(t, x) && InWindowAfter(x, h.end) ==> x.end <= s.end
  }

  ghost predicate FooterRegion(f: Finders, t: Text, e: Span, r: Span) {
    && r.end == e.end
    && if f.runStart(t, e.start).Some? then r.start == f.runStart(t, e.start).value
       else exists s :: IsToken(t, s) && InWindowBefore(s, e.start) && r.start == s.start
              && forall x :: IsToken(t, x) && InWindowBefore(x, e.start) ==> s.start <= x.start
  }

  ghost predicate IsRegion(f: Finders, t: Text, r: Span) {
    (exists h :: h in f.headers(t) && HeaderRegion(f, t, h, r)) || (exists e :: e in f.footers(t) && FooterRegion(f, t, e, r))
  }

  ghost predicate Covered(spans: seq<Span>, x: int) {
    exists s :: s in spans && s.start <= x < s.end
  }

  /** The region of a header, when it has one. */
  method RegionOfHeader(f: Finders, t: Text, h: Span, tokens: seq<Span>) returns (r: Option<Span>)
    requires Disjoint(tokens) && forall s :: s in tokens <==> IsToken(t, s)
    ensures r.Some? ==> HeaderRegion(f, t, h, r.value)
    ensures forall x :: HeaderRegion(f, t, h, x) ==> r == Some(x)
  {
    hide IsToken, InWindowAfter;
    var end := f.runEnd(t, h.end);
    if end > h.end { return Some(Span(h.start, end)); }
    var last := LastTokenEndAfter(tokens, h.end);
    if last.None? {
      forall s | IsToken(t, s) ensures !InWindowAfter(s, h.end) { assert s in tokens; }
      return None;
    }
    ghost var i: nat :| IsLastAfter(tokens, h.end, i) && tokens[i].end == last.value;
    assert tokens[i] in tokens;
    forall s | IsToken(t, s) && InWindowAfter(s, h.end) ensures s.end <= last.value {
      assert s in tokens;
      var j :| 0 <= j < |tokens| && tokens[j] == s;
    }
    r := Some(Span(h.start, last.value));
  }

  method RegionOfFooter(f: Finders, t: Text, e: Span, tokens: seq<Span>) returns (r: Option<Span>)
    requires Disjoint(tokens) && forall s :: s in tokens <==> IsToken(t, s)
    ensures r.Some? ==> FooterRegion(f, t, e, r.value)
    ensures forall x :: FooterRegion(f, t, e, x) ==> r == Some(x)
  {
    hide IsToken, InWindowBefore;
    var start := f.runStart(t, e.start);
    if start.Some? { return Some(Span(start.value, e.end)); }
    var first := FirstTokenStartBefore(tokens, e.start);
    if first.None? {
      forall s | IsToken(t, s) ensures !InWindowBefore(s, e.start) { assert s in tokens; }
      return None;
    }
    ghost var i: nat :| IsFirstBefore(tokens, e.start, i) && tokens[i].start == first.value;
    assert tokens[i] in tokens;
    forall s | IsToken(t, s) && InWindowBefore(s, e.start) ensures first.value <= s.start {
      assert s in tokens;
      var j :| 0 <= j < |tokens| && tokens[j] == s;
    }
    r := Some(Span(first.value, e.end));
  }

  /** Every header's region and every footer's region, and no other. */
  method RawRegions(f: Finders, t: Text) returns (regions: seq<Span>)
    requires FindRegions(f)
    ensures forall r :: r in regions <==> IsRegion(f, t, r)
    ensures forall r :: r in regions ==> r.start < r.end <= |t|
  {
    hide HeaderRegion, FooterRegion, IsToken;
    var tokens := LongTokens(t);
    regions := [];
    var headers, footers := f.headers(t), f.footers(t);
    for i := 0 to |headers|
      invariant forall r :: r in regions <==> exists h :: h in headers[..i] && HeaderRegion(f, t, h, r)
    {
      assert headers[..i + 1] == headers[..i] + [headers[i]];
      var r := RegionOfHeader(f, t, headers[i], tokens);
      if r.Some? { regions := regions + [r.value]; }
    }
    assert headers[..|headers|] == headers;
    ghost var ofHeaders := regions;
    for i := 0 to |footers|
      invariant forall r :: r in regions <==> r in ofHeaders || exists e :: e in footers[..i] && FooterRegion(f, t, e, r)
    {
      assert footers[..i + 1] == footers[..i] + [footers[i]];
      var r := RegionOfFooter(f, t, footers[i], tokens);
      if r.Some? { regions := regions + [r.value]; }
    }
    assert footers[..|footers|] == footers;
    forall r | r in regions ensures r.start < r.end <= |t| { RegionsAreSpans(f, t, r); }
  }

  lemma RegionsAreSpans(f: Finders, t: Text, r: Span)
    requires FindRegions(f) && IsRegion(f, t, r)
    ensures r.start < r.end <= |t|
  {
  }

  // --- Merging ---

  function InsertSpan(spans: seq<Span>, s: Span): (out: seq<Span>)
    ensures forall x :: x in out <==> x in spans || x == s
  {
    if spans == [] then [s]
    else if spans[0].start <= s.start then
      assert spans == [spans[0]] + spans[1..];
      [spans[0]] + InsertSpan(spans[1..], s)
    else [s] + spans
  }

  function SortSpans(spans: seq<Span>): (out: seq<Span>)
    ensures forall x :: x in out <==> x in spans
  {
    if spans == [] then []
    else
      assert spans == spans[..|spans| - 1] + [spans[|spans| - 1]];
      InsertSpan(SortSpans(spans[..|spans| - 1]), spans[|spans| - 1])
  }

  ghost predicate StartsAscend(spans: seq<Span>) {
    forall i, j :: 0 <= i < j < |spans| ==> spans[i].start <= spans[j].start
  }

  lemma {:induction false} InsertAscends(spans: seq<Span>, s: Span)
    requires StartsAscend(spans)
    ensures StartsAscend(InsertSpan(spans, s))
  {
    if spans != [] && spans[0].start <= s.start {
      var rest := InsertSpan(spans[1..], s);
      InsertAscends(spans[1..], s);
      forall j | 0 <= j < |rest| ensures spans[0].start <= rest[j].start {
        assert rest[j] in rest;
      }
    }
  }

  lemma {:induction false} SortAscends(spans: seq<Span>)
    ensures StartsAscend(SortSpans(spans))
  {
    if spans != [] {
      SortAscends(spans[..|spans| - 1]);
      InsertAscends(SortSpans(spans[..|spans| - 1]), spans[|spans| - 1]);
    }
  }

  function Max(a: nat, b: nat): nat { if a > b then a else b }

  /** One region joins the last merged one when it touches it, and follows it otherwise. */
  function MergeOne(merged: seq<Span>, r: Span): seq<Span> {
    if merged != [] && r.start <= merged[|merged| - 1].end then
      var last := merged[|merged| - 1];
      merged[..|merged| - 1] + [Span(last.start, Max(last.end, r.end))]
    else merged + [r]
  }

  ghost predicate EndBy(spans: seq<Span>, n: nat) {
    forall r :: r in spans ==> r.end <= n
  }

  lemma MergeStaysApart(merged: seq<Span>, r: Span, n: nat)
    requires Disjoint(merged) && EndBy(merged, n) && r.start < r.end <= n
    requires merged != [] ==> merged[|merged| - 1].start <= r.start
    ensures var out := MergeOne(merged, r);
      Disjoint(out) && EndBy(out, n) && out != [] && out[|out| - 1].start <= r.start
  {
    hide Disjoint, EndBy;
    if merged != [] && r.start <= merged[|merged| - 1].end {
      var init, last := merged[..|merged| - 1], merged[|merged| - 1];
      assert merged == init + [last];
      LastApart(init, last, n);
      LastApart(init, Span(last.start, Max(last.end, r.end)), n);
    } else {
      if merged != [] {
        LastApart(merged[..|merged| - 1], merged[|merged| - 1], n);
        assert merged == merged[..|merged| - 1] + [merged[|merged| - 1]];
      }
      LastAfterLast(merged, r);
      LastApart(merged, r, n);
    }
  }

  /** Spans stand apart when all but the last do and the last starts past them. */
  lemma LastApart(init: seq<Span>, last: Span, n: nat)
    ensures Disjoint(init + [last]) <==>
      Disjoint(init) && last.start < last.end && forall i :: 0 <= i < |init| ==> init[i].end < last.start
    ensures EndBy(init + [last], n) <==> EndBy(init, n) && last.end <= n
  {
    var all := init + [last];
    assert all[|init|] == last && all[..|init|] == init;
    assert forall s :: s in all <==> s in init || s == last;
    assert Disjoint(all) ==> forall i :: 0 <= i < |init| ==> all[i].end < all[|init|].start;
  }

  lemma LastAfterLast(spans: seq<Span>, r: Span)
    requires Disjoint(spans) && (spans != [] ==> spans[|spans| - 1].end < r.start)
    ensures forall i :: 0 <= i < |spans| ==> spans[i].end < r.start
  {
    forall i | 0 <= i < |spans| ensures spans[i].end < r.start {
      if i < |spans| - 1 { assert spans[i].end < spans[|spans| - 1].start < spans[|spans| - 1].end; }
    }
  }

  lemma MergeCovers(merged: seq<Span>, r: Span, x: int)
    requires r.start < r.end && (merged != [] ==> merged[|merged| - 1].start <= r.start)
    ensures Covered(MergeOne(merged, r), x) <==> Covered(merged, x) || r.start <= x < r.end
  {
    hide Covered;
    if merged != [] && r.start <= merged[|merged| - 1].end {
      var init, last := merged[..|merged| - 1], merged[|merged| - 1];
      CoveredByLast(init, last, x);
      CoveredByLast(init, Span(last.start, Max(last.end, r.end)), x);
      assert merged == init + [last];
    } else {
      CoveredByLast(merged, r, x);
    }
  }

  lemma CoveredByLast(init: seq<Span>, last: Span, x: int)
    ensures Covered(init + [last], x) <==> Covered(init, x) || last.start <= x < last.end
  {
    var all := init + [last];
    assert all[|init|] == last && forall s :: s in init ==> s in all;
  }

  method Merge(sorted: seq<Span>, ghost n: nat) returns (merged: seq<Span>)
    requires StartsAscend(sorted) && EndBy(sorted, n) && forall r :: r in sorted ==> r.start < r.end
    ensures Disjoint(merged) && EndBy(merged, n) && forall x :: Covered(merged, x) <==> Covered(sorted, x)
  {
    hide Covered, Disjoint, MergeOne;
    merged := [];
    NothingMerged(n);
    for i := 0 to |sorted|
      invariant Disjoint(merged) && EndBy(merged, n)
      invariant forall x :: Covered(merged, x) <==> Covered(sorted[..i], x)
      invariant merged != [] ==> i > 0 && merged[|merged| - 1].start <= sorted[i - 1].start
    {
      assert sorted[..i + 1] == sorted[..i] + [sorted[i]];
      assert sorted[i] in sorted;
      forall x ensures Covered(MergeOne(merged, sorted[i]), x) <==> Covered(sorted[..i + 1], x) {
        MergeCovers(merged, sorted[i], x);
        CoveredByLast(sorted[..i], sorted[i], x);
      }
      MergeStaysApart(merged, sorted[i], n);
      merged := MergeOne(merged, sorted[i]);
    }
    assert sorted[..|sorted|] == sorted;
  }

  lemma NothingMerged(n: nat)
    ensures Disjoint([]) && EndBy([], n) && forall s: seq<Span>, x: int :: |s| == 0 ==> !Covered(s, x)
  {
  }

  /** In order, apart, and covering exactly what the regions found cover. */
  ghost predicate IsMerge(f: Finders, t: Text, merged: seq<Span>) {
    && Disjoint(merged) && EndBy(merged, |t|)
    && forall x :: Covered(merged, x) <==> exists r :: IsRegion(f, t, r) && r.start <= x < r.end
  }

  lemma FirstSpan(a: seq<Span>, x: int)
    requires Disjoint(a) && a != []
    ensures Covered(a, a[0].start) && !Covered(a, a[0].end) && (Covered(a, x) ==> a[0].start <= x)
    ensures Covered(a[1..], x) <==> Covered(a, x) && x >= a[0].end
  {
    assert a[0] in a;
    assert forall s :: s in a <==> s == a[0] || s in a[1..];
  }

  /** What is covered determines spans that stand apart. */
  lemma {:induction false} CoverDetermines(a: seq<Span>, b: seq<Span>)
    requires Disjoint(a) && Disjoint(b) && forall x :: Covered(a, x) <==> Covered(b, x)
    ensures a == b
  {
    hide Covered;
    if a == [] {
      if b != [] { FirstSpan(b, 0); NothingMerged(0); }
    } else if b == [] {
      FirstSpan(a, 0);
      NothingMerged(0);
    } else {
      FirstSpan(a, b[0].start);
      FirstSpan(b, a[0].start);
      FirstSpan(a, b[0].end);
      FirstSpan(b, a[0].end);
      InSpan(a, b[0].end);
      InSpan(b, a[0].end);
      assert a[0] == b[0];
      forall x ensures Covered(a[1..], x) <==> Covered(b[1..], x) {
        FirstSpan(a, x);
        FirstSpan(b, x);
      }
      CoverDetermines(a[1..], b[1..]);
      assert a == [a[0]] + a[1..] && b == [b[0]] + b[1..];
    }
  }

  lemma InSpan(a: seq<Span>, x: int)
    ensures a != [] && a[0].start <= x < a[0].end ==> Covered(a, x)
  {
    if a != [] { assert a[0] in a; }
  }

  /** So there is one way to merge the regions of a text. */
  lemma MergeIsUnique(f: Finders, t: Text, a: seq<Span>, b: seq<Span>)
    requires IsMerge(f, t, a) && IsMerge(f, t, b)
    ensures a == b
  {
    hide Disjoint, Covered, IsRegion;
    CoverDetermines(a, b);
  }

  method OrphanRegions(f: Finders, t: Text) returns (merged: seq<Span>)
    requires FindRegions(f)
    ensures IsMerge(f, t, merged)
    ensures merged == [] <==> forall r :: !IsRegion(f, t, r)
  {
    hide IsRegion;
    var raw := RawRegions(f, t);
    var sorted := SortSpans(raw);
    SortAscends(raw);
    merged := Merge(sorted, |t|);
    CoverageOf(sorted);
    forall r | IsRegion(f, t, r) ensures merged != [] {
      assert r in sorted;
      assert Covered(sorted, r.start);
    }
    if merged != [] {
      assert merged[0] in merged;
      assert Covered(merged, merged[0].start);
    }
  }

  lemma CoverageOf(spans: seq<Span>)
    ensures forall x :: Covered(spans, x) <==> exists r :: r in spans && r.start <= x < r.end
  {
  }

  // --- Replacing ---

  /** The text through region `k`, each region replaced by its marker. */
  function Redacted(t: Text, regions: seq<Span>, marks: seq<Text>, k: nat): Text
    requires Disjoint(regions) && EndBy(regions, |t|) && |marks| == |regions| && k <= |regions|
  {
    if k == 0 then []
    else
      assert regions[k - 1] in regions;
      Redacted(t, regions, marks, k - 1) + t[GapStart(regions, k - 1)..regions[k - 1].start] + marks[k - 1]
  }

  /** How far the first `k` replacements move what follows them. */
  function Shift(regions: seq<Span>, marks: seq<Text>, k: nat): int
    requires |marks| == |regions| && k <= |regions|
  {
    if k == 0 then 0
    else Shift(regions, marks, k - 1) + |marks[k - 1]| - (regions[k - 1].end - regions[k - 1].start)
  }

  function RedactAll(t: Text, regions: seq<Span>, marks: seq<Text>): Text
    requires Disjoint(regions) && EndBy(regions, |t|) && |marks| == |regions|
  {
    assert regions != [] ==> regions[|regions| - 1] in regions;
    Redacted(t, regions, marks, |regions|) + t[GapStart(regions, |regions|)..]
  }

  lemma GapsFit(t: Text, regions: seq<Span>, k: nat)
    requires Disjoint(regions) && EndBy(regions, |t|) && k <= |regions|
    ensures GapStart(regions, k) <= GapEnd(regions, k, |t|) <= |t|
  {
    if k > 0 { assert regions[k - 1] in regions; }
    if k < |regions| { assert regions[k] in regions; }
  }

  lemma {:induction false} RedactedLength(t: Text, regions: seq<Span>, marks: seq<Text>, k: nat)
    requires Disjoint(regions) && EndBy(regions, |t|) && |marks| == |regions| && k <= |regions|
    ensures |Redacted(t, regions, marks, k)| == GapStart(regions, k) + Shift(regions, marks, k)
  {
    if k > 0 {
      RedactedLength(t, regions, marks, k - 1);
      GapsFit(t, regions, k - 1);
      assert regions[k - 1] in regions;
    }
  }

  lemma RedactNext(t: Text, regions: seq<Span>, marks: seq<Text>, i: nat)
    requires Disjoint(regions) && EndBy(regions, |t|) && |marks| == |regions| && i < |regions|
    ensures GapStart(regions, i) <= regions[i].start <= |t| && GapStart(regions, i + 1) == regions[i].end
    ensures Redacted(t, regions, marks, i + 1) ==
      Redacted(t, regions, marks, i) + t[GapStart(regions, i)..regions[i].start] + marks[i]
  {
    assert regions[i] in regions;
    GapsFit(t, regions, i);
  }

  lemma {:induction false} RedactedStays(t: Text, regions: seq<Span>, marks: seq<Text>, k: nat, n: nat)
    requires Disjoint(regions) && EndBy(regions, |t|) && |marks| == |regions| && k <= n <= |regions|
    ensures Redacted(t, regions, marks, k) <= Redacted(t, regions, marks, n)
    decreases n
  {
    hide Redacted, Disjoint, EndBy;
    if k < n {
      RedactedStays(t, regions, marks, k, n - 1);
      RedactNext(t, regions, marks, n - 1);
    }
  }

  /** Every byte outside the regions is kept, moved only by what the replacements before it change;
      the text grows by exactly what they change together. */
  lemma OutsideIsKept(t: Text, regions: seq<Span>, marks: seq<Text>, k: nat, x: nat)
    requires Disjoint(regions) && EndBy(regions, |t|) && |marks| == |regions| && k <= |regions|
    requires GapStart(regions, k) <= x < GapEnd(regions, k, |t|)
    ensures var out := RedactAll(t, regions, marks);
      && |out| == |t| + Shift(regions, marks, |regions|)
      && 0 <= x + Shift(regions, marks, k) < |out| && out[x + Shift(regions, marks, k)] == t[x]
  {
    hide Redacted, Disjoint, EndBy, Shift;
    var n := |regions|;
    GapsFit(t, regions, k);
    GapsFit(t, regions, n);
    RedactedLength(t, regions, marks, k);
    RedactedLength(t, regions, marks, n);
    if k < n {
      RedactedStays(t, regions, marks, k + 1, n);
      GapInRedacted(t, regions, marks, k, x);
    }
  }

  lemma GapInRedacted(t: Text, regions: seq<Span>, marks: seq<Text>, k: nat, x: nat)
    requires Disjoint(regions) && EndBy(regions, |t|) && |marks| == |regions| && k < |regions|
    requires GapStart(regions, k) <= x < regions[k].start <= |t|
    ensures var next := Redacted(t, regions, marks, k + 1);
      0 <= x + Shift(regions, marks, k) < |next| && next[x + Shift(regions, marks, k)] == t[x]
  {
    hide Redacted, Disjoint, EndBy, Shift;
    RedactedLength(t, regions, marks, k);
    RedactNext(t, regions, marks, k);
    var a, gap := Redacted(t, regions, marks, k), t[GapStart(regions, k)..regions[k].start];
    assert (a + gap + marks[k])[|a| + (x - GapStart(regions, k))] == gap[x - GapStart(regions, k)];
  }

  datatype Replacement = Nothing | Replaced(text: Text) | TooMany

  predicate Contains(t: Text, w: Text)
    ensures Contains(t, w) <==> Occurs(t, w)
  {
    assert forall i: nat :: OccursAt(t, w, i) ==> i <= |t|;
    exists i :: 0 <= i <= |t| && OccursAt(t, w, i)
  }

  const KEY_WORDS: Text := "PRIVATE KEY"

  /** A later scrub of this text would find nothing to redact beside a lone line. */
  ghost predicate NothingBeside(f: Finders, t: Text) {
    !Occurs(t, KEY_WORDS) || forall r :: !IsRegion(f, t, r)
  }

  function Marks(mint: nat -> Text, n: nat): (ms: seq<Text>)
    ensures |ms| == n && forall i :: 0 <= i < n ==> ms[i] == mint(i)
  {
    if n == 0 then [] else Marks(mint, n - 1) + [mint(n - 1)]
  }

  /** A text with its merged regions replaced by markers, refused when there are too many. */
  ghost function Redaction(f: Finders, t: Text, regions: seq<Span>, mint: nat -> Text): Replacement
    requires IsMerge(f, t, regions)
  {
    if |regions| > MAX_MATCHES then TooMany else Replaced(RedactAll(t, regions, Marks(mint, |regions|)))
  }

  ghost predicate IsReplacement(f: Finders, t: Text, mint: nat -> Text, r: Replacement) {
    if NothingBeside(f, t) then r == Nothing
    else exists regions :: IsMerge(f, t, regions) && r == Redaction(f, t, regions, mint)
  }

  lemma ReplacementIsUnique(f: Finders, t: Text, mint: nat -> Text, a: Replacement, b: Replacement)
    requires IsReplacement(f, t, mint, a) && IsReplacement(f, t, mint, b)
    ensures a == b
  {
    hide IsMerge, NothingBeside, RedactAll;
    if !NothingBeside(f, t) {
      var x :| IsMerge(f, t, x) && a == Redaction(f, t, x, mint);
      var y :| IsMerge(f, t, y) && b == Redaction(f, t, y, mint);
      MergeIsUnique(f, t, x, y);
    }
  }

  method OrphanReplace(f: Finders, t: Text, mint: nat -> Text) returns (r: Replacement)
    requires FindRegions(f)
    ensures IsReplacement(f, t, mint, r) && (r == Nothing <==> NothingBeside(f, t))
  {
    hide IsRegion, Disjoint, EndBy, Covered, GapStart;
    if !Contains(t, KEY_WORDS) { return Nothing; }
    var regions := OrphanRegions(f, t);
    if regions == [] { return Nothing; }
    if |regions| > MAX_MATCHES {
      assert Redaction(f, t, regions, mint) == TooMany;
      return TooMany;
    }
    ghost var marks := Marks(mint, |regions|);
    var out: Text, at := [], 0;
    NothingYet(t, regions, marks);
    for i := 0 to |regions|
      invariant at == GapStart(regions, i) && out == Redacted(t, regions, marks, i)
    {
      GapsFit(t, regions, i);
      RedactNext(t, regions, marks, i);
      out := out + t[at..regions[i].start];
      out := out + mint(i);
      at := regions[i].end;
    }
    GapsFit(t, regions, |regions|);
    out := out + t[at..];
    assert Redaction(f, t, regions, mint) == Replaced(out);
    r := Replaced(out);
  }

  lemma NothingYet(t: Text, regions: seq<Span>, marks: seq<Text>)
    requires Disjoint(regions) && EndBy(regions, |t|) && |marks| == |regions|
    ensures Redacted(t, regions, marks, 0) == [] && GapStart(regions, 0) == 0
  {
  }

  // --- Settling ---

  /** Setting markers aside and putting them back: any two functions here; `KeyStaging` has the real ones. */
  datatype Staging = Staging(stage: Text -> (Text, seq<Text>), restore: (Text, seq<Text>) -> Text)

  datatype Settled = Ok(text: Text) | TooManyMatches

  /** A further scrub finds no lone key block in the text: it leaves the text as it is. */
  ghost predicate IsSettled(f: Finders, g: Staging, t: Text) {
    !Occurs(t, KEY_WORDS) || NothingBeside(f, g.stage(t).0)
  }

  function InRound(mint: (nat, nat) -> Text, round: nat): nat -> Text {
    (k: nat) => mint(round, k)
  }

  /** Where the rounds from `round` on lead: each redacts what the staged text shows, until a round
      finds nothing, finds too much, or is the last. */
  ghost predicate SettlesTo(f: Finders, g: Staging, t: Text, mint: (nat, nat) -> Text, round: nat, r: Settled)
    requires round <= SETTLE_ROUNDS
    decreases SETTLE_ROUNDS - round
  {
    if round == SETTLE_ROUNDS then r == TooManyMatches
    else if IsSettled(f, g, t) then r == Ok(t)
    else exists found :: (
      && IsReplacement(f, g.stage(t).0, InRound(mint, round), found)
      && (found.TooMany? ==> r == TooManyMatches)
      && (found.Replaced? ==> SettlesTo(f, g, g.restore(found.text, g.stage(t).1), mint, round + 1, r)))
  }

  lemma UnsettledFinds(f: Finders, g: Staging, t: Text, mint: nat -> Text, found: Replacement)
    requires !IsSettled(f, g, t) && IsReplacement(f, g.stage(t).0, mint, found)
    ensures found != Nothing
  {
    hide NothingBeside, IsMerge;
  }

  /** The rounds lead to one result. */
  lemma {:induction false} SettlesToOne(f: Finders, g: Staging, t: Text, mint: (nat, nat) -> Text, round: nat, a: Settled, b: Settled)
    requires round <= SETTLE_ROUNDS && SettlesTo(f, g, t, mint, round, a) && SettlesTo(f, g, t, mint, round, b)
    ensures a == b
    decreases SETTLE_ROUNDS - round
  {
    hide IsReplacement, IsSettled, InRound;
    if round < SETTLE_ROUNDS && !IsSettled(f, g, t) {
      var staged, m := g.stage(t), InRound(mint, round);
      var x :|
        && IsReplacement(f, staged.0, m, x)
        && (x.TooMany? ==> a == TooManyMatches)
        && (x.Replaced? ==> SettlesTo(f, g, g.restore(x.text, staged.1), mint, round + 1, a));
      var y :|
        && IsReplacement(f, staged.0, m, y)
        && (y.TooMany? ==> b == TooManyMatches)
        && (y.Replaced? ==> SettlesTo(f, g, g.restore(y.text, staged.1), mint, round + 1, b));
      ReplacementIsUnique(f, staged.0, m, x, y);
      UnsettledFinds(f, g, t, m, x);
      if x.Replaced? { SettlesToOne(f, g, g.restore(x.text, staged.1), mint, round + 1, a, b); }
    }
  }

  /** Looks again until nothing is left: a successful result is a fixpoint, and a text that is one
      already is left as it is. */
  method SettleOrphanBlocks(f: Finders, g: Staging, text: Text, mint: (nat, nat) -> Text) returns (r: Settled)
    requires FindRegions(f)
    ensures SettlesTo(f, g, text, mint, 0, r)
    ensures r.Ok? ==> IsSettled(f, g, r.text)
    ensures IsSettled(f, g, text) ==> r == Ok(text)
  {
    hide NothingBeside, Contains, IsReplacement;
    var t := text;
    for i := 0 to SETTLE_ROUNDS
      invariant forall x :: SettlesTo(f, g, t, mint, i, x) ==> SettlesTo(f, g, text, mint, 0, x)
    {
      if !Contains(t, KEY_WORDS) { return Ok(t); }
      var staged := g.stage(t);
      var replaced := OrphanReplace(f, staged.0, InRound(mint, i));
      match replaced {
        case Nothing => return Ok(t);
        case TooMany =>
          assert SettlesTo(f, g, t, mint, i, TooManyMatches);
          return TooManyMatches;
        case Replaced(out) =>
          forall x | SettlesTo(f, g, g.restore(out, staged.1), mint, i + 1, x) ensures SettlesTo(f, g, t, mint, i, x) {
            assert IsReplacement(f, staged.0, InRound(mint, i), Replaced(out));
          }
          t := g.restore(out, staged.1);
      }
    }
    r := TooManyMatches;
  }

  /** Settling is idempotent. */
  method SettleTwice(f: Finders, g: Staging, text: Text, mint: (nat, nat) -> Text, again: (nat, nat) -> Text)
    returns (first: Settled, second: Settled)
    requires FindRegions(f)
    ensures first.Ok? ==> second == first
  {
    first := SettleOrphanBlocks(f, g, text, mint);
    second := first;
    if first.Ok? { second := SettleOrphanBlocks(f, g, first.text, again); }
  }
}
