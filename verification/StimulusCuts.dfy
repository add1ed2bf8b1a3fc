/** Cutting a scrubbed part: never inside a multibyte character or a redaction marker. */
module StimulusCuts {
  import opened Bytes

  /** Whether `c` continues a multibyte UTF-8 character: its two highest bits are one and zero. */
  predicate IsContinuation(c: char)
    ensures IsContinuation(c) <==> c as int / 0x40 == 2
  {
    0x80 <= c as int < 0xC0
  }

  predicate IsCharBoundary(t: Text, at: nat) {
    at == 0 || at == |t| || (at < |t| && !IsContinuation(t[at]))
  }

  predicate IsInside(spans: seq<Span>, at: nat) {
    exists s <- spans :: s.start < at < s.end
  }

  /** A place where `t` may be cut. */
  predicate IsCut(t: Text, spans: seq<Span>, at: nat) {
    at <= |t| && IsCharBoundary(t, at) && !IsInside(spans, at)
  }

  /** What redaction marker spans look like: in order, apart, and on character boundaries. */
  predicate SpansFit(t: Text, spans: seq<Span>) {
    && (forall s <- spans :: s.start < s.end <= |t| && IsCharBoundary(t, s.start) && IsCharBoundary(t, s.end))
    && forall i, j :: 0 <= i < j < |spans| ==> spans[i].end <= spans[j].start
  }

  /** The largest cut at most `limit`. */
  function HeadCut(t: Text, spans: seq<Span>, limit: nat): (cut: nat)
    ensures cut <= limit
    ensures IsCut(t, spans, cut)
    ensures forall at: nat :: cut < at <= limit ==> !IsCut(t, spans, at)
  {
    if IsCut(t, spans, limit) then limit
    else
      assert limit > 0;
      HeadCut(t, spans, limit - 1)
  }

  /** The smallest cut at least `from`. */
  function TailCut(t: Text, spans: seq<Span>, from: nat): (cut: nat)
    requires from <= |t| && SpansFit(t, spans)
    ensures from <= cut && IsCut(t, spans, cut)
    ensures forall at: nat :: from <= at < cut ==> !IsCut(t, spans, at)
    decreases |t| - from
  {
    if IsCut(t, spans, from) then from
    else
      assert IsCut(t, spans, |t|);
      TailCut(t, spans, from + 1)
  }

  // The ends of a span are cuts: no other span reaches over them.
  lemma SpanEndsAreCuts(t: Text, spans: seq<Span>, s: Span)
    requires SpansFit(t, spans) && s in spans
    ensures IsCut(t, spans, s.start) && IsCut(t, spans, s.end)
  {
    var i :| 0 <= i < |spans| && spans[i] == s;
    forall other | other in spans
      ensures !(other.start < s.start < other.end) && !(other.start < s.end < other.end)
    {
      var j :| 0 <= j < |spans| && spans[j] == other;
    }
  }

  lemma HeadCutIs(t: Text, spans: seq<Span>, limit: nat, cut: nat)
    requires cut <= limit && IsCut(t, spans, cut)
    requires forall at: nat :: cut < at <= limit ==> !IsCut(t, spans, at)
    ensures cut == HeadCut(t, spans, limit)
  {
  }

  lemma TailCutIs(t: Text, spans: seq<Span>, from: nat, cut: nat)
    requires from <= |t| && SpansFit(t, spans) && from <= cut && IsCut(t, spans, cut)
    requires forall at: nat :: from <= at < cut ==> !IsCut(t, spans, at)
    ensures cut == TailCut(t, spans, from)
  {
  }

  /** The first span that holds `at` inside, if any. */
  method FindInside(spans: seq<Span>, at: nat) returns (span: Option<Span>)
    ensures span.Some? ==> span.value in spans && span.value.start < at < span.value.end
    ensures span.None? ==> !IsInside(spans, at)
  {
    for index := 0 to |spans|
      invariant forall i :: 0 <= i < index ==> !(spans[i].start < at < spans[i].end)
    {
      if spans[index].start < at < spans[index].end {
        return Some(spans[index]);
      }
    }
    span := None;
  }

  method HeadEnd(t: Text, spans: seq<Span>, limit: nat) returns (cut: nat)
    requires SpansFit(t, spans)
    ensures cut == HeadCut(t, spans, if limit <= |t| then limit else |t|)
  {
    var end: nat := if limit <= |t| then limit else |t|;
    ghost var from: nat := end;
    while !IsCharBoundary(t, end)
      invariant end <= from
      invariant forall at: nat :: end < at <= from ==> !IsCut(t, spans, at)
      decreases end
    {
      end := end - 1;
    }
    var span := FindInside(spans, end);
    if span.Some? {
      SpanEndsAreCuts(t, spans, span.value);
      assert forall at: nat :: span.value.start < at <= end ==> IsInside(spans, at);
      cut := span.value.start;
    } else {
      cut := end;
    }
    HeadCutIs(t, spans, from, cut);
  }

  method TailStart(t: Text, spans: seq<Span>, from: nat) returns (cut: nat)
    requires SpansFit(t, spans)
    ensures cut == TailCut(t, spans, if from <= |t| then from else |t|)
  {
    var start: nat := if from <= |t| then from else |t|;
    ghost var first: nat := start;
    while !IsCharBoundary(t, start)
      invariant first <= start <= |t|
      invariant forall at: nat :: first <= at < start ==> !IsCut(t, spans, at)
      decreases |t| - start
    {
      start := start + 1;
    }
    var span := FindInside(spans, start);
    if span.Some? {
      SpanEndsAreCuts(t, spans, span.value);
      assert forall at: nat :: start <= at < span.value.end ==> IsInside(spans, at);
      cut := span.value.end;
    } else {
      cut := start;
    }
    TailCutIs(t, spans, first, cut);
  }

  /** What a part's content becomes once bounded. */
  datatype Content = Whole(text: Text) | Cut(head: Text, tail: Text, removed: nat) | WithheldContent

  function HeadBudget(allowance: nat, isTool: bool): nat {
    if isTool then allowance * 3 / 4 else allowance
  }

  /** `body` bounded to `allowance` bytes: a tool result keeps a head and a tail, anything else a head. */
  function Fitted(body: Text, spans: seq<Span>, allowance: nat, isTool: bool): Content
    requires SpansFit(body, spans)
  {
    if |body| <= allowance then Whole(body)
    else
      var head := HeadCut(body, spans, HeadBudget(allowance, isTool));
      var tailBudget := allowance - HeadBudget(allowance, isTool);
      var tail := if tailBudget == 0 then |body| else TailCut(body, spans, |body| - tailBudget);
      Cut(body[..head], body[tail..], tail - head)
  }

  method Fit(body: Text, spans: seq<Span>, allowance: nat, isTool: bool) returns (content: Content)
    requires SpansFit(body, spans)
    ensures content == Fitted(body, spans, allowance, isTool)
  {
    if |body| <= allowance {
      return Whole(body);
    }
    var headBudget := HeadBudget(allowance, isTool);
    var tailBudget := allowance - headBudget;
    var head := HeadEnd(body, spans, headBudget);
    var tail := |body|;
    if tailBudget != 0 {
      tail := TailStart(body, spans, |body| - tailBudget);
    }
    content := Cut(body[..head], body[tail..], tail - head);
  }

  /** `content` is `body`, or `body` with exactly `removed > 0` bytes taken out between two cuts: the head is the longest that
      fits its share (three quarters of a tool result, all of anything else), the tail the longest that fits the rest. */
  ghost predicate Bounds(content: Content, body: Text, spans: seq<Span>, allowance: nat, isTool: bool) {
    match content
    case Whole(text) => text == body && |body| <= allowance
    case Cut(head, tail, removed) =>
      && removed > 0 && |head| + removed + |tail| == |body|
      && head == body[..|head|] && tail == body[|head| + removed..]
      && |head| + |tail| <= allowance < |body|
      && (!isTool ==> tail == "")
      && var most := if isTool then allowance * 3 / 4 else allowance;
         && IsLastCut(body, spans, |head|, most)
         && IsFirstCut(body, spans, |head| + removed, |body| - (allowance - most))
    case WithheldContent => false
  }

  /** No place after `cut`, and up to `limit`, may be cut. */
  ghost predicate IsLastCut(t: Text, spans: seq<Span>, cut: nat, limit: int) {
    cut <= limit && IsCut(t, spans, cut) && forall at: nat :: cut < at <= limit ==> !IsCut(t, spans, at)
  }

  /** No place before `cut`, from `from` on, may be cut. */
  ghost predicate IsFirstCut(t: Text, spans: seq<Span>, cut: nat, from: int) {
    from <= cut && IsCut(t, spans, cut) && forall at: nat :: from <= at < cut ==> !IsCut(t, spans, at)
  }

  /** A cut keeps within its allowance, and its count is exactly the bytes removed. */
  lemma FittedBounds(body: Text, spans: seq<Span>, allowance: nat, isTool: bool)
    requires SpansFit(body, spans)
    ensures Bounds(Fitted(body, spans, allowance, isTool), body, spans, allowance, isTool)
  {
    if |body| > allowance {
      var tailBudget := allowance - HeadBudget(allowance, isTool);
      assert IsCut(body, spans, |body|);
    }
  }
}
