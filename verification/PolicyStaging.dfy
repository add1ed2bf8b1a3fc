/** Policy rules beside redaction markers: each marker is set aside as one placeholder character. */
module PolicyStaging {
  import opened Bytes
  import opened MarkedText

  const MAX_MATCHES: nat := 256

  // --- Replacing ranges ---

  /** Ranges in ascending order, none overlapping another. */
  ghost predicate Apart(ranges: seq<Span>, n: nat) {
    && (forall i :: 0 <= i < |ranges| ==> ranges[i].start <= ranges[i].end <= n)
    && (forall i, j :: 0 <= i < j < |ranges| ==> ranges[i].end <= ranges[j].start)
  }

  lemma GapsAreRanges(ranges: seq<Span>, n: nat, k: nat)
    requires Apart(ranges, n) && k <= |ranges|
    ensures GapStart(ranges, k) <= GapEnd(ranges, k, n) <= n
  {
  }

  /** The part of `s` through range `k`, each range replaced by its filling. */
  function Upto<T>(s: seq<T>, ranges: seq<Span>, fill: seq<T>, k: nat): seq<T>
    requires Apart(ranges, |s|) && |fill| == |ranges| && k <= |ranges|
  {
    if k == 0 then []
    else Upto(s, ranges, fill, k - 1) + s[GapStart(ranges, k - 1)..ranges[k - 1].start] + [fill[k - 1]]
  }

  function Replaced<T>(s: seq<T>, ranges: seq<Span>, fill: seq<T>): seq<T>
    requires Apart(ranges, |s|) && |fill| == |ranges|
  {
    Upto(s, ranges, fill, |ranges|) + s[GapStart(ranges, |ranges|)..]
  }

  /** `w` stands in the original between ranges `k - 1` and `k`, from `j` on. */
  ghost predicate InGap(us: seq<Unit>, ranges: seq<Span>, w: Text, k: nat, j: nat)
    requires Apart(ranges, |us|) && k <= |ranges|
  {
    GapStart(ranges, k) <= j && j + |w| <= GapEnd(ranges, k, |us|) && MarkedText.OccursAt(us, w, j)
  }

  lemma CharsOnly(us: seq<Unit>, w: Text, i: nat)
    ensures MarkedText.OccursAt(us, w, i) <==>
      i + |w| <= |us| && forall k: nat :: i <= k < i + |w| ==> us[k] == Char(w[k - i])
  {
    if MarkedText.OccursAt(us, w, i) {
      forall k: nat | i <= k < i + |w| ensures us[k] == Char(w[k - i]) {
        assert us[i..i + |w|][k - i] == Chars(w)[k - i];
      }
    }
    if i + |w| <= |us| && forall k: nat :: i <= k < i + |w| ==> us[k] == Char(w[k - i]) {
      assert us[i..i + |w|] == Chars(w);
    }
  }

  /** A run of characters in `a + g`, where `a` is empty or ends in a mark, is in one of the two. */
  lemma RunInPart(a: seq<Unit>, g: seq<Unit>, w: Text, i: nat)
    requires w != [] && (a == [] || a[|a| - 1].Mark?) && MarkedText.OccursAt(a + g, w, i)
    ensures i + |w| <= |a| ==> MarkedText.OccursAt(a, w, i)
    ensures i + |w| > |a| ==> i >= |a| && MarkedText.OccursAt(g, w, i - |a|)
  {
    hide MarkedText.OccursAt;
    CharsOnly(a + g, w, i);
    CharsOnly(a, w, i);
    if a != [] { assert (a + g)[|a| - 1] == a[|a| - 1]; }
    assert forall k :: 0 <= k < |a| ==> (a + g)[k] == a[k];
    assert forall k :: 0 <= k < |g| ==> (a + g)[|a| + k] == g[k];
    if i >= |a| {
      CharsOnly(g, w, i - |a|);
      forall k: nat | i - |a| <= k < i - |a| + |w| ensures g[k] == Char(w[k - (i - |a|)]) {
        assert (a + g)[|a| + k] == Char(w[|a| + k - i]);
      }
    }
  }

  lemma RunInSlice(us: seq<Unit>, lo: nat, hi: nat, w: Text, i: nat)
    requires lo <= hi <= |us| && MarkedText.OccursAt(us[lo..hi], w, i)
    ensures lo + i + |w| <= hi && MarkedText.OccursAt(us, w, lo + i)
  {
    SliceOfSlice(us, lo, hi, i, i + |w|);
  }

  lemma RunBeforeMark(s: seq<Unit>, m: Unit, w: Text, i: nat)
    requires w != [] && m.Mark? && MarkedText.OccursAt(s + [m], w, i)
    ensures i + |w| <= |s| && MarkedText.OccursAt(s, w, i)
  {
    hide MarkedText.OccursAt;
    CharsOnly(s + [m], w, i);
    CharsOnly(s, w, i);
    assert (s + [m])[|s|] == m && forall k :: 0 <= k < |s| ==> (s + [m])[k] == s[k];
  }

  lemma {:induction false} RunInUpto(us: seq<Unit>, ranges: seq<Span>, fill: seq<Unit>, k: nat, w: Text, i: nat)
    returns (g: nat, j: nat)
    requires Apart(ranges, |us|) && |fill| == |ranges| && k <= |ranges| && w != []
    requires forall f :: f in fill ==> f.Mark?
    requires MarkedText.OccursAt(Upto(us, ranges, fill, k), w, i)
    ensures g < k && InGap(us, ranges, w, g, j)
    decreases k
  {
    hide MarkedText.OccursAt, Chars;
    g, j := 0, 0;
    if k == 0 {
      RunNotInNothing(w, i);
    } else {
      var a, lo, hi := Upto(us, ranges, fill, k - 1), GapStart(ranges, k - 1), ranges[k - 1].start;
      RunBeforeMark(a + us[lo..hi], fill[k - 1], w, i);
      EndsInMark(us, ranges, fill, k - 1);
      RunInPart(a, us[lo..hi], w, i);
      if i + |w| <= |a| {
        g, j := RunInUpto(us, ranges, fill, k - 1, w, i);
      } else {
        RunInSlice(us, lo, hi, w, i - |a|);
        g, j := k - 1, lo + (i - |a|);
      }
    }
  }

  lemma RunNotInNothing(w: Text, i: nat)
    requires w != []
    ensures !MarkedText.OccursAt([], w, i)
  {
  }

  lemma EndsInMark(us: seq<Unit>, ranges: seq<Span>, fill: seq<Unit>, k: nat)
    requires Apart(ranges, |us|) && |fill| == |ranges| && k <= |ranges| && forall f :: f in fill ==> f.Mark?
    ensures var a := Upto(us, ranges, fill, k); a == [] || a[|a| - 1].Mark?
  {
  }

  /** Text between markers after a replacement was text between the replaced ranges before it. */
  lemma RunInReplaced(us: seq<Unit>, ranges: seq<Span>, fill: seq<Unit>, w: Text, i: nat) returns (g: nat, j: nat)
    requires Apart(ranges, |us|) && |fill| == |ranges| && w != [] && forall f :: f in fill ==> f.Mark?
    requires MarkedText.OccursAt(Replaced(us, ranges, fill), w, i)
    ensures g <= |ranges| && InGap(us, ranges, w, g, j)
  {
    hide MarkedText.OccursAt, Chars;
    var n := |ranges|;
    var a, lo := Upto(us, ranges, fill, n), GapStart(ranges, n);
    GapsAreRanges(ranges, |us|, n);
    EndsInMark(us, ranges, fill, n);
    assert us[lo..] == us[lo..|us|];
    RunInPart(a, us[lo..|us|], w, i);
    if i + |w| <= |a| {
      g, j := RunInUpto(us, ranges, fill, n, w, i);
    } else {
      RunInSlice(us, lo, |us|, w, i - |a|);
      g, j := n, lo + (i - |a|);
    }
  }

  /** A replacement brings no text between markers that was not there before. */
  lemma ReplacedOccursBefore(us: seq<Unit>, ranges: seq<Span>, fill: seq<Unit>, w: Text)
    requires Apart(ranges, |us|) && |fill| == |ranges| && w != [] && forall f :: f in fill ==> f.Mark?
    ensures MarkedText.Occurs(Replaced(us, ranges, fill), w) ==> MarkedText.Occurs(us, w)
  {
    hide Replaced, MarkedText.OccursAt;
    if MarkedText.Occurs(Replaced(us, ranges, fill), w) {
      var i: nat :| MarkedText.OccursAt(Replaced(us, ranges, fill), w, i);
      var g, j := RunInReplaced(us, ranges, fill, w, i);
    }
  }

  lemma {:induction false} MarksOfUpto(us: seq<Unit>, ranges: seq<Span>, fill: seq<Unit>, k: nat, u: Unit)
    requires Apart(ranges, |us|) && |fill| == |ranges| && k <= |ranges| && u in Upto(us, ranges, fill, k)
    ensures u in us || u in fill
  {
    if k > 0 && u !in us[GapStart(ranges, k - 1)..ranges[k - 1].start] && u != fill[k - 1] {
      MarksOfUpto(us, ranges, fill, k - 1, u);
    }
  }

  /** Replacing ranges by markers keeps units clean. */
  lemma ReplacedIsClean(isMarker: MarkerTest, us: seq<Unit>, ranges: seq<Span>, fill: seq<Unit>)
    requires MarkersAreBracketed(isMarker) && Clean(isMarker, us) && Apart(ranges, |us|) && |fill| == |ranges|
    requires forall f :: f in fill ==> f.Mark? && isMarker(f.marker)
    ensures Clean(isMarker, Replaced(us, ranges, fill))
  {
    var out := Replaced(us, ranges, fill);
    forall i | 0 <= i < |out| && out[i].Mark? ensures isMarker(out[i].marker) {
      if out[i] in Upto(us, ranges, fill, |ranges|) { MarksOfUpto(us, ranges, fill, |ranges|, out[i]); }
    }
    forall m: Text | isMarker(m) ensures !MarkedText.Occurs(out, m) {
      ReplacedOccursBefore(us, ranges, fill, m);
    }
  }

  // --- Placeholders ---

  function Count(t: Text, p: char): nat {
    if t == [] then 0 else Count(t[..|t| - 1], p) + if t[|t| - 1] == p then 1 else 0
  }

  lemma {:induction false} CountOfConcat(a: Text, b: Text, p: char)
    ensures Count(a + b, p) == Count(a, p) + Count(b, p)
  {
    if b == [] {
      assert a + b == a;
    } else {
      var t := a + b;
      assert t[..|t| - 1] == a + b[..|b| - 1];
      CountOfConcat(a, b[..|b| - 1], p);
    }
  }

  /** The characters and markers of a staged text: each placeholder stands for the next marker. */
  function UnitsOf(t: Text, markers: seq<Text>, p: char): (us: seq<Unit>)
    requires Count(t, p) == |markers|
    ensures |us| == |t|
  {
    if t == [] then []
    else if t[|t| - 1] == p then
      UnitsOf(t[..|t| - 1], markers[..|markers| - 1], p) + [Mark(markers[|markers| - 1])]
    else UnitsOf(t[..|t| - 1], markers, p) + [Char(t[|t| - 1])]
  }

  lemma {:induction false} UnitsOfConcat(a: Text, x: seq<Text>, b: Text, y: seq<Text>, p: char)
    requires Count(a, p) == |x| && Count(b, p) == |y|
    ensures Count(a + b, p) == |x + y| && UnitsOf(a + b, x + y, p) == UnitsOf(a, x, p) + UnitsOf(b, y, p)
    decreases |b|
  {
    hide UnitsOf, Count;
    CountOfConcat(a, b, p);
    if b == [] {
      assert a + b == a;
      CountNothing(p);
      assert x + y == x;
      NothingStaged(p);
    } else {
      var init, c := b[..|b| - 1], b[|b| - 1];
      assert b == init + [c] && a + b == (a + init) + [c];
      LastUnit(init, c, y, p);
      var z := if c == p then y[..|y| - 1] else y;
      UnitsOfConcat(a, x, init, z, p);
      LastUnit(a + init, c, x + y, p);
      assert c == p ==> (x + y)[..|x + y| - 1] == x + z;
    }
  }

  lemma CountNothing(p: char)
    ensures Count([], p) == 0
  {
  }

  /** The last character of a staged text is itself, or stands for the last marker. */
  lemma LastUnit(t: Text, c: char, markers: seq<Text>, p: char)
    requires Count(t + [c], p) == |markers|
    ensures c == p ==> |markers| > 0 && Count(t, p) == |markers| - 1
    ensures c != p ==> Count(t, p) == |markers|
    ensures UnitsOf(t + [c], markers, p) ==
      if c == p then UnitsOf(t, markers[..|markers| - 1], p) + [Mark(markers[|markers| - 1])]
      else UnitsOf(t, markers, p) + [Char(c)]
  {
    assert (t + [c])[..|t + [c]| - 1] == t;
  }

  lemma {:induction false} UnitsOfChars(t: Text, p: char)
    requires p !in t
    ensures Count(t, p) == 0 && UnitsOf(t, [], p) == Chars(t)
  {
    if t != [] { UnitsOfChars(t[..|t| - 1], p); }
  }

  lemma {:induction false} UnitAt(t: Text, markers: seq<Text>, p: char, i: nat)
    requires Count(t, p) == |markers| && i < |t|
    ensures UnitsOf(t, markers, p)[i].Mark? <==> t[i] == p
    ensures t[i] != p ==> UnitsOf(t, markers, p)[i] == Char(t[i])
    decreases |t|
  {
    if i < |t| - 1 { UnitAt(t[..|t| - 1], if t[|t| - 1] == p then markers[..|markers| - 1] else markers, p, i); }
  }

  /** A word without the placeholder stands in the staged text where it stands between markers. */
  lemma WordInStaged(t: Text, markers: seq<Text>, p: char, w: Text, i: nat)
    requires Count(t, p) == |markers| && p !in w
    ensures MarkedText.OccursAt(UnitsOf(t, markers, p), w, i) <==> Bytes.OccursAt(t, w, i)
  {
    hide UnitsOf, Count;
    var us := UnitsOf(t, markers, p);
    if i + |w| <= |t| {
      forall k | 0 <= k < |w| ensures us[i..i + |w|][k] == Chars(w)[k] <==> t[i..i + |w|][k] == w[k] {
        UnitAt(t, markers, p, i + k);
        assert w[k] != p;
      }
      if us[i..i + |w|] == Chars(w) { assert t[i..i + |w|] == w; }
      if t[i..i + |w|] == w { assert us[i..i + |w|] == Chars(w); }
    }
  }

  lemma CountTo(t: Text, p: char, lo: nat, hi: nat)
    requires lo <= hi <= |t|
    ensures Count(t[..lo], p) + Count(t[lo..hi], p) == Count(t[..hi], p) <= Count(t, p)
  {
    assert t[..hi] == t[..lo] + t[lo..hi] && t == t[..hi] + t[hi..];
    CountOfConcat(t[..lo], t[lo..hi], p);
    CountOfConcat(t[..hi], t[hi..], p);
  }

  /** A slice of a staged text with its own markers. */
  lemma UnitsOfSlice(t: Text, markers: seq<Text>, p: char, lo: nat, hi: nat)
    requires Count(t, p) == |markers| && lo <= hi <= |t|
    ensures var a, b := Count(t[..lo], p), Count(t[..hi], p);
      a <= b <= |markers| && Count(t[lo..hi], p) == b - a
      && UnitsOf(t[lo..hi], markers[a..b], p) == UnitsOf(t, markers, p)[lo..hi]
  {
    hide UnitsOf, Count;
    CountTo(t, p, lo, hi);
    CountTo(t, p, hi, |t|);
    var a, b := Count(t[..lo], p), Count(t[..hi], p);
    assert t[..|t|] == t;
    UnitsOfConcat(t[..lo], markers[..a], t[lo..hi], markers[a..b], p);
    UnitsOfConcat(t[..hi], markers[..b], t[hi..], markers[b..], p);
    assert t[..lo] + t[lo..hi] == t[..hi] && markers[..a] + markers[a..b] == markers[..b];
    assert t[..hi] + t[hi..] == t && markers[..b] + markers[b..] == markers;
  }

  // --- The staged text ---

  /** What the marker pattern finds in `t` from `at` on. */
  function Spans(isMarker: MarkerTest, t: Text, at: nat): seq<Span>
    requires at <= |t|
    decreases |t| - at
  {
    if at == |t| then []
    else
      var n := MarkerLength(isMarker, t[at..]);
      if n > 0 then [Span(at, at + n)] + Spans(isMarker, t, at + n) else Spans(isMarker, t, at + 1)
  }

  /** Up to the first marker found there are only characters. */
  lemma {:induction false} ParseToSpan(isMarker: MarkerTest, t: Text, at: nat)
    requires at <= |t|
    ensures var spans := Spans(isMarker, t, at);
      && (spans == [] ==> Parse(isMarker, t[at..]) == Chars(t[at..]))
      && (spans != [] ==>
            var s := spans[0];
            && at <= s.start < s.end <= |t| && spans[1..] == Spans(isMarker, t, s.end)
            && Parse(isMarker, t[at..]) == Chars(t[at..s.start]) + [Mark(t[s.start..s.end])] + Parse(isMarker, t[s.end..]))
    decreases |t| - at
  {
    hide MarkerLength, Parse, Chars, Spans;
    SpansStep(isMarker, t, at);
    if at < |t| {
      var n := MarkerLength(isMarker, t[at..]);
      ParseStep(isMarker, t, at);
      if n > 0 {
        NoCharsBetween(t, at, at + n);
      } else {
        ParseToSpan(isMarker, t, at + 1);
        var spans := Spans(isMarker, t, at + 1);
        if spans == [] {
          OneMoreChar(t, at, |t|);
        } else {
          var s := spans[0];
          OneMoreChar(t, at, s.start);
          FrontMoves(Char(t[at]), Chars(t[at + 1..s.start]), Mark(t[s.start..s.end]), Parse(isMarker, t[s.end..]));
        }
      }
    } else {
      ParseNothing(isMarker, t[at..]);
    }
  }

  lemma SpansStep(isMarker: MarkerTest, t: Text, at: nat)
    requires at <= |t|
    ensures at == |t| ==> Spans(isMarker, t, at) == []
    ensures at < |t| && MarkerLength(isMarker, t[at..]) == 0 ==> Spans(isMarker, t, at) == Spans(isMarker, t, at + 1)
    ensures at < |t| && MarkerLength(isMarker, t[at..]) > 0 ==>
      var n := MarkerLength(isMarker, t[at..]);
      && Spans(isMarker, t, at) != [] && Spans(isMarker, t, at)[0] == Span(at, at + n)
      && Spans(isMarker, t, at)[1..] == Spans(isMarker, t, at + n)
  {
    hide MarkerLength;
  }

  lemma ParseNothing(isMarker: MarkerTest, t: Text)
    requires t == []
    ensures Parse(isMarker, t) == Chars(t)
  {
  }

  lemma ParseStep(isMarker: MarkerTest, t: Text, at: nat)
    requires at < |t|
    ensures var n := MarkerLength(isMarker, t[at..]);
      && (n > 0 ==> Parse(isMarker, t[at..]) == [Mark(t[at..at + n])] + Parse(isMarker, t[at + n..]))
      && (n == 0 ==> Parse(isMarker, t[at..]) == [Char(t[at])] + Parse(isMarker, t[at + 1..]))
  {
    hide MarkerLength;
    var rest := t[at..];
    var n := MarkerLength(isMarker, rest);
    assert rest[..n] == t[at..at + n] && rest[n..] == t[at + n..] && rest[1..] == t[at + 1..];
  }

  lemma NoCharsBetween(t: Text, at: nat, end: nat)
    requires at <= end <= |t|
    ensures Chars(t[at..at]) + [Mark(t[at..end])] == [Mark(t[at..end])]
  {
    assert t[at..at] == [];
  }

  lemma OneMoreChar(t: Text, at: nat, end: nat)
    requires at < end <= |t|
    ensures [Char(t[at])] + Chars(t[at + 1..end]) == Chars(t[at..end])
    ensures end == |t| ==> t[at..end] == t[at..] && t[at + 1..end] == t[at + 1..]
  {
    var a, b := [Char(t[at])] + Chars(t[at + 1..end]), Chars(t[at..end]);
    assert |a| == |b| && forall i :: 0 <= i < |a| ==> a[i] == b[i];
  }

  lemma FrontMoves(a: Unit, b: seq<Unit>, c: Unit, d: seq<Unit>)
    ensures [a] + (b + [c] + d) == [a] + b + [c] + d
  {
  }

  predicate Taken(texts: seq<Text>, c: char) {
    exists t :: t in texts && c in t
  }

  /** The first private-use character in none of the texts. */
  method FreePlaceholder(texts: seq<Text>) returns (p: Option<char>)
    ensures p.Some? ==> IsPlaceholder(p.value) && !Taken(texts, p.value)
    ensures p.Some? ==> forall c: char :: PLACEHOLDER_FIRST <= c as int < p.value as int ==> Taken(texts, c)
    ensures p.None? ==> forall c: char :: IsPlaceholder(c) ==> Taken(texts, c)
  {
    var i := PLACEHOLDER_FIRST;
    while i <= PLACEHOLDER_LAST
      invariant PLACEHOLDER_FIRST <= i <= PLACEHOLDER_LAST + 1
      invariant forall c: char :: PLACEHOLDER_FIRST <= c as int < i ==> Taken(texts, c)
    {
      var c := i as char;
      if !Taken(texts, c) { return Some(c); }
      i := i + 1;
    }
    p := None;
  }

  class Staged {
    var text: Text
    var markers: seq<Text>
    const placeholder: char

    /** As many placeholders as markers. */
    ghost predicate Valid()
      reads this
    {
      Count(text, placeholder) == |markers|
    }

    ghost function Units(): seq<Unit>
      requires Valid()
      reads this
    {
      UnitsOf(text, markers, placeholder)
    }

    /** Sets the markers aside: the staged text holds exactly what the pattern finds. */
    constructor (isMarker: MarkerTest, scrubbed: Text, p: char)
      requires p !in scrubbed
      ensures Valid() && placeholder == p && Units() == Parse(isMarker, scrubbed)
    {
      hide Parse, Spans, UnitsOf, Count, Chars;
      placeholder := p;
      var t: Text, ms: seq<Text>, at: nat := [], [], 0;
      var spans := Spans(isMarker, scrubbed, 0);
      NothingStaged(p);
      assert scrubbed[0..] == scrubbed;
      assert [] + Parse(isMarker, scrubbed) == Parse(isMarker, scrubbed);
      ParseToSpan(isMarker, scrubbed, 0);
      for i := 0 to |spans|
        invariant at <= |scrubbed| && spans[i..] == Spans(isMarker, scrubbed, at)
        invariant Count(t, p) == |ms| && UnitsOf(t, ms, p) + Parse(isMarker, scrubbed[at..]) == Parse(isMarker, scrubbed)
      {
        var s := spans[i];
        ParseToSpan(isMarker, scrubbed, at);
        assert spans[i..][0] == s && spans[i..][1..] == spans[i + 1..];
        StageOne(t, ms, scrubbed[at..s.start], scrubbed[s.start..s.end], p);
        Regroup(UnitsOf(t, ms, p), Chars(scrubbed[at..s.start]), Mark(scrubbed[s.start..s.end]), Parse(isMarker, scrubbed[s.end..]));
        t := t + scrubbed[at..s.start] + [p];
        ms := ms + [scrubbed[s.start..s.end]];
        at := s.end;
      }
      ParseToSpan(isMarker, scrubbed, at);
      UnitsOfChars(scrubbed[at..], p);
      UnitsOfConcat(t, ms, scrubbed[at..], [], p);
      assert ms + [] == ms;
      text := t + scrubbed[at..];
      markers := ms;
    }

    /** How many markers stand in `segment`, and those of them that are kept. */
    method Carry(segment: Text, all: seq<Text>, next: nat, keep: bool) returns (kept: seq<Text>, after: nat)
      requires next + Count(segment, placeholder) <= |all|
      ensures after == next + Count(segment, placeholder) && kept == if keep then all[next..after] else []
    {
      kept, after := [], next;
      for i := 0 to |segment|
        invariant after == next + Count(segment[..i], placeholder) <= |all|
        invariant kept == if keep then all[next..after] else []
        invariant Count(segment[..i], placeholder) <= Count(segment, placeholder)
      {
        assert segment[..i + 1][..i] == segment[..i];
        CountTo(segment, placeholder, i + 1, |segment|);
        assert segment[..|segment|] == segment;
        if segment[i] == placeholder {
          if keep { kept := kept + [all[after]]; }
          after := after + 1;
        }
      }
      assert segment[..|segment|] == segment;
    }

    /** Replaces ranges by new markers. The markers inside a range go with it; all others stay, in
        order, and so does every character outside. */
    method Replace(ranges: seq<Span>, minted: seq<Text>)
      requires Valid() && Apart(ranges, |text|) && |minted| == |ranges|
      modifies this
      ensures Valid() && Units() == Replaced(old(Units()), ranges, Marks(minted))
    {
      hide UnitsOf, Count, Marks, Upto;
      ghost var us, fill := Units(), Marks(minted);
      if ranges == [] {
        UptoNothing(us, ranges, fill);
        return;
      }
      var p, all := placeholder, markers;
      var t: Text, ms: seq<Text>, at: nat, next: nat := [], [], 0, 0;
      NothingStaged(p);
      NothingBefore(text, p);
      UptoNothing(us, ranges, fill);
      for k := 0 to |ranges|
        invariant unchanged(this)
        invariant at == GapStart(ranges, k) && next == Count(text[..at], p)
        invariant Count(t, p) == |ms| && UnitsOf(t, ms, p) == Upto(us, ranges, fill, k)
      {
        GapsAreRanges(ranges, |text|, k);
        var range := ranges[k];
        var part := text[at..range.start];
        UnitsOfSlice(text, all, p, at, range.start);
        UnitsOfSlice(text, all, p, range.start, range.end);
        var kept, passed := Carry(part, all, next, true);
        var dropped, after := Carry(text[range.start..range.end], all, passed, false);
        UptoOne(us, ranges, minted, k);
        StageOne2(t, ms, part, kept, minted[k], p);
        t := t + part + [p];
        ms := ms + kept + [minted[k]];
        at, next := range.end, after;
      }
      GapsAreRanges(ranges, |text|, |ranges|);
      UnitsOfSlice(text, all, p, at, |text|);
      assert text[at..|text|] == text[at..] && text[..|text|] == text;
      var kept, passed := Carry(text[at..], all, next, true);
      UnitsOfConcat(t, ms, text[at..], kept, p);
      assert us[at..|us|] == us[at..];
      text := t + text[at..];
      markers := ms + kept;
    }

    /** The text with every marker back in place of its placeholder. */
    method Finish() returns (r: Option<Text>)
      requires Valid()
      ensures r == Some(Print(Units()))
    {
      hide UnitsOf, Count, Print;
      var out: Text, next: nat := [], 0;
      NothingBefore(text, placeholder);
      PrintNothing();
      for i := 0 to |text|
        invariant next == Count(text[..i], placeholder) <= |markers| && out == Print(Units()[..i])
      {
        UnitsOfSlice(text, markers, placeholder, i, i + 1);
        assert text[i..i + 1] == [text[i]];
        OneUnit(text[i], markers[next..Count(text[..i + 1], placeholder)], placeholder);
        assert Units()[..i + 1] == Units()[..i] + Units()[i..i + 1];
        PrintOfConcat(Units()[..i], Units()[i..i + 1]);
        if text[i] == placeholder {
          if next >= |markers| { return None; }
          out := out + markers[next];
          next := next + 1;
        } else {
          out := out + [text[i]];
        }
      }
      assert text[..|text|] == text && Units()[..|text|] == Units();
      r := Some(out);
    }
  }

  function Marks(ms: seq<Text>): (us: seq<Unit>)
    ensures |us| == |ms| && forall i :: 0 <= i < |ms| ==> us[i] == Mark(ms[i])
  {
    if ms == [] then [] else Marks(ms[..|ms| - 1]) + [Mark(ms[|ms| - 1])]
  }

  lemma NothingStaged(p: char)
    ensures Count([], p) == 0 && UnitsOf([], [], p) == []
  {
  }

  lemma NothingBefore(t: Text, p: char)
    ensures Count(t[..0], p) == 0
  {
  }

  lemma UptoNothing(us: seq<Unit>, ranges: seq<Span>, fill: seq<Unit>)
    requires Apart(ranges, |us|) && |fill| == |ranges|
    ensures Upto(us, ranges, fill, 0) == []
    ensures ranges == [] ==> Replaced(us, ranges, fill) == us
  {
  }

  lemma UptoOne(us: seq<Unit>, ranges: seq<Span>, minted: seq<Text>, k: nat)
    requires Apart(ranges, |us|) && |minted| == |ranges| && k < |ranges|
    ensures Upto(us, ranges, Marks(minted), k + 1) ==
      Upto(us, ranges, Marks(minted), k) + us[GapStart(ranges, k)..ranges[k].start] + [Mark(minted[k])]
  {
  }

  lemma OneMark(m: Text, p: char)
    ensures Count([p], p) == 1 && UnitsOf([p], [m], p) == [Mark(m)]
  {
    assert [p][..0] == [];
  }

  lemma StageOne2(t: Text, ms: seq<Text>, part: Text, kept: seq<Text>, m: Text, p: char)
    requires Count(t, p) == |ms| && Count(part, p) == |kept|
    ensures Count(t + part + [p], p) == |ms + kept + [m]|
    ensures UnitsOf(t + part + [p], ms + kept + [m], p) == UnitsOf(t, ms, p) + UnitsOf(part, kept, p) + [Mark(m)]
  {
    hide UnitsOf, Count;
    UnitsOfConcat(t, ms, part, kept, p);
    OneMark(m, p);
    UnitsOfConcat(t + part, ms + kept, [p], [m], p);
  }

  lemma StageOne(t: Text, ms: seq<Text>, gap: Text, m: Text, p: char)
    requires Count(t, p) == |ms| && p !in gap
    ensures Count(t + gap + [p], p) == |ms + [m]|
    ensures UnitsOf(t + gap + [p], ms + [m], p) == UnitsOf(t, ms, p) + Chars(gap) + [Mark(m)]
  {
    hide UnitsOf, Count;
    UnitsOfChars(gap, p);
    StageOne2(t, ms, gap, [], m, p);
    assert ms + [] == ms;
  }

  lemma Regroup(a: seq<Unit>, b: seq<Unit>, c: Unit, d: seq<Unit>)
    ensures a + b + [c] + d == a + (b + [c] + d)
  {
  }

  lemma OneUnit(c: char, ms: seq<Text>, p: char)
    requires Count([c], p) == |ms|
    ensures c == p ==> |ms| == 1 && Print(UnitsOf([c], ms, p)) == ms[0]
    ensures c != p ==> |ms| == 0 && Print(UnitsOf([c], ms, p)) == [c]
  {
    assert [c][..0] == [];
    var u := if c == p then Mark(ms[0]) else Char(c);
    assert UnitsOf([c], ms, p) == [u];
    PrintFirst(u, []);
    PrintNothing();
    assert [u] + [] == [u];
  }

  lemma {:induction false} PrintOfConcat(a: seq<Unit>, b: seq<Unit>)
    ensures Print(a + b) == Print(a) + Print(b)
  {
    hide Print;
    if a == [] {
      assert a + b == b;
      PrintNothing();
    } else {
      PrintOfConcat(a[1..], b);
      PrintFirst(a[0], a[1..]);
      PrintFirst(a[0], a[1..] + b);
      assert [a[0]] + a[1..] == a && [a[0]] + (a[1..] + b) == a + b;
    }
  }
}
