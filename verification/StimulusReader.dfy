/** The reference reader: it recognises exactly the stimuli of `StimulusGrammar`. */
module StimulusReader {
  import opened Bytes
  import opened StimulusFormat
  import opened StimulusGrammar

  datatype Reading = ReadsAs(verified: Verified) | Undivided | Legacy

  // ---- scanning for markers ----

  /** A marker of the boundary that follows a separator starts at `p`. */
  predicate IsCandidateMarker(text: Text, token: Text, p: nat) {
    p >= 2 && OccursAt(text, SEPARATOR, p - 2) && MarkerAt(text, p).Some? && MarkerAt(text, p).value.token == token
  }

  predicate MarkersAscend(markers: seq<Marker>) {
    forall i, j :: 0 <= i < j < |markers| ==> markers[i].end + 2 <= markers[j].start
  }

  /** `p` was taken as a marker, or its separator overlaps the marker before it. */
  ghost predicate Accounted(markers: seq<Marker>, p: nat) {
    exists i :: 0 <= i < |markers| && (markers[i].start == p || markers[i].start < p < markers[i].end + 2)
  }

  /** `markers` are what the scan of the first `upto` bytes of `text` takes, `first` being at offset 0. */
  ghost predicate IsScan(text: Text, first: Marker, markers: seq<Marker>, upto: nat) {
    && |markers| > 0 && markers[0] == first
    && MarkersAscend(markers)
    && (forall i :: 0 <= i < |markers| ==> IsPrinted(text, markers[i]) && markers[i].token == first.token)
    && (forall i :: 1 <= i < |markers| ==> IsCandidateMarker(text, first.token, markers[i].start))
    && (forall p: nat :: p < upto && IsCandidateMarker(text, first.token, p) ==> Accounted(markers, p))
  }

  /** Whether the scan takes a marker at `at`, after one that ends at `lastEnd`. */
  predicate Takes(text: Text, token: Text, lastEnd: nat, at: nat)
    requires at < |text|
  {
    && text[at] == '[' && at >= 2 && text[at - 2..at] == SEPARATOR && lastEnd <= at - 2
    && MarkerAt(text, at).Some? && MarkerAt(text, at).value.token == token
  }

  lemma TakesCandidates(text: Text, token: Text, lastEnd: nat, at: nat)
    requires at < |text|
    ensures Takes(text, token, lastEnd, at) <==> IsCandidateMarker(text, token, at) && lastEnd + 2 <= at
    ensures MarkerAt(text, at).Some? ==> IsPrinted(text, MarkerAt(text, at).value) && MarkerAt(text, at).value.start == at
  {
    if MarkerAt(text, at).Some? {
      var m := MarkerAt(text, at).value;
      MarkerExact(text, m);
      MarkerBytes(text, m);
    }
  }

  method CollectMarkers(text: Text, first: Marker) returns (markers: seq<Marker>)
    requires MarkerAt(text, 0) == Some(first)
    ensures IsScan(text, first, markers, |text|)
  {
    hide MarkerAt, IsPrinted, Takes, IsCandidateMarker;
    FirstScan(text, first);
    markers := [first];
    for at := 0 to |text|
      invariant IsScan(text, first, markers, at)
      invariant markers[|markers| - 1].start < at || (at == 0 && markers[|markers| - 1].start == 0)
    {
      if Takes(text, first.token, markers[|markers| - 1].end, at) {
        ScanTakes(text, first, markers, at);
        markers := markers + [MarkerAt(text, at).value];
      } else {
        ScanSkips(text, first, markers, at);
      }
    }
  }

  lemma FirstScan(text: Text, first: Marker)
    requires MarkerAt(text, 0) == Some(first)
    ensures IsScan(text, first, [first], 0) && first.start == 0
  {
    MarkerExact(text, first);
  }

  // One more marker, right of all those taken.
  lemma ScanTakes(text: Text, first: Marker, markers: seq<Marker>, at: nat)
    requires IsScan(text, first, markers, at) && at < |text|
    requires Takes(text, first.token, markers[|markers| - 1].end, at)
    ensures MarkerAt(text, at).Some? && MarkerAt(text, at).value.start == at
    ensures IsScan(text, first, markers + [MarkerAt(text, at).value], at + 1)
  {
    hide MarkerAt, IsPrinted, Takes, MarkersAscend;
    TakesCandidates(text, first.token, markers[|markers| - 1].end, at);
    assert Takes(text, first.token, markers[|markers| - 1].end, at) ==>
        IsCandidateMarker(text, first.token, at) && markers[|markers| - 1].end + 2 <= at;
    var marker := MarkerAt(text, at).value;
    MoreAscend(text, first, markers, at, marker);
    AccountedMore(text, first, markers, at, marker);
  }

  lemma MoreAscend(text: Text, first: Marker, markers: seq<Marker>, at: nat, marker: Marker)
    requires IsScan(text, first, markers, at)
    requires marker.start == at && markers[|markers| - 1].end + 2 <= at
    ensures MarkersAscend(markers + [marker])
  {
    hide MarkerAt, IsPrinted, IsCandidateMarker;
    forall i | 0 <= i < |markers|
      ensures markers[i].end + 2 <= at
    {
      if i < |markers| - 1 {
        EndsBeforeNext(text, first, markers, at, i);
      }
    }
  }

  lemma EndsBeforeNext(text: Text, first: Marker, markers: seq<Marker>, at: nat, i: nat)
    requires IsScan(text, first, markers, at) && i < |markers| - 1
    ensures markers[i].end + 2 <= markers[|markers| - 1].start < markers[|markers| - 1].end
  {
    hide MarkerAt, IsCandidateMarker;
    assert IsPrinted(text, markers[|markers| - 1]);
  }

  lemma AccountedMore(text: Text, first: Marker, markers: seq<Marker>, at: nat, marker: Marker)
    requires IsScan(text, first, markers, at) && marker.start == at
    ensures forall p: nat :: p <= at && IsCandidateMarker(text, first.token, p) ==> Accounted(markers + [marker], p)
  {
    hide MarkerAt, IsPrinted, IsCandidateMarker;
    var more := markers + [marker];
    forall p: nat | p <= at && IsCandidateMarker(text, first.token, p)
      ensures Accounted(more, p)
    {
      if p < at {
        assert Accounted(markers, p);
        var i :| 0 <= i < |markers| && (markers[i].start == p || markers[i].start < p < markers[i].end + 2);
        assert more[i] == markers[i];
      } else {
        assert more[|markers|].start == p;
      }
    }
  }

  // A candidate that is not taken overlaps the marker before it.
  lemma ScanSkips(text: Text, first: Marker, markers: seq<Marker>, at: nat)
    requires IsScan(text, first, markers, at) && at < |text|
    requires markers[|markers| - 1].start < at || at == 0
    requires !Takes(text, first.token, markers[|markers| - 1].end, at)
    ensures IsScan(text, first, markers, at + 1)
  {
    hide MarkerAt, IsPrinted, Takes;
    TakesCandidates(text, first.token, markers[|markers| - 1].end, at);
    assert IsCandidateMarker(text, first.token, at) ==> at >= 2;
    hide IsCandidateMarker;
    if IsCandidateMarker(text, first.token, at) {
      assert markers[|markers| - 1].start < at < markers[|markers| - 1].end + 2;
      assert Accounted(markers, at);
    }
  }

  function MarkersOf(v: Verified): (markers: seq<Marker>)
    ensures |markers| == |v.parts|
    ensures forall i :: 0 <= i < |markers| ==> markers[i] == MarkerOf(v.parts[i], v.boundary)
  {
    seq(|v.parts|, i requires 0 <= i < |v.parts| => MarkerOf(v.parts[i], v.boundary))
  }

  lemma PartMarkersAscend(text: Text, v: Verified)
    requires Tiles(text, v)
    ensures MarkersAscend(MarkersOf(v))
  {
    forall i, j | 0 <= i < j < |v.parts|
      ensures v.parts[i].marker.end + 2 <= v.parts[j].marker.start
    {
      assert PartTiles(text, v, i);
      PartsAscend(text, v, i, j);
    }
  }

  lemma FirstMarker(text: Text, v: Verified, first: Marker)
    requires Tiles(text, v) && MarkerAt(text, 0) == Some(first)
    ensures first == MarkerOf(v.parts[0], v.boundary)
  {
    assert PartTiles(text, v, 0);
    MarkerExact(text, MarkerOf(v.parts[0], v.boundary));
  }

  lemma PartIsCandidate(text: Text, v: Verified, i: nat)
    requires Tiles(text, v) && 1 <= i < |v.parts|
    ensures v.parts[i].marker.start < |text| && IsCandidateMarker(text, v.boundary, v.parts[i].marker.start)
  {
    assert PartTiles(text, v, i - 1) && PartTiles(text, v, i);
    hide MarkerAt, IsToken, RenderMarker, ContentReads, ClosingTiles;
    MarkerExact(text, MarkerOf(v.parts[i], v.boundary));
  }

  /** The scan of a tiled text takes exactly its parts' markers. */
  lemma ScanTakesTheParts(text: Text, v: Verified, first: Marker, markers: seq<Marker>)
    requires Tiles(text, v) && MarkerAt(text, 0) == Some(first) && IsScan(text, first, markers, |text|)
    ensures markers == MarkersOf(v)
  {
    hide Tiles, MarkerAt, IsScan, MarkersOf, SamePrefix;
    FirstPrefix(text, v, first, markers);
    var k := 1;
    while k < |v.parts| || k < |markers|
      invariant k >= 1 && SamePrefix(text, v, first, markers, k)
      decreases |v.parts| - k
    {
      PrefixGrows(text, v, first, markers, k);
      k := k + 1;
    }
    PrefixIsAll(text, v, first, markers, k);
  }

  lemma FirstPrefix(text: Text, v: Verified, first: Marker, markers: seq<Marker>)
    requires Tiles(text, v) && MarkerAt(text, 0) == Some(first) && IsScan(text, first, markers, |text|)
    ensures SamePrefix(text, v, first, markers, 1)
  {
    hide PartTiles, MarkerAt, ClosingTiles, IsToken, IsCandidateMarker, IsPrinted;
    FirstMarker(text, v, first);
    PartMarkersAscend(text, v);
  }

  lemma PrefixGrows(text: Text, v: Verified, first: Marker, markers: seq<Marker>, k: nat)
    requires SamePrefix(text, v, first, markers, k) && k >= 1
    requires k < |v.parts| || k < |markers|
    ensures k < |v.parts| && SamePrefix(text, v, first, markers, k + 1)
  {
    hide Tiles, MarkerAt, IsScan, MarkersOf;
    NextMarker(text, v, first, markers, k);
  }

  lemma PrefixIsAll(text: Text, v: Verified, first: Marker, markers: seq<Marker>, k: nat)
    requires SamePrefix(text, v, first, markers, k) && k >= |v.parts| && k >= |markers|
    ensures markers == MarkersOf(v)
  {
    hide Tiles, MarkerAt, IsScan;
  }

  ghost predicate SamePrefix(text: Text, v: Verified, first: Marker, markers: seq<Marker>, k: nat) {
    && Tiles(text, v) && MarkerAt(text, 0) == Some(first) && IsScan(text, first, markers, |text|)
    && first.token == v.boundary && MarkersAscend(MarkersOf(v))
    && k <= |v.parts| && k <= |markers| && forall i :: 0 <= i < k ==> markers[i] == MarkersOf(v)[i]
  }

  // The next marker taken is one of the parts that were not matched yet.
  lemma LaterMarker(text: Text, v: Verified, first: Marker, markers: seq<Marker>, k: nat) returns (j: nat)
    requires SamePrefix(text, v, first, markers, k) && k < |markers|
    ensures k <= j < |v.parts| && markers[k] == MarkersOf(v)[j]
  {
    hide PartTiles, ClosingTiles, IsToken, IsPrinted, IsCandidateMarker, MarkerAt;
    j := MarkersAreParts(text, v, markers[k]);
    PrintedEnds(text, markers[k]);
    assert forall i :: 0 <= i < k ==> MarkersOf(v)[i].end + 2 <= markers[k].start;
  }

  lemma PrintedEnds(text: Text, m: Marker)
    requires IsPrinted(text, m)
    ensures m.start < m.end <= |text|
  {
  }

  lemma ScanEnds(text: Text, first: Marker, markers: seq<Marker>)
    requires IsScan(text, first, markers, |text|)
    ensures MarkersAscend(markers) && forall i :: 0 <= i < |markers| ==> markers[i].start < markers[i].end <= |text|
  {
    hide IsPrinted, IsCandidateMarker;
    forall i | 0 <= i < |markers| ensures markers[i].start < markers[i].end <= |text| {
      PrintedEnds(text, markers[i]);
    }
  }

  // Part `k`'s marker was accounted for by one not left of it.
  lemma AccountedPart(text: Text, v: Verified, first: Marker, markers: seq<Marker>, k: nat)
    requires SamePrefix(text, v, first, markers, k) && 1 <= k < |v.parts|
    ensures k < |markers| && markers[k].start <= MarkersOf(v)[k].start
  {
    hide Tiles, IsPrinted, IsCandidateMarker, MarkerAt, IsScan, MarkersOf;
    var p := MarkersOf(v)[k].start;
    PartIsCandidate(text, v, k);
    ScanAccounts(text, first, markers, p);
    ScanEnds(text, first, markers);
    var i :| 0 <= i < |markers| && (markers[i].start == p || markers[i].start < p < markers[i].end + 2);
    assert forall j :: 0 <= j < k ==> markers[j].end + 2 <= p;
    if k < i {
      assert markers[k].end + 2 <= markers[i].start;
    }
  }

  lemma ScanAccounts(text: Text, first: Marker, markers: seq<Marker>, p: nat)
    requires IsScan(text, first, markers, |text|) && p < |text| && IsCandidateMarker(text, first.token, p)
    ensures Accounted(markers, p)
  {
    hide IsPrinted, IsCandidateMarker, Accounted;
  }

  lemma NextMarker(text: Text, v: Verified, first: Marker, markers: seq<Marker>, k: nat)
    requires SamePrefix(text, v, first, markers, k) && k >= 1
    requires k < |v.parts| || k < |markers|
    ensures k < |v.parts| && k < |markers| && markers[k] == MarkersOf(v)[k]
  {
    hide SamePrefix, IsPrinted;
    if k < |v.parts| {
      AccountedPart(text, v, first, markers, k);
    }
    var j := LaterMarker(text, v, first, markers, k);
    PartIsPrintedThere(text, v, first, markers, k);
    PrintedEnds(text, MarkersOf(v)[k]);
    LaterStarts(text, v, first, markers, k, j);
  }

  lemma PartIsPrintedThere(text: Text, v: Verified, first: Marker, markers: seq<Marker>, k: nat)
    requires SamePrefix(text, v, first, markers, k) && k < |v.parts|
    ensures IsPrinted(text, MarkersOf(v)[k])
  {
    hide IsPrinted, ContentReads, ClosingTiles, IsScan;
    assert PartTiles(text, v, k);
  }

  lemma LaterStarts(text: Text, v: Verified, first: Marker, markers: seq<Marker>, k: nat, j: nat)
    requires SamePrefix(text, v, first, markers, k) && k <= j < |v.parts|
    ensures k < j ==> MarkersOf(v)[k].end + 2 <= MarkersOf(v)[j].start
  {
    hide Tiles, IsScan, MarkerAt;
  }
}
