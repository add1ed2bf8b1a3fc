/** The reader's checks after the marker scan, and the reader itself. */
module StimulusVerify {
  import opened Bytes
  import opened StimulusFormat
  import opened StimulusNotes
  import opened StimulusGrammar
  import opened StimulusReader

  // ---- notes ----

  function TokenPlaces(markers: seq<Marker>): set<nat> {
    set m | m in markers :: m.tokenAt
  }

  /** An occurrence of the boundary that no marker explains. */
  predicate IsLoose(text: Text, token: Text, taken: set<nat>, at: nat) {
    OccursAt(text, token, at) && at !in taken
  }

  /** `notes` are the notes at the loose occurrences before `upto`, in order. */
  ghost predicate AreNotes(text: Text, token: Text, taken: set<nat>, notes: seq<Note>, upto: nat) {
    && (forall n <- notes :: n.end >= 22 && n.end - 22 < upto && IsLoose(text, token, taken, n.end - 22)
                             && NoteAt(text, n.end - 22) == Some(n))
    && (forall i, j :: 0 <= i < j < |notes| ==> notes[i].end < notes[j].end)
    && (forall at: nat :: at < upto && IsLoose(text, token, taken, at) ==>
          NoteAt(text, at).Some? && NoteAt(text, at).value in notes)
  }

  lemma NoteEnd(text: Text, at: nat)
    ensures NoteAt(text, at).Some? ==> NoteAt(text, at).value.end == at + 22 <= |text|
  {
    if NoteAt(text, at).Some? {
      NoteExact(text, at, NoteAt(text, at).value);
    }
  }

  /** Occurrences of a token do not overlap. */
  lemma NoOverlap(text: Text, token: Text, at: nat)
    requires IsToken(token) && OccursAt(text, token, at)
    ensures forall i: nat :: at < i < at + BOUNDARY_LEN ==> !OccursAt(text, token, i)
  {
    TokenBytes(token);
    OccurrenceBytes(text, token, at);
    forall i: nat | at < i < at + BOUNDARY_LEN
      ensures !OccursAt(text, token, i)
    {
      if OccursAt(text, token, i) {
        OccurrenceBytes(text, token, i);
      }
    }
  }

  lemma NoNotes(text: Text, token: Text, taken: set<nat>)
    ensures AreNotes(text, token, taken, [], 0)
  {
  }

  // Past an occurrence, which a marker explains or a note holds.
  lemma NotesThrough(text: Text, token: Text, taken: set<nat>, found: seq<Note>, at: nat)
    requires IsToken(token) && AreNotes(text, token, taken, found, at) && OccursAt(text, token, at)
    ensures at in taken ==> AreNotes(text, token, taken, found, at + BOUNDARY_LEN)
    ensures at !in taken && NoteAt(text, at).Some?
        ==> AreNotes(text, token, taken, found + [NoteAt(text, at).value], at + BOUNDARY_LEN)
  {
    hide NoteAt, IsToken, OccursAt;
    NoOverlap(text, token, at);
    if at !in taken && NoteAt(text, at).Some? {
      var note := NoteAt(text, at).value;
      NoteEnd(text, at);
      assert forall n :: n in found + [note] <==> n in found || n == note;
    }
  }

  lemma NotesPast(text: Text, token: Text, taken: set<nat>, found: seq<Note>, at: nat)
    requires AreNotes(text, token, taken, found, at) && !OccursAt(text, token, at)
    ensures AreNotes(text, token, taken, found, at + 1)
  {
    hide NoteAt, OccursAt;
  }

  /** The notes that carry the boundary, or nothing when some occurrence is neither a marker's nor a note's. */
  method CollectNotes(text: Text, token: Text, markers: seq<Marker>) returns (notes: Option<seq<Note>>)
    requires IsToken(token)
    ensures notes.Some? ==> AreNotes(text, token, TokenPlaces(markers), notes.value, |text|)
    ensures notes.None? ==> exists at: nat :: IsLoose(text, token, TokenPlaces(markers), at) && NoteAt(text, at).None?
  {
    assert |token| == BOUNDARY_LEN;
    hide NoteAt, AreNotes;
    assert AreNotes(text, token, TokenPlaces(markers), [], 0) by { NoNotes(text, token, TokenPlaces(markers)); }
    var taken := TokenPlaces(markers);
    var found: seq<Note> := [];
    var at := 0;
    while at < |text|
      invariant at <= |text| && AreNotes(text, token, taken, found, at)
      decreases |text| - at
    {
      if at + |token| <= |text| && text[at..at + |token|] == token {
        NotesThrough(text, token, taken, found, at);
        if at !in taken {
          var note := NoteAt(text, at);
          if note.None? {
            assert IsLoose(text, token, taken, at);
            return None;
          }
          found := found + [note.value];
        }
        at := at + BOUNDARY_LEN;
      } else {
        NotesPast(text, token, taken, found, at);
        at := at + 1;
      }
    }
    notes := Some(found);
  }

  /** The `omitted` notes among `notes`. */
  function OmittedNotes(notes: seq<Note>): (omitted: seq<Note>)
    ensures forall n :: n in omitted <==> n in notes && n.kind.Omitted?
  {
    if |notes| == 0 then []
    else OmittedNotes(notes[..|notes| - 1]) +
         (if notes[|notes| - 1].kind.Omitted? then [notes[|notes| - 1]] else [])
  }

  datatype Closing = Closing(end: nat, omittedParts: Option<nat>)

  /** Where the parts end, given the notes: at the closing note's separator, or at the end of the text. */
  function FindClosing(text: Text, notes: seq<Note>, lastMarkerEnd: nat): Option<Closing> {
    var omitted := OmittedNotes(notes);
    if |omitted| == 0 then Some(Closing(|text|, None))
    else
      var note := omitted[0];
      var separated := note.start >= 2 && OccursAt(text, SEPARATOR, note.start - 2) && note.start - 2 >= lastMarkerEnd;
      if |omitted| > 1 || note.end != |text| || !separated then None
      else Some(Closing(note.start - 2, Some(note.kind.parts)))
  }

  // ---- parts ----

  /** The parts between `markers`, the last of which ends at `end`. */
  function PartsOf(markers: seq<Marker>, end: nat): (parts: seq<ReadPart>)
    requires forall i :: 1 <= i < |markers| ==> markers[i].start >= 2
    ensures |parts| == |markers|
  {
    seq(|markers|, i requires 0 <= i < |markers| =>
      var m := markers[i];
      ReadPart(m.kind, m.name, m.isError, Span(m.start, m.end),
               Span(m.end, if i + 1 < |markers| then markers[i + 1].start - 2 else end)))
  }

  method BuildParts(markers: seq<Marker>, end: nat) returns (parts: seq<ReadPart>)
    requires forall i :: 1 <= i < |markers| ==> markers[i].start >= 2
    ensures parts == PartsOf(markers, end)
  {
    parts := [];
    for index := 0 to |markers|
      invariant |parts| == index && forall i :: 0 <= i < index ==> parts[i] == PartsOf(markers, end)[i]
    {
      var marker := markers[index];
      var contentEnd := if index + 1 < |markers| then markers[index + 1].start - 2 else end;
      parts := parts + [ReadPart(marker.kind, marker.name, marker.isError, Span(marker.start, marker.end),
                                 Span(marker.end, contentEnd))];
    }
  }

  predicate PartsSorted(parts: seq<ReadPart>) {
    && (forall i :: 0 <= i < |parts| ==> parts[i].content.start <= parts[i].content.end)
    && forall i, j :: 0 <= i < j < |parts| ==> parts[i].content.end < parts[j].content.start
  }

  predicate Holds(part: ReadPart, note: Note) {
    part.content.start <= note.start && note.end <= part.content.end
  }

  /** A `withheld` note is a part's whole content, a `truncated` note lies inside one. */
  predicate IsHeld(parts: seq<ReadPart>, note: Note) {
    match note.kind
    case Omitted(_) => true
    case Withheld => exists p <- parts :: p.content == Span(note.start, note.end)
    case Truncated(_) => exists p <- parts :: Holds(p, note)
  }

  /** How many leading parts have their content start at or before `at`. */
  method PartitionPoint(parts: seq<ReadPart>, at: nat) returns (n: nat)
    requires PartsSorted(parts)
    ensures n <= |parts|
    ensures forall i :: 0 <= i < n ==> parts[i].content.start <= at
    ensures forall i :: n <= i < |parts| ==> at < parts[i].content.start
  {
    var low, high := 0, |parts|;
    while low < high
      invariant low <= high <= |parts|
      invariant forall i :: 0 <= i < low ==> parts[i].content.start <= at
      invariant forall i :: high <= i < |parts| ==> at < parts[i].content.start
    {
      var middle := low + (high - low) / 2;
      if parts[middle].content.start <= at {
        low := middle + 1;
      } else {
        high := middle;
      }
    }
    n := low;
  }

  method NotesAreHeld(parts: seq<ReadPart>, notes: seq<Note>) returns (held: bool)
    requires PartsSorted(parts) && forall n <- notes :: n.start < n.end
    ensures held <==> forall n <- notes :: IsHeld(parts, n)
  {
    for index := 0 to |notes|
      invariant forall i :: 0 <= i < index ==> IsHeld(parts, notes[i])
    {
      var note := notes[index];
      var holder := PartitionPoint(parts, note.start);
      var inside := holder > 0 && note.end <= parts[holder - 1].content.end;
      assert forall p <- parts :: Holds(p, note) ==> inside && p == parts[holder - 1];
      if note.kind.Omitted? {
      } else if note.kind.Withheld? && inside && parts[holder - 1].content == Span(note.start, note.end) {
        assert parts[holder - 1] in parts;
      } else if note.kind.Truncated? && inside {
        assert Holds(parts[holder - 1], note);
      } else {
        assert forall p <- parts :: p.content == Span(note.start, note.end) ==> Holds(p, note);
        assert !IsHeld(parts, note) && note in notes;
        return false;
      }
    }
    held := true;
  }

  // ---- soundness: what passes the checks tiles the text ----

  ghost predicate MarkersFit(text: Text, markers: seq<Marker>) {
    && |markers| > 0 && MarkersAscend(markers)
    && (forall i :: 0 <= i < |markers| ==> markers[i].start < markers[i].end <= |text|)
  }

  lemma ScanFits(text: Text, first: Marker, markers: seq<Marker>)
    requires IsScan(text, first, markers, |text|)
    ensures MarkersFit(text, markers)
  {
    hide MarkerAt, IsPrinted, IsCandidateMarker;
    forall i | 0 <= i < |markers|
      ensures markers[i].start < markers[i].end <= |text|
    {
      PrintedEnds(text, markers[i]);
    }
  }

  lemma PartsAreSorted(text: Text, markers: seq<Marker>, end: nat)
    requires MarkersFit(text, markers) && markers[|markers| - 1].end <= end
    ensures forall i :: 1 <= i < |markers| ==> markers[i].start >= 2
    ensures PartsSorted(PartsOf(markers, end))
  {
    hide MarkersFit, PartsOf;
    forall i | 1 <= i < |markers| ensures markers[i].start >= 2 { MarkerRoom(text, markers, 0, i); }
    forall i | 0 <= i < |markers| ensures PartsOf(markers, end)[i].content.start <= PartsOf(markers, end)[i].content.end {
      ContentOf(markers, end, i);
      if i + 1 < |markers| { MarkerRoom(text, markers, i, i + 1); }
    }
    forall i, j | 0 <= i < j < |markers|
      ensures PartsOf(markers, end)[i].content.end < PartsOf(markers, end)[j].content.start
    {
      ContentOf(markers, end, i);
      ContentOf(markers, end, j);
      MarkerRoom(text, markers, i, j);
      if i + 1 < j { MarkerRoom(text, markers, i + 1, j); }
    }
  }

  lemma MarkerRoom(text: Text, markers: seq<Marker>, i: nat, j: nat)
    requires MarkersFit(text, markers) && i < j < |markers|
    ensures markers[i].start < markers[i].end && markers[i].end + 2 <= markers[j].start < markers[j].end
  {
  }

  lemma ContentOf(markers: seq<Marker>, end: nat, i: nat)
    requires (forall k :: 1 <= k < |markers| ==> markers[k].start >= 2) && i < |markers|
    ensures PartsOf(markers, end)[i].content ==
      Span(markers[i].end, if i + 1 < |markers| then markers[i + 1].start - 2 else end)
  {
  }

  /** What the reader has established when it accepts. */
  ghost predicate Accepted(text: Text, first: Marker, markers: seq<Marker>, notes: seq<Note>, closing: Closing) {
    && IsToken(first.token) && MarkersFit(text, markers)
    && MarkerAt(text, 0) == Some(first) && IsScan(text, first, markers, |text|)
    && AreNotes(text, first.token, TokenPlaces(markers), notes, |text|)
    && FindClosing(text, notes, markers[|markers| - 1].end) == Some(closing)
    && (forall i :: 1 <= i < |markers| ==> markers[i].start >= 2)
    && (forall n <- notes :: IsHeld(PartsOf(markers, closing.end), n))
  }

  /** A note that ends a text, printed with the boundary, spells its tail. */
  lemma NoteSpells(text: Text, token: Text, note: Note)
    requires IsToken(token) && note.end >= 22 && IsNoteAt(text, note.end - 22, note)
    requires OccursAt(text, token, note.end - 22)
    ensures text[note.start..note.end] == RenderNote(note.kind, token)
  {
    hide NoteOpen;
    var at := note.end - 22;
    var spelled := text[note.start..note.end];
    assert spelled == text[note.start..at] + text[at..at + 21] + [text[at + 21]];
    assert text[at..at + 21] == token by { assert |token| == 21; }
  }

  lemma ClosingFound(text: Text, first: Marker, markers: seq<Marker>, notes: seq<Note>, closing: Closing)
    requires IsToken(first.token) && MarkersFit(text, markers)
    requires AreNotes(text, first.token, TokenPlaces(markers), notes, |text|)
    requires FindClosing(text, notes, markers[|markers| - 1].end) == Some(closing)
    ensures markers[|markers| - 1].end <= closing.end <= |text|
    ensures ClosingTiles(text, first.token, closing.end, closing.omittedParts)
    ensures forall n <- notes :: n.kind.Omitted? ==> closing.end + 2 <= n.start
  {
    hide NoteAt, IsToken, OmittedNotes;
    var omitted := OmittedNotes(notes);
    assert forall n :: n in omitted <==> n in notes && n.kind.Omitted?;
    if |omitted| > 0 {
      assert omitted[0] in omitted;
      ClosingSpells(text, first.token, TokenPlaces(markers), omitted[0]);
    }
  }

  lemma ClosingSpells(text: Text, token: Text, taken: set<nat>, note: Note)
    requires IsToken(token) && note.kind.Omitted? && note.end == |text| && note.start >= 2 && note.end >= 22
    requires IsLoose(text, token, taken, note.end - 22) && NoteAt(text, note.end - 22) == Some(note)
    requires OccursAt(text, SEPARATOR, note.start - 2)
    ensures ClosingTiles(text, token, note.start - 2, Some(note.kind.parts))
  {
    hide NoteAt, IsToken;
    NoteExact(text, note.end - 22, note);
    NoteSpells(text, token, note);
    SeparatorBytes(text, note.start - 2);
    assert text[note.start - 2..] == SEPARATOR + text[note.start..note.end];
  }

  /** The notes are those of the text, the parts hold them, and the closing one follows the parts. */
  ghost predicate NotesSettled(text: Text, token: Text, taken: set<nat>, notes: seq<Note>, parts: seq<ReadPart>, end: nat) {
    && IsToken(token) && PartsSorted(parts)
    && AreNotes(text, token, taken, notes, |text|)
    && (forall n <- notes :: IsHeld(parts, n))
    && (forall n <- notes :: n.kind.Omitted? ==> end + 2 <= n.start)
  }

  /** An occurrence inside a content belongs to a note that the content holds. */
  lemma LooseInContent(text: Text, token: Text, taken: set<nat>, notes: seq<Note>, parts: seq<ReadPart>, end: nat,
                       i: nat, at: nat) returns (note: Note)
    requires NotesSettled(text, token, taken, notes, parts, end) && i < |parts|
    requires parts[i].content.start <= at && at + 21 <= parts[i].content.end <= end
    requires IsLoose(text, token, taken, at)
    ensures NoteAt(text, at) == Some(note) && IsNoteAt(text, at, note)
    ensures var c := parts[i].content;
            && c.start <= note.start && note.end <= c.end
            && (note.kind.Truncated? || (note.kind == Withheld && c == Span(note.start, note.end)))
  {
    assert |token| == 21;
    hide NoteAt, IsToken, IsNoteAt, IsHeld;
    note := NoteAt(text, at).value;
    NoteExact(text, at, note);
    NoteEnd(text, at);
    NoteStart(text, at, note);
    HeldByPart(parts, note, i);
  }

  lemma NoteStart(text: Text, at: nat, note: Note)
    requires IsNoteAt(text, at, note)
    ensures note.start <= at && note.end == at + 22
  {
  }

  // The part that holds a note is the one its token is in.
  lemma HeldByPart(parts: seq<ReadPart>, note: Note, i: nat)
    requires PartsSorted(parts) && IsHeld(parts, note) && !note.kind.Omitted? && i < |parts|
    requires note.end >= 22 && note.start <= note.end - 22
    requires parts[i].content.start <= note.end - 22 < parts[i].content.end
    ensures Holds(parts[i], note)
    ensures note.kind.Truncated? || parts[i].content == Span(note.start, note.end)
  {
    var p :| p in parts && Holds(p, note) && (note.kind.Truncated? || p.content == Span(note.start, note.end));
    var j :| 0 <= j < |parts| && parts[j] == p;
  }

  lemma TokenIsInside(text: Text, m: Marker)
    requires IsPrinted(text, m)
    ensures m.start < m.tokenAt < m.end
  {
    hide MarkerOpen, RenderMarker, IsToken;
    OpenBytes(m.kind, m.name, m.isError);
  }

  lemma NotATokenPlace(text: Text, first: Marker, markers: seq<Marker>, end: nat, i: nat, at: nat)
    requires IsScan(text, first, markers, |text|) && MarkersFit(text, markers) && i < |markers|
    requires forall j :: 1 <= j < |markers| ==> markers[j].start >= 2
    requires var c := PartsOf(markers, end)[i].content; c.start <= at < c.end
    ensures at !in TokenPlaces(markers)
  {
    hide IsScan, IsPrinted, PartsOf, MarkersFit;
    ScanEnds(text, first, markers);
    PartAt(markers, end, i);
    forall m | m in markers
      ensures m.tokenAt != at
    {
      var j :| 0 <= j < |markers| && markers[j] == m;
      ScanPrinted(text, first, markers, j);
      TokenIsInside(text, m);
      assert j < i ==> markers[j].end + 2 <= markers[i].start;
      assert i < j ==> i + 1 == j || markers[i + 1].end + 2 <= markers[j].start;
    }
  }

  lemma ContentAccepted(text: Text, token: Text, taken: set<nat>, notes: seq<Note>, parts: seq<ReadPart>, end: nat, i: nat)
    requires NotesSettled(text, token, taken, notes, parts, end) && i < |parts|
    requires parts[i].content.start <= parts[i].content.end <= end <= |text|
    requires forall at: nat :: parts[i].content.start <= at < parts[i].content.end ==> at !in taken
    ensures ContentReads(text[parts[i].content.start..parts[i].content.end], token)
  {
    hide NoteAt, RenderNote, NotesSettled;
    var content := text[parts[i].content.start..parts[i].content.end];
    forall at: nat | OccursAt(content, token, at)
      ensures NoteAt(content, at).Some?
      ensures NoteAt(content, at).value.kind.Truncated? || content == RenderNote(Withheld, token)
    {
      OccurrenceAccepted(text, token, taken, notes, parts, end, i, at);
    }
  }

  lemma OccurrenceAccepted(text: Text, token: Text, taken: set<nat>, notes: seq<Note>, parts: seq<ReadPart>, end: nat,
                           i: nat, at: nat)
    requires NotesSettled(text, token, taken, notes, parts, end) && i < |parts|
    requires parts[i].content.start <= parts[i].content.end <= end <= |text|
    requires forall at: nat :: parts[i].content.start <= at < parts[i].content.end ==> at !in taken
    requires OccursAt(text[parts[i].content.start..parts[i].content.end], token, at)
    ensures var content := text[parts[i].content.start..parts[i].content.end];
            NoteAt(content, at).Some?
            && (NoteAt(content, at).value.kind.Truncated? || content == RenderNote(Withheld, token))
  {
    hide NoteAt, IsNoteAt, RenderNote;
    assert IsToken(token) && |token| == 21;
    hide NotesSettled, IsToken;
    var c := parts[i].content;
    OccursInSlice(text, c.start, c.end, token, at);
    var note := LooseInContent(text, token, taken, notes, parts, end, i, c.start + at);
    NoteLocal(text, c.start, c.end, token, at, note);
  }

  // A note that lies in a slice is found there.
  lemma NoteLocal(text: Text, lo: nat, hi: nat, token: Text, at: nat, note: Note)
    requires lo <= hi <= |text| && IsToken(token) && OccursAt(text, token, lo + at)
    requires IsNoteAt(text, lo + at, note) && lo <= note.start && note.end <= hi
    ensures NoteAt(text[lo..hi], at) == Some(Note(note.kind, note.start - lo, note.end - lo))
    ensures note == Note(Withheld, lo, hi) ==> text[lo..hi] == RenderNote(Withheld, token)
  {
    var inner := Note(note.kind, note.start - lo, note.end - lo);
    assert Shifted(inner, lo) == note;
    NoteInSlice(text, lo, hi, at, inner);
    NoteExact(text[lo..hi], at, inner);
    NoteSpells(text, token, note);
  }

  /** Soundness: what the reader accepts tiles the text. */
  lemma AcceptedTiles(text: Text, first: Marker, markers: seq<Marker>, notes: seq<Note>, closing: Closing)
    requires Accepted(text, first, markers, notes, closing)
    ensures Tiles(text, Verified(first.token, PartsOf(markers, closing.end), closing.omittedParts))
  {
    ClosingFound(text, first, markers, notes, closing);
    PartsAreSorted(text, markers, closing.end);
    var v := Verified(first.token, PartsOf(markers, closing.end), closing.omittedParts);
    assert v.parts[0].marker.start == 0 by { MarkerExact(text, first); FirstScan(text, first); }
    assert NotesSettled(text, first.token, TokenPlaces(markers), notes, v.parts, closing.end);
    hide MarkerAt, FindClosing, AreNotes, IsHeld, PartTiles, NotesSettled;
    forall i | 0 <= i < |v.parts|
      ensures PartTiles(text, v, i)
    {
      PartAccepted(text, first, markers, notes, closing, i);
    }
  }

  lemma PartAccepted(text: Text, first: Marker, markers: seq<Marker>, notes: seq<Note>, closing: Closing, i: nat)
    requires MarkersFit(text, markers) && IsScan(text, first, markers, |text|) && i < |markers|
    requires forall i :: 1 <= i < |markers| ==> markers[i].start >= 2
    requires markers[|markers| - 1].end <= closing.end <= |text|
    requires NotesSettled(text, first.token, TokenPlaces(markers), notes, PartsOf(markers, closing.end), closing.end)
    ensures PartTiles(text, Verified(first.token, PartsOf(markers, closing.end), closing.omittedParts), i)
  {
    hide AreNotes, IsHeld, ContentReads, MarkerAt, NotesSettled, IsPrinted, IsScan, MarkersFit;
    var parts := PartsOf(markers, closing.end);
    PartMarker(text, first, markers, closing.end, i);
    forall at: nat | parts[i].content.start <= at < parts[i].content.end
      ensures at !in TokenPlaces(markers)
    {
      NotATokenPlace(text, first, markers, closing.end, i, at);
    }
    ContentAccepted(text, first.token, TokenPlaces(markers), notes, parts, closing.end, i);
  }

  lemma PrintedPlaces(text: Text, m: Marker)
    requires IsPrinted(text, m)
    ensures m.tokenAt == m.start + |MarkerOpen(m.kind, m.name, m.isError)| && m.start < m.end <= |text|
  {
  }

  lemma SeparatedBefore(text: Text, first: Marker, markers: seq<Marker>, i: nat)
    requires IsScan(text, first, markers, |text|) && 1 <= i < |markers| && markers[i].start >= 2
    ensures OccursAt(text, SEPARATOR, markers[i].start - 2)
  {
    hide MarkerAt, IsPrinted;
    assert IsCandidateMarker(text, first.token, markers[i].start);
  }

  lemma PartMarker(text: Text, first: Marker, markers: seq<Marker>, end: nat, i: nat)
    requires MarkersFit(text, markers) && IsScan(text, first, markers, |text|) && i < |markers|
    requires forall i :: 1 <= i < |markers| ==> markers[i].start >= 2
    requires markers[|markers| - 1].end <= end <= |text|
    ensures var p := PartsOf(markers, end)[i];
            && MarkerOf(p, first.token) == markers[i] && IsPrinted(text, markers[i])
            && p.content.start == p.marker.end <= p.content.end <= end
            && (i + 1 < |markers| ==>
                  p.content.end + 2 == markers[i + 1].start && OccursAt(text, SEPARATOR, p.content.end))
  {
    hide IsScan, IsPrinted, MarkerOpen, MarkersFit, PartsOf, OccursAt;
    PartAt(markers, end, i);
    ScanPrinted(text, first, markers, i);
    PrintedPlaces(text, markers[i]);
    ScanEnds(text, first, markers);
    if i + 1 < |markers| { SeparatedBefore(text, first, markers, i + 1); }
  }

  lemma ScanPrinted(text: Text, first: Marker, markers: seq<Marker>, i: nat)
    requires IsScan(text, first, markers, |text|) && i < |markers|
    ensures IsPrinted(text, markers[i]) && markers[i].token == first.token
  {
    hide IsPrinted, IsCandidateMarker;
  }

  // ---- completeness: what tiles the text passes the checks ----

  function LastEnd(v: Verified): nat
    requires |v.parts| > 0
  {
    v.parts[|v.parts| - 1].content.end
  }

  /** In a tiled text, an occurrence no marker explains is a note that is held, or the closing one. */
  lemma LooseIsNote(text: Text, v: Verified, at: nat) returns (note: Note)
    requires Tiles(text, v) && IsLoose(text, v.boundary, TokenPlaces(MarkersOf(v)), at)
    ensures NoteAt(text, at) == Some(note) && IsHeld(v.parts, note) && note.start < note.end
    ensures note.kind.Omitted? ==>
              v.omittedParts.Some? && note == Note(Omitted(v.omittedParts.value), LastEnd(v) + 2, |text|)
  {
    hide PartTiles, NoteAt, IsToken, ClosingTiles, IsNoteAt;
    var place := TokenPlace(text, v, at);
    assert forall i :: 0 <= i < |v.parts| ==> MarkersOf(v)[i] in MarkersOf(v);
    assert !place.InMarker?;
    if place.InContent? {
      note := NoteInContent(text, v, place.part, at);
      NoteStart(text, at, note);
      assert v.parts[place.part] in v.parts && Holds(v.parts[place.part], note);
    } else {
      note := ClosingNoteAt(text, v, at);
    }
  }

  lemma ClosingNoteAt(text: Text, v: Verified, at: nat) returns (note: Note)
    requires Tiles(text, v) && v.omittedParts.Some? && at == |text| - BOUNDARY_LEN - 1
    ensures note == Note(Omitted(v.omittedParts.value), LastEnd(v) + 2, |text|)
    ensures NoteAt(text, at) == Some(note) && note.start < note.end
  {
    hide PartTiles, NoteAt, IsToken, ClosingTiles, IsNoteAt;
    ClosingBytes(text, v.boundary, LastEnd(v), v.omittedParts.value);
    note := Note(Omitted(v.omittedParts.value), LastEnd(v) + 2, |text|);
    NoteExact(text, at, note);
  }

  lemma ClosingIsLoose(text: Text, v: Verified)
    requires Tiles(text, v) && v.omittedParts.Some?
    ensures |text| >= 22 && IsLoose(text, v.boundary, TokenPlaces(MarkersOf(v)), |text| - 22)
    ensures NoteAt(text, |text| - 22) == Some(Note(Omitted(v.omittedParts.value), LastEnd(v) + 2, |text|))
    ensures OccursAt(text, SEPARATOR, LastEnd(v))
  {
    hide PartTiles, IsToken, RenderNote, NoteAt;
    MarkersBeforeEnd(text, v);
    ClosingBytes(text, v.boundary, LastEnd(v), v.omittedParts.value);
    hide ClosingTiles, IsNoteAt;
    NoteExact(text, |text| - 22, Note(Omitted(v.omittedParts.value), LastEnd(v) + 2, |text|));
  }

  lemma MarkersBeforeEnd(text: Text, v: Verified)
    requires Tiles(text, v)
    ensures forall m <- MarkersOf(v) :: m.tokenAt + 23 <= |text|
  {
    hide ContentReads, ClosingTiles, RenderMarker, NameFits, IsToken;
    forall m | m in MarkersOf(v)
      ensures m.tokenAt + 23 <= |text|
    {
      var i :| 0 <= i < |v.parts| && MarkersOf(v)[i] == m;
      assert PartTiles(text, v, i);
    }
  }

  lemma OmittedIsClosing(text: Text, v: Verified, notes: seq<Note>, n: Note)
    requires Tiles(text, v) && AreNotes(text, v.boundary, TokenPlaces(MarkersOf(v)), notes, |text|)
    requires n in notes && n.kind.Omitted?
    ensures v.omittedParts.Some? && n == Note(Omitted(v.omittedParts.value), LastEnd(v) + 2, |text|)
  {
    hide NoteAt, Tiles, IsHeld, IsLoose, TokenPlaces, MarkersOf;
    var same := LooseIsNote(text, v, n.end - 22);
  }

  lemma NotesEndApart(text: Text, token: Text, taken: set<nat>, notes: seq<Note>, upto: nat)
    requires AreNotes(text, token, taken, notes, upto)
    ensures forall i, j :: 0 <= i < j < |notes| ==> notes[i].end < notes[j].end
    ensures forall at: nat :: at < upto && IsLoose(text, token, taken, at) ==>
      NoteAt(text, at).Some? && NoteAt(text, at).value in notes
  {
    hide NoteAt, IsLoose;
  }

  lemma ClosingReads(text: Text, v: Verified, notes: seq<Note>)
    requires Tiles(text, v) && AreNotes(text, v.boundary, TokenPlaces(MarkersOf(v)), notes, |text|)
    ensures FindClosing(text, notes, MarkersOf(v)[|v.parts| - 1].end) == Some(Closing(LastEnd(v), v.omittedParts))
  {
    hide NoteAt, Tiles, AreNotes, OmittedNotes, IsLoose, TokenPlaces, MarkersOf, OccursAt;
    LastEndFits(text, v);
    NotesEndApart(text, v.boundary, TokenPlaces(MarkersOf(v)), notes, |text|);
    forall n | n in notes && n.kind.Omitted?
      ensures v.omittedParts.Some? && n == Note(Omitted(v.omittedParts.value), LastEnd(v) + 2, |text|)
    {
      OmittedIsClosing(text, v, notes, n);
    }
    if v.omittedParts.Some? {
      ClosingIsLoose(text, v);
      OneClosing(notes, Note(Omitted(v.omittedParts.value), LastEnd(v) + 2, |text|));
    } else {
      NoOmitted(notes);
    }
  }

  lemma LastEndFits(text: Text, v: Verified)
    requires Tiles(text, v)
    ensures |v.parts| > 0 && MarkersOf(v)[|v.parts| - 1].end <= LastEnd(v)
    ensures v.omittedParts.None? ==> LastEnd(v) == |text|
  {
    hide ContentReads, RenderMarker, NameFits, RenderNote, IsToken;
    assert PartTiles(text, v, |v.parts| - 1);
  }

  lemma OmittedSnoc(notes: seq<Note>)
    requires notes != []
    ensures OmittedNotes(notes) == OmittedNotes(notes[..|notes| - 1])
      + if notes[|notes| - 1].kind.Omitted? then [notes[|notes| - 1]] else []
  {
  }

  lemma {:induction false} OneClosing(notes: seq<Note>, closing: Note)
    requires closing in notes && closing.kind.Omitted?
    requires forall n <- notes :: n.kind.Omitted? ==> n == closing
    requires forall i, j :: 0 <= i < j < |notes| ==> notes[i].end < notes[j].end
    ensures OmittedNotes(notes) == [closing]
  {
    var init, last := notes[..|notes| - 1], notes[|notes| - 1];
    assert notes == init + [last];
    OmittedSnoc(notes);
    hide OmittedNotes;
    if last.kind.Omitted? {
      forall n | n in init
        ensures !n.kind.Omitted?
      {
        var i :| 0 <= i < |init| && init[i] == n;
        assert notes[i].end < notes[|notes| - 1].end;
      }
      NoOmitted(init);
    } else {
      OneClosing(init, closing);
    }
  }

  lemma {:induction false} NoOmitted(notes: seq<Note>)
    requires forall n <- notes :: !n.kind.Omitted?
    ensures OmittedNotes(notes) == []
  {
    if |notes| > 0 {
      NoOmitted(notes[..|notes| - 1]);
    }
  }

  lemma PartsRead(text: Text, v: Verified)
    requires Tiles(text, v)
    ensures forall i :: 1 <= i < |v.parts| ==> MarkersOf(v)[i].start >= 2
    ensures PartsOf(MarkersOf(v), LastEnd(v)) == v.parts
  {
    hide Tiles, MarkersOf, PartsOf, MarkerOpen;
    TiledStarts(text, v);
    forall i | 1 <= i < |v.parts| ensures MarkersOf(v)[i].start >= 2 { PartEdges(text, v, i); }
    var parts := PartsOf(MarkersOf(v), LastEnd(v));
    forall i: nat | i < |v.parts| ensures parts[i] == v.parts[i] {
      PartEdges(text, v, i);
      PartAt(MarkersOf(v), LastEnd(v), i);
    }
    SameParts(parts, v.parts);
  }

  lemma SameParts<T>(a: seq<T>, b: seq<T>)
    requires |a| == |b| && forall i: nat :: i < |a| ==> a[i] == b[i]
    ensures a == b
  {
  }

  lemma PartAt(markers: seq<Marker>, end: nat, i: nat)
    requires i < |markers| && forall j :: 1 <= j < |markers| ==> markers[j].start >= 2
    ensures var m := markers[i];
      PartsOf(markers, end)[i] == ReadPart(m.kind, m.name, m.isError, Span(m.start, m.end),
        Span(m.end, if i + 1 < |markers| then markers[i + 1].start - 2 else end))
  {
  }

  lemma PartEdges(text: Text, v: Verified, i: nat)
    requires Tiles(text, v) && i < |v.parts|
    ensures v.parts[i].content.start == v.parts[i].marker.end
    ensures i + 1 < |v.parts| ==> v.parts[i].content.end + 2 == v.parts[i + 1].marker.start
    ensures i >= 1 ==> v.parts[i].marker.start >= 2
  {
    hide IsPrinted, IsToken, ContentReads, ClosingTiles, MarkerOpen;
    assert PartTiles(text, v, i);
    assert i >= 1 ==> PartTiles(text, v, i - 1);
  }

  // ---- the reader ----

  /** Reads `text`, whose first marker is `first`: it succeeds exactly on the stimuli of the grammar. */
  method Verify(hash: Hash, id: Text, text: Text, first: Marker) returns (verified: Option<Verified>)
    requires MarkerAt(text, 0) == Some(first)
    ensures verified.Some? ==> Grammar(hash, id, text, verified.value)
    ensures verified.None? ==> forall v :: !Grammar(hash, id, text, v)
  {
    hide Tiles, NoteAt, IsScan, AreNotes, MarkerAt, FindClosing, IsCandidate, IsHeld, IsPrinted;
    FirstToken(text, first);
    var token := first.token;
    var markers := CollectMarkers(text, first);
    ScanFits(text, first, markers);
    forall v | Tiles(text, v)
      ensures markers == MarkersOf(v) && v.boundary == token
    {
      TiledScan(text, v, first, markers);
    }
    var notes := CollectNotes(text, token, markers);
    if notes.None? {
      var at: nat :| IsLoose(text, token, TokenPlaces(markers), at) && NoteAt(text, at).None?;
      forall v
        ensures !Tiles(text, v)
      {
        if Tiles(text, v) {
          var note := LooseIsNote(text, v, at);
        }
      }
      return None;
    }
    var closing := FindClosing(text, notes.value, markers[|markers| - 1].end);
    forall v | Tiles(text, v)
      ensures closing == Some(Closing(LastEnd(v), v.omittedParts))
    {
      ClosingReads(text, v, notes.value);
    }
    if closing.None? {
      return None;
    }
    ClosingFound(text, first, markers, notes.value, closing.value);
    PartsAreSorted(text, markers, closing.value.end);
    var parts := BuildParts(markers, closing.value.end);
    forall v | Tiles(text, v)
      ensures v == Verified(token, parts, closing.value.omittedParts)
    {
      PartsRead(text, v);
    }
    NotesHaveExtent(text, token, TokenPlaces(markers), notes.value);
    var held := NotesAreHeld(parts, notes.value);
    forall v | Tiles(text, v)
      ensures held
    {
      NotesRead(text, v, notes.value);
    }
    if !held || !IsCandidate(hash, id, ShapeOf(Kinds(parts)), token) {
      return None;
    }
    AcceptedTiles(text, first, markers, notes.value, closing.value);
    verified := Some(Verified(token, parts, closing.value.omittedParts));
  }

  lemma FirstToken(text: Text, first: Marker)
    requires MarkerAt(text, 0) == Some(first)
    ensures IsToken(first.token) && TokenAt(text, first.tokenAt)
  {
    hide MarkerAt, MarkerOpen, RenderMarker, NameFits, IsToken;
    FirstScan(text, first);
    assert IsPrinted(text, first);
    TokenBytes(first.token);
    MarkerBytes(text, first);
  }

  lemma TiledScan(text: Text, v: Verified, first: Marker, markers: seq<Marker>)
    requires Tiles(text, v) && MarkerAt(text, 0) == Some(first) && IsScan(text, first, markers, |text|)
    ensures markers == MarkersOf(v) && v.boundary == first.token && |v.parts| > 0
  {
    hide MarkerAt, PartTiles, IsScan, ClosingTiles, IsToken;
    FirstMarker(text, v, first);
    ScanTakesTheParts(text, v, first, markers);
  }

  lemma NotesHaveExtent(text: Text, token: Text, taken: set<nat>, notes: seq<Note>)
    requires AreNotes(text, token, taken, notes, |text|)
    ensures forall n <- notes :: n.start < n.end
  {
    hide NoteAt;
    forall n | n in notes
      ensures n.start < n.end
    {
      NoteExact(text, n.end - 22, n);
    }
  }

  lemma NotesRead(text: Text, v: Verified, notes: seq<Note>)
    requires Tiles(text, v) && AreNotes(text, v.boundary, TokenPlaces(MarkersOf(v)), notes, |text|)
    ensures forall n <- notes :: IsHeld(v.parts, n)
  {
    hide NoteAt, Tiles, IsHeld;
    forall n | n in notes
      ensures IsHeld(v.parts, n)
    {
      var same := LooseIsNote(text, v, n.end - 22);
    }
  }

  /** A stimulus says one thing: no two readings of a text satisfy the grammar. */
  lemma GrammarIsUnambiguous(text: Text, v: Verified, w: Verified)
    requires Tiles(text, v) && Tiles(text, w)
    ensures v == w
  {
    hide NoteAt, IsToken, IsPrinted, MarkerAt;
    var first := MarkerOf(v.parts[0], v.boundary);
    FirstOfTiled(text, v);
    OwnScan(text, v);
    TiledScan(text, v, first, MarkersOf(v));
    TiledScan(text, w, first, MarkersOf(v));
    SameClosing(text, v, w);
    SameClosing(text, w, v);
    PartsRead(text, v);
    PartsRead(text, w);
    LastEndIs(text, v);
    LastEndIs(text, w);
  }

  lemma FirstOfTiled(text: Text, v: Verified)
    requires Tiles(text, v)
    ensures MarkerAt(text, 0) == Some(MarkerOf(v.parts[0], v.boundary))
  {
    assert PartTiles(text, v, 0);
    MarkerExact(text, MarkerOf(v.parts[0], v.boundary));
  }

  // A tiled text is scanned as its own markers.
  lemma OwnScan(text: Text, v: Verified)
    requires Tiles(text, v)
    ensures IsScan(text, MarkerOf(v.parts[0], v.boundary), MarkersOf(v), |text|)
  {
    PartMarkersAscend(text, v);
    FirstOfTiled(text, v);
    hide ContentReads, ClosingTiles, IsToken, RenderMarker;
    var own := MarkersOf(v);
    forall i | 0 <= i < |own|
      ensures IsPrinted(text, own[i])
    {
      assert PartTiles(text, v, i);
    }
    forall i | 1 <= i < |own|
      ensures IsCandidateMarker(text, v.boundary, own[i].start)
    {
      PartIsCandidate(text, v, i);
    }
    hide IsPrinted;
    forall p: nat | IsCandidateMarker(text, v.boundary, p)
      ensures Accounted(own, p)
    {
      TakesCandidates(text, v.boundary, 0, p);
      var i := MarkersAreParts(text, v, MarkerAt(text, p).value);
      assert own[i].start == p;
    }
  }

  // Where the parts end follows from the closing note.
  lemma LastEndIs(text: Text, v: Verified)
    requires Tiles(text, v)
    ensures v.omittedParts.None? ==> LastEnd(v) == |text|
    ensures v.omittedParts.Some? ==>
              |text| >= 22
              && NoteAt(text, |text| - 22) == Some(Note(Omitted(v.omittedParts.value), LastEnd(v) + 2, |text|))
  {
    if v.omittedParts.Some? {
      ClosingIsLoose(text, v);
    }
  }

  lemma SameClosing(text: Text, v: Verified, w: Verified)
    requires Tiles(text, v) && Tiles(text, w) && MarkersOf(v) == MarkersOf(w) && v.boundary == w.boundary
    ensures v.omittedParts.Some? ==> w.omittedParts == v.omittedParts
  {
    hide NoteAt, IsToken, PartTiles, ClosingTiles, IsHeld;
    if v.omittedParts.Some? {
      ClosingIsLoose(text, v);
      var note := LooseIsNote(text, w, |text| - 22);
    }
  }

  ghost function TheReading(hash: Hash, id: Text, text: Text): (v: Verified)
    requires exists v :: Grammar(hash, id, text, v)
    ensures Grammar(hash, id, text, v)
  {
    var v :| Grammar(hash, id, text, v);
    v
  }

  /** What the reader says of `text`: the one reading its grammar allows, or how it fails. */
  ghost function ReadOf(hash: Hash, id: Text, text: Text): Reading {
    if text == NO_STIMULUS then Legacy
    else if exists v :: Grammar(hash, id, text, v) then ReadsAs(TheReading(hash, id, text))
    else if ContainsToken(text) then Undivided
    else Legacy
  }

  lemma ReadOfGrammar(hash: Hash, id: Text, text: Text, v: Verified)
    requires Grammar(hash, id, text, v)
    ensures ReadOf(hash, id, text) == ReadsAs(v)
  {
    FirstOfTiled(text, v);
    assert text != NO_STIMULUS by {
      FirstToken(text, MarkerOf(v.parts[0], v.boundary));
      NoStimulusHasNoToken();
    }
    GrammarIsUnambiguous(text, v, TheReading(hash, id, text));
  }

  /** The reader's three answers, exactly: a reading just of a text of the grammar, that reading; of any other text
      undivided just when a boundary-shaped token occurs in it; and legacy otherwise. */
  lemma ReadsExactly(hash: Hash, id: Text, text: Text)
    ensures forall v :: ReadOf(hash, id, text) == ReadsAs(v) <==> Grammar(hash, id, text, v)
    ensures ReadOf(hash, id, text) == Undivided <==> HasBoundaryShape(text) && forall v :: !Grammar(hash, id, text, v)
  {
    hide Grammar;
    forall v | Grammar(hash, id, text, v) ensures ReadOf(hash, id, text) == ReadsAs(v) { ReadOfGrammar(hash, id, text, v); }
    ShapeIsToken(text);
    NoStimulusHasNoToken();
  }

  /** `~cvc-` and sixteen lowercase hexadecimal digits occur. */
  ghost predicate HasBoundaryShape(text: Text) {
    exists at: nat :: BoundaryShapeAt(text, at)
  }

  ghost predicate BoundaryShapeAt(text: Text, at: nat) {
    && at + 21 <= |text| && text[at..at + 5] == "~cvc-"
    && forall i :: at + 5 <= i < at + 21 ==> '0' <= text[i] <= '9' || 'a' <= text[i] <= 'f'
  }

  lemma ShapeIsToken(text: Text)
    ensures HasBoundaryShape(text) <==> ContainsToken(text)
  {
    hide IsToken;
    forall at: nat ensures BoundaryShapeAt(text, at) <==> TokenAt(text, at) { ShapeIsTokenAt(text, at); }
  }

  lemma ShapeIsTokenAt(text: Text, at: nat)
    ensures BoundaryShapeAt(text, at) <==> TokenAt(text, at)
  {
    if at + 21 <= |text| {
      var t := text[at..at + 21];
      assert t[..5] == text[at..at + 5];
      assert forall i :: 5 <= i < 21 ==> t[i] == text[at + i];
      assert forall i :: at + 5 <= i < at + 21 ==> text[i] == t[i - at];
    }
  }

  lemma NoStimulusHasNoToken()
    ensures !ContainsToken(NO_STIMULUS)
  {
    forall at: nat
      ensures !TokenAt(NO_STIMULUS, at)
    {
      assert forall i :: 0 <= i < |NO_STIMULUS| ==> NO_STIMULUS[i] != '~';
      if TokenAt(NO_STIMULUS, at) {
        TokenBytes(NO_STIMULUS[at..at + 21]);
      }
    }
  }

  /** Whether a boundary-shaped token occurs in `text`. */
  method HasToken(text: Text) returns (found: bool)
    ensures found <==> ContainsToken(text)
  {
    for at := 0 to |text|
      invariant forall i: nat :: i < at ==> !TokenAt(text, i)
    {
      if TokenAt(text, at) {
        return true;
      }
    }
    found := false;
  }

  /** Reads the stimulus `text` of interaction `id`. */
  method Read(hash: Hash, id: Text, text: Text) returns (reading: Reading)
    ensures reading == ReadOf(hash, id, text)
  {
    hide Tiles, MarkerAt, IsCandidate;
    if text == NO_STIMULUS {
      return Legacy;
    }
    var first := MarkerAt(text, 0);
    if first.None? {
      forall v
        ensures !Grammar(hash, id, text, v)
      {
        if Tiles(text, v) {
          FirstOfTiled(text, v);
        }
      }
      var found := HasToken(text);
      return if found then Undivided else Legacy;
    }
    FirstToken(text, first.value);
    var verified := Verify(hash, id, text, first.value);
    if verified.Some? {
      ReadOfGrammar(hash, id, text, verified.value);
      return ReadsAs(verified.value);
    }
    reading := Undivided;
  }
}
