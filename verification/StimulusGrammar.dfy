/** What a stimulus that verifies looks like: how its parts tile its text. */
module StimulusGrammar {
  import opened Bytes
  import opened StimulusFormat
  import opened StimulusNotes

  datatype ReadPart = ReadPart(kind: PartKind, name: Option<Text>, isError: bool, marker: Span, content: Span)

  datatype Verified = Verified(boundary: Text, parts: seq<ReadPart>, omittedParts: Option<nat>)

  function Kinds(parts: seq<ReadPart>): (kinds: seq<PartKind>)
    ensures |kinds| == |parts| && forall i :: 0 <= i < |parts| ==> kinds[i] == parts[i].kind
  {
    seq(|parts|, i requires 0 <= i < |parts| => parts[i].kind)
  }

  /** The marker `p` was read from. */
  function MarkerOf(p: ReadPart, token: Text): Marker {
    Marker(p.kind, p.name, p.isError, token, p.marker.start,
           p.marker.start + |MarkerOpen(p.kind, p.name, p.isError)|, p.marker.end)
  }

  /** A part's content: the `withheld` note alone, or text whose tokens all sit in `truncated` notes. */
  ghost predicate ContentReads(content: Text, token: Text) {
    || content == RenderNote(Withheld, token)
    || forall at: nat :: OccursAt(content, token, at) ==>
         NoteAt(content, at).Some? && NoteAt(content, at).value.kind.Truncated?
  }

  ghost predicate PartTiles(text: Text, v: Verified, i: nat)
    requires i < |v.parts|
  {
    var p := v.parts[i];
    && IsPrinted(text, MarkerOf(p, v.boundary))
    && p.content.start == p.marker.end <= p.content.end <= |text|
    && ContentReads(text[p.content.start..p.content.end], v.boundary)
    && (i + 1 < |v.parts| ==>
          p.content.end + 2 == v.parts[i + 1].marker.start && OccursAt(text, SEPARATOR, p.content.end))
  }

  /** What follows the last part: nothing, or the closing `omitted` note. */
  ghost predicate ClosingTiles(text: Text, token: Text, end: nat, omittedParts: Option<nat>) {
    match omittedParts
    case None => end == |text|
    case Some(n) => 1 <= n < COUNT_LIMIT && end <= |text| && text[end..] == SEPARATOR + RenderNote(Omitted(n), token)
  }

  /** The parts of `v` tile `text`: markers, contents, separators and the closing note, with nothing between. */
  ghost predicate Tiles(text: Text, v: Verified) {
    && IsToken(v.boundary)
    && |v.parts| > 0
    && v.parts[0].marker.start == 0
    && (forall i :: 0 <= i < |v.parts| ==> PartTiles(text, v, i))
    && ClosingTiles(text, v.boundary, v.parts[|v.parts| - 1].content.end, v.omittedParts)
  }

  /** `v` is what the stimulus `text` of interaction `id` says. */
  ghost predicate Grammar(hash: Hash, id: Text, text: Text, v: Verified) {
    && Tiles(text, v)
    && IsCandidate(hash, id, ShapeOf(Kinds(v.parts)), v.boundary)
  }

  // ---- notes in slices, and notes against markers ----

  function Shifted(note: Note, offset: nat): Note {
    Note(note.kind, note.start + offset, note.end + offset)
  }

  lemma NoteInSlice(text: Text, lo: nat, hi: nat, at: nat, note: Note)
    requires lo <= hi <= |text|
    ensures IsNoteAt(text[lo..hi], at, note) <==> IsNoteAt(text, lo + at, Shifted(note, lo)) && lo + note.end <= hi
  {
    if note.start <= at <= hi - lo {
      SliceOfSlice(text, lo, hi, note.start, at);
    }
  }

  lemma NoteOfSlice(text: Text, lo: nat, hi: nat, at: nat) returns (note: Note)
    requires lo <= hi <= |text| && NoteAt(text[lo..hi], at).Some?
    ensures NoteAt(text, lo + at) == Some(note) && IsNoteAt(text, lo + at, note)
    ensures note == Shifted(NoteAt(text[lo..hi], at).value, lo) && note.end <= hi
  {
    hide IsNoteAt, NoteAt;
    var inner := NoteAt(text[lo..hi], at).value;
    note := Shifted(inner, lo);
    NoteExact(text[lo..hi], at, inner);
    NoteInSlice(text, lo, hi, at, inner);
    NoteExact(text, lo + at, note);
  }

  // A note's opening holds one bracket, followed by `cvc`.
  lemma NoteOpenBytes(kind: NoteKind) returns (b: nat)
    ensures var open := NoteOpen(kind);
            b + 3 <= |open| && open[b] == '[' && open[b + 2] == 'v'
            && (forall i :: 0 <= i < |open| ==> open[i] != '~' && open[i] != '\n')
            && (forall i :: b < i < |open| ==> open[i] != '[')
  {
    hide Dec;
    b := if kind.Truncated? then 3 else 0;
    match kind
    case Truncated(n) =>
      DigitsAreClear(Dec(n));
      CountedIsClear(TRUNCATED_OPEN, Dec(n), TRUNCATED_WORD, 3);
    case Withheld =>
    case Omitted(n) =>
      DigitsAreClear(Dec(n));
      CountedIsClear(OMITTED_OPEN, Dec(n), OMITTED_WORD, 0);
  }

  lemma DigitsAreClear(t: Text)
    requires AllDigits(t)
    ensures forall i :: 0 <= i < |t| ==> IsClear(t[i])
  {
  }

  lemma CountedIsClear(open: Text, count: Text, word: Text, b: nat)
    requires b + 3 <= |open| && open[b] == '[' && open[b + 2] == 'v'
    requires (forall i :: 0 <= i < b ==> IsClear(open[i])) && (forall i :: b < i < |open| ==> IsClear(open[i]))
    requires (forall i :: 0 <= i < |count| ==> IsClear(count[i])) && (forall i :: 0 <= i < |word| ==> IsClear(word[i]))
    ensures var all := open + count + word;
            && all[b] == '[' && all[b + 2] == 'v'
            && (forall i :: 0 <= i < |all| ==> all[i] != '~' && all[i] != '\n')
            && (forall i :: b < i < |all| ==> all[i] != '[')
  {
  }

  /** A token that sits in a note does not sit in a marker. */
  lemma NoteIsNoMarker(text: Text, at: nat, note: Note, m: Marker)
    requires IsNoteAt(text, at, note)
    ensures !(IsPrinted(text, m) && m.tokenAt == at)
  {
    OpeningIsNoMarker(text, note.start, at, note.kind, m);
  }

  lemma OpeningIsNoMarker(text: Text, start: nat, at: nat, kind: NoteKind, m: Marker)
    requires start <= at <= |text| && text[start..at] == NoteOpen(kind)
    ensures !(IsPrinted(text, m) && m.tokenAt == at)
  {
    var b := NoteOpenBytes(kind);
    var open := NoteOpen(kind);
    hide NoteOpen;
    forall i | 0 <= i < |open|
      ensures text[start + i] == open[i]
    {
      assert text[start..at][i] == open[i];
    }
    if IsPrinted(text, m) && m.tokenAt == at {
      MarkerBytes(text, m);
      OnlyBracket(text, start + b, m.start, at);
      assert false;
    }
  }

  lemma OnlyBracket(text: Text, p: nat, q: nat, at: nat)
    requires p < at <= |text| && q < at && text[p] == '[' && text[q] == '['
    requires forall i :: p < i < at ==> text[i] != '['
    requires forall i :: q < i < at ==> text[i] != '['
    ensures p == q
  {
  }

  // What a text spells at each byte of `open + token + close`.
  lemma PieceBytes(text: Text, start: nat, open: Text, token: Text, close: Text)
    requires start + |open| + |token| + |close| <= |text|
    requires text[start..start + |open| + |token| + |close|] == open + token + close
    ensures forall i :: 0 <= i < |open| ==> text[start + i] == open[i]
    ensures forall i :: 0 <= i < |token| ==> text[start + |open| + i] == token[i]
    ensures forall i :: 0 <= i < |close| ==> text[start + |open| + |token| + i] == close[i]
    ensures OccursAt(text, token, start + |open|)
  {
    var printed := text[start..start + |open| + |token| + |close|];
    forall i | 0 <= i < |printed|
      ensures text[start + i] == (open + token + close)[i]
    {
      assert text[start + i] == printed[i];
    }
  }

  // What a printed marker puts at each of its bytes.
  lemma MarkerBytes(text: Text, m: Marker)
    requires IsPrinted(text, m)
    ensures m.start + 6 <= m.tokenAt && text[m.start] == '[' && text[m.start + 2] != 'v'
    ensures forall i :: m.start < i < m.tokenAt ==> text[i] != '['
    ensures forall i :: m.start <= i < m.end && i != m.tokenAt ==> text[i] != '~'
    ensures OccursAt(text, m.token, m.tokenAt) && text[m.tokenAt] == '~'
  {
    hide MarkerOpen, MarkerClose, IsToken, NameFits, OccursAt;
    OpenBytes(m.kind, m.name, m.isError);
    TokenBytes(m.token);
    CloseBytes(m.kind);
    OnlyTilde(text, m.start, MarkerOpen(m.kind, m.name, m.isError), m.token, MarkerClose(m.kind));
  }

  lemma CloseBytes(kind: PartKind)
    ensures |MarkerClose(kind)| == 2 && '~' !in MarkerClose(kind)
  {
  }

  // In `open + token + close` the one `~` begins the token, and the one bracket before it begins all.
  lemma OnlyTilde(text: Text, start: nat, open: Text, token: Text, close: Text)
    requires start + |open| + |token| + |close| <= |text|
    requires text[start..start + |open| + |token| + |close|] == open + token + close
    requires |open| >= 6 && open[0] == '[' && forall i :: 1 <= i < |open| ==> IsClear(open[i])
    requires token != "" && token[0] == '~' && (forall i :: 1 <= i < |token| ==> token[i] != '~') && '~' !in close
    ensures text[start] == '[' && text[start + 2] == open[2]
    ensures forall i :: start < i < start + |open| ==> text[i] != '['
    ensures forall i :: start <= i < start + |open| + |token| + |close| && i != start + |open| ==> text[i] != '~'
    ensures OccursAt(text, token, start + |open|) && text[start + |open|] == '~'
  {
    PieceBytes(text, start, open, token, close);
    hide OccursAt;
    assert text[start + 0] == open[0] && text[start + |open| + 0] == token[0];
    forall i | start <= i < start + |open| + |token| + |close| && i != start + |open|
      ensures text[i] != '~' && (start < i < start + |open| ==> text[i] != '[')
    {
      if i < start + |open| {
        assert text[start + (i - start)] == open[i - start];
      } else if i < start + |open| + |token| {
        assert text[start + |open| + (i - start - |open|)] == token[i - start - |open|];
      } else {
        assert text[start + |open| + |token| + (i - start - |open| - |token|)] == close[i - start - |open| - |token|];
      }
    }
  }

  // ---- where tokens sit in a tiled text ----

  lemma {:induction false} PartsAscend(text: Text, v: Verified, i: nat, j: nat)
    requires Tiles(text, v) && i < j < |v.parts|
    ensures v.parts[i].content.end + 2 <= v.parts[j].marker.start
  {
    hide ContentReads, ClosingTiles, IsToken, RenderMarker, NameFits;
    assert PartTiles(text, v, j - 1);
    if i < j - 1 {
      PartsAscend(text, v, i, j - 1);
    }
  }

  datatype Place = InMarker(part: nat) | InContent(part: nat) | InClosing

  ghost predicate IsPlace(text: Text, v: Verified, at: nat, place: Place) {
    match place
    case InMarker(i) => i < |v.parts| && at == MarkerOf(v.parts[i], v.boundary).tokenAt
    case InContent(i) => i < |v.parts| && v.parts[i].content.start <= at && at + BOUNDARY_LEN <= v.parts[i].content.end
    case InClosing => v.omittedParts.Some? && at + BOUNDARY_LEN + 1 == |text|
  }

  lemma TiledStarts(text: Text, v: Verified)
    requires Tiles(text, v)
    ensures IsToken(v.boundary) && |v.parts| > 0 && v.parts[0].marker.start == 0
  {
    hide PartTiles, ClosingTiles, IsToken;
  }

  /** Every occurrence of the boundary is a marker's token, the closing note's, or inside a content. */
  lemma TokenPlace(text: Text, v: Verified, at: nat) returns (place: Place)
    requires Tiles(text, v) && OccursAt(text, v.boundary, at)
    ensures IsPlace(text, v, at, place)
  {
    hide Tiles, IsPlace, IsToken;
    TiledStarts(text, v);
    TokenBytes(v.boundary);
    OccurrenceBytes(text, v.boundary, at);
    var i := |v.parts| - 1;
    while v.parts[i].marker.start > at
      invariant 0 <= i < |v.parts|
      invariant i + 1 < |v.parts| ==> at < v.parts[i + 1].marker.start
      decreases i
    {
      i := i - 1;
    }
    place := PlaceFrom(text, v, at, i);
  }

  // The place of a `~` followed by 20 bytes on its line, right of the start of part `i` and left of the next one.
  lemma PlaceFrom(text: Text, v: Verified, at: nat, i: nat) returns (place: Place)
    requires Tiles(text, v) && at + 21 <= |text| && text[at] == '~'
    requires forall j :: at <= j < at + 21 ==> text[j] != '\n'
    requires i < |v.parts| && v.parts[i].marker.start <= at
    requires i + 1 < |v.parts| ==> at < v.parts[i + 1].marker.start
    ensures IsPlace(text, v, at, place)
  {
    hide IsToken, ContentReads, RenderMarker, NameFits, MarkerOpen, ClosingTiles;
    var p := v.parts[i];
    assert PartTiles(text, v, i);
    MarkerBytes(text, MarkerOf(p, v.boundary));
    hide IsPrinted;
    if at < p.marker.end {
      place := InMarker(i);
    } else {
      if i + 1 < |v.parts| {
        SeparatorBytes(text, p.content.end);
      }
      hide PartTiles;
      place := PlaceAfter(text, v, at, i);
    }
  }

  lemma PlaceAfter(text: Text, v: Verified, at: nat, i: nat) returns (place: Place)
    requires Tiles(text, v) && at + 21 <= |text| && text[at] == '~'
    requires forall j :: at <= j < at + 21 ==> text[j] != '\n'
    requires i < |v.parts| && v.parts[i].content.start <= at && v.parts[i].content.end <= |text|
    requires i + 1 < |v.parts| ==> at < v.parts[i].content.end + 2 <= |text|
                                   && text[v.parts[i].content.end] == '\n' && text[v.parts[i].content.end + 1] == '\n'
    ensures IsPlace(text, v, at, place)
  {
    hide PartTiles, IsToken, RenderNote;
    place := InContent(i);
    if i + 1 == |v.parts| && v.omittedParts.Some? {
      ClosingBytes(text, v.boundary, v.parts[i].content.end, v.omittedParts.value);
      hide ClosingTiles, IsNoteAt;
      if at >= v.parts[i].content.end {
        place := InClosing;
      }
    }
  }

  lemma OccurrenceBytes(text: Text, w: Text, at: nat)
    requires OccursAt(text, w, at)
    ensures forall i :: at <= i < at + |w| ==> text[i] == w[i - at]
  {
    forall i | at <= i < at + |w|
      ensures text[i] == w[i - at]
    {
      assert text[i] == text[at..at + |w|][i - at];
    }
  }

  lemma SeparatorBytes(text: Text, at: nat)
    requires OccursAt(text, SEPARATOR, at)
    ensures at + 2 <= |text| && text[at] == '\n' && text[at + 1] == '\n'
  {
    OccurrenceBytes(text, SEPARATOR, at);
  }

  // The closing note: its separator, its one `~`, and the note the reader finds.
  lemma ClosingBytes(text: Text, token: Text, end: nat, n: nat)
    requires IsToken(token) && ClosingTiles(text, token, end, Some(n))
    ensures var at := |text| - BOUNDARY_LEN - 1;
            && end + 2 < at && OccursAt(text, SEPARATOR, end)
            && OccursAt(text, token, at)
            && IsNoteAt(text, at, Note(Omitted(n), end + 2, |text|))
            && text[end] == '\n' && forall i :: end <= i < |text| && i != at ==> text[i] != '~'
  {
    var open := NoteOpen(Omitted(n));
    var b := NoteOpenBytes(Omitted(n));
    TokenBytes(token);
    hide NoteOpen, IsToken;
    var tail := text[end..];
    assert tail == SEPARATOR + (open + token + "]");
    var at := |text| - BOUNDARY_LEN - 1;
    SliceOfSlice(text, end, |text|, 0, 2);
    SliceOfSlice(text, end, |text|, 2, |open| + 2);
    SliceOfSlice(text, end, |text|, |open| + 2, |open| + 2 + 21);
    assert tail[2..|open| + 2] == open && tail[|open| + 2..|open| + 23] == token && tail[|open| + 23] == ']';
    forall i | end <= i < |text|
      ensures text[i] == tail[i - end]
    {
    }
  }

  // ---- every marker of the boundary is a part's ----

  lemma ContentNote(content: Text, token: Text, at: nat)
    requires IsToken(token) && ContentReads(content, token) && OccursAt(content, token, at)
    ensures NoteAt(content, at).Some?
    ensures NoteAt(content, at).value.kind.Truncated?
         || NoteAt(content, at) == Some(Note(Withheld, 0, |content|))
  {
    if content == RenderNote(Withheld, token) {
      TokenBytes(token);
      OccurrenceBytes(content, token, at);
      WithheldBytes(content, token);
      NoteExact(content, at, Note(Withheld, 0, |content|));
    }
  }

  lemma WithheldBytes(content: Text, token: Text)
    requires IsToken(token) && content == RenderNote(Withheld, token)
    ensures var at := |WITHHELD_OPEN|;
            && OccursAt(content, token, at) && IsNoteAt(content, at, Note(Withheld, 0, |content|))
            && forall i :: 0 <= i < |content| && i != at ==> content[i] != '~'
  {
    TokenBytes(token);
    assert content[|WITHHELD_OPEN|..|WITHHELD_OPEN| + 21] == token;
  }

  /** The note an occurrence inside content `i` belongs to, as the reader of the whole text finds it. */
  lemma NoteInContent(text: Text, v: Verified, i: nat, at: nat) returns (note: Note)
    requires Tiles(text, v) && OccursAt(text, v.boundary, at) && IsPlace(text, v, at, InContent(i))
    ensures NoteAt(text, at) == Some(note) && IsNoteAt(text, at, note)
    ensures var p := v.parts[i].content; p.start <= note.start && note.end <= p.end
    ensures note.kind.Truncated? || (note.kind == Withheld && v.parts[i].content == Span(note.start, note.end))
  {
    hide IsNoteAt, NoteAt, ContentReads, IsPrinted, ClosingTiles;
    assert PartTiles(text, v, i) && |v.boundary| == BOUNDARY_LEN;
    hide IsToken;
    var lo, hi := v.parts[i].content.start, v.parts[i].content.end;
    var content := text[lo..hi];
    assert ContentReads(content, v.boundary);
    hide PartTiles;
    OccursInSlice(text, lo, hi, v.boundary, at - lo);
    ContentNote(content, v.boundary, at - lo);
    note := NoteOfSlice(text, lo, hi, at - lo);
  }

  lemma MarkersAreParts(text: Text, v: Verified, m: Marker) returns (i: nat)
    requires Tiles(text, v) && IsPrinted(text, m) && m.token == v.boundary
    ensures i < |v.parts| && m == MarkerOf(v.parts[i], v.boundary)
  {
    MarkerBytes(text, m);
    var place := TokenPlace(text, v, m.tokenAt);
    if place.InContent? {
      var note := NoteInContent(text, v, place.part, m.tokenAt);
      NoteIsNoMarker(text, m.tokenAt, note, m);
      assert false;
    }
    assert place.InMarker?;
    i := place.part;
    assert PartTiles(text, v, i);
    var own := MarkerOf(v.parts[i], v.boundary);
    MarkerBytes(text, own);
    OnlyBracket(text, m.start, own.start, m.tokenAt);
    MarkerExact(text, m);
    MarkerExact(text, own);
  }
}
