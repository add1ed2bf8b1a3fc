/** Exactly which rendered stimuli read back, and how the others read. */
module StimulusExact {
  import opened Bytes
  import opened StimulusFormat
  import opened StimulusNotes
  import opened StimulusGrammar
  import opened StimulusReader
  import opened StimulusVerify
  import opened StimulusText
  import opened StimulusCuts
  import opened StimulusWriter
  import opened StimulusRoundTrip

  // ---- no boundary was free ----

  lemma OccursInConcat(before: Text, t: Text, rest: Text, w: Text)
    requires Occurs(t, w)
    ensures Occurs(before + t + rest, w)
  {
    var at: nat :| OccursAt(t, w, at);
    var all := before + t + rest;
    assert all[|before| + at..|before| + at + |w|] == t[at..at + |w|];
    assert OccursAt(all, w, |before| + at);
  }

  lemma OccursInPlain(content: Content, token: Text)
    requires match content
             case Whole(text) => Occurs(text, token)
             case Cut(head, tail, _) => Occurs(head, token) || Occurs(tail, token)
             case WithheldContent => false
    requires IsToken(token)
    ensures Occurs(PlainContent(content), token)
  {
    if content.Cut? {
      OccursInAround(content.head, TRUNCATED_OPEN + Dec(content.removed) + " bytes]", content.tail, token);
    }
  }

  lemma OccursInAround(head: Text, note: Text, tail: Text, token: Text)
    requires Occurs(head, token) || Occurs(tail, token)
    requires IsToken(token)
    ensures Occurs(Around(head, note, tail), token)
  {
    hide IsToken, Occurs;
    if Occurs(head, token) {
      NotInEmpty(token, head);
      var rest := if tail == "" then "\n" + note else "\n" + note + "\n" + tail;
      OccursInConcat("", head, rest, token);
      assert "" + head + rest == Around(head, note, tail);
    } else {
      NotInEmpty(token, tail);
      var before := (if head == "" then "" else head + "\n") + note + "\n";
      OccursInConcat(before, tail, "", token);
      assert before + tail + "" == Around(head, note, tail);
    }
  }

  lemma NotInEmpty(token: Text, text: Text)
    requires IsToken(token) && Occurs(text, token)
    ensures text != ""
  {
  }

  lemma {:induction false} OccursInPlains(contents: seq<Content>, i: nat, token: Text)
    requires i < |contents| && Occurs(PlainContent(contents[i]), token)
    ensures Occurs(PlainContents(contents), token)
  {
    hide Occurs, PlainContent;
    var n := |contents| - 1;
    var before := PlainContents(contents[..n]) + SEPARATOR;
    if i == n {
      OccursInConcat(before, PlainContent(contents[n]), "", token);
      assert before + PlainContent(contents[n]) + "" == PlainContents(contents);
    } else {
      OccursInPlains(contents[..n], i, token);
      OccursInConcat("", PlainContents(contents[..n]), SEPARATOR + PlainContent(contents[n]), token);
      assert "" + PlainContents(contents[..n]) + (SEPARATOR + PlainContent(contents[n])) == PlainContents(contents);
    }
  }

  lemma {:induction false} PlainOpens(contents: seq<Content>)
    ensures UNDIVIDED_NOTE <= PlainContents(contents)
  {
    if |contents| > 0 {
      PlainOpens(contents[..|contents| - 1]);
    }
  }

  lemma NameHasNoToken(name: Text, token: Text)
    requires IsValidName(name) && IsToken(token)
    ensures !Occurs(name, token)
  {
    TokenBytes(token);
    forall at: nat
      ensures !OccursAt(name, token, at)
    {
      if OccursAt(name, token, at) {
        OccurrenceBytes(name, token, at);
      }
    }
  }

  lemma OccursIsContained(text: Text, token: Text)
    requires IsToken(token) && Occurs(text, token)
    ensures ContainsToken(text)
  {
    var at: nat :| OccursAt(text, token, at);
    assert TokenAt(text, at);
  }

  /** When contents hold all 64 candidates nothing is marked, and the text reads undivided, never as version 1. */
  lemma UnmarkedReadsUndivided(hash: Hash, id: Text, shown: seq<Prepared>, contents: seq<Content>, omitted: nat)
    requires WellMade(shown, contents)
    requires Marked(hash, id, shown, contents, omitted).candidate.None?
    ensures ReadOf(hash, id, Marked(hash, id, shown, contents, omitted).text) == Undivided
  {
    UnmarkedIs(hash, id, shown, contents, omitted);
    hide Marked, FreeCandidate, PlainStimulus, Boundary, IsToken, ReadOf, IsPresent;
    PlainContains(shown, contents, omitted, Boundary(hash, id, ShapeOf(PreparedKinds(shown)), 0));
    NoMarkerOpens(PlainStimulus(contents, omitted));
    NothingTiles(hash, id, PlainStimulus(contents, omitted));
  }

  lemma PlainContains(shown: seq<Prepared>, contents: seq<Content>, omitted: nat, token: Text)
    requires WellMade(shown, contents) && IsToken(token) && IsPresent(shown, contents, token)
    ensures var text := PlainStimulus(contents, omitted);
            ContainsToken(text) && |text| > 2 && text[2] == 'v'
  {
    hide PlainContents, PlainContent, IsToken;
    var i :| 0 <= i < |shown| && TokenIn(shown[i], contents[i], token);
    assert shown[i] in shown;
    if shown[i].name.Some? {
      NameHasNoToken(shown[i].name.value, token);
    }
    hide Occurs, ContainsToken;
    OccursInPlain(contents[i], token);
    OccursInPlains(contents, i, token);
    PlainOpens(contents);
    var text, plain := PlainStimulus(contents, omitted), PlainContents(contents);
    assert text[2] == plain[2] == UNDIVIDED_NOTE[2];
    var closing := text[|plain|..];
    assert text == "" + plain + closing;
    OccursInConcat("", plain, closing, token);
    OccursIsContained(text, token);
  }

  lemma UnmarkedIs(hash: Hash, id: Text, shown: seq<Prepared>, contents: seq<Content>, omitted: nat)
    requires |contents| == |shown| && Marked(hash, id, shown, contents, omitted).candidate.None?
    ensures Marked(hash, id, shown, contents, omitted).text == PlainStimulus(contents, omitted)
    ensures IsPresent(shown, contents, Boundary(hash, id, ShapeOf(PreparedKinds(shown)), 0))
  {
  }

  lemma NoMarkerOpens(text: Text)
    requires |text| > 2 && text[2] == 'v'
    ensures MarkerAt(text, 0).None?
  {
    TakesCandidates(text, "", 0, 0);
    hide MarkerAt;
    if MarkerAt(text, 0).Some? {
      MarkerBytes(text, MarkerAt(text, 0).value);
    }
  }

  lemma NothingTiles(hash: Hash, id: Text, text: Text)
    requires ContainsToken(text)
    requires MarkerAt(text, 0).None? || forall v :: !Tiles(text, v)
    ensures ReadOf(hash, id, text) == Undivided
  {
    NoStimulusHasNoToken();
    hide Tiles, MarkerAt, IsCandidate, ContainsToken;
    forall v
      ensures !Grammar(hash, id, text, v)
    {
      if Tiles(text, v) {
        FirstOfTiled(text, v);
      }
    }
  }

  // ---- a count the reader does not accept ----

  /** A count of more than 18 digits: the reader finds no note around its token. */
  lemma OverlongNote(text: Text, start: nat, at: nat, kind: NoteKind)
    requires start <= at <= |text| && text[start..at] == NoteOpen(kind) && !CountReads(kind) && CountOf(kind) > 0
    ensures NoteAt(text, at).None?
  {
    if NoteAt(text, at).Some? {
      var note := NoteAt(text, at).value;
      NoteExact(text, at, note);
      hide NoteAt;
      var before := text[..at];
      NoteEnds(text, start, at, kind);
      NoteEnds(text, note.start, at, note.kind);
      OpeningsDiffer(before);
      OverlongRun(text, start, at, kind);
      CountRun(text, note.start, at, note.kind);
    }
  }

  function CountOf(kind: NoteKind): nat {
    match kind
    case Truncated(n) => n
    case Withheld => 0
    case Omitted(n) => n
  }

  function WordOf(kind: NoteKind): Text {
    match kind
    case Truncated(_) => TRUNCATED_WORD
    case Withheld => WITHHELD_OPEN
    case Omitted(_) => OMITTED_WORD
  }

  lemma NoteEnds(text: Text, start: nat, at: nat, kind: NoteKind)
    requires start <= at <= |text| && text[start..at] == NoteOpen(kind)
    ensures EndsWith(text[..at], WordOf(kind))
  {
    hide Dec;
    var before, word := text[..at], WordOf(kind);
    var pre := NoteOpen(kind)[..|NoteOpen(kind)| - |word|];
    assert before[start..] == NoteOpen(kind) == pre + word;
    EndsWithTail(before, start, pre, word);
  }

  // The 19 bytes before the word of an overlong count are digits.
  lemma OverlongRun(text: Text, start: nat, at: nat, kind: NoteKind)
    requires start <= at <= |text| && text[start..at] == NoteOpen(kind) && !CountReads(kind) && CountOf(kind) > 0
    ensures at >= 26 && forall i :: at - 26 <= i < at - 7 ==> IsDigit(text[i])
  {
    var lead := OverlongDigits(kind);
    var open := NoteOpen(kind);
    hide NoteOpen, CountReads;
    forall i | at - 26 <= i < at - 7
      ensures IsDigit(text[i])
    {
      assert text[i] == text[start..at][i - start];
    }
  }

  lemma OverlongDigits(kind: NoteKind) returns (lead: nat)
    requires !CountReads(kind) && CountOf(kind) > 0
    ensures lead + 26 <= |NoteOpen(kind)|
    ensures forall i :: lead <= i < |NoteOpen(kind)| - 7 ==> IsDigit(NoteOpen(kind)[i])
  {
    hide Dec, IsDigit;
    var digits := Dec(CountOf(kind));
    DecLength(CountOf(kind), 18);
    CountLimitDigits();
    lead := |NoteOpen(kind)| - 7 - |digits|;
    match kind
    case Truncated(_) => DigitsInside(TRUNCATED_OPEN, digits, TRUNCATED_WORD);
    case Omitted(_) => DigitsInside(OMITTED_OPEN, digits, OMITTED_WORD);
  }

  lemma DigitsInside(open: Text, digits: Text, word: Text)
    requires AllDigits(digits)
    ensures var all := open + digits + word;
            forall i :: |open| <= i < |open| + |digits| ==> IsDigit(all[i])
  {
    hide IsDigit;
  }

  // A count of at most 18 digits is preceded by a space within those 19 bytes.
  lemma CountRun(text: Text, start: nat, at: nat, kind: NoteKind)
    requires start <= at <= |text| && text[start..at] == NoteOpen(kind) && CountReads(kind) && !kind.Withheld?
    ensures exists i: nat :: i < at && at - 26 <= i < at - 7 && !IsDigit(text[i])
  {
    var n := CountOf(kind);
    DecLength(n, 18);
    CountLimitDigits();
    hide Dec;
    var open := NoteOpen(kind);
    var lead := |open| - 7 - |Dec(n)|;
    assert open[lead - 1] == ' ';
    assert text[start + lead - 1] == text[start..at][lead - 1];
  }

  /** A text that holds an overlong note with its first marker's token tiles in no way. */
  lemma OverlongDoesNotTile(text: Text, first: Marker, start: nat, at: nat, kind: NoteKind)
    requires MarkerAt(text, 0) == Some(first) && OccursAt(text, first.token, at)
    requires start <= at <= |text| && text[start..at] == NoteOpen(kind) && !CountReads(kind) && CountOf(kind) > 0
    ensures forall v :: !Tiles(text, v)
  {
    OverlongNote(text, start, at, kind);
    hide NoteAt, MarkerAt, PartTiles, ClosingTiles, IsToken, NoteOpen, CountReads;
    forall v
      ensures !Tiles(text, v)
    {
      if Tiles(text, v) {
        FirstMarker(text, v, first);
        if at in TokenPlaces(MarkersOf(v)) {
          var m :| m in MarkersOf(v) && m.tokenAt == at;
          var i :| 0 <= i < |v.parts| && MarkersOf(v)[i] == m;
          OpeningIsNoMarker(text, start, at, kind, m);
          assert PartTiles(text, v, i);
          PartIsPrinted(text, v, i);
        } else {
          var note := LooseIsNote(text, v, at);
        }
      }
    }
  }

  lemma PartIsPrinted(text: Text, v: Verified, i: nat)
    requires i < |v.parts| && PartTiles(text, v, i)
    ensures IsPrinted(text, MarkerOf(v.parts[i], v.boundary))
  {
  }

  // ---- the first marker of a printed stimulus ----

  lemma {:induction false} PrintOpens(items: seq<Item>, token: Text)
    requires |items| > 0
    ensures ItemMarker(items[0], token) <= PrintItems(items, token)
  {
    hide ItemMarker;
    if |items| > 1 {
      PrintOpens(items[..|items| - 1], token);
    } else {
      assert items[..0] == [] && PrintItems([], token) == "";
    }
  }

  lemma FirstPrinted(items: seq<Item>, token: Text, rest: Text) returns (first: Marker)
    requires |items| > 0 && IsToken(token) && NameFits(items[0].kind, items[0].name, items[0].isError)
    ensures MarkerAt(PrintItems(items, token) + rest, 0) == Some(first) && first.token == token
  {
    PrintOpens(items, token);
    var item, text := items[0], PrintItems(items, token) + rest;
    var opening := |MarkerOpen(item.kind, item.name, item.isError)|;
    first := Marker(item.kind, item.name, item.isError, token, 0, opening, opening + BOUNDARY_LEN + 2);
    MarkerLength(item.kind, item.name, item.isError, token);
    hide PrintItems, MarkerOpen, IsToken, NameFits, MarkerAt;
    assert text[0..first.end] == ItemMarker(item, token);
    MarkerExact(text, first);
  }

  // ---- exactly when a rendered stimulus reads back ----

  /** Where an overlong note of a written content sits. */
  lemma OverlongContent(items: seq<Item>, i: nat, head: Text, tail: Text, removed: nat, token: Text, rest: Text)
    requires IsToken(token) && i < |items| && removed >= COUNT_LIMIT
    requires items[i].content == Around(head, RenderNote(Truncated(removed), token), tail)
    requires NameFits(items[0].kind, items[0].name, items[0].isError)
    ensures forall v :: !Tiles(PrintItems(items, token) + rest, v)
  {
    var text := PrintItems(items, token) + rest;
    ItemsFound(items, token, rest);
    var first := FirstPrinted(items, token, rest);
    hide PrintItems, Layout, MarkerAt, IsToken, NameFits, Tiles;
    var c := Layout(items, token)[i].content;
    assert ItemsAt(text, Layout(items, token))[i] == items[i];
    hide ItemsAt, PartsInside;
    OverlongInSlice(text, first, c.start, c.end, head, tail, removed, token);
  }

  lemma OverlongInSlice(text: Text, first: Marker, lo: nat, hi: nat, head: Text, tail: Text, removed: nat, token: Text)
    requires MarkerAt(text, 0) == Some(first) && first.token == token && removed >= COUNT_LIMIT
    requires lo <= hi <= |text| && text[lo..hi] == Around(head, RenderNote(Truncated(removed), token), tail)
    ensures forall v :: !Tiles(text, v)
  {
    hide Around, RenderNote, NoteOpen, MarkerAt, CountReads, Tiles;
    var kind := Truncated(removed);
    var note, open := RenderNote(kind, token), NoteOpen(kind);
    NoteParts(kind, token);
    OverlongKind(kind);
    var start := NoteInAround(text, lo, hi, head, note, tail);
    NoteSlices(text, start, note, open, token);
    OverlongDoesNotTile(text, first, start, start + |open|, kind);
  }

  lemma NoteInAround(text: Text, lo: nat, hi: nat, head: Text, note: Text, tail: Text) returns (start: nat)
    requires lo <= hi <= |text| && text[lo..hi] == Around(head, note, tail)
    ensures start + |note| <= |text| && text[start..start + |note|] == note
  {
    AroundSlices(head, note, tail);
    hide Around;
    var offset := if head == "" then 0 else |head| + 1;
    SliceOfSlice(text, lo, hi, offset, offset + |note|);
    start := lo + offset;
  }

  lemma NoteParts(kind: NoteKind, token: Text)
    ensures var note, open := RenderNote(kind, token), NoteOpen(kind);
            && |note| == |open| + |token| + 1
            && note[0..|open|] == open && note[|open|..|open| + |token|] == token
  {
  }

  lemma OverlongKind(kind: NoteKind)
    requires CountOf(kind) >= COUNT_LIMIT
    ensures !CountReads(kind) && CountOf(kind) > 0
  {
  }

  lemma NoteSlices(text: Text, start: nat, note: Text, open: Text, token: Text)
    requires start + |note| <= |text| && text[start..start + |note|] == note
    requires |open| + |token| <= |note| && note[0..|open|] == open && note[|open|..|open| + |token|] == token
    ensures text[start..start + |open|] == open && OccursAt(text, token, start + |open|)
  {
    SliceOfSlice(text, start, start + |note|, 0, |open|);
    SliceOfSlice(text, start, start + |note|, |open|, |open| + |token|);
  }

  lemma ClosingSlice(printed: Text, omitted: nat, token: Text)
    requires omitted > 0
    ensures var note, start, text := RenderNote(Omitted(omitted), token), |printed| + 2, printed + PrintClosing(omitted, token);
            start + |note| <= |text| && text[start..start + |note|] == note
  {
    hide RenderNote;
  }

  lemma OverlongClosing(items: seq<Item>, omitted: nat, token: Text)
    requires |items| > 0 && IsToken(token) && omitted >= COUNT_LIMIT
    requires NameFits(items[0].kind, items[0].name, items[0].isError)
    ensures forall v :: !Tiles(PrintStimulus(items, omitted, token), v)
  {
    hide RenderNote, NoteOpen, PrintItems, PrintClosing, MarkerAt, IsToken, NameFits, CountReads, Tiles;
    var kind := Omitted(omitted);
    var note, open := RenderNote(kind, token), NoteOpen(kind);
    var first := FirstPrinted(items, token, PrintClosing(omitted, token));
    NoteParts(kind, token);
    var text, start := PrintStimulus(items, omitted, token), |PrintItems(items, token)| + 2;
    ClosingSlice(PrintItems(items, token), omitted, token);
    NoteSlices(text, start, note, open, token);
    OverlongKind(kind);
    OverlongDoesNotTile(text, first, start, start + |open|, kind);
  }

  lemma PrintedHasToken(items: seq<Item>, token: Text, rest: Text)
    requires |items| > 0 && IsToken(token) && NameFits(items[0].kind, items[0].name, items[0].isError)
    ensures ContainsToken(PrintItems(items, token) + rest)
  {
    hide MarkerAt;
    var first := FirstPrinted(items, token, rest);
    FirstToken(PrintItems(items, token) + rest, first);
  }

  lemma OverlongReadsUndivided(hash: Hash, id: Text, shown: seq<Prepared>, contents: seq<Content>, omitted: nat)
    requires WellMade(shown, contents) && !CountsRead(contents, omitted)
    requires Marked(hash, id, shown, contents, omitted).candidate.Some?
    ensures ReadOf(hash, id, Marked(hash, id, shown, contents, omitted).text) == Undivided
  {
    var r := Marked(hash, id, shown, contents, omitted);
    var token := Boundary(hash, id, ShapeOf(PreparedKinds(shown)), r.candidate.value);
    var items := ItemsOf(shown, contents, token);
    MarkedIs(hash, id, shown, contents, omitted);
    assert shown[0] in shown && items[0] == ItemOf(shown[0], contents[0], token);
    hide Marked, Boundary, IsToken, PrintItems, Tiles, NameFits, RenderNote, Around, PrintClosing;
    PrintedHasToken(items, token, PrintClosing(omitted, token));
    if omitted >= COUNT_LIMIT {
      OverlongClosing(items, omitted, token);
    } else {
      var c :| c in contents && c.Cut? && c.removed >= COUNT_LIMIT;
      var i :| 0 <= i < |contents| && contents[i] == c;
      OverlongContent(items, i, c.head, c.tail, c.removed, token, PrintClosing(omitted, token));
    }
    NothingTiles(hash, id, r.text);
  }

  /**
   * A rendered stimulus reads back exactly when a boundary was free and no note carries a count of more than 18
   * digits; otherwise its readers show it undivided, and a stimulus of no parts reads as version 1 always did.
   */
  lemma ReadsBackExactlyWhen(hash: Hash, id: Text, parts: seq<StimulusPart>, scrub: Scrub, finder: Finder)
    requires FindsMarkers(finder)
    ensures var r := RenderOf(hash, id, parts, scrub, finder);
            var readable := r.candidate.Some? && CountsRead(KeptContents(parts, scrub, finder), r.omittedParts);
            && (ReadOf(hash, id, r.text).ReadsAs? <==> readable)
            && (|parts| > 0 && !readable ==> ReadOf(hash, id, r.text) == Undivided)
            && (|parts| == 0 ==> ReadOf(hash, id, r.text) == Legacy)
  {
    hide FindsMarkers, ReadOf, Marked, WellMade, CountsRead, KeptContents, KeptParts, RenderOf;
    if |parts| == 0 {
      RenderOfNothing(hash, id, scrub, finder);
    } else {
      KeptAreWellMade(parts, scrub, finder);
      RenderIsMarked(hash, id, parts, scrub, finder);
      OmittedIs(hash, id, KeptParts(parts, scrub), KeptContents(parts, scrub, finder), |parts| - |KeptParts(parts, scrub)|);
      KeptRead(hash, id, KeptParts(parts, scrub), KeptContents(parts, scrub, finder), |parts| - |KeptParts(parts, scrub)|);
    }
  }

  /** For fewer than 10^18 parts, whose scrubbed texts are shorter than 10^18 bytes, it is enough that
      a boundary was free: the stimulus reads back as the kept parts exactly then. */
  lemma FreeBoundaryIsEnough(hash: Hash, id: Text, parts: seq<StimulusPart>, scrub: Scrub, finder: Finder)
    requires FindsMarkers(finder) && |parts| > 0 && Below(parts, scrub, COUNT_LIMIT)
    ensures var r := RenderOf(hash, id, parts, scrub, finder);
            && (ReadOf(hash, id, r.text).ReadsAs? <==> r.candidate.Some?)
            && (r.candidate.Some? ==> ReadsBack(hash, id, r.text, KeptParts(parts, scrub), KeptContents(parts, scrub, finder),
                                                |parts| - |KeptParts(parts, scrub)|))
  {
    hide FindsMarkers, ReadOf, Marked, KeptContents, KeptParts, RenderOf, ReadsBack, IsKept;
    CutsAreBelow(parts, scrub, finder, COUNT_LIMIT);
    RenderIsMarked(hash, id, parts, scrub, finder);
    OmittedIs(hash, id, KeptParts(parts, scrub), KeptContents(parts, scrub, finder), |parts| - |KeptParts(parts, scrub)|);
    ReadsBackExactlyWhen(hash, id, parts, scrub, finder);
    if RenderOf(hash, id, parts, scrub, finder).candidate.Some? { RoundTrip(hash, id, parts, scrub, finder); }
  }

  /** The inputs that fail: with 10^18 parts left out the count is not read, whatever the parts are. */
  lemma TooManyPartsReadUndivided(hash: Hash, id: Text, parts: seq<StimulusPart>, scrub: Scrub, finder: Finder)
    requires FindsMarkers(finder) && |parts| >= COUNT_LIMIT + MAX_PARTS
    ensures ReadOf(hash, id, RenderOf(hash, id, parts, scrub, finder).text) == Undivided
  {
    hide FindsMarkers, ReadOf, Marked, KeptContents, KeptParts, RenderOf, CountsRead;
    RenderIsMarked(hash, id, parts, scrub, finder);
    OmittedIs(hash, id, KeptParts(parts, scrub), KeptContents(parts, scrub, finder), |parts| - |KeptParts(parts, scrub)|);
    FewAreKept(parts, scrub);
    LargeCountIsNotRead(KeptContents(parts, scrub, finder), |parts| - |KeptParts(parts, scrub)|);
    ReadsBackExactlyWhen(hash, id, parts, scrub, finder);
  }

  lemma LargeCountIsNotRead(contents: seq<Content>, omitted: nat)
    requires omitted >= COUNT_LIMIT
    ensures !CountsRead(contents, omitted)
  {
  }

  lemma FewAreKept(parts: seq<StimulusPart>, scrub: Scrub)
    ensures |KeptParts(parts, scrub)| <= MAX_PARTS
  {
  }

  lemma OmittedIs(hash: Hash, id: Text, shown: seq<Prepared>, contents: seq<Content>, omitted: nat)
    requires |contents| == |shown|
    ensures Marked(hash, id, shown, contents, omitted).omittedParts == omitted
  {
  }

  lemma RenderOfNothing(hash: Hash, id: Text, scrub: Scrub, finder: Finder)
    requires FindsMarkers(finder)
    ensures var r := RenderOf(hash, id, [], scrub, finder);
            r.candidate.None? && ReadOf(hash, id, r.text) == Legacy
  {
  }

  lemma KeptRead(hash: Hash, id: Text, shown: seq<Prepared>, contents: seq<Content>, omitted: nat)
    requires WellMade(shown, contents) && |contents| == |shown|
    ensures var r := Marked(hash, id, shown, contents, omitted);
            if r.candidate.Some? && CountsRead(contents, omitted) then ReadOf(hash, id, r.text).ReadsAs?
            else ReadOf(hash, id, r.text) == Undivided
  {
    hide WellMade, CountsRead, Marked, ReadOf;
    var r := Marked(hash, id, shown, contents, omitted);
    if r.candidate.None? {
      UnmarkedReadsUndivided(hash, id, shown, contents, omitted);
    } else if CountsRead(contents, omitted) {
      MarkedReads(hash, id, shown, contents, omitted);
    } else {
      OverlongReadsUndivided(hash, id, shown, contents, omitted);
    }
  }

  // ---- what is marked, and with what ----

  /** The texts of a part a boundary is looked for in. */
  ghost function TextsOf(item: Prepared, content: Content): set<Text> {
    (match item.name case Some(name) => {name} case None => {})
    + match content
      case Whole(text) => {text}
      case Cut(head, tail, _) => {head, tail}
      case WithheldContent => {}
  }

  /** Boundary candidate `c` occurs in the name or the content of some shown part. */
  ghost predicate IsTaken(hash: Hash, id: Text, shown: seq<Prepared>, contents: seq<Content>, c: nat)
    requires |contents| == |shown|
  {
    var token := Boundary(hash, id, ShapeOf(PreparedKinds(shown)), c);
    exists i, t :: 0 <= i < |shown| && t in TextsOf(shown[i], contents[i]) && Occurs(t, token)
  }

  lemma TakenIsPresent(hash: Hash, id: Text, shown: seq<Prepared>, contents: seq<Content>, c: nat)
    requires |contents| == |shown|
    ensures IsTaken(hash, id, shown, contents, c)
       <==> IsPresent(shown, contents, Boundary(hash, id, ShapeOf(PreparedKinds(shown)), c))
  {
    hide Boundary, ShapeOf, Occurs;
    var token := Boundary(hash, id, ShapeOf(PreparedKinds(shown)), c);
    if IsPresent(shown, contents, token) {
      var i :| 0 <= i < |shown| && TokenIn(shown[i], contents[i], token);
      var t := PresentText(shown[i], contents[i], token);
    }
  }

  lemma PresentText(item: Prepared, content: Content, token: Text) returns (t: Text)
    requires TokenIn(item, content, token)
    ensures t in TextsOf(item, content) && Occurs(t, token)
  {
    hide Occurs;
    if item.name.Some? && Occurs(item.name.value, token) {
      t := item.name.value;
    } else {
      match content
      case Whole(text) => t := text;
      case Cut(head, tail, _) => t := if Occurs(head, token) then head else tail;
    }
  }

  /** No parts are written as the one text that says so. */
  lemma NoPartsAreSaid(hash: Hash, id: Text, scrub: Scrub, finder: Finder)
    requires FindsMarkers(finder)
    ensures RenderOf(hash, id, [], scrub, finder) == Rendered("[no stimulus recorded]", None, 0, 0)
  {
  }

  /** The boundary is the first of the 64 candidates that occurs in no name and no content; the parts go unmarked exactly
      when all of them do. */
  lemma FirstFreeMarks(hash: Hash, id: Text, shown: seq<Prepared>, contents: seq<Content>, omitted: nat)
    requires |contents| == |shown|
    ensures var r := Marked(hash, id, shown, contents, omitted);
            && r.keptParts == |shown| && r.omittedParts == omitted
            && (r.candidate.None? <==> forall c: nat :: c < 64 ==> IsTaken(hash, id, shown, contents, c))
            && forall c: nat :: r.candidate == Some(c) <==> IsFirstFree(hash, id, shown, contents, c)
  {
    hide IsPresent, IsTaken, Boundary, ShapeOf, Marked, FreeCandidate;
    var free := Marked(hash, id, shown, contents, omitted).candidate;
    MarkedCandidate(hash, id, shown, contents, omitted);
    forall c: nat | c < 64
      ensures IsTaken(hash, id, shown, contents, c)
         <==> IsPresent(shown, contents, Boundary(hash, id, ShapeOf(PreparedKinds(shown)), c))
    {
      TakenIsPresent(hash, id, shown, contents, c);
    }
    if free.Some? {
      assert IsFirstFree(hash, id, shown, contents, free.value);
      forall c: nat | IsFirstFree(hash, id, shown, contents, c) ensures c == free.value {
        OneFirstFree(hash, id, shown, contents, c, free.value);
      }
    }
  }

  ghost predicate IsFirstFree(hash: Hash, id: Text, shown: seq<Prepared>, contents: seq<Content>, c: nat)
    requires |contents| == |shown|
  {
    c < 64 && !IsTaken(hash, id, shown, contents, c) && forall d: nat :: d < c ==> IsTaken(hash, id, shown, contents, d)
  }

  lemma OneFirstFree(hash: Hash, id: Text, shown: seq<Prepared>, contents: seq<Content>, c: nat, d: nat)
    requires |contents| == |shown|
    requires IsFirstFree(hash, id, shown, contents, c) && IsFirstFree(hash, id, shown, contents, d)
    ensures c == d
  {
    hide IsTaken;
  }

  lemma MarkedCandidate(hash: Hash, id: Text, shown: seq<Prepared>, contents: seq<Content>, omitted: nat)
    requires |contents| == |shown|
    ensures Marked(hash, id, shown, contents, omitted).keptParts == |shown|
    ensures Marked(hash, id, shown, contents, omitted).omittedParts == omitted
    ensures Marked(hash, id, shown, contents, omitted).candidate
         == FreeCandidate(hash, id, ShapeOf(PreparedKinds(shown)), shown, contents, 0)
  {
    hide PrintStimulus, PlainStimulus, ItemsOf, IsPresent, Boundary, ShapeOf, FreeCandidate;
  }

  /** Where content `i` starts in a text that marks nothing: after the heading and the contents before it. */
  ghost function PlainPlace(contents: seq<Content>, i: nat): nat
    requires i <= |contents|
  {
    if i == 0 then 32 else PlainPlace(contents, i - 1) + 2 + |WrittenAs(contents[i - 1], "")|
  }

  lemma {:induction false} PlainsTile(contents: seq<Content>)
    ensures var out := PlainContents(contents);
            && |out| == PlainPlace(contents, |contents|) && "[cvc: stimulus parts not marked]" <= out
            && forall i: nat :: i < |contents| ==> PlainAt(out, contents, i)
  {
    hide PlainAt, WrittenAs, PlainContents;
    PlainNext(contents);
    if contents != [] {
      var n := |contents| - 1;
      var before, last := PlainContents(contents[..n]), WrittenAs(contents[n], "");
      PlainsTile(contents[..n]);
      SamePlace(contents, n, n);
      forall i: nat | i < |contents| ensures PlainAt(before + ("\n\n" + last), contents, i) {
        if i < n { PlainStays(contents, before, "\n\n" + last, n, i); } else { PlainAdded(contents, before); }
      }
    }
  }

  ghost predicate PlainAt(out: Text, contents: seq<Content>, i: nat)
    requires i < |contents|
  {
    OccursAt(out, "\n\n" + WrittenAs(contents[i], ""), PlainPlace(contents, i))
  }

  lemma PlainNext(contents: seq<Content>)
    ensures contents == [] ==> PlainContents(contents) == "[cvc: stimulus parts not marked]"
    ensures contents != [] ==>
      PlainContents(contents) == PlainContents(contents[..|contents| - 1]) + ("\n\n" + WrittenAs(contents[|contents| - 1], ""))
  {
    hide PlainContent, WrittenAs;
    if contents != [] { ContentIsWritten(contents[|contents| - 1], ""); }
  }

  lemma PlainStays(contents: seq<Content>, before: Text, more: Text, n: nat, i: nat)
    requires i < n <= |contents| && PlainAt(before, contents[..n], i)
    ensures PlainAt(before + more, contents, i)
  {
    hide WrittenAs, OccursAt, PlainPlace;
    SamePlace(contents, n, i);
    StaysAt(before, more, "\n\n" + WrittenAs(contents[i], ""), PlainPlace(contents, i));
  }

  lemma PlainAdded(contents: seq<Content>, before: Text)
    requires contents != [] && |before| == PlainPlace(contents, |contents| - 1)
    ensures PlainAt(before + ("\n\n" + WrittenAs(contents[|contents| - 1], "")), contents, |contents| - 1)
  {
    hide WrittenAs, OccursAt, PlainPlace;
    AddedAt(before, "\n\n" + WrittenAs(contents[|contents| - 1], ""));
  }

  lemma {:induction false} SamePlace(contents: seq<Content>, n: nat, i: nat)
    requires i <= n <= |contents|
    ensures PlainPlace(contents[..n], i) == PlainPlace(contents, i)
    decreases i
  {
    hide WrittenAs;
    if i > 0 { SamePlace(contents, n, i - 1); }
  }

  lemma StaysAt(before: Text, more: Text, w: Text, at: nat)
    requires OccursAt(before, w, at)
    ensures OccursAt(before + more, w, at)
  {
    assert (before + more)[at..at + |w|] == before[at..at + |w|];
  }

  lemma AddedAt(before: Text, more: Text)
    ensures OccursAt(before + more, more, |before|)
  {
  }

  /** A text that marks nothing shows everything all the same: the heading, each content in order after a separator, and how
      many parts were left out; and nothing else. */
  lemma UndividedShowsAll(contents: seq<Content>, omitted: nat)
    ensures var out, end := PlainStimulus(contents, omitted), PlainPlace(contents, |contents|);
            && "[cvc: stimulus parts not marked]" <= out
            && (forall i: nat :: i < |contents| ==> PlainAt(out, contents, i))
            && end <= |out| && out[end..] == if omitted == 0 then "" else "\n\n[cvc: omitted " + Dec(omitted) + " parts]"
  {
    hide PlainContents, PlainAt, PlainPlace;
    var closing := if omitted == 0 then "" else "\n\n[cvc: omitted " + Dec(omitted) + " parts]";
    PlainClosing(contents, omitted);
    hide PlainStimulus;
    PlainsThen(contents, closing);
  }

  lemma PlainClosing(contents: seq<Content>, omitted: nat)
    ensures PlainStimulus(contents, omitted)
         == PlainContents(contents) + if omitted == 0 then "" else "\n\n[cvc: omitted " + Dec(omitted) + " parts]"
  {
    hide PlainContents, Dec;
    ClosingText(Dec(omitted));
  }

  lemma ClosingText(count: Text)
    ensures SEPARATOR + (OMITTED_OPEN + count + " parts]") == "\n\n[cvc: omitted " + count + " parts]"
  {
    assert "\n\n[cvc: omitted " == SEPARATOR + OMITTED_OPEN;
    JoinedThrice(SEPARATOR, OMITTED_OPEN, count, " parts]");
  }

  lemma JoinedThrice(a: Text, b: Text, c: Text, d: Text)
    ensures a + (b + c + d) == (a + b) + c + d
  {
    assert a + (b + c) == (a + b) + c;
    assert a + ((b + c) + d) == (a + (b + c)) + d;
  }

  lemma PlainsThen(contents: seq<Content>, closing: Text)
    ensures var out, end := PlainContents(contents) + closing, PlainPlace(contents, |contents|);
            && "[cvc: stimulus parts not marked]" <= out
            && (forall i: nat :: i < |contents| ==> PlainAt(out, contents, i))
            && end <= |out| && out[end..] == closing
  {
    hide PlainContents, PlainAt, PlainPlace;
    PlainsTile(contents);
    assert contents[..|contents|] == contents;
    forall i: nat | i < |contents| ensures PlainAt(PlainContents(contents) + closing, contents, i) {
      PlainStays(contents, PlainContents(contents), closing, |contents|, i);
    }
  }
}
