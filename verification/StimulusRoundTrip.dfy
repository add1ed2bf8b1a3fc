/** What is written is what is read: the round trip of the stimulus encoding. */
module StimulusRoundTrip {
  import opened Bytes
  import opened StimulusFormat
  import opened StimulusNotes
  import opened StimulusGrammar
  import opened StimulusVerify
  import opened StimulusReader
  import opened StimulusText
  import opened StimulusCuts
  import opened StimulusWriter
  import opened StimulusScanning
  import Budget = StimulusBudget

  // ---- a written content reads ----

  // Where a token can occur around a line of its own.
  lemma OccursAround(head: Text, note: Text, tail: Text, token: Text, at: nat)
    requires IsToken(token) && OccursAt(Around(head, note, tail), token, at)
    requires !Occurs(head, token) && !Occurs(tail, token)
    ensures var start := if head == "" then 0 else |head| + 1;
            start <= at && at + BOUNDARY_LEN <= start + |note| && OccursAt(note, token, at - start)
  {
    hide Around, IsToken, OccursAt;
    TokenBytes(token);
    AroundSlices(head, note, tail);
    NotBesideNote(Around(head, note, tail), head, note, tail, token, at);
    var start := if head == "" then 0 else |head| + 1;
    OccursInSlice(Around(head, note, tail), start, start + |note|, token, at - start);
  }

  // An occurrence holds no line feed, so it lies between the two around the note.
  lemma NotBesideNote(text: Text, head: Text, note: Text, tail: Text, token: Text, at: nat)
    requires IsToken(token) && OccursAt(text, token, at) && !Occurs(head, token) && !Occurs(tail, token)
    requires text == Around(head, note, tail)
    ensures var start := if head == "" then 0 else |head| + 1;
            start <= at && at + BOUNDARY_LEN <= start + |note|
  {
    hide Around, IsToken;
    TokenBytes(token);
    OccurrenceBytes(text, token, at);
    AroundSlices(head, note, tail);
    var start := if head == "" then 0 else |head| + 1;
    if at < start {
      assert text[|head|] == '\n';
      OccursInSlice(text, 0, |head|, token, at);
      assert false;
    }
    if at + BOUNDARY_LEN > start + |note| {
      assert text[start + |note|] == '\n';
      OccursInSlice(text, start + |note| + 1, |text|, token, at - (start + |note| + 1));
      assert false;
    }
  }

  lemma AroundSlices(head: Text, note: Text, tail: Text)
    ensures var text, start := Around(head, note, tail), if head == "" then 0 else |head| + 1;
            && start + |note| <= |text| && text[start..start + |note|] == note && text[0..|head|] == head
            && (head != "" ==> text[|head|] == '\n')
            && (tail == "" ==> |text| == start + |note|)
            && (tail != "" ==> start + |note| + 1 + |tail| == |text| && text[start + |note|] == '\n'
                               && text[start + |note| + 1..|text|] == tail)
  {
  }

  /** A content in which the boundary occurs nowhere else reads: its tokens all sit in its own note. */
  lemma ContentTextReads(content: Content, token: Text)
    requires IsToken(token)
    requires content.Whole? ==> !Occurs(content.text, token)
    requires content.Cut? ==> !Occurs(content.head, token) && !Occurs(content.tail, token)
                              && 1 <= content.removed < COUNT_LIMIT
    ensures ContentReads(ContentText(content, token), token)
  {
    hide NoteAt, IsToken, RenderNote;
    if content.Cut? {
      CutReads(content.head, content.tail, content.removed, token);
    }
  }

  lemma CutReads(head: Text, tail: Text, removed: nat, token: Text)
    requires IsToken(token) && 1 <= removed < COUNT_LIMIT
    requires !Occurs(head, token) && !Occurs(tail, token)
    ensures ContentReads(Around(head, RenderNote(Truncated(removed), token), tail), token)
  {
    var note := RenderNote(Truncated(removed), token);
    var text, start := Around(head, note, tail), if head == "" then 0 else |head| + 1;
    hide Around, RenderNote, NoteAt, Occurs, NoteOpen, IsToken;
    AroundSlices(head, note, tail);
    NoteAlone(Truncated(removed), token);
    forall at: nat | OccursAt(text, token, at)
      ensures NoteAt(text, at).Some? && NoteAt(text, at).value.kind.Truncated?
    {
      OccursAround(head, note, tail, token, at);
      OnlyTokenOfNote(Truncated(removed), token, at - start);
      var found := NoteOfSlice(text, start, start + |note|, at - start);
    }
  }

  lemma NoteAlone(kind: NoteKind, token: Text)
    requires IsToken(token) && CountReads(kind)
    ensures var note := RenderNote(kind, token);
            NoteAt(note, |NoteOpen(kind)|) == Some(Note(kind, 0, |note|))
  {
    var note, open := RenderNote(kind, token), NoteOpen(kind);
    assert note[0..|open|] == open;
    NoteExact(note, |open|, Note(kind, 0, |note|));
  }

  lemma OnlyTokenOfNote(kind: NoteKind, token: Text, at: nat)
    requires IsToken(token) && OccursAt(RenderNote(kind, token), token, at)
    ensures at == |NoteOpen(kind)|
  {
    hide NoteOpen, IsToken, OccursAt;
    var b := NoteOpenBytes(kind);
    TokenBytes(token);
    OneTildeInside(NoteOpen(kind), token, at);
  }

  lemma OneTildeInside(open: Text, token: Text, at: nat)
    requires OccursAt(open + token + "]", token, at) && '~' !in open
    requires token != "" && token[0] == '~' && forall i :: 1 <= i < |token| ==> token[i] != '~'
    ensures at == |open|
  {
    var note := open + token + "]";
    forall i | 0 <= i < |note| ensures note[i] == '~' ==> i == |open| {
      if i < |open| { assert note[i] == open[i] && open[i] in open; }
    }
    OccurrenceBytes(note, token, at);
    hide OccursAt;
    assert note[at] == token[0];
  }

  // ---- the writer's items read ----

  /** Every count the writer notes is one the reader accepts. */
  ghost predicate CountsRead(contents: seq<Content>, omitted: nat) {
    omitted < COUNT_LIMIT && forall c <- contents :: c.Cut? ==> c.removed < COUNT_LIMIT
  }

  ghost predicate WellMade(shown: seq<Prepared>, contents: seq<Content>) {
    && |shown| > 0 && |contents| == |shown|
    && (forall item <- shown :: NameFits(item.kind, item.name, item.isError))
    && (forall c <- contents :: c.Cut? ==> c.removed >= 1)
  }

  lemma ItemsRead(shown: seq<Prepared>, contents: seq<Content>, omitted: nat, token: Text)
    requires WellMade(shown, contents) && CountsRead(contents, omitted)
    requires IsToken(token) && !IsPresent(shown, contents, token)
    ensures forall item <- ItemsOf(shown, contents, token) :: ItemReads(item, token)
  {
    hide IsToken, ContentReads, ContentText, NameFits;
    var items := ItemsOf(shown, contents, token);
    forall i | 0 <= i < |items|
      ensures ItemReads(items[i], token)
    {
      assert shown[i] in shown && contents[i] in contents && !TokenIn(shown[i], contents[i], token);
      ContentTextReads(contents[i], token);
    }
  }

  /** Marked with a free boundary, the parts read back exactly as they were written. */
  lemma MarkedReads(hash: Hash, id: Text, shown: seq<Prepared>, contents: seq<Content>, omitted: nat)
    requires WellMade(shown, contents) && CountsRead(contents, omitted)
    requires Marked(hash, id, shown, contents, omitted).candidate.Some?
    ensures var r := Marked(hash, id, shown, contents, omitted);
            var token := Boundary(hash, id, ShapeOf(PreparedKinds(shown)), r.candidate.value);
            ReadOf(hash, id, r.text) == ReadsAs(ReadingOf(ItemsOf(shown, contents, token), omitted, token))
  {
    var r := Marked(hash, id, shown, contents, omitted);
    var shape := ShapeOf(PreparedKinds(shown));
    var token := Boundary(hash, id, shape, r.candidate.value);
    hide Marked, IsToken, FreeCandidate, IsPresent, WellMade, CountsRead;
    MarkedIs(hash, id, shown, contents, omitted);
    ItemsRead(shown, contents, omitted, token);
    var items := ItemsOf(shown, contents, token);
    WellMadeShown(shown, contents, omitted);
    PrintedTiles(items, omitted, token);
    var v := ReadingOf(items, omitted, token);
    assert Kinds(v.parts) == PreparedKinds(shown);
    assert IsCandidate(hash, id, shape, token);
    hide IsCandidate, Tiles, Boundary;
    ReadOfGrammar(hash, id, r.text, v);
  }

  lemma WellMadeShown(shown: seq<Prepared>, contents: seq<Content>, omitted: nat)
    requires WellMade(shown, contents) && CountsRead(contents, omitted)
    ensures |shown| > 0 && |contents| == |shown| && omitted < COUNT_LIMIT
  {
  }

  lemma MarkedIs(hash: Hash, id: Text, shown: seq<Prepared>, contents: seq<Content>, omitted: nat)
    requires |contents| == |shown| && Marked(hash, id, shown, contents, omitted).candidate.Some?
    ensures var r := Marked(hash, id, shown, contents, omitted);
            var token := Boundary(hash, id, ShapeOf(PreparedKinds(shown)), r.candidate.value);
            && r.candidate.value < BOUNDARY_CANDIDATES
            && !IsPresent(shown, contents, token)
            && r.text == PrintStimulus(ItemsOf(shown, contents, token), omitted, token)
  {
  }

  // ---- what the writer keeps ----

  lemma KeptAreWellMade(parts: seq<StimulusPart>, scrub: Scrub, finder: Finder)
    requires FindsMarkers(finder) && |parts| > 0
    ensures WellMade(KeptParts(parts, scrub), KeptContents(parts, scrub, finder))
  {
    hide KeptParts, KeptContents, FindsMarkers, KeepsPart, NameFits, AreScanned, FirstShown, AllowancesOf, FitsLeft;
    var shown, contents := KeptParts(parts, scrub), KeptContents(parts, scrub, finder);
    SomeIsKept(parts, scrub);
    ScannedExists(FirstShown(parts), scrub);
    forall i | 0 <= i < |shown|
      ensures contents[i].Cut? ==> contents[i].removed >= 1
      ensures NameFits(shown[i].kind, shown[i].name, shown[i].isError)
    {
      KeptContent(parts, scrub, finder, i, ScannedBy(FirstShown(parts), scrub));
      KeptIsMade(parts[i], shown[i], contents[i], scrub, finder, AllowancesOf(parts, scrub)[i],
                 FitsLeft(FirstShown(parts), ScannedBy(FirstShown(parts), scrub), i));
    }
  }

  lemma KeptIsMade(part: StimulusPart, item: Prepared, content: Content, scrub: Scrub, finder: Finder, allowance: nat,
                   fits: bool)
    requires KeepsPart(part, item, content, scrub, finder, allowance, fits)
    ensures content.Cut? ==> content.removed >= 1
    ensures NameFits(item.kind, item.name, item.isError)
  {
    hide IsCut, IsValidName, IsLastCut, IsFirstCut;
    FixedNamesAreValid();
  }

  lemma FixedNamesAreValid()
    ensures IsValidName("unknown-tool") && IsValidName("redacted-tool")
  {
  }

  lemma SomeIsKept(parts: seq<StimulusPart>, scrub: Scrub)
    requires |parts| > 0
    ensures |KeptParts(parts, scrub)| > 0
  {
    var slots := SlotsOf(PreparedParts(Shown(parts), scrub));
    Budget.KeptIsLongest(slots, |slots|, |parts|, Budget.MAX_STIMULUS_BYTES);
  }

  /** What is written for a part: its scrubbed text within its allowance, and the withheld note exactly when its text
      does not fit what is left to scan or does not scrub clean. */
  ghost predicate KeepsPart(part: StimulusPart, item: Prepared, content: Content, scrub: Scrub, finder: Finder,
                            allowance: nat, fits: bool) {
    && item.kind == part.kind
    && item.name == (if part.kind == ToolResult then Some(KeptName(part.name, scrub)) else None)
    && item.isError == (part.kind == ToolResult && part.isError)
    && (content == WithheldContent <==> !fits || !scrub(part.text).Clean?)
    && (fits && scrub(part.text).Clean? ==>
          var body := scrub(part.text).text;
          item.body == Some(body) && Bounds(content, body, finder(body), allowance, part.kind == ToolResult))
  }

  /** A tool's name as it is shown: a valid name stays exactly when the scrubber leaves it alone. */
  ghost function KeptName(name: Option<Text>, scrub: Scrub): Text {
    match name
    case None => "unknown-tool"
    case Some(n) => if !IsValidName(n) then "unknown-tool" else if scrub(n) != Clean(n) then "redacted-tool" else n
  }

  /** The parts a marked stimulus can show: the first 512. */
  ghost function FirstShown(parts: seq<StimulusPart>): seq<StimulusPart> {
    if |parts| <= 512 then parts else parts[..512]
  }

  /** The bytes each kept part may have. */
  ghost function AllowancesOf(parts: seq<StimulusPart>, scrub: Scrub): seq<nat> {
    Budget.Allocated(SlotsOf(PreparedParts(FirstShown(parts), scrub)), |parts|, 64 * 1024).allowances
  }

  lemma KeptContent(parts: seq<StimulusPart>, scrub: Scrub, finder: Finder, i: nat, scanned: set<nat>)
    requires FindsMarkers(finder) && i < |KeptParts(parts, scrub)| && AreScanned(FirstShown(parts), scrub, scanned)
    ensures i < |AllowancesOf(parts, scrub)| && i < |FirstShown(parts)|
    ensures KeepsPart(parts[i], KeptParts(parts, scrub)[i], KeptContents(parts, scrub, finder)[i], scrub, finder,
                      AllowancesOf(parts, scrub)[i], FitsLeft(FirstShown(parts), scanned, i))
  {
    hide Budget.Allocated, SafeName, AreScanned, SpansFit, BudgetFor, FitsLeft, Bounds;
    var prepared := PreparedParts(Shown(parts), scrub);
    var item := prepared[i];
    PreparedExactly(FirstShown(parts), scrub, scanned, i);
    NameIsKept(parts[i].name, scrub);
    if item.body.Some? {
      var body := item.body.value;
      assert SpansFit(body, finder(body));
      FittedBounds(body, finder(body), AllowancesOf(parts, scrub)[i], item.kind == ToolResult);
    }
  }

  lemma NameIsKept(name: Option<Text>, scrub: Scrub)
    ensures SafeName(name, scrub) == KeptName(name, scrub)
  {
    hide IsValidName;
  }

  /** A kept part is withheld exactly when its text does not scrub clean, or is longer than what the parts scanned
      before it leave of 8 MiB. */
  lemma WithheldExactlyWhen(parts: seq<StimulusPart>, scrub: Scrub, finder: Finder, scanned: set<nat>, i: nat)
    requires FindsMarkers(finder) && i < |KeptParts(parts, scrub)| && AreScanned(FirstShown(parts), scrub, scanned)
    ensures i < |FirstShown(parts)|
    ensures KeptContents(parts, scrub, finder)[i] == WithheldContent <==>
              || !scrub(parts[i].text).Clean?
              || |parts[i].text| + ScannedBefore(FirstShown(parts), scanned, i, |FirstShown(parts)|) > 8 * 1024 * 1024
  {
    hide FindsMarkers, KeptParts, KeptContents, AreScanned, Bounds, ScannedBefore, AllowancesOf;
    KeptContent(parts, scrub, finder, i, scanned);
  }

  /** Of texts of at most 8 MiB together, exactly those that do not scrub clean are withheld. */
  lemma WithinTheLimitOnlyRefusedAreWithheld(parts: seq<StimulusPart>, scrub: Scrub, finder: Finder, i: nat)
    requires FindsMarkers(finder) && i < |KeptParts(parts, scrub)| && TotalLength(FirstShown(parts)) <= 8 * 1024 * 1024
    ensures KeptContents(parts, scrub, finder)[i] == WithheldContent <==> !scrub(parts[i].text).Clean?
  {
    hide FindsMarkers, KeptParts, KeptContents, AreScanned, ScannedBefore, TotalLength;
    var scanned := ScannedBy(FirstShown(parts), scrub);
    ScannedExists(FirstShown(parts), scrub);
    WithheldExactlyWhen(parts, scrub, finder, scanned, i);
    AllFit(FirstShown(parts), scanned, i);
  }

  /** There are fewer parts than `limit`, and what the scrubber lets through of each is shorter. */
  ghost predicate Below(parts: seq<StimulusPart>, scrub: Scrub, limit: nat) {
    |parts| < limit && forall part <- parts :: scrub(part.text).Clean? ==> |scrub(part.text).text| < limit
  }

  lemma CutsAreBelow(parts: seq<StimulusPart>, scrub: Scrub, finder: Finder, limit: nat)
    requires FindsMarkers(finder) && Below(parts, scrub, limit)
    ensures forall c <- KeptContents(parts, scrub, finder) :: c.Cut? ==> c.removed < limit
  {
    hide KeptParts, KeptContents, FindsMarkers, IsLastCut, IsFirstCut, KeptName, AreScanned, FirstShown, AllowancesOf, FitsLeft;
    ScannedExists(FirstShown(parts), scrub);
    var contents := KeptContents(parts, scrub, finder);
    forall i | 0 <= i < |contents| ensures contents[i].Cut? ==> contents[i].removed < limit {
      KeptContent(parts, scrub, finder, i, ScannedBy(FirstShown(parts), scrub));
      assert parts[i] in parts;
    }
  }

  /** How a content stands in the text: whole, or its head and tail with a note of the bytes taken out between them on a line
      of its own, or the withheld note. `mark` is what the notes carry. */
  ghost function WrittenAs(content: Content, mark: Text): Text {
    match content
    case Whole(text) => text
    case Cut(head, tail, removed) =>
      (if head == "" then "" else head + "\n")
      + ("\U{00E2}\U{0080}\U{00A6}[cvc: truncated " + Dec(removed) + " bytes" + mark + "]")
      + (if tail == "" then "" else "\n" + tail)
    case WithheldContent => "[cvc: withheld" + mark + "]"
  }

  lemma ContentIsWritten(content: Content, token: Text)
    ensures ContentText(content, token) == WrittenAs(content, " " + token)
    ensures PlainContent(content) == WrittenAs(content, "")
  {
    match content
    case Whole(_) =>
    case Cut(head, tail, removed) =>
      assert RenderNote(Truncated(removed), token)
          == "\U{00E2}\U{0080}\U{00A6}[cvc: truncated " + Dec(removed) + " bytes" + (" " + token) + "]";
      assert TRUNCATED_OPEN + Dec(removed) + " bytes]"
          == "\U{00E2}\U{0080}\U{00A6}[cvc: truncated " + Dec(removed) + " bytes" + "" + "]";
      AroundIs(head, RenderNote(Truncated(removed), token), tail);
      AroundIs(head, TRUNCATED_OPEN + Dec(removed) + " bytes]", tail);
    case WithheldContent =>
      assert RenderNote(Withheld, token) == "[cvc: withheld" + (" " + token) + "]";
  }

  lemma AroundIs(head: Text, note: Text, tail: Text)
    ensures Around(head, note, tail) == (if head == "" then "" else head + "\n") + note + (if tail == "" then "" else "\n" + tail)
  {
  }

  /** Reading `v` of `text` says what was written: kind, name, flag and content of each part, and how many parts
      were left out. */
  ghost predicate SaysItems(text: Text, v: Verified, shown: seq<Prepared>, contents: seq<Content>, omitted: nat)
    requires |contents| == |shown|
  {
    && |v.parts| == |shown| && v.omittedParts == (if omitted == 0 then None else Some(omitted)) && PartsInside(text, v.parts)
    && forall i :: 0 <= i < |shown| ==>
         ItemAt(text, v.parts[i])
         == Item(shown[i].kind, shown[i].name, shown[i].isError, WrittenAs(contents[i], " " + v.boundary))
  }

  /** The reader of `text` verifies it, and says what was written. */
  ghost predicate ReadsBack(hash: Hash, id: Text, text: Text, shown: seq<Prepared>, contents: seq<Content>, omitted: nat)
    requires |contents| == |shown|
  {
    ReadOf(hash, id, text).ReadsAs? && SaysItems(text, ReadOf(hash, id, text).verified, shown, contents, omitted)
  }

  lemma ItemIsWritten(item: Prepared, content: Content, token: Text)
    ensures ItemOf(item, content, token) == Item(item.kind, item.name, item.isError, WrittenAs(content, " " + token))
  {
    hide WrittenAs, ContentText;
    ContentIsWritten(content, token);
  }

  lemma MarkedSays(hash: Hash, id: Text, shown: seq<Prepared>, contents: seq<Content>, omitted: nat)
    requires WellMade(shown, contents) && CountsRead(contents, omitted)
    requires Marked(hash, id, shown, contents, omitted).candidate.Some?
    ensures ReadsBack(hash, id, Marked(hash, id, shown, contents, omitted).text, shown, contents, omitted)
  {
    WellMadeShown(shown, contents, omitted);
    hide WellMade, CountsRead, Boundary, Marked, ReadOf, IsPresent, WrittenAs;
    var text := Marked(hash, id, shown, contents, omitted).text;
    MarkedReads(hash, id, shown, contents, omitted);
    MarkedIs(hash, id, shown, contents, omitted);
    var v := ReadOf(hash, id, text).verified;
    var items := ItemsOf(shown, contents, v.boundary);
    hide Layout, PrintItems, PrintClosing, ItemOf;
    ItemsFound(items, v.boundary, PrintClosing(omitted, v.boundary));
    forall i | 0 <= i < |shown|
      ensures ItemAt(text, v.parts[i])
           == Item(shown[i].kind, shown[i].name, shown[i].isError, WrittenAs(contents[i], " " + v.boundary))
    {
      ItemIsWritten(shown[i], contents[i], v.boundary);
      assert ItemsAt(text, v.parts)[i] == items[i];
    }
  }

  /** Part `i` was written as the scrubber and the budget left it. */
  ghost predicate IsKept(parts: seq<StimulusPart>, scrub: Scrub, finder: Finder, i: nat)
    requires FindsMarkers(finder) && i < |KeptParts(parts, scrub)|
  {
    && i < |AllowancesOf(parts, scrub)| && i < |FirstShown(parts)|
    && forall scanned :: AreScanned(FirstShown(parts), scrub, scanned) ==>
         KeepsPart(parts[i], KeptParts(parts, scrub)[i], KeptContents(parts, scrub, finder)[i], scrub, finder,
                   AllowancesOf(parts, scrub)[i], FitsLeft(FirstShown(parts), scanned, i))
  }

  /**
   * The round trip. When a boundary was free, the rendered stimulus verifies, and its parts are the kept ones in
   * order: kind, tool name, error flag, and content (whole, or cut with a note of exactly the bytes removed, or
   * withheld), with the number of parts left out.
   */
  lemma RoundTrip(hash: Hash, id: Text, parts: seq<StimulusPart>, scrub: Scrub, finder: Finder)
    requires FindsMarkers(finder) && |parts| > 0
    requires RenderOf(hash, id, parts, scrub, finder).candidate.Some?
    requires CountsRead(KeptContents(parts, scrub, finder), |parts| - |KeptParts(parts, scrub)|)
    ensures forall i :: 0 <= i < |KeptParts(parts, scrub)| ==> IsKept(parts, scrub, finder, i)
    ensures ReadsBack(hash, id, RenderOf(hash, id, parts, scrub, finder).text,
                      KeptParts(parts, scrub), KeptContents(parts, scrub, finder), |parts| - |KeptParts(parts, scrub)|)
  {
    hide FindsMarkers, Marked, WellMade, CountsRead, ReadsBack, IsKept, KeptParts, KeptContents, RenderOf;
    KeptAreWellMade(parts, scrub, finder);
    PartsAreKept(parts, scrub, finder);
    RenderIsMarked(hash, id, parts, scrub, finder);
    var shown, contents := KeptParts(parts, scrub), KeptContents(parts, scrub, finder);
    MarkedSays(hash, id, shown, contents, |parts| - |shown|);
  }

  lemma RenderIsMarked(hash: Hash, id: Text, parts: seq<StimulusPart>, scrub: Scrub, finder: Finder)
    requires FindsMarkers(finder) && |parts| > 0
    ensures RenderOf(hash, id, parts, scrub, finder)
         == Marked(hash, id, KeptParts(parts, scrub), KeptContents(parts, scrub, finder), |parts| - |KeptParts(parts, scrub)|)
  {
  }

  lemma PartsAreKept(parts: seq<StimulusPart>, scrub: Scrub, finder: Finder)
    requires FindsMarkers(finder)
    ensures forall i :: 0 <= i < |KeptParts(parts, scrub)| ==> IsKept(parts, scrub, finder, i)
  {
    hide FindsMarkers, KeptParts, KeptContents, KeepsPart, AreScanned, FirstShown, AllowancesOf;
    ScannedExists(FirstShown(parts), scrub);
    forall i | 0 <= i < |KeptParts(parts, scrub)|
      ensures IsKept(parts, scrub, finder, i)
    {
      KeptContent(parts, scrub, finder, i, ScannedBy(FirstShown(parts), scrub));
      forall scanned | AreScanned(FirstShown(parts), scrub, scanned)
        ensures KeepsPart(parts[i], KeptParts(parts, scrub)[i], KeptContents(parts, scrub, finder)[i], scrub, finder,
                          AllowancesOf(parts, scrub)[i], FitsLeft(FirstShown(parts), scanned, i))
      {
        KeptContent(parts, scrub, finder, i, scanned);
      }
    }
  }
}
