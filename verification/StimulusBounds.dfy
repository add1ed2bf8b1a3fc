/** Every rendered stimulus fits its size bound. */
module StimulusBounds {
  import opened Bytes
  import opened StimulusFormat
  import opened StimulusNotes
  import opened StimulusText
  import opened StimulusCuts
  import opened StimulusWriter
  import opened StimulusRoundTrip
  import Budget = StimulusBudget

  // ---- the size bound ----

  /** Counts the 64-byte reserves leave room for. */
  ghost predicate CountsFit(contents: seq<Content>, omitted: nat) {
    omitted < 10_000_000_000_000_000_000 && forall c <- contents :: c.Cut? ==> c.removed < 100_000_000_000_000
  }

  lemma TruncatedNoteLength(n: nat, token: Text)
    requires IsToken(token) && n < 100_000_000_000_000
    ensures |RenderNote(Truncated(n), token)| <= 62
  {
    DecLength(n, 14);
    assert Pow10(4) == 10_000 && Pow10(8) == 100_000_000 && Pow10(12) == 1_000_000_000_000;
    assert Pow10(14) == 100_000_000_000_000;
  }

  lemma OmittedNoteLength(n: nat, token: Text)
    requires IsToken(token) && n < 10_000_000_000_000_000_000
    ensures |RenderNote(Omitted(n), token)| <= 62 && |Dec(n)| <= 19
  {
    DecLength(n, 19);
    CountLimitDigits();
    assert Pow10(19) == 10 * Pow10(18);
  }

  /** What a content takes: its allowance, and the note reserve when it was cut. */
  lemma ContentLength(content: Content, body: Option<Text>, spans: seq<Span>, allowance: nat, isTool: bool, token: Text)
    requires IsToken(token) && (content.Cut? ==> content.removed < 100_000_000_000_000)
    requires body.Some? ==> Bounds(content, body.value, spans, allowance, isTool)
    requires body.None? ==> content == WithheldContent && allowance == WITHHELD_NOTE_BYTES
    ensures |ContentText(content, token)| <= allowance + Budget.NOTE_RESERVE
    ensures |PlainContent(content)| <= allowance + 42
  {
    match content
    case Whole(text) =>
    case WithheldContent =>
    case Cut(head, tail, removed) =>
      TruncatedNoteLength(removed, token);
      AroundLength(head, RenderNote(Truncated(removed), token), tail);
      AroundLength(head, TRUNCATED_OPEN + Dec(removed) + " bytes]", tail);
  }

  lemma AroundLength(head: Text, note: Text, tail: Text)
    ensures |Around(head, note, tail)| <= |head| + |note| + |tail| + 2
  {
  }

  /** The kept parts, with what each was allowed. */
  ghost predicate Fits(items: seq<Prepared>, contents: seq<Content>, allowances: seq<nat>, finder: Finder) {
    && |contents| == |items| == |allowances|
    && forall i :: 0 <= i < |items| ==> FitsOne(items[i], contents[i], allowances[i], finder)
  }

  ghost predicate FitsOne(item: Prepared, content: Content, allowance: nat, finder: Finder) {
    && NameFits(item.kind, item.name, item.isError)
    && (item.body.Some? ==> Bounds(content, item.body.value, finder(item.body.value), allowance, item.kind == ToolResult))
    && (item.body.None? ==> content == WithheldContent && allowance == WITHHELD_NOTE_BYTES)
    && (content.Cut? ==> content.removed < 100_000_000_000_000)
  }

  lemma MarkerSlot(item: Prepared, token: Text)
    requires IsToken(token) && NameFits(item.kind, item.name, item.isError)
    ensures |RenderMarker(item.kind, item.name, item.isError, token)| == SlotOf(item).markerLen
    ensures 29 <= SlotOf(item).markerLen <= 243
  {
  }

  /** Each item takes its slot's marker, and its allowance with the note reserve. */
  ghost predicate ItemsFit(items: seq<Item>, slots: seq<Budget.Slot>, allowances: seq<nat>, token: Text) {
    && |items| == |slots| == |allowances|
    && (forall i :: 0 <= i < |items| ==> |ItemMarker(items[i], token)| == slots[i].markerLen)
    && (forall i :: 0 <= i < |items| ==> |items[i].content| <= allowances[i] + Budget.NOTE_RESERVE)
  }

  /** Markers, separators and contents come to at most the overheads and the allowances. */
  /** The slot of a part is what it takes up: its marker, and its withheld note or its scrubbed text, of a tool
      result no more than 8 KiB. */
  lemma SlotIsWhatIsPrinted(item: Prepared, token: Text)
    requires IsToken(token) && NameFits(item.kind, item.name, item.isError)
    ensures SlotOf(item).markerLen == |RenderMarker(item.kind, item.name, item.isError, token)|
    ensures SlotOf(item).want == (match item.body
              case None => |RenderNote(Withheld, token)|
              case Some(body) => if item.kind != ToolResult || |body| < 8192 then |body| else 8192)
    ensures SlotOf(item).cls == Budget.Fixed <==> item.body.None?
    ensures SlotOf(item).cls == Budget.Tool <==> item.body.Some? && item.kind == ToolResult
  {
    hide IsValidName;
    MarkerSlot(item, token);
    TokenBytes(token);
  }

  lemma {:induction false} PrintedLength(items: seq<Item>, slots: seq<Budget.Slot>, allowances: seq<nat>, token: Text, k: nat)
    requires ItemsFit(items, slots, allowances, token) && k <= |items|
    ensures |PrintItems(items[..k], token)| <= Budget.Overheads(slots, k) + Sum(allowances[..k])
  {
    hide ItemMarker, PrintItems, Sum, Budget.Overheads;
    if k == 0 {
      NothingPrinted(items, token);
      NothingPlain(slots);
      assert allowances[..0] == [];
    } else {
      PrintedLength(items, slots, allowances, token, k - 1);
      PrefixOfPrefix(items, k);
      NextSums(slots, allowances, k);
      PrintSnoc(items[..k], token);
    }
  }

  lemma NothingPrinted(items: seq<Item>, token: Text)
    ensures PrintItems(items[..0], token) == ""
  {
  }

  lemma ItemsOfFit(items: seq<Prepared>, contents: seq<Content>, allowances: seq<nat>, finder: Finder, token: Text)
    requires Fits(items, contents, allowances, finder) && IsToken(token)
    ensures ItemsFit(ItemsOf(items, contents, token), SlotsOf(items), allowances, token)
  {
    hide ContentText, RenderMarker, SlotOf, IsToken, Fits;
    assert |contents| == |items| == |allowances| by { FitsLengths(items, contents, allowances, finder); }
    forall i | 0 <= i < |items|
      ensures |ItemMarker(ItemsOf(items, contents, token)[i], token)| == SlotsOf(items)[i].markerLen
      ensures |ItemsOf(items, contents, token)[i].content| <= allowances[i] + Budget.NOTE_RESERVE
    {
      PartLength(items, contents, allowances, finder, token, i);
    }
  }

  lemma FitsLengths(items: seq<Prepared>, contents: seq<Content>, allowances: seq<nat>, finder: Finder)
    requires Fits(items, contents, allowances, finder)
    ensures |contents| == |items| == |allowances|
  {
  }

  /** The same for the layout that marks nothing, whose opening line fits the first part's reserve. */
  lemma {:induction false} PlainLength(items: seq<Prepared>, contents: seq<Content>, allowances: seq<nat>,
                                       finder: Finder, token: Text, k: nat)
    requires Fits(items, contents, allowances, finder) && IsToken(token) && k <= |items|
    ensures |contents| == |items| == |allowances|
    ensures |PlainContents(contents[..k])| <= Budget.Overheads(SlotsOf(items), k) + Sum(allowances[..k]) + (if k == 0 then 32 else 0)
  {
    hide PlainContents, PlainContent, RenderMarker, SlotOf, Fits, IsToken, Sum, Budget.Overheads;
    FitsLengths(items, contents, allowances, finder);
    if k == 0 {
      NothingPlain(SlotsOf(items));
      assert contents[..0] == [] && allowances[..0] == [];
    } else {
      PlainLength(items, contents, allowances, finder, token, k - 1);
      PartLength(items, contents, allowances, finder, token, k - 1);
      PrefixOfPrefix(contents, k);
      PlainSnoc(contents[..k]);
      NextSums(SlotsOf(items), allowances, k);
    }
  }

  lemma NothingPlain(slots: seq<Budget.Slot>)
    ensures |PlainContents([])| <= 32 && Budget.Overheads(slots, 0) == 0 && Sum([]) == 0
  {
  }

  lemma NextSums(slots: seq<Budget.Slot>, allowances: seq<nat>, k: nat)
    requires 0 < k <= |slots| && k <= |allowances|
    ensures Budget.Overheads(slots, k) == Budget.Overheads(slots, k - 1) + Budget.Overhead(slots, k - 1)
    ensures Sum(allowances[..k]) == Sum(allowances[..k - 1]) + allowances[k - 1]
  {
    PrefixOfPrefix(allowances, k);
  }

  lemma PrefixOfPrefix<T>(s: seq<T>, k: nat)
    requires 0 < k <= |s|
    ensures s[..k][..k - 1] == s[..k - 1] && |s[..k]| == k && s[..k][k - 1] == s[k - 1]
  {
  }

  lemma PartLength(items: seq<Prepared>, contents: seq<Content>, allowances: seq<nat>, finder: Finder, token: Text, i: nat)
    requires Fits(items, contents, allowances, finder) && IsToken(token) && i < |items|
    ensures |ContentText(contents[i], token)| <= allowances[i] + Budget.NOTE_RESERVE
    ensures |PlainContent(contents[i])| <= allowances[i] + 42
    ensures |RenderMarker(items[i].kind, items[i].name, items[i].isError, token)| == SlotOf(items[i]).markerLen >= 29
  {
    var item := items[i];
    assert FitsOne(item, contents[i], allowances[i], finder);
    hide ContentText, PlainContent, RenderMarker, Bounds, IsToken, SlotOf;
    ContentLength(contents[i], item.body, if item.body.Some? then finder(item.body.value) else [],
                  allowances[i], item.kind == ToolResult, token);
    MarkerSlot(item, token);
  }

  lemma PlainSnoc(contents: seq<Content>)
    requires |contents| > 0
    ensures PlainContents(contents) == PlainContents(contents[..|contents| - 1]) + SEPARATOR + PlainContent(contents[|contents| - 1])
  {
  }

  // The parts the writer keeps fit at their floors: one part always does.
  lemma KeptFit(items: seq<Prepared>, totalParts: nat)
    requires forall item <- items :: NameFits(item.kind, item.name, item.isError)
    requires |items| > 0
    ensures var kept := Budget.Kept(SlotsOf(items), |items|, totalParts, Budget.MAX_STIMULUS_BYTES);
            kept >= 1 && Budget.FitsAtFloors(SlotsOf(items), kept, totalParts, Budget.MAX_STIMULUS_BYTES)
  {
    var slots := SlotsOf(items);
    Budget.KeptIsLongest(slots, |slots|, totalParts, Budget.MAX_STIMULUS_BYTES);
    PlaceholderIsToken();
    MarkerSlot(items[0], PLACEHOLDER_TOKEN);
    assert items[0] in items;
    assert Budget.Minimum(slots, 0) == 0;
    assert Budget.Minimum(slots, 1) == Budget.Overhead(slots, 0) + Budget.Floor(slots[0]);
  }

  lemma PlaceholderIsToken()
    ensures IsToken(PLACEHOLDER_TOKEN)
  {
    assert PLACEHOLDER_TOKEN[..5] == BOUNDARY_PREFIX;
  }

  lemma ToolsAreCapped(items: seq<Prepared>)
    ensures forall s <- SlotsOf(items) :: s.cls == Budget.Tool ==> s.want <= Budget.TOOL_RESULT_CEILING
  {
  }

  lemma PreparedNamesFit(parts: seq<StimulusPart>, scrub: Scrub)
    ensures forall item <- PreparedParts(parts, scrub) :: NameFits(item.kind, item.name, item.isError)
  {
  }

  /** What the writer keeps fits its slots. */
  lemma KeptFits(parts: seq<StimulusPart>, scrub: Scrub, finder: Finder)
    requires FindsMarkers(finder) && |parts| > 0
    requires CountsFit(KeptContents(parts, scrub, finder), |parts|)
    ensures var prepared := PreparedParts(Shown(parts), scrub);
            var a := Budget.Allocated(SlotsOf(prepared), |parts|, Budget.MAX_STIMULUS_BYTES);
            Fits(prepared[..a.kept], KeptContents(parts, scrub, finder), a.allowances, finder)
  {
    var prepared := PreparedParts(Shown(parts), scrub);
    var a := Budget.Allocated(SlotsOf(prepared), |parts|, Budget.MAX_STIMULUS_BYTES);
    var shown, contents := prepared[..a.kept], KeptContents(parts, scrub, finder);
    PreparedNamesFit(Shown(parts), scrub);
    forall i | 0 <= i < a.kept
      ensures FitsOne(shown[i], contents[i], a.allowances[i], finder)
    {
      assert prepared[i] in prepared && contents[i] in contents;
      AllowanceOfKept(prepared, |parts|, i);
      hide PreparedParts, Budget.Allocated, NameFits, FindsMarkers;
      if shown[i].body.Some? {
        var body := shown[i].body.value;
        MarkersFound(finder, body);
        FittedBounds(body, finder(body), a.allowances[i], shown[i].kind == ToolResult);
      }
    }
  }

  lemma MarkersFound(finder: Finder, body: Text)
    requires FindsMarkers(finder)
    ensures SpansFit(body, finder(body))
  {
  }

  lemma AllowanceOfKept(items: seq<Prepared>, totalParts: nat, i: nat)
    requires i < Budget.Allocated(SlotsOf(items), totalParts, Budget.MAX_STIMULUS_BYTES).kept
    ensures items[i].body.None? ==>
              Budget.Allocated(SlotsOf(items), totalParts, Budget.MAX_STIMULUS_BYTES).allowances[i] == WITHHELD_NOTE_BYTES
  {
  }

  /**
   * The size bound: marked or undivided, a rendered stimulus never exceeds 64 KiB, whatever the number and the size
   * of its parts (a part cut by less than 10^14 bytes, fewer than 10^19 parts).
   */
  lemma SizeBound(hash: Hash, id: Text, parts: seq<StimulusPart>, scrub: Scrub, finder: Finder)
    requires FindsMarkers(finder)
    requires CountsFit(KeptContents(parts, scrub, finder), |parts|)
    ensures |RenderOf(hash, id, parts, scrub, finder).text| <= Budget.MAX_STIMULUS_BYTES
  {
    if |parts| > 0 {
      var prepared := PreparedParts(Shown(parts), scrub);
      PreparedNamesFit(Shown(parts), scrub);
      KeptFit(prepared, |parts|);
      ToolsAreCapped(prepared);
      Budget.AllocationIsFairAndTight(SlotsOf(prepared), |parts|, Budget.MAX_STIMULUS_BYTES);
      KeptFits(parts, scrub, finder);
      MarkedLength(hash, id, parts, scrub, finder);
    }
  }

  /** So does every rendering of parts whose scrubbed texts are shorter than 10^14 bytes. */
  lemma ScrubbedBelowFits(hash: Hash, id: Text, parts: seq<StimulusPart>, scrub: Scrub, finder: Finder)
    requires FindsMarkers(finder) && Below(parts, scrub, 100_000_000_000_000)
    ensures |RenderOf(hash, id, parts, scrub, finder).text| <= Budget.MAX_STIMULUS_BYTES
  {
    hide FindsMarkers, KeptContents, RenderOf;
    CutsAreBelow(parts, scrub, finder, 100_000_000_000_000);
    SizeBound(hash, id, parts, scrub, finder);
  }

  lemma MarkedLength(hash: Hash, id: Text, parts: seq<StimulusPart>, scrub: Scrub, finder: Finder)
    requires FindsMarkers(finder) && |parts| > 0
    requires CountsFit(KeptContents(parts, scrub, finder), |parts|)
    requires var prepared := PreparedParts(Shown(parts), scrub);
             var a := Budget.Allocated(SlotsOf(prepared), |parts|, Budget.MAX_STIMULUS_BYTES);
             && a.kept >= 1
             && Fits(prepared[..a.kept], KeptContents(parts, scrub, finder), a.allowances, finder)
             && Budget.Overheads(SlotsOf(prepared), a.kept) + Budget.Closing(a.kept, |parts|) + Sum(a.allowances)
                <= Budget.MAX_STIMULUS_BYTES
    ensures |RenderOf(hash, id, parts, scrub, finder).text| <= Budget.MAX_STIMULUS_BYTES
  {
    hide FindsMarkers, RenderOf, KeptParts, KeptContents, PreparedParts, Budget.Allocated, CountsFit, Fits, Marked, Sum,
      Budget.Overheads, SlotsOf;
    var prepared := PreparedParts(Shown(parts), scrub);
    var a := Budget.Allocated(SlotsOf(prepared), |parts|, Budget.MAX_STIMULUS_BYTES);
    var contents := KeptContents(parts, scrub, finder);
    KeptPartsAre(parts, scrub);
    RenderIsMarked(hash, id, parts, scrub, finder);
    SameOverheads(prepared, a.kept);
    CountsFitTotal(contents, |parts|);
    LayoutLength(hash, id, prepared[..a.kept], contents, a.allowances, finder, |parts| - a.kept);
  }

  lemma KeptPartsAre(parts: seq<StimulusPart>, scrub: Scrub)
    ensures var prepared := PreparedParts(Shown(parts), scrub);
            KeptParts(parts, scrub)
            == prepared[..Budget.Allocated(SlotsOf(prepared), |parts|, Budget.MAX_STIMULUS_BYTES).kept]
  {
  }

  lemma CountsFitTotal(contents: seq<Content>, omitted: nat)
    requires CountsFit(contents, omitted)
    ensures omitted < 10_000_000_000_000_000_000
  {
  }

  lemma {:induction false} SameOverheads(items: seq<Prepared>, kept: nat)
    requires kept <= |items|
    ensures Budget.Overheads(SlotsOf(items), kept) == Budget.Overheads(SlotsOf(items[..kept]), kept)
  {
    PrefixOverheads(items, kept, kept);
  }

  lemma {:induction false} PrefixOverheads(items: seq<Prepared>, kept: nat, k: nat)
    requires k <= kept <= |items|
    ensures Budget.Overheads(SlotsOf(items), k) == Budget.Overheads(SlotsOf(items[..kept]), k)
  {
    hide SlotOf;
    if k > 0 {
      PrefixOverheads(items, kept, k - 1);
    }
  }

  function Reserve(omitted: nat): nat {
    if omitted > 0 then Budget.OMITTED_RESERVE else 0
  }

  lemma MarkedTextLength(shown: seq<Prepared>, contents: seq<Content>, allowances: seq<nat>, finder: Finder, omitted: nat, token: Text)
    requires Fits(shown, contents, allowances, finder) && IsToken(token) && omitted < 10_000_000_000_000_000_000
    ensures |contents| == |shown|
    ensures |PrintStimulus(ItemsOf(shown, contents, token), omitted, token)|
         <= Budget.Overheads(SlotsOf(shown), |shown|) + Sum(allowances) + Reserve(omitted)
  {
    FitsLengths(shown, contents, allowances, finder);
    var items := ItemsOf(shown, contents, token);
    assert items[..|shown|] == items && allowances[..|shown|] == allowances;
    OmittedNoteLength(omitted, token);
    ItemsOfFit(shown, contents, allowances, finder, token);
    PrintedLength(items, SlotsOf(shown), allowances, token, |shown|);
    hide PrintItems, RenderNote, ItemsOf, SlotsOf, Sum, Dec;
  }

  lemma PlainTextLength(shown: seq<Prepared>, contents: seq<Content>, allowances: seq<nat>, finder: Finder, omitted: nat)
    requires Fits(shown, contents, allowances, finder) && |shown| > 0 && omitted < 10_000_000_000_000_000_000
    ensures |PlainStimulus(contents, omitted)|
         <= Budget.Overheads(SlotsOf(shown), |shown|) + Sum(allowances) + Reserve(omitted)
  {
    FitsLengths(shown, contents, allowances, finder);
    assert contents[..|shown|] == contents && allowances[..|shown|] == allowances;
    PlaceholderIsToken();
    OmittedNoteLength(omitted, PLACEHOLDER_TOKEN);
    PlainLength(shown, contents, allowances, finder, PLACEHOLDER_TOKEN, |shown|);
    hide PlainContents, SlotsOf, Sum, Dec;
  }

  lemma LayoutLength(hash: Hash, id: Text, shown: seq<Prepared>, contents: seq<Content>, allowances: seq<nat>, finder: Finder, omitted: nat)
    requires Fits(shown, contents, allowances, finder) && |shown| > 0 && omitted < 10_000_000_000_000_000_000
    ensures |contents| == |shown|
    ensures |Marked(hash, id, shown, contents, omitted).text|
         <= Budget.Overheads(SlotsOf(shown), |shown|) + Sum(allowances) + Reserve(omitted)
  {
    FitsLengths(shown, contents, allowances, finder);
    hide Fits, FreeCandidate, IsToken, SlotsOf, PrintStimulus, PlainStimulus, ItemsOf, Boundary;
    PlainTextLength(shown, contents, allowances, finder, omitted);
    var shape := ShapeOf(PreparedKinds(shown));
    var free := FreeCandidate(hash, id, shape, shown, contents, 0);
    if free.Some? {
      MarkedTextLength(shown, contents, allowances, finder, omitted, Boundary(hash, id, shape, free.value));
    }
  }
}
