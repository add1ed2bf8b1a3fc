/** Writing a stimulus: scrub each part, bound the whole, choose the boundary, mark. */
module StimulusWriter {
  import opened Bytes
  import opened StimulusFormat
  import opened StimulusNotes
  import opened StimulusText
  import opened StimulusCuts
  import Budget = StimulusBudget

  const MAX_PARTS: nat := 512
  const MAX_SCRUBBED_BYTES: nat := 8 * 1024 * 1024
  const PLACEHOLDER_TOKEN: Text := "~cvc-0000000000000000"
  const WITHHELD_NOTE_BYTES: nat := |WITHHELD_OPEN| + BOUNDARY_LEN + 1
  const UNDIVIDED_NOTE: Text := "[cvc: stimulus parts not marked]"

  /** A part as the planner found it: raw, neither scrubbed nor bounded. */
  datatype StimulusPart = StimulusPart(kind: PartKind, name: Option<Text>, isError: bool, text: Text)

  /** What a scrubber makes of a text: scrubbed, rejected unread for its size, or refused after a scan. */
  datatype Scrubbed = Clean(text: Text) | TooLarge | Refused

  type Scrub = Text -> Scrubbed

  /** Where the redaction markers of a scrubbed text are. */
  type Finder = Text -> seq<Span>

  ghost predicate FindsMarkers(finder: Finder) {
    forall t: Text :: SpansFit(t, finder(t))
  }

  /** A part scrubbed; `body` is `None` when it was withheld. */
  datatype Prepared = Prepared(kind: PartKind, name: Option<Text>, isError: bool, body: Option<Text>)

  // ---- scrubbing ----

  /** A tool name a marker can carry: the name itself when it is valid and the scrubber leaves it alone. */
  function SafeName(name: Option<Text>, scrub: Scrub): (safe: Text)
    ensures IsValidName(safe)
  {
    if name.None? || !IsValidName(name.value) then UNKNOWN_TOOL
    else if scrub(name.value) == Clean(name.value) then name.value
    else REDACTED_TOOL
  }

  /** The bytes of `part` the scrubber scans when `budget` is left: a part over the budget, or rejected unread, costs nothing. */
  function Charge(part: StimulusPart, scrub: Scrub, budget: nat): (cost: nat)
    ensures cost <= budget
  {
    if |part.text| > budget || scrub(part.text) == TooLarge then 0 else |part.text|
  }

  function PreparedPart(part: StimulusPart, scrub: Scrub, budget: nat): Prepared {
    var isTool := part.kind == ToolResult;
    var body := if |part.text| > budget || !scrub(part.text).Clean? then None else Some(scrub(part.text).text);
    Prepared(part.kind, if isTool then Some(SafeName(part.name, scrub)) else None, isTool && part.isError, body)
  }

  method Prepare(part: StimulusPart, scrub: Scrub, budget: nat) returns (prepared: Prepared, left: nat)
    ensures prepared == PreparedPart(part, scrub, budget)
    ensures left == budget - Charge(part, scrub, budget)
  {
    left := budget;
    var isTool := part.kind == ToolResult;
    var name := if isTool then Some(SafeName(part.name, scrub)) else None;
    var body := None;
    if |part.text| <= left {
      match scrub(part.text) {
        case Clean(scrubbed) =>
          left := left - |part.text|;
          body := Some(scrubbed);
        case TooLarge =>
        case Refused =>
          left := left - |part.text|;
      }
    }
    prepared := Prepared(part.kind, name, isTool && part.isError, body);
  }

  /** A person's words, and a subagent's task, are scrubbed before anything else. */
  predicate IsPerson(part: StimulusPart) {
    part.kind == Prompt || part.kind == Task
  }

  /** What is left of `start` once the parts of `parts` that are (or are not) a person's are scrubbed in order. */
  function Left(parts: seq<StimulusPart>, scrub: Scrub, person: bool, start: nat): (left: nat)
    ensures left <= start
  {
    if |parts| == 0 then start
    else
      var before, part := Left(parts[..|parts| - 1], scrub, person, start), parts[|parts| - 1];
      if IsPerson(part) == person then before - Charge(part, scrub, before) else before
  }

  /** The budget part `i` of the shown `parts` is scrubbed with. */
  function BudgetFor(parts: seq<StimulusPart>, scrub: Scrub, i: nat): nat
    requires i < |parts|
  {
    if IsPerson(parts[i]) then Left(parts[..i], scrub, true, MAX_SCRUBBED_BYTES)
    else Left(parts[..i], scrub, false, Left(parts, scrub, true, MAX_SCRUBBED_BYTES))
  }

  function PreparedParts(parts: seq<StimulusPart>, scrub: Scrub): (prepared: seq<Prepared>)
    ensures |prepared| == |parts|
    ensures forall i :: 0 <= i < |parts| ==> prepared[i] == PreparedPart(parts[i], scrub, BudgetFor(parts, scrub, i))
  {
    seq(|parts|, i requires 0 <= i < |parts| => PreparedPart(parts[i], scrub, BudgetFor(parts, scrub, i)))
  }

  method PrepareAll(parts: seq<StimulusPart>, scrub: Scrub) returns (prepared: seq<Prepared>)
    ensures prepared == PreparedParts(parts, scrub)
  {
    hide PreparedPart, Left, IsPerson;
    var slots: seq<Option<Prepared>> := seq(|parts|, _ => None);
    var budget := MAX_SCRUBBED_BYTES;
    slots, budget := PreparePass(parts, scrub, true, slots, budget);
    ghost var persons := slots;
    slots, budget := PreparePass(parts, scrub, false, slots, budget);
    forall i | 0 <= i < |parts| ensures slots[i] == Some(PreparedParts(parts, scrub)[i]) {
      SlotIsPrepared(parts, scrub, i, persons[i], slots[i]);
    }
    prepared := Collect(slots, PreparedParts(parts, scrub));
  }

  /** What the two passes leave in a slot is what its part is prepared as. */
  lemma SlotIsPrepared(parts: seq<StimulusPart>, scrub: Scrub, i: nat, first: Option<Prepared>, second: Option<Prepared>)
    requires i < |parts|
    requires IsPerson(parts[i]) ==>
      second == first == Some(PreparedPart(parts[i], scrub, Left(parts[..i], scrub, true, MAX_SCRUBBED_BYTES)))
    requires !IsPerson(parts[i]) ==>
      second == Some(PreparedPart(parts[i], scrub, Left(parts[..i], scrub, false, Left(parts, scrub, true, MAX_SCRUBBED_BYTES))))
    ensures second == Some(PreparedParts(parts, scrub)[i])
  {
    hide PreparedPart, Left, IsPerson;
  }

  /** Every slot is filled by then. */
  method Collect(slots: seq<Option<Prepared>>, ghost filled: seq<Prepared>) returns (prepared: seq<Prepared>)
    requires |slots| == |filled| && forall i :: 0 <= i < |slots| ==> slots[i] == Some(filled[i])
    ensures prepared == filled
  {
    prepared := [];
    for index := 0 to |slots|
      invariant |prepared| == index && forall i :: 0 <= i < index ==> prepared[i] == filled[i]
    {
      prepared := prepared + [slots[index].value];
    }
  }

  /** One pass over the parts, preparing those that are (or are not) a person's. */
  method PreparePass(parts: seq<StimulusPart>, scrub: Scrub, person: bool, slots0: seq<Option<Prepared>>, budget0: nat)
    returns (slots: seq<Option<Prepared>>, budget: nat)
    requires |slots0| == |parts|
    ensures |slots| == |parts| && budget == Left(parts, scrub, person, budget0)
    ensures forall i :: 0 <= i < |parts| ==>
              slots[i] == if IsPerson(parts[i]) == person
                          then Some(PreparedPart(parts[i], scrub, Left(parts[..i], scrub, person, budget0)))
                          else slots0[i]
  {
    slots, budget := slots0, budget0;
    for index := 0 to |parts|
      invariant |slots| == |parts| && budget == Left(parts[..index], scrub, person, budget0)
      invariant forall i :: index <= i < |parts| ==> slots[i] == slots0[i]
      invariant forall i :: 0 <= i < index ==>
                  slots[i] == if IsPerson(parts[i]) == person
                              then Some(PreparedPart(parts[i], scrub, Left(parts[..i], scrub, person, budget0)))
                              else slots0[i]
    {
      assert parts[..index + 1][..index] == parts[..index];
      if IsPerson(parts[index]) == person {
        var prepared, left := Prepare(parts[index], scrub, budget);
        slots := slots[index := Some(prepared)];
        budget := left;
      }
    }
    assert parts[..|parts|] == parts;
  }

  function Persons(parts: seq<StimulusPart>): seq<StimulusPart> {
    if |parts| == 0 then []
    else Persons(parts[..|parts| - 1]) + (if IsPerson(parts[|parts| - 1]) then [parts[|parts| - 1]] else [])
  }

  /** What a person wrote is prepared as if nothing else were there: tool output, wherever it stands,
      never uses up what a person's words need. */
  lemma PersonsComeFirst(parts: seq<StimulusPart>, scrub: Scrub, i: nat)
    requires i < |parts| && IsPerson(parts[i])
    ensures var persons, k := Persons(parts), |Persons(parts[..i])|;
      k < |persons| && persons[k] == parts[i] && PreparedParts(persons, scrub)[k] == PreparedParts(parts, scrub)[i]
  {
    hide PreparedPart, Left, IsPerson, Persons;
    var persons, k := Persons(parts), |Persons(parts[..i])|;
    PersonKept(parts, i);
    OnlyPersonsCount(parts[..i], scrub, MAX_SCRUBBED_BYTES);
  }

  lemma {:induction false} OnlyPersonsCount(parts: seq<StimulusPart>, scrub: Scrub, start: nat)
    ensures Left(parts, scrub, true, start) == Left(Persons(parts), scrub, true, start)
  {
    if |parts| > 0 {
      var init := parts[..|parts| - 1];
      OnlyPersonsCount(init, scrub, start);
      if IsPerson(parts[|parts| - 1]) {
        assert Persons(parts)[..|Persons(init)|] == Persons(init);
      } else {
        assert Persons(parts) == Persons(init);
      }
    }
  }

  /** The parts persons wrote keep their order: those before part `i` come before it. */
  lemma {:induction false} PersonKept(parts: seq<StimulusPart>, i: nat)
    requires i < |parts| && IsPerson(parts[i])
    ensures var persons, k := Persons(parts), |Persons(parts[..i])|;
      k < |persons| && persons[k] == parts[i] && persons[..k] == Persons(parts[..i])
    decreases |parts|
  {
    hide IsPerson;
    var init := parts[..|parts| - 1];
    if i < |parts| - 1 {
      PersonKept(init, i);
      assert init[..i] == parts[..i];
    }
  }

  // ---- bounding ----

  function SlotOf(item: Prepared): Budget.Slot {
    var markerLen := |RenderMarker(item.kind, item.name, item.isError, PLACEHOLDER_TOKEN)|;
    if item.body.None? then Budget.Slot(markerLen, WITHHELD_NOTE_BYTES, Budget.Fixed)
    else if item.kind == ToolResult then
      Budget.Slot(markerLen, Budget.Min(|item.body.value|, Budget.TOOL_RESULT_CEILING), Budget.Tool)
    else Budget.Slot(markerLen, |item.body.value|, Budget.Other)
  }

  function SlotsOf(items: seq<Prepared>): (slots: seq<Budget.Slot>)
    ensures |slots| == |items| && forall i :: 0 <= i < |items| ==> slots[i] == SlotOf(items[i])
  {
    seq(|items|, i requires 0 <= i < |items| => SlotOf(items[i]))
  }

  ghost function ContentOf(item: Prepared, allowance: nat, finder: Finder): Content
    requires FindsMarkers(finder)
  {
    if item.body.None? then WithheldContent
    else Fitted(item.body.value, finder(item.body.value), allowance, item.kind == ToolResult)
  }

  ghost function ContentsOf(items: seq<Prepared>, allowances: seq<nat>, finder: Finder): (contents: seq<Content>)
    requires FindsMarkers(finder) && |allowances| == |items|
    ensures |contents| == |items|
    ensures forall i :: 0 <= i < |items| ==> contents[i] == ContentOf(items[i], allowances[i], finder)
  {
    seq(|items|, i requires 0 <= i < |items| => ContentOf(items[i], allowances[i], finder))
  }

  method BoundAll(items: seq<Prepared>, allowances: seq<nat>, finder: Finder) returns (contents: seq<Content>)
    requires FindsMarkers(finder) && |allowances| == |items|
    ensures contents == ContentsOf(items, allowances, finder)
  {
    contents := [];
    for index := 0 to |items|
      invariant |contents| == index
      invariant forall i :: 0 <= i < index ==> contents[i] == ContentOf(items[i], allowances[i], finder)
    {
      var content := WithheldContent;
      if items[index].body.Some? {
        var body := items[index].body.value;
        content := Fit(body, finder(body), allowances[index], items[index].kind == ToolResult);
      }
      contents := contents + [content];
    }
  }

  // ---- assembling ----

  /** `note` on its own line between a head and a tail. */
  function Around(head: Text, note: Text, tail: Text): Text {
    var prefix := (if head == "" then "" else head + "\n") + note;
    if tail == "" then prefix else prefix + "\n" + tail
  }

  /** A part's content as it is written, notes inline. */
  function ContentText(content: Content, token: Text): Text {
    match content
    case Whole(text) => text
    case Cut(head, tail, removed) => Around(head, RenderNote(Truncated(removed), token), tail)
    case WithheldContent => RenderNote(Withheld, token)
  }

  function ItemOf(item: Prepared, content: Content, token: Text): Item {
    Item(item.kind, item.name, item.isError, ContentText(content, token))
  }

  function ItemsOf(shown: seq<Prepared>, contents: seq<Content>, token: Text): (items: seq<Item>)
    requires |contents| == |shown|
    ensures |items| == |shown| && forall i :: 0 <= i < |shown| ==> items[i] == ItemOf(shown[i], contents[i], token)
  {
    seq(|shown|, i requires 0 <= i < |shown| => ItemOf(shown[i], contents[i], token))
  }

  method Assemble(shown: seq<Prepared>, contents: seq<Content>, token: Text, omitted: nat) returns (out: Text)
    requires |contents| == |shown|
    ensures out == PrintStimulus(ItemsOf(shown, contents, token), omitted, token)
  {
    hide ContentText, RenderNote, RenderMarker;
    out := "";
    ghost var items := ItemsOf(shown, contents, token);
    for index := 0 to |shown|
      invariant out == PrintItems(items[..index], token)
    {
      assert items[..index + 1][..index] == items[..index];
      if index > 0 {
        out := out + SEPARATOR;
      }
      out := out + RenderMarker(shown[index].kind, shown[index].name, shown[index].isError, token);
      var content := WriteContent(contents[index], token);
      out := out + content;
      PrintSnoc(items[..index + 1], token);
    }
    assert items[..|shown|] == items;
    if omitted > 0 {
      out := out + SEPARATOR;
      out := out + RenderNote(Omitted(omitted), token);
    }
  }

  method WriteContent(content: Content, token: Text) returns (out: Text)
    ensures out == ContentText(content, token)
  {
    match content {
      case Whole(text) => out := text;
      case Cut(head, tail, removed) => out := WriteAround(head, RenderNote(Truncated(removed), token), tail);
      case WithheldContent => out := RenderNote(Withheld, token);
    }
  }

  method WriteAround(head: Text, note: Text, tail: Text) returns (out: Text)
    ensures out == Around(head, note, tail)
  {
    out := "";
    if head != "" {
      out := head;
      out := out + "\n";
    }
    out := out + note;
    if tail != "" {
      out := out + "\n";
      out := out + tail;
    }
  }

  /** A content in the layout that marks nothing, where a note carries no boundary. */
  function PlainContent(content: Content): Text {
    match content
    case Whole(text) => text
    case Cut(head, tail, removed) => Around(head, TRUNCATED_OPEN + Dec(removed) + " bytes]", tail)
    case WithheldContent => "[cvc: withheld]"
  }

  function PlainContents(contents: seq<Content>): Text {
    if |contents| == 0 then UNDIVIDED_NOTE
    else PlainContents(contents[..|contents| - 1]) + SEPARATOR + PlainContent(contents[|contents| - 1])
  }

  /** The degenerate layout when no boundary is free: the contents, unmarked. */
  function PlainStimulus(contents: seq<Content>, omitted: nat): Text {
    PlainContents(contents) + (if omitted > 0 then SEPARATOR + (OMITTED_OPEN + Dec(omitted) + " parts]") else "")
  }

  method AssembleUndivided(contents: seq<Content>, omitted: nat) returns (out: Text)
    ensures out == PlainStimulus(contents, omitted)
  {
    hide PlainContent;
    out := UNDIVIDED_NOTE;
    for index := 0 to |contents|
      invariant out == PlainContents(contents[..index])
    {
      assert contents[..index + 1][..index] == contents[..index];
      out := out + SEPARATOR;
      var content := WritePlain(contents[index]);
      out := out + content;
    }
    assert contents[..|contents|] == contents;
    if omitted > 0 {
      out := out + (SEPARATOR + (OMITTED_OPEN + Dec(omitted) + " parts]"));
    }
  }

  method WritePlain(content: Content) returns (out: Text)
    ensures out == PlainContent(content)
  {
    match content {
      case Whole(text) => out := text;
      case Cut(head, tail, removed) => out := WriteAround(head, TRUNCATED_OPEN + Dec(removed) + " bytes]", tail);
      case WithheldContent => out := "[cvc: withheld]";
    }
  }

  // ---- the boundary ----

  /** The texts a boundary must not occur in: names, whole contents, heads and tails. */
  ghost predicate TokenIn(item: Prepared, content: Content, token: Text) {
    || (item.name.Some? && Occurs(item.name.value, token))
    || (match content
        case Whole(text) => Occurs(text, token)
        case Cut(head, tail, _) => Occurs(head, token) || Occurs(tail, token)
        case WithheldContent => false)
  }

  ghost predicate IsPresent(shown: seq<Prepared>, contents: seq<Content>, token: Text)
    requires |contents| == |shown|
  {
    exists i :: 0 <= i < |shown| && TokenIn(shown[i], contents[i], token)
  }

  /** The smallest candidate from `c` on that occurs in no content and no name. */
  ghost function FreeCandidate(hash: Hash, id: Text, shape: Text, shown: seq<Prepared>, contents: seq<Content>, c: nat): (free: Option<nat>)
    requires |contents| == |shown| && c <= BOUNDARY_CANDIDATES
    ensures free.Some? ==> c <= free.value < BOUNDARY_CANDIDATES
                           && !IsPresent(shown, contents, Boundary(hash, id, shape, free.value))
    ensures free.Some? ==> forall d :: c <= d < free.value ==> IsPresent(shown, contents, Boundary(hash, id, shape, d))
    ensures free.None? ==> forall d :: c <= d < BOUNDARY_CANDIDATES ==> IsPresent(shown, contents, Boundary(hash, id, shape, d))
    decreases BOUNDARY_CANDIDATES - c
  {
    if c == BOUNDARY_CANDIDATES then None
    else if !IsPresent(shown, contents, Boundary(hash, id, shape, c)) then Some(c)
    else FreeCandidate(hash, id, shape, shown, contents, c + 1)
  }

  /** Every boundary-shaped token in `text`. */
  method TokensIn(text: Text) returns (tokens: set<Text>)
    ensures forall t: Text :: IsToken(t) ==> (t in tokens <==> Occurs(text, t))
  {
    hide IsToken;
    tokens := {};
    for at := 0 to |text|
      invariant forall t: Text :: IsToken(t) ==> (t in tokens <==> exists i: nat :: i < at && OccursAt(text, t, i))
    {
      TokenOccurs(text, at);
      if TokenAt(text, at) {
        tokens := tokens + {text[at..at + BOUNDARY_LEN]};
      }
    }
    forall t: Text | IsToken(t)
      ensures t in tokens <==> Occurs(text, t)
    {
      assert |t| == BOUNDARY_LEN by { TokenBytes(t); }
    }
  }

  lemma TokenOccurs(text: Text, at: nat)
    ensures forall t: Text :: IsToken(t) ==> (OccursAt(text, t, at) <==> TokenAt(text, at) && text[at..at + BOUNDARY_LEN] == t)
  {
  }

  method PresentTokens(shown: seq<Prepared>, contents: seq<Content>) returns (present: set<Text>)
    requires |contents| == |shown|
    ensures forall t: Text :: IsToken(t) ==> (t in present <==> IsPresent(shown, contents, t))
  {
    hide IsToken, Occurs;
    present := {};
    for index := 0 to |shown|
      invariant forall t: Text :: IsToken(t) ==>
                  (t in present <==> exists i :: 0 <= i < index && TokenIn(shown[i], contents[i], t))
    {
      var inPart := PartTokens(shown[index], contents[index]);
      present := present + inPart;
    }
  }

  method PartTokens(item: Prepared, content: Content) returns (present: set<Text>)
    ensures forall t: Text :: IsToken(t) ==> (t in present <==> TokenIn(item, content, t))
  {
    hide IsToken, Occurs;
    present := {};
    if item.name.Some? {
      present := TokensIn(item.name.value);
    }
    match content {
      case Whole(text) =>
        var more := TokensIn(text);
        present := present + more;
      case Cut(head, tail, _) =>
        var more := TokensIn(head);
        present := present + more;
        more := TokensIn(tail);
        present := present + more;
      case WithheldContent =>
    }
  }

  // ---- rendering ----

  /** A rendered stimulus and what the writer decided. */
  datatype Rendered = Rendered(text: Text, candidate: Option<nat>, keptParts: nat, omittedParts: nat)

  function PreparedKinds(shown: seq<Prepared>): (kinds: seq<PartKind>)
    ensures |kinds| == |shown| && forall i :: 0 <= i < |shown| ==> kinds[i] == shown[i].kind
  {
    seq(|shown|, i requires 0 <= i < |shown| => shown[i].kind)
  }

  /** The bounded parts, marked with the first free boundary or left undivided. */
  ghost function Marked(hash: Hash, id: Text, shown: seq<Prepared>, contents: seq<Content>, omitted: nat): Rendered
    requires |contents| == |shown|
  {
    var shape := ShapeOf(PreparedKinds(shown));
    match FreeCandidate(hash, id, shape, shown, contents, 0)
    case Some(c) =>
      var token := Boundary(hash, id, shape, c);
      Rendered(PrintStimulus(ItemsOf(shown, contents, token), omitted, token), Some(c), |shown|, omitted)
    case None => Rendered(PlainStimulus(contents, omitted), None, |shown|, omitted)
  }

  function Shown<T>(parts: seq<T>): seq<T> {
    if |parts| <= MAX_PARTS then parts else parts[..MAX_PARTS]
  }

  ghost function KeptParts(parts: seq<StimulusPart>, scrub: Scrub): (shown: seq<Prepared>)
    ensures |shown| <= |parts|
  {
    var prepared := PreparedParts(Shown(parts), scrub);
    prepared[..Budget.Allocated(SlotsOf(prepared), |parts|, Budget.MAX_STIMULUS_BYTES).kept]
  }

  ghost function KeptContents(parts: seq<StimulusPart>, scrub: Scrub, finder: Finder): (contents: seq<Content>)
    requires FindsMarkers(finder)
    ensures |contents| == |KeptParts(parts, scrub)|
  {
    var prepared := PreparedParts(Shown(parts), scrub);
    var allocation := Budget.Allocated(SlotsOf(prepared), |parts|, Budget.MAX_STIMULUS_BYTES);
    ContentsOf(prepared[..allocation.kept], allocation.allowances, finder)
  }

  /** What the writer makes of `parts`. */
  ghost function RenderOf(hash: Hash, id: Text, parts: seq<StimulusPart>, scrub: Scrub, finder: Finder): Rendered
    requires FindsMarkers(finder)
  {
    if |parts| == 0 then Rendered(NO_STIMULUS, None, 0, 0)
    else
      var shown := KeptParts(parts, scrub);
      Marked(hash, id, shown, KeptContents(parts, scrub, finder), |parts| - |shown|)
  }

  method ChooseBoundary(hash: Hash, id: Text, shape: Text, shown: seq<Prepared>, contents: seq<Content>)
    returns (chosen: Option<nat>)
    requires |contents| == |shown|
    ensures chosen == FreeCandidate(hash, id, shape, shown, contents, 0)
  {
    hide IsToken, IsPresent;
    var present := PresentTokens(shown, contents);
    var candidate := 0;
    while candidate < BOUNDARY_CANDIDATES
      invariant candidate <= BOUNDARY_CANDIDATES
      invariant FreeCandidate(hash, id, shape, shown, contents, 0) == FreeCandidate(hash, id, shape, shown, contents, candidate)
    {
      if Boundary(hash, id, shape, candidate) !in present {
        return Some(candidate);
      }
      candidate := candidate + 1;
    }
    chosen := None;
  }

  /** Marks the bounded parts with the first free boundary, or leaves them undivided. */
  method Mark(hash: Hash, id: Text, shown: seq<Prepared>, contents: seq<Content>, omitted: nat) returns (rendered: Rendered)
    requires |contents| == |shown|
    ensures rendered == Marked(hash, id, shown, contents, omitted)
  {
    hide FreeCandidate, PrintStimulus, PlainStimulus, ItemsOf, IsToken;
    var shape := ShapeOf(PreparedKinds(shown));
    var chosen := ChooseBoundary(hash, id, shape, shown, contents);
    if chosen.Some? {
      var text := Assemble(shown, contents, Boundary(hash, id, shape, chosen.value), omitted);
      rendered := Rendered(text, chosen, |shown|, omitted);
    } else {
      var text := AssembleUndivided(contents, omitted);
      rendered := Rendered(text, None, |shown|, omitted);
    }
  }

  /** Renders `parts`, the stimulus of interaction `id`. */
  method Render(hash: Hash, id: Text, parts: seq<StimulusPart>, scrub: Scrub, finder: Finder) returns (rendered: Rendered)
    requires FindsMarkers(finder)
    ensures rendered == RenderOf(hash, id, parts, scrub, finder)
  {
    hide FindsMarkers, Marked, ContentsOf, SlotsOf, PreparedParts, Budget.Allocated;
    if |parts| == 0 {
      return Rendered(NO_STIMULUS, None, 0, 0);
    }
    var prepared := PrepareAll(Shown(parts), scrub);
    var kept, allowances := Budget.Allocate(SlotsOf(prepared), |parts|, Budget.MAX_STIMULUS_BYTES);
    var contents := BoundAll(prepared[..kept], allowances, finder);
    rendered := Mark(hash, id, prepared[..kept], contents, |parts| - kept);
  }
}
