/** The version 2 stimulus format: part kinds, boundary tokens, markers and notes. */
module StimulusFormat {
  import opened Bytes

  const NO_STIMULUS: Text := "[no stimulus recorded]"
  const SEPARATOR: Text := "\n\n"
  const BOUNDARY_PREFIX: Text := "~cvc-"
  const BOUNDARY_LEN: nat := 21
  const BOUNDARY_CANDIDATES: nat := 64
  const MAX_NAME_BYTES: nat := 200
  const UNKNOWN_TOOL: Text := "unknown-tool"
  const REDACTED_TOOL: Text := "redacted-tool"
  // The note opens with U+2026, whose UTF-8 form is E2 80 A6.
  const TRUNCATED_OPEN: Text := "\U{00E2}\U{0080}\U{00A6}[cvc: truncated "
  const WITHHELD_OPEN: Text := "[cvc: withheld "
  const OMITTED_OPEN: Text := "[cvc: omitted "
  const TRUNCATED_WORD: Text := " bytes "
  const OMITTED_WORD: Text := " parts "
  /** Counts a note can carry: those of at most 18 digits. */
  const COUNT_LIMIT: nat := 1_000_000_000_000_000_000

  datatype PartKind = Prompt | Task | Meta | CompactionSummary | ToolResult

  // ---- tokens ----

  predicate IsNameByte(c: char) {
    '0' <= c <= '9' || 'a' <= c <= 'z' || 'A' <= c <= 'Z' || c == '_' || c == '.' || c == ':' || c == '-'
  }

  predicate IsValidName(name: Text) {
    1 <= |name| <= MAX_NAME_BYTES && forall i :: 0 <= i < |name| ==> IsNameByte(name[i])
  }

  predicate IsHexDigit(c: char) {
    '0' <= c <= '9' || 'a' <= c <= 'f'
  }

  predicate IsToken(t: Text) {
    |t| == BOUNDARY_LEN && BOUNDARY_PREFIX <= t && forall i :: 5 <= i < BOUNDARY_LEN ==> IsHexDigit(t[i])
  }

  predicate TokenAt(t: Text, at: nat) {
    at + BOUNDARY_LEN <= |t| && IsToken(t[at..at + BOUNDARY_LEN])
  }

  ghost predicate ContainsToken(t: Text) {
    exists at: nat :: TokenAt(t, at)
  }

  /** A token is a `~` followed by bytes that are neither `~` nor structure. */
  lemma TokenBytes(t: Text)
    requires IsToken(t)
    ensures |t| == 21 && t[0] == '~'
    ensures forall i :: 1 <= i < |t| ==> t[i] != '~'
    ensures forall i :: 0 <= i < |t| ==> t[i] != '[' && t[i] != ']' && t[i] != '\n' && t[i] != ' ' && t[i] as int < 0x80
  {
    assert t[..5] == BOUNDARY_PREFIX;
    forall i | 0 <= i < 5
      ensures t[i] == BOUNDARY_PREFIX[i]
    {
      assert t[i] == t[..5][i];
    }
  }

  // ---- the boundary ----

  /** The first eight bytes of SHA-256 as a big-endian number. */
  type Hash = Text -> nat

  const BOUNDARY_DOMAIN: Text := "cvc.stimulus-boundary/v2\0"

  function ShapeName(kind: PartKind): Text {
    match kind
    case Prompt => "prompt"
    case Task => "task"
    case Meta => "meta"
    case CompactionSummary => "compaction_summary"
    case ToolResult => "tool_result"
  }

  function ShapeOf(kinds: seq<PartKind>): Text {
    if |kinds| == 0 then ""
    else if |kinds| == 1 then ShapeName(kinds[0])
    else ShapeOf(kinds[..|kinds| - 1]) + "," + ShapeName(kinds[|kinds| - 1])
  }

  function BigEndian32(n: nat): Text {
    [(n / 0x1000000 % 0x100) as char, (n / 0x10000 % 0x100) as char, (n / 0x100 % 0x100) as char, (n % 0x100) as char]
  }

  function BoundaryInput(id: Text, shape: Text, candidate: nat): Text {
    BOUNDARY_DOMAIN + id + "\0" + shape + "\0" + BigEndian32(candidate)
  }

  function HexDigit(n: nat): (c: char)
    requires n < 16
    ensures IsHexDigit(c)
  {
    if n < 10 then ('0' as int + n) as char else ('a' as int + n - 10) as char
  }

  /** The low `digits` hex digits of `n`, lowercase. */
  function Hex(n: nat, digits: nat): (t: Text)
    ensures |t| == digits && forall i :: 0 <= i < digits ==> IsHexDigit(t[i])
  {
    if digits == 0 then [] else Hex(n / 16, digits - 1) + [HexDigit(n % 16)]
  }

  /** Boundary candidate `candidate` of the stimulus of interaction `id` whose parts have `shape`. */
  function Boundary(hash: Hash, id: Text, shape: Text, candidate: nat): (token: Text)
    ensures IsToken(token)
  {
    BOUNDARY_PREFIX + Hex(hash(BoundaryInput(id, shape, candidate)), 16)
  }

  predicate IsCandidate(hash: Hash, id: Text, shape: Text, token: Text) {
    exists c: nat | c < BOUNDARY_CANDIDATES :: Boundary(hash, id, shape, c) == token
  }

  // ---- markers ----

  datatype Marker = Marker(
    kind: PartKind, name: Option<Text>, isError: bool, token: Text, start: nat, tokenAt: nat, end: nat)

  /** How a marker of `kind` opens. */
  function KindOpen(kind: PartKind): Text {
    match kind
    case Prompt => "[prompt "
    case Task => "[task "
    case Meta => "[meta "
    case CompactionSummary => "[compaction summary "
    case ToolResult => "[tool_result "
  }

  function ErrorFlag(isError: bool): Text {
    if isError then "error " else ""
  }

  /** What a marker spells before its token. */
  function MarkerOpen(kind: PartKind, name: Option<Text>, isError: bool): Text {
    if kind != ToolResult then KindOpen(kind)
    else KindOpen(kind) + (if name.Some? then name.value else UNKNOWN_TOOL) + " " + ErrorFlag(isError)
  }

  function MarkerClose(kind: PartKind): Text {
    if kind == CompactionSummary then "]\n" else "] "
  }

  function RenderMarker(kind: PartKind, name: Option<Text>, isError: bool, token: Text): Text {
    MarkerOpen(kind, name, isError) + token + MarkerClose(kind)
  }

  function StripPrefix(t: Text, prefix: Text): Option<Text> {
    if prefix <= t then Some(t[|prefix|..]) else None
  }

  /** How many name bytes `t` opens with. */
  function NameRun(t: Text): (n: nat)
    ensures n <= |t| && forall i :: 0 <= i < n ==> IsNameByte(t[i])
    ensures n < |t| ==> !IsNameByte(t[n])
  {
    if |t| > 0 && IsNameByte(t[0]) then 1 + NameRun(t[1..]) else 0
  }

  datatype ToolHead = ToolHead(name: Text, isError: bool, tail: Text)

  /** The name and error flag after `[tool_result `, and what follows them. */
  function ParseToolHead(tail: Text): Option<ToolHead> {
    var length := NameRun(tail);
    if length == 0 || length > MAX_NAME_BYTES then None
    else
      var name, after := tail[..length], StripPrefix(tail[length..], " ");
      if after.None? then None
      else
        var flagged := StripPrefix(after.value, "error ");
        if flagged.Some? && BOUNDARY_PREFIX <= flagged.value
        then Some(ToolHead(name, true, flagged.value))
        else Some(ToolHead(name, false, after.value))
  }

  datatype Head = Head(kind: PartKind, name: Option<Text>, isError: bool, tail: Text)

  /** The kind whose opening `rest` starts with. */
  function KindAt(rest: Text): Option<PartKind> {
    if KindOpen(Prompt) <= rest then Some(Prompt)
    else if KindOpen(Task) <= rest then Some(Task)
    else if KindOpen(Meta) <= rest then Some(Meta)
    else if KindOpen(CompactionSummary) <= rest then Some(CompactionSummary)
    else if KindOpen(ToolResult) <= rest then Some(ToolResult)
    else None
  }

  /** What a marker that opens `rest` says before its token, and what follows. */
  function ParseHead(rest: Text): Option<Head> {
    match KindAt(rest)
    case None => None
    case Some(ToolResult) =>
      (match ParseToolHead(rest[|KindOpen(ToolResult)|..])
       case None => None
       case Some(tool) => Some(Head(ToolResult, Some(tool.name), tool.isError, tool.tail)))
    case Some(kind) => Some(Head(kind, None, false, rest[|KindOpen(kind)|..]))
  }

  /** The marker that starts at byte `at` of `text`, if the strict grammar holds. */
  function MarkerAt(text: Text, at: nat): Option<Marker> {
    if at > |text| then None
    else
      var rest := text[at..];
      var head := ParseHead(rest);
      if head.None? then None
      else
        var tail := head.value.tail;
        if !TokenAt(tail, 0) || |tail| > |rest| then None
        else if !(MarkerClose(head.value.kind) <= tail[BOUNDARY_LEN..]) then None
        else
          var tokenAt := at + (|rest| - |tail|);
          Some(Marker(head.value.kind, head.value.name, head.value.isError, tail[..BOUNDARY_LEN],
                      at, tokenAt, tokenAt + BOUNDARY_LEN + 2))
  }

  /** A name a marker of `kind` can carry. */
  predicate NameFits(kind: PartKind, name: Option<Text>, isError: bool) {
    if kind == ToolResult then name.Some? && IsValidName(name.value) else name.None? && !isError
  }

  /** `m` is printed at its own place in `text`. */
  predicate IsPrinted(text: Text, m: Marker) {
    && NameFits(m.kind, m.name, m.isError)
    && IsToken(m.token)
    && m.tokenAt == m.start + |MarkerOpen(m.kind, m.name, m.isError)|
    && m.end == m.tokenAt + BOUNDARY_LEN + 2 <= |text|
    && text[m.start..m.end] == RenderMarker(m.kind, m.name, m.isError, m.token)
  }

  // A marker opens with its only bracket.
  predicate IsClear(c: char) {
    c != '[' && c != '~' && c != '\n'
  }

  lemma KindBytes(kind: PartKind)
    ensures var open := KindOpen(kind);
            |open| >= 6 && open[0] == '[' && open[2] != 'v' && open[|open| - 1] == ' '
            && forall i :: 1 <= i < |open| ==> IsClear(open[i])
  {
  }

  lemma FlagBytes(isError: bool)
    ensures var flag := ErrorFlag(isError);
            (flag == "" || flag[|flag| - 1] == ' ') && forall i :: 0 <= i < |flag| ==> IsClear(flag[i])
  {
  }

  lemma NameBytes(name: Text)
    requires IsValidName(name)
    ensures forall i :: 0 <= i < |name| ==> IsClear(name[i])
  {
  }

  lemma OpenBytes(kind: PartKind, name: Option<Text>, isError: bool)
    requires NameFits(kind, name, isError)
    ensures var open := MarkerOpen(kind, name, isError);
            |open| >= 6 && open[0] == '[' && open[2] != 'v' && open[|open| - 1] == ' '
            && forall i :: 1 <= i < |open| ==> IsClear(open[i])
  {
    hide KindOpen, ErrorFlag, IsValidName, IsClear;
    KindBytes(kind);
    if kind == ToolResult {
      NameBytes(name.value);
      FlagBytes(isError);
      SpaceIsClear();
      ToolBytes(KindOpen(kind), name.value, ErrorFlag(isError));
    }
  }

  lemma SpaceIsClear()
    ensures IsClear(' ')
  {
  }

  lemma ToolBytes(open: Text, name: Text, flag: Text)
    requires |open| >= 6 && (flag == "" || flag[|flag| - 1] == ' ') && IsClear(' ')
    requires forall i :: 1 <= i < |open| ==> IsClear(open[i])
    requires forall i :: 0 <= i < |name| ==> IsClear(name[i])
    requires forall i :: 0 <= i < |flag| ==> IsClear(flag[i])
    ensures var all := open + name + " " + flag;
            && all[0] == open[0] && all[2] == open[2] && all[|all| - 1] == ' '
            && forall i :: 1 <= i < |all| ==> IsClear(all[i])
  {
    hide IsClear;
  }

  lemma ParseToolHeadOfPrinted(name: Text, isError: bool, tail: Text)
    requires IsValidName(name) && BOUNDARY_PREFIX <= tail
    ensures ParseToolHead(name + " " + ErrorFlag(isError) + tail)
         == Some(ToolHead(name, isError, tail))
  {
    hide NameRun, ErrorFlag, StripPrefix;
    var flag := ErrorFlag(isError);
    var t := name + " " + flag + tail;
    NameRunIs(t, |name|);
    assert t[..|name|] == name;
    assert t[|name|..] == " " + (flag + tail);
    StripJustThat(" ", flag + tail);
    FlagOff(isError, tail);
  }

  lemma StripJustThat(prefix: Text, t: Text)
    ensures StripPrefix(prefix + t, prefix) == Some(t)
  {
    assert (prefix + t)[|prefix|..] == t;
  }

  /** The error flag comes off when it is there, and a boundary is no flag. */
  lemma FlagOff(isError: bool, tail: Text)
    requires BOUNDARY_PREFIX <= tail
    ensures isError ==> StripPrefix(ErrorFlag(isError) + tail, "error ") == Some(tail)
    ensures !isError ==> ErrorFlag(isError) + tail == tail && StripPrefix(tail, "error ") == None
  {
    hide StripPrefix;
    if isError {
      StripJustThat("error ", tail);
    } else {
      assert "" + tail == tail;
      BoundaryIsNoFlag(tail);
    }
  }

  lemma BoundaryIsNoFlag(tail: Text)
    requires BOUNDARY_PREFIX <= tail
    ensures StripPrefix(tail, "error ") == None
  {
    assert tail[0] == BOUNDARY_PREFIX[0];
  }

  lemma {:induction false} NameRunIs(t: Text, n: nat)
    requires n < |t| && !IsNameByte(t[n]) && forall i :: 0 <= i < n ==> IsNameByte(t[i])
    ensures NameRun(t) == n
  {
    if n > 0 {
      NameRunIs(t[1..], n - 1);
    }
  }

  lemma PrintedToolHead(t: Text)
    requires ParseToolHead(t).Some? && BOUNDARY_PREFIX <= ParseToolHead(t).value.tail
    ensures var h := ParseToolHead(t).value;
            IsValidName(h.name) && t == h.name + " " + ErrorFlag(h.isError) + h.tail
  {
    var length := NameRun(t);
    var name, after := t[..length], t[length..];
    assert t == name + after && after == " " + after[1..];
  }

  lemma KindAtOfPrinted(kind: PartKind, rest: Text)
    requires KindOpen(kind) <= rest
    ensures KindAt(rest) == Some(kind)
  {
    assert rest[1] == KindOpen(kind)[1] && rest[2] == KindOpen(kind)[2];
    forall other: PartKind | KindOpen(other) <= rest
      ensures other == kind
    {
      assert rest[1] == KindOpen(other)[1] && rest[2] == KindOpen(other)[2];
    }
  }

  /** The text that follows a marker's opening determines how it parses. */
  lemma ParseHeadOfPrinted(kind: PartKind, name: Option<Text>, isError: bool, tail: Text)
    requires NameFits(kind, name, isError) && BOUNDARY_PREFIX <= tail
    ensures ParseHead(MarkerOpen(kind, name, isError) + tail) == Some(Head(kind, name, isError, tail))
  {
    hide KindAt, KindOpen, ParseToolHead;
    var rest := MarkerOpen(kind, name, isError) + tail;
    assert KindOpen(kind) <= rest;
    KindAtOfPrinted(kind, rest);
    if kind == ToolResult {
      assert rest[|KindOpen(kind)|..] == name.value + " " + ErrorFlag(isError) + tail;
      ParseToolHeadOfPrinted(name.value, isError, tail);
    } else {
      assert rest[|KindOpen(kind)|..] == tail;
    }
  }

  lemma PrintedHead(rest: Text)
    requires ParseHead(rest).Some? && BOUNDARY_PREFIX <= ParseHead(rest).value.tail
    ensures var h := ParseHead(rest).value;
            NameFits(h.kind, h.name, h.isError) && rest == MarkerOpen(h.kind, h.name, h.isError) + h.tail
  {
    hide KindOpen, ParseToolHead;
    var kind := KindAt(rest).value;
    assert KindOpen(kind) <= rest;
    hide KindAt;
    var after := rest[|KindOpen(kind)|..];
    assert rest == KindOpen(kind) + after;
    if kind == ToolResult {
      PrintedToolHead(after);
    }
  }

  /** Parsing a marker and printing it are inverse: `MarkerAt` finds exactly the printed ones. */
  lemma MarkerExact(text: Text, m: Marker)
    ensures MarkerAt(text, m.start) == Some(m) <==> IsPrinted(text, m)
  {
    if MarkerAt(text, m.start) == Some(m) {
      PrintedOfMarker(text, m);
    }
    if IsPrinted(text, m) {
      MarkerOfPrinted(text, m);
    }
  }

  lemma MarkerOfPrinted(text: Text, m: Marker)
    requires IsPrinted(text, m)
    ensures MarkerAt(text, m.start) == Some(m)
  {
    hide MarkerOpen, ParseHead;
    var open, close := MarkerOpen(m.kind, m.name, m.isError), MarkerClose(m.kind);
    var rest, tail := text[m.start..], text[m.tokenAt..];
    var printed := text[m.start..m.end];
    assert printed[..|open|] == open && printed[|open|..|open| + BOUNDARY_LEN] == m.token
        && printed[|open| + BOUNDARY_LEN..] == close;
    SliceOfSlice(text, m.start, m.end, 0, |open|);
    SliceOfSlice(text, m.start, m.end, |open|, |open| + BOUNDARY_LEN);
    SliceOfSlice(text, m.start, m.end, |open| + BOUNDARY_LEN, |printed|);
    assert rest == open + tail;
    assert tail[..BOUNDARY_LEN] == m.token;
    assert tail[..5] == m.token[..5];
    ParseHeadOfPrinted(m.kind, m.name, m.isError, tail);
    assert tail[BOUNDARY_LEN..][..2] == close;
  }

  lemma PrintedOfMarker(text: Text, m: Marker)
    requires MarkerAt(text, m.start) == Some(m)
    ensures IsPrinted(text, m)
  {
    hide MarkerOpen, ParseHead, IsToken, NameFits;
    var rest := text[m.start..];
    var tail := ParseHead(rest).value.tail;
    assert tail[0..BOUNDARY_LEN] == tail[..BOUNDARY_LEN];
    TokenBegins(m.token);
    assert BOUNDARY_PREFIX <= tail by { assert tail[..5] == tail[..BOUNDARY_LEN][..5]; }
    PrintedHead(rest);
    ThreePieces(rest, MarkerOpen(m.kind, m.name, m.isError), m.token, MarkerClose(m.kind), tail);
    assert text[m.start..m.end] == rest[..m.end - m.start];
  }

  lemma TokenBegins(t: Text)
    requires IsToken(t)
    ensures |t| == BOUNDARY_LEN && t[..5] == BOUNDARY_PREFIX
  {
  }

  lemma ThreePieces(rest: Text, open: Text, token: Text, close: Text, tail: Text)
    requires rest == open + tail && |token| <= |tail| && token == tail[..|token|] && close <= tail[|token|..]
    ensures |open| + |token| + |close| <= |rest| && rest[..|open| + |token| + |close|] == open + token + close
  {
  }
}
