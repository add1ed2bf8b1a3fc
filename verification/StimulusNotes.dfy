/** The notes of a stimulus: what was cut, withheld or left out. */
module StimulusNotes {
  import opened Bytes
  import opened StimulusFormat

  datatype NoteKind = Truncated(bytes: nat) | Withheld | Omitted(parts: nat)

  datatype Note = Note(kind: NoteKind, start: nat, end: nat)

  /** How many digits end `t`. */
  function TrailingDigits(t: Text): (n: nat)
    ensures n <= |t| && AllDigits(t[|t| - n..])
    ensures n < |t| ==> !IsDigit(t[|t| - n - 1])
  {
    if |t| > 0 && IsDigit(t[|t| - 1]) then 1 + TrailingDigits(t[..|t| - 1]) else 0
  }

  /** The count the maximal run of digits ending `t` spells, and how many digits it has. */
  function TrailingCount(t: Text): Option<(nat, nat)> {
    var digits := TrailingDigits(t);
    if digits == 0 || digits > 18 then None
    else
      var run := t[|t| - digits..];
      if run[0] == '0' then None else Some((ParseDec(run), digits))
  }

  /** `open` count `word` at the end of `before`: the count, and where it starts. */
  function CountedNote(before: Text, open: Text, word: Text): Option<(nat, nat)> {
    if !EndsWith(before, word) then None
    else
      var counted := before[..|before| - |word|];
      match TrailingCount(counted)
      case None => None
      case Some((count, digits)) =>
        var head := counted[..|counted| - digits];
        if EndsWith(head, open) then Some((count, |head| - |open|)) else None
  }

  /** The note whose boundary token starts at `at` of `text`, if the text around the token spells one. */
  function NoteAt(text: Text, at: nat): Option<Note> {
    if at + BOUNDARY_LEN > |text| || !("]" <= text[at + BOUNDARY_LEN..]) then None
    else
      var before, end := text[..at], at + BOUNDARY_LEN + 1;
      var truncated := CountedNote(before, TRUNCATED_OPEN, TRUNCATED_WORD);
      if truncated.Some? then Some(Note(Truncated(truncated.value.0), truncated.value.1, end))
      else if EndsWith(before, WITHHELD_OPEN) then Some(Note(Withheld, at - |WITHHELD_OPEN|, end))
      else
        var omitted := CountedNote(before, OMITTED_OPEN, OMITTED_WORD);
        if omitted.Some? then Some(Note(Omitted(omitted.value.0), omitted.value.1, end)) else None
  }

  /** What a note spells before its token. */
  function NoteOpen(kind: NoteKind): Text {
    match kind
    case Truncated(n) => TRUNCATED_OPEN + Dec(n) + TRUNCATED_WORD
    case Withheld => WITHHELD_OPEN
    case Omitted(n) => OMITTED_OPEN + Dec(n) + OMITTED_WORD
  }

  function RenderNote(kind: NoteKind, token: Text): Text {
    NoteOpen(kind) + token + "]"
  }

  /** A count the reader accepts: no more than 18 digits, and not zero. */
  predicate CountReads(kind: NoteKind) {
    match kind
    case Truncated(n) => 1 <= n < COUNT_LIMIT
    case Withheld => true
    case Omitted(n) => 1 <= n < COUNT_LIMIT
  }

  /** `note` is printed with its token at `at` of `text`. */
  predicate IsNoteAt(text: Text, at: nat, note: Note) {
    && CountReads(note.kind)
    && at + BOUNDARY_LEN + 1 == note.end <= |text|
    && note.start + |NoteOpen(note.kind)| == at
    && text[note.start..at] == NoteOpen(note.kind)
    && text[at + BOUNDARY_LEN] == ']'
  }

  // ---- counts ----

  lemma {:induction false} TrailingDigitsIs(t: Text, n: nat)
    requires n <= |t| && forall i :: |t| - n <= i < |t| ==> IsDigit(t[i])
    requires n < |t| ==> !IsDigit(t[|t| - n - 1])
    ensures TrailingDigits(t) == n
  {
    if n > 0 {
      TrailingDigitsIs(t[..|t| - 1], n - 1);
    }
  }

  lemma CountLimitDigits()
    ensures Pow10(18) == COUNT_LIMIT
  {
    assert Pow10(2) == 100 && Pow10(4) == 10_000 && Pow10(6) == 1_000_000;
    assert Pow10(8) == 100_000_000 && Pow10(10) == 10_000_000_000 && Pow10(12) == 1_000_000_000_000;
    assert Pow10(14) == 100_000_000_000_000 && Pow10(16) == 10_000_000_000_000_000;
  }

  lemma TrailingCountOfDec(t: Text, pre: Text, n: nat)
    requires t == pre + Dec(n) && 1 <= n < COUNT_LIMIT
    requires |pre| > 0 && !IsDigit(pre[|pre| - 1])
    ensures TrailingCount(t) == Some((n, |Dec(n)|))
  {
    TrailingDigitsIs(t, |Dec(n)|);
    DecLength(n, 18);
    CountLimitDigits();
    assert t[|t| - |Dec(n)|..] == Dec(n);
    ParseOfDec(n);
  }

  lemma DecOfTrailingCount(t: Text, n: nat, digits: nat)
    requires TrailingCount(t) == Some((n, digits))
    ensures 1 <= n < COUNT_LIMIT && digits == |Dec(n)| <= |t| && t[|t| - digits..] == Dec(n)
  {
    var run := t[|t| - digits..];
    DecOfParse(run);
    DecLength(n, 18);
    CountLimitDigits();
  }

  /** A counted note is found exactly where one is printed. */
  lemma CountedNoteExact(before: Text, open: Text, word: Text, n: nat, start: nat)
    requires |open| > 0 && !IsDigit(open[|open| - 1])
    ensures CountedNote(before, open, word) == Some((n, start))
      <==> 1 <= n < COUNT_LIMIT && start <= |before| && before[start..] == open + Dec(n) + word
  {
    if CountedNote(before, open, word) == Some((n, start)) {
      CountedNoteIsPrinted(before, open, word, n, start);
    }
    if 1 <= n < COUNT_LIMIT && start <= |before| && before[start..] == open + Dec(n) + word {
      CountedNoteOfPrinted(before, open, word, n, start);
    }
  }

  lemma CountedNoteIsPrinted(before: Text, open: Text, word: Text, n: nat, start: nat)
    requires CountedNote(before, open, word) == Some((n, start))
    ensures 1 <= n < COUNT_LIMIT && start <= |before| && before[start..] == open + Dec(n) + word
  {
    var counted := before[..|before| - |word|];
    var digits := TrailingCount(counted).value.1;
    DecOfTrailingCount(counted, n, digits);
    hide TrailingCount, Dec;
    var head := counted[..|counted| - digits];
    SplitEnd(head, start, [], open);
    SplitEnd(counted, start, open, Dec(n));
    SplitEnd(before, start, open + Dec(n), word);
    assert [] + open == open;
  }

  // What follows `start` in a text that ends in `last`.
  lemma SplitEnd(t: Text, start: nat, middle: Text, last: Text)
    requires EndsWith(t, last) && start <= |t| - |last| && t[..|t| - |last|][start..] == middle
    ensures t[start..] == middle + last
  {
    assert t == t[..|t| - |last|] + last;
  }

  lemma CountedNoteOfPrinted(before: Text, open: Text, word: Text, n: nat, start: nat)
    requires |open| > 0 && !IsDigit(open[|open| - 1])
    requires 1 <= n < COUNT_LIMIT && start <= |before| && before[start..] == open + Dec(n) + word
    ensures CountedNote(before, open, word) == Some((n, start))
  {
    hide TrailingCount, Dec;
    var counted, head := before[..start] + open + Dec(n), before[..start] + open;
    assert before == before[..start] + before[start..];
    assert before == counted + word;
    assert before[..|before| - |word|] == counted;
    TrailingCountOfDec(counted, head, n);
    assert counted[..|counted| - |Dec(n)|] == head;
    assert head[|head| - |open|..] == open;
  }

  // ---- notes ----

  // The last bytes before the token tell the three kinds of note apart.
  lemma OpeningsDiffer(before: Text)
    ensures EndsWith(before, TRUNCATED_WORD) ==> !EndsWith(before, WITHHELD_OPEN)
    ensures EndsWith(before, TRUNCATED_WORD) ==> !EndsWith(before, OMITTED_WORD)
    ensures EndsWith(before, OMITTED_WORD) ==> !EndsWith(before, WITHHELD_OPEN)
  {
    var n := |before|;
    if EndsWith(before, TRUNCATED_WORD) { assert before[n - 3] == TRUNCATED_WORD[4] == 'e'; }
    if EndsWith(before, WITHHELD_OPEN) { assert before[n - 3] == WITHHELD_OPEN[12] == 'l'; }
    if EndsWith(before, OMITTED_WORD) { assert before[n - 3] == OMITTED_WORD[4] == 't'; }
  }

  lemma SuffixIs(before: Text, start: nat, open: Text)
    ensures start + |open| == |before| && before[start..] == open
       <==> EndsWith(before, open) && start == |before| - |open|
  {
  }

  lemma EndsWithTail(before: Text, start: nat, pre: Text, word: Text)
    requires start <= |before| && before[start..] == pre + word
    ensures EndsWith(before, word)
  {
    assert before == before[..start] + pre + word;
  }

  /** `NoteAt` finds exactly the printed notes. */
  lemma NoteExact(text: Text, at: nat, note: Note)
    ensures NoteAt(text, at) == Some(note) <==> IsNoteAt(text, at, note)
  {
    if at + BOUNDARY_LEN < |text| && text[at + BOUNDARY_LEN] == ']' {
      var before := text[..at];
      assert "]" <= text[at + BOUNDARY_LEN..];
      OpeningsDiffer(before);
      NoteFound(text, at, note);
      NotePrinted(text, at, note);
    }
  }

  lemma NoteFound(text: Text, at: nat, note: Note)
    ensures NoteAt(text, at) == Some(note) ==> IsNoteAt(text, at, note)
  {
    hide TrailingCount, Dec;
    if NoteAt(text, at) == Some(note) {
      var before := text[..at];
      match note.kind
      case Truncated(n) => CountedNoteExact(before, TRUNCATED_OPEN, TRUNCATED_WORD, n, note.start);
      case Withheld => SuffixIs(before, note.start, WITHHELD_OPEN);
      case Omitted(n) => CountedNoteExact(before, OMITTED_OPEN, OMITTED_WORD, n, note.start);
      assert before[note.start..] == text[note.start..at];
    }
  }

  lemma NotePrinted(text: Text, at: nat, note: Note)
    ensures IsNoteAt(text, at, note) ==> NoteAt(text, at) == Some(note)
  {
    hide TrailingCount, Dec;
    if IsNoteAt(text, at, note) {
      var before := text[..at];
      assert before[note.start..] == text[note.start..at];
      assert "]" <= text[at + BOUNDARY_LEN..];
      OpeningsDiffer(before);
      match note.kind
      case Truncated(n) => CountedNoteExact(before, TRUNCATED_OPEN, TRUNCATED_WORD, n, note.start);
      case Withheld => SuffixIs(before, note.start, WITHHELD_OPEN);
      case Omitted(n) =>
        EndsWithTail(before, note.start, OMITTED_OPEN + Dec(n), OMITTED_WORD);
        CountedNoteExact(before, OMITTED_OPEN, OMITTED_WORD, n, note.start);
    }
  }
}
