/** Scrubbing a stored stimulus part by part, around its notes. */
module StimulusScrub {
  import opened Bytes
  import opened StimulusFormat
  import opened StimulusNotes
  import opened StimulusGrammar
  import opened StimulusReader
  import opened StimulusVerify
  import opened StimulusText
  import opened StimulusWriter
  import opened StimulusRoundTrip

  // ---- one content, around its notes ----

  /** The notes in `content` that carry `token`, from byte `at` on. */
  function NotesFrom(content: Text, token: Text, at: nat): seq<Note>
    decreases |content| - at
  {
    if at >= |content| then []
    else if OccursAt(content, token, at) then
      (if NoteAt(content, at).Some? then [NoteAt(content, at).value] else []) + NotesFrom(content, token, at + BOUNDARY_LEN)
    else NotesFrom(content, token, at + 1)
  }

  /** Notes of `content` that follow each other, none starting before `from`. */
  ghost predicate AreApart(content: Text, token: Text, notes: seq<Note>, from: nat) {
    && from <= |content|
    && (|notes| > 0 ==>
          && from <= notes[0].start && 22 <= notes[0].end
          && OccursAt(content, token, notes[0].end - 22) && IsNoteAt(content, notes[0].end - 22, notes[0])
          && AreApart(content, token, notes[1..], notes[0].end))
  }

  // The text before a note's token holds no `]`, so notes do not overlap.
  lemma NoteStartsAfter(content: Text, token: Text, at: nat, note: Note, from: nat)
    requires IsNoteAt(content, at, note) && from <= at && (from > 0 ==> content[from - 1] == ']')
    ensures from <= note.start
  {
    var open := NoteOpen(note.kind);
    NoteOpenHasNoClose(note.kind);
    OccurrenceBytes(content, open, note.start);
    hide NoteOpen;
  }

  lemma NoteOpenHasNoClose(kind: NoteKind)
    ensures forall i :: 0 <= i < |NoteOpen(kind)| ==> NoteOpen(kind)[i] != ']'
  {
  }

  lemma {:induction false} NotesAreApart(content: Text, token: Text, at: nat, from: nat)
    requires IsToken(token) && from <= at <= |content| && (from > 0 ==> content[from - 1] == ']')
    ensures AreApart(content, token, NotesFrom(content, token, at), from)
    decreases |content| - at
  {
    hide NoteAt, IsNoteAt, IsToken;
    if at < |content| {
      if OccursAt(content, token, at) {
        assert |token| == 21 by { TokenBytes(token); }
        if NoteAt(content, at).Some? {
          var note := NoteAt(content, at).value;
          NoteExact(content, at, note);
          NoteStartsAfter(content, token, at, note, from);
          NoteCloses(content, at, note);
          if at + 22 <= |content| {
            NotesFromClose(content, token, at + 21);
            NotesAreApart(content, token, at + 22, at + 22);
          }
          assert NotesFrom(content, token, at)[1..] == NotesFrom(content, token, at + 21);
        } else {
          NotesAreApart(content, token, at + 21, from);
          assert NotesFrom(content, token, at) == NotesFrom(content, token, at + 21);
        }
      } else {
        NotesAreApart(content, token, at + 1, from);
      }
    }
  }

  lemma NoteCloses(content: Text, at: nat, note: Note)
    requires IsNoteAt(content, at, note)
    ensures note.end == at + 22 <= |content| && content[at + 21] == ']'
  {
  }

  lemma NotesFromClose(content: Text, token: Text, at: nat)
    requires IsToken(token) && at < |content| && content[at] == ']'
    ensures NotesFrom(content, token, at) == NotesFrom(content, token, at + 1)
  {
    TokenBytes(token);
    if OccursAt(content, token, at) {
      OccurrenceBytes(content, token, at);
    }
  }

  /** A stretch of text between notes, scrubbed; nothing when the scrubber fails. */
  function ScrubSegment(segment: Text, scrub: Scrub): Option<Text> {
    if segment == "" then Some("")
    else
      match scrub(segment)
      case Clean(text) => Some(text)
      case _ => None
  }

  /** `content` from `from` on, scrubbed around `notes`. */
  function ScrubAround(content: Text, token: Text, notes: seq<Note>, scrub: Scrub, from: nat): Option<Text>
    requires AreApart(content, token, notes, from)
    decreases |notes|
  {
    if |notes| == 0 then ScrubSegment(content[from..], scrub)
    else
      var note := notes[0];
      assert note.end <= |content| && note.start <= note.end;
      match ScrubSegment(content[from..note.start], scrub)
      case None => None
      case Some(segment) =>
        match ScrubAround(content, token, notes[1..], scrub, note.end)
        case None => None
        case Some(rest) => Some(segment + content[note.start..note.end] + rest)
  }

  function NotesIn(content: Text, token: Text): (notes: seq<Note>)
    requires IsToken(token)
    ensures AreApart(content, token, notes, 0)
  {
    NotesAreApart(content, token, 0, 0);
    NotesFrom(content, token, 0)
  }

  /** One part's content, scrubbed around its notes, or the withheld note. */
  function ScrubbedContent(content: Text, token: Text, scrub: Scrub): Text
    requires IsToken(token)
  {
    match ScrubAround(content, token, NotesIn(content, token), scrub, 0)
    case Some(text) => text
    case None => RenderNote(Withheld, token)
  }

  method CollectNotesIn(content: Text, token: Text) returns (notes: seq<Note>)
    requires IsToken(token)
    ensures notes == NotesIn(content, token)
  {
    hide NoteAt, IsToken;
    notes := [];
    var at := 0;
    while at < |content|
      invariant notes + NotesFrom(content, token, at) == NotesFrom(content, token, 0)
      decreases |content| - at
    {
      if OccursAt(content, token, at) {
        var note := NoteAt(content, at);
        if note.Some? {
          notes := notes + [note.value];
        }
        at := at + BOUNDARY_LEN;
      } else {
        at := at + 1;
      }
    }
  }

  method ScrubContent(content: Text, token: Text, scrub: Scrub) returns (out: Text)
    requires IsToken(token)
    ensures out == ScrubbedContent(content, token, scrub)
  {
    hide IsToken, IsNoteAt, RenderNote, AreApart, ScrubAround, NotesFrom;
    var notes := CollectNotesIn(content, token);
    out := "";
    var at: nat := 0;
    assert notes[0..] == notes;
    PrependNothing(ScrubAround(content, token, notes, scrub, 0));
    for index := 0 to |notes|
      invariant at <= |content| && AreApart(content, token, notes[index..], at)
      invariant ScrubAround(content, token, notes, scrub, 0)
             == Prepend(out, ScrubAround(content, token, notes[index..], scrub, at))
    {
      var note := notes[index];
      assert notes[index..][0] == note && notes[index..][1..] == notes[index + 1..];
      AroundStep(content, token, notes[index..], scrub, at);
      var segment := ScrubSegment(content[at..note.start], scrub);
      if segment.None? {
        return RenderNote(Withheld, token);
      }
      PrependTwice(out, segment.value + content[note.start..note.end],
                   ScrubAround(content, token, notes[index + 1..], scrub, note.end));
      out := out + (segment.value + content[note.start..note.end]);
      at := note.end;
    }
    AroundLast(content, token, scrub, at);
    var segment := ScrubSegment(content[at..], scrub);
    if segment.None? {
      return RenderNote(Withheld, token);
    }
    out := out + segment.value;
  }

  lemma AroundStep(content: Text, token: Text, notes: seq<Note>, scrub: Scrub, from: nat)
    requires AreApart(content, token, notes, from) && |notes| > 0
    ensures var note := notes[0];
            && from <= note.start <= note.end <= |content| && AreApart(content, token, notes[1..], note.end)
            && ScrubAround(content, token, notes, scrub, from)
            == match ScrubSegment(content[from..note.start], scrub)
               case None => None
               case Some(s) => Prepend(s + content[note.start..note.end], ScrubAround(content, token, notes[1..], scrub, note.end))
  {
  }

  lemma AroundLast(content: Text, token: Text, scrub: Scrub, from: nat)
    requires AreApart(content, token, [], from)
    ensures from <= |content| && ScrubAround(content, token, [], scrub, from) == ScrubSegment(content[from..], scrub)
  {
  }

  lemma PrependNothing(rest: Option<Text>)
    ensures Prepend("", rest) == rest
  {
    if rest.Some? {
      assert "" + rest.value == rest.value;
    }
  }

  lemma PrependTwice(a: Text, b: Text, rest: Option<Text>)
    ensures Prepend(a, Prepend(b, rest)) == Prepend(a + b, rest)
  {
    if rest.Some? {
      assert a + (b + rest.value) == a + b + rest.value;
    }
  }

  function Prepend(before: Text, rest: Option<Text>): Option<Text> {
    match rest
    case None => None
    case Some(text) => Some(before + text)
  }

  // ---- the scrubbed content still reads ----

  /** A scrubber that never introduces `token`: a text without it stays without it. */
  ghost predicate NeverIntroduces(scrub: Scrub, token: Text) {
    forall t: Text :: scrub(t).Clean? && !Occurs(t, token) ==> !Occurs(scrub(t).text, token)
  }

  /** Every occurrence of `token` sits in a `truncated` note. */
  ghost predicate OnlyInCuts(content: Text, token: Text) {
    forall at: nat :: OccursAt(content, token, at) ==>
      NoteAt(content, at).Some? && NoteAt(content, at).value.kind.Truncated?
  }

  // Where a token can occur around a `truncated` note with text on both sides.
  lemma OccursBesideNote(before: Text, note: Text, rest: Text, token: Text, at: nat)
    requires IsToken(token) && |note| > 0 && note[0] as int >= 0x80 && note[|note| - 1] == ']'
    requires OccursAt(before + note + rest, token, at)
    ensures || OccursAt(before, token, at)
            || (|before| <= at && OccursAt(note, token, at - |before|))
            || (|before| + |note| <= at && OccursAt(rest, token, at - |before| - |note|))
  {
    TokenBytes(token);
    var all, mid := before + note + rest, |before| + |note|;
    OccurrenceBytes(all, token, at);
    assert all[|before|..mid] == note && all[mid..|all|] == rest && all[0..|before|] == before;
    assert all[|before|] == note[0] && all[mid - 1] == note[|note| - 1];
    hide IsToken;
    if at < |before| {
      OccursInSlice(all, 0, |before|, token, at);
    } else if at < mid {
      OccursInSlice(all, |before|, mid, token, at - |before|);
    } else {
      OccursInSlice(all, mid, |all|, token, at - mid);
    }
  }

  lemma CutsConcatenate(before: Text, n: nat, token: Text, rest: Text)
    requires IsToken(token) && !Occurs(before, token) && OnlyInCuts(rest, token) && 1 <= n < COUNT_LIMIT
    ensures OnlyInCuts(before + RenderNote(Truncated(n), token) + rest, token)
  {
    var note := RenderNote(Truncated(n), token);
    hide RenderNote, NoteAt, NoteOpen, IsToken;
    NoteEdges(n, token);
    NoteAlone(Truncated(n), token);
    forall at: nat | OccursAt(before + note + rest, token, at)
      ensures NoteAt(before + note + rest, at).Some? && NoteAt(before + note + rest, at).value.kind.Truncated?
    {
      OccursBesideNote(before, note, rest, token, at);
      assert !OccursAt(before, token, at);
      hide Occurs;
      if |before| <= at && OccursAt(note, token, at - |before|) {
        OnlyTokenOfNote(Truncated(n), token, at - |before|);
        NoteInside(before, note, rest, at - |before|);
      } else {
        NoteAfter(before + note, rest, at - |before| - |note|);
      }
    }
  }

  lemma NoteAfter(before: Text, rest: Text, at: nat)
    requires NoteAt(rest, at).Some?
    ensures var all := before + rest;
            NoteAt(all, |before| + at).Some? && NoteAt(all, |before| + at).value.kind == NoteAt(rest, at).value.kind
  {
    hide NoteAt;
    NoteInside(before, rest, "", at);
    assert before + rest + "" == before + rest;
  }

  lemma NoteInside(before: Text, middle: Text, rest: Text, at: nat)
    requires NoteAt(middle, at).Some?
    ensures var all := before + middle + rest;
            NoteAt(all, |before| + at).Some? && NoteAt(all, |before| + at).value.kind == NoteAt(middle, at).value.kind
  {
    hide NoteAt;
    var all := before + middle + rest;
    assert all[|before|..|before| + |middle|] == middle;
    var found := NoteOfSlice(all, |before|, |before| + |middle|, at);
  }

  lemma NoteEdges(n: nat, token: Text)
    ensures var note := RenderNote(Truncated(n), token);
            |note| > 0 && note[|note| - 1] == ']' && note[0] as int >= 0x80
  {
  }

  lemma TokenNotInNothing(token: Text)
    requires IsToken(token)
    ensures !Occurs("", token)
  {
  }

  /** Every occurrence of `token` from `from` on sits in one of `notes`. */
  ghost predicate Explained(content: Text, token: Text, notes: seq<Note>, from: nat) {
    forall at: nat :: from <= at && OccursAt(content, token, at) ==> EndsAt(notes, at + 22)
  }

  ghost predicate EndsAt(notes: seq<Note>, end: nat) {
    exists n :: n in notes && n.end == end
  }

  /** Every occurrence of `token` sits in a note. */
  ghost predicate OnlyAtNotes(content: Text, token: Text) {
    forall at: nat :: OccursAt(content, token, at) ==> NoteAt(content, at).Some?
  }

  lemma {:induction false} NotesExplain(content: Text, token: Text, at: nat)
    requires IsToken(token) && OnlyAtNotes(content, token)
    ensures Explained(content, token, NotesFrom(content, token, at), at)
    decreases |content| - at
  {
    hide NoteAt, IsToken, OccursAt;
    var notes := NotesFrom(content, token, at);
    if at >= |content| {
      NothingPast(content, token, at);
    } else if OccursAt(content, token, at) {
      NoOverlap(content, token, at);
      NoteEnd(content, at);
      NotesExplain(content, token, at + BOUNDARY_LEN);
      var rest := NotesFrom(content, token, at + BOUNDARY_LEN);
      assert notes == [NoteAt(content, at).value] + rest;
      assert notes[0] in notes;
      forall x: nat | at <= x && OccursAt(content, token, x) ensures EndsAt(notes, x + 22) {
        if x != at {
          assert EndsAt(rest, x + 22);
          var n :| n in rest && n.end == x + 22;
          assert n in notes;
        }
      }
    } else {
      NotesExplain(content, token, at + 1);
    }
  }

  lemma NothingPast(content: Text, token: Text, at: nat)
    requires IsToken(token) && at >= |content|
    ensures forall x: nat :: at <= x ==> !OccursAt(content, token, x)
  {
  }

  lemma {:induction false} NotesEndPast(content: Text, token: Text, notes: seq<Note>, from: nat)
    requires AreApart(content, token, notes, from)
    ensures forall n :: n in notes ==> n.end > from
    decreases |notes|
  {
    if |notes| > 0 {
      NotesEndPast(content, token, notes[1..], notes[0].end);
      assert forall n :: n in notes ==> n == notes[0] || n in notes[1..];
    }
  }

  /** Between the notes there is no boundary: each is inside one of them. */
  lemma GapHasNoToken(content: Text, token: Text, notes: seq<Note>, from: nat)
    requires AreApart(content, token, notes, from) && Explained(content, token, notes, from)
    ensures |notes| == 0 ==> !Occurs(content[from..], token)
    ensures |notes| > 0 ==> from <= notes[0].start <= notes[0].end <= |content| && !Occurs(content[from..notes[0].start], token)
    ensures |notes| > 0 ==> Explained(content, token, notes[1..], notes[0].end)
  {
    if |notes| == 0 {
      forall at: nat ensures !OccursAt(content[from..], token, at) {
        assert content[from..] == content[from..|content|];
        OccursInSlice(content, from, |content|, token, at);
        assert !EndsAt(notes, from + at + 22);
      }
    } else {
      var note := notes[0];
      NotesEndPast(content, token, notes[1..], note.end);
      assert forall n :: n in notes <==> n == note || n in notes[1..];
      hide OccursAt;
      forall at: nat ensures !OccursAt(content[from..note.start], token, at) {
        OccursInSlice(content, from, note.start, token, at);
        assert OccursAt(content, token, from + at) ==> EndsAt(notes, from + at + 22);
      }
      forall at: nat | note.end <= at && OccursAt(content, token, at) ensures EndsAt(notes[1..], at + 22) {
        assert EndsAt(notes, at + 22);
      }
    }
  }

  lemma SegmentHasNoToken(segment: Text, scrub: Scrub, token: Text)
    requires IsToken(token) && NeverIntroduces(scrub, token) && ScrubSegment(segment, scrub).Some?
    requires !Occurs(segment, token)
    ensures !Occurs(ScrubSegment(segment, scrub).value, token)
  {
    TokenNotInNothing(token);
  }

  lemma FirstNoteSpells(content: Text, token: Text, notes: seq<Note>, from: nat)
    requires IsToken(token) && AreApart(content, token, notes, from) && |notes| > 0
    ensures var note := notes[0];
            && note.start <= note.end <= |content| && CountReads(note.kind)
            && content[note.start..note.end] == RenderNote(note.kind, token)
  {
    hide RenderNote, IsToken, NoteOpen;
    NoteSpells(content, token, notes[0]);
  }

  lemma {:induction false} AroundCuts(content: Text, token: Text, notes: seq<Note>, scrub: Scrub, from: nat)
    requires IsToken(token) && NeverIntroduces(scrub, token)
    requires AreApart(content, token, notes, from) && Explained(content, token, notes, from)
    requires forall n <- notes :: n.kind.Truncated?
    ensures var scrubbed := ScrubAround(content, token, notes, scrub, from);
            scrubbed.Some? ==> OnlyInCuts(scrubbed.value, token)
    decreases |notes|
  {
    hide AreApart, ScrubAround, ScrubSegment, RenderNote, IsToken, OnlyInCuts, Explained, NeverIntroduces, Occurs, CountReads;
    GapHasNoToken(content, token, notes, from);
    if |notes| == 0 {
      AroundLast(content, token, scrub, from);
      var last := ScrubSegment(content[from..], scrub);
      if last.Some? {
        SegmentHasNoToken(content[from..], scrub, token);
        NoTokenOnlyInCuts(last.value, token);
      }
    } else {
      var note := notes[0];
      AroundStep(content, token, notes, scrub, from);
      FirstNoteSpells(content, token, notes, from);
      var segment, rest := ScrubSegment(content[from..note.start], scrub), ScrubAround(content, token, notes[1..], scrub, note.end);
      if segment.Some? && rest.Some? {
        AroundCuts(content, token, notes[1..], scrub, note.end);
        SegmentHasNoToken(content[from..note.start], scrub, token);
        assert note in notes;
        JoinCut(segment.value, note.kind, token, rest.value);
      }
    }
  }

  lemma NoTokenOnlyInCuts(content: Text, token: Text)
    requires !Occurs(content, token)
    ensures OnlyInCuts(content, token)
  {
    hide OccursAt, NoteAt;
  }

  lemma JoinCut(before: Text, kind: NoteKind, token: Text, rest: Text)
    requires IsToken(token) && !Occurs(before, token) && OnlyInCuts(rest, token) && kind.Truncated? && CountReads(kind)
    ensures OnlyInCuts(before + RenderNote(kind, token) + rest, token)
  {
    hide RenderNote, IsToken, OnlyInCuts, Occurs;
    CutsConcatenate(before, kind.bytes, token, rest);
  }

  lemma {:induction false} ApartNotesAreFound(content: Text, token: Text, notes: seq<Note>, from: nat)
    requires AreApart(content, token, notes, from)
    ensures forall n <- notes :: n.end >= 22 && OccursAt(content, token, n.end - 22) && NoteAt(content, n.end - 22) == Some(n)
    decreases |notes|
  {
    hide NoteAt;
    if |notes| > 0 {
      NoteExact(content, notes[0].end - 22, notes[0]);
      ApartNotesAreFound(content, token, notes[1..], notes[0].end);
    }
  }

  // A content that is the withheld note holds just that note.
  lemma {:induction false} OneNote(content: Text, token: Text, at: nat)
    requires IsToken(token) && content == RenderNote(Withheld, token)
    ensures NotesFrom(content, token, at) == if at <= |WITHHELD_OPEN| then [Note(Withheld, 0, |content|)] else []
    decreases |content| - at
  {
    WithheldBytes(content, token);
    NoteExact(content, |WITHHELD_OPEN|, Note(Withheld, 0, |content|));
    TokenBytes(token);
    hide NoteAt, IsToken, RenderNote, IsNoteAt;
    if at < |content| {
      if OccursAt(content, token, at) {
        OccurrenceBytes(content, token, at);
        OneNote(content, token, at + BOUNDARY_LEN);
      } else {
        OneNote(content, token, at + 1);
      }
    }
  }

  lemma WithheldIsKept(content: Text, token: Text, scrub: Scrub)
    requires IsToken(token) && content == RenderNote(Withheld, token)
    ensures ScrubbedContent(content, token, scrub) == content
  {
    OneNote(content, token, 0);
    hide RenderNote, IsToken, NotesFrom;
    var notes := NotesIn(content, token);
    assert notes == [Note(Withheld, 0, |content|)];
    AroundStep(content, token, notes, scrub, 0);
    AroundLast(content, token, scrub, |content|);
    assert content[0..|content|] == content && content[0..0] == "" && content[|content|..] == "";
    hide ScrubAround;
    assert "" + content + "" == content;
  }

  /** Scrubbed by a scrubber that never introduces the boundary, a content still reads. */
  lemma ScrubbedReads(content: Text, token: Text, scrub: Scrub)
    requires IsToken(token) && ContentReads(content, token) && NeverIntroduces(scrub, token)
    ensures ContentReads(ScrubbedContent(content, token, scrub), token)
  {
    if content == RenderNote(Withheld, token) {
      WithheldIsKept(content, token, scrub);
    } else {
      var notes := NotesIn(content, token);
      ApartNotesAreFound(content, token, notes, 0);
      NotesExplain(content, token, 0);
      hide NoteAt, RenderNote, IsToken;
      AroundCuts(content, token, notes, scrub, 0);
    }
  }

  /** The scrubber leaves every stretch of `content` between its notes as it is. */
  ghost predicate LeavesStretches(content: Text, token: Text, notes: seq<Note>, scrub: Scrub, from: nat)
    requires AreApart(content, token, notes, from)
    decreases |notes|
  {
    if |notes| == 0 then ScrubSegment(content[from..], scrub) == Some(content[from..])
    else
      var note := notes[0];
      assert from <= note.start <= note.end <= |content|;
      && ScrubSegment(content[from..note.start], scrub) == Some(content[from..note.start])
      && LeavesStretches(content, token, notes[1..], scrub, note.end)
  }

  lemma {:induction false} AroundSame(content: Text, token: Text, notes: seq<Note>, scrub: Scrub, from: nat)
    requires AreApart(content, token, notes, from) && LeavesStretches(content, token, notes, scrub, from)
    ensures ScrubAround(content, token, notes, scrub, from) == Some(content[from..])
    decreases |notes|
  {
    hide IsNoteAt;
    if |notes| > 0 {
      var note := notes[0];
      AroundStep(content, token, notes, scrub, from);
      AroundSame(content, token, notes[1..], scrub, note.end);
      hide ScrubAround, ScrubSegment;
      assert content[from..] == content[from..note.start] + content[note.start..note.end] + content[note.end..];
    }
  }

  // ---- the whole stimulus ----

  function ScrubbedItem(item: Item, token: Text, scrub: Scrub): Item
    requires IsToken(token)
  {
    Item(item.kind, if item.name.Some? then Some(SafeName(item.name, scrub)) else None, item.isError,
         ScrubbedContent(item.content, token, scrub))
  }

  function ScrubbedItems(items: seq<Item>, token: Text, scrub: Scrub): (scrubbed: seq<Item>)
    requires IsToken(token)
    ensures |scrubbed| == |items|
    ensures forall i :: 0 <= i < |items| ==> scrubbed[i] == ScrubbedItem(items[i], token, scrub)
  {
    seq(|items|, i requires 0 <= i < |items| => ScrubbedItem(items[i], token, scrub))
  }

  /** A verified stimulus, scrubbed part by part. */
  function ScrubbedStimulus(text: Text, v: Verified, scrub: Scrub): Text
    requires IsToken(v.boundary) && PartsInside(text, v.parts)
  {
    PrintStimulus(ScrubbedItems(ItemsAt(text, v.parts), v.boundary, scrub), OmittedCount(v), v.boundary)
  }

  /** A part's marker, its tool name scrubbed on its own. */
  method ScrubMarker(text: Text, p: ReadPart, token: Text, scrub: Scrub) returns (marker: Text)
    requires IsPrinted(text, MarkerOf(p, token))
    ensures marker == RenderMarker(p.kind, if p.name.Some? then Some(SafeName(p.name, scrub)) else None, p.isError, token)
  {
    hide IsToken, MarkerOpen;
    marker := text[p.marker.start..p.marker.end];
    if p.name.Some? {
      var safe := SafeName(p.name, scrub);
      if safe != p.name.value {
        marker := RenderMarker(p.kind, Some(safe), p.isError, token);
      }
    }
  }

  method ScrubVerified(text: Text, v: Verified, scrub: Scrub) returns (out: Text)
    requires Tiles(text, v)
    ensures PartsInside(text, v.parts) && out == ScrubbedStimulus(text, v, scrub)
  {
    hide AllSpelled, PrintClosing, RenderMarker, ScrubbedContent, IsPrinted, PartTiles, ClosingTiles, ItemReads;
    TiledPartsInside(text, v);
    ClosingIsPrinted(text, v);
    PartsSpelled(text, v);
    ghost var items := ScrubbedItems(ItemsAt(text, v.parts), v.boundary, scrub);
    out := "";
    var copied: nat := 0;
    assert PrintItems(items[..0], v.boundary) == "";
    hide PrintItems;
    for index := 0 to |v.parts|
      invariant copied == (if index == 0 then 0 else v.parts[index - 1].content.end)
      invariant out == PrintItems(items[..index], v.boundary)
    {
      var p := v.parts[index];
      PartIsSpelled(text, v, index);
      hide Tiles, AllSpelled, PrintItems, PrintClosing, RenderMarker, ScrubbedContent, IsPrinted, SafeName;
      var marker := ScrubMarker(text, p, v.boundary, scrub);
      var content := ScrubContent(text[p.content.start..p.content.end], v.boundary, scrub);
      assert items[..index + 1][..index] == items[..index];
      PrintSnoc(items[..index + 1], v.boundary);
      out := out + text[copied..p.marker.start] + marker + content;
      copied := p.content.end;
    }
    hide Tiles, AllSpelled, PrintItems, PrintClosing;
    assert items[..|v.parts|] == items;
    out := out + text[copied..];
  }

  lemma PartIsSpelled(text: Text, v: Verified, i: nat)
    requires Tiles(text, v) && i < |v.parts| && PartsInside(text, v.parts) && AllSpelled(text, v.boundary, v.parts, ItemsAt(text, v.parts))
    ensures IsPrinted(text, MarkerOf(v.parts[i], v.boundary))
    ensures var before := if i == 0 then 0 else v.parts[i - 1].content.end;
            && before <= v.parts[i].marker.start <= v.parts[i].content.start <= v.parts[i].content.end <= |text|
            && text[before..v.parts[i].marker.start] == (if i == 0 then "" else SEPARATOR)
  {
    assert PartTiles(text, v, i);
    hide IsPrinted, ContentReads;
    assert Spelled(text, v.boundary, v.parts, ItemsAt(text, v.parts), i);
  }

  /** Scrubs the stimulus `text` of interaction `id`: part by part when it verifies, whole otherwise. */
  method ScrubStimulus(hash: Hash, id: Text, text: Text, scrub: Scrub) returns (scrubbed: Scrubbed)
    ensures var reading := ReadOf(hash, id, text);
            if reading.ReadsAs? then
              Tiles(text, reading.verified) && PartsInside(text, reading.verified.parts)
              && scrubbed == Clean(ScrubbedStimulus(text, reading.verified, scrub))
            else scrubbed == scrub(text)
  {
    hide Tiles, IsCandidate, ScrubbedStimulus;
    var reading := Read(hash, id, text);
    if reading.ReadsAs? {
      var out := ScrubVerified(text, reading.verified, scrub);
      scrubbed := Clean(out);
    } else {
      scrubbed := scrub(text);
    }
  }

  /** The scrubbed stimulus reads, as its scrubbed items. */
  lemma ScrubbedReading(hash: Hash, id: Text, text: Text, v: Verified, scrub: Scrub)
    requires Grammar(hash, id, text, v) && NeverIntroduces(scrub, v.boundary) && PartsInside(text, v.parts)
    ensures IsToken(v.boundary)
    ensures ReadOf(hash, id, ScrubbedStimulus(text, v, scrub))
         == ReadsAs(ReadingOf(ScrubbedItems(ItemsAt(text, v.parts), v.boundary, scrub), OmittedCount(v), v.boundary))
  {
    var items := ItemsAt(text, v.parts);
    var scrubbed := ScrubbedItems(items, v.boundary, scrub);
    TiledPartsInside(text, v);
    TiledIsPrinted(text, v);
    assert OmittedCount(v) < COUNT_LIMIT;
    var w := ReadingOf(scrubbed, OmittedCount(v), v.boundary);
    ScrubbedItemsRead(items, v.boundary, scrub);
    hide Tiles, IsCandidate, IsToken, ItemReads, Layout, PrintItems, PrintClosing, ItemsAt;
    SameShape(items, scrubbed, v.boundary, scrub);
    PrintedTiles(scrubbed, OmittedCount(v), v.boundary);
    hide ScrubbedItems;
    ReadOfGrammar(hash, id, ScrubbedStimulus(text, v, scrub), w);
  }

  /**
   * Structure is kept: scrubbed by any scrubber that never introduces the boundary, a verified stimulus verifies
   * again, with the same boundary, kinds, error flags and number of parts left out.
   */
  lemma ScrubKeepsStructure(hash: Hash, id: Text, text: Text, v: Verified, scrub: Scrub)
    requires Grammar(hash, id, text, v) && NeverIntroduces(scrub, v.boundary) && PartsInside(text, v.parts)
    ensures var out := ScrubbedStimulus(text, v, scrub);
            var again := ReadOf(hash, id, out);
            && again.ReadsAs? && again.verified.boundary == v.boundary
            && Kinds(again.verified.parts) == Kinds(v.parts)
            && (forall i :: 0 <= i < |v.parts| ==> again.verified.parts[i].isError == v.parts[i].isError)
            && again.verified.omittedParts == v.omittedParts
  {
    hide Tiles, IsCandidate, IsToken, Layout, PrintItems, PrintClosing, ItemsAt, ReadOf, ScrubbedItems, NeverIntroduces;
    ScrubbedReading(hash, id, text, v, scrub);
    TiledIsPrinted(text, v);
    var items := ItemsAt(text, v.parts);
    SameShape(items, ScrubbedItems(items, v.boundary, scrub), v.boundary, scrub);
  }

  lemma SameShape(items: seq<Item>, scrubbed: seq<Item>, token: Text, scrub: Scrub)
    requires IsToken(token) && scrubbed == ScrubbedItems(items, token, scrub)
    ensures Kinds(Layout(scrubbed, token)) == Kinds(Layout(items, token))
    ensures forall i :: 0 <= i < |items| ==> Layout(scrubbed, token)[i].isError == Layout(items, token)[i].isError
  {
    hide ScrubbedContent, IsToken;
    LayoutErrors(scrubbed, token);
    LayoutErrors(items, token);
  }

  lemma {:induction false} LayoutErrors(items: seq<Item>, token: Text)
    ensures forall i :: 0 <= i < |items| ==> Layout(items, token)[i].isError == items[i].isError
  {
    hide Layout;
    if |items| > 0 {
      LayoutErrors(items[..|items| - 1], token);
      LayoutSnoc(items, token);
    }
  }

  lemma ScrubbedItemsRead(items: seq<Item>, token: Text, scrub: Scrub)
    requires IsToken(token) && NeverIntroduces(scrub, token) && forall item <- items :: ItemReads(item, token)
    ensures forall item <- ScrubbedItems(items, token, scrub) :: ItemReads(item, token)
  {
    hide IsToken, ContentReads, ScrubbedContent, NeverIntroduces;
    var scrubbed := ScrubbedItems(items, token, scrub);
    forall i | 0 <= i < |items|
      ensures ItemReads(scrubbed[i], token)
    {
      assert items[i] in items;
      ScrubbedReads(items[i].content, token, scrub);
    }
  }

  /** The scrubber would change neither a stretch of text nor a tool name of `item`. */
  ghost predicate Leaves(item: Item, token: Text, scrub: Scrub)
    requires IsToken(token)
  {
    && LeavesStretches(item.content, token, NotesIn(item.content, token), scrub, 0)
    && (item.name.Some? ==> scrub(item.name.value) == Clean(item.name.value))
  }

  /** When nothing in it needs redacting, a verified stimulus comes back byte for byte. */
  lemma ScrubbingNothingChangesNothing(text: Text, v: Verified, scrub: Scrub)
    requires Tiles(text, v) && PartsInside(text, v.parts)
    requires forall item <- ItemsAt(text, v.parts) :: Leaves(item, v.boundary, scrub)
    ensures ScrubbedStimulus(text, v, scrub) == text
  {
    hide Tiles, IsToken, Leaves, ItemReads, PrintItems, PrintClosing, Layout, ScrubbedItem, ItemsAt, PrintStimulus;
    BoundaryIsToken(text, v);
    TiledPartsInside(text, v);
    TiledIsPrinted(text, v);
    var items := ItemsAt(text, v.parts);
    forall i | 0 <= i < |items|
      ensures ScrubbedItem(items[i], v.boundary, scrub) == items[i]
    {
      assert items[i] in items;
      ItemIsLeft(items[i], v.boundary, scrub);
    }
    assert ScrubbedItems(items, v.boundary, scrub) == items;
  }

  lemma BoundaryIsToken(text: Text, v: Verified)
    requires Tiles(text, v)
    ensures IsToken(v.boundary)
  {
  }

  lemma ItemIsLeft(item: Item, token: Text, scrub: Scrub)
    requires IsToken(token) && Leaves(item, token, scrub) && ItemReads(item, token)
    ensures ScrubbedItem(item, token, scrub) == item
  {
    hide IsToken, ContentReads, LeavesStretches;
    AroundSame(item.content, token, NotesIn(item.content, token), scrub, 0);
    assert item.content[0..] == item.content;
  }
}
