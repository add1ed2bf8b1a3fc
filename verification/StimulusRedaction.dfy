/** What scrubbing a stored stimulus redacts: read from the result, without the functions that compute it. */
module StimulusRedaction {
  import opened Bytes
  import opened StimulusFormat
  import opened StimulusNotes
  import opened StimulusGrammar
  import opened StimulusVerify
  import opened StimulusText
  import opened StimulusWriter
  import opened StimulusRoundTrip
  import opened StimulusScrub

  // ---- one content ----

  /** Notes in order inside the text, the first not before `from`. */
  ghost predicate Follow(content: Text, notes: seq<Note>, from: nat)
    decreases |notes|
  {
    from <= |content|
    && (notes != [] ==> from <= notes[0].start <= notes[0].end && Follow(content, notes[1..], notes[0].end))
  }

  /** The stretches of text before, between and after the notes. */
  ghost function Stretches(content: Text, notes: seq<Note>, from: nat): (ss: seq<Text>)
    requires Follow(content, notes, from)
    ensures |ss| == |notes| + 1
    decreases |notes|
  {
    if notes == [] then [content[from..]]
    else
      assert Follow(content, notes[1..], notes[0].end);
      [content[from..notes[0].start]] + Stretches(content, notes[1..], notes[0].end)
  }

  /** Texts around the notes of `content`, each note as it was. */
  ghost function Joined(content: Text, notes: seq<Note>, from: nat, texts: seq<Text>): Text
    requires Follow(content, notes, from) && |texts| == |notes| + 1
    decreases |notes|
  {
    if notes == [] then texts[0]
    else
      assert Follow(content, notes[1..], notes[0].end);
      texts[0] + content[notes[0].start..notes[0].end] + Joined(content, notes[1..], notes[0].end, texts[1..])
  }

  /** The scrubber does not let the stretch through. */
  ghost predicate IsRefused(stretch: Text, scrub: Scrub) {
    stretch != "" && !scrub(stretch).Clean?
  }

  /** Each stretch became what the scrubber makes of it; nothing stays nothing. */
  ghost predicate BecameClean(stretch: Text, scrub: Scrub, text: Text) {
    if stretch == "" then text == "" else scrub(stretch) == Clean(text)
  }

  ghost predicate AllBecameClean(stretches: seq<Text>, scrub: Scrub, texts: seq<Text>) {
    |texts| == |stretches| && forall i :: 0 <= i < |texts| ==> BecameClean(stretches[i], scrub, texts[i])
  }

  ghost predicate AnyRefused(stretches: seq<Text>, scrub: Scrub) {
    exists i :: 0 <= i < |stretches| && IsRefused(stretches[i], scrub)
  }

  /** `after` is `content` scrubbed around its notes: withheld whole when one stretch is refused, and
      otherwise every stretch replaced by what the scrubber makes of it, around the same notes. */
  ghost predicate RedactedAround(content: Text, notes: seq<Note>, from: nat, after: Option<Text>, scrub: Scrub)
    requires Follow(content, notes, from)
  {
    var ss := Stretches(content, notes, from);
    if AnyRefused(ss, scrub) then after == None
    else exists texts :: AllBecameClean(ss, scrub, texts) && after == Some(Joined(content, notes, from, texts))
  }

  /** `after` is `content` redacted around `notes`. The withheld note comes out when a stretch is refused, and only
      then, unless the content was that note before. */
  ghost predicate RedactedInto(content: Text, notes: seq<Note>, token: Text, scrub: Scrub, after: Text)
    requires Follow(content, notes, 0)
  {
    var withheld := RenderNote(Withheld, token);
    && (RedactedAround(content, notes, 0, Some(after), scrub)
        || (RedactedAround(content, notes, 0, None, scrub) && after == withheld))
    && (content != withheld ==> (after == withheld <==> AnyRefused(Stretches(content, notes, 0), scrub)))
  }

  /** The notes are all the notes of the boundary in the content: one at each of its occurrences. */
  ghost predicate IsRedactedContent(content: Text, token: Text, scrub: Scrub, after: Text) {
    exists notes ::
      AreNotes(content, token, {}, notes, |content|) && Follow(content, notes, 0)
      && RedactedInto(content, notes, token, scrub, after)
  }

  lemma {:induction false} ApartFollow(content: Text, token: Text, notes: seq<Note>, from: nat)
    requires AreApart(content, token, notes, from)
    ensures Follow(content, notes, from)
    decreases |notes|
  {
    hide IsNoteAt;
    if notes != [] {
      NoteIsSpan(content, notes[0]);
      ApartFollow(content, token, notes[1..], notes[0].end);
    }
  }

  lemma NoteIsSpan(content: Text, note: Note)
    requires 22 <= note.end && IsNoteAt(content, note.end - 22, note)
    ensures note.start <= note.end
  {
  }

  lemma SegmentIs(segment: Text, scrub: Scrub)
    ensures ScrubSegment(segment, scrub).None? <==> IsRefused(segment, scrub)
    ensures ScrubSegment(segment, scrub).Some? ==> BecameClean(segment, scrub, ScrubSegment(segment, scrub).value)
  {
  }

  lemma {:induction false} AroundIs(content: Text, token: Text, notes: seq<Note>, scrub: Scrub, from: nat)
    requires AreApart(content, token, notes, from)
    ensures Follow(content, notes, from) && RedactedAround(content, notes, from, ScrubAround(content, token, notes, scrub, from), scrub)
    decreases |notes|
  {
    hide AreApart, ScrubAround, ScrubSegment, IsRefused, BecameClean, RedactedAround, Follow;
    ApartFollow(content, token, notes, from);
    if notes == [] {
      AroundLast(content, token, scrub, from);
      SegmentIs(content[from..], scrub);
      LastRedacted(content, from, ScrubSegment(content[from..], scrub), scrub);
    } else {
      AroundStep(content, token, notes, scrub, from);
      SegmentIs(content[from..notes[0].start], scrub);
      AroundIs(content, token, notes[1..], scrub, notes[0].end);
      FirstRedacted(content, notes, from, ScrubSegment(content[from..notes[0].start], scrub),
                    ScrubAround(content, token, notes[1..], scrub, notes[0].end), scrub);
    }
  }

  lemma LastRedacted(content: Text, from: nat, after: Option<Text>, scrub: Scrub)
    requires Follow(content, [], from)
    requires after.None? <==> IsRefused(content[from..], scrub)
    requires after.Some? ==> BecameClean(content[from..], scrub, after.value)
    ensures RedactedAround(content, [], from, after, scrub)
  {
    hide IsRefused, BecameClean;
    var ss := Stretches(content, [], from);
    assert ss[0] == content[from..];
    if after.Some? {
      assert AllBecameClean(ss, scrub, [after.value]);
      assert Joined(content, [], from, [after.value]) == after.value;
    }
  }

  lemma FirstRedacted(content: Text, notes: seq<Note>, from: nat, segment: Option<Text>, rest: Option<Text>, scrub: Scrub)
    requires notes != [] && Follow(content, notes, from) && Follow(content, notes[1..], notes[0].end)
    requires from <= notes[0].start <= notes[0].end <= |content|
    requires segment.None? <==> IsRefused(content[from..notes[0].start], scrub)
    requires segment.Some? ==> BecameClean(content[from..notes[0].start], scrub, segment.value)
    requires RedactedAround(content, notes[1..], notes[0].end, rest, scrub)
    ensures RedactedAround(content, notes, from,
      if segment.None? || rest.None? then None
      else Some(segment.value + content[notes[0].start..notes[0].end] + rest.value), scrub)
  {
    hide IsRefused, BecameClean, Follow;
    var ss, later := Stretches(content, notes, from), Stretches(content, notes[1..], notes[0].end);
    assert ss == [content[from..notes[0].start]] + later;
    RefusedFirst(content[from..notes[0].start], later, scrub);
    if segment.Some? && rest.Some? {
      var texts :| AllBecameClean(later, scrub, texts) && rest == Some(Joined(content, notes[1..], notes[0].end, texts));
      var all := [segment.value] + texts;
      assert all[1..] == texts;
      assert AllBecameClean(ss, scrub, all);
      assert Joined(content, notes, from, all) == segment.value + content[notes[0].start..notes[0].end] + rest.value;
    }
  }

  lemma RefusedFirst(first: Text, later: seq<Text>, scrub: Scrub)
    ensures AnyRefused([first] + later, scrub) <==> IsRefused(first, scrub) || AnyRefused(later, scrub)
  {
    hide IsRefused;
    var all := [first] + later;
    if AnyRefused(later, scrub) {
      var i :| 0 <= i < |later| && IsRefused(later[i], scrub);
      assert all[i + 1] == later[i];
    }
    if IsRefused(first, scrub) { assert all[0] == first; }
  }

  // ---- the notes of a content that reads ----

  lemma NotesInAreNotes(content: Text, token: Text)
    requires IsToken(token) && ContentReads(content, token)
    ensures AreNotes(content, token, {}, NotesIn(content, token), |content|)
  {
    hide NoteAt, IsToken, NotesFrom, OccursAt, RenderNote, AreApart, ContentReads;
    var notes := NotesIn(content, token);
    ReadsAtNotes(content, token);
    ApartNotesAreFound(content, token, notes, 0);
    NotesExplain(content, token, 0);
    NotesAscend(content, token, notes, 0);
    NotesFit(content, notes);
    LooseAtNotes(content, token, notes);
  }

  lemma LooseAtNotes(content: Text, token: Text, notes: seq<Note>)
    requires forall at: nat :: OccursAt(content, token, at) ==> EndsAt(notes, at + 22)
    requires forall n <- notes :: n.end >= 22 && NoteAt(content, n.end - 22) == Some(n)
    ensures forall at: nat :: IsLoose(content, token, {}, at) ==>
              NoteAt(content, at).Some? && NoteAt(content, at).value in notes
  {
    hide NoteAt, OccursAt;
    forall at: nat | IsLoose(content, token, {}, at)
      ensures NoteAt(content, at).Some? && NoteAt(content, at).value in notes
    {
      assert EndsAt(notes, at + 22);
      var n :| n in notes && n.end == at + 22;
    }
  }

  lemma ReadsAtNotes(content: Text, token: Text)
    requires IsToken(token) && ContentReads(content, token)
    ensures OnlyAtNotes(content, token)
  {
    hide NoteAt, IsToken;
    if content == RenderNote(Withheld, token) {
      WithheldBytes(content, token);
      NoteExact(content, |WITHHELD_OPEN|, Note(Withheld, 0, |content|));
      forall at: nat | OccursAt(content, token, at) ensures NoteAt(content, at).Some? {
        OnlyTokenOfNote(Withheld, token, at);
      }
    }
  }

  lemma NotesFit(content: Text, notes: seq<Note>)
    requires forall n <- notes :: n.end >= 22 && NoteAt(content, n.end - 22) == Some(n)
    ensures forall n <- notes :: n.end <= |content|
  {
    hide NoteAt;
    forall n | n in notes ensures n.end <= |content| { NoteEnd(content, n.end - 22); }
  }

  lemma {:induction false} NotesAscend(content: Text, token: Text, notes: seq<Note>, from: nat)
    requires AreApart(content, token, notes, from)
    ensures forall i, j :: 0 <= i < j < |notes| ==> notes[i].end < notes[j].end
    decreases |notes|
  {
    hide IsNoteAt;
    if notes != [] {
      NotesAscend(content, token, notes[1..], notes[0].end);
      NotesEndPast(content, token, notes[1..], notes[0].end);
      forall i, j | 0 <= i < j < |notes| ensures notes[i].end < notes[j].end {
        assert notes[j] == notes[1..][j - 1] && notes[j] in notes[1..];
        if i > 0 { assert notes[i] == notes[1..][i - 1]; }
      }
    }
  }

  /** A content that reads becomes exactly its stretches scrubbed around its notes, or the withheld note. */
  lemma ContentIsRedacted(content: Text, token: Text, scrub: Scrub)
    requires IsToken(token) && ContentReads(content, token) && NeverIntroduces(scrub, token)
    ensures IsRedactedContent(content, token, scrub, ScrubbedContent(content, token, scrub))
  {
    hide IsToken, ContentReads, RedactedAround, AreNotes, AreApart, ScrubAround, RenderNote, Follow, NeverIntroduces, AnyRefused;
    var notes := NotesIn(content, token);
    NotesInAreNotes(content, token);
    AroundIs(content, token, notes, scrub, 0);
    var around := ScrubAround(content, token, notes, scrub, 0);
    RefusedIsNone(content, notes, around, scrub);
    if around.Some? && content != RenderNote(Withheld, token) {
      RedactedIsNotWithheld(content, token, notes, around.value, scrub);
    }
    assert RedactedInto(content, notes, token, scrub, ScrubbedContent(content, token, scrub));
  }

  lemma RefusedIsNone(content: Text, notes: seq<Note>, after: Option<Text>, scrub: Scrub)
    requires Follow(content, notes, 0) && RedactedAround(content, notes, 0, after, scrub)
    ensures after.None? <==> AnyRefused(Stretches(content, notes, 0), scrub)
  {
    hide Follow, AnyRefused;
  }

  lemma RedactedIsNotWithheld(content: Text, token: Text, notes: seq<Note>, after: Text, scrub: Scrub)
    requires IsToken(token) && ContentReads(content, token) && NeverIntroduces(scrub, token)
    requires content != RenderNote(Withheld, token)
    requires AreNotes(content, token, {}, notes, |content|) && Follow(content, notes, 0)
    requires RedactedAround(content, notes, 0, Some(after), scrub)
    ensures after != RenderNote(Withheld, token)
  {
    hide IsToken, NeverIntroduces, RenderNote, OccursAt, NoteAt, IsRefused, BecameClean;
    var ss := Stretches(content, notes, 0);
    var texts :| AllBecameClean(ss, scrub, texts) && after == Joined(content, notes, 0, texts);
    if notes == [] {
      TokenBytes(token);
      NoNotesNoToken(content, token);
      WithheldHasToken(token);
      assert ss[0] == content;
      CleanHasNoToken(content, scrub, token, after);
    } else {
      var n := notes[0];
      assert n in notes;
      assert IsLoose(content, token, {}, n.end - 22);
      var rest := Joined(content, notes[1..], n.end, texts[1..]);
      NoteStays(content, token, n, texts[0], rest);
    }
  }

  lemma NoNotesNoToken(content: Text, token: Text)
    requires AreNotes(content, token, {}, [], |content|) && |token| > 0
    ensures !Occurs(content, token)
  {
    hide NoteAt;
    assert forall at: nat :: OccursAt(content, token, at) ==> IsLoose(content, token, {}, at);
  }

  lemma NoteStays(content: Text, token: Text, n: Note, before: Text, rest: Text)
    requires IsToken(token) && n.kind.Truncated? && 22 <= n.end <= |content|
    requires OccursAt(content, token, n.end - 22) && NoteAt(content, n.end - 22) == Some(n)
    ensures n.start <= n.end && before + content[n.start..n.end] + rest != RenderNote(Withheld, token)
  {
    hide IsToken, NoteAt, RenderNote, OccursAt;
    NoteExact(content, n.end - 22, n);
    var after := before + content[n.start..n.end] + rest;
    var at := |before| + (n.end - 22 - n.start);
    var moved := Note(n.kind, |before|, at + 22);
    TokenBytes(token);
    TokenMoves(content, token, n, before, rest);
    NoteMoves(content, n, before, rest);
    hide IsNoteAt;
    NoteExact(after, at, moved);
    if after == RenderNote(Withheld, token) {
      OnlyNoteOfWithheld(token, at, moved);
    }
  }

  lemma TokenMoves(content: Text, token: Text, n: Note, before: Text, rest: Text)
    requires n.start <= n.end - 22 && n.end <= |content| && |token| == 21 && OccursAt(content, token, n.end - 22)
    ensures OccursAt(before + content[n.start..n.end] + rest, token, |before| + (n.end - 22 - n.start))
  {
    var open := n.end - 22 - n.start;
    SliceInMiddle(before, content[n.start..n.end], rest, open, open + 21);
    SliceOfSlice(content, n.start, n.end, open, open + 21);
  }

  lemma NoteMoves(content: Text, n: Note, before: Text, rest: Text)
    requires 22 <= n.end <= |content| && IsNoteAt(content, n.end - 22, n)
    ensures var at := |before| + (n.end - 22 - n.start);
            IsNoteAt(before + content[n.start..n.end] + rest, at, Note(n.kind, |before|, at + 22))
  {
    hide NoteOpen;
    var mid, open := content[n.start..n.end], n.end - 22 - n.start;
    SliceInMiddle(before, mid, rest, 0, open);
    SliceOfSlice(content, n.start, n.end, 0, open);
    assert mid[open + 21] == ']';
  }

  lemma SliceInMiddle(before: Text, mid: Text, rest: Text, lo: nat, hi: nat)
    requires lo <= hi <= |mid|
    ensures (before + mid + rest)[|before| + lo..|before| + hi] == mid[lo..hi]
  {
  }

  lemma OnlyNoteOfWithheld(token: Text, at: nat, note: Note)
    requires IsToken(token) && OccursAt(RenderNote(Withheld, token), token, at)
    requires NoteAt(RenderNote(Withheld, token), at) == Some(note)
    ensures note.kind == Withheld
  {
    hide IsToken, NoteAt;
    var withheld := RenderNote(Withheld, token);
    OnlyTokenOfNote(Withheld, token, at);
    WithheldBytes(withheld, token);
    NoteExact(withheld, at, Note(Withheld, 0, |withheld|));
  }

  /** Of a content without boundary: nothing stays nothing; the rest becomes what the scrubber makes of
      it, and the withheld note exactly when it is refused. */
  lemma PlainIsRedacted(content: Text, token: Text, scrub: Scrub, after: Text)
    requires IsToken(token) && NeverIntroduces(scrub, token) && !Occurs(content, token)
    requires IsRedactedContent(content, token, scrub, after)
    ensures content == "" ==> after == ""
    ensures content != "" && scrub(content).Clean? ==> scrub(content) == Clean(after)
    ensures after == RenderNote(Withheld, token) <==> IsRefused(content, scrub)
  {
    hide AreNotes, OccursAt, RenderNote, IsToken, NeverIntroduces, Occurs, RedactedAround, Follow;
    var notes :|
      AreNotes(content, token, {}, notes, |content|) && Follow(content, notes, 0)
      && RedactedInto(content, notes, token, scrub, after);
    NoTokenNoNotes(content, token, notes);
    WholeIsRedacted(content, Some(after), scrub);
    WholeIsRedacted(content, None, scrub);
    WithheldHasToken(token);
    if !IsRefused(content, scrub) { CleanHasNoToken(content, scrub, token, after); }
  }

  lemma NoTokenNoNotes(content: Text, token: Text, notes: seq<Note>)
    requires !Occurs(content, token) && AreNotes(content, token, {}, notes, |content|)
    ensures notes == []
  {
    hide OccursAt, NoteAt;
    FirstIsMember(notes);
  }

  lemma FirstIsMember(notes: seq<Note>)
    ensures notes != [] ==> exists n :: n in notes
  {
    if notes != [] { assert notes[0] in notes; }
  }

  lemma WholeIsRedacted(content: Text, after: Option<Text>, scrub: Scrub)
    requires Follow(content, [], 0)
    ensures RedactedAround(content, [], 0, after, scrub) ==>
      if IsRefused(content, scrub) then after == None else after.Some? && BecameClean(content, scrub, after.value)
  {
    hide IsRefused, BecameClean;
    var ss := Stretches(content, [], 0);
    assert content[0..] == content;
    assert ss[0] == content;
  }

  lemma WithheldHasToken(token: Text)
    ensures Occurs(RenderNote(Withheld, token), token)
  {
    var note := RenderNote(Withheld, token);
    assert OccursAt(note, token, |WITHHELD_OPEN|);
  }

  lemma CleanHasNoToken(content: Text, scrub: Scrub, token: Text, after: Text)
    requires IsToken(token) && NeverIntroduces(scrub, token) && !Occurs(content, token) && BecameClean(content, scrub, after)
    ensures !Occurs(after, token)
  {
    TokenNotInNothing(token);
  }

  // ---- the whole stimulus ----

  /** What scrubbing must make of one part: kind and error flag stay, a tool name stays exactly when the
      scrubber leaves it alone, and the content is redacted. */
  ghost predicate IsRedactedItem(item: Item, token: Text, scrub: Scrub, after: Item) {
    && after.kind == item.kind && after.isError == item.isError
    && after.name == (if item.name.None? then None
                      else if scrub(item.name.value) == Clean(item.name.value) then item.name else Some("redacted-tool"))
    && IsRedactedContent(item.content, token, scrub, after.content)
  }

  lemma ItemIsRedacted(item: Item, token: Text, scrub: Scrub)
    requires IsToken(token) && ItemReads(item, token) && NeverIntroduces(scrub, token)
    ensures IsRedactedItem(item, token, scrub, ScrubbedItem(item, token, scrub))
  {
    hide IsToken, ContentReads, IsRedactedContent, ScrubbedContent, IsValidName, NeverIntroduces;
    ContentIsRedacted(item.content, token, scrub);
  }

  /** Part by part: a verified stimulus, scrubbed by anything that never introduces the boundary, reads
      back as its parts redacted, in order. */
  lemma StimulusIsRedacted(hash: Hash, id: Text, text: Text, v: Verified, scrub: Scrub)
    requires Grammar(hash, id, text, v) && NeverIntroduces(scrub, v.boundary) && PartsInside(text, v.parts)
    ensures var out := ScrubbedStimulus(text, v, scrub);
            var again := ReadOf(hash, id, out);
            && again.ReadsAs? && |again.verified.parts| == |v.parts| && PartsInside(out, again.verified.parts)
            && forall i :: 0 <= i < |v.parts| ==>
                 IsRedactedItem(ItemAt(text, v.parts[i]), v.boundary, scrub, ItemAt(out, again.verified.parts[i]))
  {
    hide Tiles, IsCandidate, IsToken, ItemReads, Layout, PrintItems, PrintClosing, ItemsAt, ReadOf, NeverIntroduces,
      IsRedactedItem, ScrubbedItem, Grammar, ItemAt;
    GrammarTiles(hash, id, text, v);
    var items := ItemsAt(text, v.parts);
    var scrubbed := ScrubbedItems(items, v.boundary, scrub);
    var out := ScrubbedStimulus(text, v, scrub);
    ScrubbedReading(hash, id, text, v, scrub);
    ItemsFound(scrubbed, v.boundary, PrintClosing(OmittedCount(v), v.boundary));
    TiledPartsInside(text, v);
    forall i | 0 <= i < |v.parts|
      ensures IsRedactedItem(ItemAt(text, v.parts[i]), v.boundary, scrub, ItemAt(out, Layout(scrubbed, v.boundary)[i]))
    {
      assert items[i] in items;
      ItemIsRedacted(items[i], v.boundary, scrub);
      assert ItemsAt(out, Layout(scrubbed, v.boundary))[i] == scrubbed[i];
    }
  }

  lemma GrammarTiles(hash: Hash, id: Text, text: Text, v: Verified)
    requires Grammar(hash, id, text, v)
    ensures Tiles(text, v) && IsToken(v.boundary)
  {
  }
}
