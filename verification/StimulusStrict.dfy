/** The strict reader, told by what is printed: it reads exactly the stimuli the format can carry. */
module StimulusStrict {
  import opened Bytes
  import opened StimulusFormat
  import opened StimulusNotes
  import opened StimulusGrammar
  import opened StimulusReader
  import opened StimulusVerify
  import opened StimulusText

  /** How a truncation note of `n` bytes begins: an ellipsis, and the count. */
  function TruncatedNote(n: nat): Text {
    "\U{00E2}\U{0080}\U{00A6}[cvc: truncated " + Dec(n) + " bytes "
  }

  /** The boundary at `at` is that of a truncation note, of a count of at most eighteen digits. */
  ghost predicate InTruncatedNote(content: Text, token: Text, at: nat) {
    exists n: nat :: TruncatedNoteAt(content, token, at, n)
  }

  ghost predicate TruncatedNoteAt(content: Text, token: Text, at: nat, n: nat) {
    && 1 <= n < 1_000_000_000_000_000_000 && |TruncatedNote(n)| <= at
    && OccursAt(content, TruncatedNote(n) + token + "]", at - |TruncatedNote(n)|)
  }

  /** A content the format can carry: the withheld note alone, or a text where the boundary stands only
      in truncation notes. */
  ghost predicate CanCarry(content: Text, token: Text) {
    || content == "[cvc: withheld " + token + "]"
    || forall at: nat :: OccursAt(content, token, at) ==> InTruncatedNote(content, token, at)
  }

  /** Tool results have a valid name and perhaps an error flag, and nothing else has either. */
  ghost predicate IsItem(item: Item, token: Text) {
    && (if item.kind == ToolResult then item.name.Some? && IsValidName(item.name.value) else item.name.None? && !item.isError)
    && CanCarry(item.content, token)
  }

  /** The boundary is one of the 64 of the interaction and of the kinds of its parts. */
  ghost predicate IsBoundaryOf(hash: Hash, id: Text, items: seq<Item>, token: Text) {
    exists c: nat :: c < 64 && token == Boundary(hash, id, ShapeOf(KindsOf(items)), c)
  }

  function KindsOf(items: seq<Item>): (kinds: seq<PartKind>)
    ensures |kinds| == |items| && forall i :: 0 <= i < |items| ==> kinds[i] == items[i].kind
  {
    seq(|items|, i requires 0 <= i < |items| => items[i].kind)
  }

  ghost predicate IsStimulus(hash: Hash, id: Text, items: seq<Item>, omitted: nat, token: Text) {
    && items != [] && omitted < 1_000_000_000_000_000_000 && IsBoundaryOf(hash, id, items, token)
    && forall item <- items :: IsItem(item, token)
  }

  lemma NoteAsText(content: Text, token: Text, at: nat, n: nat)
    requires IsToken(token)
    ensures OccursAt(content, token, at) && IsTruncatedAt(content, at, n) <==> TruncatedNoteAt(content, token, at, n)
  {
    hide IsToken, Dec, OccursAt, TruncatedNote, NoteOpen;
    TokenBytes(token);
    var open := TruncatedNote(n);
    OpenIs(n);
    if |open| <= at { PiecesOccur(content, open, token, at); }
    TokenOccurs(content, token, at);
  }

  lemma OpenIs(n: nat)
    ensures NoteOpen(Truncated(n)) == TruncatedNote(n)
  {
    hide Dec;
  }

  lemma TokenOccurs(content: Text, token: Text, at: nat)
    requires |token| == 21
    ensures OccursAt(content, token, at) <==> at + 21 <= |content| && content[at..at + 21] == token
  {
  }

  /** The reader's note of `n` bytes stands with its boundary at `at`. */
  ghost predicate IsTruncatedAt(content: Text, at: nat, n: nat) {
    |NoteOpen(Truncated(n))| <= at && IsNoteAt(content, at, Note(Truncated(n), at - |NoteOpen(Truncated(n))|, at + 22))
  }

  lemma PiecesOccur(content: Text, open: Text, token: Text, at: nat)
    requires |open| <= at && |token| == 21
    ensures OccursAt(content, open + token + "]", at - |open|) <==>
      at + 22 <= |content| && content[at - |open|..at] == open && content[at..at + 21] == token && content[at + 21] == ']'
  {
    var w, from := open + token + "]", at - |open|;
    if at + 22 <= |content| {
      var s := content[from..from + |w|];
      assert s == content[from..at] + content[at..at + 21] + [content[at + 21]];
      if s == w {
        assert content[from..at] == s[..|open|] == w[..|open|] == open;
        assert content[at..at + 21] == s[|open|..|open| + 21] == w[|open|..|open| + 21] == token;
        assert s[|open| + 21] == w[|open| + 21];
      }
    }
  }

  lemma TruncatedIsNote(content: Text, at: nat)
    ensures NoteAt(content, at).Some? && NoteAt(content, at).value.kind.Truncated? <==> exists n: nat :: IsTruncatedAt(content, at, n)
  {
    hide NoteAt, NoteOpen;
    if NoteAt(content, at).Some? && NoteAt(content, at).value.kind.Truncated? {
      var note := NoteAt(content, at).value;
      NoteExact(content, at, note);
      assert IsTruncatedAt(content, at, note.kind.bytes);
    }
    if n: nat :| IsTruncatedAt(content, at, n) {
      NoteExact(content, at, Note(Truncated(n), at - |NoteOpen(Truncated(n))|, at + 22));
    }
  }

  lemma CarriesWhatReads(content: Text, token: Text)
    requires IsToken(token)
    ensures CanCarry(content, token) <==> ContentReads(content, token)
  {
    hide IsToken, OccursAt, NoteAt;
    assert RenderNote(Withheld, token) == "[cvc: withheld " + token + "]";
    forall at: nat
      ensures OccursAt(content, token, at) ==>
        (InTruncatedNote(content, token, at) <==> NoteAt(content, at).Some? && NoteAt(content, at).value.kind.Truncated?)
    {
      TruncatedIsNote(content, at);
      forall n: nat
        ensures OccursAt(content, token, at) ==> (IsTruncatedAt(content, at, n) <==> TruncatedNoteAt(content, token, at, n))
      {
        NoteAsText(content, token, at, n);
      }
      hide IsTruncatedAt, TruncatedNoteAt;
    }
    hide InTruncatedNote;
  }

  lemma ItemsAreItems(items: seq<Item>, token: Text)
    requires IsToken(token)
    ensures (forall item <- items :: IsItem(item, token)) <==> forall item <- items :: ItemReads(item, token)
  {
    hide IsToken, CanCarry, ContentReads, IsValidName;
    forall item | item in items ensures IsItem(item, token) <==> ItemReads(item, token) {
      CarriesWhatReads(item.content, token);
    }
  }

  lemma BoundaryIsCandidate(hash: Hash, id: Text, items: seq<Item>, token: Text)
    ensures IsBoundaryOf(hash, id, items, token) <==> IsCandidate(hash, id, ShapeOf(KindsOf(items)), token)
    ensures IsBoundaryOf(hash, id, items, token) ==> IsToken(token)
  {
    hide Boundary, IsToken, ShapeOf;
  }

  lemma KindsRead(items: seq<Item>, omitted: nat, token: Text)
    ensures Kinds(ReadingOf(items, omitted, token).parts) == KindsOf(items)
  {
  }

  /** What is printed of a stimulus the format can carry reads, as just that stimulus. */
  lemma StimulusReads(hash: Hash, id: Text, items: seq<Item>, omitted: nat, token: Text)
    requires IsStimulus(hash, id, items, omitted, token)
    ensures ReadOf(hash, id, PrintStimulus(items, omitted, token)) == ReadsAs(ReadingOf(items, omitted, token))
  {
    hide IsToken, IsItem, ItemReads, PrintStimulus, ReadOf, IsBoundaryOf, IsCandidate, Tiles, ShapeOf, ReadingOf;
    BoundaryIsCandidate(hash, id, items, token);
    ItemsAreItems(items, token);
    PrintedTiles(items, omitted, token);
    KindsRead(items, omitted, token);
    ReadingBoundary(items, omitted, token);
    ReadOfGrammar(hash, id, PrintStimulus(items, omitted, token), ReadingOf(items, omitted, token));
  }

  lemma ReadingBoundary(items: seq<Item>, omitted: nat, token: Text)
    ensures ReadingOf(items, omitted, token).boundary == token
  {
  }

  /** And what reads is what is printed of such a stimulus: of the items found in it. */
  lemma ReadIsStimulus(hash: Hash, id: Text, text: Text, v: Verified)
    requires ReadOf(hash, id, text) == ReadsAs(v)
    ensures PartsInside(text, v.parts)
    ensures var items, omitted := ItemsAt(text, v.parts), OmittedCount(v);
            && IsStimulus(hash, id, items, omitted, v.boundary)
            && text == PrintStimulus(items, omitted, v.boundary) && v == ReadingOf(items, omitted, v.boundary)
  {
    hide IsToken, IsItem, ItemReads, PrintStimulus, ReadOf, IsBoundaryOf, IsCandidate, ShapeOf, ReadingOf, Tiles;
    ReadsExactly(hash, id, text);
    TiledIsPrinted(text, v);
    TiledItemsRead(text, v);
    var items := ItemsAt(text, v.parts);
    KindsRead(items, OmittedCount(v), v.boundary);
    BoundaryIsCandidate(hash, id, items, v.boundary);
    ItemsAreItems(items, v.boundary);
  }

  lemma TiledItemsRead(text: Text, v: Verified)
    requires Tiles(text, v) && PartsInside(text, v.parts)
    ensures IsToken(v.boundary) && ItemsAt(text, v.parts) != [] && OmittedCount(v) < 1_000_000_000_000_000_000
    ensures forall item <- ItemsAt(text, v.parts) :: ItemReads(item, v.boundary)
  {
    hide IsToken, ContentReads, RenderNote;
    var items := ItemsAt(text, v.parts);
    forall i | 0 <= i < |items| ensures ItemReads(items[i], v.boundary) {
      assert PartTiles(text, v, i);
    }
  }

  /** The strict reader, exactly: a text reads as `v` if and only if it is printed from a stimulus the format can
      carry, with `v` its reading. */
  lemma ReadsWhatIsPrinted(hash: Hash, id: Text, text: Text, v: Verified)
    ensures ReadOf(hash, id, text) == ReadsAs(v) <==> exists items, omitted: nat ::
      && IsStimulus(hash, id, items, omitted, v.boundary)
      && text == PrintStimulus(items, omitted, v.boundary) && v == ReadingOf(items, omitted, v.boundary)
  {
    hide IsStimulus, PrintStimulus, ReadingOf, ReadOf;
    if ReadOf(hash, id, text) == ReadsAs(v) { ReadIsStimulus(hash, id, text, v); }
    if items, omitted: nat :|
      && IsStimulus(hash, id, items, omitted, v.boundary)
      && text == PrintStimulus(items, omitted, v.boundary) && v == ReadingOf(items, omitted, v.boundary)
    {
      StimulusReads(hash, id, items, omitted, v.boundary);
    }
  }
}
