/** Printing a stimulus from its items, and why the printed text tiles. */
module StimulusText {
  import opened Bytes
  import opened StimulusFormat
  import opened StimulusNotes
  import opened StimulusGrammar

  /** A part as it is printed: its marker's fields, and its content with notes inline. */
  datatype Item = Item(kind: PartKind, name: Option<Text>, isError: bool, content: Text)

  function ItemMarker(item: Item, token: Text): Text {
    RenderMarker(item.kind, item.name, item.isError, token)
  }

  function Lead(items: seq<Item>): Text {
    if |items| == 0 then "" else SEPARATOR
  }

  /** The items printed one after the other, separated. */
  function PrintItems(items: seq<Item>, token: Text): Text {
    if |items| == 0 then ""
    else
      var init, last := items[..|items| - 1], items[|items| - 1];
      PrintItems(init, token) + Lead(init) + ItemMarker(last, token) + last.content
  }

  function PrintClosing(omitted: nat, token: Text): Text {
    if omitted > 0 then SEPARATOR + RenderNote(Omitted(omitted), token) else ""
  }

  /** The whole stimulus: its items, and the closing note when parts were left out. */
  function PrintStimulus(items: seq<Item>, omitted: nat, token: Text): Text {
    PrintItems(items, token) + PrintClosing(omitted, token)
  }

  /** Where the last of `items` lands when they are printed. */
  function LastPart(items: seq<Item>, token: Text): ReadPart
    requires |items| > 0
  {
    var init, last := items[..|items| - 1], items[|items| - 1];
    var start := |PrintItems(init, token)| + |Lead(init)|;
    var end := start + |ItemMarker(last, token)|;
    ReadPart(last.kind, last.name, last.isError, Span(start, end), Span(end, end + |last.content|))
  }

  /** Where each item lands when the items are printed. */
  function Layout(items: seq<Item>, token: Text): (parts: seq<ReadPart>)
    ensures |parts| == |items|
    ensures forall i :: 0 <= i < |items| ==> parts[i].kind == items[i].kind
  {
    if |items| == 0 then [] else Layout(items[..|items| - 1], token) + [LastPart(items, token)]
  }

  function OmittedOf(omitted: nat): Option<nat> {
    if omitted > 0 then Some(omitted) else None
  }

  /** The reading a printed stimulus has. */
  function ReadingOf(items: seq<Item>, omitted: nat, token: Text): Verified {
    Verified(token, Layout(items, token), OmittedOf(omitted))
  }

  /** An item the grammar can carry. */
  ghost predicate ItemReads(item: Item, token: Text) {
    NameFits(item.kind, item.name, item.isError) && ContentReads(item.content, token)
  }

  // ---- printed items tile ----

  ghost predicate PartAlone(text: Text, token: Text, p: ReadPart) {
    && IsPrinted(text, MarkerOf(p, token))
    && p.content.start == p.marker.end <= p.content.end <= |text|
    && ContentReads(text[p.content.start..p.content.end], token)
  }

  ghost predicate Linked(text: Text, p: ReadPart, q: ReadPart) {
    p.content.end + 2 == q.marker.start && OccursAt(text, SEPARATOR, p.content.end)
  }

  lemma MarkerLength(kind: PartKind, name: Option<Text>, isError: bool, token: Text)
    requires IsToken(token)
    ensures |RenderMarker(kind, name, isError, token)| == |MarkerOpen(kind, name, isError)| + BOUNDARY_LEN + 2
  {
  }

  lemma TwoPieces(before: Text, a: Text, b: Text, rest: Text)
    ensures var text := before + a + b + rest;
            && text[|before|..|before| + |a|] == a && text[|before| + |a|..|before| + |a| + |b|] == b
  {
  }

  // The last item printed, whatever follows it.
  lemma LastAlone(items: seq<Item>, token: Text, rest: Text)
    requires |items| > 0 && IsToken(token) && ItemReads(items[|items| - 1], token)
    ensures PartAlone(PrintItems(items, token) + rest, token, LastPart(items, token))
  {
    hide PrintItems, Lead, ItemMarker, IsToken, ItemReads, PartAlone;
    var init, last := items[..|items| - 1], items[|items| - 1];
    PrintSnoc(items, token);
    ItemAlone(PrintItems(init, token) + Lead(init), last, token, rest);
  }

  // One item printed, whatever is before and after it.
  lemma ItemAlone(before: Text, item: Item, token: Text, rest: Text)
    requires IsToken(token) && ItemReads(item, token)
    ensures var start := |before|;
            var end := start + |ItemMarker(item, token)|;
            PartAlone(before + ItemMarker(item, token) + item.content + rest, token,
                      ReadPart(item.kind, item.name, item.isError, Span(start, end), Span(end, end + |item.content|)))
  {
    hide IsToken, ContentReads, NameFits, RenderMarker, MarkerOpen;
    MarkerLength(item.kind, item.name, item.isError, token);
    TwoPieces(before, ItemMarker(item, token), item.content, rest);
  }

  lemma PrintSnoc(items: seq<Item>, token: Text)
    requires |items| > 0
    ensures var init, last := items[..|items| - 1], items[|items| - 1];
            PrintItems(items, token) == PrintItems(init, token) + Lead(init) + ItemMarker(last, token) + last.content
  {
  }

  lemma {:induction false} LastEndIsLength(items: seq<Item>, token: Text)
    requires |items| > 0
    ensures LastPart(items, token).content.end == |PrintItems(items, token)|
  {
  }

  /** Each part is found alone, and linked to the next one by a separator. */
  ghost predicate Chained(text: Text, token: Text, parts: seq<ReadPart>) {
    && (forall i :: 0 <= i < |parts| ==> PartAlone(text, token, parts[i]))
    && (forall i :: 1 <= i < |parts| ==> Linked(text, parts[i - 1], parts[i]))
    && (|parts| > 0 ==> parts[0].marker.start == 0)
  }

  lemma ChainedSnoc(text: Text, token: Text, parts: seq<ReadPart>, p: ReadPart)
    requires Chained(text, token, parts) && PartAlone(text, token, p)
    requires if |parts| == 0 then p.marker.start == 0 else Linked(text, parts[|parts| - 1], p)
    ensures Chained(text, token, parts + [p])
  {
    hide PartAlone, Linked;
  }

  /** What follows all items but the last. */
  function Tail(items: seq<Item>, token: Text, rest: Text): Text
    requires |items| > 0
  {
    Lead(items[..|items| - 1]) + ItemMarker(items[|items| - 1], token) + items[|items| - 1].content + rest
  }

  lemma PrintTail(items: seq<Item>, token: Text, rest: Text)
    requires |items| > 0
    ensures PrintItems(items, token) + rest == PrintItems(items[..|items| - 1], token) + Tail(items, token, rest)
  {
    var init, last := items[..|items| - 1], items[|items| - 1];
    PrintSnoc(items, token);
    hide PrintItems, ItemMarker, Lead;
    ConcatIsAssociative(PrintItems(init, token), Lead(init), ItemMarker(last, token), last.content, rest);
  }

  lemma LinkedLast(items: seq<Item>, token: Text, rest: Text)
    requires |items| > 1
    ensures Linked(PrintItems(items, token) + rest, LastPart(items[..|items| - 1], token), LastPart(items, token))
  {
    var init := items[..|items| - 1];
    PrintTail(items, token, rest);
    LastEndIsLength(init, token);
    hide PrintItems, ItemMarker;
    var at := |PrintItems(init, token)|;
    var text := PrintItems(init, token) + Tail(items, token, rest);
    assert text[at..at + 2] == Tail(items, token, rest)[..2] == SEPARATOR;
  }

  /** Printed items are chained, whatever follows them. */
  lemma {:induction false} ItemsTile(items: seq<Item>, token: Text, rest: Text)
    requires IsToken(token) && forall item <- items :: ItemReads(item, token)
    ensures Chained(PrintItems(items, token) + rest, token, Layout(items, token))
  {
    if |items| > 0 {
      var init := items[..|items| - 1];
      assert items[|items| - 1] in items && forall item <- init :: item in items;
      ItemsTile(init, token, Tail(items, token, rest));
      PrintTail(items, token, rest);
      LastAlone(items, token, rest);
      assert |init| == 0 ==> LastPart(items, token).marker.start == 0;
      if |init| > 0 {
        LinkedLast(items, token, rest);
        LastOfLayout(init, token);
      }
      LayoutSnoc(items, token);
      hide PrintItems, Layout, PartAlone, ItemReads, IsToken, Tail, Linked, LastPart;
      ChainedSnoc(PrintItems(items, token) + rest, token, Layout(init, token), LastPart(items, token));
    }
  }

  lemma LayoutSnoc(items: seq<Item>, token: Text)
    requires |items| > 0
    ensures Layout(items, token) == Layout(items[..|items| - 1], token) + [LastPart(items, token)]
  {
  }

  lemma LastOfLayout(items: seq<Item>, token: Text)
    requires |items| > 0
    ensures Layout(items, token)[|items| - 1] == LastPart(items, token)
  {
  }

  /** A stimulus printed from items the grammar can carry tiles as its layout says. */
  lemma PrintedTiles(items: seq<Item>, omitted: nat, token: Text)
    requires |items| > 0 && IsToken(token) && omitted < COUNT_LIMIT
    requires forall item <- items :: ItemReads(item, token)
    ensures Tiles(PrintStimulus(items, omitted, token), ReadingOf(items, omitted, token))
  {
    hide PrintItems, IsToken, Layout, Chained, PartTiles, ClosingTiles, ItemReads, LastPart, PrintClosing;
    ItemsTile(items, token, PrintClosing(omitted, token));
    var text, v := PrintStimulus(items, omitted, token), ReadingOf(items, omitted, token);
    forall i | 0 <= i < |v.parts|
      ensures PartTiles(text, v, i)
    {
      ChainedTiles(text, v, i);
    }
    ChainStarts(text, token, v.parts);
    LastEndIsLength(items, token);
    LastOfLayout(items, token);
    ClosingTilesText(PrintItems(items, token), omitted, token);
  }

  lemma ChainStarts(text: Text, token: Text, parts: seq<ReadPart>)
    requires Chained(text, token, parts) && |parts| > 0
    ensures parts[0].marker.start == 0
  {
  }

  lemma ChainedTiles(text: Text, v: Verified, i: nat)
    requires Chained(text, v.boundary, v.parts) && i < |v.parts|
    ensures PartTiles(text, v, i)
  {
    hide IsPrinted, ContentReads;
    assert PartAlone(text, v.boundary, v.parts[i]);
    assert i + 1 < |v.parts| ==> Linked(text, v.parts[i + 1 - 1], v.parts[i + 1]);
  }

  lemma ClosingTilesText(printed: Text, omitted: nat, token: Text)
    requires omitted < COUNT_LIMIT
    ensures ClosingTiles(printed + PrintClosing(omitted, token), token, |printed|, OmittedOf(omitted))
  {
    hide RenderNote;
    assert (printed + PrintClosing(omitted, token))[|printed|..] == PrintClosing(omitted, token);
  }

  // ---- and a tiled text is the print of its items ----

  function ItemAt(text: Text, p: ReadPart): Item
    requires p.content.start <= p.content.end <= |text|
  {
    Item(p.kind, p.name, p.isError, text[p.content.start..p.content.end])
  }

  predicate PartsInside(text: Text, parts: seq<ReadPart>) {
    forall i :: 0 <= i < |parts| ==> parts[i].content.start <= parts[i].content.end <= |text|
  }

  function ItemsAt(text: Text, parts: seq<ReadPart>): (items: seq<Item>)
    requires PartsInside(text, parts)
    ensures |items| == |parts| && forall i :: 0 <= i < |parts| ==> items[i] == ItemAt(text, parts[i])
  {
    seq(|parts|, i requires 0 <= i < |parts| => ItemAt(text, parts[i]))
  }

  lemma TiledPartsInside(text: Text, v: Verified)
    requires Tiles(text, v)
    ensures PartsInside(text, v.parts)
    ensures forall item <- ItemsAt(text, v.parts) :: ItemReads(item, v.boundary)
  {
    hide ContentReads, RenderMarker, IsToken, ClosingTiles;
    forall i | 0 <= i < |v.parts|
      ensures v.parts[i].content.start <= v.parts[i].content.end <= |text|
      ensures ItemReads(ItemAt(text, v.parts[i]), v.boundary)
    {
      assert PartTiles(text, v, i);
    }
  }

  function OmittedCount(v: Verified): nat {
    if v.omittedParts.Some? then v.omittedParts.value else 0
  }

  /** Lossless parse: a tiled text is, byte for byte, the print of what it was read as. */
  lemma TiledIsPrinted(text: Text, v: Verified)
    requires Tiles(text, v)
    ensures PartsInside(text, v.parts)
    ensures text == PrintStimulus(ItemsAt(text, v.parts), OmittedCount(v), v.boundary)
    ensures v == ReadingOf(ItemsAt(text, v.parts), OmittedCount(v), v.boundary)
  {
    hide PartTiles, IsToken, ItemsAt, PrintItems, PrintClosing, Layout, AllSpelled, ClosingTiles;
    TiledPartsInside(text, v);
    ClosingIsPrinted(text, v);
    hide Tiles;
    PartsSpelled(text, v);
    SpelledIsPrinted(text, v.boundary, v.parts, ItemsAt(text, v.parts));
    var end := v.parts[|v.parts| - 1].content.end;
    assert text == text[..end] + text[end..];
  }

  lemma PartsSpelled(text: Text, v: Verified)
    requires Tiles(text, v) && PartsInside(text, v.parts)
    ensures |v.parts| > 0 && AllSpelled(text, v.boundary, v.parts, ItemsAt(text, v.parts))
  {
    hide Spelled, PartTiles;
    forall i | 0 <= i < |v.parts|
      ensures Spelled(text, v.boundary, v.parts, ItemsAt(text, v.parts), i)
    {
      PartSpelled(text, v, i);
    }
  }

  lemma ClosingIsPrinted(text: Text, v: Verified)
    requires Tiles(text, v)
    ensures |v.parts| > 0 && v.parts[|v.parts| - 1].content.end <= |text|
    ensures text[v.parts[|v.parts| - 1].content.end..] == PrintClosing(OmittedCount(v), v.boundary)
    ensures OmittedOf(OmittedCount(v)) == v.omittedParts
  {
    hide PartTiles, IsToken, RenderNote;
  }

  /** What a tiled text spells from the end of part `i - 1` to the end of part `i`. */
  predicate Spelled(text: Text, token: Text, parts: seq<ReadPart>, items: seq<Item>, i: nat)
    requires i < |parts| == |items| && PartsInside(text, parts)
  {
    var p, item := parts[i], items[i];
    var before := if i == 0 then 0 else parts[i - 1].content.end;
    && before <= p.marker.start <= p.marker.end == p.content.start
    && text[before..p.marker.start] == (if i == 0 then "" else SEPARATOR)
    && text[p.marker.start..p.marker.end] == ItemMarker(item, token)
    && text[p.content.start..p.content.end] == item.content
    && item.kind == p.kind && item.name == p.name && item.isError == p.isError
  }

  lemma PartSpelled(text: Text, v: Verified, i: nat)
    requires Tiles(text, v) && PartsInside(text, v.parts) && i < |v.parts|
    ensures Spelled(text, v.boundary, v.parts, ItemsAt(text, v.parts), i)
  {
    hide ContentReads, IsToken, NameFits, RenderMarker, ClosingTiles, MarkerOpen;
    if i > 0 {
      assert PartTiles(text, v, i - 1);
      SeparatorBytes(text, v.parts[i - 1].content.end);
      assert text[v.parts[i - 1].content.end..v.parts[i].marker.start] == SEPARATOR;
    }
    assert PartTiles(text, v, i);
    hide PartTiles, Tiles;
  }

  predicate AllSpelled(text: Text, token: Text, parts: seq<ReadPart>, items: seq<Item>) {
    && |parts| == |items| && PartsInside(text, parts)
    && forall i :: 0 <= i < |parts| ==> Spelled(text, token, parts, items, i)
  }

  lemma SpelledPrefix(text: Text, token: Text, parts: seq<ReadPart>, items: seq<Item>)
    requires AllSpelled(text, token, parts, items) && |parts| > 0
    ensures AllSpelled(text, token, parts[..|parts| - 1], items[..|parts| - 1])
  {
    hide ItemMarker;
    var p, q := parts[..|parts| - 1], items[..|parts| - 1];
    forall i | 0 <= i < |p|
      ensures Spelled(text, token, p, q, i)
    {
      assert Spelled(text, token, parts, items, i);
    }
  }

  lemma {:induction false} SpelledIsPrinted(text: Text, token: Text, parts: seq<ReadPart>, items: seq<Item>)
    requires AllSpelled(text, token, parts, items)
    ensures PrintItems(items, token) == (if |parts| == 0 then "" else text[..parts[|parts| - 1].content.end])
    ensures Layout(items, token) == parts
  {
    if |parts| > 0 {
      var n := |parts| - 1;
      assert Spelled(text, token, parts, items, n) && PartsInside(text, parts);
      hide AllSpelled, Spelled, PartsInside, LastPart;
      SpelledPrefix(text, token, parts, items);
      SpelledIsPrinted(text, token, parts[..n], items[..n]);
      hide PrintItems, Layout;
      if n > 0 {
        assert parts[..n][n - 1] == parts[n - 1];
      }
      SpelledStep(text, token, parts, items);
      LayoutSnoc(items, token);
      InitAndLast(parts);
    }
  }

  lemma SpelledStep(text: Text, token: Text, parts: seq<ReadPart>, items: seq<Item>)
    requires |parts| == |items| > 0 && PartsInside(text, parts) && Spelled(text, token, parts, items, |parts| - 1)
    requires var n := |parts| - 1;
             PrintItems(items[..n], token) == if n == 0 then "" else text[..parts[n - 1].content.end]
    ensures PrintItems(items, token) == text[..parts[|parts| - 1].content.end]
    ensures LastPart(items, token) == parts[|parts| - 1]
  {
    hide PrintItems, ItemMarker, LastPart;
    var n := |parts| - 1;
    PrintStep(text, items, token, parts[n], if n == 0 then "" else text[..parts[n - 1].content.end]);
  }

  lemma PrintStep(text: Text, items: seq<Item>, token: Text, p: ReadPart, before: Text)
    requires |items| > 0 && before == PrintItems(items[..|items| - 1], token)
    requires p.marker.start <= p.marker.end == p.content.start <= p.content.end <= |text|
    requires |before| + |Lead(items[..|items| - 1])| == p.marker.start
    requires text[..|before|] == before && text[|before|..p.marker.start] == Lead(items[..|items| - 1])
    requires text[p.marker.start..p.marker.end] == ItemMarker(items[|items| - 1], token)
    requires text[p.content.start..p.content.end] == items[|items| - 1].content
    requires items[|items| - 1].kind == p.kind && items[|items| - 1].name == p.name
    requires items[|items| - 1].isError == p.isError
    ensures PrintItems(items, token) == text[..p.content.end] && LastPart(items, token) == p
  {
    PrintSnoc(items, token);
    hide PrintItems, ItemMarker, Lead;
    ConcatSlices(text, |before|, p.marker.start, p.marker.end, p.content.end);
  }

  /** The items of a printed stimulus are found again where its layout says. */
  lemma {:induction false} ItemsFound(items: seq<Item>, token: Text, rest: Text)
    ensures PartsInside(PrintItems(items, token) + rest, Layout(items, token))
    ensures ItemsAt(PrintItems(items, token) + rest, Layout(items, token)) == items
  {
    if |items| > 0 {
      var n := |items| - 1;
      ItemsFound(items[..n], token, Tail(items, token, rest));
      PrintTail(items, token, rest);
      LastFound(items, token, rest);
      LayoutSnoc(items, token);
      InitAndLast(items);
      hide PrintItems, Layout, LastPart, Tail, ItemAt;
      SnocFound(PrintItems(items, token) + rest, Layout(items, token), items);
    }
  }

  lemma SnocFound(text: Text, parts: seq<ReadPart>, items: seq<Item>)
    requires |parts| == |items| > 0
    requires var n := |items| - 1;
             && PartsInside(text, parts[..n]) && ItemsAt(text, parts[..n]) == items[..n]
             && parts[n].content.start <= parts[n].content.end <= |text| && ItemAt(text, parts[n]) == items[n]
    ensures PartsInside(text, parts) && ItemsAt(text, parts) == items
  {
    hide ItemAt;
    var n := |items| - 1;
    forall i | 0 <= i < n
      ensures parts[i].content.start <= parts[i].content.end <= |text| && ItemAt(text, parts[i]) == items[i]
    {
      assert parts[..n][i] == parts[i] && items[..n][i] == items[i] && ItemsAt(text, parts[..n])[i] == items[..n][i];
    }
  }

  lemma LastFound(items: seq<Item>, token: Text, rest: Text)
    requires |items| > 0
    ensures var text, p := PrintItems(items, token) + rest, LastPart(items, token);
            p.content.start <= p.content.end <= |text| && ItemAt(text, p) == items[|items| - 1]
  {
    var init, last := items[..|items| - 1], items[|items| - 1];
    PrintSnoc(items, token);
    hide PrintItems, ItemMarker;
    var before := PrintItems(init, token) + Lead(init) + ItemMarker(last, token);
    assert (before + last.content + rest)[|before|..|before| + |last.content|] == last.content;
  }
}
