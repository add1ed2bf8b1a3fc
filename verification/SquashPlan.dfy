/** Squash plans: the events made from a range's sources, the checks they meet, the range chosen. */
module SquashPlan {
  import opened Bytes
  import opened Order
  import opened Identities

  /** What a stored snapshot says of itself, and its content. */
  datatype Snapshot = Snapshot(interaction: Option<Text>, source: Option<Text>, content: Text)

  datatype Source = Source(interaction: Text, id: Text, snapshot: Snapshot)

  /** SHA-256 in hexadecimal. */
  type Digest = Text -> Text

  predicate SourceLess(a: Source, b: Source) {
    Less(a.interaction, b.interaction) || (a.interaction == b.interaction && Less(a.id, b.id))
  }

  /** Sources as the store lists them: by interaction and id, each pair once. */
  ghost predicate Listed(sources: seq<Source>) {
    Ascending(SourceLess, sources)
  }

  function InteractionsOf(sources: seq<Source>): (s: seq<Text>)
    ensures forall x :: x in s <==> exists p :: p in sources && p.interaction == x
  {
    if sources == [] then []
    else
      assert sources == sources[..|sources| - 1] + [sources[|sources| - 1]];
      InteractionsOf(sources[..|sources| - 1]) + [sources[|sources| - 1].interaction]
  }

  /** The ids one interaction has among the sources, in their order. */
  function IdsOf(sources: seq<Source>, interaction: Text): (s: seq<Text>)
    ensures forall x :: x in s <==> exists p :: p in sources && p.interaction == interaction && p.id == x
  {
    if sources == [] then []
    else
      var last := sources[|sources| - 1];
      assert sources == sources[..|sources| - 1] + [last];
      IdsOf(sources[..|sources| - 1], interaction) + if last.interaction == interaction then [last.id] else []
  }

  function Identify(h: Digest, e: DerivationEvent): DerivationEvent {
    e.(id := h(EventEncoding(e)))
  }

  function EventFor(h: Digest, candidate: Text, range: Text, sources: seq<Source>, interaction: Text): DerivationEvent {
    Identify(h, DerivationEvent("", interaction, candidate, SquashExact, 1, LocallyObserved, LocalHook,
                                Canonical(IdsOf(sources, interaction)), None, None, Some(range), None))
  }

  function EventsFor(h: Digest, candidate: Text, range: Text, sources: seq<Source>, interactions: seq<Text>)
    : (es: seq<DerivationEvent>)
    ensures |es| == |interactions|
    ensures forall i :: 0 <= i < |es| ==> es[i] == EventFor(h, candidate, range, sources, interactions[i])
  {
    seq(|interactions|, i requires 0 <= i < |interactions| => EventFor(h, candidate, range, sources, interactions[i]))
  }

  /** One event for every interaction, citing all of its sources. */
  function Plan(h: Digest, candidate: Text, range: Text, sources: seq<Source>): seq<DerivationEvent> {
    EventsFor(h, candidate, range, sources, Canonical(InteractionsOf(sources)))
  }

  method Build(h: Digest, candidate: Text, range: Text, sources: seq<Source>) returns (events: seq<DerivationEvent>)
    ensures events == Plan(h, candidate, range, sources)
  {
    hide Canonical, EventFor;
    var interactions := Canonical(InteractionsOf(sources));
    events := [];
    for i := 0 to |interactions|
      invariant events == EventsFor(h, candidate, range, sources, interactions[..i])
    {
      assert interactions[..i + 1][..i] == interactions[..i];
      events := events + [EventFor(h, candidate, range, sources, interactions[i])];
    }
    assert interactions[..|interactions|] == interactions;
  }

  // --- Validation ---

  /** What every event of a plan must be on its own. */
  ghost predicate WellMade(h: Digest, candidate: Text, range: Text, e: DerivationEvent) {
    && e.id == h(EventEncoding(e)) && e.target == candidate && e.relation == SquashExact
    && e.version == 1 && e.kind == LocallyObserved && e.origin == LocalHook
    && e.oldOid == None && e.newOid == None && e.range == Some(range) && Ascending(Less, e.sources)
  }

  predicate InOrder(s: seq<Text>) {
    forall i :: 0 <= i < |s| - 1 ==> Less(s[i], s[i + 1])
  }

  lemma {:induction false} AdjacentIsEnough(s: seq<Text>)
    ensures InOrder(s) <==> Ascending(Less, s)
  {
    hide Less;
    if s != [] {
      AdjacentIsEnough(s[..|s| - 1]);
      if InOrder(s) { LastInOrder(s); } else { NotAscending(s); }
    }
  }

  lemma NotAscending(s: seq<Text>)
    ensures Ascending(Less, s) ==> InOrder(s)
  {
    hide Less;
  }

  lemma LastInOrder(s: seq<Text>)
    requires s != [] && InOrder(s) && (InOrder(s[..|s| - 1]) ==> Ascending(Less, s[..|s| - 1]))
    ensures Ascending(Less, s)
  {
    hide Less;
    var init := s[..|s| - 1];
    TextsAreOrdered();
    assert InOrder(init) by {
      forall i | 0 <= i < |init| - 1 ensures Less(init[i], init[i + 1]) { assert Less(s[i], s[i + 1]); }
    }
    forall i | 0 <= i < |s| - 1 ensures Less(s[i], s[|s| - 1]) {
      assert Less(s[|s| - 2], s[|s| - 1]);
      if i < |s| - 2 { assert Less(init[i], init[|init| - 1]); }
    }
    forall i, j | 0 <= i < j < |s| - 1 ensures Less(s[i], s[j]) { assert Less(init[i], init[j]); }
  }

  /** The events are the partition of the sources: well made, one for each interaction that has
      sources and for no other, each citing exactly its interaction's sources in order. */
  ghost predicate IsPartition(h: Digest, candidate: Text, range: Text, sources: seq<Source>, events: seq<DerivationEvent>) {
    && sources != []
    && (forall i :: 0 <= i < |events| ==> WellMade(h, candidate, range, events[i]))
    && (forall i, j :: 0 <= i < j < |events| ==> events[i].interaction != events[j].interaction)
    && (forall i :: 0 <= i < |events| ==>
          events[i].interaction in InteractionsOf(sources)
          && events[i].sources == Canonical(IdsOf(sources, events[i].interaction)))
    && (forall x :: x in InteractionsOf(sources) ==> exists i :: 0 <= i < |events| && events[i].interaction == x)
  }

  lemma {:induction false} NoIds(sources: seq<Source>, interaction: Text)
    requires interaction !in InteractionsOf(sources)
    ensures IdsOf(sources, interaction) == []
  {
    if sources != [] {
      assert InteractionsOf(sources)[|InteractionsOf(sources)| - 1] == sources[|sources| - 1].interaction;
      NoIds(sources[..|sources| - 1], interaction);
    }
  }

  /** The source ids by interaction, in the order of the sources. */
  method Group(sources: seq<Source>) returns (m: map<Text, seq<Text>>)
    ensures forall x :: x in m <==> x in InteractionsOf(sources)
    ensures forall x :: x in m ==> m[x] == IdsOf(sources, x)
  {
    m := map[];
    for i := 0 to |sources|
      invariant forall x :: x in m <==> x in InteractionsOf(sources[..i])
      invariant forall x :: x in m ==> m[x] == IdsOf(sources[..i], x)
    {
      assert sources[..i + 1][..i] == sources[..i];
      var s := sources[i];
      if s.interaction !in m { NoIds(sources[..i], s.interaction); }
      m := m[s.interaction := (if s.interaction in m then m[s.interaction] else []) + [s.id]];
    }
    assert sources[..|sources|] == sources;
  }

  /** The check of one event. */
  predicate LooksRight(h: Digest, candidate: Text, range: Text, e: DerivationEvent) {
    !(e.id != h(EventEncoding(e)) || e.target != candidate || e.relation != SquashExact || e.version != 1
      || e.kind != LocallyObserved || e.origin != LocalHook || e.oldOid != None || e.newOid != None
      || e.range != Some(range) || !InOrder(e.sources))
  }

  lemma LooksRightIsWellMade(h: Digest, candidate: Text, range: Text, e: DerivationEvent)
    ensures LooksRight(h, candidate, range, e) <==> WellMade(h, candidate, range, e)
  {
    hide EventEncoding;
    AdjacentIsEnough(e.sources);
  }

  /** The check made after building: two maps, compared. */
  method Validate(h: Digest, candidate: Text, range: Text, sources: seq<Source>, events: seq<DerivationEvent>)
    returns (ok: bool)
    ensures ok <==> IsPartition(h, candidate, range, sources, events)
  {
    hide Canonical, WellMade, LooksRight, Collected, IsPartition, InteractionsOf, IdsOf;
    if sources == [] {
      NoPartition(h, candidate, range, sources, events);
      return false;
    }
    var raw := Group(sources);
    var expected := map x | x in raw :: Canonical(raw[x]);
    var actual: map<Text, seq<Text>> := map[];
    Collecting(events, 0, actual);
    for i := 0 to |events|
      invariant forall j :: 0 <= j < i ==> WellMade(h, candidate, range, events[j])
      invariant Collected(events, i, actual)
    {
      var e := events[i];
      LooksRightIsWellMade(h, candidate, range, e);
      Collecting(events, i, actual);
      if !LooksRight(h, candidate, range, e) || e.interaction in actual {
        NoPartition(h, candidate, range, sources, events);
        return false;
      }
      actual := actual[e.interaction := e.sources];
    }
    ok := actual == expected;
    SameMaps(h, candidate, range, sources, events, actual, expected);
  }

  lemma NoPartition(h: Digest, candidate: Text, range: Text, sources: seq<Source>, events: seq<DerivationEvent>)
    ensures IsPartition(h, candidate, range, sources, events) ==>
      sources != []
      && (forall i :: 0 <= i < |events| ==> WellMade(h, candidate, range, events[i]))
      && (forall i, j :: 0 <= i < j < |events| ==> events[i].interaction != events[j].interaction)
  {
    hide WellMade, Canonical, InteractionsOf, IdsOf;
  }

  /** The first `n` events have different interactions, and the map holds their sources. */
  ghost predicate Collected(events: seq<DerivationEvent>, n: nat, m: map<Text, seq<Text>>)
    requires n <= |events|
  {
    && (forall j, k :: 0 <= j < k < n ==> events[j].interaction != events[k].interaction)
    && (forall j :: 0 <= j < n ==> events[j].interaction in m && m[events[j].interaction] == events[j].sources)
    && (forall x :: x in m ==> exists j :: 0 <= j < n && events[j].interaction == x)
  }

  lemma Collecting(events: seq<DerivationEvent>, n: nat, m: map<Text, seq<Text>>)
    requires n <= |events| && ((n == 0 && m == map[]) || Collected(events, n, m))
    ensures Collected(events, n, m)
    ensures n < |events| && events[n].interaction !in m ==>
      Collected(events, n + 1, m[events[n].interaction := events[n].sources])
    ensures n < |events| && events[n].interaction in m ==>
      exists j :: 0 <= j < n && events[j].interaction == events[n].interaction
  {
  }

  lemma SameMaps(h: Digest, candidate: Text, range: Text, sources: seq<Source>, events: seq<DerivationEvent>,
                 actual: map<Text, seq<Text>>, expected: map<Text, seq<Text>>)
    requires sources != [] && forall i :: 0 <= i < |events| ==> WellMade(h, candidate, range, events[i])
    requires forall x :: x in expected <==> x in InteractionsOf(sources)
    requires forall x :: x in expected ==> expected[x] == Canonical(IdsOf(sources, x))
    requires Collected(events, |events|, actual)
    ensures actual == expected <==> IsPartition(h, candidate, range, sources, events)
  {
    hide Canonical, WellMade, InteractionsOf, IdsOf;
    if IsPartition(h, candidate, range, sources, events) {
      assert forall x :: x in actual <==> x in expected;
      assert forall x :: x in actual ==> actual[x] == expected[x];
    }
  }

  /** What is built is never refused by the check made after building. */
  lemma PlanIsPartition(h: Digest, candidate: Text, range: Text, sources: seq<Source>)
    requires sources != []
    ensures IsPartition(h, candidate, range, sources, Plan(h, candidate, range, sources))
  {
    hide Canonical, Less, EventEncoding;
    var names := Canonical(InteractionsOf(sources));
    var events := Plan(h, candidate, range, sources);
    CanonicalIsSet(InteractionsOf(sources));
    TextsAreOrdered();
    forall i | 0 <= i < |events| ensures WellMade(h, candidate, range, events[i]) {
      CanonicalIsSet(IdsOf(sources, names[i]));
      IdentityIsNotHashed(h, EventFor(h, candidate, range, sources, names[i]));
    }
    forall i | 0 <= i < |events| ensures events[i].interaction in InteractionsOf(sources) {
      assert names[i] in names;
    }
    forall x | x in InteractionsOf(sources) ensures exists i :: 0 <= i < |events| && events[i].interaction == x {
      assert x in names;
      var i :| 0 <= i < |names| && names[i] == x;
      assert events[i].interaction == x;
    }
  }

  /** The events come in ascending order of their interactions. */
  lemma PlanIsInOrder(h: Digest, candidate: Text, range: Text, sources: seq<Source>)
    ensures var events := Plan(h, candidate, range, sources);
      forall i, j :: 0 <= i < j < |events| ==> Less(events[i].interaction, events[j].interaction)
  {
    hide Canonical, Less, EventEncoding;
    CanonicalIsSet(InteractionsOf(sources));
  }

  lemma IdentityIsNotHashed(h: Digest, e: DerivationEvent)
    ensures EventEncoding(e) == EventEncoding(e.(id := ""))
  {
  }

  // --- The checks of the transaction that stores the plan ---

  /** The sources an event cites that belong to its interaction, in stored order. */
  function OwnedIds(sources: seq<Source>, e: DerivationEvent): seq<Text> {
    if sources == [] then []
    else
      var last := sources[|sources| - 1];
      OwnedIds(sources[..|sources| - 1], e)
      + if last.interaction == e.interaction && last.id in e.sources then [last.id] else []
  }

  function Supplied(sources: seq<Source>): set<(Text, Text)> {
    set p | p in sources :: (p.interaction, p.id)
  }

  function Cited(events: seq<DerivationEvent>): set<(Text, Text)> {
    set i, x | 0 <= i < |events| && x in events[i].sources :: (events[i].interaction, x)
  }

  /** The snapshots say they are what they are filed as. */
  predicate SnapshotsOwned(sources: seq<Source>) {
    forall p :: p in sources ==> p.snapshot.interaction == Some(p.interaction) && p.snapshot.source == Some(p.id)
  }

  /** What the set and ownership checks made again inside the transaction demand. */
  ghost predicate IsAccepted(sources: seq<Source>, events: seq<DerivationEvent>) {
    SnapshotsOwned(sources) && Supplied(sources) == Cited(events)
    && forall i :: 0 <= i < |events| ==> OwnedIds(sources, events[i]) == events[i].sources
  }

  method Accepts(sources: seq<Source>, events: seq<DerivationEvent>) returns (ok: bool)
    ensures ok <==> IsAccepted(sources, events)
  {
    for i := 0 to |sources|
      invariant forall j :: 0 <= j < i ==>
        sources[j].snapshot.interaction == Some(sources[j].interaction) && sources[j].snapshot.source == Some(sources[j].id)
    {
      if sources[i].snapshot.interaction != Some(sources[i].interaction) || sources[i].snapshot.source != Some(sources[i].id) {
        assert sources[i] in sources;
        return false;
      }
    }
    if Supplied(sources) != Cited(events) { return false; }
    for i := 0 to |events|
      invariant forall j :: 0 <= j < i ==> OwnedIds(sources, events[j]) == events[j].sources
    {
      if OwnedIds(sources, events[i]) != events[i].sources { return false; }
    }
    ok := true;
  }

  lemma {:induction false} OwnedIsAll(sources: seq<Source>, e: DerivationEvent)
    requires forall p :: p in sources && p.interaction == e.interaction ==> p.id in e.sources
    ensures OwnedIds(sources, e) == IdsOf(sources, e.interaction)
  {
    if sources != [] {
      assert sources == sources[..|sources| - 1] + [sources[|sources| - 1]];
      OwnedIsAll(sources[..|sources| - 1], e);
    }
  }

  lemma {:induction false} ListedIdsAscend(sources: seq<Source>, interaction: Text)
    requires Listed(sources)
    ensures Ascending(Less, IdsOf(sources, interaction))
  {
    if sources != [] {
      hide Less;
      var init, last := sources[..|sources| - 1], sources[|sources| - 1];
      ListedIdsAscend(init, interaction);
      TextsAreOrdered();
      var ids := IdsOf(init, interaction);
      if last.interaction == interaction {
        forall i | 0 <= i < |ids| ensures Less(ids[i], last.id) {
          assert ids[i] in ids;
          var p :| p in init && p.interaction == interaction && p.id == ids[i];
          var j :| 0 <= j < |init| && init[j] == p;
          assert SourceLess(sources[j], sources[|sources| - 1]);
        }
      }
    }
  }

  lemma {:induction false} OwnedAre(sources: seq<Source>, e: DerivationEvent)
    ensures forall x :: x in OwnedIds(sources, e) <==> x in e.sources && (e.interaction, x) in Supplied(sources)
  {
    if sources != [] {
      assert sources == sources[..|sources| - 1] + [sources[|sources| - 1]];
      OwnedAre(sources[..|sources| - 1], e);
    }
  }

  lemma {:induction false} OwnedAscend(sources: seq<Source>, e: DerivationEvent)
    requires Listed(sources)
    ensures Ascending(Less, OwnedIds(sources, e))
  {
    hide Less;
    if sources != [] {
      var init, last := sources[..|sources| - 1], sources[|sources| - 1];
      OwnedAscend(init, e);
      OwnedAre(init, e);
      var ids := OwnedIds(init, e);
      if last.interaction == e.interaction && last.id in e.sources {
        forall i | 0 <= i < |ids| ensures Less(ids[i], last.id) {
          assert ids[i] in ids;
          LastIsAfter(sources, ids[i]);
        }
        LastAscends(ids, last.id);
      }
    }
  }

  /** The last source comes after every other of its interaction. */
  lemma LastIsAfter(sources: seq<Source>, x: Text)
    requires Listed(sources) && sources != []
    requires (sources[|sources| - 1].interaction, x) in Supplied(sources[..|sources| - 1])
    ensures Less(x, sources[|sources| - 1].id)
  {
    var init, last := sources[..|sources| - 1], sources[|sources| - 1];
    var p :| p in init && (p.interaction, p.id) == (last.interaction, x);
    var j :| 0 <= j < |init| && init[j] == p;
    assert SourceLess(sources[j], sources[|sources| - 1]);
    LessIsIrreflexive(p.interaction);
  }

  lemma LastAscends(ids: seq<Text>, last: Text)
    requires Ascending(Less, ids) && forall i :: 0 <= i < |ids| ==> Less(ids[i], last)
    ensures Ascending(Less, ids + [last])
  {
    hide Less;
  }

  /** A source its interaction's event cites, and a cited source that is one, each told by itself. */
  ghost predicate CitesExactly(sources: seq<Source>, events: seq<DerivationEvent>) {
    && (forall p :: p in sources ==> exists e :: e in events && e.interaction == p.interaction && p.id in e.sources)
    && (forall e, x :: e in events && x in e.sources ==> exists p :: p in sources && p.interaction == e.interaction && p.id == x)
  }

  lemma CitesIffSame(sources: seq<Source>, events: seq<DerivationEvent>)
    ensures Supplied(sources) == Cited(events) <==> CitesExactly(sources, events)
  {
    hide Supplied, Cited, CitesExactly;
    forall y, x ensures (y, x) in Supplied(sources) <==> exists p :: p in sources && p.interaction == y && p.id == x {
      SuppliedBy(sources, y, x);
    }
    forall y, x ensures (y, x) in Cited(events) <==> exists e :: e in events && e.interaction == y && x in e.sources {
      CitedBy(events, y, x);
    }
    if CitesExactly(sources, events) { SameCites(sources, events); }
    if Supplied(sources) == Cited(events) { CitesSame(sources, events); }
  }

  lemma SuppliedBy(sources: seq<Source>, y: Text, x: Text)
    ensures (y, x) in Supplied(sources) <==> exists p :: p in sources && p.interaction == y && p.id == x
  {
  }

  lemma CitedBy(events: seq<DerivationEvent>, y: Text, x: Text)
    ensures (y, x) in Cited(events) <==> exists e :: e in events && e.interaction == y && x in e.sources
  {
    if (y, x) in Cited(events) {
      var i :| 0 <= i < |events| && events[i].interaction == y && x in events[i].sources;
      assert events[i] in events;
    }
    if e :| e in events && e.interaction == y && x in e.sources {
      var i :| 0 <= i < |events| && events[i] == e;
    }
  }

  lemma SameCites(sources: seq<Source>, events: seq<DerivationEvent>)
    requires CitesExactly(sources, events)
    requires forall y, x :: (y, x) in Supplied(sources) <==> exists p :: p in sources && p.interaction == y && p.id == x
    requires forall y, x :: (y, x) in Cited(events) <==> exists e :: e in events && e.interaction == y && x in e.sources
    ensures Supplied(sources) == Cited(events)
  {
    hide Supplied, Cited;
    forall y, x ensures (y, x) in Supplied(sources) <==> (y, x) in Cited(events) { }
    forall k ensures k in Supplied(sources) <==> k in Cited(events) { assert k == (k.0, k.1); }
  }

  lemma CitesSame(sources: seq<Source>, events: seq<DerivationEvent>)
    requires Supplied(sources) == Cited(events)
    requires forall y, x :: (y, x) in Supplied(sources) <==> exists p :: p in sources && p.interaction == y && p.id == x
    requires forall y, x :: (y, x) in Cited(events) <==> exists e :: e in events && e.interaction == y && x in e.sources
    ensures CitesExactly(sources, events)
  {
    hide Supplied, Cited;
    forall p | p in sources ensures (p.interaction, p.id) in Cited(events) {
      assert (p.interaction, p.id) in Supplied(sources);
    }
    forall e, x | e in events && x in e.sources ensures (e.interaction, x) in Supplied(sources) {
      assert (e.interaction, x) in Cited(events);
    }
  }

  /** The checks in the transaction, exactly, for sources as the store lists them: every snapshot says what it is filed as,
      the events cite every source and nothing else, and each event its sources in ascending order, each once. */
  lemma AcceptedIff(sources: seq<Source>, events: seq<DerivationEvent>)
    requires Listed(sources)
    ensures IsAccepted(sources, events) <==>
      && (forall p :: p in sources ==> p.snapshot.interaction == Some(p.interaction) && p.snapshot.source == Some(p.id))
      && CitesExactly(sources, events)
      && forall i :: 0 <= i < |events| ==> Ascending(Less, events[i].sources)
  {
    hide Less, CitesExactly, OwnedIds, Supplied, Cited, Listed;
    CitesIffSame(sources, events);
    forall i | 0 <= i < |events| && Supplied(sources) == Cited(events)
      ensures OwnedIds(sources, events[i]) == events[i].sources <==> Ascending(Less, events[i].sources)
    {
      OwnedAscend(sources, events[i]);
      if Ascending(Less, events[i].sources) { OwnedIsWhole(sources, events, i); }
    }
  }

  lemma OwnedIsWhole(sources: seq<Source>, events: seq<DerivationEvent>, i: nat)
    requires Listed(sources) && i < |events| && Supplied(sources) == Cited(events) && Ascending(Less, events[i].sources)
    ensures OwnedIds(sources, events[i]) == events[i].sources
  {
    hide Less, Listed;
    var e := events[i];
    OwnedAscend(sources, e);
    OwnedAre(sources, e);
    AscendingIsCanonical(e.sources);
    AscendingIsCanonical(OwnedIds(sources, e));
    forall x ensures x in OwnedIds(sources, e) <==> x in e.sources {
      if x in e.sources { assert (e.interaction, x) in Cited(events); }
    }
    CanonicalIffSameSet(OwnedIds(sources, e), e.sources);
  }

  /** For sources as the store lists them, a partition meets the transaction's set check, and its
      ownership check event by event. */
  lemma PartitionIsAccepted(h: Digest, candidate: Text, range: Text, sources: seq<Source>, events: seq<DerivationEvent>)
    requires Listed(sources) && IsPartition(h, candidate, range, sources, events)
    ensures Supplied(sources) == Cited(events)
    ensures forall i :: 0 <= i < |events| ==> OwnedIds(sources, events[i]) == events[i].sources
  {
    hide Less, Canonical, WellMade, Listed;
    forall i | 0 <= i < |events| ensures OwnedIds(sources, events[i]) == events[i].sources {
      var ids := IdsOf(sources, events[i].interaction);
      ListedIdsAscend(sources, events[i].interaction);
      AscendingIsCanonical(ids);
      OwnedIsAll(sources, events[i]);
    }
    SourcesAreCited(h, candidate, range, sources, events);
  }

  lemma SourceIsCited(h: Digest, candidate: Text, range: Text, sources: seq<Source>, events: seq<DerivationEvent>, p: Source)
    requires IsPartition(h, candidate, range, sources, events) && p in sources
    ensures (p.interaction, p.id) in Cited(events)
  {
    hide Canonical, WellMade;
    assert p.interaction in InteractionsOf(sources);
    var i :| 0 <= i < |events| && events[i].interaction == p.interaction;
    CanonicalIsSet(IdsOf(sources, p.interaction));
    assert p.id in events[i].sources;
  }

  lemma CitedIsSource(h: Digest, candidate: Text, range: Text, sources: seq<Source>, events: seq<DerivationEvent>, i: nat, x: Text)
    requires IsPartition(h, candidate, range, sources, events) && i < |events| && x in events[i].sources
    ensures (events[i].interaction, x) in Supplied(sources)
  {
    hide Canonical, WellMade;
    CanonicalIsSet(IdsOf(sources, events[i].interaction));
    var p :| p in sources && p.interaction == events[i].interaction && p.id == x;
  }

  /** Every source of every interaction is cited, and nothing else is. */
  lemma SourcesAreCited(h: Digest, candidate: Text, range: Text, sources: seq<Source>, events: seq<DerivationEvent>)
    requires IsPartition(h, candidate, range, sources, events)
    ensures Supplied(sources) == Cited(events)
  {
    hide IsPartition;
    forall p | p in sources ensures (p.interaction, p.id) in Cited(events) {
      SourceIsCited(h, candidate, range, sources, events, p);
    }
    forall i, x | 0 <= i < |events| && x in events[i].sources ensures (events[i].interaction, x) in Supplied(sources) {
      CitedIsSource(h, candidate, range, sources, events, i, x);
    }
  }

  /** For sources as the store lists them the built plan passes the check after building, and the
      checks in the transaction if and only if every snapshot says what it is filed as; and each
      source of each interaction is cited by exactly one of its events. */
  lemma PlanIsAccepted(h: Digest, candidate: Text, range: Text, sources: seq<Source>)
    requires Listed(sources) && sources != []
    ensures var events := Plan(h, candidate, range, sources);
      && IsPartition(h, candidate, range, sources, events)
      && (IsAccepted(sources, events) <==> SnapshotsOwned(sources))
      && forall p :: p in sources ==> exists i :: CitesAlone(events, i, p)
  {
    hide Plan, Listed, WellMade, Canonical;
    var events := Plan(h, candidate, range, sources);
    PlanIsPartition(h, candidate, range, sources);
    PartitionIsAccepted(h, candidate, range, sources, events);
    forall p | p in sources ensures exists i :: CitesAlone(events, i, p) {
      assert (p.interaction, p.id) in Supplied(sources);
      var i :| 0 <= i < |events| && events[i].interaction == p.interaction && p.id in events[i].sources;
      assert CitesAlone(events, i, p);
    }
  }

  ghost predicate CitesAlone(events: seq<DerivationEvent>, i: int, p: Source) {
    && 0 <= i < |events| && events[i].interaction == p.interaction && p.id in events[i].sources
    && forall j :: 0 <= j < |events| && j != i ==> !(events[j].interaction == p.interaction && p.id in events[j].sources)
  }

  // --- Choosing one range ---

  type Match = (RangeEvidence, seq<Source>)

  /** What a range claims about history, whatever it is named. */
  function Claim(r: RangeEvidence): RangeEvidence {
    r.(id := "", format := "", version := 0, repository := "")
  }

  /** More sources win; among as many, the lower id. */
  predicate Beats(a: Match, b: Match) {
    |a.1| > |b.1| || (|a.1| == |b.1| && Less(a.0.id, b.0.id))
  }

  function Best(ms: seq<Match>): Match
    requires ms != []
  {
    if |ms| == 1 then ms[0]
    else
      var best := Best(ms[..|ms| - 1]);
      if Beats(best, ms[|ms| - 1]) then best else ms[|ms| - 1]
  }

  predicate Agree(ms: seq<Match>) {
    forall a, b :: a in ms && b in ms ==> Claim(a.0) == Claim(b.0)
  }

  function Choice(ms: seq<Match>): Option<Match> {
    if ms == [] || !Agree(ms) then None else Some(Best(ms))
  }

  method SelectRelinkRange(ms: seq<Match>) returns (r: Option<Match>)
    ensures r == Choice(ms)
  {
    hide Less;
    if ms == [] { return None; }
    var claim := Claim(ms[0].0);
    for i := 0 to |ms|
      invariant forall j :: 0 <= j < i ==> Claim(ms[j].0) == claim
    {
      if Claim(ms[i].0) != claim {
        assert ms[0] in ms && ms[i] in ms;
        return None;
      }
    }
    assert Agree(ms);
    var best := ms[0];
    assert ms[..1] == [ms[0]];
    for i := 1 to |ms|
      invariant best == Best(ms[..i])
    {
      assert ms[..i + 1][..i] == ms[..i];
      if !Beats(best, ms[i]) { best := ms[i]; }
    }
    assert ms[..|ms|] == ms;
    r := Some(best);
  }

  ghost predicate DistinctIds(ms: seq<Match>) {
    forall i, j :: 0 <= i < j < |ms| ==> ms[i].0.id != ms[j].0.id
  }

  lemma {:induction false} BestIsBest(ms: seq<Match>)
    requires ms != []
    ensures Best(ms) in ms && forall m :: m in ms ==> !Beats(m, Best(ms))
  {
    hide Less;
    TextsAreOrdered();
    if |ms| > 1 {
      var init, last := ms[..|ms| - 1], ms[|ms| - 1];
      BestIsBest(init);
      assert ms == init + [last];
    }
  }

  /** Two ranges say the same about history: from which tree to which, over which commits, with which changes. */
  ghost predicate SameHistory(a: RangeEvidence, b: RangeEvidence) {
    && a.objectFormat == b.objectFormat && a.base == b.base && a.tip == b.tip
    && a.baseTree == b.baseTree && a.resultTree == b.resultTree
    && a.algorithm == b.algorithm && a.digest == b.digest && a.commits == b.commits
  }

  /** A range is chosen exactly when there are some and no two of them differ in what they say about history; it is one
      with the most sources, and of those the one with the lowest id. */
  lemma ChosenIffAgreed(ms: seq<Match>)
    ensures Choice(ms).Some? <==> ms != [] && forall a, b :: a in ms && b in ms ==> SameHistory(a.0, b.0)
    ensures Choice(ms).Some? ==>
      var best := Choice(ms).value;
      best in ms && forall m :: m in ms ==> |m.1| < |best.1| || (|m.1| == |best.1| && !Less(m.0.id, best.0.id))
  {
    hide Less;
    forall a, b | a in ms && b in ms ensures Claim(a.0) == Claim(b.0) <==> SameHistory(a.0, b.0) { }
    if ms != [] { BestIsBest(ms); }
  }

  /** The chosen range is the same for every order of ranges with distinct ids. */
  lemma ChoiceIgnoresOrder(xs: seq<Match>, ys: seq<Match>)
    requires multiset(xs) == multiset(ys) && DistinctIds(xs)
    ensures Choice(xs) == Choice(ys)
  {
    hide Less, Claim;
    SameElements(xs, ys);
    if xs != [] && Agree(xs) {
      BestIsBest(xs);
      BestIsBest(ys);
      TextsAreOrdered();
      var a, b := Best(xs), Best(ys);
      var i :| 0 <= i < |xs| && xs[i] == a;
      var j :| 0 <= j < |xs| && xs[j] == b;
      assert !Beats(a, b) && !Beats(b, a);
    }
  }
}
