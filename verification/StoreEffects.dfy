/** Each transaction's whole effect, row by row, and exactly when it is refused. */
module StoreEffects {
  import opened Bytes
  import opened StoreTables
  import opened StoreTombstones
  import opened StoreSharing
  import opened StoreHarness
  import opened StoreSteps

  // --- Insertions ---

  /** Capture `i` of a batch can be stored after those before it: its id is not tombstoned, not stored
      and not among them, and its parent, if it names another row, is stored or among them. */
  ghost predicate CanStore(t: Tables, cs: seq<Capture>, i: nat)
    requires i < |cs|
  {
    var c := cs[i];
    && (c.id, Local) !in t.tombstones && c.id !in t.interactions && (forall j :: 0 <= j < i ==> cs[j].id != c.id)
    && (c.row.parent.Some? && c.row.parent.value != c.id ==>
          c.row.parent.value in t.interactions || exists j :: 0 <= j < i && cs[j].id == c.row.parent.value)
  }

  ghost predicate CanStoreAll(t: Tables, cs: seq<Capture>) {
    forall i :: 0 <= i < |cs| ==> CanStore(t, cs, i)
  }

  /** The batch is stored, with the share rows future sharing gives its rows, and nothing else changes. */
  ghost predicate StoresBatch(t: Tables, cs: seq<Capture>, u: Tables) {
    && Grown(t, u) && Stores(t, cs, u)
    && forall c :: c in u.conversations <==> IsConversation(t, cs, c)
  }

  ghost predicate IsConversation(t: Tables, cs: seq<Capture>, c: Conversation) {
    c in t.conversations || exists x :: x in cs && x.row.conversation == c
  }

  lemma CanStoreInit(t: Tables, cs: seq<Capture>)
    requires cs != []
    ensures CanStoreAll(t, cs) <==> CanStoreAll(t, cs[..|cs| - 1]) && CanStore(t, cs, |cs| - 1)
  {
    var init := cs[..|cs| - 1];
    forall i | 0 <= i < |init| ensures CanStore(t, cs, i) <==> CanStore(t, init, i) {
      assert forall j :: 0 <= j < i ==> init[j] == cs[j];
    }
  }

  lemma InsertExactlyWhen(t: Tables, cs: seq<Capture>, m: Tables)
    requires cs != [] && Grown(t, m) && Stores(t, cs[..|cs| - 1], m)
    ensures Insert(m, cs[|cs| - 1]).Ok? <==> CanStore(t, cs, |cs| - 1)
  {
    var init, c := cs[..|cs| - 1], cs[|cs| - 1];
    forall id ensures id in m.interactions <==> id in t.interactions || exists j :: 0 <= j < |cs| - 1 && cs[j].id == id {
      if x :| x in init && x.id == id {
        var j :| 0 <= j < |init| && init[j] == x;
        assert cs[j].id == id;
      }
      if j :| 0 <= j < |cs| - 1 && cs[j].id == id {
        assert init[j] in init;
      }
    }
  }

  lemma ConversationOf(m: Tables, c: Capture)
    requires Insert(m, c).Ok?
    ensures Insert(m, c).value.conversations == m.conversations + {c.row.conversation}
  {
  }

  /** A batch is stored exactly when each capture can be, after those before it. */
  lemma {:induction false} StoredExactlyWhen(t: Tables, cs: seq<Capture>)
    ensures InsertAll(t, cs).Ok? <==> CanStoreAll(t, cs)
    ensures InsertAll(t, cs).Ok? ==> StoresBatch(t, cs, InsertAll(t, cs).value)
  {
    hide Insert, Grown, Stores, CanStore;
    if cs == [] {
      NothingStored(t);
    } else {
      var init, c := cs[..|cs| - 1], cs[|cs| - 1];
      StoredExactlyWhen(t, init);
      CanStoreInit(t, cs);
      if InsertAll(t, init).Ok? {
        var m := InsertAll(t, init).value;
        InsertExactlyWhen(t, cs, m);
        if Insert(m, c).Ok? {
          InsertAllGrows(t, cs);
          InsertAllStores(t, cs);
          ConversationOf(m, c);
          ConversationsNext(t, cs, m.conversations, Insert(m, c).value.conversations);
        }
      }
    }
  }

  lemma ConversationsNext(t: Tables, cs: seq<Capture>, before: set<Conversation>, after: set<Conversation>)
    requires cs != [] && after == before + {cs[|cs| - 1].row.conversation}
    requires forall c :: c in before <==> IsConversation(t, cs[..|cs| - 1], c)
    ensures forall c :: c in after <==> IsConversation(t, cs, c)
  {
    var init := cs[..|cs| - 1];
    InitAndLast(cs);
    forall c ensures c in after <==> IsConversation(t, cs, c) {
      if x :| x in init && x.row.conversation == c { assert x in cs; }
      assert cs[|cs| - 1] in cs;
    }
  }

  lemma NothingStored(t: Tables)
    ensures InsertAll(t, []) == Ok(t) && StoresBatch(t, [], t)
  {
  }

  // --- Deletion by request ---

  /** The rows the request does not name. */
  function Others(t: Tables, request: Text): map<Id, Interaction> {
    map id | id in t.interactions && t.interactions[id].request != Some(request) :: t.interactions[id]
  }

  /** No row that stays has a parent that goes. */
  ghost predicate CanDelete(t: Tables, request: Text) {
    forall id :: id in t.interactions && t.interactions[id].request != Some(request) && t.interactions[id].parent.Some? ==>
      var p := t.interactions[id].parent.value; p in t.interactions ==> t.interactions[p].request != Some(request)
  }

  lemma DeletedExactlyWhen(t: Tables, request: Text)
    ensures DeleteRequest(t, request).Ok? <==> CanDelete(t, request)
    ensures DeleteRequest(t, request).Ok? ==> DeleteRequest(t, request).value == t.(interactions := Others(t, request))
  {
    var gone := OfRequest(t, request);
    var left := t.interactions - gone;
    assert left == Others(t, request);
    if DeleteRequest(t, request).Ok? {
      forall id | id in t.interactions && t.interactions[id].request != Some(request) && t.interactions[id].parent.Some?
        ensures var p := t.interactions[id].parent.value; p in t.interactions ==> t.interactions[p].request != Some(request)
      {
        assert id in left;
      }
    }
  }

  // --- Tombstones ---

  function ScopeOf(remote: Option<Remote>): Scope {
    match remote
    case None => Local
    case Some(r) => At(r)
  }

  ghost predicate Agrees(b: Tombstone, reason: Reason, previous: Option<Text>) {
    b.reason == reason && b.previous == previous
  }

  /** Tombstone `i` is of the known format, and agrees with what is stored for its target in that
      scope, and with those before it. */
  ghost predicate CanBury(t: Tables, bs: seq<Tombstone>, remote: Option<Remote>, i: nat)
    requires i < |bs|
  {
    var b, key := bs[i], (bs[i].id, ScopeOf(remote));
    && b.format == "cvc.tombstone/v1" && b.version == 1
    && (key in t.tombstones ==> Agrees(b, t.tombstones[key].reason, t.tombstones[key].previous))
    && forall j :: 0 <= j < i && bs[j].id == b.id ==> Agrees(b, bs[j].reason, bs[j].previous)
  }

  ghost predicate CanBuryAll(t: Tables, bs: seq<Tombstone>, remote: Option<Remote>) {
    forall i :: 0 <= i < |bs| ==> CanBury(t, bs, remote, i)
  }

  ghost predicate IsFirst(bs: seq<Tombstone>, id: Id, j: int) {
    0 <= j < |bs| && bs[j].id == id && forall i :: 0 <= i < j ==> bs[i].id != id
  }

  /** A stored tombstone stays, confirmed if it is received again; a new one is as the first for its
      target says, confirmed if it was received; all others stay as they are. */
  ghost predicate Graves(t: Tables, bs: seq<Tombstone>, synced: bool, remote: Option<Remote>, u: Tables) {
    forall k :: GraveAt(t, bs, synced, remote, u.tombstones, k)
  }

  ghost predicate GraveAt(t: Tables, bs: seq<Tombstone>, synced: bool, remote: Option<Remote>,
                          left: map<(Id, Scope), Grave>, k: (Id, Scope))
  {
    var named := k.1 == ScopeOf(remote) && k.0 in Targets(bs);
    && (k in left <==> k in t.tombstones || named)
    && (k in t.tombstones ==>
          left[k] == t.tombstones[k].(confirmed := t.tombstones[k].confirmed || (named && synced)))
    && (k !in t.tombstones && named ==>
          forall j :: IsFirst(bs, k.0, j) ==> left[k] == Grave(bs[j].deletedAt, bs[j].reason, bs[j].previous, synced))
  }

  lemma CanBuryInit(t: Tables, bs: seq<Tombstone>, remote: Option<Remote>)
    requires bs != []
    ensures CanBuryAll(t, bs, remote) <==> CanBuryAll(t, bs[..|bs| - 1], remote) && CanBury(t, bs, remote, |bs| - 1)
  {
    var init := bs[..|bs| - 1];
    forall i | 0 <= i < |init| ensures CanBury(t, bs, remote, i) <==> CanBury(t, init, remote, i) {
      assert forall j :: 0 <= j < i ==> init[j] == bs[j];
    }
  }

  lemma {:induction false} SomeFirst(bs: seq<Tombstone>, id: Id) returns (j: nat)
    requires id in Targets(bs)
    ensures IsFirst(bs, id, j)
  {
    var init := bs[..|bs| - 1];
    InitAndLast(bs);
    if id in Targets(init) {
      j := SomeFirst(init, id);
    } else {
      j := |bs| - 1;
      forall i | 0 <= i < j ensures bs[i].id != id { assert bs[i] == init[i] && init[i] in init; }
    }
  }

  /** What is stored for the last tombstone's target once those before it are applied. */
  lemma GraveBefore(t: Tables, bs: seq<Tombstone>, synced: bool, remote: Option<Remote>, m: Tables)
    requires bs != [] && Graves(t, bs[..|bs| - 1], synced, remote, m) && CanBuryAll(t, bs[..|bs| - 1], remote)
    ensures var b, key := bs[|bs| - 1], (bs[|bs| - 1].id, ScopeOf(remote));
      CanBury(t, bs, remote, |bs| - 1) <==>
        b.format == FORMAT && b.version == 1
        && (key in m.tombstones ==> Agrees(b, m.tombstones[key].reason, m.tombstones[key].previous))
  {
    var init, b, n := bs[..|bs| - 1], bs[|bs| - 1], |bs| - 1;
    var key := (b.id, ScopeOf(remote));
    assert GraveAt(t, init, synced, remote, m.tombstones, key);
    if key in t.tombstones {
      forall j | 0 <= j < n && bs[j].id == b.id
        ensures Agrees(bs[j], t.tombstones[key].reason, t.tombstones[key].previous)
      {
        assert CanBury(t, init, remote, j) && init[j] == bs[j];
      }
    } else if key in m.tombstones {
      var f := SomeFirst(init, b.id);
      assert m.tombstones[key] == Grave(init[f].deletedAt, init[f].reason, init[f].previous, synced);
      forall j | 0 <= j < n && bs[j].id == b.id ensures Agrees(bs[j], bs[f].reason, bs[f].previous) {
        assert CanBury(t, init, remote, j) && init[j] == bs[j] && init[f] == bs[f];
      }
    } else {
      forall j | 0 <= j < n ensures bs[j].id != b.id {
        assert init[j] == bs[j] && init[j] in init;
      }
    }
  }

  lemma GravesNext(t: Tables, bs: seq<Tombstone>, synced: bool, remote: Option<Remote>, m: Tables)
    requires bs != [] && Graves(t, bs[..|bs| - 1], synced, remote, m)
    requires Bury(m, bs[|bs| - 1], synced, remote).Ok?
    ensures Graves(t, bs, synced, remote, Bury(m, bs[|bs| - 1], synced, remote).value)
  {
    hide GraveAt, Bury;
    var u := Bury(m, bs[|bs| - 1], synced, remote).value;
    forall k ensures GraveAt(t, bs, synced, remote, u.tombstones, k) {
      GraveNext(t, bs, synced, remote, m, k);
    }
  }

  lemma GraveNext(t: Tables, bs: seq<Tombstone>, synced: bool, remote: Option<Remote>, m: Tables, k: (Id, Scope))
    requires bs != [] && GraveAt(t, bs[..|bs| - 1], synced, remote, m.tombstones, k)
    requires Bury(m, bs[|bs| - 1], synced, remote).Ok?
    ensures GraveAt(t, bs, synced, remote, Bury(m, bs[|bs| - 1], synced, remote).value.tombstones, k)
  {
    hide IsFirst;
    var init, b := bs[..|bs| - 1], bs[|bs| - 1];
    InitAndLast(bs);
    assert Targets(bs) == Targets(init) + {b.id};
    FirstNext(bs, k.0);
    if k == (b.id, ScopeOf(remote)) { BuriesAt(m, b, synced, remote); } else { BuriesElsewhere(m, b, synced, remote, k); }
  }

  lemma BuriesAt(m: Tables, b: Tombstone, synced: bool, remote: Option<Remote>)
    requires Bury(m, b, synced, remote).Ok?
    ensures var u, k := Bury(m, b, synced, remote).value, (b.id, ScopeOf(remote));
      k in u.tombstones && u.tombstones[k] ==
        if k in m.tombstones then m.tombstones[k].(confirmed := m.tombstones[k].confirmed || synced)
        else Grave(b.deletedAt, b.reason, b.previous, synced)
  {
  }

  lemma BuriesElsewhere(m: Tables, b: Tombstone, synced: bool, remote: Option<Remote>, k: (Id, Scope))
    requires Bury(m, b, synced, remote).Ok? && k != (b.id, ScopeOf(remote))
    ensures var u := Bury(m, b, synced, remote).value;
      (k in u.tombstones <==> k in m.tombstones) && (k in m.tombstones ==> u.tombstones[k] == m.tombstones[k])
  {
  }

  /** The first tombstone for an id stays the first; the last is the first for its id when that is new. */
  lemma FirstNext(bs: seq<Tombstone>, id: Id)
    requires bs != []
    ensures var init, n := bs[..|bs| - 1], |bs| - 1;
      && (id in Targets(init) ==> forall j :: IsFirst(bs, id, j) ==> IsFirst(init, id, j) && j < n && init[j] == bs[j])
      && (id !in Targets(init) ==> forall j :: IsFirst(bs, id, j) ==> j == n)
  {
    var init, n := bs[..|bs| - 1], |bs| - 1;
    assert forall i :: 0 <= i < n ==> init[i] == bs[i] && init[i] in init;
    if id in Targets(init) { var f := SomeFirst(init, id); }
  }

  /** A batch of tombstones is applied exactly when each can be. */
  lemma {:induction false} BuriedExactlyWhen(t: Tables, bs: seq<Tombstone>, synced: bool, remote: Option<Remote>)
    ensures ApplyTombstones(t, bs, synced, remote).Ok? <==> CanBuryAll(t, bs, remote)
    ensures ApplyTombstones(t, bs, synced, remote).Ok? ==>
      Graves(t, bs, synced, remote, ApplyTombstones(t, bs, synced, remote).value)
  {
    hide Bury, Remove, Graves, CanBury;
    if bs == [] {
      NoGraves(t, synced, remote);
    } else {
      var init, b := bs[..|bs| - 1], bs[|bs| - 1];
      BuriedExactlyWhen(t, init, synced, remote);
      CanBuryInit(t, bs, remote);
      if ApplyTombstones(t, init, synced, remote).Ok? {
        var m := ApplyTombstones(t, init, synced, remote).value;
        GraveBefore(t, bs, synced, remote, m);
        BuriesWhen(m, b, synced, remote);
        if Bury(m, b, synced, remote).Ok? {
          GravesNext(t, bs, synced, remote, m);
          RemoveKeepsTombstones(Bury(m, b, synced, remote).value, b.id);
          SameGraves(t, bs, synced, remote, Bury(m, b, synced, remote).value, Remove(Bury(m, b, synced, remote).value, b.id));
        }
      }
    }
  }

  lemma BuriesWhen(m: Tables, b: Tombstone, synced: bool, remote: Option<Remote>)
    ensures var key := (b.id, ScopeOf(remote));
      Bury(m, b, synced, remote).Ok? <==>
        b.format == FORMAT && b.version == 1
        && (key in m.tombstones ==> Agrees(b, m.tombstones[key].reason, m.tombstones[key].previous))
  {
  }

  lemma SameGraves(t: Tables, bs: seq<Tombstone>, synced: bool, remote: Option<Remote>, m: Tables, u: Tables)
    requires Graves(t, bs, synced, remote, m) && u.tombstones == m.tombstones
    ensures Graves(t, bs, synced, remote, u)
  {
  }

  lemma NoGraves(t: Tables, synced: bool, remote: Option<Remote>)
    ensures Graves(t, [], synced, remote, t)
  {
    assert Targets([]) == {};
  }

  // --- Pulls ---

  /** A pull from `remote` brings nothing of an id that is tombstoned here or there. */
  predicate Stops(t: Tables, id: Id, remote: Option<Remote>) {
    (id, Local) in t.tombstones || (remote.Some? && (id, At(remote.value)) in t.tombstones)
  }

  /** The row a pulled capture is stored as: in the imported conversation, under the import's source. */
  predicate IsImport(raw: Interaction, remote: Option<Remote>, row: Interaction) {
    && row.source == SyncImport && row.parent == raw.parent && row.request == raw.request && row.content == raw.content
    && match remote
       case None => row.conversation == raw.conversation
       case Some(r) => row.conversation == "remote:" + r + ":" + raw.conversation
  }

  ghost predicate CanPull(t: Tables, cs: seq<Capture>, remote: Option<Remote>, i: nat)
    requires i < |cs|
  {
    var c := cs[i];
    Stops(t, c.id, remote) ||
    (&& c.id !in t.interactions && (forall j :: 0 <= j < i ==> cs[j].id != c.id)
     && (c.row.parent.Some? && c.row.parent.value != c.id ==>
           c.row.parent.value in t.interactions || Brought(t, cs[..i], remote, c.row.parent.value)))
  }

  /** The captures bring the id, and no tombstone stops it. */
  ghost predicate Brought(t: Tables, cs: seq<Capture>, remote: Option<Remote>, id: Id) {
    !Stops(t, id, remote) && exists c :: c in cs && c.id == id
  }

  ghost predicate CanPullAll(t: Tables, cs: seq<Capture>, remote: Option<Remote>) {
    forall i :: 0 <= i < |cs| ==> CanPull(t, cs, remote, i)
  }

  /** What no tombstone stops is stored, as an import, with what future sharing gives it. */
  ghost predicate Pulled(t: Tables, cs: seq<Capture>, remote: Option<Remote>, u: Tables) {
    && Grown(t, u)
    && (forall id :: id in u.interactions <==> id in t.interactions || Brought(t, cs, remote, id))
    && (forall c :: c in cs && !Stops(t, c.id, remote) ==>
          c.id !in t.interactions && c.id in u.interactions && IsImport(c.row, remote, u.interactions[c.id]))
    && (forall c :: c in u.conversations <==>
          c in t.conversations || exists id :: Brought(t, cs, remote, id) && id in u.interactions && u.interactions[id].conversation == c)
  }

  lemma CanPullInit(t: Tables, cs: seq<Capture>, remote: Option<Remote>)
    requires cs != []
    ensures CanPullAll(t, cs, remote) <==>
      CanPullAll(t, cs[..|cs| - 1], remote) && CanPull(t, cs, remote, |cs| - 1)
  {
    hide Brought, Stops;
    var init := cs[..|cs| - 1];
    forall i | 0 <= i < |init| ensures CanPull(t, cs, remote, i) <==> CanPull(t, init, remote, i) {
      assert init[..i] == cs[..i];
      assert forall j :: 0 <= j < i ==> init[j] == cs[j];
    }
  }

  lemma PullExactlyWhen(t: Tables, cs: seq<Capture>, remote: Option<Remote>, m: Tables)
    requires cs != [] && Pulled(t, cs[..|cs| - 1], remote, m) && !Stops(t, cs[|cs| - 1].id, remote)
    ensures Insert(m, Imported(cs[|cs| - 1], remote)).Ok? <==> CanPull(t, cs, remote, |cs| - 1)
  {
    hide FutureShares, Brought, Grown;
    var init, c, n := cs[..|cs| - 1], cs[|cs| - 1], |cs| - 1;
    SameGravesGrown(t, m);
    BroughtBefore(t, cs, remote);
  }

  lemma SameGravesGrown(t: Tables, m: Tables)
    requires Grown(t, m)
    ensures m.tombstones == t.tombstones
  {
  }

  lemma BroughtBefore(t: Tables, cs: seq<Capture>, remote: Option<Remote>)
    requires cs != [] && !Stops(t, cs[|cs| - 1].id, remote)
    ensures Brought(t, cs[..|cs| - 1], remote, cs[|cs| - 1].id) <==> exists j :: 0 <= j < |cs| - 1 && cs[j].id == cs[|cs| - 1].id
  {
    hide Stops;
    var init, id, n := cs[..|cs| - 1], cs[|cs| - 1].id, |cs| - 1;
    assert forall j :: 0 <= j < n ==> cs[j] == init[j] && init[j] in init;
    if x :| x in init && x.id == id {
      var j :| 0 <= j < n && init[j] == x;
    }
  }

  lemma ImportedIs(c: Capture, remote: Option<Remote>)
    ensures Imported(c, remote).id == c.id && IsImport(c.row, remote, Imported(c, remote).row)
    ensures forall row :: IsImport(c.row, remote, row) ==> row == Imported(c, remote).row
  {
  }

  lemma PulledNext(t: Tables, cs: seq<Capture>, remote: Option<Remote>, m: Tables)
    requires cs != [] && Pulled(t, cs[..|cs| - 1], remote, m) && !Stops(t, cs[|cs| - 1].id, remote)
    requires Insert(m, Imported(cs[|cs| - 1], remote)).Ok?
    ensures Pulled(t, cs, remote, Insert(m, Imported(cs[|cs| - 1], remote)).value)
  {
    hide Grown, IsImport, Stops, Insert, Brought;
    var init, raw := cs[..|cs| - 1], cs[|cs| - 1];
    var c := Imported(raw, remote);
    var u := Insert(m, c).value;
    InitAndLast(cs);
    ImportedIs(raw, remote);
    InsertGrows(m, c);
    GrownTwice(t, m, u);
    OneInserted(m, c);
    hide Imported;
    forall id ensures Brought(t, cs, remote, id) <==> Brought(t, init, remote, id) || id == c.id {
      BroughtNext(t, cs, remote, id);
    }
    ConversationsPulled(t, cs, remote, m, u, c);
  }

  lemma ConversationsPulled(t: Tables, cs: seq<Capture>, remote: Option<Remote>, m: Tables, u: Tables, c: Capture)
    requires cs != [] && Pulled(t, cs[..|cs| - 1], remote, m)
    requires forall id :: Brought(t, cs, remote, id) <==> Brought(t, cs[..|cs| - 1], remote, id) || id == c.id
    requires c.id !in m.interactions && u.interactions == m.interactions[c.id := c.row]
    requires u.conversations == m.conversations + {c.row.conversation}
    ensures forall x :: x in u.conversations <==>
      x in t.conversations || exists id :: Brought(t, cs, remote, id) && id in u.interactions && u.interactions[id].conversation == x
  {
    hide Grown, IsImport, Stops, Brought;
    var init := cs[..|cs| - 1];
    assert Brought(t, cs, remote, c.id) && u.interactions[c.id].conversation == c.row.conversation;
    forall x | x in m.conversations && x !in t.conversations
      ensures exists id :: Brought(t, cs, remote, id) && id in u.interactions && u.interactions[id].conversation == x
    {
      var id :| Brought(t, init, remote, id) && id in m.interactions && m.interactions[id].conversation == x;
      assert Brought(t, cs, remote, id) && u.interactions[id].conversation == x;
    }
  }

  lemma BroughtNext(t: Tables, cs: seq<Capture>, remote: Option<Remote>, id: Id)
    requires cs != []
    ensures Brought(t, cs, remote, id) <==>
      Brought(t, cs[..|cs| - 1], remote, id) || (id == cs[|cs| - 1].id && !Stops(t, id, remote))
  {
    hide Stops;
    InitAndLast(cs);
    assert cs[|cs| - 1] in cs;
  }

  lemma OneInserted(m: Tables, c: Capture)
    requires Insert(m, c).Ok?
    ensures var u := Insert(m, c).value;
      && c.id !in m.interactions && u.interactions == m.interactions[c.id := c.row]
      && u.conversations == m.conversations + {c.row.conversation}
  {
  }

  lemma StoppedNext(t: Tables, cs: seq<Capture>, remote: Option<Remote>, m: Tables)
    requires cs != [] && Pulled(t, cs[..|cs| - 1], remote, m) && Stops(t, cs[|cs| - 1].id, remote)
    ensures Pulled(t, cs, remote, m)
  {
    hide Grown, IsImport, Stops;
    InitAndLast(cs);
    forall id ensures Brought(t, cs, remote, id) <==> Brought(t, cs[..|cs| - 1], remote, id) {
      BroughtNext(t, cs, remote, id);
    }
  }

  /** A pull's captures are stored exactly when each that no tombstone stops can be. */
  lemma {:induction false} PulledExactlyWhen(t: Tables, cs: seq<Capture>, remote: Option<Remote>)
    ensures var r := InsertAll(t, Admitted(t, cs, remote));
      && (r.Ok? <==> CanPullAll(t, cs, remote))
      && (r.Ok? ==> Pulled(t, cs, remote, r.value))
  {
    hide Insert, Pulled, CanPull, Imported, Grown, InsertAll, Admitted, CanPullAll, Stops;
    if cs == [] {
      NothingPulled(t, remote);
    } else {
      var init, c := cs[..|cs| - 1], Imported(cs[|cs| - 1], remote);
      PulledExactlyWhen(t, init, remote);
      CanPullInit(t, cs, remote);
      ImportedIs(cs[|cs| - 1], remote);
      AdmittedOne(t, cs, remote);
      if Stops(t, c.id, remote) {
        StoppedCan(t, cs, remote);
        if CanPullAll(t, init, remote) { StoppedNext(t, cs, remote, InsertAll(t, Admitted(t, init, remote)).value); }
      } else if CanPullAll(t, init, remote) {
        var m := InsertAll(t, Admitted(t, init, remote)).value;
        PullExactlyWhen(t, cs, remote, m);
        if Insert(m, c).Ok? { PulledNext(t, cs, remote, m); }
      }
    }
  }

  lemma AdmittedOne(t: Tables, cs: seq<Capture>, remote: Option<Remote>)
    requires cs != []
    ensures var last, before := cs[|cs| - 1], InsertAll(t, Admitted(t, cs[..|cs| - 1], remote));
      InsertAll(t, Admitted(t, cs, remote)) ==
        if Stops(t, last.id, remote) || before.Refused? then before else Insert(before.value, Imported(last, remote))
  {
    hide Insert, Imported;
    var a, c := Admitted(t, cs[..|cs| - 1], remote), Imported(cs[|cs| - 1], remote);
    ImportedIs(cs[|cs| - 1], remote);
    assert (a + [c])[..|a|] == a;
    assert a + [] == a;
  }

  lemma StoppedCan(t: Tables, cs: seq<Capture>, remote: Option<Remote>)
    requires cs != [] && Stops(t, cs[|cs| - 1].id, remote)
    ensures CanPull(t, cs, remote, |cs| - 1)
  {
  }

  lemma NothingPulled(t: Tables, remote: Option<Remote>)
    ensures InsertAll(t, Admitted(t, [], remote)) == Ok(t) && Pulled(t, [], remote, t) && CanPullAll(t, [], remote)
  {
  }

  // --- Events ---

  /** Event `i` of a pull can be stored after those before it: it checks, and whatever is stored or
      brought before it under its key has its payload. */
  ghost predicate CanRelate(t: Tables, es: seq<Incoming>, remote: Option<Remote>, i: nat)
    requires i < |es|
  {
    var e := es[i];
    Stops(t, e.event.interaction, remote) ||
    (&& e.valid && (e.key in t.events ==> t.events[e.key].payload == e.event.payload)
     && forall j :: 0 <= j < i && Brings(t, es[j], remote, e.key) ==> es[j].event.payload == e.event.payload)
  }

  ghost predicate CanRelateAll(t: Tables, es: seq<Incoming>, remote: Option<Remote>) {
    forall i :: 0 <= i < |es| ==> CanRelate(t, es, remote, i)
  }

  /** The event comes under the key, and no tombstone stops it. */
  ghost predicate Brings(t: Tables, e: Incoming, remote: Option<Remote>, k: Text) {
    e.key == k && !Stops(t, e.event.interaction, remote)
  }

  ghost predicate IsFirstEvent(t: Tables, es: seq<Incoming>, remote: Option<Remote>, k: Text, j: int) {
    0 <= j < |es| && Brings(t, es[j], remote, k) && forall i :: 0 <= i < j ==> !Brings(t, es[i], remote, k)
  }

  ghost predicate Related(t: Tables, es: seq<Incoming>, remote: Option<Remote>, events: map<Text, Event>) {
    forall k :: RelatedAt(t, es, remote, events, k)
  }

  /** A stored event stays; a new one is the first brought under its key. */
  ghost predicate RelatedAt(t: Tables, es: seq<Incoming>, remote: Option<Remote>, events: map<Text, Event>, k: Text) {
    && (k in events <==> k in t.events || exists j :: IsFirstEvent(t, es, remote, k, j))
    && (k in t.events ==> events[k] == t.events[k])
    && (k !in t.events ==> forall j :: IsFirstEvent(t, es, remote, k, j) ==> k in events && events[k] == es[j].event)
  }

  lemma CanRelateInit(t: Tables, es: seq<Incoming>, remote: Option<Remote>)
    requires es != []
    ensures CanRelateAll(t, es, remote) <==>
      CanRelateAll(t, es[..|es| - 1], remote) && CanRelate(t, es, remote, |es| - 1)
  {
    hide Stops;
    var init := es[..|es| - 1];
    forall i | 0 <= i < |init| ensures CanRelate(t, es, remote, i) <==> CanRelate(t, init, remote, i) {
      assert forall j :: 0 <= j < i ==> init[j] == es[j];
    }
  }

  lemma FirstEventNext(t: Tables, es: seq<Incoming>, remote: Option<Remote>, k: Text)
    requires es != []
    ensures var init, n := es[..|es| - 1], |es| - 1;
      && (forall j :: IsFirstEvent(t, init, remote, k, j) ==> IsFirstEvent(t, es, remote, k, j) && j < n && init[j] == es[j])
      && (forall j :: IsFirstEvent(t, es, remote, k, j) ==> IsFirstEvent(t, init, remote, k, j) || j == n)
  {
    hide Brings;
    var init, n := es[..|es| - 1], |es| - 1;
    assert forall i :: 0 <= i < n ==> init[i] == es[i];
  }

  lemma OneFirstEvent(t: Tables, es: seq<Incoming>, remote: Option<Remote>, k: Text, i: int, j: int)
    requires IsFirstEvent(t, es, remote, k, i) && IsFirstEvent(t, es, remote, k, j)
    ensures i == j
  {
    hide Brings;
  }

  /** A key the last event brings has a first event. */
  lemma LastOrEarlier(t: Tables, es: seq<Incoming>, remote: Option<Remote>, k: Text) returns (j: nat)
    requires es != [] && Brings(t, es[|es| - 1], remote, k)
    ensures IsFirstEvent(t, es, remote, k, j)
  {
    hide Brings;
    j := EarliestEvent(t, es, remote, k, |es| - 1);
  }

  lemma {:induction false} EarliestEvent(t: Tables, es: seq<Incoming>, remote: Option<Remote>, k: Text, n: nat) returns (j: nat)
    requires n < |es| && Brings(t, es[n], remote, k)
    ensures IsFirstEvent(t, es, remote, k, j)
    decreases n
  {
    hide Brings;
    if i :| 0 <= i < n && Brings(t, es[i], remote, k) {
      j := EarliestEvent(t, es, remote, k, i);
    } else {
      j := n;
    }
  }

  /** What the last event of a pull meets under its key. */
  lemma EventBefore(t: Tables, es: seq<Incoming>, remote: Option<Remote>, events: map<Text, Event>)
    requires es != [] && Related(t, es[..|es| - 1], remote, events) && CanRelateAll(t, es[..|es| - 1], remote)
    requires !Stops(t, es[|es| - 1].event.interaction, remote)
    ensures var e := es[|es| - 1];
      CanRelate(t, es, remote, |es| - 1) <==> e.valid && (e.key in events ==> events[e.key].payload == e.event.payload)
  {
    hide Stops, IsFirstEvent;
    var init, e, n := es[..|es| - 1], es[|es| - 1], |es| - 1;
    assert RelatedAt(t, init, remote, events, e.key);
    forall j | 0 <= j < n && Brings(t, es[j], remote, e.key)
      ensures e.key in events && es[j].event.payload == events[e.key].payload
    {
      assert init[j] == es[j];
      assert CanRelate(t, init, remote, j);
      if e.key !in t.events { FirstBefore(t, init, remote, e.key, j, events); }
    }
    if e.key in events && e.key !in t.events {
      var f :| IsFirstEvent(t, init, remote, e.key, f);
      FirstBrings(t, init, remote, e.key, f);
      assert init[f] == es[f] && Brings(t, es[f], remote, e.key);
    }
  }

  lemma FirstBrings(t: Tables, es: seq<Incoming>, remote: Option<Remote>, k: Text, j: int)
    requires IsFirstEvent(t, es, remote, k, j)
    ensures 0 <= j < |es| && Brings(t, es[j], remote, k)
  {
  }

  /** An event that comes under a new key has the payload of the first. */
  lemma FirstBefore(t: Tables, es: seq<Incoming>, remote: Option<Remote>, k: Text, j: nat, events: map<Text, Event>)
    requires j < |es| && Brings(t, es[j], remote, k) && CanRelate(t, es, remote, j)
    requires k !in t.events && RelatedAt(t, es, remote, events, k)
    ensures k in events && es[j].event.payload == events[k].payload
  {
    hide Stops;
    var f := EarliestEvent(t, es, remote, k, j);
    assert f <= j;
  }

  lemma RelatedNext(t: Tables, es: seq<Incoming>, remote: Option<Remote>, before: map<Text, Event>, after: map<Text, Event>)
    requires es != [] && Related(t, es[..|es| - 1], remote, before)
    requires var e := es[|es| - 1];
      after == if Stops(t, e.event.interaction, remote) || e.key in before then before else before[e.key := e.event]
    ensures Related(t, es, remote, after)
  {
    hide RelatedAt, Stops;
    forall k ensures RelatedAt(t, es, remote, after, k) {
      assert RelatedAt(t, es[..|es| - 1], remote, before, k);
      RelatedAtNext(t, es, remote, before, after, k);
    }
  }

  lemma RelatedAtNext(t: Tables, es: seq<Incoming>, remote: Option<Remote>, before: map<Text, Event>, after: map<Text, Event>, k: Text)
    requires es != [] && RelatedAt(t, es[..|es| - 1], remote, before, k)
    requires var e := es[|es| - 1];
      after == if Stops(t, e.event.interaction, remote) || e.key in before then before else before[e.key := e.event]
    ensures RelatedAt(t, es, remote, after, k)
  {
    hide Stops, IsFirstEvent;
    var init, n := es[..|es| - 1], |es| - 1;
    FirstEventNext(t, es, remote, k);
    NotFirst(t, es, remote, k);
    if k !in before && Brings(t, es[n], remote, k) {
      var f := LastOrEarlier(t, es, remote, k);
    } else if k in before && k !in t.events {
      var f :| IsFirstEvent(t, init, remote, k, f);
      forall j | IsFirstEvent(t, es, remote, k, j) ensures j == f { OneFirstEvent(t, es, remote, k, j, f); }
    }
  }

  /** The last event is not the first under another key, nor when it is stopped. */
  lemma NotFirst(t: Tables, es: seq<Incoming>, remote: Option<Remote>, k: Text)
    requires es != []
    ensures IsFirstEvent(t, es, remote, k, |es| - 1) ==> Brings(t, es[|es| - 1], remote, k)
    ensures forall j :: IsFirstEvent(t, es, remote, k, j) ==> 0 <= j < |es|
  {
    hide Brings;
  }

  lemma RelatesOne(t: Tables, m: Tables, e: Incoming, remote: Option<Remote>)
    requires m == t.(events := m.events)
    ensures var r := RelatePulled(m, e, remote);
      && (r.Ok? <==> Stops(t, e.event.interaction, remote)
                     || (e.valid && (e.key in m.events ==> m.events[e.key].payload == e.event.payload)))
      && var same := Stops(t, e.event.interaction, remote) || e.key in m.events;
         r.Ok? ==> r.value.events == if same then m.events else m.events[e.key := e.event]
  {
  }

  /** A pull's events are stored exactly when each that no tombstone stops can be. */
  lemma {:induction false} RelatedExactlyWhen(t: Tables, es: seq<Incoming>, remote: Option<Remote>)
    ensures var r := RelateAll(t, es, remote);
      && (r.Ok? <==> CanRelateAll(t, es, remote))
      && (r.Ok? ==> Related(t, es, remote, r.value.events))
  {
    hide RelatePulled, CanRelate, Related, Stops;
    if es == [] {
      NothingRelated(t, remote);
    } else {
      var init, e := es[..|es| - 1], es[|es| - 1];
      RelatedExactlyWhen(t, init, remote);
      CanRelateInit(t, es, remote);
      if RelateAll(t, init, remote).Ok? {
        var m := RelateAll(t, init, remote).value;
        RelatesOne(t, m, e, remote);
        if Stops(t, e.event.interaction, remote) {
          StoppedRelates(t, es, remote);
        } else {
          EventBefore(t, es, remote, m.events);
        }
        if RelatePulled(m, e, remote).Ok? { RelatedNext(t, es, remote, m.events, RelatePulled(m, e, remote).value.events); }
      }
    }
  }

  lemma StoppedRelates(t: Tables, es: seq<Incoming>, remote: Option<Remote>)
    requires es != [] && Stops(t, es[|es| - 1].event.interaction, remote)
    ensures CanRelate(t, es, remote, |es| - 1)
  {
  }

  lemma NothingRelated(t: Tables, remote: Option<Remote>)
    ensures Related(t, [], remote, t.events)
  {
  }

  // --- Shares and publications ---

  ghost predicate Named(t: Tables, c: Conversation, id: Id) {
    id in t.interactions && t.interactions[id].conversation == c
  }

  /** Under each key a publication is as it was, but for those of the ids at `r`: what was published
      stays as it was, and all others become `state`, at `now`. */
  ghost predicate MarkedBy(was: map<(Id, Remote), Publication>, ids: seq<Id>, r: Remote, state: PublicationState, now: int,
                           left: map<(Id, Remote), Publication>)
  {
    && (forall id, x :: (id, x) in left <==> (id, x) in was || (x == r && id in ids))
    && forall id, x :: (id, x) in left ==>
         left[(id, x)] == if (id, x) in was && (x != r || id !in ids || was[(id, x)].state == Published) then was[(id, x)]
                          else Publication(state, now)
  }

  /** Of the ids, everything at `r` that is not known to be published goes. */
  ghost predicate ClearedBy(was: map<(Id, Remote), Publication>, ids: seq<Id>, r: Remote, left: map<(Id, Remote), Publication>) {
    && (forall id, x :: (id, x) in left <==> (id, x) in was && (x == r && id in ids ==> was[(id, x)].state == Published))
    && forall id, x :: (id, x) in left ==> left[(id, x)] == was[(id, x)]
  }

  lemma MarksExactly(t: Tables, ids: seq<Id>, r: Remote, state: PublicationState, now: int)
    ensures var u := Mark(t, AsSet(ids), r, state, now);
      u == t.(publications := u.publications) && MarkedBy(t.publications, ids, r, state, now, u.publications)
  {
    var u := Mark(t, AsSet(ids), r, state, now);
    forall id, x ensures (id, x) in ShareRows(AsSet(ids), r) <==> x == r && id in ids { }
  }

  lemma ClearsExactly(t: Tables, ids: seq<Id>, r: Remote)
    ensures var u := Clear(t, AsSet(ids), r);
      u == t.(publications := u.publications) && ClearedBy(t.publications, ids, r, u.publications)
  {
  }

  lemma SharesExactly(t: Tables, c: Conversation, r: Remote, future: bool)
    ensures var u := Share(t, c, r, future);
      && u == t.(shares := u.shares, futures := t.futures[(c, r) := future])
      && forall id, x :: (id, x) in u.shares <==> (id, x) in t.shares || (x == r && Named(t, c, id))
  {
    forall id, x ensures (id, x) in ShareRows(Rows(t, c), r) <==> x == r && Named(t, c, id) { }
  }

  /** The compare-and-set is refused unless the ids are as many as the rows, and all of them rows. */
  lemma SharesListedExactly(t: Tables, c: Conversation, r: Remote, ids: seq<Id>, future: bool)
    ensures var a := ShareExact(t, c, r, ids, future);
      && (a.Ok? <==> |set id | id in t.interactions && Named(t, c, id)| == |ids| && forall id :: id in ids ==> Named(t, c, id))
      && (a.Ok? ==> a.value == t.(shares := a.value.shares, futures := t.futures[(c, r) := future])
                    && forall id, x :: (id, x) in a.value.shares <==> (id, x) in t.shares || (x == r && id in ids))
  {
    assert Rows(t, c) == set id | id in t.interactions && Named(t, c, id);
    forall id, x ensures (id, x) in ShareRows(AsSet(ids), r) <==> x == r && id in ids { }
  }

  /** Unsharing is refused exactly when a row of the conversation has a publication there. */
  lemma UnsharesExactly(t: Tables, c: Conversation, r: Remote)
    ensures var a := Unshare(t, c, r);
      && (a.Ok? <==> forall id :: Named(t, c, id) ==> (id, r) !in t.publications)
      && (a.Ok? ==> a.value == t.(shares := a.value.shares, futures := t.futures[(c, r) := false])
                    && forall id, x :: (id, x) in a.value.shares <==> (id, x) in t.shares && !(x == r && Named(t, c, id)))
  {
    forall id, x ensures (id, x) in ShareRows(Rows(t, c), r) <==> x == r && Named(t, c, id) { }
    forall id ensures id in Rows(t, c) <==> Named(t, c, id) { }
  }

  // --- A harness batch ---

  /** Capture `i` is the one that stores its id: not lost, not stored and not tombstoned before. */
  ghost predicate IsNew(t: Tables, batch: seq<Outcome>, i: nat)
    requires i < |batch|
  {
    !batch[i].Lost? && (IdOf(batch[i]), Local) !in t.tombstones && !StoredBy(t, batch, i, IdOf(batch[i]))
  }

  ghost function CountNew(t: Tables, batch: seq<Outcome>, n: nat): nat
    requires n <= |batch|
  {
    if n == 0 then 0 else CountNew(t, batch, n - 1) + if IsNew(t, batch, n - 1) then 1 else 0
  }

  ghost function CountStandIns(t: Tables, batch: seq<Outcome>, n: nat): nat
    requires n <= |batch|
  {
    if n == 0 then 0
    else CountStandIns(t, batch, n - 1) + if IsNew(t, batch, n - 1) && batch[n - 1].Withheld? then 1 else 0
  }

  ghost function CountLost(batch: seq<Outcome>, n: nat): nat
    requires n <= |batch|
  {
    if n == 0 then 0 else CountLost(batch, n - 1) + if batch[n - 1].Lost? then 1 else 0
  }

  lemma {:induction false} CountsBefore(t: Tables, batch: seq<Outcome>, i: nat)
    requires Sound(t) && i <= |batch|
    ensures CountsAre(t, batch, i, Before(t, batch, i).outcome)
    decreases i
  {
    hide Before, CountsAre, StoredBy, IdOf, Sound, IsNew, IngestOne;
    if i == 0 {
      FreshIngest(t, batch);
    } else {
      CountsBefore(t, batch, i - 1);
      NextBefore(t, batch, i - 1);
      if batch[i - 1].Lost? {
        CountsOfLost(t, batch, i - 1, Before(t, batch, i - 1).outcome);
      } else {
        NewIsAbsent(t, batch, i - 1);
        OneCounts(Before(t, batch, i - 1), Offered(batch[i - 1]), batch[i - 1].Withheld?);
        CountsOfOffered(t, batch, i - 1, Before(t, batch, i - 1).outcome, Before(t, batch, i).outcome);
      }
    }
  }

  /** The counts of the first `n` captures. */
  ghost predicate CountsAre(t: Tables, batch: seq<Outcome>, n: nat, o: BatchOutcome)
    requires n <= |batch|
  {
    o.inserted == CountNew(t, batch, n) && o.withheld == CountStandIns(t, batch, n)
  }

  lemma CountsOfLost(t: Tables, batch: seq<Outcome>, i: nat, o: BatchOutcome)
    requires i < |batch| && batch[i].Lost? && CountsAre(t, batch, i, o)
    ensures CountsAre(t, batch, i + 1, o)
  {
    hide StoredBy;
  }

  lemma CountsOfOffered(t: Tables, batch: seq<Outcome>, i: nat, o: BatchOutcome, u: BatchOutcome)
    requires i < |batch| && !batch[i].Lost? && CountsAre(t, batch, i, o)
    requires u.inserted == o.inserted + (if IsNew(t, batch, i) then 1 else 0)
    requires u.withheld == o.withheld + (if IsNew(t, batch, i) && batch[i].Withheld? then 1 else 0)
    ensures CountsAre(t, batch, i + 1, u)
  {
    hide IsNew;
  }

  lemma NewIsAbsent(t: Tables, batch: seq<Outcome>, i: nat)
    requires Sound(t) && i < |batch| && !batch[i].Lost?
    ensures var m := Before(t, batch, i).tables;
      IsNew(t, batch, i) <==> Offered(batch[i]).id !in m.interactions && !LocallyTombstoned(m, Offered(batch[i]).id)
  {
    hide Before, StoredBy, Sound;
    StoredByIs(t, batch, i, IdOf(batch[i]));
    BeforeIsSound(t, batch, i);
  }

  lemma {:induction false} OffersAndLost(batch: seq<Outcome>, i: nat)
    requires i <= |batch|
    ensures |Offers(batch[..i])| + CountLost(batch, i) == i
  {
    if i > 0 {
      OffersAndLost(batch, i - 1);
      OffersNext(batch, i - 1);
    }
  }

  lemma FreshIngest(t: Tables, batch: seq<Outcome>)
    ensures CountsAre(t, batch, 0, Before(t, batch, 0).outcome)
  {
  }

  lemma OffersNext(batch: seq<Outcome>, i: nat)
    requires i < |batch|
    ensures |Offers(batch[..i + 1])| == |Offers(batch[..i])| + if batch[i].Lost? then 0 else 1
  {
    assert batch[..i + 1][..i] == batch[..i];
  }

  lemma OneCounts(s: Ingest, c: Capture, withheld: bool)
    ensures var o, isNew := IngestOne(s, c, withheld).outcome, c.id !in s.tables.interactions && !LocallyTombstoned(s.tables, c.id);
      && o.inserted == s.outcome.inserted + (if isNew then 1 else 0)
      && o.withheld == s.outcome.withheld + (if isNew && withheld then 1 else 0)
  {
  }

  /** The rows a batch stores are its new captures, each as it was prepared but for its parent; that
      is a stored row or none. */
  ghost predicate BatchStored(t: Tables, batch: seq<Outcome>, u: Tables) {
    && Grown(t, u)
    && (forall id :: id in u.interactions <==>
          id in t.interactions || exists i :: 0 <= i < |batch| && IsNew(t, batch, i) && IdOf(batch[i]) == id)
    && (forall i :: 0 <= i < |batch| && IsNew(t, batch, i) ==>
          var id := IdOf(batch[i]);
          && id in u.interactions && u.interactions[id] == Offered(batch[i]).row.(parent := u.interactions[id].parent)
          && (u.interactions[id].parent.Some? ==> u.interactions[id].parent.value in u.interactions))
  }

  lemma BatchStores(t: Tables, batch: seq<Outcome>)
    requires Sound(t)
    ensures BatchStored(t, batch, Before(t, batch, |batch|).tables)
  {
    hide Before, StoredBy, Grown;
    var u := Before(t, batch, |batch|).tables;
    BeforeIsSound(t, batch, |batch|);
    BeforeGrows(t, batch);
    forall i | 0 <= i < |batch| && IsNew(t, batch, i)
      ensures var id := IdOf(batch[i]);
        id in u.interactions && u.interactions[id] == Offered(batch[i]).row.(parent := u.interactions[id].parent)
    {
      StoredByIs(t, batch, i, IdOf(batch[i]));
      InsertedRow(t, batch, i);
      RowStays(t, batch, i + 1, |batch|, IdOf(batch[i]));
    }
    forall id ensures id in u.interactions <==>
      id in t.interactions || exists i :: 0 <= i < |batch| && IsNew(t, batch, i) && IdOf(batch[i]) == id
    {
      StoredByIs(t, batch, |batch|, id);
      StoredByNew(t, batch, |batch|, id);
    }
  }

  lemma BeforeGrows(t: Tables, batch: seq<Outcome>)
    ensures Grown(t, Before(t, batch, |batch|).tables)
  {
    hide Grown;
    IngestGrows(t, LostSkips(batch), Offers(batch[..|batch|]));
  }

  lemma {:induction false} StoredByNew(t: Tables, batch: seq<Outcome>, n: nat, id: Id)
    requires n <= |batch|
    ensures StoredBy(t, batch, n, id) <==>
      id in t.interactions || exists i :: 0 <= i < n && IsNew(t, batch, i) && IdOf(batch[i]) == id
    decreases n
  {
    hide IdOf;
    if n > 0 { StoredByNew(t, batch, n - 1, id); }
  }

  /** A batch is refused only for its cursor; its counts are those of its captures, and beside its rows only the cursor
      of its session changes. */
  lemma IngestsExactly(t: Tables, batch: seq<Outcome>, key: (Text, Text), cursor: Cursor)
    requires Sound(t)
    ensures var r, n := IngestBatch(t, batch, key, cursor), |batch|;
      && (r.Ok? <==> cursor.offset < 0x8000_0000_0000_0000)
      && (r.Ok? ==> BatchStored(t, batch, r.value.0.(cursors := t.cursors)) && r.value.0.cursors == t.cursors[key := cursor]
                    && r.value.1 == BatchOutcome(CountNew(t, batch, n), r.value.1.suppressed,
                                                 CountStandIns(t, batch, n), CountLost(batch, n)))
  {
    hide BatchStored, Sound, IngestAll;
    assert batch[..|batch|] == batch;
    CountsBefore(t, batch, |batch|);
    OffersAndLost(batch, |batch|);
    BatchStores(t, batch);
    BeforeGrows(t, batch);
    var u := Before(t, batch, |batch|).tables;
    assert u.cursors == t.cursors;
    if IngestBatch(t, batch, key, cursor).Ok? {
      assert IngestBatch(t, batch, key, cursor).value.0.(cursors := t.cursors) == u;
    }
  }

  // --- Every step ---

  /** The tables after a batch of tombstones. */
  ghost predicate IsBuried(t: Tables, bs: seq<Tombstone>, synced: bool, remote: Option<Remote>, u: Tables) {
    Buried(t, Targets(bs), u) && Graves(t, bs, synced, remote, u)
  }

  lemma CascadeIsUnique(events: map<Text, Event>, targets: set<Id>, a: map<Text, Event>, b: map<Text, Event>)
    requires EventsBuried(events, targets, a) && EventsBuried(events, targets, b)
    ensures a == b
  {
    hide ClosedOverAll;
    assert events.Keys - a.Keys == events.Keys - b.Keys;
    assert a.Keys == events.Keys - (events.Keys - a.Keys);
    assert b.Keys == events.Keys - (events.Keys - b.Keys);
  }

  lemma GravesAreUnique(t: Tables, bs: seq<Tombstone>, synced: bool, remote: Option<Remote>, a: Tables, b: Tables)
    requires Graves(t, bs, synced, remote, a) && Graves(t, bs, synced, remote, b)
    ensures a.tombstones == b.tombstones
  {
    hide IsFirst;
    forall k ensures k in a.tombstones <==> k in b.tombstones
      ensures k in a.tombstones ==> a.tombstones[k] == b.tombstones[k]
    {
      assert GraveAt(t, bs, synced, remote, a.tombstones, k) && GraveAt(t, bs, synced, remote, b.tombstones, k);
      if k.0 in Targets(bs) { var j := SomeFirst(bs, k.0); }
    }
  }

  lemma RowsAreUnique(t: Tables, targets: set<Id>, a: Tables, b: Tables)
    requires Buried(t, targets, a) && Buried(t, targets, b)
    ensures a.interactions == b.interactions && a.shares == b.shares && a.publications == b.publications
    ensures a.conversations == b.conversations && a.futures == b.futures && a.cursors == b.cursors
  {
    hide EventsBuried;
    assert a.publications.Keys == b.publications.Keys;
  }

  /** What is buried is told by the tables before. */
  lemma BurialIsUnique(t: Tables, bs: seq<Tombstone>, synced: bool, remote: Option<Remote>, a: Tables, b: Tables)
    requires IsBuried(t, bs, synced, remote, a) && IsBuried(t, bs, synced, remote, b)
    ensures a == b
  {
    hide Graves, EventsBuried;
    RowsAreUnique(t, Targets(bs), a, b);
    GravesAreUnique(t, bs, synced, remote, a, b);
    CascadeIsUnique(t.events, Targets(bs), a.events, b.events);
  }

  /** The pull can be taken after its tombstones. */
  ghost predicate CanImport(t: Tables, p: Pull) {
    CanBuryAll(t, p.tombstones, p.remote)
    && forall m :: IsBuried(t, p.tombstones, true, p.remote, m) ==>
         CanPullAll(m, p.captures, p.remote) && CanRelateAll(m, p.events, p.remote)
  }

  /** Exactly what a step must find to be taken. */
  ghost predicate Accepts(t: Tables, s: Step) {
    match s
    case Record(c) => CanStoreAll(t, [c])
    case Replace(request, cs) =>
      cs == [] || ((forall c :: c in cs ==> c.row.request == Some(request)) && CanDelete(t, request)
                   && CanStoreAll(t.(interactions := Others(t, request)), cs))
    case Delete(request) => CanDelete(t, request)
    case Import(p) => CanImport(t, p)
    case Harness(_, _, cursor) => cursor.offset < 0x8000_0000_0000_0000
    case Entomb(bs, _, remote) => CanBuryAll(t, bs, remote)
    case ShareAll(_, _, _) => true
    case ShareSnapshot(c, _, ids, _) =>
      |set id | id in t.interactions && Named(t, c, id)| == |ids| && forall id :: id in ids ==> Named(t, c, id)
    case UnshareAll(c, r) => forall id :: Named(t, c, id) ==> (id, r) !in t.publications
    case MarkAll(_, _, _, _) => true
    case ClearAll(_, _) => true
    case Relate(key, event) => key in t.events ==> t.events[key].payload == event.payload
  }

  /** What a pull leaves: its tombstones applied, its captures stored, its events and the proof of
      publication added, in this order. */
  ghost predicate IsImported(t: Tables, p: Pull, u: Tables) {
    exists m, b ::
      && IsBuried(t, p.tombstones, true, p.remote, m) && Pulled(m, p.captures, p.remote, b)
      && u == b.(events := u.events, publications := u.publications) && Related(m, p.events, p.remote, u.events)
      && match p.remote
         case None => u.publications == m.publications
         case Some(r) => MarkedBy(m.publications, p.published, r, Published, p.now, u.publications)
  }

  /** Exactly what a step that is taken leaves. */
  ghost predicate Leaves(t: Tables, s: Step, u: Tables) {
    match s
    case Record(c) => StoresBatch(t, [c], u)
    case Replace(request, cs) => if cs == [] then u == t else StoresBatch(t.(interactions := Others(t, request)), cs, u)
    case Delete(request) => u == t.(interactions := Others(t, request))
    case Import(p) => IsImported(t, p, u)
    case Harness(batch, key, cursor) =>
      BatchStored(t, batch, u.(cursors := t.cursors)) && u.cursors == t.cursors[key := cursor]
    case Entomb(bs, synced, remote) => IsBuried(t, bs, synced, remote, u)
    case ShareAll(c, r, future) =>
      && u == t.(shares := u.shares, futures := t.futures[(c, r) := future])
      && forall id, x :: (id, x) in u.shares <==> (id, x) in t.shares || (x == r && Named(t, c, id))
    case ShareSnapshot(c, r, ids, future) =>
      && u == t.(shares := u.shares, futures := t.futures[(c, r) := future])
      && forall id, x :: (id, x) in u.shares <==> (id, x) in t.shares || (x == r && id in ids)
    case UnshareAll(c, r) =>
      && u == t.(shares := u.shares, futures := t.futures[(c, r) := false])
      && forall id, x :: (id, x) in u.shares <==> (id, x) in t.shares && !(x == r && Named(t, c, id))
    case MarkAll(ids, r, state, now) =>
      u == t.(publications := u.publications) && MarkedBy(t.publications, ids, r, state, now, u.publications)
    case ClearAll(ids, r) => u == t.(publications := u.publications) && ClearedBy(t.publications, ids, r, u.publications)
    case Relate(key, event) => u == if key in t.events then t else t.(events := t.events[key := event])
  }

  lemma SameRelating(m: Tables, b: Tables, es: seq<Incoming>, remote: Option<Remote>)
    requires m.tombstones == b.tombstones && m.events == b.events
    ensures CanRelateAll(m, es, remote) <==> CanRelateAll(b, es, remote)
    ensures forall events :: Related(m, es, remote, events) <==> Related(b, es, remote, events)
  {
    hide Stops;
    forall id ensures Stops(m, id, remote) <==> Stops(b, id, remote) { SameStops(m, b, id, remote); }
    forall i | 0 <= i < |es| ensures CanRelate(m, es, remote, i) <==> CanRelate(b, es, remote, i) { }
    forall events, k ensures RelatedAt(m, es, remote, events, k) <==> RelatedAt(b, es, remote, events, k) {
      forall i | 0 <= i < |es| ensures Brings(m, es[i], remote, k) <==> Brings(b, es[i], remote, k) { }
      assert forall j :: IsFirstEvent(m, es, remote, k, j) <==> IsFirstEvent(b, es, remote, k, j);
    }
  }

  lemma SameStops(m: Tables, b: Tables, id: Id, remote: Option<Remote>)
    requires m.tombstones == b.tombstones
    ensures Stops(m, id, remote) <==> Stops(b, id, remote)
  {
  }

  lemma GrownKeeps(m: Tables, b: Tables)
    requires Grown(m, b)
    ensures b == m.(conversations := b.conversations, interactions := b.interactions, shares := b.shares)
  {
  }

  lemma PulledGrows(m: Tables, cs: seq<Capture>, remote: Option<Remote>, b: Tables)
    requires Pulled(m, cs, remote, b)
    ensures Grown(m, b)
  {
  }

  lemma ImportsExactly(t: Tables, p: Pull)
    ensures ImportPull(t, p).Ok? <==> CanImport(t, p)
    ensures ImportPull(t, p).Ok? ==> IsImported(t, p, ImportPull(t, p).value)
  {
    hide ApplyTombstones, InsertAll, Admitted, RelateAll, Mark, IsBuried, CanBury, CanPullAll, CanRelateAll, Pulled, Related,
      MarkedBy, Grown;
    var a := ApplyTombstones(t, p.tombstones, true, p.remote);
    BuriedExactlyWhen(t, p.tombstones, true, p.remote);
    if a.Ok? {
      var m := a.value;
      BuriesExactly(t, p.tombstones, true, p.remote);
      forall n | IsBuried(t, p.tombstones, true, p.remote, n) ensures n == m {
        BurialIsUnique(t, p.tombstones, true, p.remote, m, n);
      }
      var b := InsertAll(m, Admitted(m, p.captures, p.remote));
      PulledExactlyWhen(m, p.captures, p.remote);
      if b.Ok? {
        PulledGrows(m, p.captures, p.remote, b.value);
        GrownKeeps(m, b.value);
        SameRelating(m, b.value, p.events, p.remote);
        RelatedExactlyWhen(b.value, p.events, p.remote);
        var c := RelateAll(b.value, p.events, p.remote);
        if c.Ok? && p.remote.Some? { MarksExactly(c.value, p.published, p.remote.value, Published, p.now); }
      }
    }
  }

  lemma BuriesExactly(t: Tables, bs: seq<Tombstone>, synced: bool, remote: Option<Remote>)
    requires ApplyTombstones(t, bs, synced, remote).Ok?
    ensures IsBuried(t, bs, synced, remote, ApplyTombstones(t, bs, synced, remote).value)
  {
    hide Buried, Graves, ApplyTombstones;
    TombstonesBury(t, bs, synced, remote);
    BuriedExactlyWhen(t, bs, synced, remote);
  }

  lemma ReplacesExactly(t: Tables, request: Text, cs: seq<Capture>)
    ensures var r, s := ReplaceRequest(t, request, cs), Replace(request, cs);
      (r.Ok? <==> Accepts(t, s)) && (r.Ok? ==> Leaves(t, s, r.value))
  {
    hide InsertAll, DeleteRequest, CanDelete, CanStoreAll, StoresBatch, Others;
    if cs != [] {
      DeletedExactlyWhen(t, request);
      StoredExactlyWhen(t.(interactions := Others(t, request)), cs);
    }
  }

  lemma RecordsExactly(t: Tables, c: Capture)
    ensures var r := Insert(t, c);
      (r.Ok? <==> CanStoreAll(t, [c])) && (r.Ok? ==> StoresBatch(t, [c], r.value))
  {
    hide Insert, CanStoreAll, StoresBatch;
    StoredExactlyWhen(t, [c]);
    assert [c][..0] == [];
    NothingStored(t);
  }

  /** Each transaction, exactly: it is taken if and only if it finds what it must, and then leaves just what it must,
      in every table; when it is refused nothing changes. */
  lemma StepIsExact(t: Tables, s: Step)
    requires Sound(t)
    ensures Apply(t, s).Ok? <==> Accepts(t, s)
    ensures if Accepts(t, s) then Leaves(t, s, Next(t, s)) else Next(t, s) == t
  {
    hide Insert, DeleteRequest, ImportPull, ReplaceRequest, IngestBatch, ApplyTombstones, Share, ShareExact, Unshare, Mark, Clear,
      CanStoreAll, CanDelete, CanImport, CanBuryAll, StoresBatch, BatchStored, IsImported, IsBuried, MarkedBy, ClearedBy, Sound, Named;
    match s
    case Record(c) => RecordsExactly(t, c);
    case Replace(request, cs) => ReplacesExactly(t, request, cs);
    case Delete(request) => DeletedExactlyWhen(t, request);
    case Import(p) => ImportsExactly(t, p);
    case Harness(batch, key, cursor) => IngestsExactly(t, batch, key, cursor);
    case Entomb(bs, synced, remote) =>
      BuriedExactlyWhen(t, bs, synced, remote);
      if Apply(t, s).Ok? { BuriesExactly(t, bs, synced, remote); }
    case ShareAll(c, r, future) => SharesExactly(t, c, r, future);
    case ShareSnapshot(c, r, ids, future) => SharesListedExactly(t, c, r, ids, future);
    case UnshareAll(c, r) => UnsharesExactly(t, c, r);
    case MarkAll(ids, r, state, now) => MarksExactly(t, ids, r, state, now);
    case ClearAll(ids, r) => ClearsExactly(t, ids, r);
    case Relate(key, event) =>
  }
}
