/** The store object: every method is one transaction, computed aside and committed at its end. */
module Store {
  import opened Bytes
  import opened StoreTables
  import opened StoreTombstones
  import opened StoreSharing
  import opened StoreHarness
  import opened StoreSteps

  // --- Batches that stop at their first refusal ---

  lemma {:induction false} InsertAllStops(t: Tables, cs: seq<Capture>, n: nat)
    requires n <= |cs| && InsertAll(t, cs[..n]).Refused?
    ensures InsertAll(t, cs) == InsertAll(t, cs[..n])
    decreases |cs|
  {
    hide Insert;
    if n == |cs| {
      assert cs[..n] == cs;
    } else {
      assert cs[..|cs| - 1][..n] == cs[..n];
      InsertAllStops(t, cs[..|cs| - 1], n);
    }
  }

  lemma {:induction false} TombstonesStop(t: Tables, bs: seq<Tombstone>, synced: bool, remote: Option<Remote>, n: nat)
    requires n <= |bs| && ApplyTombstones(t, bs[..n], synced, remote).Refused?
    ensures ApplyTombstones(t, bs, synced, remote) == ApplyTombstones(t, bs[..n], synced, remote)
    decreases |bs|
  {
    hide ApplyTombstone;
    if n == |bs| {
      assert bs[..n] == bs;
    } else {
      assert bs[..|bs| - 1][..n] == bs[..n];
      TombstonesStop(t, bs[..|bs| - 1], synced, remote, n);
    }
  }

  lemma {:induction false} RelateAllStops(t: Tables, es: seq<Incoming>, remote: Option<Remote>, n: nat)
    requires n <= |es| && RelateAll(t, es[..n], remote).Refused?
    ensures RelateAll(t, es, remote) == RelateAll(t, es[..n], remote)
    decreases |es|
  {
    hide RelatePulled;
    if n == |es| {
      assert es[..n] == es;
    } else {
      assert es[..|es| - 1][..n] == es[..n];
      RelateAllStops(t, es[..|es| - 1], remote, n);
    }
  }

  lemma {:induction false} AdmittedPrefix(t: Tables, cs: seq<Capture>, remote: Option<Remote>, n: nat)
    requires n <= |cs|
    ensures Admitted(t, cs[..n], remote) <= Admitted(t, cs, remote)
    decreases |cs|
  {
    if n == |cs| {
      assert cs[..n] == cs;
    } else {
      assert cs[..|cs| - 1][..n] == cs[..n];
      AdmittedPrefix(t, cs[..|cs| - 1], remote, n);
    }
  }

  lemma PrefixOf<T>(a: seq<T>, b: seq<T>)
    requires a <= b
    ensures b[..|a|] == a
  {
  }

  lemma NextPrefix<T>(s: seq<T>, i: nat)
    requires i < |s|
    ensures s[..i + 1][..i] == s[..i] && s[..i + 1][i] == s[i] && |s[..i + 1]| == i + 1
  {
  }

  method InsertEach(t: Tables, cs: seq<Capture>) returns (r: Result<Tables>)
    ensures r == InsertAll(t, cs)
  {
    var tx := t;
    for i := 0 to |cs|
      invariant InsertAll(t, cs[..i]) == Ok(tx)
    {
      hide Insert;
      NextPrefix(cs, i);
      var inserted := Insert(tx, cs[i]);
      if inserted.Refused? {
        InsertAllStops(t, cs, i + 1);
        return inserted;
      }
      tx := inserted.value;
    }
    assert cs[..|cs|] == cs;
    r := Ok(tx);
  }

  method InsertAdmitted(t: Tables, cs: seq<Capture>, remote: Option<Remote>) returns (r: Result<Tables>)
    ensures r == InsertAll(t, Admitted(t, cs, remote))
  {
    hide Insert, Imported, TombstonedFor, Grown;
    var tx := t;
    for i := 0 to |cs|
      invariant InsertAll(t, Admitted(t, cs[..i], remote)) == Ok(tx)
    {
      NextPrefix(cs, i);
      var c := Imported(cs[i], remote);
      SameTombstones(t, Admitted(t, cs[..i], remote), c.id, remote);
      if !TombstonedFor(tx, c.id, remote) {
        var inserted := Insert(tx, c);
        AdmittedNext(t, cs, remote, i);
        if inserted.Refused? {
          AdmittedPrefix(t, cs, remote, i + 1);
          PrefixOf(Admitted(t, cs[..i + 1], remote), Admitted(t, cs, remote));
          InsertAllStops(t, Admitted(t, cs, remote), |Admitted(t, cs[..i + 1], remote)|);
          return inserted;
        }
        tx := inserted.value;
      } else {
        NotAdmitted(t, cs, remote, i);
      }
    }
    assert cs[..|cs|] == cs;
    r := Ok(tx);
  }

  lemma NotAdmitted(t: Tables, cs: seq<Capture>, remote: Option<Remote>, i: nat)
    requires i < |cs| && TombstonedFor(t, Imported(cs[i], remote).id, remote)
    ensures Admitted(t, cs[..i + 1], remote) == Admitted(t, cs[..i], remote)
  {
    NextPrefix(cs, i);
  }

  lemma SameTombstones(t: Tables, cs: seq<Capture>, id: Id, remote: Option<Remote>)
    requires InsertAll(t, cs).Ok?
    ensures TombstonedFor(InsertAll(t, cs).value, id, remote) == TombstonedFor(t, id, remote)
  {
    InsertAllGrows(t, cs);
  }

  lemma AdmittedNext(t: Tables, cs: seq<Capture>, remote: Option<Remote>, i: nat)
    requires i < |cs| && !TombstonedFor(t, Imported(cs[i], remote).id, remote)
    ensures var a, b := Admitted(t, cs[..i], remote), Admitted(t, cs[..i + 1], remote);
      |b| == |a| + 1 && b[..|a|] == a && b[|a|] == Imported(cs[i], remote)
  {
    NextPrefix(cs, i);
  }

  method RelateEach(t: Tables, es: seq<Incoming>, remote: Option<Remote>) returns (r: Result<Tables>)
    ensures r == RelateAll(t, es, remote)
  {
    var tx := t;
    for i := 0 to |es|
      invariant RelateAll(t, es[..i], remote) == Ok(tx)
    {
      NextPrefix(es, i);
      var e := es[i];
      if TombstonedFor(tx, e.event.interaction, remote) { continue; }
      if !e.valid {
        RelateAllStops(t, es, remote, i + 1);
        return Refused(InvalidEvent);
      }
      if e.key !in tx.events {
        tx := tx.(events := tx.events[e.key := e.event]);
      } else if tx.events[e.key].payload != e.event.payload {
        RelateAllStops(t, es, remote, i + 1);
        return Refused(EventConflict);
      }
    }
    assert es[..|es|] == es;
    r := Ok(tx);
  }

  /** The event table as rows, in some order. */
  method EventRows(events: map<Text, Event>) returns (rows: seq<(Text, Event)>)
    ensures Lists(rows, events)
  {
    rows := [];
    var left := events.Keys;
    while left != {}
      invariant left <= events.Keys
      invariant forall i :: 0 <= i < |rows| ==> rows[i].0 in events && events[rows[i].0] == rows[i].1
      invariant forall k :: k in events ==> k in left || exists i :: 0 <= i < |rows| && rows[i].0 == k
      decreases left
    {
      var k :| k in left;
      ghost var before := rows;
      rows := rows + [(k, events[k])];
      assert rows[|before|].0 == k;
      forall x | x in events && x !in left - {k} ensures exists i :: 0 <= i < |rows| && rows[i].0 == x {
        if x != k {
          var i :| 0 <= i < |before| && before[i].0 == x;
          assert rows[i].0 == x;
        }
      }
      left := left - {k};
    }
  }

  method Suppress(t: Tables, b: Tombstone, synced: bool, remote: Option<Remote>) returns (r: Result<Tables>)
    ensures r == ApplyTombstone(t, b, synced, remote)
  {
    hide Cascade, Bury, Detached, WithoutShares, WithoutPublications, Lists;
    r := Bury(t, b, synced, remote);
    if r.Ok? {
      var tx := r.value;
      tx := tx.(interactions := Detached(tx.interactions, b.id));
      var rows := EventRows(tx.events);
      var removed := RemovedEvents(rows, b.id, tx.events);
      tx := tx.(events := tx.events - removed);
      tx := tx.(shares := WithoutShares(tx.shares, b.id));
      tx := tx.(publications := WithoutPublications(tx.publications, b.id));
      tx := tx.(interactions := tx.interactions - {b.id});
      r := Ok(tx);
    }
  }

  method SuppressEach(t: Tables, bs: seq<Tombstone>, synced: bool, remote: Option<Remote>) returns (r: Result<Tables>)
    ensures r == ApplyTombstones(t, bs, synced, remote)
  {
    hide ApplyTombstone;
    var tx := t;
    for i := 0 to |bs|
      invariant ApplyTombstones(t, bs[..i], synced, remote) == Ok(tx)
    {
      NextPrefix(bs, i);
      var applied := Suppress(tx, bs[i], synced, remote);
      if applied.Refused? {
        TombstonesStop(t, bs, synced, remote, i + 1);
        return applied;
      }
      tx := applied.value;
    }
    assert bs[..|bs|] == bs;
    r := Ok(tx);
  }

  /** One upsert: a row already published is left alone unless `Published` is asserted again. */
  method Upsert(t: Tables, id: Id, r: Remote, state: PublicationState, now: int) returns (tx: Tables)
    ensures tx == Mark(t, {id}, r, state, now)
  {
    hide Mark;
    var key := (id, r);
    tx := t;
    if key !in t.publications {
      tx := t.(publications := t.publications[key := Publication(state, now)]);
    } else {
      var was := t.publications[key];
      if was.state != Published || state == Published {
        var at := if was.state == Published && state == Published then was.updatedAt else now;
        tx := t.(publications := t.publications[key := Publication(state, at)]);
      }
    }
    assert key in t.publications ==> t.publications[key := t.publications[key]] == t.publications;
    MarkOneRow(t, id, r, state, now);
  }

  lemma MarkOneRow(t: Tables, id: Id, r: Remote, state: PublicationState, now: int)
    ensures Mark(t, {id}, r, state, now) ==
      t.(publications := t.publications[(id, r) := Marked(Stored(t, (id, r)), state, now)])
  {
    var u := Mark(t, {id}, r, state, now);
    var tx := t.(publications := t.publications[(id, r) := Marked(Stored(t, (id, r)), state, now)]);
    MarkOnlyMarks(t, {id}, r, state, now);
    hide Mark, Marked;
    forall k ensures Stored(tx, k) == Stored(u, k) { MarkAt(t, {id}, r, state, now, k); }
    forall k ensures (k in tx.publications <==> k in u.publications)
      && (k in tx.publications ==> tx.publications[k] == u.publications[k])
    {
      assert Stored(tx, k) == Stored(u, k);
    }
    SamePublications(tx.publications, u.publications);
  }

  lemma MarkOnlyMarks(t: Tables, ids: set<Id>, r: Remote, state: PublicationState, now: int)
    ensures Mark(t, ids, r, state, now) == t.(publications := Mark(t, ids, r, state, now).publications)
  {
  }

  lemma MarkNone(t: Tables, r: Remote, state: PublicationState, now: int)
    ensures Mark(t, {}, r, state, now) == t
  {
    assert ShareRows({}, r) == {};
    assert Mark(t, {}, r, state, now).publications == t.publications;
  }

  lemma ClearNone(t: Tables, r: Remote)
    ensures Clear(t, {}, r) == t
  {
    assert Clear(t, {}, r).publications == t.publications;
  }

  lemma AsSetNext(ids: seq<Id>, i: nat)
    requires i < |ids|
    ensures AsSet(ids[..i + 1]) == AsSet(ids[..i]) + {ids[i]}
  {
    NextPrefix(ids, i);
  }

  method UpsertEach(t: Tables, ids: seq<Id>, r: Remote, state: PublicationState, now: int) returns (tx: Tables)
    ensures tx == Mark(t, AsSet(ids), r, state, now)
  {
    hide Mark, AsSet;
    tx := t;
    NoneIn();
    MarkNone(t, r, state, now);
    for i := 0 to |ids|
      invariant tx == Mark(t, AsSet(ids[..i]), r, state, now)
    {
      tx := Upsert(tx, ids[i], r, state, now);
      MarkOneMore(t, AsSet(ids[..i]), ids[i], r, state, now);
      AsSetNext(ids, i);
    }
    assert ids[..|ids|] == ids;
  }

  lemma NoneIn()
    ensures forall ids: seq<Id> :: |ids| == 0 ==> AsSet(ids) == {}
  {
  }

  lemma NoShareRows(r: Remote)
    ensures ShareRows({}, r) == {}
  {
  }

  lemma OneMoreShareRow(ids: set<Id>, id: Id, r: Remote)
    ensures ShareRows(ids + {id}, r) == ShareRows(ids, r) + {(id, r)}
  {
  }

  lemma ClearKey(t: Tables, id: Id, r: Remote)
    ensures Clear(t, {id}, r) ==
      if (id, r) in t.publications && t.publications[(id, r)].state != Published
      then t.(publications := t.publications - {(id, r)}) else t
  {
    assert Clear(t, {id}, r).publications ==
      if (id, r) in t.publications && t.publications[(id, r)].state != Published
      then t.publications - {(id, r)} else t.publications;
  }

  method ClearEach(t: Tables, ids: seq<Id>, r: Remote) returns (tx: Tables)
    ensures tx == Clear(t, AsSet(ids), r)
  {
    hide Clear, AsSet;
    tx := t;
    NoneIn();
    ClearNone(t, r);
    for i := 0 to |ids|
      invariant tx == Clear(t, AsSet(ids[..i]), r)
    {
      ClearOneMore(t, AsSet(ids[..i]), ids[i], r);
      ClearKey(tx, ids[i], r);
      var key := (ids[i], r);
      if key in tx.publications && (tx.publications[key].state == Pending || tx.publications[key].state == Unknown) {
        tx := tx.(publications := tx.publications - {key});
      }
      AsSetNext(ids, i);
    }
    assert ids[..|ids|] == ids;
  }

  /** What the batch offers and what it lost, from the outcomes of preparation in order. */
  method SplitBatch(batch: seq<Outcome>) returns (offers: seq<(Capture, bool)>, skipped: Skips, lost: nat)
    ensures offers == Offers(batch) && skipped == LostSkips(batch) && lost == |batch| - |offers|
  {
    offers, skipped, lost := [], map[], 0;
    for i := 0 to |batch|
      invariant offers == Offers(batch[..i]) && skipped == LostSkips(batch[..i]) && lost == i - |offers|
    {
      NextPrefix(batch, i);
      match batch[i]
      case Prepared(c) => offers := offers + [(c, false)];
      case Withheld(c) => offers := offers + [(c, true)];
      case Lost(id, parent) =>
        skipped := skipped[id := parent];
        lost := lost + 1;
    }
    assert batch[..|batch|] == batch;
  }

  method IngestEach(t: Tables, lost: Skips, offers: seq<(Capture, bool)>)
    returns (tx: Tables, skipped: Skips, outcome: BatchOutcome)
    ensures Ingest(tx, skipped, outcome) == IngestAll(t, lost, offers)
  {
    hide Insert, Hop;
    tx, skipped, outcome := t, lost, BatchOutcome(0, 0, 0, 0);
    for i := 0 to |offers|
      invariant Ingest(tx, skipped, outcome) == IngestAll(t, lost, offers[..i])
    {
      NextPrefix(offers, i);
      var c, withheld := offers[i].0, offers[i].1;
      var stored := c.id in tx.interactions;
      if stored || LocallyTombstoned(tx, c.id) {
        outcome := outcome.(suppressed := outcome.suppressed + 1);
        if !stored { skipped := skipped[c.id := c.row.parent]; }
        continue;
      }
      var parent := WalkUp(skipped, c.row.parent);
      if parent.Some? && parent.value !in tx.interactions { parent := None; }
      AdoptedIsStored(tx, skipped, c);
      tx := Insert(tx, c.(row := c.row.(parent := parent))).value;
      outcome := outcome.(inserted := outcome.inserted + 1, withheld := outcome.withheld + if withheld then 1 else 0);
    }
    assert offers[..|offers|] == offers;
  }

  /** An adopted parent never makes the insertion fail. */
  lemma AdoptedIsStored(t: Tables, skipped: Skips, c: Capture)
    requires c.id !in t.interactions && !LocallyTombstoned(t, c.id)
    ensures Insert(t, c.(row := c.row.(parent := Adopted(t, skipped, c.row.parent)))).Ok?
  {
  }

  /** What a transaction answers: nothing when it committed, or why it was refused. */
  type Answer = Result<()>

  ghost predicate Answers(r: Answer, t: Tables, s: Step) {
    match Apply(t, s)
    case Ok(_) => r == Ok(())
    case Refused(why) => r == Refused(why)
  }

  class CvcStore {
    var db: Tables

    constructor ()
      ensures db == EMPTY
    {
      db := EMPTY;
    }

    method Capture(c: Capture) returns (r: Answer)
      modifies this
      ensures db == Next(old(db), Record(c)) && Answers(r, old(db), Record(c))
    {
      hide Insert;
      var tx := Insert(db, c);
      if tx.Refused? { return Refused(tx.why); }
      db := tx.value;
      r := Ok(());
    }

    method ReplaceBatch(request: Text, cs: seq<Capture>) returns (r: Answer)
      modifies this
      ensures db == Next(old(db), Replace(request, cs)) && Answers(r, old(db), Replace(request, cs))
    {
      hide InsertAll, DeleteRequest;
      if cs == [] { return Ok(()); }
      for i := 0 to |cs|
        invariant forall j :: 0 <= j < i ==> cs[j].row.request == Some(request)
        invariant db == old(db)
      {
        if cs[i].row.request != Some(request) {
          assert cs[i] in cs;
          return Refused(RequestMismatch);
        }
      }
      var deleted := DeleteRequest(db, request);
      if deleted.Refused? { return Refused(deleted.why); }
      var tx := InsertEach(deleted.value, cs);
      if tx.Refused? { return Refused(tx.why); }
      db := tx.value;
      r := Ok(());
    }

    method DeleteByRequest(request: Text) returns (r: Answer)
      modifies this
      ensures db == Next(old(db), Delete(request)) && Answers(r, old(db), Delete(request))
    {
      var gone := OfRequest(db, request);
      if gone == {} {
        assert db.interactions - gone == db.interactions;
        return Ok(());
      }
      var tx := DeleteRequest(db, request);
      if tx.Refused? { return Refused(tx.why); }
      db := tx.value;
      r := Ok(());
    }

    method ImportSyncBatch(p: Pull) returns (r: Answer)
      modifies this
      ensures db == Next(old(db), Import(p)) && Answers(r, old(db), Import(p))
    {
      hide ApplyTombstones, InsertAll, Admitted, RelateAll, Mark;
      var tx := SuppressEach(db, p.tombstones, true, p.remote);
      if tx.Refused? { return Refused(tx.why); }
      tx := InsertAdmitted(tx.value, p.captures, p.remote);
      if tx.Refused? { return Refused(tx.why); }
      tx := RelateEach(tx.value, p.events, p.remote);
      if tx.Refused? { return Refused(tx.why); }
      var done := tx.value;
      if p.remote.Some? { done := UpsertEach(done, p.published, p.remote.value, Published, p.now); }
      db := done;
      r := Ok(());
    }

    method CaptureClaudeCodeBatch(batch: seq<Outcome>, session: (Text, Text), cursor: Cursor)
      returns (r: Result<BatchOutcome>)
      modifies this
      ensures db == Next(old(db), Harness(batch, session, cursor))
      ensures match IngestBatch(old(db), batch, session, cursor)
              case Ok(v) => r == Ok(v.1)
              case Refused(why) => r == Refused(why)
    {
      hide IngestAll, Offers, LostSkips;
      var offers, skipped, lost := SplitBatch(batch);
      if cursor.offset > MAX_OFFSET { return Refused(Overflow); }
      var tx, skips, outcome := IngestEach(db, skipped, offers);
      db := tx.(cursors := tx.cursors[session := cursor]);
      r := Ok(outcome.(lost := lost));
    }

    method EntombAll(bs: seq<Tombstone>, synced: bool, remote: Option<Remote>) returns (r: Answer)
      modifies this
      ensures db == Next(old(db), Entomb(bs, synced, remote)) && Answers(r, old(db), Entomb(bs, synced, remote))
    {
      hide ApplyTombstones;
      var tx := SuppressEach(db, bs, synced, remote);
      if tx.Refused? { return Refused(tx.why); }
      db := tx.value;
      r := Ok(());
    }

    method ShareConversation(c: Conversation, to: Remote, future: bool) returns (count: nat)
      modifies this
      ensures db == Next(old(db), ShareAll(c, to, future)) && count == |Rows(old(db), c)|
    {
      var rows := Rows(db, c);
      count := |rows|;
      db := db.(shares := db.shares + ShareRows(rows, to), futures := db.futures[(c, to) := future]);
    }

    method ShareExactSnapshot(c: Conversation, to: Remote, ids: seq<Id>, future: bool) returns (r: Answer)
      modifies this
      ensures db == Next(old(db), ShareSnapshot(c, to, ids, future))
      ensures Answers(r, old(db), ShareSnapshot(c, to, ids, future))
    {
      hide AsSet, ShareRows;
      var actual := |Rows(db, c)|;
      if actual != |ids| { return Refused(Changed); }
      var tx := db;
      NoneIn();
      NoShareRows(to);
      for i := 0 to |ids|
        invariant db == old(db) && tx == db.(shares := db.shares + ShareRows(AsSet(ids[..i]), to))
        invariant forall j :: 0 <= j < i ==> ids[j] in Rows(db, c)
      {
        if ids[i] !in tx.interactions || tx.interactions[ids[i]].conversation != c {
          assert ids[i] in ids && ids[i] !in Rows(db, c);
          return Refused(Changed);
        }
        tx := tx.(shares := tx.shares + {(ids[i], to)});
        AsSetNext(ids, i);
        OneMoreShareRow(AsSet(ids[..i]), ids[i], to);
      }
      assert ids[..|ids|] == ids;
      db := tx.(futures := tx.futures[(c, to) := future]);
      r := Ok(());
    }

    method UnshareConversation(c: Conversation, to: Remote) returns (r: Answer)
      modifies this
      ensures db == Next(old(db), UnshareAll(c, to)) && Answers(r, old(db), UnshareAll(c, to))
    {
      if IsBlocked(db, c, to) { return Refused(Blocked); }
      db := db.(shares := db.shares - ShareRows(Rows(db, c), to), futures := db.futures[(c, to) := false]);
      r := Ok(());
    }

    method MarkPublication(ids: seq<Id>, to: Remote, state: PublicationState, now: int)
      modifies this
      ensures db == Next(old(db), MarkAll(ids, to, state, now))
    {
      hide Mark;
      var tx := UpsertEach(db, ids, to, state, now);
      db := tx;
    }

    method ClearUncertainPublications(ids: seq<Id>, to: Remote)
      modifies this
      ensures db == Next(old(db), ClearAll(ids, to))
    {
      hide Clear;
      var tx := ClearEach(db, ids, to);
      db := tx;
    }
  }
}
