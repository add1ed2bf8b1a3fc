/** Who may share: over every run, a row is shared with a destination exactly by grants. */
module StoreAuthority {
  import opened Bytes
  import opened StoreTables
  import opened StoreTombstones
  import opened StoreSharing
  import opened StoreHarness
  import opened StoreSteps

  predicate Shared(t: Tables, id: Id, r: Remote) {
    id in t.interactions && (id, r) in t.shares
  }

  /** The stored rows a step deletes or suppresses. */
  function Deleted(t: Tables, s: Step): set<Id> {
    match s
    case Replace(request, cs) => if cs == [] then {} else OfRequest(t, request)
    case Delete(request) => OfRequest(t, request)
    case Import(p) => Targets(p.tombstones)
    case Entomb(bs, _, _) => Targets(bs)
    case _ => {}
  }

  /** The step stores `id` anew. */
  ghost predicate NewRow(t: Tables, s: Step, id: Id) {
    id in Next(t, s).interactions && (id !in t.interactions || id in Deleted(t, s))
  }

  /** An explicit share that names the row's conversation and covers the row. */
  ghost predicate SharedExplicitly(t: Tables, s: Step, id: Id, r: Remote) {
    match s
    case ShareAll(c, d, _) => d == r && InConversation(t, id, c)
    case ShareSnapshot(c, d, ids, _) => d == r && id in ids && InConversation(t, id, c)
    case _ => false
  }

  /** A capture by a source that takes part in its conversation's future sharing, while that is on. */
  ghost predicate SharedByPolicy(t: Tables, s: Step, id: Id, r: Remote) {
    NewRow(t, s, id) && Inherits(Next(t, s).interactions[id].source)
    && FutureOn(t, Next(t, s).interactions[id].conversation, r)
  }

  ghost predicate Granted(t: Tables, s: Step, id: Id, r: Remote) {
    Apply(t, s).Ok? && (SharedExplicitly(t, s, id, r) || SharedByPolicy(t, s, id, r))
  }

  ghost predicate Revoked(t: Tables, s: Step, id: Id, r: Remote) {
    Apply(t, s).Ok? &&
    (id in Deleted(t, s) || (s.UnshareAll? && s.destination == r && InConversation(t, id, s.conversation)))
  }

  /** One of the captures stores the id again, from a source and in a conversation that share it
      with that destination anyway. */
  ghost predicate SharesAgain(t: Tables, cs: seq<Capture>, id: Id, r: Remote) {
    exists c :: c in cs && c.id == id && Inherits(c.row.source) && FutureOn(t, c.row.conversation, r)
  }

  ghost predicate AllShareAgain(t: Tables, gone: set<Id>, cs: seq<Capture>) {
    forall p :: p in t.shares && p.0 in gone ==> SharesAgain(t, cs, p.0, p.1)
  }

  /** The deletions by request, which leave share rows behind: of a row that goes, every share row
      is one a capture of the same replacement would get. */
  ghost predicate Clean(t: Tables, s: Step) {
    Apply(t, s).Ok? ==>
      match s
      case Replace(request, cs) => cs == [] || AllShareAgain(t, OfRequest(t, request), cs)
      case Delete(request) => AllShareAgain(t, OfRequest(t, request), [])
      case _ => true
  }

  // --- One step ---

  /** The step leaves the share of one row as its grants and withdrawals say. */
  ghost predicate AsGranted(t: Tables, s: Step, id: Id, r: Remote) {
    Shared(Next(t, s), id, r) <==> Granted(t, s, id, r) || (Shared(t, id, r) && !Revoked(t, s, id, r))
  }

  /** What one step must do: every row as granted, and no share row left that a later row of that id
      would find. */
  ghost predicate Accounted(t: Tables, s: Step) {
    OrphanFree(Next(t, s)) && forall id, r :: AsGranted(t, s, id, r)
  }

  lemma GrowthIsAccounted(t: Tables, s: Step)
    requires OrphanFree(t) && Sound(Next(t, s)) && Apply(t, s).Ok? && Deleted(t, s) == {}
    requires s.Record? || s.Harness?
    requires exists m: Tables :: Grown(t, m) && Next(t, s) == m.(cursors := Next(t, s).cursors)
    ensures Accounted(t, s)
  {
    hide Apply, Next, Deleted;
    var m :| Grown(t, m) && Next(t, s) == m.(cursors := Next(t, s).cursors);
    forall id, r ensures AsGranted(t, s, id, r) {
      assert (id, r) in m.shares <==> (id, r) in t.shares || SharedByFuture(t, m, id, r);
    }
    forall p | p in Next(t, s).shares
      ensures p.0 in Next(t, s).interactions || LocallyTombstoned(Next(t, s), p.0)
    {
      assert (p.0, p.1) in m.shares;
    }
  }

  lemma RecordIsAccounted(t: Tables, c: Capture)
    requires Sound(t) && OrphanFree(t) && Insert(t, c).Ok?
    ensures Accounted(t, Record(c))
  {
    InsertGrows(t, c);
    StepIsSound(t, Record(c));
    assert Next(t, Record(c)) == Insert(t, c).value;
    hide Accounted, Insert, Sound, OrphanFree, Grown;
    GrowthIsAccounted(t, Record(c));
  }

  lemma HarnessIsAccounted(t: Tables, batch: seq<Outcome>, session: (Text, Text), cursor: Cursor)
    requires Sound(t) && OrphanFree(t) && cursor.offset <= MAX_OFFSET
    ensures Accounted(t, Harness(batch, session, cursor))
  {
    hide Accounted, IngestAll, Sound, OrphanFree, Grown, LostSkips, Offers;
    var s := Harness(batch, session, cursor);
    var m := IngestAll(t, LostSkips(batch), Offers(batch)).tables;
    IngestGrows(t, LostSkips(batch), Offers(batch));
    StepIsSound(t, s);
    assert Next(t, s) == m.(cursors := Next(t, s).cursors);
    GrowthIsAccounted(t, s);
  }

  predicate DeletesBy(s: Step, request: Text) {
    s == Delete(request) || (s.Replace? && s.request == request && s.captures != [])
  }

  /** A row the request does not name is shared as granted. */
  lemma OthersAreAccounted(t: Tables, request: Text, u: Tables, s: Step, id: Id, r: Remote)
    requires OrphanFree(t) && DeletesBy(s, request) && id !in OfRequest(t, request)
    requires DeleteRequest(t, request).Ok? && Grown(DeleteRequest(t, request).value, u)
    requires Apply(t, s) == Ok(u) && Sound(u)
    ensures AsGranted(t, s, id, r)
  {
    hide Apply;
    var m := DeleteRequest(t, request).value;
    assert Deleted(t, s) == OfRequest(t, request) && Next(t, s) == u;
    assert (id, r) in u.shares <==> (id, r) in m.shares || SharedByFuture(m, u, id, r);
  }

  /** A row the request names is, when it is stored again with its share row left, shared as granted
      exactly when its capture shares it again. */
  lemma GoneRowIsAccounted(t: Tables, request: Text, cs: seq<Capture>, u: Tables, s: Step, id: Id, r: Remote)
    requires DeletesBy(s, request) && id in OfRequest(t, request)
    requires DeleteRequest(t, request).Ok? && Grown(DeleteRequest(t, request).value, u)
    requires Stores(DeleteRequest(t, request).value, cs, u) && Apply(t, s) == Ok(u)
    ensures AsGranted(t, s, id, r) <==> (id in u.interactions && (id, r) in t.shares ==> SharesAgain(t, cs, id, r))
    ensures SharesAgain(t, cs, id, r) ==> id in u.interactions
  {
    hide Apply;
    var m := DeleteRequest(t, request).value;
    assert Deleted(t, s) == OfRequest(t, request) && Next(t, s) == u;
    assert (id, r) in u.shares <==> (id, r) in m.shares || SharedByFuture(m, u, id, r);
    assert SharesAgain(t, cs, id, r) <==> SharedByFuture(m, u, id, r);
  }

  /** What is left of the share rows once the request's rows are gone. */
  lemma OrphansLeft(t: Tables, request: Text, u: Tables)
    requires Sound(t) && OrphanFree(t)
    requires DeleteRequest(t, request).Ok? && Grown(DeleteRequest(t, request).value, u)
    ensures OrphanFree(u) <==> forall p :: p in t.shares && p.0 in OfRequest(t, request) ==> p.0 in u.interactions
  {
    var m := DeleteRequest(t, request).value;
    forall id, r ensures (id, r) in u.shares <==> (id, r) in t.shares || SharedByFuture(m, u, id, r) {
    }
    if OrphanFree(u) {
      forall p | p in t.shares && p.0 in OfRequest(t, request) ensures p.0 in u.interactions {
        assert (p.0, p.1) in u.shares;
      }
    }
    if forall p :: p in t.shares && p.0 in OfRequest(t, request) ==> p.0 in u.interactions {
      forall p | p in u.shares ensures p.0 in u.interactions || LocallyTombstoned(u, p.0) {
        assert (p.0, p.1) in u.shares;
      }
    }
  }

  /** Deletion by request, then insertions: as it must be exactly when every share row left behind is
      one its new row would get. */
  lemma DeletionIsAccountedIff(t: Tables, request: Text, cs: seq<Capture>, u: Tables, s: Step)
    requires Sound(t) && OrphanFree(t) && DeletesBy(s, request)
    requires DeleteRequest(t, request).Ok? && Grown(DeleteRequest(t, request).value, u)
    requires Stores(DeleteRequest(t, request).value, cs, u) && Apply(t, s) == Ok(u) && Sound(u)
    ensures Accounted(t, s) <==> AllShareAgain(t, OfRequest(t, request), cs)
  {
    hide Apply, Sound, OrphanFree, Grown, Stores, DeletesBy, AsGranted, SharesAgain, DeleteRequest;
    var gone := OfRequest(t, request);
    assert Next(t, s) == u;
    OrphansLeft(t, request, u);
    forall id, r
      ensures id !in gone ==> AsGranted(t, s, id, r)
      ensures id in gone ==>
        (AsGranted(t, s, id, r) <==> (id in u.interactions && (id, r) in t.shares ==> SharesAgain(t, cs, id, r)))
      ensures id in gone && SharesAgain(t, cs, id, r) ==> id in u.interactions
    {
      if id in gone {
        GoneRowIsAccounted(t, request, cs, u, s, id, r);
      } else {
        OthersAreAccounted(t, request, u, s, id, r);
      }
    }
    if Accounted(t, s) {
      forall p | p in t.shares && p.0 in gone ensures SharesAgain(t, cs, p.0, p.1) {
        assert AsGranted(t, s, p.0, p.1);
      }
    }
  }

  lemma DeletionIsAccounted(t: Tables, s: Step)
    requires Sound(t) && OrphanFree(t) && Apply(t, s).Ok? && (s.Delete? || (s.Replace? && s.captures != []))
    ensures Accounted(t, s) <==> Clean(t, s)
  {
    hide Accounted, DeleteRequest, InsertAll, OrphanFree, Grown, Sound, AllShareAgain;
    StoresNothing(t, s.request);
    StepIsSound(t, s);
    var m := DeleteRequest(t, s.request).value;
    if s.Delete? {
      GrownNot(m);
      DeletionIsAccountedIff(t, s.request, [], m, s);
    } else {
      InsertAllGrows(m, s.captures);
      InsertAllStores(m, s.captures);
      DeletionIsAccountedIff(t, s.request, s.captures, InsertAll(m, s.captures).value, s);
    }
  }

  lemma StoresNothing(t: Tables, request: Text)
    requires DeleteRequest(t, request).Ok?
    ensures Stores(DeleteRequest(t, request).value, [], DeleteRequest(t, request).value)
  {
  }

  lemma NoChange(t: Tables, s: Step)
    requires Apply(t, s).Refused? || (s.Replace? && s.captures == [])
    ensures Next(t, s) == t && (Apply(t, s).Ok? ==> s.Replace? && s.captures == [])
  {
  }

  lemma NothingIsAccounted(t: Tables, s: Step)
    requires OrphanFree(t) && Next(t, s) == t && (Apply(t, s).Ok? ==> s.Replace? && s.captures == [])
    ensures Accounted(t, s)
  {
    hide Apply, Next;
  }

  /** Tombstones, then insertions, then changes to other tables. */
  lemma BuryThenGrow(t: Tables, targets: set<Id>, m: Tables, u: Tables, v: Tables, s: Step)
    requires OrphanFree(t) && OrphanFree(m) && Deleted(t, s) == targets && (s.Import? || s.Entomb?)
    requires Buried(t, targets, m) && Grown(m, u)
    requires v.interactions == u.interactions && v.shares == u.shares && v.tombstones == u.tombstones
    requires Apply(t, s) == Ok(v) && Sound(v)
    ensures Accounted(t, s)
  {
    hide Apply, Deleted, Buried, AsGranted, OrphanFree, Sound, Grown;
    assert Next(t, s) == v;
    forall id, r ensures AsGranted(t, s, id, r) { RowAfterBurial(t, targets, m, u, v, s, id, r); }
    OrphansGrown(m, u, v);
  }

  lemma WhatIsBuried(t: Tables, targets: set<Id>, m: Tables)
    requires Buried(t, targets, m)
    ensures m.interactions.Keys == t.interactions.Keys - targets && m.futures == t.futures
    ensures forall p :: p in m.shares <==> p in t.shares && p.0 !in targets
  {
  }

  lemma RowAfterBurial(t: Tables, targets: set<Id>, m: Tables, u: Tables, v: Tables, s: Step, id: Id, r: Remote)
    requires OrphanFree(t) && OrphanFree(m) && Deleted(t, s) == targets && (s.Import? || s.Entomb?)
    requires Buried(t, targets, m) && Grown(m, u)
    requires v.interactions == u.interactions && v.shares == u.shares && v.tombstones == u.tombstones
    requires Apply(t, s) == Ok(v) && Sound(v)
    ensures AsGranted(t, s, id, r)
  {
    hide Apply, Deleted, Buried;
    assert Next(t, s) == v;
    WhatIsBuried(t, targets, m);
    assert (id, r) in u.shares <==> (id, r) in m.shares || SharedByFuture(m, u, id, r);
    if (id, r) in m.shares { assert id in m.interactions || LocallyTombstoned(m, id); }
  }

  lemma OrphansGrown(m: Tables, u: Tables, v: Tables)
    requires OrphanFree(m) && Grown(m, u)
    requires v.interactions == u.interactions && v.shares == u.shares && v.tombstones == u.tombstones
    ensures OrphanFree(v)
  {
    forall p | p in v.shares ensures p.0 in v.interactions || LocallyTombstoned(v, p.0) {
      assert (p.0, p.1) in u.shares;
    }
  }

  lemma SuppressionIsAccounted(t: Tables, s: Step)
    requires Sound(t) && OrphanFree(t) && Apply(t, s).Ok? && (s.Import? || s.Entomb?)
    ensures Accounted(t, s)
  {
    hide Accounted, ApplyTombstones, InsertAll, RelateAll, Admitted, OrphanFree, Grown, Buried, Sound;
    StepIsSound(t, s);
    if s.Entomb? {
      var m := ApplyTombstones(t, s.tombstones, s.synced, s.remote).value;
      TombstonesBury(t, s.tombstones, s.synced, s.remote);
      TombstonesAreSound(t, s.tombstones, s.synced, s.remote);
      GrownNot(m);
      BuryThenGrow(t, Targets(s.tombstones), m, m, m, s);
    } else {
      var p := s.pull;
      var m := ApplyTombstones(t, p.tombstones, true, p.remote).value;
      TombstonesBury(t, p.tombstones, true, p.remote);
      TombstonesAreSound(t, p.tombstones, true, p.remote);
      var cs := Admitted(m, p.captures, p.remote);
      var u := InsertAll(m, cs).value;
      InsertAllGrows(m, cs);
      BuryThenGrow(t, Targets(p.tombstones), m, u, ImportPull(t, p).value, s);
    }
  }

  /** Steps that leave the rows alone, and give `r` the share rows of `given` or take those of `taken`. */
  lemma SameRowsAccounted(t: Tables, s: Step, u: Tables, given: set<(Id, Remote)>, taken: set<(Id, Remote)>)
    requires OrphanFree(t) && Apply(t, s) == Ok(u) && Deleted(t, s) == {}
    requires u.interactions == t.interactions && u.tombstones == t.tombstones && u.shares == t.shares + given - taken
    requires forall id, r :: (id, r) in given <==> SharedExplicitly(t, s, id, r)
    requires forall id, r :: (id, r) in taken <==>
      s.UnshareAll? && s.destination == r && InConversation(t, id, s.conversation)
    requires given == {} || taken == {}
    requires forall p :: p in given ==> p.0 in t.interactions
    ensures Accounted(t, s)
  {
    hide Apply, Deleted, SharedExplicitly;
    assert Next(t, s) == u;
    forall id, r ensures AsGranted(t, s, id, r) {
      assert !SharedByPolicy(t, s, id, r);
    }
  }

  lemma NamedRows(t: Tables, c: Conversation, d: Remote)
    ensures forall id, r :: (id, r) in ShareRows(Rows(t, c), d) <==> d == r && InConversation(t, id, c)
    ensures forall p :: p in ShareRows(Rows(t, c), d) ==> p.0 in t.interactions
  {
  }

  lemma GivenRows(t: Tables, c: Conversation, d: Remote, ids: seq<Id>)
    requires forall id :: id in ids ==> id in Rows(t, c)
    ensures forall id, r :: (id, r) in ShareRows(AsSet(ids), d) <==> d == r && id in ids && InConversation(t, id, c)
    ensures forall p :: p in ShareRows(AsSet(ids), d) ==> p.0 in t.interactions
  {
  }

  lemma SharingIsAccounted(t: Tables, s: Step)
    requires OrphanFree(t) && Apply(t, s).Ok?
    requires s.ShareAll? || s.ShareSnapshot? || s.UnshareAll? || s.MarkAll? || s.ClearAll? || s.Relate?
    ensures Accounted(t, s)
  {
    hide Accounted, OrphanFree, IsBlocked, Marked, Rows, ShareRows, AsSet, Mark, Clear, InConversation;
    match s
    case ShareAll(c, d, _) =>
      NamedRows(t, c, d);
      NoneTaken(t.shares + ShareRows(Rows(t, c), d));
      SameRowsAccounted(t, s, Next(t, s), ShareRows(Rows(t, c), d), {});
    case ShareSnapshot(c, d, ids, _) =>
      GivenRows(t, c, d, ids);
      NoneTaken(t.shares + ShareRows(AsSet(ids), d));
      SameRowsAccounted(t, s, Next(t, s), ShareRows(AsSet(ids), d), {});
    case UnshareAll(c, d) =>
      NamedRows(t, c, d);
      NoneTaken(t.shares);
      SameRowsAccounted(t, s, Next(t, s), {}, ShareRows(Rows(t, c), d));
    case _ =>
      OtherTables(t, s);
      NoneTaken(t.shares);
      SameRowsAccounted(t, s, Next(t, s), {}, {});
  }

  lemma NoneTaken(shares: set<(Id, Remote)>)
    ensures shares - {} == shares && shares + {} == shares
  {
  }

  lemma OtherTables(t: Tables, s: Step)
    requires Apply(t, s).Ok? && (s.MarkAll? || s.ClearAll? || s.Relate?)
    ensures Next(t, s).interactions == t.interactions && Next(t, s).tombstones == t.tombstones
    ensures Next(t, s).shares == t.shares
  {
  }

  /** One step shares exactly what it grants and what was shared and is not revoked, and leaves no
      other share row, if and only if it is clean. */
  lemma StepIsAccounted(t: Tables, s: Step)
    requires Sound(t) && OrphanFree(t)
    ensures Accounted(t, s) <==> Clean(t, s)
  {
    hide Accounted, Sound, OrphanFree, AllShareAgain, Insert, ImportPull, ReplaceRequest, DeleteRequest, ApplyTombstones;
    if Apply(t, s).Refused? || (s.Replace? && s.captures == []) {
      NoChange(t, s);
      NothingIsAccounted(t, s);
    } else {
      match s
      case Record(c) => RecordIsAccounted(t, c);
      case Harness(batch, session, cursor) => HarnessIsAccounted(t, batch, session, cursor);
      case Replace(_, _) => DeletionIsAccounted(t, s);
      case Delete(_) => DeletionIsAccounted(t, s);
      case Import(_) => SuppressionIsAccounted(t, s);
      case Entomb(_, _, _) => SuppressionIsAccounted(t, s);
      case _ => SharingIsAccounted(t, s);
    }
  }
}
