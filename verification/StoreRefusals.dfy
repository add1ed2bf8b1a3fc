/** What a refused transaction answers: for a batch, what is wrong with the first of it that cannot be taken. */
module StoreRefusals {
  import opened Bytes
  import opened StoreTables
  import opened StoreTombstones
  import opened StoreSharing
  import opened StoreHarness
  import opened StoreSteps
  import opened StoreEffects

  /** Capture `i` is the first that cannot be stored, for this reason: its tombstone, its id, or else its parent. */
  ghost predicate StoreRefused(t: Tables, cs: seq<Capture>, i: nat, why: Refusal) {
    && i < |cs| && !CanStore(t, cs, i) && (forall j: nat :: j < i ==> CanStore(t, cs, j))
    && why == if (cs[i].id, Local) in t.tombstones then Tombstoned
              else if cs[i].id in t.interactions || exists j :: 0 <= j < i && cs[j].id == cs[i].id then AlreadyStored
              else ForeignKey
  }

  lemma {:induction false} FirstStoreRefused(t: Tables, cs: seq<Capture>)
    ensures InsertAll(t, cs).Refused? ==> exists i: nat :: StoreRefused(t, cs, i, InsertAll(t, cs).why)
  {
    hide Insert, CanStore, StoreRefused, StoresBatch, CanStoreAll;
    if cs != [] && InsertAll(t, cs).Refused? {
      var init, c := cs[..|cs| - 1], cs[|cs| - 1];
      FirstStoreRefused(t, init);
      if InsertAll(t, init).Refused? {
        var i: nat :| StoreRefused(t, init, i, InsertAll(t, cs).why);
        StoreRefusedStays(t, cs, i, InsertAll(t, cs).why);
      } else {
        StoredExactlyWhen(t, init);
        LastStoreRefused(t, cs, InsertAll(t, init).value, InsertAll(t, cs).why);
      }
    }
  }

  lemma StoreRefusedStays(t: Tables, cs: seq<Capture>, i: nat, why: Refusal)
    requires cs != [] && StoreRefused(t, cs[..|cs| - 1], i, why)
    ensures StoreRefused(t, cs, i, why)
  {
    var init := cs[..|cs| - 1];
    forall k: nat | k < |init| ensures CanStore(t, cs, k) <==> CanStore(t, init, k) {
      assert forall j :: 0 <= j < k ==> init[j] == cs[j];
    }
    assert forall j :: 0 <= j < |init| ==> init[j] == cs[j];
    hide CanStore;
  }

  lemma LastStoreRefused(t: Tables, cs: seq<Capture>, m: Tables, why: Refusal)
    requires cs != [] && CanStoreAll(t, cs[..|cs| - 1]) && StoresBatch(t, cs[..|cs| - 1], m)
    requires Insert(m, cs[|cs| - 1]) == Refused(why)
    ensures StoreRefused(t, cs, |cs| - 1, why)
  {
    hide CanStore, Grown, Stores;
    var init, c, n := cs[..|cs| - 1], cs[|cs| - 1], |cs| - 1;
    StoredGrows(t, init, m);
    InsertExactlyWhen(t, cs, m);
    CanStoreEach(t, cs);
    GrownKeeps(t, m);
    StoredIds(t, cs, m);
  }

  lemma StoredGrows(t: Tables, cs: seq<Capture>, m: Tables)
    requires StoresBatch(t, cs, m)
    ensures Grown(t, m) && Stores(t, cs, m)
  {
  }

  lemma CanStoreEach(t: Tables, cs: seq<Capture>)
    requires cs != [] && CanStoreAll(t, cs[..|cs| - 1])
    ensures forall j: nat :: j < |cs| - 1 ==> CanStore(t, cs, j)
  {
    var init := cs[..|cs| - 1];
    forall k: nat | k < |init| ensures CanStore(t, cs, k) {
      assert CanStore(t, init, k);
      assert forall j :: 0 <= j < k ==> init[j] == cs[j];
    }
  }

  lemma StoredIds(t: Tables, cs: seq<Capture>, m: Tables)
    requires cs != [] && Grown(t, m) && Stores(t, cs[..|cs| - 1], m)
    ensures var id, n := cs[|cs| - 1].id, |cs| - 1;
      id in m.interactions <==> id in t.interactions || exists j :: 0 <= j < n && cs[j].id == id
  {
    var init, id, n := cs[..|cs| - 1], cs[|cs| - 1].id, |cs| - 1;
    assert forall j :: 0 <= j < n ==> cs[j] == init[j] && init[j] in init;
    if x :| x in init && x.id == id {
      var j :| 0 <= j < n && init[j] == x;
    }
  }

  /** Tombstone `i` is the first that cannot be applied: it conflicts with one stored or listed before for its target, or else
      is of no known format. */
  ghost predicate BuryRefused(t: Tables, bs: seq<Tombstone>, remote: Option<Remote>, i: nat, why: Refusal) {
    && i < |bs| && !CanBury(t, bs, remote, i) && (forall j: nat :: j < i ==> CanBury(t, bs, remote, j))
    && why == if (bs[i].id, ScopeOf(remote)) in t.tombstones || exists j :: 0 <= j < i && bs[j].id == bs[i].id
              then TombstoneConflict else BadTombstone
  }

  lemma {:induction false} FirstBuryRefused(t: Tables, bs: seq<Tombstone>, synced: bool, remote: Option<Remote>)
    ensures var r := ApplyTombstones(t, bs, synced, remote);
      r.Refused? ==> exists i: nat :: BuryRefused(t, bs, remote, i, r.why)
  {
    hide Bury, Remove, Graves, CanBury, BuryRefused, CanBuryAll;
    var r := ApplyTombstones(t, bs, synced, remote);
    if bs != [] && r.Refused? {
      var init, b := bs[..|bs| - 1], bs[|bs| - 1];
      FirstBuryRefused(t, init, synced, remote);
      if ApplyTombstones(t, init, synced, remote).Refused? {
        var i: nat :| BuryRefused(t, init, remote, i, r.why);
        BuryRefusedStays(t, bs, remote, i, r.why);
      } else {
        BuriedExactlyWhen(t, init, synced, remote);
        LastBuryRefused(t, bs, synced, remote, ApplyTombstones(t, init, synced, remote).value, r.why);
      }
    }
  }

  lemma BuryRefusedStays(t: Tables, bs: seq<Tombstone>, remote: Option<Remote>, i: nat, why: Refusal)
    requires bs != [] && BuryRefused(t, bs[..|bs| - 1], remote, i, why)
    ensures BuryRefused(t, bs, remote, i, why)
  {
    var init := bs[..|bs| - 1];
    forall k: nat | k < |init| ensures CanBury(t, bs, remote, k) <==> CanBury(t, init, remote, k) {
      assert forall j :: 0 <= j < k ==> init[j] == bs[j];
    }
    assert forall j :: 0 <= j < |init| ==> init[j] == bs[j];
    hide CanBury;
  }

  lemma LastBuryRefused(t: Tables, bs: seq<Tombstone>, synced: bool, remote: Option<Remote>, m: Tables, why: Refusal)
    requires bs != [] && CanBuryAll(t, bs[..|bs| - 1], remote) && Graves(t, bs[..|bs| - 1], synced, remote, m)
    requires Bury(m, bs[|bs| - 1], synced, remote) == Refused(why)
    ensures BuryRefused(t, bs, remote, |bs| - 1, why)
  {
    hide CanBury, GraveAt;
    var init, b, n := bs[..|bs| - 1], bs[|bs| - 1], |bs| - 1;
    GraveBefore(t, bs, synced, remote, m);
    CanBuryEach(t, bs, remote);
    BuriedIds(t, bs, synced, remote, m);
  }

  lemma CanBuryEach(t: Tables, bs: seq<Tombstone>, remote: Option<Remote>)
    requires bs != [] && CanBuryAll(t, bs[..|bs| - 1], remote)
    ensures forall j: nat :: j < |bs| - 1 ==> CanBury(t, bs, remote, j)
  {
    var init := bs[..|bs| - 1];
    forall k: nat | k < |init| ensures CanBury(t, bs, remote, k) {
      assert CanBury(t, init, remote, k);
      assert forall j :: 0 <= j < k ==> init[j] == bs[j];
    }
  }

  lemma BuriedIds(t: Tables, bs: seq<Tombstone>, synced: bool, remote: Option<Remote>, m: Tables)
    requires bs != [] && Graves(t, bs[..|bs| - 1], synced, remote, m)
    ensures var key, n := (bs[|bs| - 1].id, ScopeOf(remote)), |bs| - 1;
      key in m.tombstones <==> key in t.tombstones || exists j :: 0 <= j < n && bs[j].id == key.0
  {
    hide IsFirst;
    var init, key, n := bs[..|bs| - 1], (bs[|bs| - 1].id, ScopeOf(remote)), |bs| - 1;
    assert GraveAt(t, init, synced, remote, m.tombstones, key);
    assert forall j :: 0 <= j < n ==> bs[j] == init[j] && init[j] in init;
    if key.0 in Targets(init) {
      var b :| b in init && b.id == key.0;
      var j :| 0 <= j < n && init[j] == b;
    }
  }

  /** Capture `i` of a pull is the first that can neither be stored nor is stopped. */
  ghost predicate PullRefused(t: Tables, cs: seq<Capture>, remote: Option<Remote>, i: nat, why: Refusal) {
    && i < |cs| && !CanPull(t, cs, remote, i) && (forall j: nat :: j < i ==> CanPull(t, cs, remote, j))
    && why == if cs[i].id in t.interactions || exists j :: 0 <= j < i && cs[j].id == cs[i].id then AlreadyStored else ForeignKey
  }

  lemma {:induction false} FirstPullRefused(t: Tables, cs: seq<Capture>, remote: Option<Remote>)
    ensures var r := InsertAll(t, Admitted(t, cs, remote));
      r.Refused? ==> exists i: nat :: PullRefused(t, cs, remote, i, r.why)
  {
    hide Insert, Pulled, CanPull, Imported, InsertAll, Admitted, CanPullAll, Stops, PullRefused;
    var r := InsertAll(t, Admitted(t, cs, remote));
    if cs == [] {
      NothingPulled(t, remote);
    } else if r.Refused? {
      var init, c := cs[..|cs| - 1], cs[|cs| - 1];
      var before := InsertAll(t, Admitted(t, init, remote));
      FirstPullRefused(t, init, remote);
      AdmittedOne(t, cs, remote);
      if before.Refused? {
        var i: nat :| PullRefused(t, init, remote, i, r.why);
        PullRefusedStays(t, cs, remote, i, r.why);
      } else {
        PulledExactlyWhen(t, init, remote);
        LastPullRefused(t, cs, remote, before.value, r.why);
      }
    }
  }

  lemma PullRefusedStays(t: Tables, cs: seq<Capture>, remote: Option<Remote>, i: nat, why: Refusal)
    requires cs != [] && PullRefused(t, cs[..|cs| - 1], remote, i, why)
    ensures PullRefused(t, cs, remote, i, why)
  {
    hide Brought, Stops;
    var init := cs[..|cs| - 1];
    forall k: nat | k < |init| ensures CanPull(t, cs, remote, k) <==> CanPull(t, init, remote, k) {
      assert init[..k] == cs[..k];
      assert forall j :: 0 <= j < k ==> init[j] == cs[j];
    }
    assert forall j :: 0 <= j < |init| ==> init[j] == cs[j];
    hide CanPull;
  }

  lemma LastPullRefused(t: Tables, cs: seq<Capture>, remote: Option<Remote>, m: Tables, why: Refusal)
    requires cs != [] && CanPullAll(t, cs[..|cs| - 1], remote) && Pulled(t, cs[..|cs| - 1], remote, m)
    requires !Stops(t, cs[|cs| - 1].id, remote) && Insert(m, Imported(cs[|cs| - 1], remote)) == Refused(why)
    ensures PullRefused(t, cs, remote, |cs| - 1, why)
  {
    hide CanPull, Grown, Brought;
    var init, c, n := cs[..|cs| - 1], cs[|cs| - 1], |cs| - 1;
    PullExactlyWhen(t, cs, remote, m);
    CanPullEach(t, cs, remote);
    SameGravesGrown(t, m);
    BroughtBefore(t, cs, remote);
  }

  lemma CanPullEach(t: Tables, cs: seq<Capture>, remote: Option<Remote>)
    requires cs != [] && CanPullAll(t, cs[..|cs| - 1], remote)
    ensures forall j: nat :: j < |cs| - 1 ==> CanPull(t, cs, remote, j)
  {
    hide Brought, Stops;
    var init := cs[..|cs| - 1];
    forall k: nat | k < |init| ensures CanPull(t, cs, remote, k) {
      assert CanPull(t, init, remote, k);
      assert init[..k] == cs[..k];
      assert forall j :: 0 <= j < k ==> init[j] == cs[j];
    }
  }

  /** Event `i` of a pull is the first that does not check, or conflicts. */
  ghost predicate RelateRefused(t: Tables, es: seq<Incoming>, remote: Option<Remote>, i: nat, why: Refusal) {
    && i < |es| && !CanRelate(t, es, remote, i) && (forall j: nat :: j < i ==> CanRelate(t, es, remote, j))
    && why == if es[i].valid then EventConflict else InvalidEvent
  }

  lemma {:induction false} FirstRelateRefused(t: Tables, es: seq<Incoming>, remote: Option<Remote>)
    ensures var r := RelateAll(t, es, remote);
      r.Refused? ==> exists i: nat :: RelateRefused(t, es, remote, i, r.why)
  {
    hide RelatePulled, CanRelate, Related, Stops, RelateRefused, CanRelateAll;
    var r := RelateAll(t, es, remote);
    if es != [] && r.Refused? {
      var init, e := es[..|es| - 1], es[|es| - 1];
      FirstRelateRefused(t, init, remote);
      if RelateAll(t, init, remote).Refused? {
        var i: nat :| RelateRefused(t, init, remote, i, r.why);
        RelateRefusedStays(t, es, remote, i, r.why);
      } else {
        RelatedExactlyWhen(t, init, remote);
        LastRelateRefused(t, es, remote, RelateAll(t, init, remote).value, r.why);
      }
    }
  }

  lemma RelateRefusedStays(t: Tables, es: seq<Incoming>, remote: Option<Remote>, i: nat, why: Refusal)
    requires es != [] && RelateRefused(t, es[..|es| - 1], remote, i, why)
    ensures RelateRefused(t, es, remote, i, why)
  {
    hide Stops, Brings;
    var init := es[..|es| - 1];
    forall k: nat | k < |init| ensures CanRelate(t, es, remote, k) <==> CanRelate(t, init, remote, k) {
      assert forall j :: 0 <= j < k ==> init[j] == es[j];
    }
    hide CanRelate;
  }

  lemma LastRelateRefused(t: Tables, es: seq<Incoming>, remote: Option<Remote>, m: Tables, why: Refusal)
    requires es != [] && CanRelateAll(t, es[..|es| - 1], remote) && Related(t, es[..|es| - 1], remote, m.events)
    requires m == t.(events := m.events) && RelatePulled(m, es[|es| - 1], remote) == Refused(why)
    ensures RelateRefused(t, es, remote, |es| - 1, why)
  {
    hide CanRelate, RelatedAt;
    var e := es[|es| - 1];
    RelatesOne(t, m, e, remote);
    EventBefore(t, es, remote, m.events);
    CanRelateEach(t, es, remote);
  }

  lemma CanRelateEach(t: Tables, es: seq<Incoming>, remote: Option<Remote>)
    requires es != [] && CanRelateAll(t, es[..|es| - 1], remote)
    ensures forall j: nat :: j < |es| - 1 ==> CanRelate(t, es, remote, j)
  {
    hide Stops, Brings;
    var init := es[..|es| - 1];
    forall k: nat | k < |init| ensures CanRelate(t, es, remote, k) {
      assert CanRelate(t, init, remote, k);
      assert forall j :: 0 <= j < k ==> init[j] == es[j];
    }
  }

  /** The pull is refused for its first tombstone, or after these its first capture, or after these its
      first event, that cannot be taken. */
  ghost predicate ImportRefused(t: Tables, p: Pull, why: Refusal) {
    || (exists i: nat :: BuryRefused(t, p.tombstones, p.remote, i, why))
    || (exists m, i: nat :: IsBuried(t, p.tombstones, true, p.remote, m) && PullRefused(m, p.captures, p.remote, i, why))
    || (exists m, i: nat :: IsBuried(t, p.tombstones, true, p.remote, m) && CanPullAll(m, p.captures, p.remote)
                            && RelateRefused(m, p.events, p.remote, i, why))
  }

  /** Why a step is refused. */
  ghost predicate Refuses(t: Tables, s: Step, why: Refusal) {
    match s
    case Record(c) => StoreRefused(t, [c], 0, why)
    case Replace(request, cs) =>
      if exists c :: c in cs && c.row.request != Some(request) then why == RequestMismatch
      else if !CanDelete(t, request) then why == ForeignKey
      else exists i: nat :: StoreRefused(t.(interactions := Others(t, request)), cs, i, why)
    case Delete(_) => why == ForeignKey
    case Import(p) => ImportRefused(t, p, why)
    case Harness(_, _, _) => why == Overflow
    case Entomb(bs, _, remote) => exists i: nat :: BuryRefused(t, bs, remote, i, why)
    case ShareSnapshot(_, _, _, _) => why == Changed
    case UnshareAll(_, _) => why == Blocked
    case Relate(_, _) => why == EventConflict
    case _ => false
  }

  lemma ImportIsRefusedFor(t: Tables, p: Pull)
    requires ImportPull(t, p).Refused?
    ensures ImportRefused(t, p, ImportPull(t, p).why)
  {
    hide ApplyTombstones, InsertAll, Admitted, RelateAll, Mark, IsBuried, CanBury, CanPullAll, CanRelateAll, Pulled, Related,
      MarkedBy, Grown, BuryRefused, PullRefused, RelateRefused;
    var a := ApplyTombstones(t, p.tombstones, true, p.remote);
    FirstBuryRefused(t, p.tombstones, true, p.remote);
    if a.Ok? {
      var m := a.value;
      BuriesExactly(t, p.tombstones, true, p.remote);
      var b := InsertAll(m, Admitted(m, p.captures, p.remote));
      FirstPullRefused(m, p.captures, p.remote);
      if b.Ok? {
        PulledExactlyWhen(m, p.captures, p.remote);
        PulledGrows(m, p.captures, p.remote, b.value);
        GrownKeeps(m, b.value);
        FirstRelateRefused(b.value, p.events, p.remote);
        var i: nat :| RelateRefused(b.value, p.events, p.remote, i, ImportPull(t, p).why);
        SameRelateRefused(m, b.value, p.events, p.remote, i, ImportPull(t, p).why);
      }
    }
  }

  lemma SameRelateRefused(m: Tables, b: Tables, es: seq<Incoming>, remote: Option<Remote>, i: nat, why: Refusal)
    requires m.tombstones == b.tombstones && m.events == b.events
    ensures RelateRefused(m, es, remote, i, why) <==> RelateRefused(b, es, remote, i, why)
  {
    hide Stops;
    forall id ensures Stops(m, id, remote) <==> Stops(b, id, remote) { SameStops(m, b, id, remote); }
    forall j: nat | j < |es| ensures CanRelate(m, es, remote, j) <==> CanRelate(b, es, remote, j) { }
    hide CanRelate;
  }

  lemma ReplaceIsRefusedFor(t: Tables, request: Text, cs: seq<Capture>)
    requires ReplaceRequest(t, request, cs).Refused?
    ensures Refuses(t, Replace(request, cs), ReplaceRequest(t, request, cs).why)
  {
    hide InsertAll, DeleteRequest, CanDelete, StoreRefused, Others;
    DeletedExactlyWhen(t, request);
    DeleteRefusal(t, request);
    if DeleteRequest(t, request).Ok? { FirstStoreRefused(DeleteRequest(t, request).value, cs); }
  }

  lemma DeleteRefusal(t: Tables, request: Text)
    ensures DeleteRequest(t, request).Refused? ==> DeleteRequest(t, request).why == ForeignKey
  {
  }

  lemma RecordIsRefusedFor(t: Tables, c: Capture)
    requires Insert(t, c).Refused?
    ensures StoreRefused(t, [c], 0, Insert(t, c).why)
  {
    hide Insert, StoreRefused;
    OneCapture(t, c);
    FirstStoreRefused(t, [c]);
    var i: nat :| StoreRefused(t, [c], i, Insert(t, c).why);
    OnlyOne(t, c, i, Insert(t, c).why);
  }

  lemma OneCapture(t: Tables, c: Capture)
    ensures InsertAll(t, [c]) == Insert(t, c)
  {
    hide Insert;
    assert [c][..0] == [];
  }

  lemma OnlyOne(t: Tables, c: Capture, i: nat, why: Refusal)
    requires StoreRefused(t, [c], i, why)
    ensures i == 0
  {
  }

  /** What a refused transaction answers, exactly: for a batch, what is wrong with the first of it that cannot be taken. */
  lemma RefusalIsExact(t: Tables, s: Step)
    requires Apply(t, s).Refused?
    ensures Refuses(t, s, Apply(t, s).why)
  {
    hide Insert, DeleteRequest, ImportPull, ReplaceRequest, ApplyTombstones, Share, ShareExact, Unshare, Mark, Clear, IngestBatch,
      StoreRefused, BuryRefused, ImportRefused, CanDelete, Others;
    match s
    case Record(c) => RecordIsRefusedFor(t, c);
    case Replace(request, cs) => ReplaceIsRefusedFor(t, request, cs);
    case Delete(request) => DeleteRefusal(t, request);
    case Import(p) => ImportIsRefusedFor(t, p);
    case Entomb(bs, synced, remote) => FirstBuryRefused(t, bs, synced, remote);
    case _ => OtherRefusals(t, s);
  }

  lemma OtherRefusals(t: Tables, s: Step)
    requires Apply(t, s).Refused? && !(s.Record? || s.Replace? || s.Delete? || s.Import? || s.Entomb?)
    ensures Refuses(t, s, Apply(t, s).why)
  {
    hide IngestAll, Offers, LostSkips;
  }
}
