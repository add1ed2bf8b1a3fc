/** Tombstones: the event cascade as a least fixpoint, and what applying one changes. */
module StoreTombstones {
  import opened Bytes
  import opened StoreTables

  const FORMAT := "cvc.tombstone/v1"

  function LegacyKey(target: Id): Text {
    "legacy:" + target + ":"
  }

  /** The events a tombstone removes outright: the target's own, and those citing its legacy links. */
  predicate Seed(e: Event, target: Id) {
    e.interaction == target || exists i :: 0 <= i < |e.sources| && LegacyKey(target) <= e.sources[i]
  }

  predicate Cites(e: Event, removed: set<Text>)
    ensures Cites(e, removed) <==> exists x :: x in e.sources && x in removed
  {
    exists i :: 0 <= i < |e.sources| && e.sources[i] in removed
  }

  /** A seed is an event of the target, or one that cites its legacy links among its sources. */
  lemma SeedIs(e: Event, target: Id)
    ensures Seed(e, target) <==>
      e.interaction == target || exists x :: x in e.sources && StartsWith(x, "legacy:" + target + ":")
  {
    if x :| x in e.sources && StartsWith(x, "legacy:" + target + ":") {
      var i :| 0 <= i < |e.sources| && e.sources[i] == x;
      assert LegacyKey(target) <= e.sources[i];
    }
    if i :| 0 <= i < |e.sources| && LegacyKey(target) <= e.sources[i] {
      assert StartsWith(e.sources[i], "legacy:" + target + ":");
    }
  }

  ghost predicate StartsWith(t: Text, start: Text) {
    |start| <= |t| && t[..|start|] == start
  }

  /** A set of events that holds every seed and every event citing one of its members. */
  ghost predicate ClosedOver(events: map<Text, Event>, target: Id, s: set<Text>) {
    && (forall k :: k in events && Seed(events[k], target) ==> k in s)
    && (forall k :: k in events && Cites(events[k], s) ==> k in s)
  }

  /** The least such set. */
  ghost predicate IsCascade(events: map<Text, Event>, target: Id, s: set<Text>) {
    && s <= events.Keys
    && ClosedOver(events, target, s)
    && forall other: set<Text> :: ClosedOver(events, target, other) ==> s <= other
  }

  function Grow(events: map<Text, Event>, s: set<Text>): set<Text>
    requires s <= events.Keys
    decreases |events.Keys - s|
  {
    var next := s + set k | k in events && Cites(events[k], s);
    if next == s then s
    else
      assert events.Keys - next < events.Keys - s by {
        var k :| k in next && k !in s;
        assert k in events.Keys - s;
      }
      Smaller(events.Keys - next, events.Keys - s);
      Grow(events, next)
  }

  lemma Smaller<T>(a: set<T>, b: set<T>)
    requires a < b
    ensures |a| < |b|
  {
    assert |b - a| > 0;
    assert b == a + (b - a);
  }

  lemma SameSize<T>(a: set<T>, b: set<T>)
    requires a <= b && |a| == |b|
    ensures a == b
  {
    if a != b { Smaller(a, b); }
  }

  function Seeds(events: map<Text, Event>, target: Id): set<Text> {
    set k | k in events && Seed(events[k], target)
  }

  /** The events a tombstone for `target` removes. */
  function Cascade(events: map<Text, Event>, target: Id): (s: set<Text>) {
    Grow(events, Seeds(events, target))
  }

  lemma {:induction false} GrowIsLeast(events: map<Text, Event>, s: set<Text>, other: set<Text>)
    requires s <= events.Keys
    ensures s <= Grow(events, s) <= events.Keys
    ensures forall k :: k in events && Cites(events[k], Grow(events, s)) ==> k in Grow(events, s)
    ensures s <= other && (forall k :: k in events && Cites(events[k], other) ==> k in other) ==>
      Grow(events, s) <= other
    decreases |events.Keys - s|
  {
    var next := s + set k | k in events && Cites(events[k], s);
    if next != s {
      var k :| k in next && k !in s;
      assert k in events.Keys - s && k !in events.Keys - next;
      Smaller(events.Keys - next, events.Keys - s);
      GrowIsLeast(events, next, other);
    } else {
      forall k | k in events && Cites(events[k], s) ensures k in s {
        assert k in next;
      }
    }
  }

  lemma CascadeIsLeast(events: map<Text, Event>, target: Id)
    ensures IsCascade(events, target, Cascade(events, target))
  {
    var s := Seeds(events, target);
    forall other: set<Text> | ClosedOver(events, target, other) ensures Cascade(events, target) <= other {
      GrowIsLeast(events, s, other);
    }
    GrowIsLeast(events, s, s);
  }

  /** `rows` lists the events, each once or more, in any order. */
  ghost predicate Lists(rows: seq<(Text, Event)>, events: map<Text, Event>) {
    && (forall i :: 0 <= i < |rows| ==> rows[i].0 in events && events[rows[i].0] == rows[i].1)
    && (forall k :: k in events ==> exists i :: 0 <= i < |rows| && rows[i].0 == k)
  }

  method SeedEvents(rows: seq<(Text, Event)>, target: Id, ghost events: map<Text, Event>) returns (removed: set<Text>)
    requires Lists(rows, events)
    ensures removed == Seeds(events, target)
  {
    hide Seed;
    removed := {};
    for i := 0 to |rows|
      invariant removed <= Seeds(events, target)
      invariant forall j :: 0 <= j < i && Seed(rows[j].1, target) ==> rows[j].0 in removed
    {
      if Seed(rows[i].1, target) { removed := removed + {rows[i].0}; }
    }
  }

  lemma PassesEnd(events: map<Text, Event>, target: Id, removed: set<Text>)
    requires Seeds(events, target) <= removed <= Cascade(events, target)
    requires forall k :: k in events && Cites(events[k], removed) ==> k in removed
    ensures removed == Cascade(events, target)
  {
    GrowIsLeast(events, Seeds(events, target), removed);
  }

  /** The loop of the store: passes over the rows, in the order they come, until one adds nothing. */
  method RemovedEvents(rows: seq<(Text, Event)>, target: Id, ghost events: map<Text, Event>)
    returns (removed: set<Text>)
    requires Lists(rows, events)
    ensures removed == Cascade(events, target)
  {
    hide Cites, Seed, Seeds, Cascade, Lists;
    ghost var seeds, all := Seeds(events, target), Cascade(events, target);
    CascadeIsLeast(events, target);
    removed := SeedEvents(rows, target, events);
    SeedsAreRemoved(events, target);
    var changed := true;
    while changed
      invariant seeds <= removed <= all
      invariant !changed ==> forall k :: k in events && Cites(events[k], removed) ==> k in removed
      decreases changed, |all - removed|
    {
      var before := removed;
      removed := OnePass(rows, removed, events, all, target);
      changed := |removed| != |before|;
      if changed {
        Closer(before, removed, all);
      } else {
        SameSize(before, removed);
      }
    }
    PassesEnd(events, target, removed);
  }

  lemma SeedsAreRemoved(events: map<Text, Event>, target: Id)
    ensures Seeds(events, target) <= Cascade(events, target)
  {
    GrowIsLeast(events, Seeds(events, target), {});
  }

  lemma Closer<T>(before: set<T>, after: set<T>, all: set<T>)
    requires before <= after <= all && |after| != |before|
    ensures |all - after| < |all - before|
  {
    assert before != after;
    var k :| k in after && k !in before;
    assert k in all - before && k !in all - after;
    Smaller(all - after, all - before);
  }

  method OnePass(rows: seq<(Text, Event)>, start: set<Text>, ghost events: map<Text, Event>,
                 ghost all: set<Text>, ghost target: Id)
    returns (removed: set<Text>)
    requires Lists(rows, events) && IsCascade(events, target, all) && start <= all
    ensures start <= removed <= all
    ensures removed == start ==> forall k :: k in events && Cites(events[k], removed) ==> k in removed
  {
    removed := start;
    for i := 0 to |rows|
      invariant start <= removed <= all
      invariant forall j :: 0 <= j < i && Cites(rows[j].1, start) ==> rows[j].0 in removed
    {
      if Cites(rows[i].1, removed) {
        assert Cites(rows[i].1, all);
        removed := removed + {rows[i].0};
      }
    }
  }

  /** Children survive, but cannot keep a parent that goes. */
  function Detached(rows: map<Id, Interaction>, target: Id): map<Id, Interaction> {
    map id | id in rows ::
      if rows[id].parent == Some(target) then rows[id].(parent := None) else rows[id]
  }

  function WithoutShares(shares: set<(Id, Remote)>, target: Id): set<(Id, Remote)> {
    set p | p in shares && p.0 != target
  }

  function WithoutPublications(ps: map<(Id, Remote), Publication>, target: Id): map<(Id, Remote), Publication> {
    map k | k in ps && k.0 != target :: ps[k]
  }

  /** The row part of one tombstone: children lose their parent, the cascade of events goes, and
      with it every share, publication and interaction row of the target. */
  function Remove(t: Tables, target: Id): Tables {
    t.(interactions := Detached(t.interactions, target) - {target},
       shares := WithoutShares(t.shares, target),
       publications := WithoutPublications(t.publications, target),
       events := t.events - Cascade(t.events, target))
  }

  /** Storing the tombstone itself. Received again it must mean the same; a received one confirms
      a stored one. */
  function Bury(t: Tables, b: Tombstone, synced: bool, remote: Option<Remote>): Result<Tables> {
    var key := (b.id, if remote.Some? then At(remote.value) else Local);
    if key in t.tombstones then
      var was := t.tombstones[key];
      if b.format != FORMAT || b.version != 1 || was.reason != b.reason || was.previous != b.previous
      then Refused(TombstoneConflict)
      else Ok(t.(tombstones := t.tombstones[key := was.(confirmed := was.confirmed || synced)]))
    else if b.format != FORMAT || b.version != 1 then Refused(BadTombstone)
    else Ok(t.(tombstones := t.tombstones[key := Grave(b.deletedAt, b.reason, b.previous, synced)]))
  }

  function ApplyTombstone(t: Tables, b: Tombstone, synced: bool, remote: Option<Remote>): Result<Tables> {
    var r := Bury(t, b, synced, remote);
    if r.Refused? then r else Ok(Remove(r.value, b.id))
  }

  function ApplyTombstones(t: Tables, bs: seq<Tombstone>, synced: bool, remote: Option<Remote>): Result<Tables> {
    if bs == [] then Ok(t)
    else
      var r := ApplyTombstones(t, bs[..|bs| - 1], synced, remote);
      if r.Refused? then r else ApplyTombstone(r.value, bs[|bs| - 1], synced, remote)
  }

  /** The ids a batch of tombstones names. */
  function Targets(bs: seq<Tombstone>): set<Id> {
    set b | b in bs :: b.id
  }

  /** The least set holding every event of a target or citing its legacy links, and every event that
      cites one of the set. */
  ghost predicate IsCascadeOf(events: map<Text, Event>, targets: set<Id>, s: set<Text>) {
    && s <= events.Keys && ClosedOverAll(events, targets, s)
    && forall other: set<Text> :: ClosedOverAll(events, targets, other) ==> s <= other
  }

  ghost predicate ClosedOverAll(events: map<Text, Event>, targets: set<Id>, s: set<Text>) {
    && (forall k, target :: k in events && target in targets && Seed(events[k], target) ==> k in s)
    && (forall k :: k in events && Cites(events[k], s) ==> k in s)
  }

  /** The events left are those of the cascade taken out, each as it was. */
  ghost predicate EventsBuried(events: map<Text, Event>, targets: set<Id>, left: map<Text, Event>) {
    && left.Keys <= events.Keys && (forall k :: k in left ==> left[k] == events[k])
    && IsCascadeOf(events, targets, events.Keys - left.Keys)
  }

  /** What a batch changes and, clause by clause, what it leaves alone. */
  ghost predicate Buried(t: Tables, targets: set<Id>, u: Tables) {
    && u.interactions.Keys == t.interactions.Keys - targets
    && (forall id :: id in u.interactions ==>
          var was, row := t.interactions[id], u.interactions[id];
          row == was.(parent := row.parent)
          && row.parent == if was.parent.Some? && was.parent.value in targets then None else was.parent)
    && (forall p :: p in u.shares <==> p in t.shares && p.0 !in targets)
    && (forall k :: k in u.publications <==> k in t.publications && k.0 !in targets)
    && (forall k :: k in u.publications ==> u.publications[k] == t.publications[k])
    && EventsBuried(t.events, targets, u.events)
    && (forall k :: k in t.tombstones ==> k in u.tombstones)
    && u.conversations == t.conversations && u.futures == t.futures && u.cursors == t.cursors
  }

  lemma OneIsBuried(t: Tables, b: Tombstone, synced: bool, remote: Option<Remote>)
    requires ApplyTombstone(t, b, synced, remote).Ok?
    ensures Buried(t, {b.id}, ApplyTombstone(t, b, synced, remote).value)
  {
    hide Remove, Buried;
    var m := Bury(t, b, synced, remote).value;
    RemovalBuries(m, b.id);
    RemoveKeepsTombstones(m, b.id);
    BuriesAsBefore(t, m, {b.id}, Remove(m, b.id));
  }

  lemma BuriesAsBefore(t: Tables, m: Tables, targets: set<Id>, u: Tables)
    requires m == t.(tombstones := m.tombstones) && t.tombstones.Keys <= m.tombstones.Keys && Buried(m, targets, u)
    ensures Buried(t, targets, u)
  {
  }

  lemma RemovalBuries(t: Tables, id: Id)
    ensures Buried(t, {id}, Remove(t, id))
  {
    hide Cascade, EventsBuried;
    OneCascade(t.events, id);
  }

  lemma OneCascade(events: map<Text, Event>, target: Id)
    ensures EventsBuried(events, {target}, events - Cascade(events, target))
  {
    hide Cascade, Seed, Cites;
    CascadeIsLeast(events, target);
    var left := events - Cascade(events, target);
    assert events.Keys - left.Keys == Cascade(events, target);
    forall s: set<Text> ensures ClosedOverAll(events, {target}, s) <==> ClosedOver(events, target, s) {
    }
  }

  lemma BuriedTwice(t: Tables, a: set<Id>, u: Tables, b: set<Id>, v: Tables)
    requires Buried(t, a, u) && Buried(u, b, v)
    ensures Buried(t, a + b, v)
  {
    hide EventsBuried;
    CascadesJoin(t.events, a, u.events, b, v.events);
  }

  /** The cascades of two batches in turn are the cascade of both together. */
  lemma CascadesJoin(events: map<Text, Event>, a: set<Id>, mid: map<Text, Event>, b: set<Id>, left: map<Text, Event>)
    requires EventsBuried(events, a, mid) && EventsBuried(mid, b, left)
    ensures EventsBuried(events, a + b, left)
  {
    hide Seed, Cites;
    var r, s := events.Keys - mid.Keys, mid.Keys - left.Keys;
    assert events.Keys - left.Keys == r + s;
    forall k | k in events && Cites(events[k], r + s) ensures k in r + s {
      CitesEither(events[k], r, s);
      if k in mid { assert mid[k] == events[k]; }
    }
    forall k, target | k in events && target in a + b && Seed(events[k], target) ensures k in r + s {
      if k in mid { assert mid[k] == events[k]; }
    }
    forall other: set<Text> | ClosedOverAll(events, a + b, other) ensures r + s <= other {
      assert ClosedOverAll(events, a, other);
      assert ClosedOverAll(mid, b, other) by {
        forall k | k in mid ensures mid[k] == events[k] { }
      }
    }
  }

  lemma CitesEither(e: Event, a: set<Text>, b: set<Text>)
    ensures Cites(e, a + b) <==> Cites(e, a) || Cites(e, b)
  {
  }

  lemma {:induction false} TombstonesBury(t: Tables, bs: seq<Tombstone>, synced: bool, remote: Option<Remote>)
    requires ApplyTombstones(t, bs, synced, remote).Ok?
    ensures Buried(t, Targets(bs), ApplyTombstones(t, bs, synced, remote).value)
  {
    hide Buried, ApplyTombstone;
    if bs != [] {
      var init, b := bs[..|bs| - 1], bs[|bs| - 1];
      TombstonesBury(t, init, synced, remote);
      var m := ApplyTombstones(t, init, synced, remote).value;
      OneIsBuried(m, b, synced, remote);
      var u := ApplyTombstone(m, b, synced, remote).value;
      BuriedTwice(t, Targets(init), m, {b.id}, u);
      InitAndLast(bs);
      assert Targets(bs) == Targets(init) + {b.id};
    } else {
      assert Targets(bs) == {};
      BuryingNothing(t);
    }
  }

  lemma BuryingNothing(t: Tables)
    ensures Buried(t, {}, t)
  {
    assert t.events.Keys - t.events.Keys == {};
  }

  /** Every batch leaves a tombstone of its scope for each of its targets, and none for others. */
  lemma {:induction false} TombstonesStay(t: Tables, bs: seq<Tombstone>, synced: bool, remote: Option<Remote>)
    requires ApplyTombstones(t, bs, synced, remote).Ok?
    ensures var u := ApplyTombstones(t, bs, synced, remote).value;
      forall k :: k in u.tombstones <==>
        k in t.tombstones || (k.0 in Targets(bs) && k.1 == if remote.Some? then At(remote.value) else Local)
  {
    hide ApplyTombstone;
    if bs != [] {
      var init, b := bs[..|bs| - 1], bs[|bs| - 1];
      TombstonesStay(t, init, synced, remote);
      InitAndLast(bs);
      assert Targets(bs) == Targets(init) + {b.id};
      OneStays(ApplyTombstones(t, init, synced, remote).value, b, synced, remote);
    }
  }

  lemma OneStays(t: Tables, b: Tombstone, synced: bool, remote: Option<Remote>)
    requires ApplyTombstone(t, b, synced, remote).Ok?
    ensures var u := ApplyTombstone(t, b, synced, remote).value;
      forall k :: k in u.tombstones <==>
        k in t.tombstones || (k.0 == b.id && k.1 == if remote.Some? then At(remote.value) else Local)
  {
    hide Remove;
    RemoveKeepsTombstones(Bury(t, b, synced, remote).value, b.id);
  }

  lemma RemoveKeepsTombstones(t: Tables, id: Id)
    ensures Remove(t, id).tombstones == t.tombstones
  {
  }

  /** No surviving event cites an event the tombstone removed, or one of the target's legacy
      links; and an event survives when some set closed over the seeds leaves it out. */
  lemma NoSurvivorCitesARemovedEvent(t: Tables, b: Tombstone, synced: bool, remote: Option<Remote>, k: Text)
    requires ApplyTombstone(t, b, synced, remote).Ok? && k in t.events
    ensures var u := ApplyTombstone(t, b, synced, remote).value;
      k in u.events ==>
        && !Cites(t.events[k], t.events.Keys - u.events.Keys)
        && forall i :: 0 <= i < |t.events[k].sources| ==> !(LegacyKey(b.id) <= t.events[k].sources[i])
    ensures var u := ApplyTombstone(t, b, synced, remote).value;
      k in u.events <==> exists s: set<Text> :: ClosedOver(t.events, b.id, s) && k !in s
  {
    var s := Cascade(t.events, b.id);
    CascadeIsLeast(t.events, b.id);
    var u := ApplyTombstone(t, b, synced, remote).value;
    assert u.events.Keys == t.events.Keys - s;
    assert t.events.Keys - u.events.Keys == s;
    if k in u.events { assert ClosedOver(t.events, b.id, s) && k !in s; }
  }

  lemma OneTombstoneIsSound(t: Tables, b: Tombstone, synced: bool, remote: Option<Remote>)
    requires Sound(t) && ApplyTombstone(t, b, synced, remote).Ok?
    ensures Sound(ApplyTombstone(t, b, synced, remote).value)
    ensures OrphanFree(t) ==> OrphanFree(ApplyTombstone(t, b, synced, remote).value)
  {
    var m := Bury(t, b, synced, remote).value;
    RemovalIsSound(m, b.id);
  }

  /** Removing a row keeps every state rule except that the row itself may have been tombstoned. */
  lemma RemovalIsSound(t: Tables, id: Id)
    requires forall i :: i in t.interactions ==> t.interactions[i].conversation in t.conversations
    requires forall i :: i in t.interactions && t.interactions[i].parent.Some? ==>
      t.interactions[i].parent.value in t.interactions
    requires forall i :: i in t.interactions && i != id ==> !LocallyTombstoned(t, i)
    ensures Sound(Remove(t, id))
    ensures OrphanFree(t) ==> OrphanFree(Remove(t, id))
  {
    hide Cascade;
  }

  lemma {:induction false} TombstonesAreSound(t: Tables, bs: seq<Tombstone>, synced: bool, remote: Option<Remote>)
    requires Sound(t) && ApplyTombstones(t, bs, synced, remote).Ok?
    ensures Sound(ApplyTombstones(t, bs, synced, remote).value)
    ensures OrphanFree(t) ==> OrphanFree(ApplyTombstones(t, bs, synced, remote).value)
  {
    if bs != [] {
      TombstonesAreSound(t, bs[..|bs| - 1], synced, remote);
      OneTombstoneIsSound(ApplyTombstones(t, bs[..|bs| - 1], synced, remote).value, bs[|bs| - 1], synced, remote);
    }
  }
}
