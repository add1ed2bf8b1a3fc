/** The harness ingest: what one batch stores, under which parents, and what a repeat does. */
module StoreHarness {
  import opened Bytes
  import opened StoreTables
  import opened StoreSharing

  /** What preparing one capture of a batch gave. */
  datatype Outcome =
    | Prepared(capture: Capture)
    | Withheld(standIn: Capture)
    | Lost(id: Id, parent: Option<Id>)

  type Skips = map<Id, Option<Id>>

  datatype BatchOutcome = BatchOutcome(inserted: nat, suppressed: nat, withheld: nat, lost: nat)

  datatype Ingest = Ingest(tables: Tables, skipped: Skips, outcome: BatchOutcome)

  const MAX_OFFSET: nat := 0x7FFF_FFFF_FFFF_FFFF

  // --- The walk over skipped ancestors ---

  /** One step of the walk: from a skipped id to what it was a child of. */
  function Hop(skipped: Skips, at: Option<Id>, steps: nat): Option<Id> {
    if steps == 0 then at
    else
      var p := Hop(skipped, at, steps - 1);
      if p.Some? && p.value in skipped then skipped[p.value] else p
  }

  predicate Settled(skipped: Skips, at: Option<Id>) {
    at.None? || at.value !in skipped
  }

  /** The store's loop: at most one step more than there are skipped ids. */
  method WalkUp(skipped: Skips, start: Option<Id>) returns (parent: Option<Id>)
    ensures parent == Hop(skipped, start, |skipped| + 1)
  {
    parent := start;
    for i := 0 to |skipped| + 1
      invariant parent == Hop(skipped, start, i)
    {
      if Settled(skipped, parent) {
        StaysSettled(skipped, start, i, |skipped| + 1);
        break;
      }
      parent := skipped[parent.value];
    }
  }

  lemma {:induction false} StaysSettled(skipped: Skips, start: Option<Id>, k: nat, n: nat)
    requires Settled(skipped, Hop(skipped, start, k)) && k <= n
    ensures Hop(skipped, start, n) == Hop(skipped, start, k)
    decreases n
  {
    if k < n { StaysSettled(skipped, start, k, n - 1); }
  }

  /** `p` is the nearest ancestor, counting `start` itself, that is not skipped. */
  ghost predicate Nearest(skipped: Skips, start: Option<Id>, p: Option<Id>) {
    exists k: nat :: NearestAt(skipped, start, p, k)
  }

  ghost predicate NearestAt(skipped: Skips, start: Option<Id>, p: Option<Id>, k: nat) {
    Hop(skipped, start, k) == p && Settled(skipped, p)
    && forall j: nat :: j < k ==> !Settled(skipped, Hop(skipped, start, j))
  }

  /** The chain of skipped ancestors ends: it does not run in a circle. */
  ghost predicate Ends(skipped: Skips, start: Option<Id>) {
    exists k: nat :: Settled(skipped, Hop(skipped, start, k))
  }

  lemma {:induction false} SameFrom(skipped: Skips, start: Option<Id>, i: nat, j: nat, m: nat)
    requires Hop(skipped, start, i) == Hop(skipped, start, j)
    ensures Hop(skipped, start, i + m) == Hop(skipped, start, j + m)
    decreases m
  {
    if m > 0 { SameFrom(skipped, start, i, j, m - 1); }
  }

  function Visited(skipped: Skips, start: Option<Id>, k: nat): (s: seq<Id>)
    requires forall j: nat :: j < k ==> !Settled(skipped, Hop(skipped, start, j))
    ensures |s| == k && forall j :: 0 <= j < k ==> Some(s[j]) == Hop(skipped, start, j) && s[j] in skipped
  {
    if k == 0 then []
    else
      assert !Settled(skipped, Hop(skipped, start, k - 1));
      Visited(skipped, start, k - 1) + [Hop(skipped, start, k - 1).value]
  }

  /** The first settled step comes after at most as many steps as there are skipped ids: the ids
      visited before it are all different. */
  lemma FirstIsSoon(skipped: Skips, start: Option<Id>, k: nat)
    requires Settled(skipped, Hop(skipped, start, k))
    requires forall j: nat :: j < k ==> !Settled(skipped, Hop(skipped, start, j))
    ensures k <= |skipped|
  {
    var s := Visited(skipped, start, k);
    forall i, j | 0 <= i < j < |s| ensures s[i] != s[j] {
      if s[i] == s[j] {
        SameFrom(skipped, start, i, j, k - j);
        assert false;
      }
    }
    ElementsOf(s);
    SubsetSize(AsSet(s), skipped.Keys);
  }

  lemma {:induction false} FirstSettled(skipped: Skips, start: Option<Id>, n: nat) returns (k: nat)
    requires Settled(skipped, Hop(skipped, start, n))
    ensures k <= n && NearestAt(skipped, start, Hop(skipped, start, k), k)
    decreases n
  {
    if n > 0 && exists j: nat :: j < n && Settled(skipped, Hop(skipped, start, j)) {
      var j: nat :| j < n && Settled(skipped, Hop(skipped, start, j));
      k := FirstSettled(skipped, start, j);
    } else {
      k := n;
    }
  }

  /** The bounded walk finds the nearest ancestor that is not skipped exactly when the chain ends. */
  lemma WalkFindsTheNearest(skipped: Skips, start: Option<Id>)
    ensures Ends(skipped, start) <==> Nearest(skipped, start, Hop(skipped, start, |skipped| + 1))
    ensures Ends(skipped, start) <==> Settled(skipped, Hop(skipped, start, |skipped| + 1))
  {
    if Ends(skipped, start) {
      var n: nat :| Settled(skipped, Hop(skipped, start, n));
      var k := FirstSettled(skipped, start, n);
      FirstIsSoon(skipped, start, k);
      StaysSettled(skipped, start, k, |skipped| + 1);
      assert NearestAt(skipped, start, Hop(skipped, start, |skipped| + 1), k);
    }
  }

  // --- One batch ---

  function Offered(o: Outcome): Capture
    requires !o.Lost?
  {
    if o.Prepared? then o.capture else o.standIn
  }

  /** The captures of a batch that are offered to the tables, each with whether it is a stand-in. */
  function Offers(batch: seq<Outcome>): (s: seq<(Capture, bool)>)
    ensures forall p :: p in s <==> exists o :: o in batch && !o.Lost? && p == (Offered(o), o.Withheld?)
    ensures |s| <= |batch|
  {
    if batch == [] then []
    else
      var o := batch[|batch| - 1];
      assert batch == batch[..|batch| - 1] + [o];
      Offers(batch[..|batch| - 1]) + if o.Lost? then [] else [(Offered(o), o.Withheld?)]
  }

  /** What the lost captures were children of. */
  function LostSkips(batch: seq<Outcome>): Skips {
    if batch == [] then map[]
    else
      var o := batch[|batch| - 1];
      var m := LostSkips(batch[..|batch| - 1]);
      if o.Lost? then m[o.id := o.parent] else m
  }

  /** The parent an inserted row gets: the end of the walk when it is stored, none otherwise. */
  function Adopted(t: Tables, skipped: Skips, parent: Option<Id>): Option<Id> {
    var p := Hop(skipped, parent, |skipped| + 1);
    if p.Some? && p.value in t.interactions then p else None
  }

  function IngestOne(s: Ingest, c: Capture, withheld: bool): Ingest {
    var o := s.outcome;
    if c.id in s.tables.interactions then s.(outcome := o.(suppressed := o.suppressed + 1))
    else if LocallyTombstoned(s.tables, c.id) then
      s.(outcome := o.(suppressed := o.suppressed + 1), skipped := s.skipped[c.id := c.row.parent])
    else
      var adopted := c.(row := c.row.(parent := Adopted(s.tables, s.skipped, c.row.parent)));
      s.(tables := Insert(s.tables, adopted).value,
         outcome := o.(inserted := o.inserted + 1, withheld := o.withheld + if withheld then 1 else 0))
  }

  function IngestAll(t: Tables, lost: Skips, offers: seq<(Capture, bool)>): Ingest {
    if offers == [] then Ingest(t, lost, BatchOutcome(0, 0, 0, 0))
    else
      var last := offers[|offers| - 1];
      IngestOne(IngestAll(t, lost, offers[..|offers| - 1]), last.0, last.1)
  }

  /** The whole batch with the advanced cursor. */
  function IngestBatch(t: Tables, batch: seq<Outcome>, key: (Text, Text), cursor: Cursor): (r: Result<(Tables, BatchOutcome)>) {
    if cursor.offset > MAX_OFFSET then Refused(Overflow)
    else
      var offers := Offers(batch);
      var s := IngestAll(t, LostSkips(batch), offers);
      Ok((s.tables.(cursors := s.tables.cursors[key := cursor]), s.outcome.(lost := |batch| - |offers|)))
  }

  lemma {:induction false} IngestCounts(t: Tables, lost: Skips, offers: seq<(Capture, bool)>)
    ensures var o := IngestAll(t, lost, offers).outcome;
      o.inserted + o.suppressed == |offers| && o.withheld <= o.inserted && o.lost == 0
  {
    if offers != [] { IngestCounts(t, lost, offers[..|offers| - 1]); }
  }

  /** Nothing of a batch goes uncounted, and only inserted captures count as withheld. */
  lemma BatchIsAccountedFor(t: Tables, batch: seq<Outcome>, key: (Text, Text), cursor: Cursor)
    requires IngestBatch(t, batch, key, cursor).Ok?
    ensures var o := IngestBatch(t, batch, key, cursor).value.1;
      o.inserted + o.suppressed + o.lost == |batch| && o.withheld <= o.inserted
  {
    IngestCounts(t, LostSkips(batch), Offers(batch));
  }

  /** Every offered capture is stored or was locally tombstoned; nothing stored is changed. */
  ghost predicate Settling(t: Tables, offers: seq<(Capture, bool)>, u: Tables) {
    && (forall id :: id in t.interactions ==> id in u.interactions && u.interactions[id] == t.interactions[id])
    && (forall p :: p in offers ==> p.0.id in u.interactions || LocallyTombstoned(t, p.0.id))
    && (forall id :: id in u.interactions ==> id in t.interactions || exists p :: p in offers && p.0.id == id)
    && u == t.(conversations := u.conversations, interactions := u.interactions, shares := u.shares)
  }

  /** One capture at most adds its own row, which was not stored. */
  ghost predicate OneRow(t: Tables, c: Capture, parent: Option<Id>, u: Tables) {
    && u == t.(conversations := u.conversations, interactions := u.interactions, shares := u.shares)
    && (u.interactions == t.interactions ||
        (c.id !in t.interactions && u.interactions == t.interactions[c.id := c.row.(parent := parent)]))
    && (c.id in u.interactions || LocallyTombstoned(t, c.id))
  }

  lemma OneIngestIsOneRow(s: Ingest, c: Capture, withheld: bool)
    ensures OneRow(s.tables, c, Adopted(s.tables, s.skipped, c.row.parent), IngestOne(s, c, withheld).tables)
  {
    hide FutureShares, Hop;
  }

  lemma OneSettles(t: Tables, offers: seq<(Capture, bool)>, m: Tables, c: Capture, withheld: bool, parent: Option<Id>, u: Tables)
    requires Settling(t, offers, m) && OneRow(m, c, parent, u)
    ensures Settling(t, offers + [(c, withheld)], u)
  {
    var all := offers + [(c, withheld)];
    assert all[|offers|] == (c, withheld);
    forall id | id in u.interactions && id !in t.interactions ensures exists p :: p in all && p.0.id == id {
      if id in m.interactions {
        var p :| p in offers && p.0.id == id;
        assert p in all;
      } else {
        assert (c, withheld) in all;
      }
    }
  }

  lemma {:induction false} IngestSettles(t: Tables, lost: Skips, offers: seq<(Capture, bool)>)
    ensures Settling(t, offers, IngestAll(t, lost, offers).tables)
  {
    if offers != [] {
      hide Settling, IngestOne, OneRow;
      var init, last := offers[..|offers| - 1], offers[|offers| - 1];
      InitAndLast(offers);
      IngestSettles(t, lost, init);
      var m := IngestAll(t, lost, init);
      OneIngestIsOneRow(m, last.0, last.1);
      OneSettles(t, init, m.tables, last.0, last.1, Adopted(m.tables, m.skipped, last.0.row.parent),
                 IngestOne(m, last.0, last.1).tables);
      assert offers == init + [(last.0, last.1)];
    }
  }

  /** A batch whose captures are all stored or locally tombstoned changes no row at all. */
  lemma {:induction false} SettledBatch(t: Tables, lost: Skips, offers: seq<(Capture, bool)>)
    requires forall p :: p in offers ==> p.0.id in t.interactions || LocallyTombstoned(t, p.0.id)
    ensures var s := IngestAll(t, lost, offers); s.tables == t && s.outcome.inserted == 0
  {
    if offers != [] {
      InitAndLast(offers);
      SettledBatch(t, lost, offers[..|offers| - 1]);
    }
  }

  /** Ingest is idempotent: the same preparation outcome again inserts nothing, withholds nothing
      and changes nothing but the cursor it is given. */
  lemma RepeatInsertsNothing(t: Tables, batch: seq<Outcome>, key: (Text, Text), cursor: Cursor, again: Cursor)
    requires IngestBatch(t, batch, key, cursor).Ok? && again.offset <= MAX_OFFSET
    ensures var u := IngestBatch(t, batch, key, cursor).value.0;
      var r := IngestBatch(u, batch, key, again);
      r.Ok? && r.value.1.inserted == 0 && r.value.1.withheld == 0
      && r.value.0 == u.(cursors := u.cursors[key := again])
  {
    var offers := Offers(batch);
    var u := IngestBatch(t, batch, key, cursor).value.0;
    IngestSettles(t, LostSkips(batch), offers);
    SettledBatch(u, LostSkips(batch), offers);
    IngestCounts(u, LostSkips(batch), offers);
  }

  lemma OneIsSound(s: Ingest, c: Capture, withheld: bool)
    requires Sound(s.tables)
    ensures Sound(IngestOne(s, c, withheld).tables)
    ensures OrphanFree(s.tables) ==> OrphanFree(IngestOne(s, c, withheld).tables)
  {
    hide Hop, Sound, OrphanFree;
    if c.id !in s.tables.interactions && !LocallyTombstoned(s.tables, c.id) {
      var adopted := c.(row := c.row.(parent := Adopted(s.tables, s.skipped, c.row.parent)));
      InsertIsSound(s.tables, adopted);
    }
  }

  lemma {:induction false} IngestIsSound(t: Tables, lost: Skips, offers: seq<(Capture, bool)>)
    requires Sound(t)
    ensures Sound(IngestAll(t, lost, offers).tables)
    ensures OrphanFree(t) ==> OrphanFree(IngestAll(t, lost, offers).tables)
  {
    if offers != [] {
      hide IngestOne, Sound, OrphanFree;
      var init, last := offers[..|offers| - 1], offers[|offers| - 1];
      IngestIsSound(t, lost, init);
      OneIsSound(IngestAll(t, lost, init), last.0, last.1);
    }
  }

  lemma {:induction false} IngestGrows(t: Tables, lost: Skips, offers: seq<(Capture, bool)>)
    ensures Grown(t, IngestAll(t, lost, offers).tables)
  {
    hide Grown, IngestOne;
    if offers != [] {
      var init, last := offers[..|offers| - 1], offers[|offers| - 1];
      var s := IngestAll(t, lost, init);
      IngestGrows(t, lost, init);
      OneGrows(s, last.0, last.1);
      GrownTwice(t, s.tables, IngestOne(s, last.0, last.1).tables);
    } else {
      GrownNot(t);
    }
  }

  lemma OneGrows(s: Ingest, c: Capture, withheld: bool)
    ensures Grown(s.tables, IngestOne(s, c, withheld).tables)
  {
    hide Hop, Grown;
    GrownNot(s.tables);
    if c.id !in s.tables.interactions && !LocallyTombstoned(s.tables, c.id) {
      InsertGrows(s.tables, c.(row := c.row.(parent := Adopted(s.tables, s.skipped, c.row.parent))));
    }
  }

  // --- The parents of what a batch inserts ---

  /** The ingest just before capture `i` of the batch is considered. */
  function Before(t: Tables, batch: seq<Outcome>, i: nat): Ingest
    requires i <= |batch|
  {
    IngestAll(t, LostSkips(batch), Offers(batch[..i]))
  }

  lemma NextBefore(t: Tables, batch: seq<Outcome>, i: nat)
    requires i < |batch|
    ensures batch[i].Lost? ==> Before(t, batch, i + 1) == Before(t, batch, i)
    ensures !batch[i].Lost? ==>
      Before(t, batch, i + 1) == IngestOne(Before(t, batch, i), Offered(batch[i]), batch[i].Withheld?)
  {
    hide IngestOne;
    var next := batch[..i + 1];
    assert next[..i] == batch[..i] && next[i] == batch[i];
    var a := Offers(batch[..i]);
    if batch[i].Lost? {
      assert Offers(next) == a;
    } else {
      assert Offers(next) == a + [(Offered(batch[i]), batch[i].Withheld?)];
      assert (a + [(Offered(batch[i]), batch[i].Withheld?)])[..|a|] == a;
    }
  }

  function IdOf(o: Outcome): Id {
    if o.Lost? then o.id else Offered(o).id
  }

  function ParentOf(o: Outcome): Option<Id> {
    if o.Lost? then o.parent else Offered(o).row.parent
  }

  /** An id stands for one response: captures of the same id name the same parent. */
  ghost predicate SameParents(batch: seq<Outcome>) {
    forall i, j :: 0 <= i < |batch| && 0 <= j < |batch| && IdOf(batch[i]) == IdOf(batch[j]) ==>
      ParentOf(batch[i]) == ParentOf(batch[j])
  }

  /** Every parent that is in the batch comes before its child, as in a transcript. */
  ghost predicate ParentsFirst(batch: seq<Outcome>) {
    forall j, k :: 0 <= j < |batch| && 0 <= k < |batch| && ParentOf(batch[j]) == Some(IdOf(batch[k])) ==> k < j
  }

  lemma {:induction false} LostSkipsAre(batch: seq<Outcome>, id: Id)
    requires SameParents(batch)
    ensures id in LostSkips(batch) <==> exists j :: 0 <= j < |batch| && batch[j].Lost? && IdOf(batch[j]) == id
    ensures forall j :: 0 <= j < |batch| && batch[j].Lost? && IdOf(batch[j]) == id ==>
      id in LostSkips(batch) && LostSkips(batch)[id] == ParentOf(batch[j])
  {
    if batch != [] {
      var init := batch[..|batch| - 1];
      LostSkipsAre(init, id);
      assert forall j :: 0 <= j < |init| ==> init[j] == batch[j];
    }
  }

  /** Capture `j` is skipped before capture `i`: it is lost, or comes before and is tombstoned. */
  ghost predicate SkippedBy(t: Tables, batch: seq<Outcome>, i: nat, j: int) {
    0 <= j < |batch| && (batch[j].Lost? || (j < i && LocallyTombstoned(t, IdOf(batch[j]))))
  }

  /** Under `id` the map holds what such a capture was a child of, and nothing when there is none. */
  ghost predicate SkipsAre(t: Tables, batch: seq<Outcome>, i: nat, skipped: Skips, id: Id) {
    && (id in skipped <==> exists j :: SkippedBy(t, batch, i, j) && IdOf(batch[j]) == id)
    && (forall j :: SkippedBy(t, batch, i, j) && IdOf(batch[j]) == id ==> id in skipped && skipped[id] == ParentOf(batch[j]))
  }

  lemma SkipsNext(t: Tables, batch: seq<Outcome>, i: nat, m: Skips, id: Id)
    requires SameParents(batch) && i < |batch| && SkipsAre(t, batch, i, m, id)
    ensures batch[i].Lost? ==> SkipsAre(t, batch, i + 1, m, id)
    ensures !batch[i].Lost? ==> SkipsAre(t, batch, i + 1,
      if LocallyTombstoned(t, IdOf(batch[i])) then m[IdOf(batch[i]) := ParentOf(batch[i])] else m, id)
  {
    hide LocallyTombstoned, IdOf, ParentOf;
    forall j ensures SkippedBy(t, batch, i + 1, j) <==>
      SkippedBy(t, batch, i, j) || (j == i && (batch[i].Lost? || LocallyTombstoned(t, IdOf(batch[i]))))
    {
    }
  }

  /** The skipped ids just before capture `i`: every lost one, and the locally tombstoned ones
      among the captures before it, each with what it was a child of. */
  lemma {:induction false} SkipsBefore(t: Tables, batch: seq<Outcome>, i: nat, id: Id)
    requires Sound(t) && SameParents(batch) && i <= |batch|
    ensures SkipsAre(t, batch, i, Before(t, batch, i).skipped, id)
    decreases i
  {
    if i == 0 {
      LostSkipsAre(batch, id);
      assert batch[..0] == [];
      assert Offers(batch[..0]) == [];
    } else {
      SkipsBefore(t, batch, i - 1, id);
      NextBefore(t, batch, i - 1);
      SkipsNext(t, batch, i - 1, Before(t, batch, i - 1).skipped, id);
      BeforeIsSound(t, batch, i - 1);
      hide Before, SkipsAre, IngestOne;
      if !batch[i - 1].Lost? {
        OneSkips(Before(t, batch, i - 1), Offered(batch[i - 1]), batch[i - 1].Withheld?);
      }
    }
  }

  lemma BeforeIsSound(t: Tables, batch: seq<Outcome>, i: nat)
    requires Sound(t) && i <= |batch|
    ensures Sound(Before(t, batch, i).tables) && Before(t, batch, i).tables.tombstones == t.tombstones
  {
    IngestSettles(t, LostSkips(batch), Offers(batch[..i]));
    IngestIsSound(t, LostSkips(batch), Offers(batch[..i]));
    SettlingKeepsTombstones(t, Offers(batch[..i]), Before(t, batch, i).tables);
  }

  lemma OneSkips(s: Ingest, c: Capture, withheld: bool)
    requires Sound(s.tables)
    ensures IngestOne(s, c, withheld).skipped ==
      if LocallyTombstoned(s.tables, c.id) then s.skipped[c.id := c.row.parent] else s.skipped
  {
  }

  // --- The whole batch, read off its captures and the tombstones ---

  /** What the batch does not store: its lost captures and the locally tombstoned ones, each with
      what it was a child of. */
  function Skipped(t: Tables, batch: seq<Outcome>): Skips {
    if batch == [] then map[]
    else
      var o, m := batch[|batch| - 1], Skipped(t, batch[..|batch| - 1]);
      if o.Lost? || LocallyTombstoned(t, IdOf(o)) then m[IdOf(o) := ParentOf(o)] else m
  }

  lemma {:induction false} SkippedIs(t: Tables, batch: seq<Outcome>, id: Id)
    requires SameParents(batch)
    ensures SkipsAre(t, batch, |batch|, Skipped(t, batch), id)
  {
    hide LocallyTombstoned, IdOf, ParentOf;
    if batch != [] {
      var init := batch[..|batch| - 1];
      SkippedIs(t, init, id);
      forall j ensures SkippedBy(t, batch, |batch|, j) <==>
        SkippedBy(t, init, |init|, j)
        || (j == |init| && (batch[j].Lost? || LocallyTombstoned(t, IdOf(batch[j]))))
      {
      }
    }
  }

  /** `id` is stored before capture `i` is considered: it was, or an earlier capture stored it. */
  ghost predicate StoredBy(t: Tables, batch: seq<Outcome>, i: nat, id: Id)
    requires i <= |batch|
  {
    id in t.interactions
    || exists j :: 0 <= j < i && !batch[j].Lost? && IdOf(batch[j]) == id && !LocallyTombstoned(t, id)
  }

  lemma StoredByIs(t: Tables, batch: seq<Outcome>, i: nat, id: Id)
    requires Sound(t) && i <= |batch|
    ensures StoredBy(t, batch, i, id) <==> id in Before(t, batch, i).tables.interactions
  {
    var offers := Offers(batch[..i]);
    IngestSettles(t, LostSkips(batch), offers);
    BeforeIsSound(t, batch, i);
    if id in Before(t, batch, i).tables.interactions && id !in t.interactions {
      var p :| p in offers && p.0.id == id;
      var o :| o in batch[..i] && !o.Lost? && p == (Offered(o), o.Withheld?);
      var j :| 0 <= j < i && batch[j] == o;
    }
    if j :| 0 <= j < i && !batch[j].Lost? && IdOf(batch[j]) == id && !LocallyTombstoned(t, id) {
      assert batch[j] in batch[..i];
      assert (Offered(batch[j]), batch[j].Withheld?) in offers;
    }
  }

  /** `id` is skipped by the batch, but only after capture `i`: it is locally tombstoned, not lost,
      and listed only later. */
  ghost predicate SkippedLate(t: Tables, batch: seq<Outcome>, i: nat, id: Id) {
    && LocallyTombstoned(t, id) && (exists j :: 0 <= j < |batch| && IdOf(batch[j]) == id)
    && forall j :: 0 <= j < |batch| && IdOf(batch[j]) == id ==> i <= j && !batch[j].Lost?
  }

  /** Such an id is among the skipped ancestors of capture `i`, `k` steps up. */
  ghost predicate LateAt(t: Tables, batch: seq<Outcome>, i: nat, k: nat)
    requires i < |batch|
  {
    var at := Hop(Skipped(t, batch), ParentOf(batch[i]), k);
    at.Some? && SkippedLate(t, batch, i, at.value)
  }

  ghost predicate LateOnChain(t: Tables, batch: seq<Outcome>, i: nat)
    requires i < |batch|
  {
    exists k: nat :: LateAt(t, batch, i, k)
  }

  ghost predicate AgreeAt(a: Skips, b: Skips, at: Option<Id>) {
    at.Some? ==> (at.value in a <==> at.value in b) && (at.value in a ==> a[at.value] == b[at.value])
  }

  lemma {:induction false} WalksAgree(a: Skips, b: Skips, start: Option<Id>, k: nat)
    requires forall j: nat :: j < k ==> AgreeAt(a, b, Hop(b, start, j))
    ensures Hop(a, start, k) == Hop(b, start, k)
  {
    if k > 0 {
      WalksAgree(a, b, start, k - 1);
      assert AgreeAt(a, b, Hop(b, start, k - 1));
    }
  }

  /** Where the chain first settles, the bounded walk ends. */
  lemma WalkEnds(skipped: Skips, start: Option<Id>, k: nat)
    requires Settled(skipped, Hop(skipped, start, k))
    ensures Hop(skipped, start, |skipped| + 1) == Hop(skipped, start, k)
  {
    var first := FirstSettled(skipped, start, k);
    FirstIsSoon(skipped, start, first);
    StaysSettled(skipped, start, first, k);
    StaysSettled(skipped, start, first, |skipped| + 1);
  }

  /** The ids skipped before capture `i` are those the whole batch skips, but for the late ones. */
  lemma LateOrKnown(t: Tables, batch: seq<Outcome>, i: nat, id: Id)
    requires Sound(t) && SameParents(batch) && i < |batch|
    ensures AgreeAt(Before(t, batch, i).skipped, Skipped(t, batch), Some(id)) <==> !SkippedLate(t, batch, i, id)
    ensures SkippedLate(t, batch, i, id) ==> id !in Before(t, batch, i).skipped
    ensures id in Before(t, batch, i).skipped ==> id in Skipped(t, batch)
  {
    hide Before, LocallyTombstoned, IdOf, ParentOf, Skipped;
    SkipsBefore(t, batch, i, id);
    SkippedIs(t, batch, id);
    var a, b := Before(t, batch, i).skipped, Skipped(t, batch);
    assert forall j :: SkippedBy(t, batch, i, j) ==> SkippedBy(t, batch, |batch|, j);
    if SkippedLate(t, batch, i, id) {
      var j :| 0 <= j < |batch| && IdOf(batch[j]) == id;
      assert SkippedBy(t, batch, |batch|, j);
    } else if id in b && id !in a {
      var j :| SkippedBy(t, batch, |batch|, j) && IdOf(batch[j]) == id;
      assert !SkippedBy(t, batch, i, j);
      forall k | 0 <= k < |batch| && IdOf(batch[k]) == id ensures i <= k && !batch[k].Lost? {
        assert !SkippedBy(t, batch, i, k);
      }
    }
  }

  lemma NothingLate(t: Tables, batch: seq<Outcome>, i: nat, p: Option<Id>)
    requires Sound(t) && SameParents(batch) && i < |batch| && !LateOnChain(t, batch, i)
    requires Nearest(Skipped(t, batch), ParentOf(batch[i]), p)
    ensures var s := Before(t, batch, i).skipped; Hop(s, ParentOf(batch[i]), |s| + 1) == p
  {
    hide Before, Skipped, SkippedLate, ParentOf;
    var a, b, start := Before(t, batch, i).skipped, Skipped(t, batch), ParentOf(batch[i]);
    var n: nat :| NearestAt(b, start, p, n);
    forall k: nat ensures AgreeAt(a, b, Hop(b, start, k)) {
      assert !LateAt(t, batch, i, k);
      if Hop(b, start, k).Some? { LateOrKnown(t, batch, i, Hop(b, start, k).value); }
    }
    WalksAgree(a, b, start, n);
    assert AgreeAt(a, b, Hop(b, start, n));
    WalkEnds(a, start, n);
  }

  lemma {:induction false} FirstLate(t: Tables, batch: seq<Outcome>, i: nat, n: nat) returns (k: nat)
    requires i < |batch| && LateAt(t, batch, i, n)
    ensures LateAt(t, batch, i, k) && forall j: nat :: j < k ==> !LateAt(t, batch, i, j)
    decreases n
  {
    hide LateAt;
    if j: nat :| j < n && LateAt(t, batch, i, j) {
      k := FirstLate(t, batch, i, j);
    } else {
      k := n;
    }
  }

  lemma SomethingLate(t: Tables, batch: seq<Outcome>, i: nat)
    requires Sound(t) && SameParents(batch) && i < |batch| && LateOnChain(t, batch, i)
    ensures var s := Before(t, batch, i); Adopted(s.tables, s.skipped, ParentOf(batch[i])) == None
  {
    hide Before, Skipped, SkippedLate, ParentOf, Sound;
    var a, b, start := Before(t, batch, i).skipped, Skipped(t, batch), ParentOf(batch[i]);
    var n: nat :| LateAt(t, batch, i, n);
    var k := FirstLate(t, batch, i, n);
    forall j: nat | j < k ensures AgreeAt(a, b, Hop(b, start, j)) {
      assert !LateAt(t, batch, i, j);
      if Hop(b, start, j).Some? { LateOrKnown(t, batch, i, Hop(b, start, j).value); }
    }
    WalksAgree(a, b, start, k);
    var id := Hop(b, start, k).value;
    LateOrKnown(t, batch, i, id);
    WalkEnds(a, start, k);
    LateIsAbsent(t, batch, i, id);
  }

  lemma LateIsAbsent(t: Tables, batch: seq<Outcome>, i: nat, id: Id)
    requires Sound(t) && i < |batch| && SkippedLate(t, batch, i, id)
    ensures id !in Before(t, batch, i).tables.interactions
  {
    BeforeIsSound(t, batch, i);
  }

  /** The parent of an inserted row. Its promise is the nearest ancestor `p` the batch does not skip
      when that one is stored by then, and none otherwise. The promise is kept if and only if no
      skipped ancestor is listed after the capture, tombstoned and not lost, or `p` is not stored
      by then anyway; when it is broken there is no parent. The rest of the row is the capture's. */
  lemma InsertedParent(t: Tables, batch: seq<Outcome>, i: nat, p: Option<Id>)
    requires Sound(t) && SameParents(batch) && i < |batch| && !batch[i].Lost?
    requires !StoredBy(t, batch, i, IdOf(batch[i])) && !LocallyTombstoned(t, IdOf(batch[i]))
    requires Nearest(Skipped(t, batch), ParentOf(batch[i]), p)
    ensures var c, u := Offered(batch[i]), Before(t, batch, |batch|).tables;
      var promised := if p.Some? && StoredBy(t, batch, i, p.value) then p else None;
      && c.id in u.interactions
      && u.interactions[c.id] == c.row.(parent := if LateOnChain(t, batch, i) then None else promised)
      && (u.interactions[c.id].parent == promised <==> !LateOnChain(t, batch, i) || promised.None?)
  {
    hide Before, Skipped, Nearest, LateOnChain, StoredBy;
    var c := Offered(batch[i]);
    StoredByIs(t, batch, i, c.id);
    if p.Some? { StoredByIs(t, batch, i, p.value); }
    if LateOnChain(t, batch, i) {
      SomethingLate(t, batch, i);
    } else {
      NothingLate(t, batch, i, p);
    }
    InsertedRow(t, batch, i);
    RowStays(t, batch, i + 1, |batch|, c.id);
  }

  /** With parents before children, as a transcript has them, no ancestor is late. */
  lemma ParentsFirstAreNotLate(t: Tables, batch: seq<Outcome>, i: nat)
    requires SameParents(batch) && ParentsFirst(batch) && i < |batch|
    ensures !LateOnChain(t, batch, i)
  {
    forall k: nat ensures !LateAt(t, batch, i, k) { AncestorsAreEarlier(t, batch, i, k); }
  }

  lemma {:induction false} AncestorsAreEarlier(t: Tables, batch: seq<Outcome>, i: nat, k: nat)
    requires SameParents(batch) && ParentsFirst(batch) && i < |batch|
    ensures var at := Hop(Skipped(t, batch), ParentOf(batch[i]), k);
      forall j :: 0 <= j < |batch| && at == Some(IdOf(batch[j])) ==> j < i
    decreases k
  {
    hide Skipped;
    if k > 0 {
      AncestorsAreEarlier(t, batch, i, k - 1);
      var below := Hop(Skipped(t, batch), ParentOf(batch[i]), k - 1);
      if below.Some? { SkippedIs(t, batch, below.value); }
    }
  }

  lemma InsertedRow(t: Tables, batch: seq<Outcome>, i: nat)
    requires i < |batch| && !batch[i].Lost?
    requires IdOf(batch[i]) !in Before(t, batch, i).tables.interactions && !LocallyTombstoned(t, IdOf(batch[i]))
    ensures var c, s, u := Offered(batch[i]), Before(t, batch, i), Before(t, batch, i + 1).tables;
      c.id in u.interactions
      && u.interactions[c.id] == c.row.(parent := Adopted(s.tables, s.skipped, c.row.parent))
  {
    NextBefore(t, batch, i);
    IngestSettles(t, LostSkips(batch), Offers(batch[..i]));
    hide Adopted, Settling;
    SettlingKeepsTombstones(t, Offers(batch[..i]), Before(t, batch, i).tables);
  }

  lemma SettlingKeepsTombstones(t: Tables, offers: seq<(Capture, bool)>, u: Tables)
    requires Settling(t, offers, u)
    ensures u.tombstones == t.tombstones
  {
  }

  lemma RowKept(s: Ingest, c: Capture, withheld: bool, id: Id)
    requires id in s.tables.interactions
    ensures var u := IngestOne(s, c, withheld).tables;
      id in u.interactions && u.interactions[id] == s.tables.interactions[id]
  {
    OneIngestIsOneRow(s, c, withheld);
  }

  lemma {:induction false} RowStays(t: Tables, batch: seq<Outcome>, i: nat, n: nat, id: Id)
    requires i <= n <= |batch| && id in Before(t, batch, i).tables.interactions
    ensures id in Before(t, batch, n).tables.interactions
    ensures Before(t, batch, n).tables.interactions[id] == Before(t, batch, i).tables.interactions[id]
    decreases n
  {
    hide Before, IngestOne, Offered;
    if i < n {
      RowStays(t, batch, i, n - 1, id);
      NextBefore(t, batch, n - 1);
      if !batch[n - 1].Lost? {
        RowKept(Before(t, batch, n - 1), Offered(batch[n - 1]), batch[n - 1].Withheld?, id);
      }
    }
  }

  lemma TwoCaptures(t: Tables, a: Capture, b: Capture)
    ensures var s := Ingest(t, map[], BatchOutcome(0, 0, 0, 0));
      Before(t, [Prepared(a), Prepared(b)], 2) == IngestOne(IngestOne(s, a, false), b, false)
  {
    var batch := [Prepared(a), Prepared(b)];
    hide IngestOne;
    assert Before(t, batch, 0) == Ingest(t, map[], BatchOutcome(0, 0, 0, 0)) by {
      hide IngestOne;
      assert batch[..0] == [] && batch[..1] == [Prepared(a)] && batch[..1][..0] == [];
      assert LostSkips(batch[..1]) == map[];
    }
    hide Before;
    NextBefore(t, batch, 0);
    NextBefore(t, batch, 1);
  }

  /** Listed before its tombstoned parent, a child loses the grandparent it would have had. */
  lemma ChildListedFirst(row: Interaction)
    ensures var t := EMPTY.(interactions := map["g" := row], tombstones := map[("p", Local) := Grave(0, Security, None, false)]);
      var child := Capture("c", row.(parent := Some("p")));
      var parent := Capture("p", row.(parent := Some("g")));
      var early, late := Before(t, [Prepared(child), Prepared(parent)], 2), Before(t, [Prepared(parent), Prepared(child)], 2);
      "c" in early.tables.interactions && early.tables.interactions["c"].parent == None
      && "c" in late.tables.interactions && late.tables.interactions["c"].parent == Some("g")
  {
    var t := EMPTY.(interactions := map["g" := row], tombstones := map[("p", Local) := Grave(0, Security, None, false)]);
    var child := Capture("c", row.(parent := Some("p")));
    var parent := Capture("p", row.(parent := Some("g")));
    TwoCaptures(t, child, parent);
    TwoCaptures(t, parent, child);
    var s := Ingest(t, map[], BatchOutcome(0, 0, 0, 0));
    ChildFirst(s, child, parent);
    ParentFirst(s, parent, child);
  }

  lemma ChildFirst(s: Ingest, child: Capture, parent: Capture)
    requires s.skipped == map[] && child.id != parent.id && child.row.parent == Some(parent.id)
    requires child.id !in s.tables.interactions && parent.id !in s.tables.interactions
    requires !LocallyTombstoned(s.tables, child.id) && LocallyTombstoned(s.tables, parent.id)
    ensures var u := IngestOne(IngestOne(s, child, false), parent, false).tables;
      child.id in u.interactions && u.interactions[child.id].parent == None
  {
    hide FutureShares;
    assert Hop(s.skipped, child.row.parent, 0) == child.row.parent;
    assert Adopted(s.tables, s.skipped, child.row.parent) == None;
  }

  lemma ParentFirst(s: Ingest, parent: Capture, child: Capture)
    requires s.skipped == map[] && child.id != parent.id && child.row.parent == Some(parent.id)
    requires parent.row.parent.Some? && parent.row.parent.value in s.tables.interactions
    requires child.id !in s.tables.interactions && parent.id !in s.tables.interactions
    requires !LocallyTombstoned(s.tables, child.id) && LocallyTombstoned(s.tables, parent.id)
    ensures var u := IngestOne(IngestOne(s, parent, false), child, false).tables;
      child.id in u.interactions && u.interactions[child.id].parent == parent.row.parent
  {
    hide FutureShares;
    var m := IngestOne(s, parent, false);
    assert m.tables == s.tables && m.skipped == map[parent.id := parent.row.parent];
    assert |m.skipped| == 1;
    assert Hop(m.skipped, child.row.parent, 0) == child.row.parent;
    assert Hop(m.skipped, child.row.parent, 1) == parent.row.parent;
    assert Hop(m.skipped, child.row.parent, 2) == parent.row.parent;
  }
}
