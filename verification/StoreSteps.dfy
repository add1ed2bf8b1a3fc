/** The store's transactions as atomic steps over its tables. */
module StoreSteps {
  import opened Bytes
  import opened StoreTables
  import opened StoreTombstones
  import opened StoreSharing
  import opened StoreHarness

  /** A derivation event as a pull brings it; `valid` says whether its identity, its sources and
      its commit pass their checks. */
  datatype Incoming = Incoming(key: Text, event: Event, valid: bool)

  datatype Pull = Pull(
    captures: seq<Capture>, events: seq<Incoming>, remote: Option<Remote>,
    tombstones: seq<Tombstone>, published: seq<Id>, now: int)

  datatype Step =
    | Record(capture: Capture)
    | Replace(request: Text, captures: seq<Capture>)
    | Delete(request: Text)
    | Import(pull: Pull)
    | Harness(batch: seq<Outcome>, session: (Text, Text), cursor: Cursor)
    | Entomb(tombstones: seq<Tombstone>, synced: bool, remote: Option<Remote>)
    | ShareAll(conversation: Conversation, destination: Remote, future: bool)
    | ShareSnapshot(conversation: Conversation, destination: Remote, ids: seq<Id>, future: bool)
    | UnshareAll(conversation: Conversation, destination: Remote)
    | MarkAll(ids: seq<Id>, destination: Remote, state: PublicationState, now: int)
    | ClearAll(ids: seq<Id>, destination: Remote)
    | Relate(key: Text, event: Event)

  /** A pull keeps the imported conversations apart from the local ones. */
  function Imported(c: Capture, remote: Option<Remote>): Capture {
    var conversation := if remote.Some? then "remote:" + remote.value + ":" + c.row.conversation else c.row.conversation;
    c.(row := c.row.(conversation := conversation, source := SyncImport))
  }

  /** The captures of a pull that no tombstone stops, in order. */
  function Admitted(t: Tables, cs: seq<Capture>, remote: Option<Remote>): seq<Capture> {
    if cs == [] then []
    else
      var c := Imported(cs[|cs| - 1], remote);
      Admitted(t, cs[..|cs| - 1], remote) + if TombstonedFor(t, c.id, remote) then [] else [c]
  }

  /** Events are stored once; the same key again must carry the same payload. */
  function RelateOne(t: Tables, key: Text, event: Event): Result<Tables> {
    if key !in t.events then Ok(t.(events := t.events[key := event]))
    else if t.events[key].payload == event.payload then Ok(t)
    else Refused(EventConflict)
  }

  function RelatePulled(t: Tables, e: Incoming, remote: Option<Remote>): Result<Tables> {
    if TombstonedFor(t, e.event.interaction, remote) then Ok(t)
    else if !e.valid then Refused(InvalidEvent)
    else RelateOne(t, e.key, e.event)
  }

  function RelateAll(t: Tables, es: seq<Incoming>, remote: Option<Remote>): (r: Result<Tables>)
    ensures r.Ok? ==> r.value == t.(events := r.value.events)
  {
    if es == [] then Ok(t)
    else
      var r := RelateAll(t, es[..|es| - 1], remote);
      if r.Refused? then r else RelatePulled(r.value, es[|es| - 1], remote)
  }

  /** Suppression first, then rows, events and the proof of publication. */
  function ImportPull(t: Tables, p: Pull): Result<Tables> {
    var a := ApplyTombstones(t, p.tombstones, true, p.remote);
    if a.Refused? then a else
    var b := InsertAll(a.value, Admitted(a.value, p.captures, p.remote));
    if b.Refused? then b else
    var c := RelateAll(b.value, p.events, p.remote);
    if c.Refused? then c
    else if p.remote.None? then c
    else Ok(Mark(c.value, AsSet(p.published), p.remote.value, Published, p.now))
  }

  function ReplaceRequest(t: Tables, request: Text, cs: seq<Capture>): Result<Tables> {
    if cs == [] then Ok(t)
    else if exists c :: c in cs && c.row.request != Some(request) then Refused(RequestMismatch)
    else
      var d := DeleteRequest(t, request);
      if d.Refused? then d else InsertAll(d.value, cs)
  }

  function Apply(t: Tables, s: Step): Result<Tables> {
    match s
    case Record(c) => Insert(t, c)
    case Replace(request, cs) => ReplaceRequest(t, request, cs)
    case Delete(request) => DeleteRequest(t, request)
    case Import(p) => ImportPull(t, p)
    case Harness(batch, key, cursor) =>
      var r := IngestBatch(t, batch, key, cursor);
      if r.Refused? then Refused(r.why) else Ok(r.value.0)
    case Entomb(bs, synced, remote) => ApplyTombstones(t, bs, synced, remote)
    case ShareAll(c, r, future) => Ok(Share(t, c, r, future))
    case ShareSnapshot(c, r, ids, future) => ShareExact(t, c, r, ids, future)
    case UnshareAll(c, r) => Unshare(t, c, r)
    case MarkAll(ids, r, state, now) => Ok(Mark(t, AsSet(ids), r, state, now))
    case ClearAll(ids, r) => Ok(Clear(t, AsSet(ids), r))
    case Relate(key, event) => RelateOne(t, key, event)
  }

  /** A refused step rolls back: nothing changes. */
  function Next(t: Tables, s: Step): Tables {
    var r := Apply(t, s);
    if r.Ok? then r.value else t
  }

  function Run(t: Tables, steps: seq<Step>): Tables {
    if steps == [] then t else Next(Run(t, steps[..|steps| - 1]), steps[|steps| - 1])
  }

  /** The state of a new store before step `i` of a run. */
  function StateAt(steps: seq<Step>, i: nat): Tables
    requires i <= |steps|
  {
    Run(EMPTY, steps[..i])
  }

  lemma StateAtNext(steps: seq<Step>, i: nat)
    requires i < |steps|
    ensures StateAt(steps, i + 1) == Next(StateAt(steps, i), steps[i])
  {
    hide Next;
    assert steps[..i + 1][..i] == steps[..i];
  }

  // --- What every reachable state keeps ---

  lemma DeleteIsSound(t: Tables, request: Text)
    requires Sound(t) && DeleteRequest(t, request).Ok?
    ensures Sound(DeleteRequest(t, request).value)
  {
    var u := DeleteRequest(t, request).value;
    forall id | id in u.interactions && u.interactions[id].parent.Some?
      ensures u.interactions[id].parent.value in u.interactions
    {
      assert u.interactions[id] == t.interactions[id];
    }
  }

  lemma SoundBySameRows(t: Tables, u: Tables)
    requires Sound(t) && u.interactions == t.interactions && u.conversations == t.conversations
    requires u.tombstones == t.tombstones
    ensures Sound(u)
  {
  }

  lemma ImportIsSound(t: Tables, p: Pull)
    requires Sound(t) && ImportPull(t, p).Ok?
    ensures Sound(ImportPull(t, p).value)
  {
    hide Sound, ApplyTombstones, InsertAll, RelateAll, Admitted;
    var a := ApplyTombstones(t, p.tombstones, true, p.remote).value;
    TombstonesAreSound(t, p.tombstones, true, p.remote);
    var b := InsertAll(a, Admitted(a, p.captures, p.remote)).value;
    InsertAllIsSound(a, Admitted(a, p.captures, p.remote));
    SoundBySameRows(b, ImportPull(t, p).value);
  }

  lemma StepIsSound(t: Tables, s: Step)
    requires Sound(t)
    ensures Sound(Next(t, s))
  {
    hide Sound, Insert, InsertAll, DeleteRequest, ImportPull, IngestAll, ApplyTombstones, Offers, LostSkips;
    if Apply(t, s).Ok? {
      match s
      case Record(c) => InsertIsSound(t, c);
      case Replace(request, cs) =>
        if cs != [] {
          DeleteIsSound(t, request);
          InsertAllIsSound(DeleteRequest(t, request).value, cs);
        }
      case Delete(request) => DeleteIsSound(t, request);
      case Import(p) => ImportIsSound(t, p);
      case Harness(batch, key, cursor) =>
        IngestIsSound(t, LostSkips(batch), Offers(batch));
        SoundBySameRows(IngestAll(t, LostSkips(batch), Offers(batch)).tables, Next(t, s));
      case Entomb(bs, synced, remote) => TombstonesAreSound(t, bs, synced, remote);
      case _ => SoundBySameRows(t, Next(t, s));
    }
  }

  /** In every reachable state a locally tombstoned interaction is absent, and every row's parent
      and conversation are stored. */
  lemma {:induction false} ReachableIsSound(steps: seq<Step>)
    ensures Sound(Run(EMPTY, steps))
  {
    if steps != [] {
      ReachableIsSound(steps[..|steps| - 1]);
      StepIsSound(Run(EMPTY, steps[..|steps| - 1]), steps[|steps| - 1]);
    }
  }
}
