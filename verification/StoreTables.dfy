/** The tables of the store as one value, and the row changes every transaction is made of. */
module StoreTables {
  import opened Bytes

  type Id = Text
  type Remote = Text
  type Conversation = Text

  datatype Source = Mcp | VscodePassive | VscodeExplicit | CliRun | SyncImport | ClaudeCode | Legacy

  /** An interaction row; `content` stands for the columns no rule below looks at. */
  datatype Interaction = Interaction(
    conversation: Conversation, parent: Option<Id>, source: Source, request: Option<Text>, content: Text)

  /** A prepared capture: the row it asks for, and the id to store it under. */
  datatype Capture = Capture(id: Id, row: Interaction)

  datatype PublicationState = Pending | Published | Unknown

  datatype Publication = Publication(state: PublicationState, updatedAt: int)

  datatype Scope = Local | At(remote: Remote)

  datatype Reason = UserRequested | Security | Retention

  /** A tombstone as it is received or made, before it is stored. */
  datatype Tombstone = Tombstone(
    id: Id, format: Text, version: nat, deletedAt: int, reason: Reason, previous: Option<Text>)

  /** A stored tombstone; `confirmed` is its `published` state. */
  datatype Grave = Grave(deletedAt: int, reason: Reason, previous: Option<Text>, confirmed: bool)

  /** A derivation event row. A source list that does not parse is an empty one. */
  datatype Event = Event(interaction: Id, sources: seq<Text>, payload: Text)

  datatype Cursor = Cursor(path: Text, offset: nat, updatedAt: int)

  datatype Tables = Tables(
    conversations: set<Conversation>,
    interactions: map<Id, Interaction>,
    shares: set<(Id, Remote)>,
    futures: map<(Conversation, Remote), bool>,
    publications: map<(Id, Remote), Publication>,
    tombstones: map<(Id, Scope), Grave>,
    events: map<Text, Event>,
    cursors: map<(Text, Text), Cursor>)

  datatype Refusal =
    | Tombstoned | AlreadyStored | ForeignKey | RequestMismatch | TombstoneConflict | BadTombstone
    | InvalidEvent | EventConflict | Changed | Blocked | Overflow

  datatype Result<+T> = Ok(value: T) | Refused(why: Refusal)

  const EMPTY := Tables({}, map[], {}, map[], map[], map[], map[], map[])

  /** The sources that take part in their conversation's future sharing. */
  predicate Inherits(source: Source) {
    source != Mcp && source != Legacy
  }

  predicate LocallyTombstoned(t: Tables, id: Id) {
    (id, Local) in t.tombstones
  }

  /** What a pull from `remote` must not store again: local tombstones and that remote's own. */
  predicate TombstonedFor(t: Tables, id: Id, remote: Option<Remote>) {
    LocallyTombstoned(t, id) || (remote.Some? && (id, At(remote.value)) in t.tombstones)
  }

  ghost predicate InConversation(t: Tables, id: Id, c: Conversation) {
    id in t.interactions && t.interactions[id].conversation == c
  }

  predicate FutureOn(t: Tables, c: Conversation, r: Remote) {
    (c, r) in t.futures && t.futures[(c, r)]
  }

  /** The share rows a new row of `source` gets from its conversation's future sharing. */
  function FutureShares(t: Tables, id: Id, row: Interaction): set<(Id, Remote)> {
    if Inherits(row.source)
    then set k | k in t.futures && t.futures[k] && k.0 == row.conversation :: (id, k.1)
    else {}
  }

  /** One insertion: a stored tombstone, a taken id or a parent that is not stored refuses it. A
      row may name itself as its parent. */
  function Insert(t: Tables, c: Capture): (r: Result<Tables>)
    ensures r.Ok? ==> c.id !in t.interactions && !LocallyTombstoned(t, c.id)
  {
    if LocallyTombstoned(t, c.id) then Refused(Tombstoned)
    else if c.id in t.interactions then Refused(AlreadyStored)
    else if c.row.parent.Some? && c.row.parent.value != c.id && c.row.parent.value !in t.interactions
    then Refused(ForeignKey)
    else
      Ok(t.(conversations := t.conversations + {c.row.conversation},
            interactions := t.interactions[c.id := c.row],
            shares := t.shares + FutureShares(t, c.id, c.row)))
  }

  function InsertAll(t: Tables, cs: seq<Capture>): Result<Tables> {
    if cs == [] then Ok(t)
    else
      var r := InsertAll(t, cs[..|cs| - 1]);
      if r.Refused? then r else Insert(r.value, cs[|cs| - 1])
  }

  /** The ids stored for one editor request. */
  function OfRequest(t: Tables, request: Text): set<Id> {
    set id | id in t.interactions && t.interactions[id].request == Some(request)
  }

  /** Deletes the rows of one request. Their share and publication rows stay behind; a surviving
      child of a deleted row makes the statement fail. */
  function DeleteRequest(t: Tables, request: Text): Result<Tables> {
    var gone := OfRequest(t, request);
    var left := t.interactions - gone;
    if exists id :: id in left && left[id].parent.Some? && left[id].parent.value in gone
    then Refused(ForeignKey)
    else Ok(t.(interactions := left))
  }

  /** What every reachable state keeps: rows name stored conversations and stored parents, and
      nothing locally tombstoned is stored. */
  ghost predicate Sound(t: Tables) {
    && (forall id :: id in t.interactions ==> t.interactions[id].conversation in t.conversations)
    && (forall id :: id in t.interactions && t.interactions[id].parent.Some? ==>
          t.interactions[id].parent.value in t.interactions)
    && (forall id :: id in t.interactions ==> !LocallyTombstoned(t, id))
  }

  /** Every share row belongs to a stored interaction, or to one that can never be stored again. */
  ghost predicate OrphanFree(t: Tables) {
    forall p :: p in t.shares ==> p.0 in t.interactions || LocallyTombstoned(t, p.0)
  }

  lemma InsertIsSound(t: Tables, c: Capture)
    requires Sound(t) && Insert(t, c).Ok?
    ensures Sound(Insert(t, c).value)
    ensures OrphanFree(t) ==> OrphanFree(Insert(t, c).value)
  {
  }

  lemma {:induction false} InsertAllIsSound(t: Tables, cs: seq<Capture>)
    requires Sound(t) && InsertAll(t, cs).Ok?
    ensures Sound(InsertAll(t, cs).value)
    ensures OrphanFree(t) ==> OrphanFree(InsertAll(t, cs).value)
  {
    if cs != [] {
      InsertAllIsSound(t, cs[..|cs| - 1]);
      InsertIsSound(InsertAll(t, cs[..|cs| - 1]).value, cs[|cs| - 1]);
    }
  }

  /** What insertions may do: stored rows stay, and exactly the new rows get share rows, each those
      its source and its conversation's future sharing give it. */
  ghost predicate Grown(t: Tables, u: Tables) {
    && u == t.(conversations := u.conversations, interactions := u.interactions, shares := u.shares)
    && (forall id :: id in t.interactions ==> id in u.interactions && u.interactions[id] == t.interactions[id])
    && (forall id, r :: (id, r) in u.shares <==> (id, r) in t.shares || SharedByFuture(t, u, id, r))
  }

  ghost predicate SharedByFuture(t: Tables, u: Tables, id: Id, r: Remote) {
    id in u.interactions && id !in t.interactions
    && Inherits(u.interactions[id].source) && FutureOn(t, u.interactions[id].conversation, r)
  }

  lemma InsertGrows(t: Tables, c: Capture)
    requires Insert(t, c).Ok?
    ensures Grown(t, Insert(t, c).value)
  {
    var u := Insert(t, c).value;
    forall id, r ensures (id, r) in u.shares <==> (id, r) in t.shares || SharedByFuture(t, u, id, r) {
      if id == c.id && Inherits(c.row.source) {
        assert (id, r) in FutureShares(t, id, c.row) <==> FutureOn(t, c.row.conversation, r);
      }
    }
  }

  lemma GrownTwice(t: Tables, m: Tables, u: Tables)
    requires Grown(t, m) && Grown(m, u)
    ensures Grown(t, u)
  {
    forall id, r ensures (id, r) in u.shares <==> (id, r) in t.shares || SharedByFuture(t, u, id, r) {
    }
  }

  lemma {:induction false} InsertAllGrows(t: Tables, cs: seq<Capture>)
    requires InsertAll(t, cs).Ok?
    ensures Grown(t, InsertAll(t, cs).value)
  {
    hide Grown, Insert;
    if cs != [] {
      var m := InsertAll(t, cs[..|cs| - 1]).value;
      InsertAllGrows(t, cs[..|cs| - 1]);
      InsertGrows(m, cs[|cs| - 1]);
      GrownTwice(t, m, Insert(m, cs[|cs| - 1]).value);
    } else {
      GrownNot(t);
    }
  }

  lemma GrownNot(t: Tables)
    ensures Grown(t, t)
  {
  }

  /** The rows `cs` asks for are there, under ids that were free, and no other new ones. */
  ghost predicate Stores(t: Tables, cs: seq<Capture>, u: Tables) {
    && (forall c :: c in cs ==> c.id !in t.interactions && c.id in u.interactions && u.interactions[c.id] == c.row)
    && (forall id :: id in u.interactions ==> id in t.interactions || exists c :: c in cs && c.id == id)
  }

  lemma OneMoreStored(t: Tables, cs: seq<Capture>, m: Tables, c: Capture)
    requires Stores(t, cs, m) && Grown(t, m) && Insert(m, c).Ok?
    ensures Stores(t, cs + [c], Insert(m, c).value)
  {
    hide FutureShares;
    var all, u := cs + [c], Insert(m, c).value;
    assert forall x :: x in all <==> x in cs || x == c;
    assert u.interactions == m.interactions[c.id := c.row];
    forall id | id in u.interactions && id !in t.interactions ensures exists x :: x in all && x.id == id {
      if id != c.id {
        var x :| x in cs && x.id == id;
        assert x in all;
      } else {
        assert c in all;
      }
    }
  }

  /** A batch that is stored is stored whole: each row as the batch gives it, under an id that was
      free, and no other row. */
  lemma {:induction false} InsertAllStores(t: Tables, cs: seq<Capture>)
    requires InsertAll(t, cs).Ok?
    ensures Stores(t, cs, InsertAll(t, cs).value)
  {
    hide Insert, Grown;
    if cs != [] {
      hide Stores;
      var init := cs[..|cs| - 1];
      InitAndLast(cs);
      InsertAllStores(t, init);
      InsertAllGrows(t, init);
      OneMoreStored(t, init, InsertAll(t, init).value, cs[|cs| - 1]);
    }
  }
}
