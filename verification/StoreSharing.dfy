/** Shares, publications and what may be projected to a destination. */
module StoreSharing {
  import opened Bytes
  import opened StoreTables

  const ANYWHERE: Remote := "*"

  /** The interactions a share of a conversation covers. */
  function Rows(t: Tables, c: Conversation): set<Id> {
    set id | id in t.interactions && t.interactions[id].conversation == c
  }

  function AsSet<T(==)>(s: seq<T>): set<T> {
    set x | x in s
  }

  function ShareRows(ids: set<Id>, r: Remote): set<(Id, Remote)> {
    set id | id in ids :: (id, r)
  }

  function Share(t: Tables, c: Conversation, r: Remote, future: bool): Tables {
    t.(shares := t.shares + ShareRows(Rows(t, c), r), futures := t.futures[(c, r) := future])
  }

  /** Sharing exactly the ids a reader was shown: refused when their number is not the number of
      rows, or one of them is not a row. */
  function ShareExact(t: Tables, c: Conversation, r: Remote, ids: seq<Id>, future: bool): Result<Tables> {
    if |Rows(t, c)| != |ids| || exists id :: id in ids && id !in Rows(t, c) then Refused(Changed)
    else Ok(t.(shares := t.shares + ShareRows(AsSet(ids), r), futures := t.futures[(c, r) := future]))
  }

  /** Something of the conversation has a publication at the destination, in whatever state. */
  predicate IsBlocked(t: Tables, c: Conversation, r: Remote) {
    exists id :: id in Rows(t, c) && (id, r) in t.publications
  }

  function Unshare(t: Tables, c: Conversation, r: Remote): Result<Tables> {
    if IsBlocked(t, c, r) then Refused(Blocked)
    else Ok(t.(shares := t.shares - ShareRows(Rows(t, c), r), futures := t.futures[(c, r) := false]))
  }

  /** A publication moved to `state`: `Published` is terminal and keeps its first timestamp. */
  function Marked(was: Option<Publication>, state: PublicationState, now: int): Publication {
    if was.Some? && was.value.state == Published then was.value else Publication(state, now)
  }

  function Stored(t: Tables, k: (Id, Remote)): Option<Publication> {
    if k in t.publications then Some(t.publications[k]) else None
  }

  function Mark(t: Tables, ids: set<Id>, r: Remote, state: PublicationState, now: int): Tables {
    t.(publications := map k | k in t.publications.Keys + ShareRows(ids, r) ::
         if k.1 == r && k.0 in ids then Marked(Stored(t, k), state, now) else t.publications[k])
  }

  function Clear(t: Tables, ids: set<Id>, r: Remote): Tables {
    t.(publications := map k | k in t.publications
         && !(k.1 == r && k.0 in ids && t.publications[k].state != Published) :: t.publications[k])
  }

  /** What `Mark` leaves under one key. */
  function MarkedAt(t: Tables, ids: set<Id>, r: Remote, state: PublicationState, now: int, k: (Id, Remote))
    : Option<Publication>
  {
    if k.1 == r && k.0 in ids then Some(Marked(Stored(t, k), state, now)) else Stored(t, k)
  }

  lemma MarkAt(t: Tables, ids: set<Id>, r: Remote, state: PublicationState, now: int, k: (Id, Remote))
    ensures Stored(Mark(t, ids, r, state, now), k) == MarkedAt(t, ids, r, state, now, k)
  {
    if k.1 == r && k.0 in ids { assert k in ShareRows(ids, r); }
  }

  lemma SamePublications(a: map<(Id, Remote), Publication>, b: map<(Id, Remote), Publication>)
    requires forall k :: (k in a <==> k in b) && (k in a ==> a[k] == b[k])
    ensures a == b
  {
  }

  /** Marking one id after a set of ids marks the larger set, also when the id was among them. */
  lemma MarkOneMore(t: Tables, ids: set<Id>, id: Id, r: Remote, state: PublicationState, now: int)
    ensures Mark(Mark(t, ids, r, state, now), {id}, r, state, now) == Mark(t, ids + {id}, r, state, now)
  {
    var m := Mark(t, ids, r, state, now);
    var u, v := Mark(m, {id}, r, state, now), Mark(t, ids + {id}, r, state, now);
    forall k ensures Stored(u, k) == Stored(v, k) {
      hide Mark;
      MarkAt(t, ids, r, state, now, k);
      MarkAt(m, {id}, r, state, now, k);
      MarkAt(t, ids + {id}, r, state, now, k);
    }
    forall k ensures (k in u.publications <==> k in v.publications)
      && (k in u.publications ==> u.publications[k] == v.publications[k])
    {
      hide Mark;
      assert Stored(u, k) == Stored(v, k);
    }
    SamePublications(u.publications, v.publications);
  }

  lemma ClearOneMore(t: Tables, ids: set<Id>, id: Id, r: Remote)
    ensures Clear(Clear(t, ids, r), {id}, r) == Clear(t, ids + {id}, r)
  {
    assert Clear(Clear(t, ids, r), {id}, r).publications == Clear(t, ids + {id}, r).publications;
  }

  predicate SharedWith(t: Tables, id: Id, r: Remote) {
    (id, r) in t.shares || (id, ANYWHERE) in t.shares
  }

  /** The interactions a push to `r` may send. */
  function Projected(t: Tables, r: Remote): set<Id> {
    set id | id in t.interactions && SharedWith(t, id, r)
      && ((id, r) !in t.publications || t.publications[(id, r)].state != Unknown)
  }

  /** A push may send a stored row shared with the destination or with all, unless its publication there is unknown. */
  lemma ProjectedExactly(t: Tables, r: Remote, id: Id)
    ensures id in Projected(t, r) <==>
      && id in t.interactions && ((id, r) in t.shares || (id, "*") in t.shares)
      && ((id, r) in t.publications ==>
            t.publications[(id, r)].state == Pending || t.publications[(id, r)].state == Published)
  {
  }

  /** How many of a conversation's rows are shared for a destination, and how many a share would add. */
  function SharedRows(t: Tables, c: Conversation, r: Remote): set<Id> {
    set id | id in Rows(t, c) && SharedWith(t, id, r)
  }

  function Min(a: nat, b: nat): nat { if a < b then a else b }

  function SnapshotNew(t: Tables, c: Conversation, r: Remote): nat {
    |Rows(t, c)| - Min(|SharedRows(t, c, r)|, |Rows(t, c)|)
  }

  predicate Distinct<T(==)>(s: seq<T>) {
    forall i, j :: 0 <= i < j < |s| ==> s[i] != s[j]
  }

  lemma {:induction false} ElementsOf<T>(s: seq<T>)
    ensures |AsSet(s)| <= |s|
    ensures |AsSet(s)| == |s| <==> Distinct(s)
  {
    if s != [] {
      var init, last := s[..|s| - 1], s[|s| - 1];
      ElementsOf(init);
      assert s == init + [last];
      assert AsSet(s) == AsSet(init) + {last};
      if Distinct(init) && last !in init {
        assert Distinct(s);
      } else if last in init {
        var i :| 0 <= i < |init| && init[i] == last;
        assert s[i] == s[|s| - 1];
        assert AsSet(s) == AsSet(init);
      } else {
        var i, j :| 0 <= i < j < |init| && init[i] == init[j];
        assert s[i] == s[j];
      }
    } else {
      assert AsSet(s) == {};
    }
  }

  lemma SubsetSize<T>(a: set<T>, b: set<T>)
    requires a <= b
    ensures |a| <= |b|
    ensures |a| == |b| ==> a == b
  {
    assert b == a + (b - a);
  }

  /** The compare-and-set covers the conversation exactly when the ids it is given are distinct. */
  lemma ExactSnapshotCoversIffDistinct(t: Tables, c: Conversation, r: Remote, ids: seq<Id>, future: bool)
    requires ShareExact(t, c, r, ids, future).Ok?
    ensures AsSet(ids) == Rows(t, c) <==> Distinct(ids)
  {
    var s := AsSet(ids);
    ElementsOf(ids);
    SubsetSize(s, Rows(t, c));
  }

  /** After a successful compare-and-set nothing is left to share, exactly when every row it did
      not name was shared before; distinct ids name every row. */
  lemma AfterExactSnapshot(t: Tables, c: Conversation, r: Remote, ids: seq<Id>, future: bool)
    requires ShareExact(t, c, r, ids, future).Ok?
    ensures var u := ShareExact(t, c, r, ids, future).value;
      SnapshotNew(u, c, r) == 0 <==> forall id :: id in Rows(t, c) ==> id in ids || SharedWith(t, id, r)
    ensures Distinct(ids) ==> SnapshotNew(ShareExact(t, c, r, ids, future).value, c, r) == 0
  {
    var u := ShareExact(t, c, r, ids, future).value;
    ExactSnapshotCoversIffDistinct(t, c, r, ids, future);
    SubsetSize(SharedRows(u, c, r), Rows(u, c));
    assert Rows(u, c) == Rows(t, c);
    forall id | id in Rows(t, c) ensures id in SharedRows(u, c, r) <==> id in ids || SharedWith(t, id, r) {
    }
    if Distinct(ids) {
      assert forall id :: id in Rows(t, c) ==> id in AsSet(ids);
    }
    if forall id :: id in Rows(t, c) ==> id in ids || SharedWith(t, id, r) {
      assert SharedRows(u, c, r) == Rows(u, c);
    }
  }

  /** The same id given twice passes the count and the membership check and leaves a row out. */
  lemma RepeatedIdLeavesARowOut(a: Interaction)
    ensures var c := a.conversation;
      var t := EMPTY.(interactions := map["1" := a, "2" := a]);
      var r := ShareExact(t, c, "origin", ["1", "1"], false);
      r.Ok? && ("2", "origin") !in r.value.shares && SnapshotNew(r.value, c, "origin") == 1
  {
    var c := a.conversation;
    var t := EMPTY.(interactions := map["1" := a, "2" := a]);
    var u := t.(shares := {("1", "origin")}, futures := map[(c, "origin") := false]);
    assert Rows(t, c) == {"1", "2"};
    assert AsSet(["1", "1"]) == {"1"};
    assert ShareRows({"1"}, "origin") == {("1", "origin")};
    assert ShareExact(t, c, "origin", ["1", "1"], false) == Ok(u);
    assert Rows(u, c) == {"1", "2"};
    assert SharedRows(u, c, "origin") == {"1"};
  }

  /** What a view shows of one conversation, and of a destination as a whole. */
  datatype Counts = Counts(shared: nat, published: nat, unconfirmed: nat)

  function InState(t: Tables, ids: set<Id>, r: Remote, published: bool): (s: set<Id>)
    ensures s <= ids
  {
    set id | id in ids && (id, r) in t.publications && (t.publications[(id, r)].state == Published) == published
  }

  function Summary(t: Tables, c: Conversation, r: Remote): Counts {
    var s := SharedRows(t, c, r);
    Counts(|s|, |InState(t, s, r, true)|, |InState(t, s, r, false)|)
  }

  function Totals(t: Tables, r: Remote): Counts {
    var s := SharedIn(t, r);
    Counts(|s|, |InState(t, s, r, true)|, |InState(t, s, r, false)|)
  }

  /** A summary counts the rows of the conversation shared there or anywhere, and of these the ones known to be published
      there and the ones sent with no such answer. */
  lemma SummaryCounts(t: Tables, c: Conversation, r: Remote)
    ensures Summary(t, c, r) == Counts(
      |set id | id in t.interactions && CountsIn(t, c, r, id)|,
      |set id | id in t.interactions && CountsIn(t, c, r, id) && (id, r) in t.publications
                && t.publications[(id, r)].state == Published|,
      |set id | id in t.interactions && CountsIn(t, c, r, id) && (id, r) in t.publications
                && (t.publications[(id, r)].state == Pending || t.publications[(id, r)].state == Unknown)|)
  {
    var s := SharedRows(t, c, r);
    assert s == set id | id in t.interactions && CountsIn(t, c, r, id);
    assert InState(t, s, r, true) == set id | id in t.interactions && CountsIn(t, c, r, id) && (id, r) in t.publications
                                              && t.publications[(id, r)].state == Published;
    assert InState(t, s, r, false)
        == set id | id in t.interactions && CountsIn(t, c, r, id) && (id, r) in t.publications
                    && (t.publications[(id, r)].state == Pending || t.publications[(id, r)].state == Unknown);
  }

  predicate CountsIn(t: Tables, c: Conversation, r: Remote, id: Id)
    requires id in t.interactions
  {
    t.interactions[id].conversation == c && ((id, r) in t.shares || (id, "*") in t.shares)
  }

  function Plus(a: Counts, b: Counts): Counts {
    Counts(a.shared + b.shared, a.published + b.published, a.unconfirmed + b.unconfirmed)
  }

  /** The summaries of a list of conversations, added up. */
  function SumOf(t: Tables, cs: seq<Conversation>, r: Remote): Counts {
    if cs == [] then Counts(0, 0, 0) else Plus(SumOf(t, cs[..|cs| - 1], r), Summary(t, cs[|cs| - 1], r))
  }

  /** The rows of `s` that belong to one of the listed conversations. */
  function Within(t: Tables, s: set<Id>, cs: seq<Conversation>): set<Id>
    requires s <= t.interactions.Keys
  {
    set id | id in s && t.interactions[id].conversation in cs
  }

  lemma DisjointSizes<T>(a: set<T>, b: set<T>)
    requires a !! b
    ensures |a + b| == |a| + |b|
  {
  }

  /** One more conversation adds exactly its own rows of `s`. */
  lemma WithinOneMore(t: Tables, s: set<Id>, cs: seq<Conversation>, c: Conversation)
    requires s <= t.interactions.Keys && c !in cs
    ensures |Within(t, s, cs + [c])| == |Within(t, s, cs)| + |s * Rows(t, c)|
  {
    assert Within(t, s, cs + [c]) == Within(t, s, cs) + s * Rows(t, c);
    DisjointSizes(Within(t, s, cs), s * Rows(t, c));
  }

  function SharedIn(t: Tables, r: Remote): (s: set<Id>)
    ensures s <= t.interactions.Keys
  {
    set id | id in t.interactions && SharedWith(t, id, r)
  }

  lemma NoneWithin(t: Tables, s: set<Id>)
    requires s <= t.interactions.Keys
    ensures |Within(t, s, [])| == 0
  {
    assert Within(t, s, []) == {};
  }

  lemma LastIsNew<T>(s: seq<T>)
    requires Distinct(s) && s != []
    ensures Distinct(s[..|s| - 1]) && s[|s| - 1] !in s[..|s| - 1]
  {
  }

  lemma {:induction false} PartialSum(t: Tables, cs: seq<Conversation>, r: Remote)
    requires Distinct(cs)
    ensures var s := SharedIn(t, r);
      SumOf(t, cs, r) == Counts(|Within(t, s, cs)|,
                                |Within(t, InState(t, s, r, true), cs)|,
                                |Within(t, InState(t, s, r, false), cs)|)
  {
    hide Within, SharedRows, SharedIn, InState, Rows, Distinct;
    var s := SharedIn(t, r);
    var yes, no := InState(t, s, r, true), InState(t, s, r, false);
    if cs == [] {
      NoneWithin(t, s);
      NoneWithin(t, yes);
      NoneWithin(t, no);
    } else {
      var init, c := cs[..|cs| - 1], cs[|cs| - 1];
      assert cs == init + [c];
      LastIsNew(cs);
      PartialSum(t, init, r);
      WithinOneMore(t, s, init, c);
      WithinOneMore(t, yes, init, c);
      WithinOneMore(t, no, init, c);
      OwnShare(t, c, r);
    }
  }

  /** A conversation's counted rows are the destination's counted rows that belong to it. */
  lemma OwnShare(t: Tables, c: Conversation, r: Remote)
    ensures var s, own := SharedIn(t, r), SharedRows(t, c, r);
      && own == s * Rows(t, c)
      && InState(t, own, r, true) == InState(t, s, r, true) * Rows(t, c)
      && InState(t, own, r, false) == InState(t, s, r, false) * Rows(t, c)
  {
    var s, own := SharedIn(t, r), SharedRows(t, c, r);
    assert own == s * Rows(t, c);
    assert InState(t, own, r, true) == InState(t, s, r, true) * Rows(t, c);
    assert InState(t, own, r, false) == InState(t, s, r, false) * Rows(t, c);
  }

  /** Summed over all conversations, each once, the summaries are the destination's totals. */
  lemma SummariesAddUp(t: Tables, cs: seq<Conversation>, r: Remote)
    requires Sound(t) && Distinct(cs) && forall c :: c in cs <==> c in t.conversations
    ensures SumOf(t, cs, r) == Totals(t, r)
  {
    PartialSum(t, cs, r);
    var s := SharedIn(t, r);
    assert Within(t, s, cs) == s;
    assert Within(t, InState(t, s, r, true), cs) == InState(t, s, r, true);
    assert Within(t, InState(t, s, r, false), cs) == InState(t, s, r, false);
  }
}
