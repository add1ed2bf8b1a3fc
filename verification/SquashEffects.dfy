/** What each change to the queue leaves, exactly, and what a scan does with each target of its list. */
module SquashEffects {
  import opened Bytes
  import opened StoreSharing
  import opened SquashQueue
  import opened SquashRotation
  import opened SquashDiscovery

  // --- Pruning ---

  /** Every pending row stays, and of the others the newest 512, or all when there are no more. */
  ghost predicate IsPruned(rows: map<Oid, Row>, u: map<Oid, Row>) {
    && (forall k :: k in u ==> k in rows && u[k] == rows[k])
    && (forall k :: k in rows && rows[k].status == Pending ==> k in u)
    && (forall gone, kept :: gone in rows && gone !in u && kept in u && u[kept].status != Pending ==>
          rows[gone].order < rows[kept].order)
    && |ResolvedOf(u)| == if |ResolvedOf(rows)| < 512 then |ResolvedOf(rows)| else 512
  }

  lemma {:induction false} Newest(rows: map<Oid, Row>, s: set<Oid>) returns (k: Oid)
    requires s != {} && s <= rows.Keys
    ensures k in s && forall j :: j in s ==> rows[j].order <= rows[k].order
    decreases s
  {
    k :| k in s;
    if s != {k} {
      var other := Newest(rows, s - {k});
      if rows[other].order > rows[k].order { k := other; }
    }
  }

  /** Pruning is exact: a row that goes leaves 512 newer ones behind. */
  lemma PruneIsExact(rows: map<Oid, Row>)
    requires DistinctOrders(rows)
    ensures IsPruned(rows, Prune(rows))
  {
    hide Prune, DistinctOrders, ResolvedOf, PendingOf, Newer;
    PruneKeepsTheNewest(rows);
    NewerAreKept(rows);
    hide IsPruned;
    PrunedSize(rows);
    IsPrunedBy(rows, Prune(rows));
  }

  /** All resolved rows stay, or one goes that has 512 newer ones, which stay. */
  lemma PrunedSize(rows: map<Oid, Row>)
    requires DistinctOrders(rows)
    ensures |ResolvedOf(Prune(rows))| == if |ResolvedOf(rows)| < 512 then |ResolvedOf(rows)| else 512
  {
    hide Prune, DistinctOrders, Newer;
    PruneLeavesFew(rows);
    NewerAreKept(rows);
    var u := Prune(rows);
    var gone := ResolvedOf(rows) - ResolvedOf(u);
    SubsetSize(ResolvedOf(u), ResolvedOf(rows));
    if gone == {} {
      assert ResolvedOf(rows) == ResolvedOf(u) + gone;
    } else {
      var k := Newest(rows, gone);
      NewestGone(rows, k);
      SubsetSize(Newer(rows, k), ResolvedOf(u));
    }
  }

  lemma NewestGone(rows: map<Oid, Row>, k: Oid)
    requires k in ResolvedOf(rows) && k !in ResolvedOf(Prune(rows))
    requires forall j :: j in ResolvedOf(rows) && j !in ResolvedOf(Prune(rows)) ==> rows[j].order <= rows[k].order
    ensures |Newer(rows, k)| >= 512 && Newer(rows, k) <= ResolvedOf(Prune(rows))
  {
  }

  lemma NewerAreKept(rows: map<Oid, Row>)
    ensures ResolvedOf(Prune(rows)) <= ResolvedOf(rows)
    ensures forall k :: k in rows && rows[k].status == Pending ==> k in Prune(rows)
  {
  }

  lemma IsPrunedBy(rows: map<Oid, Row>, u: map<Oid, Row>)
    requires forall k :: k in u ==> k in rows && u[k] == rows[k]
    requires forall k :: k in rows && rows[k].status == Pending ==> k in u
    requires forall gone, kept :: gone in rows && gone !in u && kept in ResolvedOf(u) ==> rows[gone].order < rows[kept].order
    requires |ResolvedOf(u)| == if |ResolvedOf(rows)| < 512 then |ResolvedOf(rows)| else 512
    ensures IsPruned(rows, u)
  {
  }

  // --- Discovery ---

  /** Candidate `i` is the first of its id, and the id was not known. */
  ghost predicate IsFirstNew(rows: map<Oid, Row>, cs: seq<Candidate>, i: int) {
    0 <= i < |cs| && cs[i].oid !in rows && forall j :: 0 <= j < i ==> cs[j].oid != cs[i].oid
  }

  /** What is known stays as it was, and of each id that was not, its first candidate is recorded: under the next
      numbers after the largest, in order, and pending exactly when it is supported. */
  ghost predicate IsAdded(rows: map<Oid, Row>, cs: seq<Candidate>, u: map<Oid, Row>) {
    && (forall k :: k in rows ==> k in u && u[k] == rows[k])
    && (forall k :: k in u ==> k in rows || exists i :: IsFirstNew(rows, cs, i) && cs[i].oid == k)
    && exists most: nat :: IsMax(rows, OrderOf, most) && forall i :: IsFirstNew(rows, cs, i) ==> IsAddedAt(most, cs, i, u)
  }

  ghost predicate IsAddedAt(most: nat, cs: seq<Candidate>, i: int, u: map<Oid, Row>)
    requires 0 <= i < |cs|
  {
    && cs[i].oid in u
    && u[cs[i].oid] == Row(cs[i].parent, if cs[i].supported then Pending else Unsupported, most + i + 1, 0, 0)
  }

  lemma {:induction false} FirstOf(rows: map<Oid, Row>, cs: seq<Candidate>, n: nat) returns (i: nat)
    requires n < |cs| && cs[n].oid !in rows
    ensures i <= n && IsFirstNew(rows, cs, i) && cs[i].oid == cs[n].oid
    decreases n
  {
    if j :| 0 <= j < n && cs[j].oid == cs[n].oid {
      i := FirstOf(rows, cs, j);
    } else {
      i := n;
    }
  }

  lemma AddIsExact(rows: map<Oid, Row>, cs: seq<Candidate>)
    requires DistinctOrders(rows)
    ensures IsAdded(rows, cs, Add(rows, MaxOf(rows, OrderOf), cs))
  {
    hide Add, CountNew;
    var most := MaxOf(rows, OrderOf);
    assert IsMax(rows, OrderOf, most);
    assert forall k :: k in rows ==> OrderOf(rows[k]) <= most;
    AddKeeps(rows, most, cs);
    hide IsMax, DistinctOrders;
    forall k | k in Add(rows, most, cs) && k !in rows ensures exists i :: IsFirstNew(rows, cs, i) && cs[i].oid == k {
      AddedIsNew(rows, most, cs, k);
    }
    forall i | IsFirstNew(rows, cs, i) ensures IsAddedAt(most, cs, i, Add(rows, most, cs)) { AddRecords(rows, most, cs, i); }
  }

  lemma AddedIsNew(rows: map<Oid, Row>, most: nat, cs: seq<Candidate>, k: Oid)
    requires k in Add(rows, most, cs) && k !in rows
    ensures exists i :: IsFirstNew(rows, cs, i) && cs[i].oid == k
  {
    hide Add, IsFirstNew;
    AddAddsOnly(rows, most, cs, k);
    var c :| c in cs && c.oid == k;
    var n :| 0 <= n < |cs| && cs[n] == c;
    var i := FirstOf(rows, cs, n);
  }

  /** The places of the list whose id is not known. */
  function NewPlaces(rows: map<Oid, Row>, cs: seq<Candidate>): set<int> {
    set i | 0 <= i < |cs| && cs[i].oid !in rows
  }

  lemma {:induction false} CountIsPlaces(rows: map<Oid, Row>, cs: seq<Candidate>)
    ensures CountNew(rows, cs) == |NewPlaces(rows, cs)|
  {
    hide NewPlaces;
    PlacesNext(rows, cs);
    if cs != [] {
      CountIsPlaces(rows, cs[..|cs| - 1]);
    }
  }

  lemma PlacesNext(rows: map<Oid, Row>, cs: seq<Candidate>)
    ensures cs == [] ==> NewPlaces(rows, cs) == {}
    ensures cs != [] ==>
      |NewPlaces(rows, cs)| == |NewPlaces(rows, cs[..|cs| - 1])| + if cs[|cs| - 1].oid in rows then 0 else 1
  {
    if cs != [] {
      var init, n := cs[..|cs| - 1], |cs| - 1;
      assert NewPlaces(rows, cs) == NewPlaces(rows, init) + if cs[n].oid in rows then {} else {n};
    }
  }

  /** Recording is exact: refused when the cursor has moved, or else when there is no room for every candidate listed
      that is not known; and otherwise every candidate and the new cursor together. */
  lemma DiscoverIsExact(q: Queue, expected: Option<Oid>, head: Oid, cs: seq<Candidate>)
    requires Bounded(q)
    ensures var (u, d) := DiscoverIn(q, expected, head, cs);
      && (d == CursorMoved <==> q.cursor != expected)
      && (d == Full <==> q.cursor == expected && |PendingOf(q.rows)| + |NewPlaces(q.rows, cs)| > 4096)
      && (d != Recorded ==> u == q)
      && (d == Recorded ==> u.cursor == Some(head) && exists all :: IsAdded(q.rows, cs, all) && IsPruned(all, u.rows))
  {
    hide Prune, Add, IsPruned, IsAdded, CountNew;
    CountIsPlaces(q.rows, cs);
    AddIsExact(q.rows, cs);
    var all := Add(q.rows, MaxOf(q.rows, OrderOf), cs);
    AddKeeps(q.rows, MaxOf(q.rows, OrderOf), cs);
    PruneIsExact(all);
    assert IsAdded(q.rows, cs, all);
  }

  // --- Attempts and matches ---

  /** An attempt is exact: a pending target is attempted once more, one after the latest attempt of any; nothing else
      changes. */
  lemma MarkIsExact(q: Queue, k: Oid)
    ensures var u := MarkIn(q, k);
      if k in q.rows && q.rows[k].status == Pending then
        var r := q.rows[k];
        exists latest: nat :: IsMax(q.rows, AttemptOf, latest)
          && u == q.(rows := q.rows[k := Row(r.parent, Pending, r.order, latest + 1, r.attempts + 1)])
      else u == q
  {
    if k in q.rows && q.rows[k].status == Pending {
      assert IsMax(q.rows, AttemptOf, MaxOf(q.rows, AttemptOf));
    }
  }

  /** A match is exact: the target is pending no more, and the queue is pruned. */
  lemma MatchIsExact(q: Queue, k: Oid)
    requires Bounded(q) && k in PendingOf(q.rows)
    ensures var u := MatchIn(q, k);
      u.cursor == q.cursor && IsPruned(q.rows[k := q.rows[k].(status := Matched)], u.rows)
  {
    hide Prune, IsPruned;
    PruneIsExact(q.rows[k := q.rows[k].(status := Matched)]);
  }

  // --- The list of a scan ---

  /** Where the attempt of target `i` stands among the events of a scan: one place for each target before it, and one
      for each of these that was relinked. */
  function PlaceOf(verdicts: seq<Verdict>, i: nat): nat
    requires i <= |verdicts|
  {
    if i == 0 then 0 else PlaceOf(verdicts, i - 1) + if verdicts[i - 1].Relinked? then 2 else 1
  }

  /** Target `i` is reached: no attempt before it failed, and there was time. */
  ghost predicate Reached(todo: seq<Oid>, verdicts: seq<Verdict>, i: int) {
    0 <= i < |todo| && i < |verdicts| && forall j :: 0 <= j < i ==> verdicts[j] != Failed
  }

  lemma {:induction false} PlaceLater(verdicts: seq<Verdict>, i: nat)
    requires i < |verdicts|
    ensures PlaceOf(verdicts, i + 1) == PlaceOf(verdicts[1..], i) + if verdicts[0].Relinked? then 2 else 1
  {
    if i > 0 { PlaceLater(verdicts, i - 1); }
  }

  /** The targets of the list are attempted in its order, each in its place; a target is resolved if its
      verdict says so, right after its attempt. */
  lemma {:induction false} EachTargetInTurn(todo: seq<Oid>, verdicts: seq<Verdict>, i: nat)
    requires Reached(todo, verdicts, i)
    ensures var events, at := EventsOf(todo, verdicts), PlaceOf(verdicts, i);
      && at < |events| && events[at] == Attempt
      && (verdicts[i].Relinked? ==> at + 1 < |events| && events[at + 1] == Resolve(todo[i]))
      && (verdicts[i] == Failed ==> |events| == at + 1)
      && (!Reached(todo, verdicts, i + 1) && verdicts[i] != Failed ==> |events| == PlaceOf(verdicts, i + 1))
    decreases i
  {
    if i > 0 {
      assert verdicts[0] != Failed;
      assert forall j :: 0 <= j < i - 1 ==> verdicts[1..][j] == verdicts[j + 1];
      EachTargetInTurn(todo[1..], verdicts[1..], i - 1);
      PlaceLater(verdicts, i - 1);
      PlaceLater(verdicts, i);
      ReachedLater(todo, verdicts, i + 1);
    } else if verdicts[0] != Failed {
      NothingAfter(todo, verdicts);
    }
  }

  lemma ReachedLater(todo: seq<Oid>, verdicts: seq<Verdict>, i: nat)
    requires i > 0 && todo != [] && verdicts != [] && verdicts[0] != Failed
    ensures Reached(todo, verdicts, i) <==> Reached(todo[1..], verdicts[1..], i - 1)
  {
    if Reached(todo[1..], verdicts[1..], i - 1) {
      forall j | 0 <= j < i ensures verdicts[j] != Failed {
        if j > 0 { assert verdicts[1..][j - 1] == verdicts[j]; }
      }
    }
  }

  lemma NothingAfter(todo: seq<Oid>, verdicts: seq<Verdict>)
    requires todo != [] && verdicts != [] && verdicts[0] != Failed
    ensures !Reached(todo, verdicts, 1) ==> EventsOf(todo[1..], verdicts[1..]) == []
  {
  }
}
