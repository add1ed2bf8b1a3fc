/** Runs of scans over one queue: no target that keeps failing starves the others. */
module SquashRotation {
  import opened Bytes
  import opened StoreSharing
  import opened SquashQueue

  /** The queue, and what the scan under way has still to attempt. */
  datatype Scanner = Scanner(queue: Queue, todo: seq<Oid>)

  /** A scan opens with its discovery and its list; it may then stop at any point. */
  datatype Event =
    | Open(expected: Option<Oid>, head: Oid, candidates: seq<Candidate>)
    | Attempt
    | Resolve(oid: Oid)
    | Advance(before: Option<Oid>, tip: Oid)

  ghost predicate Steps(s: Scanner, e: Event, u: Scanner) {
    match e
    case Open(expected, head, cs) =>
      var d := DiscoverIn(s.queue, expected, head, cs);
      u.queue == d.0 && if d.1 == CursorMoved then u.todo == [] else IsListing(u.queue.rows, u.todo)
    case Attempt => s.todo != [] && u == Scanner(MarkIn(s.queue, s.todo[0]), s.todo[1..])
    case Resolve(k) => k in PendingOf(s.queue.rows) && u == s.(queue := MatchIn(s.queue, k))
    case Advance(expected, tip) =>
      u == s.(queue := if s.queue.cursor == expected then s.queue.(cursor := Some(tip)) else s.queue)
  }

  ghost predicate IsRun(states: seq<Scanner>, events: seq<Event>) {
    && |states| == |events| + 1
    && states[0] == Scanner(Queue(None, map[]), [])
    && forall i :: 0 <= i < |events| ==> Steps(states[i], events[i], states[i + 1])
  }

  function Pendings(s: Scanner): set<Oid> {
    PendingOf(s.queue.rows)
  }

  lemma StepKeepsBounds(s: Scanner, e: Event, u: Scanner)
    requires Bounded(s.queue) && Steps(s, e, u)
    ensures Bounded(u.queue)
  {
    hide Bounded, DiscoverIn, MarkIn, MatchIn, IsListing;
    match e
    case Open(expected, head, cs) => DiscoverKeepsBounds(s.queue, expected, head, cs);
    case Attempt => MarkKeepsBounds(s.queue, s.todo[0]);
    case Resolve(k) => MatchKeepsBounds(s.queue, k);
    case Advance(_, _) => SameRowsSameBounds(s.queue, u.queue);
  }

  lemma SameRowsSameBounds(q: Queue, u: Queue)
    requires Bounded(q) && u.rows == q.rows
    ensures Bounded(u)
  {
  }

  /** In every reachable state at most 4096 targets are pending and 512 resolved ones are kept. */
  lemma {:induction false} ReachableIsBounded(states: seq<Scanner>, events: seq<Event>, n: nat)
    requires IsRun(states, events) && n < |states|
    ensures Bounded(states[n].queue)
  {
    if n == 0 {
      assert PendingOf(states[0].queue.rows) == {} && ResolvedOf(states[0].queue.rows) == {};
    } else {
      hide Bounded, Steps;
      ReachableIsBounded(states, events, n - 1);
      StepKeepsBounds(states[n - 1], events[n - 1], states[n]);
    }
  }

  /** Event `i` attempts `k`: it marks it while it is pending. */
  ghost predicate Attempts(states: seq<Scanner>, events: seq<Event>, i: int, k: Oid) {
    0 <= i < |events| && i < |states| && events[i].Attempt?
    && states[i].todo != [] && states[i].todo[0] == k && k in Pendings(states[i])
  }

  /** `y` waits longer than `x`: attempted less recently, and earlier in the list where `x` is. */
  ghost predicate Waits(s: Scanner, y: Oid, x: Oid) {
    && y in s.queue.rows && x in s.queue.rows
    && s.queue.rows[y].lastAttempt < s.queue.rows[x].lastAttempt
    && forall b :: 0 <= b < |s.todo| && s.todo[b] == x ==> exists a :: 0 <= a < b && s.todo[a] == y
  }

  ghost predicate ListedOnce(s: Scanner) {
    Distinct(s.todo)
  }

  lemma ListingIsDistinct(rows: map<Oid, Row>, list: seq<Oid>)
    requires IsListing(rows, list)
    ensures Distinct(list)
  {
    forall i, j | 0 <= i < j < |list| ensures list[i] != list[j] {
      assert Before(rows, list[i], list[j]);
    }
  }

  lemma {:induction false} ReachableListsOnce(states: seq<Scanner>, events: seq<Event>, n: nat)
    requires IsRun(states, events) && n < |states|
    ensures ListedOnce(states[n])
  {
    hide IsListing, DiscoverIn, MarkIn, MatchIn;
    if n > 0 {
      ReachableListsOnce(states, events, n - 1);
      assert Steps(states[n - 1], events[n - 1], states[n]);
      if events[n - 1].Open? && states[n].todo != [] {
        ListingIsDistinct(states[n].queue.rows, states[n].todo);
      }
    }
  }

  /** An attempt of `x` puts it behind every other pending target. */
  lemma AttemptMakesOthersWait(s: Scanner, u: Scanner, x: Oid, y: Oid)
    requires Steps(s, Attempt, u) && s.todo[0] == x && x in Pendings(s) && y in Pendings(s) && x != y
    requires ListedOnce(s)
    ensures Waits(u, y, x)
  {
    assert IsMax(s.queue.rows, AttemptOf, MaxOf(s.queue.rows, AttemptOf));
    assert AttemptOf(s.queue.rows[y]) <= MaxOf(s.queue.rows, AttemptOf);
    assert forall b :: 0 <= b < |u.todo| ==> u.todo[b] == s.todo[b + 1];
  }

  /** Discovery changes no pending row it finds. */
  lemma DiscoverKeepsPending(q: Queue, expected: Option<Oid>, head: Oid, cs: seq<Candidate>, k: Oid)
    requires Bounded(q) && k in PendingOf(q.rows)
    ensures var u := DiscoverIn(q, expected, head, cs).0;
      k in u.rows && u.rows[k] == q.rows[k]
  {
    hide CountNew;
    AddKeeps(q.rows, MaxOf(q.rows, OrderOf), cs);
  }

  lemma ListingKeepsWaiting(rows: map<Oid, Row>, list: seq<Oid>, x: Oid, y: Oid)
    requires IsListing(rows, list) && x in PendingOf(rows) && y in PendingOf(rows)
    requires rows[y].lastAttempt < rows[x].lastAttempt
    ensures forall b :: 0 <= b < |list| && list[b] == x ==> exists a :: 0 <= a < b && list[a] == y
  {
    forall b | 0 <= b < |list| && list[b] == x ensures exists a :: 0 <= a < b && list[a] == y {
      assert !Before(rows, x, y);
      var a :| 0 <= a < |list| && list[a] == y;
    }
  }

  /** Every other event keeps `y` waiting longer than `x`. */
  lemma StepKeepsWaiting(s: Scanner, e: Event, u: Scanner, x: Oid, y: Oid)
    requires Bounded(s.queue) && Steps(s, e, u) && Waits(s, y, x)
    requires x in Pendings(s) && y in Pendings(s) && x in Pendings(u) && y in Pendings(u)
    requires e.Attempt? ==> s.todo[0] != y
    ensures Waits(u, y, x)
    ensures e.Attempt? ==> s.todo[0] != x
  {
    match e
    case Open(expected, head, cs) =>
      hide DiscoverIn, IsListing, Bounded;
      DiscoverKeepsPending(s.queue, expected, head, cs, x);
      DiscoverKeepsPending(s.queue, expected, head, cs, y);
      if u.todo != [] { ListingKeepsWaiting(u.queue.rows, u.todo, x, y); }
    case Attempt =>
      hide MaxOf, Bounded;
      assert s.todo[0] != x;
      forall b | 0 <= b < |u.todo| && u.todo[b] == x ensures exists a :: 0 <= a < b && u.todo[a] == y {
        assert s.todo[b + 1] == x;
        var a :| 0 <= a < b + 1 && s.todo[a] == y;
        assert a > 0 && u.todo[a - 1] == y;
      }
    case Resolve(k) =>
      hide Newer, Bounded;
    case Advance(_, _) =>
  }

  lemma {:induction false} WaitsUntilAttempted(states: seq<Scanner>, events: seq<Event>, i: nat, n: nat, x: Oid, y: Oid)
    requires IsRun(states, events) && i < n < |states| && x != y && Attempts(states, events, i, x)
    requires forall k :: i <= k <= n ==> x in Pendings(states[k]) && y in Pendings(states[k])
    requires forall k :: i < k < n ==> !Attempts(states, events, k, y)
    ensures Waits(states[n], y, x)
    decreases n
  {
    hide Waits, Bounded, Pendings, Steps, ListedOnce;
    ReachableIsBounded(states, events, n - 1);
    assert Steps(states[n - 1], events[n - 1], states[n]);
    assert x in Pendings(states[n - 1]) && y in Pendings(states[n - 1]) && x in Pendings(states[n]) && y in Pendings(states[n]);
    if n == i + 1 {
      ReachableListsOnce(states, events, i);
      AttemptMakesOthersWait(states[i], states[n], x, y);
    } else {
      WaitsUntilAttempted(states, events, i, n - 1, x, y);
      if events[n - 1].Attempt? {
        AttemptHasTodo(states[n - 1], states[n]);
        assert !Attempts(states, events, n - 1, y);
      }
      StepKeepsWaiting(states[n - 1], events[n - 1], states[n], x, y);
    }
  }

  lemma AttemptHasTodo(s: Scanner, u: Scanner)
    requires Steps(s, Attempt, u)
    ensures s.todo != []
  {
  }

  /** Rotation: between two attempts of one target, every other target pending throughout is
      attempted, however the scans stop and whatever else arrives meanwhile. */
  lemma Rotation(states: seq<Scanner>, events: seq<Event>, i: nat, j: nat, x: Oid, y: Oid)
    requires IsRun(states, events) && i < j && x != y
    requires Attempts(states, events, i, x) && Attempts(states, events, j, x)
    requires forall k :: i <= k <= j ==> x in Pendings(states[k]) && y in Pendings(states[k])
    ensures exists k :: i < k < j && Attempts(states, events, k, y)
  {
    if forall k :: i < k < j ==> !Attempts(states, events, k, y) {
      WaitsUntilAttempted(states, events, i, j, x, y);
      assert false;
    }
  }

  /** The scan's discovery records nothing: no candidate is new. */
  ghost predicate NoArrival(s: Scanner, e: Event) {
    e.Open? ==> forall c :: c in e.candidates ==> c.oid in s.queue.rows
  }

  lemma {:induction false} NothingNew(rows: map<Oid, Row>, first: nat, cs: seq<Candidate>)
    requires forall c :: c in cs ==> c.oid in rows
    ensures Add(rows, first, cs) == rows
  {
    if cs != [] {
      InitAndLast(cs);
      NothingNew(rows, first, cs[..|cs| - 1]);
    }
  }

  lemma PendingOnlyShrinks(s: Scanner, e: Event, u: Scanner)
    requires Bounded(s.queue) && Steps(s, e, u) && NoArrival(s, e)
    ensures Pendings(u) <= Pendings(s)
  {
    hide Newer, CountNew, IsListing, MaxOf;
    if e.Open? {
      NothingNew(s.queue.rows, MaxOf(s.queue.rows, OrderOf), e.candidates);
    } else if e.Resolve? {
      MatchKeepsBounds(s.queue, e.oid);
    }
  }

  lemma {:induction false} PendingThroughout(states: seq<Scanner>, events: seq<Event>, i: nat, j: nat, x: Oid)
    requires IsRun(states, events) && i <= j < |states| && x in Pendings(states[j])
    requires forall k :: i <= k < j ==> NoArrival(states[k], events[k])
    ensures x in Pendings(states[i])
    decreases j - i
  {
    hide Pendings, NoArrival, Bounded, Steps;
    if i < j {
      PendingThroughout(states, events, i + 1, j, x);
      ReachableIsBounded(states, events, i);
      PendingOnlyShrinks(states[i], events[i], states[i + 1]);
    }
  }

  /** Without arrivals, being pending at the second attempt is enough: then no target that stays
      pending is attempted twice before every other one has had its turn. */
  lemma RotationWithoutArrivals(states: seq<Scanner>, events: seq<Event>, i: nat, j: nat, x: Oid, y: Oid)
    requires IsRun(states, events) && i < j && x != y
    requires Attempts(states, events, i, x) && Attempts(states, events, j, x) && y in Pendings(states[j])
    requires forall k :: i <= k < j ==> NoArrival(states[k], events[k])
    ensures exists k :: i < k < j && Attempts(states, events, k, y)
  {
    hide NoArrival, IsRun;
    forall k | i <= k <= j ensures x in Pendings(states[k]) && y in Pendings(states[k]) {
      PendingThroughout(states, events, k, j, x);
      PendingThroughout(states, events, k, j, y);
    }
    Rotation(states, events, i, j, x, y);
  }
}
