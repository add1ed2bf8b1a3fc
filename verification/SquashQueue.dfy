/** The queue of squash candidates of one branch in one worktree: capacity, pruning, rotation. */
module SquashQueue {
  import opened Bytes
  import opened StoreSharing

  type Oid = Text

  const MAX_PENDING := 4096
  const MAX_RESOLVED := 512
  const MAX_LISTED := 128

  datatype Status = Pending | Matched | Unsupported

  datatype Row = Row(parent: Oid, status: Status, order: nat, lastAttempt: nat, attempts: nat)

  datatype Queue = Queue(cursor: Option<Oid>, rows: map<Oid, Row>)

  /** A discovered commit with its only parent, or none when it is not a single-parent commit. */
  datatype Candidate = Candidate(oid: Oid, parent: Oid, supported: bool)

  datatype Discovery = Recorded | CursorMoved | Full

  function PendingOf(rows: map<Oid, Row>): (s: set<Oid>)
    ensures s <= rows.Keys
  {
    set k | k in rows && rows[k].status == Pending
  }

  function ResolvedOf(rows: map<Oid, Row>): (s: set<Oid>)
    ensures s <= rows.Keys
  {
    set k | k in rows && rows[k].status != Pending
  }

  function OrderOf(r: Row): nat { r.order }

  function AttemptOf(r: Row): nat { r.lastAttempt }

  /** The largest value of `f` over the rows, 0 for none. */
  ghost predicate IsMax(rows: map<Oid, Row>, f: Row -> nat, m: nat) {
    && (forall k :: k in rows ==> f(rows[k]) <= m)
    && (m == 0 || exists k :: k in rows && f(rows[k]) == m)
  }

  method Largest(rows: map<Oid, Row>, f: Row -> nat) returns (m: nat)
    ensures m == MaxOf(rows, f)
  {
    m := 0;
    var left := rows.Keys;
    while left != {}
      invariant left <= rows.Keys
      invariant forall k :: k in rows && k !in left ==> f(rows[k]) <= m
      invariant m == 0 || exists k :: k in rows && f(rows[k]) == m
      decreases left
    {
      var k :| k in left;
      if f(rows[k]) > m { m := f(rows[k]); }
      left := left - {k};
    }
    assert IsMax(rows, f, m);
  }

  lemma {:induction false} MaxExists(rows: map<Oid, Row>, f: Row -> nat)
    ensures exists m: nat :: IsMax(rows, f, m)
    decreases |rows.Keys|
  {
    if rows.Keys == {} {
      assert IsMax(rows, f, 0);
    } else {
      var k :| k in rows;
      var rest := rows - {k};
      assert rest.Keys == rows.Keys - {k};
      MaxExists(rest, f);
      var m: nat :| IsMax(rest, f, m);
      var most := if f(rows[k]) > m then f(rows[k]) else m;
      forall j | j in rows ensures f(rows[j]) <= most {
        if j != k { assert j in rest && rest[j] == rows[j]; }
      }
      assert IsMax(rows, f, most);
    }
  }

  ghost function MaxOf(rows: map<Oid, Row>, f: Row -> nat): (m: nat)
    ensures IsMax(rows, f, m)
    ensures forall n: nat :: IsMax(rows, f, n) ==> n == m
  {
    MaxExists(rows, f);
    var m: nat :| IsMax(rows, f, m);
    m
  }

  ghost predicate DistinctOrders(rows: map<Oid, Row>) {
    forall a, b :: a in rows && b in rows && a != b ==> rows[a].order != rows[b].order
  }

  // --- Pruning ---

  function Newer(rows: map<Oid, Row>, k: Oid): set<Oid>
    requires k in rows
  {
    set j | j in rows && rows[j].status != Pending && rows[j].order > rows[k].order
  }

  /** Drops the resolved rows past the newest `MAX_RESOLVED`. */
  function Prune(rows: map<Oid, Row>): map<Oid, Row> {
    map k | k in rows && (rows[k].status == Pending || |Newer(rows, k)| < MAX_RESOLVED) :: rows[k]
  }

  lemma {:induction false} Oldest(rows: map<Oid, Row>, s: set<Oid>) returns (k: Oid)
    requires s != {} && s <= rows.Keys
    ensures k in s && forall j :: j in s ==> rows[k].order <= rows[j].order
    decreases s
  {
    k :| k in s;
    if s != {k} {
      var other := Oldest(rows, s - {k});
      if rows[other].order < rows[k].order { k := other; }
    }
  }

  lemma PruneLeavesFew(rows: map<Oid, Row>)
    requires DistinctOrders(rows)
    ensures |ResolvedOf(Prune(rows))| <= MAX_RESOLVED
  {
    var kept := ResolvedOf(Prune(rows));
    if kept != {} {
      var k := Oldest(rows, kept);
      assert kept - {k} <= Newer(rows, k);
      SubsetSize(kept - {k}, Newer(rows, k));
    }
  }

  lemma PruneOfFew(rows: map<Oid, Row>)
    requires |ResolvedOf(rows)| <= MAX_RESOLVED
    ensures Prune(rows) == rows
  {
    forall k | k in ResolvedOf(rows) ensures k in Prune(rows) {
      assert Newer(rows, k) <= ResolvedOf(rows) - {k};
      SubsetSize(Newer(rows, k), ResolvedOf(rows) - {k});
    }
  }

  /** At most `MAX_RESOLVED` resolved rows stay, every pending one does, and no resolved row that
      goes is newer than one that stays. */
  lemma PruneKeepsTheNewest(rows: map<Oid, Row>)
    requires DistinctOrders(rows)
    ensures var u := Prune(rows);
      && |ResolvedOf(u)| <= MAX_RESOLVED && PendingOf(u) == PendingOf(rows)
      && (forall k :: k in u ==> k in rows && u[k] == rows[k])
      && (forall gone, kept :: gone in rows && gone !in u && kept in ResolvedOf(u) ==> rows[gone].order < rows[kept].order)
      && (|ResolvedOf(rows)| <= MAX_RESOLVED ==> u == rows)
  {
    PruneLeavesFew(rows);
    if |ResolvedOf(rows)| <= MAX_RESOLVED { PruneOfFew(rows); }
    var u := Prune(rows);
    forall gone, k | gone in rows && gone !in u && k in ResolvedOf(u) ensures rows[gone].order < rows[k].order {
      if rows[k].order < rows[gone].order {
        assert Newer(rows, gone) <= Newer(rows, k);
        SubsetSize(Newer(rows, gone), Newer(rows, k));
      }
    }
  }

  // --- Discovery ---

  /** Records candidates in order: each takes the next number, and one already known is left alone. */
  function Add(rows: map<Oid, Row>, first: nat, cs: seq<Candidate>): map<Oid, Row> {
    if cs == [] then rows
    else
      var m := Add(rows, first, cs[..|cs| - 1]);
      var c := cs[|cs| - 1];
      if c.oid in m then m
      else m[c.oid := Row(c.parent, if c.supported then Pending else Unsupported, first + |cs|, 0, 0)]
  }

  /** How many of the candidates are not recorded yet. */
  function CountNew(rows: map<Oid, Row>, cs: seq<Candidate>): nat {
    if cs == [] then 0
    else CountNew(rows, cs[..|cs| - 1]) + if cs[|cs| - 1].oid in rows then 0 else 1
  }

  lemma {:induction false} AddKeeps(rows: map<Oid, Row>, first: nat, cs: seq<Candidate>)
    requires DistinctOrders(rows) && forall k :: k in rows ==> rows[k].order <= first
    ensures var u := Add(rows, first, cs);
      && DistinctOrders(u) && (forall k :: k in u ==> u[k].order <= first + |cs|)
      && (forall k :: k in rows ==> k in u && u[k] == rows[k])
      && |PendingOf(u)| <= |PendingOf(rows)| + CountNew(rows, cs)
  {
    if cs != [] {
      var init, c := cs[..|cs| - 1], cs[|cs| - 1];
      AddKeeps(rows, first, init);
      var m, u := Add(rows, first, init), Add(rows, first, cs);
      if c.oid !in m {
        assert PendingOf(u) <= PendingOf(m) + {c.oid};
        SubsetSize(PendingOf(u), PendingOf(m) + {c.oid});
      }
    }
  }

  /** What is recorded of each candidate: the first time it is listed, when it was not known. */
  lemma {:induction false} AddRecords(rows: map<Oid, Row>, first: nat, cs: seq<Candidate>, i: nat)
    requires i < |cs| && cs[i].oid !in rows && forall j :: 0 <= j < i ==> cs[j].oid != cs[i].oid
    ensures var u := Add(rows, first, cs);
      cs[i].oid in u &&
      u[cs[i].oid] == Row(cs[i].parent, if cs[i].supported then Pending else Unsupported, first + i + 1, 0, 0)
    decreases |cs|
  {
    var init := cs[..|cs| - 1];
    if i < |cs| - 1 {
      AddRecords(rows, first, init, i);
    } else {
      AddAddsOnly(rows, first, init, cs[i].oid);
    }
  }

  lemma {:induction false} AddAddsOnly(rows: map<Oid, Row>, first: nat, cs: seq<Candidate>, k: Oid)
    ensures k in Add(rows, first, cs) <==> k in rows || exists c :: c in cs && c.oid == k
  {
    if cs != [] {
      InitAndLast(cs);
      AddAddsOnly(rows, first, cs[..|cs| - 1], k);
    }
  }

  /** Recording against the expected cursor: everything, with the advanced cursor, or nothing. */
  ghost function DiscoverIn(q: Queue, expected: Option<Oid>, head: Oid, cs: seq<Candidate>): (Queue, Discovery) {
    if q.cursor != expected then (q, CursorMoved)
    else if |PendingOf(q.rows)| + CountNew(q.rows, cs) > MAX_PENDING then (q, Full)
    else (Queue(Some(head), Prune(Add(q.rows, MaxOf(q.rows, OrderOf), cs))), Recorded)
  }

  /** An attempt puts a pending target behind all others. */
  ghost function MarkIn(q: Queue, k: Oid): Queue {
    if k in PendingOf(q.rows) then
      var r := q.rows[k];
      q.(rows := q.rows[k := r.(attempts := r.attempts + 1, lastAttempt := MaxOf(q.rows, AttemptOf) + 1)])
    else q
  }

  function MatchIn(q: Queue, k: Oid): Queue
    requires k in q.rows
  {
    q.(rows := Prune(q.rows[k := q.rows[k].(status := Matched)]))
  }

  /** What every reachable queue keeps. */
  ghost predicate Bounded(q: Queue) {
    DistinctOrders(q.rows) && |PendingOf(q.rows)| <= MAX_PENDING && |ResolvedOf(q.rows)| <= MAX_RESOLVED
  }

  lemma DiscoverKeepsBounds(q: Queue, expected: Option<Oid>, head: Oid, cs: seq<Candidate>)
    requires Bounded(q)
    ensures Bounded(DiscoverIn(q, expected, head, cs).0)
  {
    hide Prune, Add, CountNew;
    var first := MaxOf(q.rows, OrderOf);
    AddKeeps(q.rows, first, cs);
    PruneKeepsTheNewest(Add(q.rows, first, cs));
  }

  lemma MarkKeepsBounds(q: Queue, k: Oid)
    requires Bounded(q)
    ensures Bounded(MarkIn(q, k))
  {
    var u := MarkIn(q, k);
    assert PendingOf(u.rows) == PendingOf(q.rows) && ResolvedOf(u.rows) == ResolvedOf(q.rows);
  }

  lemma MatchKeepsBounds(q: Queue, k: Oid)
    requires Bounded(q) && k in PendingOf(q.rows)
    ensures Bounded(MatchIn(q, k)) && PendingOf(MatchIn(q, k).rows) == PendingOf(q.rows) - {k}
  {
    hide Prune;
    var m := q.rows[k := q.rows[k].(status := Matched)];
    assert PendingOf(m) == PendingOf(q.rows) - {k};
    SubsetSize(PendingOf(m), PendingOf(q.rows));
    PruneKeepsTheNewest(m);
  }

  // --- The list of one scan ---

  ghost predicate Before(rows: map<Oid, Row>, a: Oid, b: Oid)
    requires a in rows && b in rows
  {
    rows[a].lastAttempt < rows[b].lastAttempt
    || (rows[a].lastAttempt == rows[b].lastAttempt && rows[a].order < rows[b].order)
  }

  /** The pending targets least recently attempted, the earlier discovered first, at most
      `MAX_LISTED` of them. */
  ghost predicate IsListing(rows: map<Oid, Row>, list: seq<Oid>) {
    && (forall i :: 0 <= i < |list| ==> list[i] in PendingOf(rows))
    && (forall i, j :: 0 <= i < j < |list| ==> Before(rows, list[i], list[j]))
    && (forall i, k :: 0 <= i < |list| && k in PendingOf(rows) && k !in list ==> Before(rows, list[i], k))
    && |list| == if |PendingOf(rows)| < MAX_LISTED then |PendingOf(rows)| else MAX_LISTED
  }

  method LeastAttempted(rows: map<Oid, Row>, from: set<Oid>) returns (k: Oid)
    requires from != {} && from <= rows.Keys && DistinctOrders(rows)
    ensures k in from && forall j :: j in from && j != k ==> Before(rows, k, j)
  {
    k :| k in from;
    var left := from - {k};
    while left != {}
      invariant left <= from && k in from && k !in left
      invariant forall j :: j in from && j !in left && j != k ==> Before(rows, k, j)
      decreases left
    {
      var j :| j in left;
      if rows[j].lastAttempt < rows[k].lastAttempt
         || (rows[j].lastAttempt == rows[k].lastAttempt && rows[j].order < rows[k].order) {
        k := j;
      }
      left := left - {j};
    }
  }

  method ListPending(rows: map<Oid, Row>) returns (list: seq<Oid>)
    requires DistinctOrders(rows)
    ensures IsListing(rows, list)
  {
    list := [];
    ghost var all := PendingOf(rows);
    var left := PendingOf(rows);
    while left != {} && |list| < MAX_LISTED
      invariant left <= all && |list| <= MAX_LISTED && |list| + |left| == |all|
      invariant forall k :: k in list <==> k in all && k !in left
      invariant forall i, j :: 0 <= i < j < |list| ==> Before(rows, list[i], list[j])
      invariant forall i, k :: 0 <= i < |list| && k in left ==> Before(rows, list[i], k)
      decreases left
    {
      var k := LeastAttempted(rows, left);
      list := list + [k];
      left := left - {k};
    }
    assert |list| < MAX_LISTED ==> left == {};
  }

  // --- The queue object ---

  class Branch {
    var queue: Queue

    constructor ()
      ensures queue == Queue(None, map[]) && Bounded(queue)
    {
      queue := Queue(None, map[]);
      new;
      assert PendingOf(queue.rows) == {} && ResolvedOf(queue.rows) == {};
    }

    method Discover(expected: Option<Oid>, head: Oid, cs: seq<Candidate>) returns (r: Discovery)
      requires Bounded(queue)
      modifies this
      ensures Bounded(queue) && (queue, r) == DiscoverIn(old(queue), expected, head, cs)
    {
      hide Prune, Bounded;
      DiscoverKeepsBounds(queue, expected, head, cs);
      if queue.cursor != expected { return CursorMoved; }
      var unknown := CountUnknown(queue.rows, cs);
      if |PendingOf(queue.rows)| + unknown > MAX_PENDING { return Full; }
      var order := Largest(queue.rows, OrderOf);
      var rows := AddEach(queue.rows, order, cs);
      queue := Queue(Some(head), Prune(rows));
      r := Recorded;
    }

    method Mark(k: Oid)
      requires Bounded(queue)
      modifies this
      ensures Bounded(queue) && queue == MarkIn(old(queue), k)
    {
      hide Bounded;
      MarkKeepsBounds(queue, k);
      if k in queue.rows && queue.rows[k].status == Pending {
        var most := Largest(queue.rows, AttemptOf);
        var r := queue.rows[k];
        queue := queue.(rows := queue.rows[k := r.(attempts := r.attempts + 1, lastAttempt := most + 1)]);
      }
    }

    /** The queue's part of relinking a target: it is pending no more. */
    method Match(k: Oid)
      requires Bounded(queue) && k in PendingOf(queue.rows)
      modifies this
      ensures Bounded(queue) && queue == MatchIn(old(queue), k)
    {
      hide Bounded, Prune;
      MatchKeepsBounds(queue, k);
      queue := queue.(rows := Prune(queue.rows[k := queue.rows[k].(status := Matched)]));
    }
  }

  method CountUnknown(rows: map<Oid, Row>, cs: seq<Candidate>) returns (n: nat)
    ensures n == CountNew(rows, cs)
  {
    n := 0;
    for i := 0 to |cs|
      invariant n == CountNew(rows, cs[..i])
    {
      assert cs[..i + 1][..i] == cs[..i];
      if cs[i].oid !in rows { n := n + 1; }
    }
    assert cs[..|cs|] == cs;
  }

  method AddEach(rows: map<Oid, Row>, first: nat, cs: seq<Candidate>) returns (u: map<Oid, Row>)
    ensures u == Add(rows, first, cs)
  {
    u := rows;
    var order := first;
    for i := 0 to |cs|
      invariant u == Add(rows, first, cs[..i]) && order == first + i
    {
      assert cs[..i + 1][..i] == cs[..i];
      order := order + 1;
      if cs[i].oid !in u {
        u := u[cs[i].oid := Row(cs[i].parent, if cs[i].supported then Pending else Unsupported, order, 0, 0)];
      }
    }
    assert cs[..|cs|] == cs;
  }
}
