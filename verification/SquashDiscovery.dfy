/** Discovery of squash candidates: the walk from HEAD back to the cursor, and one whole scan. */
module SquashDiscovery {
  import opened Bytes
  import opened StoreSharing
  import opened SquashQueue
  import opened SquashRotation

  const MAX_SCAN := 128

  /** Every commit with its parents, the first parent first. */
  type Graph = map<Oid, seq<Oid>>

  datatype Walked = Found(candidates: seq<Candidate>) | MissingCommit

  /** The commit `n` first-parent steps back, none past a root or a missing commit. */
  function Back(g: Graph, at: Oid, n: nat): Option<Oid> {
    if n == 0 then Some(at)
    else
      var p := Back(g, at, n - 1);
      if p.Some? && p.value in g && g[p.value] != [] then Some(g[p.value][0]) else None
  }

  function CandidateOf(g: Graph, c: Oid): Candidate
    requires c in g
  {
    if |g[c]| == 1 then Candidate(c, g[c][0], true) else Candidate(c, "", false)
  }

  /** What is recorded of a commit: its only parent when it has exactly one, and otherwise that it is not supported. */
  ghost predicate IsCandidate(g: Graph, commit: Oid, c: Candidate)
    requires commit in g
  {
    c.oid == commit && (c.supported <==> |g[commit]| == 1) && c.parent == if c.supported then g[commit][0] else ""
  }

  ghost predicate IsOnly(g: Graph, commit: Oid, cs: seq<Candidate>)
    requires commit in g
  {
    |cs| == 1 && IsCandidate(g, commit, cs[0])
  }

  /** `tip` is the commit exactly `n` first-parent steps before `head`, and no earlier one. */
  ghost predicate Reaches(g: Graph, head: Oid, tip: Oid, n: nat) {
    Back(g, head, n) == Some(tip) && forall k: nat :: k < n ==> Back(g, head, k) != Some(tip)
  }

  /** `c` records the commit `k` first-parent steps before `head`. */
  ghost predicate RecordsBack(g: Graph, head: Oid, k: nat, c: Candidate) {
    var p := Back(g, head, k);
    p.Some? && p.value in g && IsCandidate(g, p.value, c)
  }

  /** The first-parent path from after the cursor, `n` steps back, to `head`, oldest first. */
  ghost predicate IsPath(g: Graph, head: Oid, n: nat, path: seq<Candidate>) {
    |path| == n && forall i: nat :: i < n ==> RecordsBack(g, head, n - 1 - i, path[i])
  }

  /** The commits of a walk from `head`, newest first, none of them `tip`. */
  ghost predicate IsWalk(g: Graph, head: Oid, tip: Oid, seen: seq<Candidate>) {
    && (forall k: nat :: k < |seen| ==> RecordsBack(g, head, k, seen[k]))
    && (forall k: nat :: k < |seen| ==> Back(g, head, k) != Some(tip))
  }

  lemma {:induction false} BackIsThere(g: Graph, at: Oid, n: nat, k: nat)
    requires k < n && Back(g, at, n).Some?
    ensures Back(g, at, k).Some? && Back(g, at, k).value in g && g[Back(g, at, k).value] != []
    decreases n
  {
    if k < n - 1 { BackIsThere(g, at, n - 1, k); }
  }

  function Reverse<T>(s: seq<T>): seq<T> {
    if s == [] then [] else Reverse(s[1..]) + [s[0]]
  }

  lemma {:induction false} ReverseAt<T>(s: seq<T>, i: nat)
    requires i < |s|
    ensures |Reverse(s)| == |s| && Reverse(s)[i] == s[|s| - 1 - i]
  {
    if |s| > 1 { ReverseAt(s[1..], if i < |s| - 1 then i else 0); }
  }

  /** The walk of the scan: stops at the cursor, at a root, or after `MAX_SCAN` commits. */
  method WalkBack(g: Graph, head: Oid, tip: Oid) returns (r: Option<(Oid, seq<Candidate>)>)
    requires tip != head
    ensures r.Some? ==>
      var (at, seen) := r.value;
      && |seen| <= MAX_SCAN && IsWalk(g, head, tip, seen) && head in g
      && (at == tip ==> Back(g, head, |seen|) == Some(tip))
      && (at != tip ==> (|seen| == MAX_SCAN && Back(g, head, MAX_SCAN) != Some(tip)) || Back(g, head, |seen|) == None)
    ensures r.None? ==> exists k: nat :: MissesAt(g, head, tip, k)
    ensures r.Some? ==> forall k: nat :: !MissesAt(g, head, tip, k)
  {
    var at, seen := head, [];
    while at != tip && |seen| < MAX_SCAN
      invariant |seen| <= MAX_SCAN && Back(g, head, |seen|) == Some(at)
      invariant IsWalk(g, head, tip, seen) && (seen == [] ==> at == head) && (seen != [] ==> head in g)
      decreases MAX_SCAN - |seen|
    {
      if at !in g {
        assert MissesAt(g, head, tip, |seen|);
        return None;
      }
      assert RecordsBack(g, head, |seen|, CandidateOf(g, at));
      seen := seen + [CandidateOf(g, at)];
      if g[at] == [] { break; }
      at := g[at][0];
    }
    forall k: nat | k < |seen| ensures Back(g, head, k).Some? && Back(g, head, k).value in g {
      assert RecordsBack(g, head, k, seen[k]);
    }
    NoneMissing(g, head, tip, |seen|);
    r := Some((at, seen));
  }

  /** The walk finds no commit at step `k`, before it finds the cursor. */
  ghost predicate MissesAt(g: Graph, head: Oid, tip: Oid, k: nat) {
    var c := Back(g, head, k);
    k < MAX_SCAN && c.Some? && c.value !in g && forall j: nat :: j <= k ==> Back(g, head, j) != Some(tip)
  }

  lemma NoneMissing(g: Graph, head: Oid, tip: Oid, n: nat)
    requires forall k: nat :: k < n ==> Back(g, head, k).Some? && Back(g, head, k).value in g
    requires n == MAX_SCAN || Back(g, head, n) == None || Back(g, head, n) == Some(tip)
    ensures forall k: nat :: !MissesAt(g, head, tip, k)
  {
    forall k: nat ensures !MissesAt(g, head, tip, k) {
      if k > n && Back(g, head, k).Some? { BackIsThere(g, head, k, n); }
    }
  }

  /** What a scan at `head` records. Within `MAX_SCAN` first-parent steps of the cursor: exactly the
      path since; past that, or on another line of history, at most `head` itself. */
  ghost predicate Discovers(g: Graph, cursor: Option<Oid>, head: Oid, immediate: bool, cs: seq<Candidate>) {
    match cursor
    case None => if immediate && head in g then IsOnly(g, head, cs) else cs == []
    case Some(tip) =>
      && (forall n: nat :: n <= MAX_SCAN && Reaches(g, head, tip, n) ==> IsPath(g, head, n, cs))
      && ((forall n: nat :: n <= MAX_SCAN ==> !Reaches(g, head, tip, n)) ==>
            head in g && if |g[head]| == 1 then IsOnly(g, head, cs) else cs == [])
  }

  /** A commit the walk needs is not there. */
  ghost predicate Misses(g: Graph, cursor: Option<Oid>, head: Oid, immediate: bool) {
    match cursor
    case None => immediate && head !in g
    case Some(tip) => exists k: nat :: MissesAt(g, head, tip, k)
  }

  method Candidates(g: Graph, cursor: Option<Oid>, head: Oid, immediate: bool) returns (r: Walked)
    ensures r.MissingCommit? <==> Misses(g, cursor, head, immediate)
    ensures r.Found? ==> Discovers(g, cursor, head, immediate, r.candidates)
  {
    if cursor.None? {
      if !immediate { return Found([]); }
      if head !in g { return MissingCommit; }
      return Found([CandidateOf(g, head)]);
    }
    var was := cursor.value;
    if was == head {
      assert Reaches(g, head, was, 0);
      OnlyOnce(g, head, was, 0);
      return Found([]);
    }
    var walked := WalkBack(g, head, was);
    if walked.None? { return MissingCommit; }
    var (at, seen) := walked.value;
    if at == was {
      assert Reaches(g, head, was, |seen|);
      OnlyOnce(g, head, was, |seen|);
      ReversedPath(g, head, seen);
      return Found(Reverse(seen));
    }
    NeverReached(g, head, was, |seen|);
    r := Found(if |g[head]| == 1 then [CandidateOf(g, head)] else []);
  }

  lemma OnlyOnce(g: Graph, head: Oid, was: Oid, n: nat)
    requires Reaches(g, head, was, n)
    ensures forall m: nat :: Reaches(g, head, was, m) ==> m == n
  {
  }

  lemma ReversedPath(g: Graph, head: Oid, seen: seq<Candidate>)
    requires forall k: nat :: k < |seen| ==> RecordsBack(g, head, k, seen[k])
    ensures IsPath(g, head, |seen|, Reverse(seen))
  {
    if seen != [] { ReverseAt(seen, 0); }
    forall i: nat | i < |seen| ensures RecordsBack(g, head, |seen| - 1 - i, Reverse(seen)[i]) {
      ReverseAt(seen, i);
    }
  }

  lemma NeverReached(g: Graph, head: Oid, was: Oid, n: nat)
    requires n <= MAX_SCAN && forall k: nat :: k < n ==> Back(g, head, k) != Some(was)
    requires (n == MAX_SCAN && Back(g, head, MAX_SCAN) != Some(was)) || Back(g, head, n) == None
    ensures forall m: nat :: m <= MAX_SCAN ==> !Reaches(g, head, was, m)
  {
    forall m: nat | m <= MAX_SCAN ensures !Reaches(g, head, was, m) {
      if m > n && Back(g, head, m) == Some(was) { BackIsThere(g, head, m, n); }
    }
  }

  /** Two discoveries that meet at a cursor record together what one discovery over both would:
      nothing twice and nothing missed. */
  lemma PathsJoin(g: Graph, head: Oid, mid: Oid, n: nat, m: nat, later: seq<Candidate>, earlier: seq<Candidate>)
    requires Back(g, head, n) == Some(mid) && IsPath(g, head, n, later) && IsPath(g, mid, m, earlier)
    ensures IsPath(g, head, n + m, earlier + later)
  {
    forall i: nat | i < n + m ensures RecordsBack(g, head, n + m - 1 - i, (earlier + later)[i]) {
      if i < m {
        BackFrom(g, head, mid, n, m - 1 - i);
        assert RecordsBack(g, mid, m - 1 - i, earlier[i]);
      } else {
        assert RecordsBack(g, head, n - 1 - (i - m), later[i - m]);
      }
    }
  }

  lemma {:induction false} BackFrom(g: Graph, head: Oid, mid: Oid, n: nat, k: nat)
    requires Back(g, head, n) == Some(mid)
    ensures Back(g, head, n + k) == Back(g, mid, k)
    decreases k
  {
    if k > 0 { BackFrom(g, head, mid, n, k - 1); }
  }

  // --- One scan ---

  /** How one attempt ends: the target stays floating, is relinked, or stops the scan. */
  datatype Verdict = Floating | Relinked(events: nat) | Failed

  datatype Scanned = Done(total: nat) | Missing | Deadline | Stopped | QueueFull

  /** Consecutive states of a scanner, with the events between them. */
  ghost predicate IsTrace(states: seq<Scanner>, events: seq<Event>) {
    |states| == |events| + 1 && forall i :: 0 <= i < |events| ==> Steps(states[i], events[i], states[i + 1])
  }

  ghost predicate Follows(states: seq<Scanner>, events: seq<Event>, q: Queue, u: Scanner) {
    IsTrace(states, events) && states[0].queue == q && states[|states| - 1] == u
  }

  lemma Extend(states: seq<Scanner>, events: seq<Event>, q: Queue, s: Scanner, e: Event, u: Scanner)
    requires Follows(states, events, q, s) && Steps(s, e, u)
    ensures Follows(states + [u], events + [e], q, u)
  {
    hide Steps;
    var ss, es := states + [u], events + [e];
    forall i | 0 <= i < |es| ensures Steps(ss[i], es[i], ss[i + 1]) {
      if i < |events| { assert Steps(states[i], events[i], states[i + 1]); }
    }
  }

  /** What a scan does with its list, and how it ends: each target is marked before its attempt, and
      one that is relinked is pending no more. */
  function EventsOf(todo: seq<Oid>, verdicts: seq<Verdict>): seq<Event> {
    if todo == [] || verdicts == [] then []
    else
      match verdicts[0]
      case Floating => [Attempt] + EventsOf(todo[1..], verdicts[1..])
      case Relinked(_) => [Attempt, Resolve(todo[0])] + EventsOf(todo[1..], verdicts[1..])
      case Failed => [Attempt]
  }

  function EndOf(todo: seq<Oid>, verdicts: seq<Verdict>, total: nat, full: bool): Scanned {
    if todo == [] then if full then QueueFull else Done(total)
    else if verdicts == [] then Deadline
    else
      match verdicts[0]
      case Floating => EndOf(todo[1..], verdicts[1..], total, full)
      case Relinked(n) => EndOf(todo[1..], verdicts[1..], total + n, full)
      case Failed => Stopped
  }

  /** A scan that ends as it should has attempted its whole list, and counts the events of every
      target relinked. */
  lemma {:induction false} DoneAttemptsAll(todo: seq<Oid>, verdicts: seq<Verdict>, total: nat, full: bool)
    ensures var attempts := |EventsOf(todo, verdicts)| - RelinkedAmong(todo, verdicts);
      match EndOf(todo, verdicts, total, full)
      case Done(n) => !full && attempts == |todo| <= |verdicts| && n == total + EventsAmong(verdicts[..|todo|])
      case QueueFull => full && attempts == |todo| <= |verdicts|
      case Deadline => attempts == |verdicts| < |todo|
      case Stopped => 0 < attempts <= |todo| && attempts <= |verdicts| && verdicts[attempts - 1] == Failed
      case Missing => false
  {
    if todo != [] && verdicts != [] {
      var n := if verdicts[0].Relinked? then verdicts[0].events else 0;
      DoneAttemptsAll(todo[1..], verdicts[1..], total + n, full);
      if |todo| <= |verdicts| {
        assert verdicts[..|todo|][1..] == verdicts[1..][..|todo| - 1];
      }
    }
  }

  function RelinkedAmong(todo: seq<Oid>, verdicts: seq<Verdict>): nat {
    if todo == [] || verdicts == [] || verdicts[0].Failed? then 0
    else (if verdicts[0].Relinked? then 1 else 0) + RelinkedAmong(todo[1..], verdicts[1..])
  }

  function EventsAmong(verdicts: seq<Verdict>): nat {
    if verdicts == [] then 0
    else (if verdicts[0].Relinked? then verdicts[0].events else 0) + EventsAmong(verdicts[1..])
  }

  /** The rest of the list stays pending, each once. */
  ghost predicate StillPending(q: Queue, todo: seq<Oid>) {
    Distinct(todo) && forall k :: k in todo ==> k in PendingOf(q.rows)
  }

  /** One scan: it discovers, lists, and attempts target after target until the list or the time
      runs out (`verdicts` says how many it gets to) or an attempt fails. The changes it makes are
      those of a run of the scanner, so what holds of runs holds of scans. */
  method Scan(b: Branch, g: Graph, head: Oid, immediate: bool, verdicts: seq<Verdict>)
    returns (r: Scanned, ghost states: seq<Scanner>, ghost events: seq<Event>)
    requires Bounded(b.queue)
    modifies b
    ensures Bounded(b.queue)
    ensures states != [] && Follows(states, events, old(b.queue), Scanner(b.queue, states[|states| - 1].todo))
    ensures r == Missing <==> Misses(g, old(b.queue.cursor), head, immediate)
    ensures r == Missing ==> events == []
    ensures r != Missing ==> exists cs ::
      Discovers(g, old(b.queue.cursor), head, immediate, cs) && Scans(old(b.queue), head, cs, verdicts, states, events, r)
  {
    hide Bounded, Steps, StillPending, IsListing, DiscoverIn, MarkIn, MatchIn, Discovers, Misses, IsTrace;
    var before := b.queue;
    states, events := [Scanner(before, [])], [];
    NothingFollows(before);
    var walked := Candidates(g, b.queue.cursor, head, immediate);
    if walked == MissingCommit { return Missing, states, events; }
    var recorded := b.Discover(b.queue.cursor, head, walked.candidates);
    BoundedIsDistinct(b.queue);
    var todo := ListPending(b.queue.rows);
    ghost var list, first := todo, Open(before.cursor, head, walked.candidates);
    OpenSteps(Scanner(before, []), before.cursor, head, walked.candidates, Scanner(b.queue, todo));
    Extend(states, events, before, Scanner(before, []), first, Scanner(b.queue, todo));
    states, events := states + [Scanner(b.queue, todo)], events + [first];
    ListingIsPending(b.queue, todo);
    assert verdicts[0..] == verdicts;
    var total, i := 0, 0;
    while todo != []
      invariant i <= |verdicts| && Bounded(b.queue) && Follows(states, events, before, Scanner(b.queue, todo))
      invariant StillPending(b.queue, todo)
      invariant |states| > 1 && states[1].todo == list && events + EventsOf(todo, verdicts[i..]) == [first] + EventsOf(list, verdicts)
      invariant EndOf(todo, verdicts[i..], total, recorded == Full) == EndOf(list, verdicts, 0, recorded == Full)
      decreases |todo|
    {
      if i >= |verdicts| {
        assert events + [] == events;
        return Deadline, states, events;
      }
      var k := todo[0];
      OneVerdict(todo, verdicts, i, total, recorded == Full, events);
      AttemptSteps(b.queue, todo);
      Extend(states, events, before, Scanner(b.queue, todo), Attempt, Scanner(MarkIn(b.queue, k), todo[1..]));
      b.Mark(k);
      todo := todo[1..];
      states, events := states + [Scanner(b.queue, todo)], events + [Attempt];
      match verdicts[i] {
        case Floating =>
        case Failed => return Stopped, states, events;
        case Relinked(n) =>
          ResolveSteps(b.queue, k, todo);
          Extend(states, events, before, Scanner(b.queue, todo), Resolve(k), Scanner(MatchIn(b.queue, k), todo));
          b.Match(k);
          states, events := states + [Scanner(b.queue, todo)], events + [Resolve(k)];
          total := total + n;
      }
      i := i + 1;
    }
    assert events + [] == events;
    r := if recorded == Full then QueueFull else Done(total);
  }

  /** The scan opens against the cursor it read, and does with the list what the verdicts say. */
  ghost predicate Scans(q: Queue, head: Oid, cs: seq<Candidate>, verdicts: seq<Verdict>,
                        states: seq<Scanner>, events: seq<Event>, r: Scanned) {
    && |states| > 1 && events == [Open(q.cursor, head, cs)] + EventsOf(states[1].todo, verdicts)
    && r == EndOf(states[1].todo, verdicts, 0, DiscoverIn(q, q.cursor, head, cs).1 == Full)
  }

  lemma NothingFollows(q: Queue)
    ensures Follows([Scanner(q, [])], [], q, Scanner(q, []))
  {
  }

  lemma OneVerdict(todo: seq<Oid>, verdicts: seq<Verdict>, i: nat, total: nat, full: bool, events: seq<Event>)
    requires todo != [] && i < |verdicts|
    ensures var rest, done := EventsOf(todo[1..], verdicts[i + 1..]), events + EventsOf(todo, verdicts[i..]);
      match verdicts[i]
      case Floating =>
        && done == events + [Attempt] + rest
        && EndOf(todo, verdicts[i..], total, full) == EndOf(todo[1..], verdicts[i + 1..], total, full)
      case Relinked(n) =>
        && done == events + [Attempt] + [Resolve(todo[0])] + rest
        && EndOf(todo, verdicts[i..], total, full) == EndOf(todo[1..], verdicts[i + 1..], total + n, full)
      case Failed => done == events + [Attempt] && EndOf(todo, verdicts[i..], total, full) == Stopped
  {
    assert verdicts[i..][0] == verdicts[i] && verdicts[i..][1..] == verdicts[i + 1..];
    var rest := EventsOf(todo[1..], verdicts[i + 1..]);
    assert events + ([Attempt] + rest) == events + [Attempt] + rest;
    assert events + ([Attempt, Resolve(todo[0])] + rest) == events + [Attempt] + [Resolve(todo[0])] + rest;
  }

  lemma BoundedIsDistinct(q: Queue)
    requires Bounded(q)
    ensures DistinctOrders(q.rows)
  {
  }

  lemma OpenSteps(s: Scanner, expected: Option<Oid>, head: Oid, cs: seq<Candidate>, u: Scanner)
    requires s.queue.cursor == expected && u.queue == DiscoverIn(s.queue, expected, head, cs).0
    requires IsListing(u.queue.rows, u.todo)
    ensures Steps(s, Open(expected, head, cs), u)
  {
    hide IsListing;
  }

  lemma ListingIsPending(q: Queue, todo: seq<Oid>)
    requires IsListing(q.rows, todo)
    ensures StillPending(q, todo)
  {
    ListingIsDistinct(q.rows, todo);
  }

  lemma AttemptSteps(q: Queue, todo: seq<Oid>)
    requires StillPending(q, todo) && todo != []
    ensures var u := Scanner(MarkIn(q, todo[0]), todo[1..]);
      Steps(Scanner(q, todo), Attempt, u) && StillPending(u.queue, u.todo)
      && todo[0] in PendingOf(u.queue.rows) && todo[0] !in u.todo
  {
    hide MaxOf;
    var u := Scanner(MarkIn(q, todo[0]), todo[1..]);
    assert PendingOf(u.queue.rows) == PendingOf(q.rows);
    forall k | k in u.todo ensures k in todo && k != todo[0] {
      var j :| 0 <= j < |u.todo| && u.todo[j] == k;
      assert todo[j + 1] == k;
    }
  }

  lemma ResolveSteps(q: Queue, k: Oid, todo: seq<Oid>)
    requires Bounded(q) && k in PendingOf(q.rows) && StillPending(q, todo) && k !in todo
    ensures Steps(Scanner(q, todo), Resolve(k), Scanner(MatchIn(q, k), todo))
    ensures StillPending(MatchIn(q, k), todo)
  {
    hide MatchIn;
    MatchKeepsBounds(q, k);
  }
}
