/** What whole runs of the store keep: sharing authority, unsharing, publication. */
module StoreRuns {
  import opened Bytes
  import opened StoreTables
  import opened StoreTombstones
  import opened StoreSharing
  import opened StoreHarness
  import opened StoreSteps
  import opened StoreAuthority

  // --- Future sharing ---

  /** The step names the conversation's future sharing at the destination. */
  predicate Decides(s: Step, c: Conversation, r: Remote) {
    (s.ShareAll? || s.ShareSnapshot? || s.UnshareAll?) && s.conversation == c && s.destination == r
  }

  /** The step is a share that asks for captures to come as well. */
  predicate AsksForFuture(s: Step) {
    (s.ShareAll? || s.ShareSnapshot?) && s.future
  }

  /** After a step future sharing is as the step asks, where it names it and is not refused, and everywhere else as
      it was. */
  lemma FuturesExact(t: Tables, s: Step)
    ensures forall c, r :: FutureOn(Next(t, s), c, r) <==>
      if Apply(t, s).Ok? && Decides(s, c, r) then AsksForFuture(s) else FutureOn(t, c, r)
  {
    hide Insert, InsertAll, ApplyTombstones, IngestAll, RelateAll, Admitted, Offers, LostSkips, IsBlocked, Marked,
      Buried, Grown, Rows, ShareRows;
    if Apply(t, s).Ok? {
      match s
      case Record(c) => InsertGrows(t, c); GrownFutures(t, Next(t, s));
      case Replace(request, cs) =>
        if cs != [] {
          InsertAllGrows(DeleteRequest(t, request).value, cs);
          GrownFutures(DeleteRequest(t, request).value, Next(t, s));
        }
      case Import(p) => ImportKeepsFutures(t, p);
      case Harness(batch, session, cursor) =>
        IngestGrows(t, LostSkips(batch), Offers(batch));
        GrownFutures(t, IngestAll(t, LostSkips(batch), Offers(batch)).tables);
      case Entomb(bs, synced, remote) =>
        TombstonesBury(t, bs, synced, remote);
        BuriedFutures(t, Targets(bs), Next(t, s));
      case _ =>
    }
  }

  /** Step `k` asked for future sharing of `c` at `r` and was not refused, and no later step up to `n` decided again. */
  ghost predicate AskStands(steps: seq<Step>, n: nat, k: int, c: Conversation, r: Remote)
    requires n <= |steps|
  {
    0 <= k < n && Apply(StateAt(steps, k), steps[k]).Ok? && Decides(steps[k], c, r) && AsksForFuture(steps[k])
    && forall j :: k < j < n ==> !(Apply(StateAt(steps, j), steps[j]).Ok? && Decides(steps[j], c, r))
  }

  ghost predicate Asked(steps: seq<Step>, n: nat, c: Conversation, r: Remote)
    requires n <= |steps|
  {
    exists k :: AskStands(steps, n, k, c, r)
  }

  /** Future sharing is on exactly when the last share or unshare that named it was a share that asked for it. */
  lemma {:induction false} FutureIffAsked(steps: seq<Step>, n: nat, c: Conversation, r: Remote)
    requires n <= |steps|
    ensures FutureOn(StateAt(steps, n), c, r) <==> Asked(steps, n, c, r)
    decreases n
  {
    hide Apply, StateAt, Next, FutureOn, Decides, AsksForFuture, Asked;
    if n == 0 {
      NoFutureYet(steps, c, r);
    } else {
      FutureIffAsked(steps, n - 1, c, r);
      StateAtNext(steps, n - 1);
      FuturesExact(StateAt(steps, n - 1), steps[n - 1]);
      AskNext(steps, n - 1, c, r);
    }
  }

  lemma NoFutureYet(steps: seq<Step>, c: Conversation, r: Remote)
    ensures !FutureOn(StateAt(steps, 0), c, r) && !Asked(steps, 0, c, r)
  {
    assert steps[..0] == [];
  }

  lemma AskNext(steps: seq<Step>, n: nat, c: Conversation, r: Remote)
    requires n < |steps|
    ensures Asked(steps, n + 1, c, r) <==>
      if Apply(StateAt(steps, n), steps[n]).Ok? && Decides(steps[n], c, r) then AsksForFuture(steps[n])
      else Asked(steps, n, c, r)
  {
    hide Apply, StateAt, Decides, AsksForFuture;
    if Asked(steps, n + 1, c, r) {
      var k :| AskStands(steps, n + 1, k, c, r);
      if k < n { assert AskStands(steps, n, k, c, r); }
    }
    if Apply(StateAt(steps, n), steps[n]).Ok? && Decides(steps[n], c, r) {
      if AsksForFuture(steps[n]) { assert AskStands(steps, n + 1, n, c, r); }
    } else if Asked(steps, n, c, r) {
      var k :| AskStands(steps, n, k, c, r);
      assert AskStands(steps, n + 1, k, c, r);
    }
  }

  // --- Sharing authority ---

  /** Whenever a step of the run deletes rows by their request, each of their share rows is one a
      capture of the same replacement would get. */
  ghost predicate CleanRun(steps: seq<Step>) {
    forall i :: 0 <= i < |steps| ==> Clean(StateAt(steps, i), steps[i])
  }

  /** Step `i` granted the share, and no later step up to `n` revoked it. */
  ghost predicate GrantStands(steps: seq<Step>, n: nat, i: int, id: Id, r: Remote)
    requires n <= |steps|
  {
    0 <= i < n && Granted(StateAt(steps, i), steps[i], id, r)
    && forall j :: i < j < n ==> !Revoked(StateAt(steps, j), steps[j], id, r)
  }

  ghost predicate Stands(steps: seq<Step>, n: nat, id: Id, r: Remote)
    requires n <= |steps|
  {
    exists i :: GrantStands(steps, n, i, id, r)
  }

  lemma StandsNext(steps: seq<Step>, n: nat, id: Id, r: Remote)
    requires n < |steps|
    ensures Stands(steps, n + 1, id, r) <==>
      Granted(StateAt(steps, n), steps[n], id, r)
      || (Stands(steps, n, id, r) && !Revoked(StateAt(steps, n), steps[n], id, r))
  {
    hide Granted, Revoked, StateAt;
    if Stands(steps, n + 1, id, r) {
      var i :| GrantStands(steps, n + 1, i, id, r);
      if i < n { assert GrantStands(steps, n, i, id, r); }
    }
    if Granted(StateAt(steps, n), steps[n], id, r) {
      assert GrantStands(steps, n + 1, n, id, r);
    } else if Stands(steps, n, id, r) && !Revoked(StateAt(steps, n), steps[n], id, r) {
      var i :| GrantStands(steps, n, i, id, r);
      assert GrantStands(steps, n + 1, i, id, r);
    }
  }

  lemma {:induction false} SharedUpTo(steps: seq<Step>, n: nat, id: Id, r: Remote)
    requires CleanRun(steps) && n <= |steps|
    ensures OrphanFree(StateAt(steps, n))
    ensures Shared(StateAt(steps, n), id, r) <==> Stands(steps, n, id, r)
    decreases n
  {
    hide Granted, Revoked, Clean, Sound, Stands, Run, OrphanFree, Next, Shared;
    if n == 0 {
      FreshStore(steps, id, r);
    } else {
      SharedUpTo(steps, n - 1, id, r);
      ReachableIsSound(steps[..n - 1]);
      StateAtNext(steps, n - 1);
      StepIsAccounted(StateAt(steps, n - 1), steps[n - 1]);
      assert AsGranted(StateAt(steps, n - 1), steps[n - 1], id, r);
      StandsNext(steps, n - 1, id, r);
    }
  }

  lemma FreshStore(steps: seq<Step>, id: Id, r: Remote)
    ensures OrphanFree(StateAt(steps, 0)) && !Shared(StateAt(steps, 0), id, r)
    ensures !Stands(steps, 0, id, r)
  {
    assert steps[..0] == [];
  }

  /** A stored row is shared with a destination exactly when some step granted it and none since
      revoked it. */
  lemma SharedIffGranted(steps: seq<Step>, id: Id, r: Remote)
    requires CleanRun(steps)
    ensures Shared(Run(EMPTY, steps), id, r) <==> exists i :: GrantStands(steps, |steps|, i, id, r)
  {
    SharedUpTo(steps, |steps|, id, r);
    EndState(steps);
  }

  /** A row that no step deletes keeps its conversation and its source. */
  lemma RowPersists(t: Tables, s: Step, id: Id)
    requires id in t.interactions && (Apply(t, s).Ok? ==> id !in Deleted(t, s))
    ensures id in Next(t, s).interactions
    ensures Next(t, s).interactions[id].conversation == t.interactions[id].conversation
    ensures Next(t, s).interactions[id].source == t.interactions[id].source
  {
    hide Insert, InsertAll, ApplyTombstones, IngestAll, RelateAll, Admitted, Offers, LostSkips, IsBlocked, Marked,
      Targets, Buried, Grown;
    if Apply(t, s).Ok? {
      match s
      case Record(c) => InsertGrows(t, c); RowGrown(t, Next(t, s), id);
      case Replace(request, cs) =>
        if cs != [] {
          InsertAllGrows(DeleteRequest(t, request).value, cs);
          RowGrown(DeleteRequest(t, request).value, Next(t, s), id);
        }
      case Import(p) => RowImported(t, p, id);
      case Harness(batch, session, cursor) =>
        IngestGrows(t, LostSkips(batch), Offers(batch));
        RowGrown(t, IngestAll(t, LostSkips(batch), Offers(batch)).tables, id);
      case Entomb(bs, synced, remote) =>
        TombstonesBury(t, bs, synced, remote);
        RowBuried(t, Targets(bs), Next(t, s), id);
      case _ =>
    }
  }

  lemma RowGrown(t: Tables, u: Tables, id: Id)
    requires id in t.interactions && Grown(t, u)
    ensures id in u.interactions && u.interactions[id] == t.interactions[id]
  {
  }

  lemma RowBuried(t: Tables, targets: set<Id>, u: Tables, id: Id)
    requires id in t.interactions && id !in targets && Buried(t, targets, u)
    ensures id in u.interactions
    ensures u.interactions[id].conversation == t.interactions[id].conversation
    ensures u.interactions[id].source == t.interactions[id].source
  {
  }

  lemma RowImported(t: Tables, p: Pull, id: Id)
    requires id in t.interactions && id !in Targets(p.tombstones) && ImportPull(t, p).Ok?
    ensures var u := ImportPull(t, p).value;
      id in u.interactions && u.interactions[id].conversation == t.interactions[id].conversation
      && u.interactions[id].source == t.interactions[id].source
  {
    hide InsertAll, ApplyTombstones, RelateAll, Admitted, Targets, Buried, Grown, Marked;
    var a := ApplyTombstones(t, p.tombstones, true, p.remote).value;
    TombstonesBury(t, p.tombstones, true, p.remote);
    RowBuried(t, Targets(p.tombstones), a, id);
    var cs := Admitted(a, p.captures, p.remote);
    InsertAllGrows(a, cs);
    RowGrown(a, InsertAll(a, cs).value, id);
  }

  lemma {:induction false} RowPersistsUpTo(steps: seq<Step>, i: nat, n: nat, id: Id, r: Remote)
    requires i <= n <= |steps| && id in StateAt(steps, i).interactions
    requires forall j :: i <= j < n ==> !Revoked(StateAt(steps, j), steps[j], id, r)
    ensures id in StateAt(steps, n).interactions
    ensures var a, b := StateAt(steps, i).interactions[id], StateAt(steps, n).interactions[id];
      a.conversation == b.conversation && a.source == b.source
    decreases n
  {
    hide StateAt, Deleted, Next, Apply;
    if i < n {
      RowPersistsUpTo(steps, i, n - 1, id, r);
      StateAtNext(steps, n - 1);
      RowPersists(StateAt(steps, n - 1), steps[n - 1], id);
    }
  }

  /** Sharing authority: a row is shared with a destination only because an explicit share naming
      its conversation covered it, or because it was captured by a source that takes part in its
      conversation's future sharing after a share had asked for that there, with no other decision
      between; and nothing has withdrawn the share since.
      What MCP clients record, and captures of no known source, are shared only explicitly. */
  lemma SharingAuthority(steps: seq<Step>, id: Id, r: Remote) returns (i: nat)
    requires CleanRun(steps) && Shared(Run(EMPTY, steps), id, r)
    ensures i < |steps| && Apply(StateAt(steps, i), steps[i]).Ok?
    ensures var row, t := Run(EMPTY, steps).interactions[id], StateAt(steps, i);
      (SharedExplicitly(t, steps[i], id, r) && InConversation(t, id, row.conversation))
      || (NewRow(t, steps[i], id) && Inherits(row.source) && Asked(steps, i, row.conversation, r))
    ensures var row := Run(EMPTY, steps).interactions[id];
      row.source == Mcp || row.source == Legacy ==> steps[i].ShareAll? || steps[i].ShareSnapshot?
    ensures forall j :: i < j < |steps| ==> !Revoked(StateAt(steps, j), steps[j], id, r)
  {
    hide Run, CleanRun, Revoked, Granted, NewRow, Next, Apply, Inherits, SharedExplicitly, FutureOn, InConversation, Asked;
    SharedIffGranted(steps, id, r);
    i :| GrantStands(steps, |steps|, i, id, r);
    EndState(steps);
    StateAtNext(steps, i);
    GrantedRow(StateAt(steps, i), steps[i], id, r);
    FutureIffAsked(steps, i, Run(EMPTY, steps).interactions[id].conversation, r);
    RowPersistsUpTo(steps, i + 1, |steps|, id, r);
  }

  lemma EndState(steps: seq<Step>)
    ensures StateAt(steps, |steps|) == Run(EMPTY, steps)
  {
    assert steps[..|steps|] == steps;
  }

  lemma GrantedRow(t: Tables, s: Step, id: Id, r: Remote)
    requires Granted(t, s, id, r)
    ensures Apply(t, s).Ok? && id in Next(t, s).interactions
    ensures var row := Next(t, s).interactions[id];
      (SharedExplicitly(t, s, id, r) && InConversation(t, id, row.conversation) && (s.ShareAll? || s.ShareSnapshot?))
      || (NewRow(t, s, id) && Inherits(row.source) && row.source != Mcp && row.source != Legacy
          && FutureOn(t, row.conversation, r))
  {
    if SharedExplicitly(t, s, id, r) { RowPersists(t, s, id); }
  }

  // --- When a deletion is not clean ---

  /** Every share row belongs to a stored interaction, or one that can never be stored again,
      exactly when no thought a client may still record through MCP would be shared by it. */
  lemma McpStaysPrivateIff(t: Tables)
    ensures OrphanFree(t) <==>
      forall c: Capture, r :: c.row.source == Mcp && Insert(t, c).Ok? ==> (c.id, r) !in Insert(t, c).value.shares
  {
    if !OrphanFree(t) {
      var p :| p in t.shares && p.0 !in t.interactions && !LocallyTombstoned(t, p.0);
      var c := Capture(p.0, Interaction("", None, Mcp, None, ""));
      assert Insert(t, c).Ok? && (c.id, p.1) in Insert(t, c).value.shares;
    }
  }

  /** A store records every further capture shared exactly as granted when it has no stray share
      row, and only then. */
  lemma RecordsAsGrantedIff(t: Tables)
    requires Sound(t)
    ensures OrphanFree(t) <==> forall c: Capture, id, r :: AsGranted(t, Record(c), id, r)
  {
    hide Sound;
    if OrphanFree(t) {
      hide AsGranted, OrphanFree;
      forall c: Capture, id, r ensures AsGranted(t, Record(c), id, r) {
        StepIsAccounted(t, Record(c));
      }
    } else {
      var p :| p in t.shares && p.0 !in t.interactions && !LocallyTombstoned(t, p.0);
      var c := Capture(p.0, Interaction("", None, Mcp, None, ""));
      assert Next(t, Record(c)) == Insert(t, c).value;
      assert !AsGranted(t, Record(c), p.0, p.1);
    }
  }

  /** After `n` steps every stored row is shared exactly by what stands granted, and so it would be
      after recording whatever is recorded next. */
  ghost predicate Honoured(steps: seq<Step>, n: nat)
    requires n <= |steps|
  {
    && (forall id, r :: Shared(StateAt(steps, n), id, r) <==> Stands(steps, n, id, r))
    && (forall c: Capture, id, r :: AsGranted(StateAt(steps, n), Record(c), id, r))
  }

  /** Over a run, sharing is honoured throughout if and only if the run is clean: nothing less than
      cleanness would do. */
  lemma HonouredIffClean(steps: seq<Step>)
    ensures CleanRun(steps) <==> forall n: nat :: n <= |steps| ==> Honoured(steps, n)
  {
    hide Granted, Revoked, Clean, Sound, Stands, Run, AsGranted, OrphanFree, Honoured, Shared;
    if CleanRun(steps) {
      forall n: nat | n <= |steps| ensures Honoured(steps, n) { CleanIsHonoured(steps, n); }
    }
    if forall n: nat :: n <= |steps| ==> Honoured(steps, n) {
      forall i | 0 <= i < |steps| ensures Clean(StateAt(steps, i), steps[i]) {
        HonouredIsClean(steps, i);
      }
    }
  }

  lemma CleanIsHonoured(steps: seq<Step>, n: nat)
    requires CleanRun(steps) && n <= |steps|
    ensures Honoured(steps, n)
  {
    hide Clean, CleanRun, Sound, Stands, Run, AsGranted, OrphanFree, Shared;
    forall id, r ensures Shared(StateAt(steps, n), id, r) <==> Stands(steps, n, id, r) { SharedUpTo(steps, n, id, r); }
    SharedUpTo(steps, n, "", "");
    ReachableIsSound(steps[..n]);
    RecordsAsGrantedIff(StateAt(steps, n));
  }

  lemma HonouredIsClean(steps: seq<Step>, i: nat)
    requires i < |steps| && Honoured(steps, i) && Honoured(steps, i + 1)
    ensures Clean(StateAt(steps, i), steps[i])
  {
    hide Granted, Revoked, Clean, Sound, Stands, Run, OrphanFree, Shared, Next;
    var t, s := StateAt(steps, i), steps[i];
    ReachableIsSound(steps[..i]);
    ReachableIsSound(steps[..i + 1]);
    StateAtNext(steps, i);
    RecordsAsGrantedIff(t);
    RecordsAsGrantedIff(StateAt(steps, i + 1));
    forall id, r ensures AsGranted(t, s, id, r) { StandsNext(steps, i, id, r); }
    StepIsAccounted(t, s);
  }

  /** A run in which a pulled row is shared though no grant of it stands: a segment is shared, the
      watcher replaces it under another id, and a pull brings the old id back. */
  lemma ReplacementCanShareAPull(row: Interaction, r: Remote, origin: Remote)
    requires row.source == VscodePassive && row.parent == None && row.request == Some("request")
    ensures var pull := Pull([Capture("1", row)], [], Some(origin), [], [], 0);
      var steps := [Replace("request", [Capture("1", row)]), ShareAll(row.conversation, r, false),
                    Replace("request", [Capture("2", row)]), Import(pull)];
      Shared(Run(EMPTY, steps), "1", r) && !Stands(steps, 4, "1", r) && !Clean(StateAt(steps, 2), steps[2])
  {
    hide Next, Apply, Share, Run, Granted, Revoked, Clean, Stands, Shared;
    var pull := Pull([Capture("1", row)], [], Some(origin), [], [], 0);
    var a, b := Replace("request", [Capture("1", row)]), ShareAll(row.conversation, r, false);
    var c, d := Replace("request", [Capture("2", row)]), Import(pull);
    var steps := [a, b, c, d];
    EndState(steps);
    FourSteps(a, b, c, d);
    hide StateAt;
    FirstSegment(row);
    SegmentShared(row, r);
    SegmentReplaced(row, r);
    PulledBack(row, r, pull, origin);
    StandsNext(steps, 2, "1", r);
    StandsNext(steps, 3, "1", r);
  }

  /** The states of that run. */
  function OneSegment(row: Interaction): Tables {
    EMPTY.(conversations := {row.conversation}, interactions := map["1" := row])
  }

  function OneShared(row: Interaction, r: Remote): Tables {
    OneSegment(row).(shares := {("1", r)}, futures := map[(row.conversation, r) := false])
  }

  function OneReplaced(row: Interaction, r: Remote): Tables {
    OneShared(row, r).(interactions := map["2" := row])
  }

  lemma FirstSegment(row: Interaction)
    requires row.parent == None && row.request == Some("request")
    ensures Next(EMPTY, Replace("request", [Capture("1", row)])) == OneSegment(row)
  {
    var cs := [Capture("1", row)];
    assert FutureShares(EMPTY, "1", row) == {};
    assert EMPTY.conversations + {row.conversation} == {row.conversation};
    assert EMPTY.interactions["1" := row] == map["1" := row] && EMPTY.shares + {} == EMPTY.shares;
    assert DeleteRequest(EMPTY, "request") == Ok(EMPTY);
    assert InsertAll(EMPTY, cs[..0]) == Ok(EMPTY);
  }

  lemma SegmentShared(row: Interaction, r: Remote)
    ensures Next(OneSegment(row), ShareAll(row.conversation, r, false)) == OneShared(row, r)
  {
    assert Rows(OneSegment(row), row.conversation) == {"1"};
    assert ShareRows({"1"}, r) == {("1", r)};
    assert {} + {("1", r)} == {("1", r)};
    assert map[][(row.conversation, r) := false] == map[(row.conversation, r) := false];
  }

  lemma SegmentReplaced(row: Interaction, r: Remote)
    requires row.parent == None && row.request == Some("request")
    ensures var t, s := OneShared(row, r), Replace("request", [Capture("2", row)]);
      Next(t, s) == OneReplaced(row, r) && Revoked(t, s, "1", r) && !Granted(t, s, "1", r) && !Clean(t, s)
  {
    var t, c := OneShared(row, r), Capture("2", row);
    var s := Replace("request", [c]);
    assert OfRequest(t, "request") == {"1"};
    var m := t.(interactions := map[]);
    assert t.interactions - {"1"} == map[];
    assert DeleteRequest(t, "request") == Ok(m);
    assert FutureShares(m, "2", row) == {} && m.shares + {} == m.shares;
    assert m.interactions["2" := row] == map["2" := row];
    assert m.conversations + {row.conversation} == m.conversations;
    assert [c][..0] == [] && InsertAll(m, [c][..0]) == Ok(m);
    assert ("1", r) in t.shares && !SharesAgain(t, [c], "1", r);
  }

  lemma PulledBack(row: Interaction, r: Remote, pull: Pull, origin: Remote)
    requires row.parent == None && pull == Pull([Capture("1", row)], [], Some(origin), [], [], 0)
    ensures var t := OneReplaced(row, r);
      Shared(Next(t, Import(pull)), "1", r) && !Granted(t, Import(pull), "1", r)
  {
    var t, c := OneReplaced(row, r), Imported(Capture("1", row), Some(origin));
    assert Insert(t, c).Ok? && ("1", r) in Insert(t, c).value.shares && !FutureOn(t, c.row.conversation, r);
    PullOfOne(t, Capture("1", row), pull, origin);
    PulledByPolicyOnly(t, pull, c, r);
  }

  lemma PulledByPolicyOnly(t: Tables, pull: Pull, c: Capture, r: Remote)
    requires c.id in Next(t, Import(pull)).interactions && Next(t, Import(pull)).interactions[c.id] == c.row
    requires !FutureOn(t, c.row.conversation, r)
    ensures !Granted(t, Import(pull), c.id, r)
  {
    hide Next, Apply;
  }

  /** A pull of one capture that is let in. */
  lemma PullOfOne(t: Tables, c: Capture, pull: Pull, origin: Remote)
    requires pull == Pull([c], [], Some(origin), [], [], 0)
    requires !TombstonedFor(t, c.id, Some(origin)) && Insert(t, Imported(c, Some(origin))).Ok?
    ensures var m, u := Insert(t, Imported(c, Some(origin))).value, Next(t, Import(pull));
      u.interactions == m.interactions && u.shares == m.shares
  {
    hide Insert, Mark;
    var cs := [Imported(c, Some(origin))];
    assert pull.captures[..0] == [];
    assert Admitted(t, pull.captures, Some(origin)) == cs by {
      assert Admitted(t, pull.captures[..0], Some(origin)) == [];
      assert [] + cs == cs;
    }
    assert cs[..0] == [] && InsertAll(t, cs[..0]) == Ok(t);
    var m := Insert(t, cs[0]).value;
    MarkKeepsShares(m, AsSet(pull.published), origin, Published, 0);
  }

  lemma FourSteps(a: Step, b: Step, c: Step, d: Step)
    ensures var steps := [a, b, c, d];
      && StateAt(steps, 2) == Next(Next(EMPTY, a), b)
      && StateAt(steps, 3) == Next(StateAt(steps, 2), c) && StateAt(steps, 4) == Next(StateAt(steps, 3), d)
  {
    var steps := [a, b, c, d];
    hide Next;
    assert steps[..0] == [];
    assert StateAt(steps, 0) == EMPTY;
    hide StateAt;
    StateAtNext(steps, 0);
    StateAtNext(steps, 1);
    StateAtNext(steps, 2);
    StateAtNext(steps, 3);
  }

  // --- After an unshare ---

  /** Nothing of the conversation is shared with the destination, nor will be by its policy. */
  ghost predicate Quiet(t: Tables, c: Conversation, r: Remote) {
    !FutureOn(t, c, r) && forall id :: InConversation(t, id, c) ==> (id, r) !in t.shares
  }

  predicate Shares(s: Step, c: Conversation, r: Remote) {
    (s.ShareAll? || s.ShareSnapshot?) && s.conversation == c && s.destination == r
  }

  lemma UnshareIsQuiet(t: Tables, c: Conversation, r: Remote)
    requires Unshare(t, c, r).Ok?
    ensures Quiet(Unshare(t, c, r).value, c, r)
  {
    hide IsBlocked;
    forall id | InConversation(t, id, c) ensures (id, r) in ShareRows(Rows(t, c), r) {
      assert id in Rows(t, c);
    }
  }

  lemma GrownFutures(t: Tables, u: Tables)
    requires Grown(t, u)
    ensures u.futures == t.futures && u.publications == t.publications && t.shares <= u.shares
  {
    forall p | p in t.shares ensures p in u.shares { assert (p.0, p.1) in u.shares; }
  }

  lemma BuriedFutures(t: Tables, targets: set<Id>, u: Tables)
    requires Buried(t, targets, u)
    ensures u.futures == t.futures
  {
  }

  lemma ImportKeepsFutures(t: Tables, p: Pull)
    requires ImportPull(t, p).Ok?
    ensures ImportPull(t, p).value.futures == t.futures
  {
    hide InsertAll, ApplyTombstones, RelateAll, Admitted, Buried, Grown, Marked;
    var a := ApplyTombstones(t, p.tombstones, true, p.remote).value;
    TombstonesBury(t, p.tombstones, true, p.remote);
    BuriedFutures(t, Targets(p.tombstones), a);
    var cs := Admitted(a, p.captures, p.remote);
    InsertAllGrows(a, cs);
    GrownFutures(a, InsertAll(a, cs).value);
  }

  lemma StepKeepsQuiet(t: Tables, s: Step, c: Conversation, r: Remote)
    requires Sound(t) && OrphanFree(t) && Clean(t, s) && Quiet(t, c, r) && !Shares(s, c, r)
    ensures Quiet(Next(t, s), c, r)
  {
    hide Next, Apply, Clean, Sound, OrphanFree, Deleted;
    FuturesExact(t, s);
    StepIsAccounted(t, s);
    forall id | InConversation(Next(t, s), id, c) ensures (id, r) !in Next(t, s).shares {
      assert AsGranted(t, s, id, r);
      if Shared(Next(t, s), id, r) {
        if Granted(t, s, id, r) {
          GrantedRow(t, s, id, r);
        } else {
          RowPersists(t, s, id);
        }
      }
    }
  }

  lemma {:induction false} QuietUpTo(steps: seq<Step>, i: nat, n: nat, c: Conversation, r: Remote)
    requires i <= n <= |steps| && CleanRun(steps) && Quiet(StateAt(steps, i), c, r)
    requires forall j :: i <= j < n ==> !Shares(steps[j], c, r)
    ensures Quiet(StateAt(steps, n), c, r)
    decreases n
  {
    hide Run, Quiet, Clean, Sound, OrphanFree;
    if i < n {
      QuietUpTo(steps, i, n - 1, c, r);
      SharedUpTo(steps, n - 1, "", r);
      ReachableIsSound(steps[..n - 1]);
      StateAtNext(steps, n - 1);
      StepKeepsQuiet(StateAt(steps, n - 1), steps[n - 1], c, r);
    }
  }

  /** After a successful unshare, and until a later share naming the conversation and destination,
      what is projected of the conversation is exactly what a wildcard share covers: nothing, when
      there are no wildcard rows. */
  lemma UnshareHolds(steps: seq<Step>, i: nat, c: Conversation, r: Remote, id: Id)
    requires CleanRun(steps) && i < |steps| && steps[i] == UnshareAll(c, r)
    requires Unshare(StateAt(steps, i), c, r).Ok?
    requires forall j :: i < j < |steps| ==> !Shares(steps[j], c, r)
    requires InConversation(Run(EMPTY, steps), id, c)
    ensures var t := Run(EMPTY, steps);
      id in Projected(t, r) <==>
        (id, ANYWHERE) in t.shares && r != ANYWHERE
        && ((id, r) !in t.publications || t.publications[(id, r)].state != Unknown)
  {
    hide Run, Quiet, CleanRun, Unshare;
    StateAtNext(steps, i);
    UnshareIsQuiet(StateAt(steps, i), c, r);
    QuietUpTo(steps, i + 1, |steps|, c, r);
    EndState(steps);
    QuietProjection(Run(EMPTY, steps), c, r, id);
  }

  lemma QuietProjection(t: Tables, c: Conversation, r: Remote, id: Id)
    requires Quiet(t, c, r) && InConversation(t, id, c)
    ensures id in Projected(t, r) <==>
      (id, ANYWHERE) in t.shares && r != ANYWHERE
      && ((id, r) !in t.publications || t.publications[(id, r)].state != Unknown)
  {
  }

  // --- Publication ---

  /** The rows a step's tombstones name, stored or not. */
  function Suppressed(s: Step): set<Id> {
    match s
    case Import(p) => Targets(p.tombstones)
    case Entomb(bs, _, _) => Targets(bs)
    case _ => {}
  }

  ghost predicate PublishedAt(t: Tables, k: (Id, Remote), at: int) {
    k in t.publications && t.publications[k] == Publication(Published, at)
  }

  lemma MarkKeepsPublished(t: Tables, ids: set<Id>, r: Remote, state: PublicationState, now: int, k: (Id, Remote), at: int)
    requires PublishedAt(t, k, at)
    ensures PublishedAt(Mark(t, ids, r, state, now), k, at)
  {
    hide Mark;
    MarkAt(t, ids, r, state, now, k);
  }

  lemma BuriedKeepsOthers(t: Tables, targets: set<Id>, u: Tables, k: (Id, Remote), at: int)
    requires Buried(t, targets, u) && k.0 !in targets && PublishedAt(t, k, at)
    ensures PublishedAt(u, k, at) && (k in t.shares ==> k in u.shares)
  {
  }

  lemma ImportKeepsPublished(t: Tables, p: Pull, k: (Id, Remote), at: int)
    requires ImportPull(t, p).Ok? && k.0 !in Targets(p.tombstones) && PublishedAt(t, k, at)
    ensures var u := ImportPull(t, p).value; PublishedAt(u, k, at) && (k in t.shares ==> k in u.shares)
  {
    hide InsertAll, ApplyTombstones, RelateAll, Admitted, Buried, Grown, Marked, Targets, Mark;
    var a := ApplyTombstones(t, p.tombstones, true, p.remote).value;
    TombstonesBury(t, p.tombstones, true, p.remote);
    BuriedKeepsOthers(t, Targets(p.tombstones), a, k, at);
    var cs := Admitted(a, p.captures, p.remote);
    InsertAllGrows(a, cs);
    var b := InsertAll(a, cs).value;
    GrownFutures(a, b);
    var c := RelateAll(b, p.events, p.remote).value;
    if p.remote.Some? {
      MarkKeepsPublished(c, AsSet(p.published), p.remote.value, Published, p.now, k, at);
      MarkKeepsShares(c, AsSet(p.published), p.remote.value, Published, p.now);
    }
  }

  lemma MarkKeepsShares(t: Tables, ids: set<Id>, r: Remote, state: PublicationState, now: int)
    ensures Mark(t, ids, r, state, now).shares == t.shares && Mark(t, ids, r, state, now).interactions == t.interactions
  {
  }

  /** One step keeps a published row published with its first timestamp, and its share. */
  lemma StepKeepsPublished(t: Tables, s: Step, k: (Id, Remote), at: int)
    requires PublishedAt(t, k, at) && k.0 !in Suppressed(s)
    ensures PublishedAt(Next(t, s), k, at)
    ensures k in t.shares ==> k in Next(t, s).shares
  {
    hide Insert, InsertAll, ApplyTombstones, IngestAll, ImportPull, Admitted, Offers, LostSkips, Marked, Mark,
      Buried, Grown, Targets, FutureShares;
    if Apply(t, s).Ok? {
      match s
      case Record(c) => InsertGrows(t, c); GrownFutures(t, Next(t, s));
      case Replace(request, cs) =>
        if cs != [] {
          InsertAllGrows(DeleteRequest(t, request).value, cs);
          GrownFutures(DeleteRequest(t, request).value, Next(t, s));
        }
      case Import(p) => ImportKeepsPublished(t, p, k, at);
      case Harness(batch, session, cursor) =>
        IngestGrows(t, LostSkips(batch), Offers(batch));
        GrownFutures(t, IngestAll(t, LostSkips(batch), Offers(batch)).tables);
      case Entomb(bs, synced, remote) =>
        TombstonesBury(t, bs, synced, remote);
        BuriedKeepsOthers(t, Targets(bs), Next(t, s), k, at);
      case MarkAll(ids, r, state, now) =>
        MarkKeepsPublished(t, AsSet(ids), r, state, now, k, at);
        MarkKeepsShares(t, AsSet(ids), r, state, now);
      case UnshareAll(c, r) =>
        assert k.0 !in Rows(t, c) || k.1 != r;
      case _ =>
    }
  }

  /** Publication is monotone over runs: until a tombstone names the interaction, a published pair
      stays published with its first timestamp, and stays shared if it was. */
  lemma {:induction false} PublishedStays(t: Tables, steps: seq<Step>, k: (Id, Remote), at: int)
    requires PublishedAt(t, k, at) && forall i :: 0 <= i < |steps| ==> k.0 !in Suppressed(steps[i])
    ensures PublishedAt(Run(t, steps), k, at)
    ensures k in t.shares ==> k in Run(t, steps).shares
  {
    hide Next, Suppressed;
    if steps != [] {
      PublishedStays(t, steps[..|steps| - 1], k, at);
      StepKeepsPublished(Run(t, steps[..|steps| - 1]), steps[|steps| - 1], k, at);
    }
  }
}
