/** Installing the hook, told line by line: which lines stand inside a managed block, and what becomes of the rest. */
module HookLines {
  import opened Bytes
  import opened Hooks

  // --- Where a line stands ---

  /** What marks a block: its first line begins with the begin marker, its last is the end marker and a line end. */
  lemma MarkerLines(l: Text)
    ensures IsBegin(l) <==> "# CVC Hook: post-checkout begin" <= l
    ensures IsEnd(l) <==> "# CVC Hook: post-checkout end" <= l && forall i :: 29 <= i < |l| ==> l[i] == '\n' || l[i] == '\r'
  {
    var begin, end := "# CVC Hook: post-checkout begin", "# CVC Hook: post-checkout end";
    assert begin[30] == 'n' && end[28] == 'd' && |begin| == 31 && |end| == 29;
    TrimIs(l);
    hide Trim;
    assert |Trim(l)| < |l| ==> l[|Trim(l)|] == '\n' || l[|Trim(l)|] == '\r';
    if begin <= l {
      assert l[..31] == begin;
      assert forall i :: 0 <= i < 31 ==> l[i] == begin[i];
    }
  }

  lemma {:induction false} TrimIs(l: Text)
    ensures Trim(l) <= l && forall i :: |Trim(l)| <= i < |l| ==> l[i] == '\n' || l[i] == '\r'
    ensures Trim(l) != "" ==> Trim(l)[|Trim(l)| - 1] != '\n' && Trim(l)[|Trim(l)| - 1] != '\r'
  {
    if l != [] && (l[|l| - 1] == '\n' || l[|l| - 1] == '\r') {
      TrimIs(l[..|l| - 1]);
    }
  }

  ghost predicate NoEnd(ls: seq<Text>, from: nat, to: nat)
    requires to <= |ls|
  {
    forall e :: from <= e < to ==> !IsEnd(ls[e])
  }

  /** Line `i` is in a block: a begin marker stands there or before, with no end marker since. */
  ghost predicate Inside(ls: seq<Text>, i: nat)
    requires i < |ls|
  {
    exists a: nat :: a <= i && IsBegin(ls[a]) && NoEnd(ls, a, i)
  }

  /** A begin marker that no end marker follows. */
  ghost predicate IsOpen(ls: seq<Text>) {
    exists a :: 0 <= a < |ls| && IsBegin(ls[a]) && NoEnd(ls, a + 1, |ls|)
  }

  /** The lines from `i` on that stand in no block. */
  ghost function OutsideFrom(ls: seq<Text>, i: nat): seq<Text>
    requires i <= |ls|
    decreases |ls| - i
  {
    if i == |ls| then [] else (if Inside(ls, i) then [] else [ls[i]]) + OutsideFrom(ls, i + 1)
  }

  ghost function InsideFrom(ls: seq<Text>, i: nat): seq<Text>
    requires i <= |ls|
    decreases |ls| - i
  {
    if i == |ls| then [] else (if Inside(ls, i) then [ls[i]] else []) + InsideFrom(ls, i + 1)
  }

  ghost predicate IsFirstBegin(ls: seq<Text>, first: nat) {
    first < |ls| && IsBegin(ls[first]) && forall i :: 0 <= i < first ==> !IsBegin(ls[i])
  }

  // --- Block by block ---

  lemma NotBoth(l: Text)
    ensures !(IsBegin(l) && IsEnd(l))
  {
    assert BEGIN[|BEGIN| - 1] == 'n';
    assert |BEGIN| > |END|;
  }

  /** Where a line stands depends on the lines from `k` on, once no block reaches over `k`. */
  lemma InsideLater(ls: seq<Text>, k: nat, i: nat)
    requires k <= i < |ls|
    requires k > 0 ==> IsEnd(ls[k - 1]) || forall a :: 0 <= a < k ==> !IsBegin(ls[a])
    ensures Inside(ls, i) <==> Inside(ls[k..], i - k)
  {
    hide IsBegin, IsEnd;
    var later := ls[k..];
    if Inside(ls, i) {
      var a: nat :| a <= i && IsBegin(ls[a]) && NoEnd(ls, a, i);
      if k > 0 { NotBoth(ls[k - 1]); }
      assert k <= a;
      assert later[a - k] == ls[a];
      assert NoEnd(later, a - k, i - k);
    }
    if Inside(later, i - k) {
      var a: nat :| a <= i - k && IsBegin(later[a]) && NoEnd(later, a, i - k);
      forall e | k + a <= e < i ensures !IsEnd(ls[e]) { assert later[e - k] == ls[e]; }
      assert NoEnd(ls, k + a, i);
    }
  }

  lemma {:induction false} FromLater(ls: seq<Text>, k: nat, i: nat)
    requires k <= i <= |ls|
    requires k > 0 ==> IsEnd(ls[k - 1]) || forall a :: 0 <= a < k ==> !IsBegin(ls[a])
    ensures OutsideFrom(ls, i) == OutsideFrom(ls[k..], i - k)
    ensures InsideFrom(ls, i) == InsideFrom(ls[k..], i - k)
    decreases |ls| - i
  {
    hide IsBegin, IsEnd, Inside, OutsideFrom, InsideFrom;
    FromNext(ls, i);
    FromNext(ls[k..], i - k);
    if i < |ls| {
      InsideLater(ls, k, i);
      FromLater(ls, k, i + 1);
    }
  }

  /** One line at a time. */
  lemma FromNext(ls: seq<Text>, i: nat)
    requires i <= |ls|
    ensures i == |ls| ==> OutsideFrom(ls, i) == [] && InsideFrom(ls, i) == []
    ensures i < |ls| ==> OutsideFrom(ls, i) == (if Inside(ls, i) then [] else [ls[i]]) + OutsideFrom(ls, i + 1)
    ensures i < |ls| ==> InsideFrom(ls, i) == (if Inside(ls, i) then [ls[i]] else []) + InsideFrom(ls, i + 1)
  {
    hide Inside;
  }

  lemma {:induction false} OverBlock(ls: seq<Text>, i: nat, n: nat)
    requires i <= n < |ls| && IsBegin(ls[0]) && NoEnd(ls, 0, n)
    ensures OutsideFrom(ls, i) == OutsideFrom(ls, n + 1)
    ensures InsideFrom(ls, i) == ls[i..n + 1] + InsideFrom(ls, n + 1)
    decreases n - i
  {
    hide IsBegin, IsEnd, Inside, OutsideFrom, InsideFrom;
    BlockLine(ls, i, n);
    FromNext(ls, i);
    if i == n {
      assert ls[i..n + 1] == [ls[i]];
    } else {
      OverBlock(ls, i + 1, n);
      assert ls[i..n + 1] == [ls[i]] + ls[i + 1..n + 1];
      ConcatAssociates([ls[i]], ls[i + 1..n + 1], InsideFrom(ls, n + 1));
    }
  }

  lemma BlockLine(ls: seq<Text>, i: nat, n: nat)
    requires i <= n < |ls| && IsBegin(ls[0]) && NoEnd(ls, 0, n)
    ensures Inside(ls, i)
  {
    hide IsBegin, IsEnd;
    assert NoEnd(ls, 0, i);
  }

  lemma ConcatAssociates(a: seq<Text>, b: seq<Text>, c: seq<Text>)
    ensures (a + b) + c == a + (b + c)
  {
  }

  ghost function Concat(blocks: seq<seq<Text>>): seq<Text> {
    if blocks == [] then [] else blocks[0] + Concat(blocks[1..])
  }

  lemma LineOutside(ls: seq<Text>)
    requires ls != [] && !IsBegin(ls[0])
    ensures OutsideFrom(ls, 0) == [ls[0]] + OutsideFrom(ls[1..], 0)
    ensures InsideFrom(ls, 0) == InsideFrom(ls[1..], 0)
  {
    hide IsBegin, IsEnd;
    assert !Inside(ls, 0);
    FromLater(ls, 1, 1);
  }

  lemma BlockInside(ls: seq<Text>, n: nat)
    requires 0 < n < |ls| && IsBegin(ls[0]) && n == ThroughEnd(ls[1..])
    ensures OutsideFrom(ls, 0) == OutsideFrom(ls[n + 1..], 0)
    ensures InsideFrom(ls, 0) == ls[..n + 1] + InsideFrom(ls[n + 1..], 0)
  {
    hide IsBegin, IsEnd, ThroughEnd, Inside, OutsideFrom, InsideFrom;
    forall e | 0 <= e < n ensures !IsEnd(ls[e]) {
      if e == 0 { NotBoth(ls[0]); } else { assert ls[e] == ls[1..][e - 1]; }
    }
    assert ls[n] == ls[1..][n - 1];
    OverBlock(ls, 0, n);
    FromLater(ls, n + 1, n + 1);
  }

  /** The pieces of a file with closed blocks: lines that stand outside, and blocks of the lines inside. */
  lemma {:induction false} PiecesStand(ls: seq<Text>)
    requires Pieces(ls).Some?
    ensures OutsideOf(Pieces(ls).value) == OutsideFrom(ls, 0)
    ensures Concat(BlocksOf(Pieces(ls).value)) == InsideFrom(ls, 0)
    decreases |ls|
  {
    hide IsBegin, IsEnd, Inside, ThroughEnd;
    if ls != [] {
      var ps := Pieces(ls).value;
      if !IsBegin(ls[0]) {
        PiecesStand(ls[1..]);
        assert ps[1..] == Pieces(ls[1..]).value;
        LineOutside(ls);
      } else {
        var n := ThroughEnd(ls[1..]);
        PiecesStand(ls[n + 1..]);
        assert ps[1..] == Pieces(ls[n + 1..]).value;
        BlockInside(ls, n);
        ConcatFirst(ls[..n + 1], BlocksOf(ps[1..]));
      }
    }
  }

  lemma ConcatFirst(b: seq<Text>, blocks: seq<seq<Text>>)
    ensures Concat([b] + blocks) == b + Concat(blocks)
  {
    assert ([b] + blocks)[1..] == blocks;
  }

  lemma OpenLater(ls: seq<Text>, k: nat)
    requires k <= |ls|
    requires k > 0 ==> IsEnd(ls[k - 1]) || forall a :: 0 <= a < k ==> !IsBegin(ls[a])
    ensures IsOpen(ls) <==> IsOpen(ls[k..])
  {
    hide IsBegin, IsEnd;
    var later := ls[k..];
    if IsOpen(ls) {
      var a :| 0 <= a < |ls| && IsBegin(ls[a]) && NoEnd(ls, a + 1, |ls|);
      if k > 0 { NotBoth(ls[k - 1]); }
      assert k <= a;
      assert later[a - k] == ls[a];
      assert NoEnd(later, a - k + 1, |later|);
    }
    if IsOpen(later) {
      var a :| 0 <= a < |later| && IsBegin(later[a]) && NoEnd(later, a + 1, |later|);
      assert ls[k + a] == later[a];
      forall e | k + a + 1 <= e < |ls| ensures !IsEnd(ls[e]) { assert later[e - k] == ls[e]; }
      assert NoEnd(ls, k + a + 1, |ls|);
    }
  }

  /** There are no pieces exactly when a begin marker has no end marker after it. */
  lemma {:induction false} OpenExactly(ls: seq<Text>)
    ensures Pieces(ls).None? <==> IsOpen(ls)
    decreases |ls|
  {
    hide IsBegin, IsEnd, ThroughEnd, NoEnd;
    if ls != [] {
      if !IsBegin(ls[0]) {
        OpenExactly(ls[1..]);
        OpenLater(ls, 1);
      } else {
        var n := ThroughEnd(ls[1..]);
        if n == 0 {
          NoEndAfter(ls);
        } else {
          assert ls[n] == ls[1..][n - 1];
          OpenExactly(ls[n + 1..]);
          OpenLater(ls, n + 1);
        }
      }
    }
  }

  lemma NoEndAfter(ls: seq<Text>)
    requires ls != [] && ThroughEnd(ls[1..]) == 0
    ensures NoEnd(ls, 1, |ls|)
  {
    hide IsEnd;
    forall e | 1 <= e < |ls| ensures !IsEnd(ls[e]) { assert ls[e] == ls[1..][e - 1]; }
  }

  // --- What is written ---

  lemma {:induction false} RewrittenOutside(ps: seq<Piece>, current: seq<Text>)
    ensures Rewritten(ps, current, true) == OutsideOf(ps)
  {
    if ps != [] { RewrittenOutside(ps[1..], current); }
  }

  /** The lines before the first block stay, the current block follows, and of the rest the lines outside. */
  lemma {:induction false} RewrittenFrom(ls: seq<Text>, current: seq<Text>, first: nat)
    requires Pieces(ls).Some? && IsFirstBegin(ls, first)
    ensures Rewritten(Pieces(ls).value, current, false) == ls[..first] + current + OutsideFrom(ls, first)
    decreases first
  {
    hide IsBegin, IsEnd, Inside, OutsideFrom, ThroughEnd;
    var ps := Pieces(ls).value;
    if first > 0 {
      var rest := ls[1..];
      assert IsFirstBegin(rest, first - 1);
      RewrittenFrom(rest, current, first - 1);
      assert ps[1..] == Pieces(rest).value;
      FromLater(ls, 1, first);
      assert ls[..first] == [ls[0]] + rest[..first - 1];
    } else {
      PiecesStand(ls);
      RewrittenOutside(ps[1..], current);
      assert ls[..0] == [];
    }
  }

  lemma MarkedOrNot(content: Text, block: Text)
    ensures ReplacementOf(content, block).NoBlock? <==> !HasBegin(Lines(content))
    ensures HasBegin(Lines(content)) ==> (ReplacementOf(content, block).Unclosed? <==> Pieces(Lines(content)).None?)
  {
    hide Lines, Pieces, HasBegin, Rewritten, Join;
  }

  /** Replacing, for every file: not done without a begin marker, refused exactly when one is not closed,
      and otherwise the block in place of the first, every line outside a block where it was. */
  lemma ReplacingByLines(content: Text, block: Text)
    ensures var ls := Lines(content);
      && (ReplacementOf(content, block).NoBlock? <==> forall i :: 0 <= i < |ls| ==> !IsBegin(ls[i]))
      && (ReplacementOf(content, block).Unclosed? <==> IsOpen(ls))
      && forall first: nat :: IsFirstBegin(ls, first) && !IsOpen(ls) ==>
           ReplacementOf(content, block) == Replaced(Join(ls[..first]) + (block + "\n") + Join(OutsideFrom(ls, first)))
  {
    hide IsBegin, IsEnd, OutsideFrom, Pieces, Rewritten, Lines, Join, NoEnd;
    var ls := Lines(content);
    OpenExactly(ls);
    MarkedOrNot(content, block);
    forall first: nat | IsFirstBegin(ls, first) && !IsOpen(ls)
      ensures ReplacementOf(content, block) == Replaced(Join(ls[..first]) + (block + "\n") + Join(OutsideFrom(ls, first)))
    {
      RewrittenFrom(ls, [block + "\n"], first);
      JoinOfConcat(ls[..first] + [block + "\n"], OutsideFrom(ls, first));
      JoinOfConcat(ls[..first], [block + "\n"]);
      JoinOne(block + "\n");
    }
  }

  /** What installing must leave of a hook file, by its lines: see each case. */
  ghost predicate IsInstalled(f: HookFile, block: Text, posix: ShellTest, r: Installed) {
    match f
    case Absent => r == File(Script("#!/bin/sh\n" + "\n" + block + "\n"))
    case Binary => r == File(Binary)
    case Script(content) =>
      var ls := Lines(content);
      && (r == Failed <==> IsOpen(ls))
      && (forall first: nat :: IsFirstBegin(ls, first) && !IsOpen(ls) ==>
            r == File(Script(Join(ls[..first]) + (block + "\n") + Join(OutsideFrom(ls, first)))))
      && ((forall i :: 0 <= i < |ls| ==> !IsBegin(ls[i])) ==>
            if posix(content) && !Occurs(content, block) then r == File(Script(content + "\n" + block + "\n"))
            else r == File(f))
  }

  /** Installing is exact for every file: refused exactly on a block left open; a file with closed blocks keeps every
      line outside them; one without a marker is only ever appended to, and only a shell script is. */
  lemma InstallingIsExact(f: HookFile, block: Text, posix: ShellTest)
    ensures IsInstalled(f, block, posix, InstallOf(f, block, posix))
  {
    hide ReplacementOf, IsOpen, OutsideFrom, IsFirstBegin, Lines, Join, IsBegin;
    if f.Script? {
      ReplacingByLines(f.content, block);
      ContainsIsOccurs(f.content, block);
      assert f.content + ("\n" + block + "\n") == f.content + "\n" + block + "\n";
      FirstBegin(Lines(f.content));
    } else {
      assert "#!/bin/sh\n" + ("\n" + block + "\n") == "#!/bin/sh\n" + "\n" + block + "\n";
    }
  }

  lemma ContainsIsOccurs(t: Text, w: Text)
    ensures ContainsText(t, w) <==> Occurs(t, w)
  {
    if Occurs(t, w) {
      var at: nat :| OccursAt(t, w, at);
      assert 0 <= at <= |t|;
    }
  }

  lemma FirstBegin(ls: seq<Text>)
    ensures IsOpen(ls) ==> exists i :: 0 <= i < |ls| && IsBegin(ls[i])
    ensures forall first: nat :: IsFirstBegin(ls, first) ==> exists i :: 0 <= i < |ls| && IsBegin(ls[i])
  {
    hide IsBegin, NoEnd;
  }

  // --- What is found afterwards ---

  lemma {:induction false} AllOutside(ls: seq<Text>, i: nat)
    requires i <= |ls| && forall j :: 0 <= j < |ls| ==> !IsBegin(ls[j])
    ensures OutsideFrom(ls, i) == ls[i..] && InsideFrom(ls, i) == []
    decreases |ls| - i
  {
    hide IsBegin, NoEnd;
    if i < |ls| {
      AllOutside(ls, i + 1);
      assert ls[i..] == [ls[i]] + ls[i + 1..];
    }
  }

  /** After lines without a marker, whole blocks and lines outside stand as they do alone. */
  lemma AfterOutside(head: seq<Text>, tail: seq<Text>)
    requires forall i :: 0 <= i < |head| ==> !IsBegin(head[i])
    ensures OutsideFrom(head + tail, 0) == head + OutsideFrom(tail, 0)
    ensures InsideFrom(head + tail, 0) == InsideFrom(tail, 0)
    decreases |head|
  {
    hide IsBegin, NoEnd, Inside, OutsideFrom, InsideFrom;
    if head == [] {
      assert head + tail == tail;
    } else {
      var all := head + tail;
      assert all[1..] == head[1..] + tail;
      LineOutside(all);
      AfterOutside(head[1..], tail);
      assert head == [head[0]] + head[1..];
    }
  }

  /** Wherever the block was written, it is the one block found there, and the lines outside are the user's, in
      order: those that stood outside before, the last completed by the line feed put before an appended block. */
  lemma OneBlockStands(f: HookFile, block: Text, posix: ShellTest)
    requires IsManagedBlock(block) && f.Script?
    ensures var r, ls := InstallOf(f, block, posix), Lines(f.content);
      r.File? && r.file.Script? && (r.file != f || HasBegin(ls)) ==>
        var after := Lines(r.file.content);
        && InsideFrom(after, 0) == Lines(block + "\n")
        && OutsideFrom(after, 0) == (if HasBegin(ls) then OutsideFrom(ls, 0) else Lines(f.content + "\n"))
  {
    hide IsManagedBlock, Lines, Pieces, IsBegin, IsEnd, OutsideFrom, InsideFrom, ContainsText, HasBegin, ReplacementOf;
    var content := f.content;
    var r := InstallOf(f, block, posix);
    if r.File? {
      if HasBegin(Lines(content)) {
        ClosedReplaced(content, block);
        ReplacementIsExact(content, block);
        PiecesStand(Lines(content));
        PiecesStand(Lines(r.file.content));
        ConcatFirst(Lines(block + "\n"), []);
        assert [Lines(block + "\n")] + [] == [Lines(block + "\n")];
        assert Concat([]) == [];
      } else if r.file != f {
        AppendedStands(content, block);
        NoMarkerNoBlock(content, block);
      }
    }
  }

  lemma ClosedReplaced(content: Text, block: Text)
    requires HasBegin(Lines(content))
    ensures ReplacementOf(content, block).Unclosed? || (ReplacementOf(content, block).Replaced? && Pieces(Lines(content)).Some?)
  {
    hide Lines, Pieces, HasBegin, Rewritten, Join;
  }

  lemma NoMarkerNoBlock(content: Text, block: Text)
    ensures !HasBegin(Lines(content)) ==> ReplacementOf(content, block).NoBlock?
  {
    hide Lines, HasBegin;
  }

  lemma AppendedStands(content: Text, block: Text)
    requires IsManagedBlock(block) && !HasBegin(Lines(content))
    ensures var after := Lines(content + ("\n" + block + "\n"));
      InsideFrom(after, 0) == Lines(block + "\n") && OutsideFrom(after, 0) == Lines(content + "\n")
  {
    hide Lines, IsBegin, IsEnd, OutsideFrom, InsideFrom, Join;
    var head, current := Lines(content + "\n"), Lines(block + "\n");
    NoBeginAfterLineFeed(content);
    LinesAreLines(content + "\n");
    BlockIsRead(block);
    CompleteLines(head, current);
    JoinOfConcat(head, current);
    assert (content + "\n") + (block + "\n") == content + ("\n" + block + "\n");
    LinesOfJoin(head + current);
    AfterOutside(head, current);
    BlockStands(current);
  }

  lemma CompleteLines(head: seq<Text>, current: seq<Text>)
    requires forall i :: 0 <= i < |head| ==> IsLine(head[i], true)
    requires forall i :: 0 <= i < |current| ==> IsLine(current[i], true)
    ensures AreLines(head + current)
  {
    hide IsLine;
    var all := head + current;
    forall i | 0 <= i < |all| ensures IsLine(all[i], i < |all| - 1) {
      if i < |head| { CompleteOrNot(head[i], true); } else { CompleteOrNot(current[i - |head|], true); }
    }
  }

  lemma BlockStands(current: seq<Text>)
    requires |current| >= 2 && IsBegin(current[0]) && forall i :: 0 < i < |current| - 1 ==> !IsEnd(current[i])
    ensures InsideFrom(current, 0) == current && OutsideFrom(current, 0) == []
  {
    hide IsBegin, IsEnd;
    NotBoth(current[0]);
    assert NoEnd(current, 0, |current| - 1);
    OverBlock(current, 0, |current| - 1);
    assert current[0..|current|] == current;
  }
}
