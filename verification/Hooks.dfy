/** The managed block of a hook file: found by its marker lines, replaced in place, installed once. */
module Hooks {
  import opened Bytes

  const BEGIN: Text := "# CVC Hook: post-checkout begin"
  const END: Text := "# CVC Hook: post-checkout end"

  // --- Lines ---

  /** A text split after every line feed. */
  function Lines(t: Text): seq<Text> {
    if t == [] then []
    else
      var ls := Lines(t[1..]);
      if t[0] == '\n' || ls == [] then [[t[0]]] + ls else [[t[0]] + ls[0]] + ls[1..]
  }

  function Join(ls: seq<Text>): Text {
    if ls == [] then [] else ls[0] + Join(ls[1..])
  }

  /** A line feed at the end, if the line is complete, and nowhere else. */
  ghost predicate IsLine(l: Text, complete: bool) {
    l != [] && (forall i :: 0 <= i < |l| - 1 ==> l[i] != '\n') && (complete ==> l[|l| - 1] == '\n')
  }

  /** Lines as a text has them: only the last may be incomplete. */
  ghost predicate AreLines(ls: seq<Text>) {
    forall i :: 0 <= i < |ls| ==> IsLine(ls[i], i < |ls| - 1)
  }

  lemma {:induction false} LinesAreLines(t: Text)
    ensures AreLines(Lines(t)) && Join(Lines(t)) == t
  {
    hide AreLines, Join, Lines;
    LinesOfNothing();
    if t != [] {
      LinesAreLines(t[1..]);
      FirstLine(t);
      OneMoreByte(t[0], Lines(t[1..]));
      assert t == [t[0]] + t[1..];
    }
  }

  /** One byte before lines: a line of its own, or the first byte of the first. */
  function Before(c: char, ls: seq<Text>): seq<Text> {
    if c == '\n' || ls == [] then [[c]] + ls else [[c] + ls[0]] + ls[1..]
  }

  lemma FirstLine(t: Text)
    requires t != []
    ensures Lines(t) == Before(t[0], Lines(t[1..]))
  {
  }

  lemma LinesOfNothing()
    ensures AreLines([]) && Lines([]) == [] && Join([]) == []
  {
  }

  lemma OneMoreByte(c: char, ls: seq<Text>)
    requires AreLines(ls)
    ensures AreLines(Before(c, ls)) && Join(Before(c, ls)) == [c] + Join(ls)
  {
    hide Join;
    var all := Before(c, ls);
    if c == '\n' || ls == [] {
      JoinFirst([c], ls);
      forall i | 0 <= i < |all| ensures IsLine(all[i], i < |all| - 1) {
        if i > 0 { assert IsLine(ls[i - 1], i - 1 < |ls| - 1); }
      }
    } else {
      JoinFirst([c] + ls[0], ls[1..]);
      JoinFirst(ls[0], ls[1..]);
      assert ls == [ls[0]] + ls[1..];
      assert [c] + (ls[0] + Join(ls[1..])) == ([c] + ls[0]) + Join(ls[1..]);
      forall i | 0 <= i < |all| ensures IsLine(all[i], i < |all| - 1) {
        assert IsLine(ls[i], i < |ls| - 1);
      }
    }
  }

  lemma {:induction false} LineThenRest(l: Text, t: Text)
    requires IsLine(l, t != [])
    ensures Lines(l + t) == [l] + Lines(t)
    decreases |l|
  {
    var s := l + t;
    assert s[1..] == l[1..] + t;
    if |l| == 1 {
      assert l[1..] + t == t;
      assert [s[0]] == l;
    } else {
      forall i | 0 <= i < |l[1..]| - 1 ensures l[1..][i] != '\n' { assert l[1..][i] == l[i + 1]; }
      LineThenRest(l[1..], t);
      assert l == [l[0]] + l[1..];
      assert ([l[1..]] + Lines(t))[1..] == Lines(t);
    }
  }

  lemma {:induction false} LinesOfJoin(ls: seq<Text>)
    requires AreLines(ls)
    ensures Lines(Join(ls)) == ls && (ls != [] ==> Join(ls) != [])
  {
    if ls != [] {
      var rest := ls[1..];
      forall i | 0 <= i < |rest| ensures IsLine(rest[i], i < |rest| - 1) { assert IsLine(ls[i + 1], i + 1 < |ls| - 1); }
      LinesOfJoin(rest);
      assert IsLine(ls[0], 0 < |ls| - 1);
      LineThenRest(ls[0], Join(rest));
      assert ls == [ls[0]] + rest;
    }
  }

  lemma {:induction false} JoinOfConcat(a: seq<Text>, b: seq<Text>)
    ensures Join(a + b) == Join(a) + Join(b)
  {
    hide Join;
    if a == [] {
      assert a + b == b;
      JoinNothing();
    } else {
      JoinOfConcat(a[1..], b);
      JoinFirst(a[0], a[1..]);
      JoinFirst(a[0], a[1..] + b);
      assert [a[0]] + a[1..] == a && [a[0]] + (a[1..] + b) == a + b;
    }
  }

  lemma JoinNothing()
    ensures Join([]) == []
  {
  }

  lemma JoinFirst(l: Text, ls: seq<Text>)
    ensures Join([l] + ls) == l + Join(ls)
  {
    assert ([l] + ls)[1..] == ls;
  }

  // --- Marker lines ---

  /** The line without its trailing line ends. */
  function Trim(l: Text): Text {
    if l != [] && (l[|l| - 1] == '\n' || l[|l| - 1] == '\r') then Trim(l[..|l| - 1]) else l
  }

  predicate IsBegin(l: Text) {
    BEGIN <= Trim(l)
  }

  predicate IsEnd(l: Text) {
    Trim(l) == END
  }

  /** The number of lines through the first end marker, 0 when there is none. */
  function ThroughEnd(ls: seq<Text>): (n: nat)
    ensures n <= |ls| && (n == 0 <==> forall i :: 0 <= i < |ls| ==> !IsEnd(ls[i]))
    ensures n > 0 ==> IsEnd(ls[n - 1]) && forall i :: 0 <= i < n - 1 ==> !IsEnd(ls[i])
  {
    if ls == [] then 0
    else if IsEnd(ls[0]) then 1
    else
      var n := ThroughEnd(ls[1..]);
      assert forall i :: 0 < i < |ls| ==> ls[i] == ls[1..][i - 1];
      if n == 0 then 0 else n + 1
  }

  /** A hook file as lines outside blocks and whole blocks. */
  datatype Piece = Outside(line: Text) | Block(lines: seq<Text>)

  /** None when a begin marker has no end marker after it. */
  function Pieces(ls: seq<Text>): Option<seq<Piece>>
    decreases |ls|
  {
    if ls == [] then Some([])
    else if !IsBegin(ls[0]) then
      var rest := Pieces(ls[1..]);
      if rest.None? then None else Some([Outside(ls[0])] + rest.value)
    else
      var n := ThroughEnd(ls[1..]);
      if n == 0 then None
      else
        var rest := Pieces(ls[n + 1..]);
        if rest.None? then None else Some([Block(ls[..n + 1])] + rest.value)
  }

  /** The lines outside every block, in order. */
  function OutsideOf(ps: seq<Piece>): seq<Text> {
    if ps == [] then []
    else if ps[0].Outside? then [ps[0].line] + OutsideOf(ps[1..])
    else OutsideOf(ps[1..])
  }

  function BlocksOf(ps: seq<Piece>): seq<seq<Text>> {
    if ps == [] then []
    else if ps[0].Block? then [ps[0].lines] + BlocksOf(ps[1..])
    else BlocksOf(ps[1..])
  }

  /** The first block becomes the current one, further ones go, and every other line stays. */
  function Rewritten(ps: seq<Piece>, current: seq<Text>, placed: bool): seq<Text> {
    if ps == [] then []
    else if ps[0].Outside? then [ps[0].line] + Rewritten(ps[1..], current, placed)
    else if placed then Rewritten(ps[1..], current, true)
    else current + Rewritten(ps[1..], current, true)
  }

  predicate HasBegin(ls: seq<Text>) {
    exists i :: 0 <= i < |ls| && IsBegin(ls[i])
  }

  datatype Replacement = NoBlock | Unclosed | Replaced(content: Text)

  /** What replacing means, on lines. */
  function ReplacementOf(content: Text, block: Text): Replacement {
    var ls := Lines(content);
    if !HasBegin(ls) then NoBlock
    else
      var ps := Pieces(ls);
      if ps.None? then Unclosed else Replaced(Join(Rewritten(ps.value, [block + "\n"], false)))
  }

  /** What is written of the lines before `i`, and what the rest will add, make the whole. */
  ghost predicate Progress(lines: seq<Text>, i: nat, current: seq<Text>, placed: bool, replaced: Text) {
    i <= |lines| && (Pieces(lines[i..]).Some? <==> Pieces(lines).Some?)
    && (Pieces(lines).Some? ==>
          replaced + Join(Rewritten(Pieces(lines[i..]).value, current, placed))
          == Join(Rewritten(Pieces(lines).value, current, false)))
  }

  lemma StepOutside(lines: seq<Text>, i: nat, current: seq<Text>, placed: bool, replaced: Text)
    requires Progress(lines, i, current, placed, replaced) && i < |lines| && !IsBegin(lines[i])
    ensures Progress(lines, i + 1, current, placed, replaced + lines[i])
  {
    assert lines[i..][1..] == lines[i + 1..];
    OutsideFirst(lines[i..], current, placed, replaced);
  }

  lemma StepBlock(lines: seq<Text>, i: nat, j: nat, current: seq<Text>, placed: bool, replaced: Text)
    requires Progress(lines, i, current, placed, replaced) && i < j <= |lines| && IsBegin(lines[i])
    requires (forall k :: i < k < j ==> !IsEnd(lines[k])) && (j < |lines| ==> IsEnd(lines[j]))
    ensures j == |lines| ==> Pieces(lines).None?
    ensures j < |lines| ==> Progress(lines, j + 1, current, true, replaced + if placed then [] else Join(current))
  {
    hide Progress, IsEnd;
    EndIsAt(lines, i, j);
    if j == |lines| {
      OpenBlock(lines, i, current, placed, replaced);
    } else {
      ClosedBlock(lines, i, j - i, current, placed, replaced);
    }
  }

  lemma OpenBlock(lines: seq<Text>, i: nat, current: seq<Text>, placed: bool, replaced: Text)
    requires Progress(lines, i, current, placed, replaced) && i < |lines| && IsBegin(lines[i])
    requires ThroughEnd(lines[i..][1..]) == 0
    ensures Pieces(lines).None?
  {
    hide Join, Rewritten;
    NoEnd(lines[i..]);
    hide Pieces;
  }

  lemma NoEnd(ls: seq<Text>)
    requires ls != [] && IsBegin(ls[0]) && ThroughEnd(ls[1..]) == 0
    ensures Pieces(ls).None?
  {
  }

  lemma ClosedBlock(lines: seq<Text>, i: nat, n: nat, current: seq<Text>, placed: bool, replaced: Text)
    requires Progress(lines, i, current, placed, replaced) && i + n < |lines| && n > 0 && IsBegin(lines[i])
    requires ThroughEnd(lines[i..][1..]) == n
    ensures Progress(lines, i + n + 1, current, true, replaced + if placed then [] else Join(current))
  {
    hide IsBegin, IsEnd, ThroughEnd, Pieces, Rewritten, Join;
    BlockFirst(lines[i..], current, placed, replaced);
    Further(lines, i, n + 1);
  }

  lemma Further(lines: seq<Text>, i: nat, n: nat)
    requires i + n <= |lines|
    ensures lines[i..][n..] == lines[i + n..]
  {
  }

  lemma ProgressEnds(lines: seq<Text>, current: seq<Text>, placed: bool, replaced: Text)
    ensures Progress(lines, 0, current, false, [])
    ensures Progress(lines, |lines|, current, placed, replaced) ==>
      Pieces(lines).Some? && replaced == Join(Rewritten(Pieces(lines).value, current, false))
  {
    assert lines[0..] == lines && lines[|lines|..] == [];
    assert replaced + [] == replaced;
    if Pieces(lines).Some? {
      var j := Join(Rewritten(Pieces(lines).value, current, false));
      assert [] + j == j;
    }
  }

  method ReplaceMarkedBlocks(content: Text, block: Text) returns (r: Replacement)
    ensures r == ReplacementOf(content, block)
  {
    hide Lines, IsBegin, IsEnd, Pieces, Rewritten, Progress, Join;
    var lines := Lines(content);
    if !HasBegin(lines) { return NoBlock; }
    ghost var current := [block + "\n"];
    JoinOne(block + "\n");
    var replaced: Text, placed, i := [], false, 0;
    ProgressEnds(lines, current, placed, replaced);
    while i < |lines|
      invariant i <= |lines| && Progress(lines, i, current, placed, replaced)
    {
      if !IsBegin(lines[i]) {
        StepOutside(lines, i, current, placed, replaced);
        replaced := replaced + lines[i];
        i := i + 1;
        continue;
      }
      var j := i + 1;
      while j < |lines| && !IsEnd(lines[j])
        invariant i < j <= |lines| && forall k :: i < k < j ==> !IsEnd(lines[k])
      {
        j := j + 1;
      }
      StepBlock(lines, i, j, current, placed, replaced);
      if j == |lines| { return Unclosed; }
      assert replaced + [] == replaced && replaced + (block + "\n") == replaced + block + "\n";
      if !placed {
        replaced := replaced + block;
        replaced := replaced + "\n";
        placed := true;
      }
      i := j + 1;
    }
    ProgressEnds(lines, current, placed, replaced);
    r := Replaced(replaced);
  }

  lemma JoinOne(l: Text)
    ensures Join([l]) == l
  {
    assert [l][1..] == [];
    assert l + [] == l;
  }

  lemma OutsideFirst(ls: seq<Text>, current: seq<Text>, placed: bool, before: Text)
    requires ls != [] && !IsBegin(ls[0])
    ensures Pieces(ls).Some? <==> Pieces(ls[1..]).Some?
    ensures Pieces(ls).Some? ==>
      before + Join(Rewritten(Pieces(ls).value, current, placed))
      == (before + ls[0]) + Join(Rewritten(Pieces(ls[1..]).value, current, placed))
  {
    if Pieces(ls).Some? {
      var rest := Rewritten(Pieces(ls[1..]).value, current, placed);
      assert Pieces(ls).value[1..] == Pieces(ls[1..]).value;
      assert ([ls[0]] + rest)[1..] == rest;
      assert before + (ls[0] + Join(rest)) == (before + ls[0]) + Join(rest);
    }
  }

  lemma BlockFirst(ls: seq<Text>, current: seq<Text>, placed: bool, before: Text)
    requires ls != [] && IsBegin(ls[0]) && ThroughEnd(ls[1..]) > 0
    ensures var n := ThroughEnd(ls[1..]);
      && (Pieces(ls).Some? <==> Pieces(ls[n + 1..]).Some?)
      && (Pieces(ls).Some? ==>
            before + Join(Rewritten(Pieces(ls).value, current, placed))
            == (before + if placed then [] else Join(current)) + Join(Rewritten(Pieces(ls[n + 1..]).value, current, true)))
  {
    var n := ThroughEnd(ls[1..]);
    if Pieces(ls).Some? {
      var rest := Rewritten(Pieces(ls[n + 1..]).value, current, true);
      assert Pieces(ls).value[1..] == Pieces(ls[n + 1..]).value;
      JoinOfConcat(current, rest);
      assert before + (Join(current) + Join(rest)) == (before + Join(current)) + Join(rest);
      assert before + [] == before;
    }
  }

  lemma EndIsAt(lines: seq<Text>, i: nat, j: nat)
    requires i < j <= |lines| && (forall k :: i < k < j ==> !IsEnd(lines[k])) && (j < |lines| ==> IsEnd(lines[j]))
    ensures ThroughEnd(lines[i..][1..]) == if j == |lines| then 0 else j - i
  {
    var tail := lines[i..][1..];
    assert forall k :: 0 <= k < |tail| ==> tail[k] == lines[i + 1 + k];
    var n := ThroughEnd(tail);
    if j < |lines| { assert IsEnd(tail[j - i - 1]); }
  }

  // --- What a replacement leaves ---

  /** The shape of the managed block: a begin marker line, an end marker line, and no end marker
      between them; it ends where its end marker does. */
  ghost predicate IsManagedBlock(block: Text) {
    var ls := Lines(block + "\n");
    |ls| >= 2 && IsBegin(ls[0]) && IsEnd(ls[|ls| - 1]) && forall i :: 0 < i < |ls| - 1 ==> !IsEnd(ls[i])
  }

  lemma {:induction false} PiecesOfOutside(a: seq<Text>, b: seq<Text>)
    requires !HasBegin(a)
    ensures Pieces(a + b).Some? <==> Pieces(b).Some?
    ensures Pieces(b).Some? ==> Pieces(a + b).value == OutsidePieces(a) + Pieces(b).value
  {
    hide IsBegin;
    if a == [] {
      assert a + b == b;
    } else {
      var s := a + b;
      assert s[1..] == a[1..] + b && !IsBegin(a[0]);
      forall i | 0 <= i < |a[1..]| ensures !IsBegin(a[1..][i]) { assert a[1..][i] == a[i + 1]; }
      PiecesOfOutside(a[1..], b);
      assert OutsidePieces(a) == [Outside(a[0])] + OutsidePieces(a[1..]);
    }
  }

  function OutsidePieces(a: seq<Text>): seq<Piece> {
    if a == [] then [] else [Outside(a[0])] + OutsidePieces(a[1..])
  }

  lemma PiecesOfBlock(block: seq<Text>, rest: seq<Text>)
    requires |block| >= 2 && IsBegin(block[0]) && IsEnd(block[|block| - 1])
    requires forall i :: 0 < i < |block| - 1 ==> !IsEnd(block[i])
    ensures Pieces(block + rest).Some? <==> Pieces(rest).Some?
    ensures Pieces(rest).Some? ==> Pieces(block + rest).value == [Block(block)] + Pieces(rest).value
  {
    hide IsBegin, IsEnd;
    var s := block + rest;
    EndIsAt(s, 0, |block| - 1);
    assert s[0..] == s && s[..|block|] == block && s[|block|..] == rest;
  }

  /** The lines of each piece, in order. */
  function LinesOf(ps: seq<Piece>): seq<Text> {
    if ps == [] then []
    else (if ps[0].Outside? then [ps[0].line] else ps[0].lines) + LinesOf(ps[1..])
  }

  /** The pieces that stay: lines outside, and the current block where the first block was. */
  function Current(ps: seq<Piece>, block: seq<Text>, placed: bool): seq<Piece> {
    if ps == [] then []
    else if ps[0].Outside? then [ps[0]] + Current(ps[1..], block, placed)
    else if placed then Current(ps[1..], block, true)
    else [Block(block)] + Current(ps[1..], block, true)
  }

  ghost predicate OutsideIsOutside(ps: seq<Piece>) {
    forall i :: 0 <= i < |ps| && ps[i].Outside? ==> !IsBegin(ps[i].line)
  }

  lemma {:induction false} PiecesAreOutside(ls: seq<Text>)
    requires Pieces(ls).Some?
    ensures OutsideIsOutside(Pieces(ls).value) && LinesOf(Pieces(ls).value) == ls
    decreases |ls|
  {
    hide Pieces, LinesOf, OutsideIsOutside;
    if ls == [] {
      NoPieces();
    } else {
      var n := FirstPiece(ls);
      PiecesAreOutside(ls[n..]);
      LinesOfFirst(ls, Pieces(ls).value, n);
    }
  }

  lemma NoPieces()
    ensures Pieces([]) == Some([]) && LinesOf([]) == [] && OutsideIsOutside([])
  {
  }

  /** The first piece is a line that begins no block, or the lines of a block. */
  lemma FirstPiece(ls: seq<Text>) returns (n: nat)
    requires ls != [] && Pieces(ls).Some?
    ensures 1 <= n <= |ls| && Pieces(ls[n..]).Some?
    ensures var ps := Pieces(ls).value;
      && ps != [] && ps[1..] == Pieces(ls[n..]).value
      && (if ps[0].Outside? then ps[0].line == ls[0] && n == 1 && !IsBegin(ls[0]) else ps[0].lines == ls[..n])
  {
    hide IsBegin, IsEnd;
    n := if IsBegin(ls[0]) then ThroughEnd(ls[1..]) + 1 else 1;
  }

  lemma LinesOfFirst(ls: seq<Text>, ps: seq<Piece>, n: nat)
    requires 1 <= n <= |ls| && ps != [] && OutsideIsOutside(ps[1..]) && LinesOf(ps[1..]) == ls[n..]
    requires if ps[0].Outside? then ps[0].line == ls[0] && n == 1 && !IsBegin(ls[0]) else ps[0].lines == ls[..n]
    ensures OutsideIsOutside(ps) && LinesOf(ps) == ls
  {
    hide IsBegin;
    assert ls == ls[..n] + ls[n..] && ls[..1] == [ls[0]];
    forall i | 0 <= i < |ps| && ps[i].Outside? ensures !IsBegin(ps[i].line) {
      if i > 0 { assert ps[1..][i - 1] == ps[i]; }
    }
  }

  /** The lines of what stays, read again, are what stays. */
  lemma {:induction false} CurrentIsRead(ps: seq<Piece>, block: seq<Text>, placed: bool)
    requires OutsideIsOutside(ps)
    requires |block| >= 2 && IsBegin(block[0]) && IsEnd(block[|block| - 1])
    requires forall i :: 0 < i < |block| - 1 ==> !IsEnd(block[i])
    ensures Pieces(LinesOf(Current(ps, block, placed))) == Some(Current(ps, block, placed))
  {
    hide IsBegin, IsEnd;
    if ps != [] {
      var rest := ps[1..];
      forall i | 0 <= i < |rest| && rest[i].Outside? ensures !IsBegin(rest[i].line) { assert rest[i] == ps[i + 1]; }
      if ps[0].Outside? {
        CurrentIsRead(rest, block, placed);
        var c := Current(rest, block, placed);
        assert Current(ps, block, placed)[1..] == c;
        var l := ps[0].line;
        assert ([l] + LinesOf(c))[1..] == LinesOf(c);
      } else {
        CurrentIsRead(rest, block, true);
        var c := Current(rest, block, true);
        if !placed {
          assert Current(ps, block, placed)[1..] == c;
          PiecesOfBlock(block, LinesOf(c));
        }
      }
    }
  }

  /** What stays keeps every line outside, and has one block, the current one, if there was any. */
  lemma {:induction false} CurrentKeeps(ps: seq<Piece>, block: seq<Text>, placed: bool)
    ensures OutsideOf(Current(ps, block, placed)) == OutsideOf(ps)
    ensures BlocksOf(Current(ps, block, placed)) == if placed || BlocksOf(ps) == [] then [] else [block]
  {
    if ps != [] {
      var after := if ps[0].Outside? then placed else true;
      CurrentKeeps(ps[1..], block, after);
      var c := Current(ps, block, placed);
      if ps[0].Outside? || !placed { assert c[1..] == Current(ps[1..], block, after); }
    }
  }

  /** Doing it again changes nothing. */
  lemma {:induction false} CurrentAgain(ps: seq<Piece>, block: seq<Text>, placed: bool)
    ensures Current(Current(ps, block, placed), block, placed) == Current(ps, block, placed)
  {
    if ps != [] {
      var after := if ps[0].Outside? then placed else true;
      CurrentAgain(ps[1..], block, after);
      var c := Current(ps, block, placed);
      if ps[0].Outside? || !placed { assert c[1..] == Current(ps[1..], block, after); }
    }
  }

  lemma {:induction false} RewrittenIsCurrent(ps: seq<Piece>, text: Text, block: seq<Text>, placed: bool)
    requires Join(block) == text
    ensures Join(Rewritten(ps, [text], placed)) == Join(LinesOf(Current(ps, block, placed)))
  {
    if ps != [] {
      var after := if ps[0].Outside? then placed else true;
      RewrittenIsCurrent(ps[1..], text, block, after);
      var c := Current(ps[1..], block, after);
      if ps[0].Outside? {
        assert ([ps[0]] + c)[1..] == c;
        JoinOfConcat([ps[0].line], Rewritten(ps[1..], [text], after));
        JoinOfConcat([ps[0].line], LinesOf(c));
      } else if !placed {
        assert ([Block(block)] + c)[1..] == c;
        JoinOne(text);
        JoinOfConcat([text], Rewritten(ps[1..], [text], after));
        JoinOfConcat(block, LinesOf(c));
      }
    }
  }

  /** Every block has lines. */
  ghost predicate BlocksHaveLines(ps: seq<Piece>) {
    forall i :: 0 <= i < |ps| && ps[i].Block? ==> ps[i].lines != []
  }

  lemma {:induction false} PiecesHaveLines(ls: seq<Text>)
    requires Pieces(ls).Some?
    ensures BlocksHaveLines(Pieces(ls).value)
    ensures HasBegin(ls) ==> BlocksOf(Pieces(ls).value) != []
    decreases |ls|
  {
    hide IsBegin, IsEnd;
    if ls != [] {
      var ps := Pieces(ls).value;
      var n := if IsBegin(ls[0]) then ThroughEnd(ls[1..]) + 1 else 1;
      PiecesHaveLines(ls[n..]);
      assert ps[1..] == Pieces(ls[n..]).value;
      if HasBegin(ls) && !IsBegin(ls[0]) {
        var i :| 0 <= i < |ls| && IsBegin(ls[i]);
        assert ls[1..][i - 1] == ls[i];
      }
    }
  }

  lemma LinesApart(a: seq<Text>, b: seq<Text>)
    ensures AreLines(a + b) ==> AreLines(b) && forall i :: 0 <= i < |a| ==> IsLine(a[i], i < |a| - 1 || b != [])
    ensures AreLines(b) && (forall i :: 0 <= i < |a| ==> IsLine(a[i], i < |a| - 1 || b != [])) ==> AreLines(a + b)
  {
    hide IsLine;
    var s := a + b;
    assert forall i :: 0 <= i < |a| ==> s[i] == a[i];
    assert forall i :: 0 <= i < |b| ==> s[|a| + i] == b[i];
    if AreLines(s) {
      forall i | 0 <= i < |b| ensures IsLine(b[i], i < |b| - 1) { assert IsLine(s[|a| + i], |a| + i < |s| - 1); }
      forall i | 0 <= i < |a| ensures IsLine(a[i], i < |a| - 1 || b != []) { assert IsLine(s[i], i < |s| - 1); }
    }
    if AreLines(b) && forall i :: 0 <= i < |a| ==> IsLine(a[i], i < |a| - 1 || b != []) {
      forall i | 0 <= i < |s| ensures IsLine(s[i], i < |s| - 1) {
        if i >= |a| { assert IsLine(b[i - |a|], i - |a| < |b| - 1); }
      }
    }
  }

  /** What stays is made of lines, only the last of them perhaps incomplete. */
  lemma {:induction false} CurrentAreLines(ps: seq<Piece>, block: seq<Text>, placed: bool)
    requires AreLines(LinesOf(ps)) && BlocksHaveLines(ps)
    requires forall i :: 0 <= i < |block| ==> IsLine(block[i], true)
    ensures AreLines(LinesOf(Current(ps, block, placed)))
    ensures ps == [] ==> LinesOf(Current(ps, block, placed)) == []
    ensures LinesOf(Current(ps, block, placed)) != [] ==> ps != []
  {
    hide IsLine, AreLines;
    if ps == [] {
      LinesOfNothing();
    } else {
      var rest := ps[1..];
      var after := if ps[0].Outside? then placed else true;
      forall i | 0 <= i < |rest| && rest[i].Block? ensures rest[i].lines != [] { assert rest[i] == ps[i + 1]; }
      var head := if ps[0].Outside? then [ps[0].line] else ps[0].lines;
      LinesApart(head, LinesOf(rest));
      CurrentAreLines(rest, block, after);
      var c := Current(rest, block, after);
      if ps[0].Outside? {
        assert ([ps[0]] + c)[1..] == c;
        SomeLines(rest);
        LinesApart([ps[0].line], LinesOf(c));
        if LinesOf(c) != [] { assert IsLine(head[0], true); } else { CompleteOrNot(head[0], LinesOf(rest) != []); }
      } else if !placed {
        assert ([Block(block)] + c)[1..] == c;
        forall i | 0 <= i < |block| ensures IsLine(block[i], i < |block| - 1 || LinesOf(c) != []) {
          CompleteOrNot(block[i], true);
        }
        LinesApart(block, LinesOf(c));
      }
    }
  }

  lemma CompleteOrNot(l: Text, complete: bool)
    requires IsLine(l, complete)
    ensures IsLine(l, false) && (complete ==> forall c :: IsLine(l, c))
  {
  }

  lemma SomeLines(ps: seq<Piece>)
    requires BlocksHaveLines(ps)
    ensures ps != [] ==> LinesOf(ps) != []
  {
  }

  lemma BlockIsRead(block: Text)
    requires IsManagedBlock(block)
    ensures var ls := Lines(block + "\n");
      Join(ls) == block + "\n" && forall i :: 0 <= i < |ls| ==> IsLine(ls[i], true)
  {
    hide IsBegin, IsEnd;
    var t := block + "\n";
    var ls := Lines(t);
    LinesAreLines(t);
    var last := |ls| - 1;
    assert IsLine(ls[last], false);
    EndOfJoin(ls);
    forall i | 0 <= i < |ls| ensures IsLine(ls[i], true) {
      assert IsLine(ls[i], i < |ls| - 1);
    }
  }

  lemma {:induction false} EndOfJoin(ls: seq<Text>)
    requires ls != [] && ls[|ls| - 1] != []
    ensures Join(ls) != [] && Join(ls)[|Join(ls)| - 1] == ls[|ls| - 1][|ls[|ls| - 1]| - 1]
  {
    if |ls| > 1 { EndOfJoin(ls[1..]); }
  }

  lemma {:induction false} HasBeginOf(ps: seq<Piece>, block: seq<Text>)
    requires BlocksOf(ps) == [block] && block != [] && IsBegin(block[0])
    ensures HasBegin(LinesOf(ps))
  {
    hide IsBegin;
    var ls := LinesOf(ps);
    if ps[0].Outside? {
      HasBeginOf(ps[1..], block);
      var rest := LinesOf(ps[1..]);
      var i :| 0 <= i < |rest| && IsBegin(rest[i]);
      assert ls[i + 1] == rest[i];
    } else {
      assert ps[0].lines == BlocksOf(ps)[0];
      assert ls[0] == block[0];
    }
  }

  /** The replacement of a file whose blocks are closed: the same lines outside, in order and byte
      for byte, and one block, the current one. */
  lemma ReplacementIsExact(content: Text, block: Text)
    requires IsManagedBlock(block) && HasBegin(Lines(content)) && Pieces(Lines(content)).Some?
    ensures var r := ReplacementOf(content, block);
      && r.Replaced? && Pieces(Lines(r.content)).Some?
      && OutsideOf(Pieces(Lines(r.content)).value) == OutsideOf(Pieces(Lines(content)).value)
      && BlocksOf(Pieces(Lines(r.content)).value) == [Lines(block + "\n")]
    ensures var r := ReplacementOf(content, block).content;
      HasBegin(Lines(r)) && Pieces(Lines(r)) == Some(Current(Pieces(Lines(content)).value, Lines(block + "\n"), false))
  {
    hide Lines, Pieces, IsBegin, IsEnd, Join, HasBegin, Current, LinesOf, Rewritten;
    var ls, current := Lines(content), Lines(block + "\n");
    var ps := Pieces(ls).value;
    var qs := Current(ps, current, false);
    BlockIsRead(block);
    RewrittenIsCurrent(ps, block + "\n", current, false);
    LinesAreLines(content);
    PiecesAreOutside(ls);
    PiecesHaveLines(ls);
    CurrentAreLines(ps, current, false);
    LinesOfJoin(LinesOf(qs));
    CurrentIsRead(ps, current, false);
    CurrentKeeps(ps, current, false);
    HasBeginOf(qs, current);
  }

  /** Replacing is idempotent. */
  lemma ReplacingAgain(content: Text, block: Text)
    requires IsManagedBlock(block) && ReplacementOf(content, block).Replaced?
    ensures var r := ReplacementOf(content, block).content; ReplacementOf(r, block) == Replaced(r)
  {
    hide Lines, Pieces, IsBegin, IsEnd, Join, HasBegin, Current, LinesOf, Rewritten, IsManagedBlock;
    var current := Lines(block + "\n");
    var ps := Pieces(Lines(content)).value;
    var r := ReplacementOf(content, block).content;
    ReplacementIsExact(content, block);
    BlockIsRead(block);
    var qs := Current(ps, current, false);
    CurrentAgain(ps, current, false);
    RewrittenIsCurrent(qs, block + "\n", current, false);
    PiecesAreOutside(Lines(r));
    LinesAreLines(r);
  }

  // --- Installing ---

  datatype HookFile = Absent | Binary | Script(content: Text)

  datatype Installed = Failed | File(file: HookFile)

  /** Whether appended shell text would be run: uninterpreted. */
  type ShellTest = Text -> bool

  predicate ContainsText(t: Text, w: Text) {
    exists i :: 0 <= i <= |t| && OccursAt(t, w, i)
  }

  /** What installing `post-checkout` does to its hook file. */
  function InstallOf(f: HookFile, block: Text, posix: ShellTest): Installed {
    var command := "\n" + block + "\n";
    match f
    case Absent => File(Script("#!/bin/sh\n" + command))
    case Binary => File(Binary)
    case Script(content) =>
      match ReplacementOf(content, block)
      case Unclosed => Failed
      case Replaced(r) => File(Script(r))
      case NoBlock =>
        if ContainsText(content, block) || !posix(content) then File(f) else File(Script(content + command))
  }

  method Install(f: HookFile, block: Text, posix: ShellTest) returns (r: Installed)
    ensures r == InstallOf(f, block, posix)
  {
    hide ReplacementOf, ContainsText;
    var command := "\n" + block + "\n";
    match f {
      case Absent => r := File(Script("#!/bin/sh\n" + command));
      case Binary => r := File(Binary);
      case Script(content) =>
        var marked := ReplaceMarkedBlocks(content, block);
        match marked {
          case Unclosed => r := Failed;
          case Replaced(replaced) => r := if replaced == content then File(f) else File(Script(replaced));
          case NoBlock =>
            if !ContainsText(content, block) {
              r := if posix(content) then File(Script(content + command)) else File(f);
            } else {
              r := File(f);
            }
        }
    }
  }

  lemma TrimDropsLineFeed(l: Text)
    ensures Trim(l + "\n") == Trim(l)
  {
    assert (l + "\n")[..|l|] == l;
  }

  /** Completing the last line brings no begin marker. */
  lemma {:induction false} NoBeginAfterLineFeed(content: Text)
    requires !HasBegin(Lines(content))
    ensures !HasBegin(Lines(content + "\n")) && AreLines(Lines(content + "\n"))
    ensures forall i :: 0 <= i < |Lines(content + "\n")| ==> IsLine(Lines(content + "\n")[i], true)
  {
    hide Lines, IsBegin, Join, Trim;
    var ls := Lines(content);
    LinesAreLines(content);
    var more: seq<Text>;
    if ls == [] || ls[|ls| - 1][|ls[|ls| - 1]| - 1] == '\n' {
      more := ls + ["\n"];
      JoinOfConcat(ls, ["\n"]);
      JoinOne("\n");
      LineFeedIsNoBegin();
    } else {
      var init, last := ls[..|ls| - 1], ls[|ls| - 1];
      more := init + [last + "\n"];
      assert ls == init + [last];
      JoinOfConcat(init, [last]);
      JoinOfConcat(init, [last + "\n"]);
      JoinOne(last);
      JoinOne(last + "\n");
      assert Join(init) + (last + "\n") == (Join(init) + last) + "\n";
      BeginByTrim(last);
      assert !IsBegin(ls[|ls| - 1]);
      assert IsLine(last, false);
    }
    forall i | 0 <= i < |more| ensures IsLine(more[i], true) && !IsBegin(more[i]) {
      if i < |ls| - 1 { assert IsLine(ls[i], true) && !IsBegin(ls[i]); }
      else if i < |ls| { assert IsLine(ls[i], false) && !IsBegin(ls[i]); }
    }
    assert AreLines(more);
    LinesOfJoin(more);
  }

  lemma LineFeedIsNoBegin()
    ensures !IsBegin("\n")
  {
    assert Trim("\n") == [] by { assert "\n"[..0] == []; }
  }

  lemma BeginByTrim(l: Text)
    ensures IsBegin(l + "\n") <==> IsBegin(l)
  {
    TrimDropsLineFeed(l);
  }

  /** A file the block was appended to is already as a second installation leaves it. */
  lemma AppendedIsCurrent(content: Text, block: Text)
    requires IsManagedBlock(block) && !HasBegin(Lines(content))
    ensures var t := content + ("\n" + block + "\n"); ReplacementOf(t, block) == Replaced(t)
  {
    hide Lines, Pieces, IsBegin, IsEnd, Join, Rewritten, LinesOf;
    var head, current := Lines(content + "\n"), Lines(block + "\n");
    var t := content + ("\n" + block + "\n");
    assert t == (content + "\n") + (block + "\n");
    NoBeginAfterLineFeed(content);
    LinesAreLines(content + "\n");
    BlockIsRead(block);
    var all := head + current;
    JoinOfConcat(head, current);
    forall i | 0 <= i < |all| ensures IsLine(all[i], i < |all| - 1) {
      if i < |head| { CompleteOrNot(head[i], true); } else { CompleteOrNot(current[i - |head|], true); }
    }
    assert AreLines(all);
    LinesOfJoin(all);
    assert all[|head|] == current[0];
    PiecesOfBlock(current, []);
    assert current + [] == current;
    NothingToRead();
    PiecesOfOutside(head, current);
    RewrittenAfter(head, current, block + "\n");
  }

  lemma NothingToRead()
    ensures Pieces([]) == Some([])
  {
  }

  lemma {:induction false} RewrittenAfter(head: seq<Text>, current: seq<Text>, text: Text)
    requires Join(current) == text
    ensures Join(Rewritten(OutsidePieces(head) + ([Block(current)] + []), [text], false)) == Join(head) + text
  {
    hide Join, Rewritten, OutsidePieces;
    var after := [Block(current)] + [];
    OutsideNext(head, after);
    if head == [] {
      BlockAlone(current, text);
      JoinOne(text);
      JoinNothing();
    } else {
      RewrittenAfter(head[1..], current, text);
      var rest := OutsidePieces(head[1..]) + after;
      OutsideRewritten(head[0], rest, [text]);
      JoinFirst(head[0], Rewritten(rest, [text], false));
      JoinFirst(head[0], head[1..]);
      assert [head[0]] + head[1..] == head;
      assert head[0] + (Join(head[1..]) + text) == (head[0] + Join(head[1..])) + text;
    }
  }

  lemma OutsideNext(head: seq<Text>, after: seq<Piece>)
    ensures head == [] ==> OutsidePieces(head) + after == after
    ensures head != [] ==> OutsidePieces(head) + after == [Outside(head[0])] + (OutsidePieces(head[1..]) + after)
  {
  }

  lemma BlockAlone(current: seq<Text>, text: Text)
    ensures Rewritten([Block(current)] + [], [text], false) == [text]
  {
    assert ([Block(current)] + [])[1..] == [];
    assert [text] + [] == [text];
  }

  lemma OutsideRewritten(line: Text, rest: seq<Piece>, current: seq<Text>)
    ensures Rewritten([Outside(line)] + rest, current, false) == [line] + Rewritten(rest, current, false)
  {
    assert ([Outside(line)] + rest)[1..] == rest;
  }

  /** Installing twice leaves the file as the first installation left it. */
  lemma InstallingTwice(f: HookFile, block: Text, posix: ShellTest)
    requires IsManagedBlock(block) && InstallOf(f, block, posix).File?
    ensures var once := InstallOf(f, block, posix).file; InstallOf(once, block, posix) == File(once)
  {
    hide IsManagedBlock, ReplacementOf, ContainsText;
    match f
    case Binary =>
    case Absent =>
      ShebangHasNoBegin();
      AppendedIsCurrent("#!/bin/sh\n", block);
    case Script(content) =>
      if ReplacementOf(content, block).Replaced? {
        ReplacingAgain(content, block);
      } else {
        NoBlockMeansNone(content, block);
        AppendedIsCurrent(content, block);
      }
  }

  lemma NoBlockMeansNone(content: Text, block: Text)
    ensures ReplacementOf(content, block).NoBlock? ==> !HasBegin(Lines(content))
  {
  }

  lemma ShebangHasNoBegin()
    ensures !HasBegin(Lines("#!/bin/sh\n"))
  {
    hide Lines, Trim;
    var l := "#!/bin/sh\n";
    assert l + [] == l;
    LineThenRest(l, []);
    NothingToSplit();
    assert Lines(l) == [l];
    ShebangIsNoBegin();
  }

  lemma NothingToSplit()
    ensures Lines([]) == []
  {
  }

  lemma ShebangIsNoBegin()
    ensures !IsBegin("#!/bin/sh\n")
  {
    var s := "#!/bin/sh";
    assert s[8] == 'h';
    assert Trim(s) == s;
    TrimDropsLineFeed(s);
    hide Trim;
    assert s + "\n" == "#!/bin/sh\n";
    assert s[1] != BEGIN[1];
  }
}
