/** How boundaries and markers are spelled: nothing of a stimulus can change without its boundaries, and no marker
    is spelled like another. */
module StimulusSpelling {
  import opened Bytes
  import opened StimulusFormat

  // ---- what a boundary is made of ----

  lemma SplitAtNul(a: Text, b: Text, x: Text, y: Text)
    requires '\0' !in a && '\0' !in b && a + ['\0'] + x == b + ['\0'] + y
    ensures a == b && x == y
  {
    var s := a + ['\0'] + x;
    FirstSeparator(a, x, '\0');
    FirstSeparator(b, y, '\0');
    OneFirst(s, |a|, |b|, '\0');
    SamePieces(a + ['\0'], b + ['\0'], x, y);
    SamePieces(a, b, ['\0'], ['\0']);
  }

  ghost predicate IsFirst(s: Text, n: nat, c: char) {
    n < |s| && s[n] == c && forall i :: 0 <= i < n ==> s[i] != c
  }

  ghost predicate IsLast(s: Text, n: nat, c: char) {
    n < |s| && s[n] == c && forall i :: n < i < |s| ==> s[i] != c
  }

  lemma OneFirst(s: Text, m: nat, n: nat, c: char)
    requires IsFirst(s, m, c) && IsFirst(s, n, c)
    ensures m == n
  {
  }

  lemma OneLast(s: Text, m: nat, n: nat, c: char)
    requires IsLast(s, m, c) && IsLast(s, n, c)
    ensures m == n
  {
  }

  lemma FirstSeparator(a: Text, x: Text, c: char)
    requires c !in a
    ensures IsFirst(a + [c] + x, |a|, c)
  {
    var s := a + [c] + x;
    forall i | 0 <= i < |a| ensures s[i] != c { assert s[i] == a[i] && a[i] in a; }
  }

  lemma SamePieces(a: Text, b: Text, x: Text, y: Text)
    requires |a| == |b| && a + x == b + y
    ensures a == b && x == y
  {
    var s, u := a + x, b + y;
    assert s[..|a|] == a && u[..|b|] == b;
    assert s[|a|..] == x && u[|b|..] == y;
  }

  lemma BigEndian32IsExact(m: nat, n: nat)
    requires m < 0x1_0000_0000 && n < 0x1_0000_0000 && BigEndian32(m) == BigEndian32(n)
    ensures m == n
  {
    FourBytes(m);
    FourBytes(n);
    SameBytes(BigEndian32(m), BigEndian32(n));
  }

  function ByteAt(n: nat, unit: nat): nat
    requires unit > 0
  {
    n / unit % 0x100
  }

  lemma FourBytes(n: nat)
    requires n < 0x1_0000_0000
    ensures n == 0x1000000 * ByteAt(n, 0x1000000) + 0x10000 * ByteAt(n, 0x10000) + 0x100 * ByteAt(n, 0x100) + ByteAt(n, 1)
    ensures var t := BigEndian32(n);
      && t[0] as int == ByteAt(n, 0x1000000) && t[1] as int == ByteAt(n, 0x10000)
      && t[2] as int == ByteAt(n, 0x100) && t[3] as int == ByteAt(n, 1)
  {
    var a, b, c := n / 0x100, n / 0x10000, n / 0x1000000;
    assert a / 0x100 == b && b / 0x100 == c && c < 0x100;
  }

  lemma SameBytes(a: Text, b: Text)
    requires |a| == |b| == 4 && a == b
    ensures a[0] == b[0] && a[1] == b[1] && a[2] == b[2] && a[3] == b[3]
  {
  }

  /** The names of the kinds differ, and hold neither separator. */
  lemma NamesAreExact(a: PartKind, b: PartKind)
    ensures ShapeName(a) == ShapeName(b) <==> a == b
    ensures ShapeName(a) != "" && ',' !in ShapeName(a) && '\0' !in ShapeName(a)
  {
    assert "task"[1] == 'a' && "tool_result"[1] == 'o';
  }

  lemma LastSplit(a: Text, b: Text, x: Text, y: Text)
    requires ',' !in x && ',' !in y && a + [','] + x == b + [','] + y
    ensures a == b && x == y
  {
    var s := a + [','] + x;
    LastSeparator(a, x, ',');
    LastSeparator(b, y, ',');
    OneLast(s, |a|, |b|, ',');
    SamePieces(a + [','], b + [','], x, y);
    SamePieces(a, b, [','], [',']);
  }

  lemma LastSeparator(a: Text, x: Text, c: char)
    requires c !in x
    ensures IsLast(a + [c] + x, |a|, c)
  {
    var s := a + [c] + x;
    forall i | |a| < i < |s| ensures s[i] != c { assert s[i] == x[i - |a| - 1] && x[i - |a| - 1] in x; }
  }

  lemma ShapeSnoc(kinds: seq<PartKind>)
    requires |kinds| > 1
    ensures ShapeOf(kinds) == ShapeOf(kinds[..|kinds| - 1]) + [','] + ShapeName(kinds[|kinds| - 1])
  {
  }

  lemma {:induction false} ShapeHasNoNul(kinds: seq<PartKind>)
    ensures '\0' !in ShapeOf(kinds) && (kinds == [] <==> ShapeOf(kinds) == "") && (|kinds| > 1 <==> ',' in ShapeOf(kinds))
  {
    if |kinds| == 1 {
      NamesAreExact(kinds[0], kinds[0]);
    } else if |kinds| > 1 {
      ShapeHasNoNul(kinds[..|kinds| - 1]);
      NamesAreExact(kinds[|kinds| - 1], kinds[|kinds| - 1]);
      ShapeSnoc(kinds);
    }
  }

  /** The shape of a stimulus tells the kinds of its parts. */
  lemma {:induction false} ShapeIsExact(a: seq<PartKind>, b: seq<PartKind>)
    ensures ShapeOf(a) == ShapeOf(b) <==> a == b
    decreases |a|
  {
    hide ShapeName, ShapeOf;
    if ShapeOf(a) == ShapeOf(b) {
      ShapeHasNoNul(a);
      ShapeHasNoNul(b);
      if |a| == 1 {
        OneShape(a);
        OneShape(b);
        NamesAreExact(a[0], b[0]);
        assert a == [a[0]] && b == [b[0]];
      } else if |a| > 1 {
        ShapeSnoc(a);
        ShapeSnoc(b);
        NamesAreExact(a[|a| - 1], b[|b| - 1]);
        NamesAreExact(b[|b| - 1], a[|a| - 1]);
        LastSplit(ShapeOf(a[..|a| - 1]), ShapeOf(b[..|b| - 1]), ShapeName(a[|a| - 1]), ShapeName(b[|b| - 1]));
        ShapeIsExact(a[..|a| - 1], b[..|b| - 1]);
        assert a == a[..|a| - 1] + [a[|a| - 1]] && b == b[..|b| - 1] + [b[|b| - 1]];
      }
    }
  }

  lemma OneShape(kinds: seq<PartKind>)
    requires |kinds| == 1
    ensures ShapeOf(kinds) == ShapeName(kinds[0])
  {
  }

  /** What is hashed for a boundary is the same for two stimuli exactly when interaction, kinds of all parts and
      candidate are: none of them can change, and the boundary be computed from the same bytes. */
  lemma BoundaryInputIsExact(id1: Text, id2: Text, kinds1: seq<PartKind>, kinds2: seq<PartKind>, c1: nat, c2: nat)
    requires '\0' !in id1 && '\0' !in id2 && c1 < 0x1_0000_0000 && c2 < 0x1_0000_0000
    ensures BoundaryInput(id1, ShapeOf(kinds1), c1) == BoundaryInput(id2, ShapeOf(kinds2), c2)
       <==> id1 == id2 && kinds1 == kinds2 && c1 == c2
  {
    hide ShapeOf, BigEndian32;
    var s, u := ShapeOf(kinds1), ShapeOf(kinds2);
    if BoundaryInput(id1, s, c1) == BoundaryInput(id2, u, c2) {
      InputParts(id1, s, c1);
      InputParts(id2, u, c2);
      var x, y := id1 + ['\0'] + (s + ['\0'] + BigEndian32(c1)), id2 + ['\0'] + (u + ['\0'] + BigEndian32(c2));
      assert x == BoundaryInput(id1, s, c1)[|BOUNDARY_DOMAIN|..] == y;
      SplitAtNul(id1, id2, s + ['\0'] + BigEndian32(c1), u + ['\0'] + BigEndian32(c2));
      ShapeHasNoNul(kinds1);
      ShapeHasNoNul(kinds2);
      SplitAtNul(s, u, BigEndian32(c1), BigEndian32(c2));
      ShapeIsExact(kinds1, kinds2);
      BigEndian32IsExact(c1, c2);
    }
  }

  lemma InputParts(id: Text, shape: Text, c: nat)
    ensures BoundaryInput(id, shape, c) == BOUNDARY_DOMAIN + (id + ['\0'] + (shape + ['\0'] + BigEndian32(c)))
  {
    hide BigEndian32;
    var n := BigEndian32(c);
    assert BOUNDARY_DOMAIN + id + "\0" + shape + "\0" + n == BOUNDARY_DOMAIN + (id + ['\0'] + (shape + ['\0'] + n));
  }

  // ---- markers ----

  /** Each kind of marker, as it stands in a text. */
  lemma MarkersAreSpelled(name: Text, token: Text)
    ensures RenderMarker(Prompt, None, false, token) == "[prompt " + token + "] "
    ensures RenderMarker(Task, None, false, token) == "[task " + token + "] "
    ensures RenderMarker(Meta, None, false, token) == "[meta " + token + "] "
    ensures RenderMarker(CompactionSummary, None, false, token) == "[compaction summary " + token + "]\n"
    ensures RenderMarker(ToolResult, Some(name), false, token) == "[tool_result " + name + " " + token + "] "
    ensures RenderMarker(ToolResult, Some(name), true, token) == "[tool_result " + name + " error " + token + "] "
  {
    assert "[tool_result " + name + " " + "" + token + "] " == "[tool_result " + name + " " + token + "] ";
    assert "[tool_result " + name + " " + "error " == "[tool_result " + name + " error ";
  }
}
