/** Texts with redaction markers in them. Here a text is the sequence of its characters. */
module MarkedText {
  import opened Bytes

  const PLACEHOLDER_FIRST: nat := 0xE000
  const PLACEHOLDER_LAST: nat := 0xF8FF

  /** Tells the texts that are redaction markers. */
  type MarkerTest = Text -> bool

  predicate IsPlaceholder(c: char) {
    PLACEHOLDER_FIRST <= c as int <= PLACEHOLDER_LAST
  }

  /** The shape of the marker pattern: brackets at its two ends and nowhere else, and none of the
      characters placeholders are taken from. */
  ghost predicate MarkersAreBracketed(isMarker: MarkerTest) {
    forall m: Text :: isMarker(m) ==>
      && |m| >= 2 && m[0] == '[' && m[|m| - 1] == ']'
      && (forall i :: 0 < i < |m| ==> m[i] != '[')
      && (forall i :: 0 <= i < |m| - 1 ==> m[i] != ']')
      && (forall i :: 0 <= i < |m| ==> !IsPlaceholder(m[i]))
  }

  // --- Texts as characters and markers ---

  datatype Unit = Char(c: char) | Mark(marker: Text)

  function FirstClose(t: Text): (n: nat)
    ensures n <= |t| && (n < |t| ==> t[n] == ']') && forall i :: 0 <= i < n ==> t[i] != ']'
  {
    if t == [] || t[0] == ']' then 0 else 1 + FirstClose(t[1..])
  }

  /** The length of the marker `t` begins with, 0 for none. */
  function MarkerLength(isMarker: MarkerTest, t: Text): (n: nat)
    ensures n <= |t|
  {
    var n := FirstClose(t);
    if n < |t| && isMarker(t[..n + 1]) then n + 1 else 0
  }

  /** What the marker pattern finds, from left to right, and the characters between. */
  function Parse(isMarker: MarkerTest, t: Text): seq<Unit>
    decreases |t|
  {
    if t == [] then []
    else
      var n := MarkerLength(isMarker, t);
      if n > 0 then [Mark(t[..n])] + Parse(isMarker, t[n..]) else [Char(t[0])] + Parse(isMarker, t[1..])
  }

  function PrintUnit(u: Unit): Text {
    match u
    case Char(c) => [c]
    case Mark(m) => m
  }

  function Print(us: seq<Unit>): Text {
    if us == [] then [] else PrintUnit(us[0]) + Print(us[1..])
  }

  lemma {:induction false} PrintOfParse(isMarker: MarkerTest, t: Text)
    ensures Print(Parse(isMarker, t)) == t
    decreases |t|
  {
    hide MarkerLength, Print;
    if t == [] {
      PrintNothing();
    } else {
      var n := MarkerLength(isMarker, t);
      if n > 0 {
        PrintOfParse(isMarker, t[n..]);
        PrintFirst(Mark(t[..n]), Parse(isMarker, t[n..]));
        assert t == t[..n] + t[n..];
      } else {
        PrintOfParse(isMarker, t[1..]);
        PrintFirst(Char(t[0]), Parse(isMarker, t[1..]));
        assert t == [t[0]] + t[1..];
      }
    }
  }

  lemma PrintNothing()
    ensures Print([]) == []
  {
  }

  lemma PrintFirst(u: Unit, us: seq<Unit>)
    ensures Print([u] + us) == PrintUnit(u) + Print(us)
  {
    assert ([u] + us)[1..] == us;
  }

  function Chars(w: Text): (us: seq<Unit>)
    ensures |us| == |w| && forall i :: 0 <= i < |w| ==> us[i] == Char(w[i])
  {
    if w == [] then [] else Chars(w[..|w| - 1]) + [Char(w[|w| - 1])]
  }

  /** `w` occurs between markers. */
  ghost predicate Occurs(us: seq<Unit>, w: Text) {
    exists i: nat :: OccursAt(us, w, i)
  }

  ghost predicate OccursAt(us: seq<Unit>, w: Text, i: nat) {
    i + |w| <= |us| && us[i..i + |w|] == Chars(w)
  }

  /** Every marker is one, and the text between markers holds none. */
  ghost predicate Clean(isMarker: MarkerTest, us: seq<Unit>) {
    && (forall i :: 0 <= i < |us| && us[i].Mark? ==> isMarker(us[i].marker))
    && (forall m: Text :: isMarker(m) ==> !Occurs(us, m))
  }

  /** A marker at the front of a printed text is the first unit, or is made of characters alone. */
  lemma {:induction false} FrontMarker(isMarker: MarkerTest, us: seq<Unit>, n: nat)
    requires MarkersAreBracketed(isMarker) && n <= |Print(us)| && us != [] && us[0].Char?
    requires forall i :: 0 <= i < |us| && us[i].Mark? ==> isMarker(us[i].marker)
    requires forall i :: 0 < i < n ==> Print(us)[i] != '['
    ensures n <= |us| && us[..n] == Chars(Print(us)[..n])
  {
    hide Chars;
    if n > 1 {
      var rest := us[1..];
      assert Print(us) == [us[0].c] + Print(rest);
      assert Print(rest) != [];
      assert rest != [];
      MarkOpens(isMarker, rest);
      assert Print(us)[1] == Print(rest)[0];
      forall i | 0 < i < n - 1 ensures Print(rest)[i] != '[' { assert Print(rest)[i] == Print(us)[i + 1]; }
      FrontMarker(isMarker, rest, n - 1);
      SplitChars(us, Print(us), n);
    } else if n == 1 {
      OneChar(us);
    } else {
      assert us[..0] == Chars([]);
    }
  }

  lemma MarkOpens(isMarker: MarkerTest, us: seq<Unit>)
    requires MarkersAreBracketed(isMarker) && us != []
    ensures us[0].Mark? && isMarker(us[0].marker) ==> Print(us) != [] && Print(us)[0] == '['
  {
  }

  lemma OneChar(us: seq<Unit>)
    requires us != [] && us[0].Char?
    ensures |Print(us)| >= 1 && us[..1] == Chars(Print(us)[..1])
  {
    assert Print(us)[0] == us[0].c;
  }

  lemma SplitChars(us: seq<Unit>, t: Text, n: nat)
    requires 1 < n <= |t| && us != [] && us[0].Char? && t[0] == us[0].c && n - 1 <= |us| - 1
    requires us[1..][..n - 1] == Chars(t[1..][..n - 1])
    ensures us[..n] == Chars(t[..n])
  {
    forall i | 0 <= i < n ensures us[..n][i] == Chars(t[..n])[i] {
      if i > 0 { assert us[1..][..n - 1][i - 1] == Chars(t[1..][..n - 1])[i - 1]; }
    }
  }

  lemma {:induction false} FirstCloseIs(t: Text, n: nat)
    requires n < |t| && t[n] == ']' && forall i :: 0 <= i < n ==> t[i] != ']'
    ensures FirstClose(t) == n
  {
    if n > 0 { FirstCloseIs(t[1..], n - 1); }
  }

  /** A text that begins with a marker, also when more follows it. */
  lemma MarkerIsFound(isMarker: MarkerTest, m: Text, rest: Text)
    requires MarkersAreBracketed(isMarker) && isMarker(m)
    ensures MarkerLength(isMarker, m + rest) == |m|
  {
    var t := m + rest;
    FirstCloseIs(t, |m| - 1);
    assert t[..|m|] == m;
  }

  /** Printing clean units and parsing them again gives the same characters and markers. */
  lemma {:induction false} ParseOfPrint(isMarker: MarkerTest, us: seq<Unit>)
    requires MarkersAreBracketed(isMarker) && Clean(isMarker, us)
    ensures Parse(isMarker, Print(us)) == us
    decreases |us|
  {
    hide Print, MarkerLength;
    if us == [] {
      PrintNothing();
    } else {
      var rest := us[1..];
      assert us == [us[0]] + rest;
      PrintFirst(us[0], rest);
      CleanByRest(isMarker, us);
      ParseOfPrint(isMarker, rest);
      if us[0].Mark? {
        MarkerIsFound(isMarker, us[0].marker, Print(rest));
        assert (us[0].marker + Print(rest))[|us[0].marker|..] == Print(rest);
        assert (us[0].marker + Print(rest))[..|us[0].marker|] == us[0].marker;
      } else {
        FrontMarkerOccurs(isMarker, us);
        assert Print(us) == [us[0].c] + Print(rest);
        assert Print(us)[1..] == Print(rest);
      }
    }
  }

  lemma OccursFurther(us: seq<Unit>, w: Text, i: nat)
    requires us != []
    ensures OccursAt(us[1..], w, i) <==> OccursAt(us, w, i + 1)
  {
    if i + 1 + |w| <= |us| { assert us[i + 1..i + 1 + |w|] == us[1..][i..i + |w|]; }
  }

  /** Units are clean when their rest is, a first mark is a marker, and no marker starts them. */
  lemma CleanByRest(isMarker: MarkerTest, us: seq<Unit>)
    requires us != []
    ensures Clean(isMarker, us) <==>
      && Clean(isMarker, us[1..]) && (us[0].Mark? ==> isMarker(us[0].marker))
      && forall m: Text :: isMarker(m) ==> !OccursAt(us, m, 0)
  {
    hide OccursAt;
    forall m: Text ensures Occurs(us, m) <==> OccursAt(us, m, 0) || Occurs(us[1..], m) {
      forall i: nat ensures OccursAt(us[1..], m, i) <==> OccursAt(us, m, i + 1) { OccursFurther(us, m, i); }
      if Occurs(us, m) {
        var i: nat :| OccursAt(us, m, i);
        if i > 0 { assert OccursAt(us[1..], m, i - 1); }
      }
    }
    assert forall i :: 0 <= i < |us| - 1 ==> us[1..][i] == us[i + 1];
  }

  /** A marker found at the front of a printed text, whose first unit is a character, is made of
      characters. */
  lemma FrontMarkerOccurs(isMarker: MarkerTest, us: seq<Unit>)
    requires MarkersAreBracketed(isMarker) && us != [] && us[0].Char?
    requires forall i :: 0 <= i < |us| && us[i].Mark? ==> isMarker(us[i].marker)
    ensures var n := MarkerLength(isMarker, Print(us));
      n > 0 ==> isMarker(Print(us)[..n]) && OccursAt(us, Print(us)[..n], 0)
  {
    hide Chars;
    var t := Print(us);
    var n := MarkerLength(isMarker, t);
    if n > 0 {
      forall i | 0 < i < n ensures t[i] != '[' { assert t[i] == t[..n][i]; }
      FrontMarker(isMarker, us, n);
    }
  }

  /** What is parsed is clean. */
  lemma {:induction false} ParseIsClean(isMarker: MarkerTest, t: Text)
    requires MarkersAreBracketed(isMarker)
    ensures Clean(isMarker, Parse(isMarker, t))
    decreases |t|
  {
    hide MarkerLength, OccursAt, Clean, MarkersAreBracketed;
    if t == [] {
      NothingIsClean(isMarker);
    } else {
      var n := MarkerLength(isMarker, t);
      var us := Parse(isMarker, t);
      var rest := Parse(isMarker, if n > 0 then t[n..] else t[1..]);
      ParseIsClean(isMarker, if n > 0 then t[n..] else t[1..]);
      MarkerIsMarker(isMarker, t);
      assert us[1..] == rest;
      forall m: Text | isMarker(m) ensures !OccursAt(us, m, 0) { FrontRun(isMarker, t, m); }
      CleanByRest(isMarker, us);
    }
  }

  lemma NothingIsClean(isMarker: MarkerTest)
    requires MarkersAreBracketed(isMarker)
    ensures Clean(isMarker, [])
  {
  }

  lemma MarkerIsMarker(isMarker: MarkerTest, t: Text)
    ensures MarkerLength(isMarker, t) > 0 ==> isMarker(t[..MarkerLength(isMarker, t)])
  {
  }

  /** Characters at the front of what is parsed are the characters of the text. */
  lemma {:induction false} FrontChars(isMarker: MarkerTest, t: Text, w: Text)
    requires OccursAt(Parse(isMarker, t), w, 0)
    ensures w <= t
    decreases |w|
  {
    hide MarkerLength, Chars;
    if w != [] {
      var us := Parse(isMarker, t);
      assert us[..|w|][0] == Chars(w)[0];
      assert us[0] == Char(t[0]) && w[0] == t[0];
      var rest := Parse(isMarker, t[1..]);
      assert us == [us[0]] + rest;
      forall i | 0 <= i < |w| - 1 ensures rest[..|w| - 1][i] == Chars(w[1..])[i] {
        assert us[..|w|][i + 1] == Chars(w)[i + 1];
      }
      assert rest[..|w| - 1] == Chars(w[1..]);
      FrontChars(isMarker, t[1..], w[1..]);
      assert t == [t[0]] + t[1..] && w == [w[0]] + w[1..];
    }
  }

  lemma FrontIsChar(isMarker: MarkerTest, t: Text, w: Text)
    requires w != [] && OccursAt(Parse(isMarker, t), w, 0)
    ensures MarkerLength(isMarker, t) == 0
  {
    hide MarkerLength, Chars;
    assert Parse(isMarker, t)[..|w|][0] == Chars(w)[0];
  }

  /** So no marker is among them: it would have been found. */
  lemma FrontRun(isMarker: MarkerTest, t: Text, m: Text)
    requires MarkersAreBracketed(isMarker) && isMarker(m)
    ensures !OccursAt(Parse(isMarker, t), m, 0)
  {
    hide MarkerLength, OccursAt;
    if OccursAt(Parse(isMarker, t), m, 0) {
      FrontChars(isMarker, t, m);
      FrontIsChar(isMarker, t, m);
      assert t == m + t[|m|..];
      MarkerIsFound(isMarker, m, t[|m|..]);
    }
  }
}
