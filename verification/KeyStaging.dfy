/** Lone key blocks beside redaction markers: markers set aside as numbered placeholders, and what
    all rounds together leave of a text. */
module KeyStaging {
  import opened Bytes
  import opened MarkedText
  import opened PolicyStaging
  import PolicyRules
  import Keys = KeyBlocks

  const NUL: char := '\0'
  const HOLE_OPEN: Text := "\0CVC"

  /** The placeholder of marker number `i`. */
  function HoleText(i: nat): Text {
    HOLE_OPEN + Dec(i) + [NUL]
  }

  /** What a staged text is made of: its characters, placeholders of markers, and new markers. */
  datatype Piece = Lit(c: char) | Hole(i: nat) | New(marker: Text)

  function Spell(p: Piece): Text {
    match p
    case Lit(c) => [c]
    case Hole(i) => HoleText(i)
    case New(m) => m
  }

  function Flatten(ps: seq<Piece>): Text {
    if ps == [] then [] else Flatten(ps[..|ps| - 1]) + Spell(ps[|ps| - 1])
  }

  lemma {:induction false} FlattenConcat(a: seq<Piece>, b: seq<Piece>)
    ensures Flatten(a + b) == Flatten(a) + Flatten(b)
  {
    hide Spell;
    if b == [] {
      assert a + b == a;
    } else {
      FlattenConcat(a, b[..|b| - 1]);
      assert (a + b)[..|a + b| - 1] == a + b[..|b| - 1];
    }
  }

  lemma FlattenOne(p: Piece)
    ensures Flatten([p]) == Spell(p)
  {
    assert [p][..0] == [];
  }

  // --- Restoring ---

  function LeadingDigits(t: Text): (n: nat)
    ensures n <= |t| && AllDigits(t[..n]) && (n < |t| ==> !IsDigit(t[n]))
  {
    if t == [] || !IsDigit(t[0]) then 0
    else
      var n := LeadingDigits(t[1..]);
      assert t[..1 + n] == [t[0]] + t[1..][..n];
      1 + n
  }

  /** The placeholder `t` begins with: its length and its number. */
  function HoleAt(t: Text): (r: Option<(nat, nat)>)
    ensures r.Some? ==> 0 < r.value.0 <= |t|
  {
    if !(HOLE_OPEN <= t) then None
    else
      var rest := t[|HOLE_OPEN|..];
      var digits := LeadingDigits(rest);
      if digits == 0 || digits == |rest| || rest[digits] != NUL then None
      else Some((|HOLE_OPEN| + digits + 1, ParseDec(rest[..digits])))
  }

  /** Every placeholder back to its marker, from left to right; an unknown number stays as it is. */
  function Restore(t: Text, markers: seq<Text>): Text
    decreases |t|
  {
    if t == [] then []
    else
      match HoleAt(t)
      case None => [t[0]] + Restore(t[1..], markers)
      case Some((n, i)) => (if i < |markers| then markers[i] else t[..n]) + Restore(t[n..], markers)
  }

  lemma {:induction false} LeadingDigitsAre(t: Text, rest: Text)
    requires AllDigits(t) && (rest == [] || !IsDigit(rest[0]))
    ensures LeadingDigits(t + rest) == |t|
  {
    if t == [] {
      assert t + rest == rest;
    } else {
      assert (t + rest)[1..] == t[1..] + rest;
      LeadingDigitsAre(t[1..], rest);
    }
  }

  lemma HoleIsFound(i: nat, rest: Text)
    ensures HoleAt(HoleText(i) + rest) == Some((|HoleText(i)|, i))
  {
    hide IsDigit, ParseDec, Dec;
    var t, tail := HoleText(i) + rest, [NUL] + rest;
    assert t[|HOLE_OPEN|..] == Dec(i) + tail;
    NulIsNoDigit();
    LeadingDigitsAre(Dec(i), tail);
    assert (Dec(i) + tail)[..|Dec(i)|] == Dec(i) && (Dec(i) + tail)[|Dec(i)|] == NUL;
    ParseOfDec(i);
  }

  lemma NulIsNoDigit()
    ensures !IsDigit(NUL)
  {
  }

  lemma RestoreHole(i: nat, rest: Text, markers: seq<Text>)
    requires i < |markers|
    ensures Restore(HoleText(i) + rest, markers) == markers[i] + Restore(rest, markers)
  {
    hide HoleAt, HoleText;
    HoleIsFound(i, rest);
    assert (HoleText(i) + rest)[|HoleText(i)|..] == rest;
  }

  lemma {:induction false} RestoreText(m: Text, rest: Text, markers: seq<Text>)
    requires NUL !in m
    ensures Restore(m + rest, markers) == m + Restore(rest, markers)
  {
    hide Restore;
    if m == [] {
      assert m + rest == rest;
    } else {
      RestoreChar(m[0], m[1..] + rest, markers);
      assert [m[0]] + (m[1..] + rest) == m + rest;
      RestoreText(m[1..], rest, markers);
    }
  }

  lemma RestoreChar(c: char, rest: Text, markers: seq<Text>)
    requires c != NUL
    ensures Restore([c] + rest, markers) == [c] + Restore(rest, markers)
  {
    assert ([c] + rest)[1..] == rest && ([c] + rest)[0] != HOLE_OPEN[0];
  }

  /** What a piece stands for. */
  ghost predicate Means(p: Piece, u: Unit, markers: seq<Text>) {
    match p
    case Lit(c) => u == Char(c) && c != NUL
    case Hole(i) => i < |markers| && u == Mark(markers[i])
    case New(m) => u == Mark(m) && NUL !in m
  }

  ghost predicate Stand(ps: seq<Piece>, us: seq<Unit>, markers: seq<Text>) {
    |ps| == |us| && forall i :: 0 <= i < |ps| ==> Means(ps[i], us[i], markers)
  }

  lemma RestorePiece(p: Piece, u: Unit, rest: Text, markers: seq<Text>)
    requires Means(p, u, markers)
    ensures Restore(Spell(p) + rest, markers) == PrintUnit(u) + Restore(rest, markers)
  {
    match p
    case Hole(i) => RestoreHole(i, rest, markers);
    case _ => RestoreText(Spell(p), rest, markers);
  }

  /** Restoring a staged text prints the units its pieces stand for. */
  lemma {:induction false} RestoredIsPrinted(ps: seq<Piece>, us: seq<Unit>, markers: seq<Text>)
    requires Stand(ps, us, markers)
    ensures Restore(Flatten(ps), markers) == Print(us)
  {
    hide Restore, Spell, Means, Flatten;
    if ps == [] {
      NothingFlat(markers);
    } else {
      FlattenConcat([ps[0]], ps[1..]);
      FlattenOne(ps[0]);
      assert ps == [ps[0]] + ps[1..];
      RestorePiece(ps[0], us[0], Flatten(ps[1..]), markers);
      RestoredIsPrinted(ps[1..], us[1..], markers);
    }
  }

  lemma NothingFlat(markers: seq<Text>)
    ensures Flatten([]) == [] && Restore([], markers) == [] && Print([]) == []
  {
  }

  // --- Staging ---

  function MarkersOf(us: seq<Unit>): seq<Text> {
    if us == [] then []
    else
      var u := us[|us| - 1];
      MarkersOf(us[..|us| - 1]) + if u.Mark? then [u.marker] else []
  }

  function PiecesOf(us: seq<Unit>): (ps: seq<Piece>)
    ensures |ps| == |us|
  {
    if us == [] then []
    else
      var init, u := us[..|us| - 1], us[|us| - 1];
      PiecesOf(init) + [if u.Mark? then Hole(|MarkersOf(init)|) else Lit(u.c)]
  }

  ghost predicate IsNulFree(us: seq<Unit>) {
    PolicyRules.NoChar(us, NUL) && forall i :: 0 <= i < |us| && us[i].Mark? ==> NUL !in us[i].marker
  }

  lemma {:induction false} PiecesStand(us: seq<Unit>)
    requires IsNulFree(us)
    ensures Stand(PiecesOf(us), us, MarkersOf(us))
  {
    if us != [] {
      var init, u := us[..|us| - 1], us[|us| - 1];
      assert u in us && forall v :: v in init ==> v in us;
      PiecesStand(init);
      forall i | 0 <= i < |us| ensures Means(PiecesOf(us)[i], us[i], MarkersOf(us)) {
        if i < |init| { assert Means(PiecesOf(init)[i], init[i], MarkersOf(init)); }
      }
    }
  }

  /** The text the line patterns see, and the markers set aside. */
  function Staged(isMarker: MarkerTest, t: Text): (Text, seq<Text>) {
    var us := Parse(isMarker, t);
    (Flatten(PiecesOf(us)), MarkersOf(us))
  }

  function MarkerStaging(isMarker: MarkerTest): Keys.Staging {
    Keys.Staging(t => Staged(isMarker, t), (t, markers) => Restore(t, markers))
  }

  // --- Regions of a staged text as ranges of its pieces ---

  /** Where piece `i` begins. */
  function At(ps: seq<Piece>, i: nat): nat
    requires i <= |ps|
  {
    |Flatten(ps[..i])|
  }

  ghost predicate NoneEmpty(ps: seq<Piece>) {
    forall i :: 0 <= i < |ps| ==> Spell(ps[i]) != []
  }

  lemma PiecesNotEmpty(us: seq<Unit>)
    ensures NoneEmpty(PiecesOf(us))
  {
    forall i | 0 <= i < |us| ensures !PiecesOf(us)[i].New? { NoNewPieces(us, i); }
  }

  lemma {:induction false} NoNewPieces(us: seq<Unit>, i: nat)
    requires i < |us|
    ensures !PiecesOf(us)[i].New?
  {
    if i < |us| - 1 { NoNewPieces(us[..|us| - 1], i); }
  }

  lemma SliceOfFlat(ps: seq<Piece>, a: nat, b: nat)
    requires a <= b <= |ps|
    ensures At(ps, a) <= At(ps, b) <= |Flatten(ps)| && Flatten(ps)[At(ps, a)..At(ps, b)] == Flatten(ps[a..b])
  {
    hide Flatten;
    FlattenConcat(ps[..a], ps[a..b]);
    assert ps[..a] + ps[a..b] == ps[..b];
    FlattenConcat(ps[..b], ps[b..]);
    assert ps[..b] + ps[b..] == ps;
  }

  lemma AtRises(ps: seq<Piece>, a: nat, b: nat)
    requires NoneEmpty(ps) && a < b <= |ps|
    ensures At(ps, a) < At(ps, b)
  {
    SliceOfFlat(ps, a, b);
    NotFlat(ps[a..b]);
    assert ps[a..b][|ps[a..b]| - 1] == ps[b - 1];
  }

  lemma NotFlat(ps: seq<Piece>)
    requires ps != [] && Spell(ps[|ps| - 1]) != []
    ensures |Flatten(ps)| > 0
  {
  }

  ghost predicate BeginsAt(ps: seq<Piece>, x: nat) {
    exists i: nat :: i <= |ps| && At(ps, i) == x
  }

  /** The regions take whole pieces: those of `ranges`. */
  ghost predicate TakeWhole(ps: seq<Piece>, regions: seq<Span>, ranges: seq<Span>) {
    && |regions| == |ranges| && Apart(ranges, |ps|)
    && forall k :: 0 <= k < |ranges| ==> regions[k] == Span(At(ps, ranges[k].start), At(ps, ranges[k].end))
  }

  ghost function IndexAt(ps: seq<Piece>, x: nat): (i: nat)
    requires BeginsAt(ps, x)
    ensures i <= |ps| && At(ps, i) == x
  {
    var i: nat :| i <= |ps| && At(ps, i) == x;
    i
  }

  lemma WholeRanges(ps: seq<Piece>, regions: seq<Span>) returns (ranges: seq<Span>)
    requires NoneEmpty(ps) && Keys.Disjoint(regions)
    requires forall k :: 0 <= k < |regions| ==> BeginsAt(ps, regions[k].start) && BeginsAt(ps, regions[k].end)
    ensures TakeWhole(ps, regions, ranges) && forall k :: 0 <= k < |ranges| ==> ranges[k].start < ranges[k].end
  {
    hide At, BeginsAt, NoneEmpty;
    ranges := seq(|regions|, k requires 0 <= k < |regions| => Span(IndexAt(ps, regions[k].start), IndexAt(ps, regions[k].end)));
    forall i | 0 <= i < |ranges| ensures ranges[i].start < ranges[i].end <= |ps| {
      if ranges[i].end < ranges[i].start { AtRises(ps, ranges[i].end, ranges[i].start); }
    }
    forall i, j | 0 <= i < j < |ranges| ensures ranges[i].end <= ranges[j].start {
      if ranges[j].start < ranges[i].end { AtRises(ps, ranges[j].start, ranges[i].end); }
    }
  }

  function News(ms: seq<Text>): (ps: seq<Piece>)
    ensures |ps| == |ms| && forall i :: 0 <= i < |ms| ==> ps[i] == New(ms[i])
  {
    seq(|ms|, i requires 0 <= i < |ms| => New(ms[i]))
  }

  lemma GapStartAt(ps: seq<Piece>, regions: seq<Span>, ranges: seq<Span>, k: nat)
    requires TakeWhole(ps, regions, ranges) && k <= |ranges|
    ensures GapStart(regions, k) == At(ps, GapStart(ranges, k))
  {
    assert ps[..0] == [];
  }

  /** Redacting the text of the pieces is replacing pieces. */
  lemma {:induction false} RedactedPieces(ps: seq<Piece>, regions: seq<Span>, ranges: seq<Span>, marks: seq<Text>, k: nat)
    requires TakeWhole(ps, regions, ranges) && Keys.Disjoint(regions) && Keys.EndBy(regions, |Flatten(ps)|)
    requires |marks| == |regions| && k <= |regions|
    ensures Keys.Redacted(Flatten(ps), regions, marks, k) == Flatten(Upto(ps, ranges, News(marks), k))
  {
    hide Flatten, At, Keys.Disjoint, Keys.EndBy, Spell, Apart;
    if k == 0 {
      NothingRedacted(ps, regions, ranges, marks);
    } else {
      var i := k - 1;
      RedactedPieces(ps, regions, ranges, marks, i);
      Keys.RedactNext(Flatten(ps), regions, marks, i);
      NextUpto(ps, ranges, News(marks), i);
      GapStartAt(ps, regions, ranges, i);
      var lo, hi := GapStart(ranges, i), ranges[i].start;
      SliceOfFlat(ps, lo, hi);
      FlattenConcat(Upto(ps, ranges, News(marks), i), ps[lo..hi]);
      FlattenConcat(Upto(ps, ranges, News(marks), i) + ps[lo..hi], [New(marks[i])]);
      SpellNew(marks[i]);
    }
  }

  lemma SpellNew(m: Text)
    ensures Flatten([New(m)]) == m
  {
    FlattenOne(New(m));
  }

  lemma NothingRedacted(ps: seq<Piece>, regions: seq<Span>, ranges: seq<Span>, marks: seq<Text>)
    requires TakeWhole(ps, regions, ranges) && Keys.Disjoint(regions) && Keys.EndBy(regions, |Flatten(ps)|)
    requires |marks| == |regions|
    ensures Keys.Redacted(Flatten(ps), regions, marks, 0) == [] && Flatten(Upto(ps, ranges, News(marks), 0)) == []
  {
  }

  lemma NextUpto<T>(s: seq<T>, ranges: seq<Span>, fill: seq<T>, i: nat)
    requires Apart(ranges, |s|) && |fill| == |ranges| && i < |ranges|
    ensures GapStart(ranges, i) <= ranges[i].start <= ranges[i].end <= |s|
    ensures Upto(s, ranges, fill, i + 1) == Upto(s, ranges, fill, i) + s[GapStart(ranges, i)..ranges[i].start] + [fill[i]]
  {
  }

  lemma RedactAllPieces(ps: seq<Piece>, regions: seq<Span>, ranges: seq<Span>, marks: seq<Text>)
    requires TakeWhole(ps, regions, ranges) && Keys.Disjoint(regions) && Keys.EndBy(regions, |Flatten(ps)|)
    requires |marks| == |regions|
    ensures Keys.RedactAll(Flatten(ps), regions, marks) == Flatten(Replaced(ps, ranges, News(marks)))
  {
    hide Flatten, At, Keys.Disjoint, Keys.EndBy, Keys.Redacted, Upto;
    var n := |regions|;
    RedactedPieces(ps, regions, ranges, marks, n);
    GapStartAt(ps, regions, ranges, n);
    GapsAreRanges(ranges, |ps|, n);
    var lo := GapStart(ranges, n);
    SliceOfFlat(ps, lo, |ps|);
    WholeIsAll(ps);
    assert ps[lo..|ps|] == ps[lo..];
    FlattenConcat(Upto(ps, ranges, News(marks), n), ps[lo..]);
  }

  lemma WholeIsAll(ps: seq<Piece>)
    ensures At(ps, |ps|) == |Flatten(ps)|
  {
    assert ps[..|ps|] == ps;
  }

  /** Pieces that stand for units still do after the same ranges of both are replaced. */
  lemma {:induction false} UptoStand(ps: seq<Piece>, us: seq<Unit>, markers: seq<Text>, ranges: seq<Span>, marks: seq<Text>, k: nat)
    requires Stand(ps, us, markers) && Apart(ranges, |ps|) && |marks| == |ranges| && k <= |ranges|
    requires forall m :: m in marks ==> NUL !in m
    ensures Stand(Upto(ps, ranges, News(marks), k), Upto(us, ranges, Marks(marks), k), markers)
  {
    hide Apart, Means, Marks, News;
    if k == 0 {
      NothingTaken(ps, ranges, News(marks));
      NothingTaken(us, ranges, Marks(marks));
    } else {
      UptoStand(ps, us, markers, ranges, marks, k - 1);
      NextUpto(ps, ranges, News(marks), k - 1);
      NextUpto(us, ranges, Marks(marks), k - 1);
      var lo, hi := GapStart(ranges, k - 1), ranges[k - 1].start;
      assert marks[k - 1] in marks;
      NewMeans(marks, markers, k - 1);
      hide Upto;
      StandTogether(Upto(ps, ranges, News(marks), k - 1), Upto(us, ranges, Marks(marks), k - 1), ps[lo..hi], us[lo..hi], markers);
      StandTogether(Upto(ps, ranges, News(marks), k - 1) + ps[lo..hi], Upto(us, ranges, Marks(marks), k - 1) + us[lo..hi],
                    [News(marks)[k - 1]], [Marks(marks)[k - 1]], markers);
    }
  }

  lemma NothingTaken<T>(s: seq<T>, ranges: seq<Span>, fill: seq<T>)
    requires Apart(ranges, |s|) && |fill| == |ranges|
    ensures Upto(s, ranges, fill, 0) == []
  {
  }

  lemma NewMeans(marks: seq<Text>, markers: seq<Text>, i: nat)
    requires i < |marks| && NUL !in marks[i]
    ensures Means(News(marks)[i], Marks(marks)[i], markers)
  {
  }

  lemma StandTogether(a: seq<Piece>, x: seq<Unit>, b: seq<Piece>, y: seq<Unit>, markers: seq<Text>)
    requires Stand(a, x, markers) && Stand(b, y, markers)
    ensures Stand(a + b, x + y, markers)
  {
    hide Means;
  }

  lemma ReplacedStand(ps: seq<Piece>, us: seq<Unit>, markers: seq<Text>, ranges: seq<Span>, marks: seq<Text>)
    requires Stand(ps, us, markers) && Apart(ranges, |ps|) && |marks| == |ranges|
    requires forall m :: m in marks ==> NUL !in m
    ensures Stand(Replaced(ps, ranges, News(marks)), Replaced(us, ranges, Marks(marks)), markers)
  {
    hide Upto, Means, Marks, News;
    UptoStand(ps, us, markers, ranges, marks, |ranges|);
    GapsAreRanges(ranges, |ps|, |ranges|);
    var lo := GapStart(ranges, |ranges|);
    StandTogether(Upto(ps, ranges, News(marks), |ranges|), Upto(us, ranges, Marks(marks), |ranges|), ps[lo..], us[lo..], markers);
  }

  /** Redacting whole pieces of a staged text and restoring the markers replaces those units of the
      text, and nothing else. */
  lemma RestoredRedaction(us: seq<Unit>, regions: seq<Span>, ranges: seq<Span>, marks: seq<Text>)
    requires IsNulFree(us) && TakeWhole(PiecesOf(us), regions, ranges) && |marks| == |regions|
    requires Keys.Disjoint(regions) && Keys.EndBy(regions, |Flatten(PiecesOf(us))|)
    requires forall m :: m in marks ==> NUL !in m
    ensures Restore(Keys.RedactAll(Flatten(PiecesOf(us)), regions, marks), MarkersOf(us))
         == Print(Replaced(us, ranges, Marks(marks)))
  {
    hide Flatten, Restore, Keys.RedactAll, Keys.Disjoint, Keys.EndBy, Replaced, Stand, PiecesOf, Print, At, IsNulFree;
    PiecesStand(us);
    RedactAllPieces(PiecesOf(us), regions, ranges, marks);
    ReplacedStand(PiecesOf(us), us, MarkersOf(us), ranges, marks);
    RestoredIsPrinted(Replaced(PiecesOf(us), ranges, News(marks)), Replaced(us, ranges, Marks(marks)), MarkersOf(us));
  }

  // --- One round ---

  /** The texts below have fewer characters and markers than this; a placeholder numbered so high is
      itself a long token. */
  const MAX_UNITS: nat := 1_000_000_000_000_000_000_000_000_000_000_000_000

  /** What the line patterns match begins and ends with a dash, which no placeholder holds; and the
      readers of key lines, from beside a placeholder, stop beside one. */
  ghost predicate ReadsAroundHoles(f: Keys.Finders) {
    && (forall t: Text, s :: s in f.headers(t) || s in f.footers(t) ==>
          s.start < s.end <= |t| && t[s.start] == '-' && t[s.end - 1] == '-')
    && (forall us: seq<Unit>, at: nat :: IsNulFree(us) && BeginsAt(PiecesOf(us), at) ==>
          BeginsAt(PiecesOf(us), f.runEnd(Flatten(PiecesOf(us)), at)))
    && (forall us: seq<Unit>, at: nat :: IsNulFree(us) && BeginsAt(PiecesOf(us), at) ==>
          match f.runStart(Flatten(PiecesOf(us)), at)
          case None => true
          case Some(start) => BeginsAt(PiecesOf(us), start))
  }

  // --- Long tokens never cut a placeholder ---

  /** A place in the text is where a piece begins, or inside a placeholder. */
  lemma {:induction false} PlaceOf(ps: seq<Piece>, x: nat) returns (i: nat)
    requires x < |Flatten(ps)|
    ensures i < |ps| && At(ps, i) <= x < At(ps, i + 1)
  {
    hide Spell;
    var last := |ps| - 1;
    assert ps[..|ps|] == ps;
    if x >= At(ps, last) {
      i := last;
    } else {
      i := PlaceOf(ps[..last], x);
      assert ps[..last][..i] == ps[..i] && ps[..last][..i + 1] == ps[..i + 1];
    }
  }

  lemma PieceAt(ps: seq<Piece>, i: nat)
    requires i < |ps|
    ensures At(ps, i + 1) == At(ps, i) + |Spell(ps[i])| <= |Flatten(ps)|
    ensures Flatten(ps)[At(ps, i)..At(ps, i + 1)] == Spell(ps[i])
  {
    hide Spell, Flatten, At;
    SliceOfFlat(ps, i, i + 1);
    FlattenOne(ps[i]);
    assert ps[i..i + 1] == [ps[i]];
  }

  /** A place where no piece begins is inside a placeholder, whose two ends are no key bytes and lie
      fewer than forty bytes apart. */
  lemma InsideHole(us: seq<Unit>, x: nat) returns (lo: nat, hi: nat)
    requires |us| < MAX_UNITS && x <= |Flatten(PiecesOf(us))| && !BeginsAt(PiecesOf(us), x)
    ensures lo < x <= hi < |Flatten(PiecesOf(us))| && hi - lo <= 40
    ensures Flatten(PiecesOf(us))[lo] == Flatten(PiecesOf(us))[hi] == NUL
    ensures forall k :: lo <= k <= hi ==> Flatten(PiecesOf(us))[k] != '-'
  {
    hide At, Flatten, HoleText, PiecesOf;
    var ps := PiecesOf(us);
    WholeIsAll(ps);
    assert x != |Flatten(ps)|;
    var i := PlaceOf(ps, x);
    PieceAt(ps, i);
    NoNewPieces(us, i);
    HolesAreNumbered(us, i);
    assert At(ps, i) != x && ps[i].Hole?;
    HoleBytes(ps[i].i);
    lo, hi := At(ps, i), At(ps, i + 1) - 1;
    SpelledBytes(Flatten(ps), lo, Spell(ps[i]));
  }

  lemma SpelledBytes(t: Text, lo: nat, w: Text)
    requires lo + |w| <= |t| && t[lo..lo + |w|] == w
    ensures forall k :: lo <= k < lo + |w| ==> t[k] == w[k - lo]
  {
    forall k | lo <= k < lo + |w| ensures t[k] == w[k - lo] { assert t[lo..lo + |w|][k - lo] == w[k - lo]; }
  }

  lemma {:induction false} HolesAreNumbered(us: seq<Unit>, i: nat)
    requires i < |us|
    ensures PiecesOf(us)[i].Hole? ==> PiecesOf(us)[i].i < |us|
  {
    if i < |us| - 1 { HolesAreNumbered(us[..|us| - 1], i); } else { FewMarkers(us[..|us| - 1]); }
  }

  lemma {:induction false} FewMarkers(us: seq<Unit>)
    ensures |MarkersOf(us)| <= |us|
  {
    if us != [] { FewMarkers(us[..|us| - 1]); }
  }

  lemma UnitLimitDigits()
    ensures Pow10(36) == MAX_UNITS
  {
    assert Pow10(4) == 10_000;
    FourMore(4);
    FourMore(8);
    FourMore(12);
    FourMore(16);
    FourMore(20);
    FourMore(24);
    FourMore(28);
    FourMore(32);
  }

  lemma FourMore(k: nat)
    ensures Pow10(k + 4) == 10_000 * Pow10(k)
  {
    assert Pow10(k + 4) == 100 * Pow10(k + 2) && Pow10(k + 2) == 100 * Pow10(k);
  }

  lemma HoleBytes(n: nat)
    requires n < MAX_UNITS
    ensures var w := HoleText(n); |w| <= 41 && w[0] == NUL && w[|w| - 1] == NUL && '-' !in w
  {
    hide Dec;
    UnitLimitDigits();
    DecLength(n, 36);
  }

  /** A placeholder holds a long token if and only if its number has more than 36 digits. */
  lemma HoleHoldsATokenIff(n: nat)
    ensures Keys.IsToken(HoleText(n), Span(1, |HoleText(n)| - 1)) <==> n >= MAX_UNITS
  {
    hide Dec, Keys.IsLong;
    UnitLimitDigits();
    DecLength(n, 36);
    var inner := "CVC" + Dec(n);
    assert HoleText(n)[1..|HoleText(n)| - 1] == inner;
    InnerIsRun(n);
    AllAlphanumeric(inner);
    InnerIsLong(inner);
  }

  lemma InnerIsRun(n: nat)
    ensures Keys.IsRun(HoleText(n), Span(1, |HoleText(n)| - 1))
    ensures forall i :: 0 <= i < 3 + |Dec(n)| ==> Keys.IsAlphanumeric(("CVC" + Dec(n))[i])
  {
    hide Dec;
    forall i | 1 <= i < |HoleText(n)| - 1 ensures HoleText(n)[i] == ("CVC" + Dec(n))[i - 1] { }
  }

  lemma {:induction false} AllAlphanumeric(t: Text)
    requires forall i :: 0 <= i < |t| ==> Keys.IsAlphanumeric(t[i])
    ensures Keys.Alphanumerics(t) == |t|
  {
    if t != [] { AllAlphanumeric(t[..|t| - 1]); }
  }

  lemma InnerIsLong(w: Text)
    requires Keys.Alphanumerics(w) == |w| && |w| > 1 && w[1] == 'V'
    ensures Keys.IsLong(w) <==> |w| >= Keys.FALLBACK_TOKEN_MIN
  {
    assert !Keys.IsHexDigit(w[1]);
  }

  lemma TokenAroundHoles(us: seq<Unit>, s: Span)
    requires |us| < MAX_UNITS && Keys.IsToken(Flatten(PiecesOf(us)), s)
    ensures BeginsAt(PiecesOf(us), s.start) && BeginsAt(PiecesOf(us), s.end)
  {
    hide Flatten, PiecesOf, BeginsAt;
    NulIsNoKeyByte();
    hide Keys.IsKeyByte;
    if !BeginsAt(PiecesOf(us), s.start) {
      var lo, hi := InsideHole(us, s.start);
    }
    if !BeginsAt(PiecesOf(us), s.end) {
      var lo, hi := InsideHole(us, s.end);
    }
  }

  lemma NulIsNoKeyByte()
    ensures !Keys.IsKeyByte(NUL)
  {
  }

  lemma LineAroundHoles(us: seq<Unit>, s: Span)
    requires |us| < MAX_UNITS && s.start < s.end <= |Flatten(PiecesOf(us))|
    requires Flatten(PiecesOf(us))[s.start] == '-' && Flatten(PiecesOf(us))[s.end - 1] == '-'
    ensures BeginsAt(PiecesOf(us), s.start) && BeginsAt(PiecesOf(us), s.end)
  {
    hide Flatten, PiecesOf, BeginsAt;
    if !BeginsAt(PiecesOf(us), s.start) {
      var lo, hi := InsideHole(us, s.start);
    }
    if !BeginsAt(PiecesOf(us), s.end) {
      var lo, hi := InsideHole(us, s.end);
    }
  }

  /** So regions begin and end beside placeholders, never inside one. */
  lemma RegionAroundHoles(f: Keys.Finders, us: seq<Unit>, r: Span)
    requires ReadsAroundHoles(f) && IsNulFree(us) && |us| < MAX_UNITS && Keys.IsRegion(f, Flatten(PiecesOf(us)), r)
    ensures BeginsAt(PiecesOf(us), r.start) && BeginsAt(PiecesOf(us), r.end)
  {
    hide Flatten, PiecesOf, BeginsAt, IsNulFree, Keys.IsToken, Keys.InWindowAfter, Keys.InWindowBefore;
    var t := Flatten(PiecesOf(us));
    if h :| h in f.headers(t) && Keys.HeaderRegion(f, t, h, r) {
      HeaderAroundHoles(f, us, h, r);
    } else {
      var e :| e in f.footers(t) && Keys.FooterRegion(f, t, e, r);
      FooterAroundHoles(f, us, e, r);
    }
  }

  lemma HeaderAroundHoles(f: Keys.Finders, us: seq<Unit>, h: Span, r: Span)
    requires ReadsAroundHoles(f) && IsNulFree(us) && |us| < MAX_UNITS
    requires h in f.headers(Flatten(PiecesOf(us))) && Keys.HeaderRegion(f, Flatten(PiecesOf(us)), h, r)
    ensures BeginsAt(PiecesOf(us), r.start) && BeginsAt(PiecesOf(us), r.end)
  {
    hide Flatten, PiecesOf, BeginsAt, IsNulFree, Keys.IsToken, Keys.InWindowAfter;
    var t := Flatten(PiecesOf(us));
    LineAroundHoles(us, h);
    if f.runEnd(t, h.end) <= h.end {
      var s :| Keys.IsToken(t, s) && Keys.InWindowAfter(s, h.end) && r.end == s.end;
      TokenAroundHoles(us, s);
    }
  }

  lemma FooterAroundHoles(f: Keys.Finders, us: seq<Unit>, e: Span, r: Span)
    requires ReadsAroundHoles(f) && IsNulFree(us) && |us| < MAX_UNITS
    requires e in f.footers(Flatten(PiecesOf(us))) && Keys.FooterRegion(f, Flatten(PiecesOf(us)), e, r)
    ensures BeginsAt(PiecesOf(us), r.start) && BeginsAt(PiecesOf(us), r.end)
  {
    hide Flatten, PiecesOf, BeginsAt, IsNulFree, Keys.IsToken, Keys.InWindowBefore;
    var t := Flatten(PiecesOf(us));
    LineAroundHoles(us, e);
    if f.runStart(t, e.start).None? {
      var s :| Keys.IsToken(t, s) && Keys.InWindowBefore(s, e.start) && r.start == s.start;
      TokenAroundHoles(us, s);
    }
  }

  /** A merged region begins where one of the regions found does, and ends where one does. */
  lemma MergedBounds(f: Keys.Finders, t: Text, merged: seq<Span>, k: nat)
    requires Keys.IsMerge(f, t, merged) && k < |merged|
    ensures exists r :: Keys.IsRegion(f, t, r) && r.start == merged[k].start
    ensures exists r :: Keys.IsRegion(f, t, r) && r.end == merged[k].end
  {
    hide Keys.IsRegion;
    var m := merged[k];
    assert m in merged;
    assert Keys.Covered(merged, m.start) && Keys.Covered(merged, m.end - 1);
    BesideIsFree(merged, k);
    var a :| Keys.IsRegion(f, t, a) && a.start <= m.start < a.end;
    assert a.start < m.start ==> Keys.Covered(merged, m.start - 1);
    var b :| Keys.IsRegion(f, t, b) && b.start <= m.end - 1 < b.end;
    assert b.end > m.end ==> Keys.Covered(merged, m.end);
  }

  lemma BesideIsFree(merged: seq<Span>, k: nat)
    requires Keys.Disjoint(merged) && k < |merged|
    ensures !Keys.Covered(merged, merged[k].start - 1) && !Keys.Covered(merged, merged[k].end)
  {
    forall s | s in merged
      ensures !(s.start <= merged[k].start - 1 < s.end) && !(s.start <= merged[k].end < s.end)
    {
      var j :| 0 <= j < |merged| && merged[j] == s;
    }
  }

  /** A region found in the staged text takes unit `i` of the text. */
  ghost predicate FoundAt(f: Keys.Finders, us: seq<Unit>, i: nat)
    requires i < |us|
  {
    exists r :: Keys.IsRegion(f, Flatten(PiecesOf(us)), r) && r.start <= At(PiecesOf(us), i) < r.end
  }

  ghost predicate InSome(ranges: seq<Span>, i: int) {
    exists k :: 0 <= k < |ranges| && ranges[k].start <= i < ranges[k].end
  }

  datatype Round = Round(ranges: seq<Span>, marks: seq<Text>)

  /** One round over the units: the ranges take exactly the units in regions found, and each becomes
      one new marker. */
  ghost predicate IsRound(f: Keys.Finders, isMarker: MarkerTest, us: seq<Unit>, round: Round) {
    && Apart(round.ranges, |us|) && |round.marks| == |round.ranges| && round.ranges != []
    && (forall k :: 0 <= k < |round.ranges| ==> round.ranges[k].start < round.ranges[k].end)
    && (forall m :: m in round.marks ==> isMarker(m))
    && forall i: nat :: i < |us| ==> (InSome(round.ranges, i) <==> FoundAt(f, us, i))
  }

  lemma TakenIsFound(f: Keys.Finders, us: seq<Unit>, regions: seq<Span>, ranges: seq<Span>, i: nat)
    requires Keys.IsMerge(f, Flatten(PiecesOf(us)), regions) && TakeWhole(PiecesOf(us), regions, ranges) && i < |us|
    ensures InSome(ranges, i) <==> FoundAt(f, us, i)
  {
    hide Keys.IsMerge, Keys.IsRegion, Keys.Covered, Flatten, At, PiecesOf, TakeWhole, InSome, NoneEmpty;
    PiecesNotEmpty(us);
    TakenIsCovered(PiecesOf(us), regions, ranges, i);
    CoveredIsFound(f, Flatten(PiecesOf(us)), regions, At(PiecesOf(us), i));
  }

  lemma CoveredIsFound(f: Keys.Finders, t: Text, regions: seq<Span>, x: int)
    requires Keys.IsMerge(f, t, regions)
    ensures Keys.Covered(regions, x) <==> exists r :: Keys.IsRegion(f, t, r) && r.start <= x < r.end
  {
    hide Keys.IsRegion, Keys.Covered, Keys.Disjoint, Keys.EndBy;
  }

  lemma TakenIsCovered(ps: seq<Piece>, regions: seq<Span>, ranges: seq<Span>, i: nat)
    requires NoneEmpty(ps) && TakeWhole(ps, regions, ranges) && i < |ps|
    ensures InSome(ranges, i) <==> Keys.Covered(regions, At(ps, i))
  {
    hide At, NoneEmpty, Keys.Covered;
    CoveredByIndex(regions, At(ps, i));
    forall k | 0 <= k < |ranges|
      ensures ranges[k].start <= i < ranges[k].end <==> regions[k].start <= At(ps, i) < regions[k].end
    {
      AtKeepsOrder(ps, ranges[k].start, i);
      AtKeepsOrder(ps, ranges[k].end, i);
    }
  }

  lemma CoveredByIndex(regions: seq<Span>, x: int)
    ensures Keys.Covered(regions, x) <==> exists k :: 0 <= k < |regions| && regions[k].start <= x < regions[k].end
  {
    if k :| 0 <= k < |regions| && regions[k].start <= x < regions[k].end { assert regions[k] in regions; }
  }

  lemma AtKeepsOrder(ps: seq<Piece>, a: nat, b: nat)
    requires NoneEmpty(ps) && a <= |ps| && b <= |ps|
    ensures a <= b <==> At(ps, a) <= At(ps, b)
  {
    hide At;
    if a < b { AtRises(ps, a, b); }
    if b < a { AtRises(ps, b, a); }
  }

  ghost predicate MarkersAreNulFree(isMarker: MarkerTest) {
    forall m: Text :: isMarker(m) ==> NUL !in m
  }

  lemma ParsedIsNulFree(isMarker: MarkerTest, t: Text)
    requires MarkersAreBracketed(isMarker) && MarkersAreNulFree(isMarker) && NUL !in t
    ensures IsNulFree(Parse(isMarker, t))
  {
    hide Parse, MarkersAreBracketed, PolicyRules.NoChar, MarkedText.Occurs;
    ParseIsClean(isMarker, t);
    PolicyRules.ParseHasNoChar(isMarker, t, NUL);
  }

  lemma PrintedIsNulFree(us: seq<Unit>)
    requires IsNulFree(us)
    ensures NUL !in Print(us)
  {
    hide Print;
    forall i | 0 <= i < |us| ensures NUL !in PrintUnit(us[i]) { assert us[i] in us; }
    PolicyRules.PrintedIn(us, NUL);
  }

  /** One round that finds something and not too much: it replaces units, and reading the text
      again gives just what is left of them with the new markers. */
  lemma OneRound(f: Keys.Finders, isMarker: MarkerTest, t: Text, mint: nat -> Text, out: Text) returns (round: Round)
    requires MarkersAreBracketed(isMarker) && MarkersAreNulFree(isMarker) && ReadsAroundHoles(f) && NUL !in t
    requires |Parse(isMarker, t)| < MAX_UNITS
    requires Keys.FindRegions(f) && forall k: nat :: isMarker(mint(k))
    requires Keys.IsReplacement(f, Staged(isMarker, t).0, mint, Keys.Replaced(out))
    ensures var us := Parse(isMarker, t);
      && IsRound(f, isMarker, us, round)
      && Parse(isMarker, Restore(out, Staged(isMarker, t).1)) == Replaced(us, round.ranges, Marks(round.marks))
      && NUL !in Restore(out, Staged(isMarker, t).1)
  {
    hide Parse, PiecesOf, MarkersOf, Flatten, Restore, Keys.RedactAll, Keys.IsRegion, Keys.Disjoint, Keys.EndBy, Replaced,
      IsNulFree, MarkersAreBracketed, MarkersAreNulFree, Clean, BeginsAt, Apart, FoundAt, InSome, Print, Marks, ReadsAroundHoles;
    var us := Parse(isMarker, t);
    var ps := PiecesOf(us);
    ParsedIsNulFree(isMarker, t);
    ParseIsClean(isMarker, t);
    var regions := FoundRegions(f, Flatten(ps), mint, out);
    forall r | Keys.IsRegion(f, Flatten(ps), r) ensures BeginsAt(ps, r.start) && BeginsAt(ps, r.end) {
      RegionAroundHoles(f, us, r);
    }
    forall k | 0 <= k < |regions| ensures BeginsAt(ps, regions[k].start) && BeginsAt(ps, regions[k].end) {
      MergedBounds(f, Flatten(ps), regions, k);
    }
    PiecesNotEmpty(us);
    var ranges := WholeRanges(ps, regions);
    var marks := Keys.Marks(mint, |regions|);
    round := Round(ranges, marks);
    forall i: nat | i < |us| ensures InSome(ranges, i) <==> FoundAt(f, us, i) { TakenIsFound(f, us, regions, ranges, i); }
    MintedAreNulFree(isMarker, marks);
    RestoredRedaction(us, regions, ranges, marks);
    MarksAreMarkers(isMarker, marks);
    ReplacedIsClean(isMarker, us, ranges, Marks(marks));
    ParseOfPrint(isMarker, Replaced(us, ranges, Marks(marks)));
    ReplacedIsNulFree(isMarker, us, ranges, marks);
    PrintedIsNulFree(Replaced(us, ranges, Marks(marks)));
  }

  lemma FoundRegions(f: Keys.Finders, t: Text, mint: nat -> Text, out: Text) returns (regions: seq<Span>)
    requires Keys.FindRegions(f) && Keys.IsReplacement(f, t, mint, Keys.Replaced(out))
    ensures Keys.IsMerge(f, t, regions) && regions != []
    ensures out == Keys.RedactAll(t, regions, Keys.Marks(mint, |regions|))
  {
    hide Keys.RedactAll, Keys.Marks, Keys.Disjoint, Keys.EndBy, Keys.IsRegion;
    regions :| Keys.IsMerge(f, t, regions) && Keys.Replaced(out) == Keys.Redaction(f, t, regions, mint);
    if regions == [] { NothingMergedIsNothing(f, t); }
  }

  lemma NothingMergedIsNothing(f: Keys.Finders, t: Text)
    requires Keys.IsMerge(f, t, []) && Keys.FindRegions(f)
    ensures Keys.NothingBeside(f, t)
  {
    forall r ensures !Keys.IsRegion(f, t, r) {
      if Keys.IsRegion(f, t, r) { Keys.RegionsAreSpans(f, t, r); }
      assert Keys.IsRegion(f, t, r) ==> Keys.Covered([], r.start);
    }
  }

  lemma MintedAreNulFree(isMarker: MarkerTest, marks: seq<Text>)
    requires MarkersAreNulFree(isMarker) && forall m :: m in marks ==> isMarker(m)
    ensures forall m :: m in marks ==> NUL !in m
  {
  }

  lemma MarksAreMarkers(isMarker: MarkerTest, marks: seq<Text>)
    requires forall m :: m in marks ==> isMarker(m)
    ensures forall u :: u in Marks(marks) ==> u.Mark? && isMarker(u.marker)
  {
    forall u | u in Marks(marks) ensures u.Mark? && isMarker(u.marker) {
      var i :| 0 <= i < |marks| && Marks(marks)[i] == u;
      assert marks[i] in marks;
    }
  }

  lemma ReplacedIsNulFree(isMarker: MarkerTest, us: seq<Unit>, ranges: seq<Span>, marks: seq<Text>)
    requires MarkersAreNulFree(isMarker) && IsNulFree(us) && Apart(ranges, |us|) && |marks| == |ranges|
    requires Clean(isMarker, Replaced(us, ranges, Marks(marks)))
    ensures IsNulFree(Replaced(us, ranges, Marks(marks)))
  {
    hide Replaced, PolicyRules.NoChar, Marks, MarkedText.Occurs;
    PolicyRules.ReplacedHasNoChar(us, ranges, marks, NUL);
  }

  // --- All rounds ---

  /** Rounds one after the other lead from `us` to `vs`. */
  ghost predicate Lead(f: Keys.Finders, isMarker: MarkerTest, us: seq<Unit>, rounds: seq<Round>, vs: seq<Unit>)
    decreases |rounds|
  {
    if rounds == [] then us == vs
    else
      IsRound(f, isMarker, us, rounds[0])
      && Lead(f, isMarker, Replaced(us, rounds[0].ranges, Marks(rounds[0].marks)), rounds[1..], vs)
  }

  /** A round puts one marker for one unit or more, so the texts do not grow in units. */
  lemma RoundShrinks(f: Keys.Finders, isMarker: MarkerTest, us: seq<Unit>, round: Round)
    requires IsRound(f, isMarker, us, round)
    ensures |Replaced(us, round.ranges, Marks(round.marks))| <= |us|
  {
    hide Upto, Marks, Apart, FoundAt;
    UptoLength(us, round.ranges, Marks(round.marks), |round.ranges|);
    GapsAreRanges(round.ranges, |us|, |round.ranges|);
    MovedBack(round.ranges, |round.ranges|);
  }

  lemma {:induction false} MovedBack(ranges: seq<Span>, k: nat)
    requires k <= |ranges| && forall i :: 0 <= i < |ranges| ==> ranges[i].start < ranges[i].end
    ensures Moved(ranges, k) <= 0
  {
    if k > 0 { MovedBack(ranges, k - 1); }
  }

  /** Settling is rounds over the units of the text: what it returns, read again, is the text with the
      units in the regions found, round after round, replaced by markers. */
  lemma {:induction false} SettledByRounds(f: Keys.Finders, isMarker: MarkerTest, t: Text, mint: (nat, nat) -> Text, n: nat, out: Text)
    returns (rounds: seq<Round>)
    requires MarkersAreBracketed(isMarker) && MarkersAreNulFree(isMarker) && ReadsAroundHoles(f) && Keys.FindRegions(f)
    requires |Parse(isMarker, t)| < MAX_UNITS && NUL !in t && forall i: nat, k: nat :: isMarker(mint(i, k))
    requires n <= Keys.SETTLE_ROUNDS && Keys.SettlesTo(f, MarkerStaging(isMarker), t, mint, n, Keys.Ok(out))
    ensures Lead(f, isMarker, Parse(isMarker, t), rounds, Parse(isMarker, out)) && n + |rounds| < Keys.SETTLE_ROUNDS
    decreases Keys.SETTLE_ROUNDS - n
  {
    hide Parse, Staged, Restore, Keys.IsReplacement, Keys.IsSettled, MarkersAreBracketed, MarkersAreNulFree, ReadsAroundHoles,
      Keys.FindRegions, IsRound, Replaced, Marks;
    var g := MarkerStaging(isMarker);
    rounds := [];
    if !Keys.IsSettled(f, g, t) {
      var staged, m := Staged(isMarker, t), Keys.InRound(mint, n);
      var found :|
        && Keys.IsReplacement(f, staged.0, m, found)
        && (found.TooMany? ==> Keys.Ok(out) == Keys.TooManyMatches)
        && (found.Replaced? ==> Keys.SettlesTo(f, g, Restore(found.text, staged.1), mint, n + 1, Keys.Ok(out)));
      Keys.UnsettledFinds(f, g, t, m, found);
      var round := OneRound(f, isMarker, t, m, found.text);
      RoundShrinks(f, isMarker, Parse(isMarker, t), round);
      var rest := SettledByRounds(f, isMarker, Restore(found.text, staged.1), mint, n + 1, out);
      rounds := [round] + rest;
      assert rounds[1..] == rest;
    }
  }

  // --- Where what is not taken ends up ---

  /** How far the first `k` replacements move what follows them. */
  function Moved(ranges: seq<Span>, k: nat): int
    requires k <= |ranges|
  {
    if k == 0 then 0 else Moved(ranges, k - 1) + 1 - (ranges[k - 1].end - ranges[k - 1].start)
  }

  /** How many ranges end by `i`. */
  function GapOf(ranges: seq<Span>, i: nat): (k: nat)
    ensures k <= |ranges|
  {
    if ranges == [] then 0
    else if ranges[|ranges| - 1].end <= i then |ranges|
    else GapOf(ranges[..|ranges| - 1], i)
  }

  /** The place of unit `i` after one round. */
  function Moves(ranges: seq<Span>, i: nat): int {
    i + Moved(ranges, GapOf(ranges, i))
  }

  lemma {:induction false} InGapOf(ranges: seq<Span>, n: nat, i: nat)
    requires Apart(ranges, n) && i < n && !InSome(ranges, i)
    ensures var k := GapOf(ranges, i); GapStart(ranges, k) <= i < GapEnd(ranges, k, n)
  {
    if ranges != [] {
      var init, last := ranges[..|ranges| - 1], ranges[|ranges| - 1];
      if last.end > i {
        assert !(last.start <= i < last.end);
        assert forall k :: 0 <= k < |init| ==> init[k] == ranges[k];
        InGapOf(init, n, i);
      }
    }
  }

  lemma {:induction false} UptoLength<T>(s: seq<T>, ranges: seq<Span>, fill: seq<T>, k: nat)
    requires Apart(ranges, |s|) && |fill| == |ranges| && k <= |ranges|
    ensures |Upto(s, ranges, fill, k)| == GapStart(ranges, k) + Moved(ranges, k)
  {
    hide Apart;
    if k == 0 {
      NothingTaken(s, ranges, fill);
    } else {
      UptoLength(s, ranges, fill, k - 1);
      NextUpto(s, ranges, fill, k - 1);
    }
  }

  lemma {:induction false} UptoStays<T>(s: seq<T>, ranges: seq<Span>, fill: seq<T>, k: nat, n: nat)
    requires Apart(ranges, |s|) && |fill| == |ranges| && k <= n <= |ranges|
    ensures Upto(s, ranges, fill, k) <= Upto(s, ranges, fill, n)
    decreases n
  {
    hide Upto, Apart;
    if k < n {
      UptoStays(s, ranges, fill, k, n - 1);
      NextUpto(s, ranges, fill, n - 1);
    }
  }

  /** A unit no range takes is kept, moved only by the ranges before it. */
  lemma GapIsKept<T>(s: seq<T>, ranges: seq<Span>, fill: seq<T>, k: nat, i: nat)
    requires Apart(ranges, |s|) && |fill| == |ranges| && k <= |ranges|
    requires GapStart(ranges, k) <= i < GapEnd(ranges, k, |s|)
    ensures var out := Replaced(s, ranges, fill);
      0 <= i + Moved(ranges, k) < |out| && out[i + Moved(ranges, k)] == s[i]
  {
    hide Upto, Apart, Moved;
    var n := |ranges|;
    UptoLength(s, ranges, fill, k);
    GapsAreRanges(ranges, |s|, k);
    GapsAreRanges(ranges, |s|, n);
    if k < n {
      NextUpto(s, ranges, fill, k);
      UptoStays(s, ranges, fill, k + 1, n);
      var a, gap := Upto(s, ranges, fill, k), s[GapStart(ranges, k)..ranges[k].start];
      assert (a + gap + [fill[k]])[|a| + (i - GapStart(ranges, k))] == gap[i - GapStart(ranges, k)];
      assert Upto(s, ranges, fill, k + 1)[|a| + (i - GapStart(ranges, k))] == s[i];
    }
  }

  lemma UnitIsKept<T>(s: seq<T>, ranges: seq<Span>, fill: seq<T>, i: nat)
    requires Apart(ranges, |s|) && |fill| == |ranges| && i < |s| && !InSome(ranges, i)
    ensures var out := Replaced(s, ranges, fill); 0 <= Moves(ranges, i) < |out| && out[Moves(ranges, i)] == s[i]
  {
    hide Replaced, Moved, GapOf, InSome, Apart;
    InGapOf(ranges, |s|, i);
    GapIsKept(s, ranges, fill, GapOf(ranges, i), i);
  }

  lemma {:induction false} GapsMove(ranges: seq<Span>, n: nat, a: nat, b: nat)
    requires Apart(ranges, n) && a <= b <= |ranges|
    ensures GapEnd(ranges, a, n) + Moved(ranges, a) <= (if a < b then GapStart(ranges, b) else GapEnd(ranges, b, n)) + Moved(ranges, b)
    decreases b
  {
    if a < b {
      GapsMove(ranges, n, a, b - 1);
      GapsAreRanges(ranges, n, b - 1);
    }
  }

  lemma GapOfRises(ranges: seq<Span>, n: nat, i: nat, j: nat)
    requires Apart(ranges, n) && i < j < n && !InSome(ranges, i) && !InSome(ranges, j)
    ensures GapOf(ranges, i) <= GapOf(ranges, j)
  {
    hide GapOf, InSome;
    InGapOf(ranges, n, i);
    InGapOf(ranges, n, j);
    var a, b := GapOf(ranges, i), GapOf(ranges, j);
    if b < a { GapsInOrder(ranges, n, b, a); }
  }

  lemma GapsInOrder(ranges: seq<Span>, n: nat, b: nat, a: nat)
    requires Apart(ranges, n) && b < a <= |ranges|
    ensures GapEnd(ranges, b, n) <= GapStart(ranges, a)
  {
    assert ranges[b].start <= ranges[b].end;
    assert b < a - 1 ==> ranges[b].end <= ranges[a - 1].start <= ranges[a - 1].end;
  }

  /** Units that are kept stay in order. */
  lemma OrderIsKept(ranges: seq<Span>, n: nat, i: nat, j: nat)
    requires Apart(ranges, n) && i < j < n && !InSome(ranges, i) && !InSome(ranges, j)
    ensures Moves(ranges, i) < Moves(ranges, j)
  {
    hide GapOf, InSome, Moved, Apart;
    GapOfRises(ranges, n, i, j);
    InGapOf(ranges, n, i);
    InGapOf(ranges, n, j);
    GapsMove(ranges, n, GapOf(ranges, i), GapOf(ranges, j));
  }

  /** Some round takes unit `i`, wherever the rounds before it have moved it. */
  ghost predicate TakenBy(rounds: seq<Round>, i: int)
    decreases |rounds|
  {
    rounds != [] && (i < 0 || InSome(rounds[0].ranges, i) || TakenBy(rounds[1..], Moves(rounds[0].ranges, i)))
  }

  /** Where the rounds leave unit `i`. */
  function Place(rounds: seq<Round>, i: int): int
    decreases |rounds|
  {
    if rounds == [] || i < 0 then i else Place(rounds[1..], Moves(rounds[0].ranges, i))
  }

  /** Over all rounds every unit none of them takes is kept, and two of them stay in order. */
  lemma {:induction false} OutsideIsKept(f: Keys.Finders, isMarker: MarkerTest, us: seq<Unit>, rounds: seq<Round>, vs: seq<Unit>, i: nat)
    requires Lead(f, isMarker, us, rounds, vs) && i < |us| && !TakenBy(rounds, i)
    ensures 0 <= Place(rounds, i) < |vs| && vs[Place(rounds, i)] == us[i]
    ensures forall j: nat :: i < j < |us| && !TakenBy(rounds, j) ==> Place(rounds, i) < Place(rounds, j)
    decreases |rounds|
  {
    hide Replaced, Marks, Moves, InSome, Apart, FoundAt;
    if rounds != [] {
      var round := rounds[0];
      var next := Replaced(us, round.ranges, Marks(round.marks));
      UnitIsKept(us, round.ranges, Marks(round.marks), i);
      OutsideIsKept(f, isMarker, next, rounds[1..], vs, Moves(round.ranges, i));
      forall j: nat | i < j < |us| && !TakenBy(rounds, j) ensures Place(rounds, i) < Place(rounds, j) {
        UnitIsKept(us, round.ranges, Marks(round.marks), j);
        OrderIsKept(round.ranges, |us|, i, j);
      }
    }
  }

  /** And they bring in nothing but markers. */
  lemma {:induction false} OnlyMarkersAreNew(f: Keys.Finders, isMarker: MarkerTest, us: seq<Unit>, rounds: seq<Round>,
                                             vs: seq<Unit>, u: Unit)
    requires Lead(f, isMarker, us, rounds, vs) && u in vs
    ensures u in us || (u.Mark? && isMarker(u.marker))
    decreases |rounds|
  {
    hide Upto, Marks, FoundAt;
    if rounds != [] {
      var round := rounds[0];
      var fill := Marks(round.marks);
      var next := Replaced(us, round.ranges, fill);
      OnlyMarkersAreNew(f, isMarker, next, rounds[1..], vs, u);
      MarksAreMarkers(isMarker, round.marks);
      if u in next {
        if u in Upto(us, round.ranges, fill, |round.ranges|) {
          MarksOfUpto(us, round.ranges, fill, |round.ranges|, u);
        } else {
          assert u in us[GapStart(round.ranges, |round.ranges|)..];
        }
      }
    }
  }
}
