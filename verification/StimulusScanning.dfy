/** Which parts of a stimulus are scanned, and which are withheld: told from their lengths and the scrubber alone. */
module StimulusScanning {
  import opened Bytes
  import opened StimulusFormat
  import opened StimulusWriter

  /** Prompts and tasks are scrubbed in the first turn, everything else in the second. */
  function Turn(kind: PartKind): nat {
    match kind
    case Prompt => 0
    case Task => 0
    case _ => 1
  }

  /** Part `j` is scrubbed before part `i`. */
  predicate ComesBefore(parts: seq<StimulusPart>, j: nat, i: nat)
    requires i < |parts| && j < |parts|
  {
    Turn(parts[j].kind) < Turn(parts[i].kind) || (Turn(parts[j].kind) == Turn(parts[i].kind) && j < i)
  }

  /** The bytes of those of the first `n` parts that are scanned, and scrubbed before part `i`. */
  function ScannedBefore(parts: seq<StimulusPart>, scanned: set<nat>, i: nat, n: nat): nat
    requires i < |parts| && n <= |parts|
  {
    if n == 0 then 0
    else
      ScannedBefore(parts, scanned, i, n - 1)
      + (if n - 1 in scanned && ComesBefore(parts, n - 1, i) then |parts[n - 1].text| else 0)
  }

  /** Part `i` is no longer than what the parts scanned before it leave of 8 MiB. */
  predicate FitsLeft(parts: seq<StimulusPart>, scanned: set<nat>, i: nat)
    requires i < |parts|
  {
    |parts[i].text| + ScannedBefore(parts, scanned, i, |parts|) <= 8 * 1024 * 1024
  }

  /** `scanned` are the parts that are scanned: each that fits and is not rejected unread. */
  ghost predicate AreScanned(parts: seq<StimulusPart>, scrub: Scrub, scanned: set<nat>) {
    && (forall i <- scanned :: i < |parts|)
    && forall i :: 0 <= i < |parts| ==> (i in scanned <==> scrub(parts[i].text) != TooLarge && FitsLeft(parts, scanned, i))
  }

  // ---- there is one such set ----

  lemma {:induction false} SameBefore(parts: seq<StimulusPart>, a: set<nat>, b: set<nat>, i: nat, n: nat)
    requires i < |parts| && n <= |parts|
    requires forall j :: 0 <= j < n && ComesBefore(parts, j, i) ==> (j in a <==> j in b)
    ensures ScannedBefore(parts, a, i, n) == ScannedBefore(parts, b, i, n)
  {
    hide ComesBefore;
    if n > 0 { SameBefore(parts, a, b, i, n - 1); }
  }

  lemma {:induction false} ScannedOrNot(parts: seq<StimulusPart>, scrub: Scrub, a: set<nat>, b: set<nat>, i: nat)
    requires AreScanned(parts, scrub, a) && AreScanned(parts, scrub, b) && i < |parts|
    ensures i in a <==> i in b
    decreases Turn(parts[i].kind), i
  {
    hide ScannedBefore;
    forall j | 0 <= j < |parts| && ComesBefore(parts, j, i) ensures j in a <==> j in b {
      ScannedOrNot(parts, scrub, a, b, j);
    }
    SameBefore(parts, a, b, i, |parts|);
  }

  /** The parts that are scanned are determined by the texts, their kinds and the scrubber. */
  lemma ScannedIsUnique(parts: seq<StimulusPart>, scrub: Scrub, a: set<nat>, b: set<nat>)
    requires AreScanned(parts, scrub, a) && AreScanned(parts, scrub, b)
    ensures a == b
  {
    hide FitsLeft;
    forall i: nat | i in a || i in b ensures i in a && i in b {
      ScannedOrNot(parts, scrub, a, b, i);
    }
  }

  // ---- and the writer scans it ----

  function IsScanned(parts: seq<StimulusPart>, scrub: Scrub, i: nat): bool
    requires i < |parts|
  {
    |parts[i].text| <= BudgetFor(parts, scrub, i) && scrub(parts[i].text) != TooLarge
  }

  ghost function ScannedBy(parts: seq<StimulusPart>, scrub: Scrub): set<nat> {
    set i: nat | i < |parts| && IsScanned(parts, scrub, i)
  }

  function Start(parts: seq<StimulusPart>, scrub: Scrub, person: bool): nat {
    if person then MAX_SCRUBBED_BYTES else Left(parts, scrub, true, MAX_SCRUBBED_BYTES)
  }

  /** The bytes of those of the first `n` parts that are scanned, and are (or are not) a person's. */
  function ScannedOf(parts: seq<StimulusPart>, scanned: set<nat>, person: bool, n: nat): nat
    requires n <= |parts|
  {
    if n == 0 then 0
    else
      ScannedOf(parts, scanned, person, n - 1)
      + (if n - 1 in scanned && IsPerson(parts[n - 1]) == person then |parts[n - 1].text| else 0)
  }

  lemma {:induction false} LeftIs(parts: seq<StimulusPart>, scrub: Scrub, person: bool, n: nat)
    requires n <= |parts|
    ensures var start := Start(parts, scrub, person);
            Left(parts[..n], scrub, person, start) + ScannedOf(parts, ScannedBy(parts, scrub), person, n) == start
  {
    hide IsPerson, ScannedBy, Start, Left, ScannedOf;
    if n == 0 {
      NothingScanned(parts, scrub, person);
    } else {
      LeftIs(parts, scrub, person, n - 1);
      LeftStep(parts, scrub, person, n - 1);
      ScannedStep(parts, ScannedBy(parts, scrub), person, n);
    }
  }

  lemma NothingScanned(parts: seq<StimulusPart>, scrub: Scrub, person: bool)
    ensures var start := Start(parts, scrub, person);
            Left(parts[..0], scrub, person, start) + ScannedOf(parts, ScannedBy(parts, scrub), person, 0) == start
  {
    hide ScannedBy, Start;
  }

  lemma ScannedStep(parts: seq<StimulusPart>, scanned: set<nat>, person: bool, n: nat)
    requires 0 < n <= |parts|
    ensures ScannedOf(parts, scanned, person, n)
         == ScannedOf(parts, scanned, person, n - 1)
            + (if n - 1 in scanned && IsPerson(parts[n - 1]) == person then |parts[n - 1].text| else 0)
  {
    hide IsPerson;
  }

  lemma LeftStep(parts: seq<StimulusPart>, scrub: Scrub, person: bool, i: nat)
    requires i < |parts|
    ensures var start := Start(parts, scrub, person);
            var cost := if i in ScannedBy(parts, scrub) && IsPerson(parts[i]) == person then |parts[i].text| else 0;
            Left(parts[..i + 1], scrub, person, start) + cost == Left(parts[..i], scrub, person, start)
  {
    hide IsPerson;
    assert parts[..i + 1][..i] == parts[..i];
  }

  lemma {:induction false} BeforePerson(parts: seq<StimulusPart>, scanned: set<nat>, i: nat, n: nat)
    requires i < |parts| && n <= |parts| && IsPerson(parts[i])
    ensures ScannedBefore(parts, scanned, i, n) == ScannedOf(parts, scanned, true, if n <= i then n else i)
  {
    if n > 0 { BeforePerson(parts, scanned, i, n - 1); }
  }

  lemma {:induction false} BeforeOther(parts: seq<StimulusPart>, scanned: set<nat>, i: nat, n: nat)
    requires i < |parts| && n <= |parts| && !IsPerson(parts[i])
    ensures ScannedBefore(parts, scanned, i, n)
         == ScannedOf(parts, scanned, true, n) + ScannedOf(parts, scanned, false, if n <= i then n else i)
  {
    if n > 0 { BeforeOther(parts, scanned, i, n - 1); }
  }

  /** What is left for part `i` is 8 MiB without the parts scanned before it. */
  lemma BudgetIsLeft(parts: seq<StimulusPart>, scrub: Scrub, i: nat)
    requires i < |parts|
    ensures BudgetFor(parts, scrub, i) + ScannedBefore(parts, ScannedBy(parts, scrub), i, |parts|) == 8 * 1024 * 1024
  {
    hide Left, ScannedBefore, ScannedOf, IsPerson, ScannedBy;
    var scanned := ScannedBy(parts, scrub);
    if IsPerson(parts[i]) {
      BeforePerson(parts, scanned, i, |parts|);
      LeftIs(parts, scrub, true, i);
    } else {
      BeforeOther(parts, scanned, i, |parts|);
      LeftIs(parts, scrub, true, |parts|);
      assert parts[..|parts|] == parts;
      LeftIs(parts, scrub, false, i);
    }
  }

  lemma ScannedExists(parts: seq<StimulusPart>, scrub: Scrub)
    ensures AreScanned(parts, scrub, ScannedBy(parts, scrub))
  {
    hide ScannedBefore, BudgetFor;
    forall i | 0 <= i < |parts|
      ensures i in ScannedBy(parts, scrub) <==>
                scrub(parts[i].text) != TooLarge && FitsLeft(parts, ScannedBy(parts, scrub), i)
    {
      BudgetIsLeft(parts, scrub, i);
    }
  }

  /** A part keeps a body, what the scrubber lets through, exactly when its text fits what is left and scrubs clean. */
  lemma PreparedExactly(parts: seq<StimulusPart>, scrub: Scrub, scanned: set<nat>, i: nat)
    requires AreScanned(parts, scrub, scanned) && i < |parts|
    ensures var body := PreparedParts(parts, scrub)[i].body;
            && (body.Some? <==> FitsLeft(parts, scanned, i) && scrub(parts[i].text).Clean?)
            && (body.Some? ==> scrub(parts[i].text) == Clean(body.value))
  {
    hide ScannedBefore, BudgetFor, AreScanned;
    ScannedExists(parts, scrub);
    ScannedIsUnique(parts, scrub, scanned, ScannedBy(parts, scrub));
    BudgetIsLeft(parts, scrub, i);
  }

  // ---- within the limit nothing is withheld for its length ----

  function TotalLength(parts: seq<StimulusPart>): nat {
    if |parts| == 0 then 0 else TotalLength(parts[..|parts| - 1]) + |parts[|parts| - 1].text|
  }

  lemma {:induction false} BeforeIsPart(parts: seq<StimulusPart>, scanned: set<nat>, i: nat, n: nat)
    requires i < |parts| && n <= |parts|
    ensures ScannedBefore(parts, scanned, i, n) + (if i < n then |parts[i].text| else 0) <= TotalLength(parts[..n])
  {
    if n > 0 {
      BeforeIsPart(parts, scanned, i, n - 1);
      assert parts[..n][..n - 1] == parts[..n - 1];
    }
  }

  /** Parts of at most 8 MiB together all fit. */
  lemma AllFit(parts: seq<StimulusPart>, scanned: set<nat>, i: nat)
    requires i < |parts| && TotalLength(parts) <= 8 * 1024 * 1024
    ensures FitsLeft(parts, scanned, i)
  {
    hide ScannedBefore, TotalLength;
    BeforeIsPart(parts, scanned, i, |parts|);
    assert parts[..|parts|] == parts;
  }
}
