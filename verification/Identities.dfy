/** The canonical encodings derivation events and range evidence are identified by. */
module Identities {
  import opened Bytes
  import opened Order
  import opened Encoding

  datatype Relation = Generated | Temporal | Verified | RewriteExact | SquashExact

  datatype EvidenceKind = LocallyObserved | ImportedLegacy | RemoteAssertion

  datatype Origin = LocalHook | LocalLinker | FromRemote | LegacyImport

  datatype DerivationEvent = DerivationEvent(
    id: Text, interaction: Text, target: Text, relation: Relation, version: nat, kind: EvidenceKind,
    origin: Origin, sources: seq<Text>, oldOid: Option<Text>, newOid: Option<Text>, range: Option<Text>,
    linkedBy: Option<Text>)

  function RelationName(r: Relation): Text {
    match r
    case Generated => "generated"
    case Temporal => "temporal"
    case Verified => "verified"
    case RewriteExact => "rewrite_exact"
    case SquashExact => "squash_exact"
  }

  function KindName(k: EvidenceKind): Text {
    match k
    case LocallyObserved => "locally_observed"
    case ImportedLegacy => "imported_legacy"
    case RemoteAssertion => "remote_assertion"
  }

  function OriginName(o: Origin): Text {
    match o
    case LocalHook => "local_hook"
    case LocalLinker => "local_linker"
    case FromRemote => "remote_assertion"
    case LegacyImport => "legacy_import"
  }

  lemma RelationsDiffer(a: Relation, b: Relation)
    ensures RelationName(a) == RelationName(b) ==> a == b
  {
    assert RelationName(a)[0] == RelationName(b)[0] ==> a == b;
  }

  lemma KindsDiffer(a: EvidenceKind, b: EvidenceKind)
    ensures KindName(a) == KindName(b) ==> a == b
  {
    assert KindName(a)[0] == KindName(b)[0] ==> a == b;
  }

  lemma OriginsDiffer(a: Origin, b: Origin)
    ensures OriginName(a) == OriginName(b) ==> a == b
  {
    assert |OriginName(a)| == |OriginName(b)| ==> a == b;
  }

  const EVENT_DOMAIN: Text := "cvc.derivation-event/canonical/v2\0"

  /** What the identity of an event hashes: every field but the identity itself. */
  function EventEncoding(e: DerivationEvent): Text {
    EVENT_DOMAIN + (Field(1, e.interaction) + (Field(2, e.target) + (Field(3, RelationName(e.relation))
    + (Field(4, Dec(e.version)) + (Field(5, KindName(e.kind)) + (Field(6, OriginName(e.origin))
    + EventLinks(e)))))))
  }

  function EventLinks(e: DerivationEvent): Text {
    Counted(7, 8, Canonical(e.sources))
    + (Optional(9, e.oldOid) + (Optional(10, e.newOid) + (Optional(11, e.range) + (Optional(12, e.linkedBy) + []))))
  }

  predicate Short(value: Option<Text>) {
    value.Some? ==> |value.value| < U64
  }

  /** Every length and count of the event is one a 64-bit machine can hold. */
  ghost predicate EventFits(e: DerivationEvent) {
    && |e.interaction| < U64 && |e.target| < U64 && |Dec(e.version)| < U64 && Fit(e.sources)
    && Short(e.oldOid) && Short(e.newOid) && Short(e.range) && Short(e.linkedBy)
  }

  lemma CanonicalFits(s: seq<Text>)
    requires Fit(s)
    ensures Fit(Canonical(s))
  {
    CanonicalIsSet(s);
    TextsAreOrdered();
    SortSorts(Less, s);
    SameElements(SortBy(Less, s), s);
    DedupIsShorter(SortBy(Less, s));
    forall i | 0 <= i < |Canonical(s)| ensures |Canonical(s)[i]| < U64 {
      assert Canonical(s)[i] in Canonical(s);
    }
  }

  lemma {:induction false} DedupIsShorter(s: seq<Text>)
    ensures |Dedup(s)| <= |s|
  {
    if |s| > 1 { DedupIsShorter(s[..|s| - 1]); }
  }

  lemma LinksComeOff(a: DerivationEvent, b: DerivationEvent)
    requires EventFits(a) && EventFits(b) && EventLinks(a) == EventLinks(b)
    ensures Canonical(a.sources) == Canonical(b.sources)
    ensures a.oldOid == b.oldOid && a.newOid == b.newOid && a.range == b.range && a.linkedBy == b.linkedBy
  {
    hide Counted, Optional, Canonical;
    CanonicalFits(a.sources);
    CanonicalFits(b.sources);
    var a4, b4 := Optional(12, a.linkedBy) + [], Optional(12, b.linkedBy) + [];
    var a3, b3 := Optional(11, a.range) + a4, Optional(11, b.range) + b4;
    var a2, b2 := Optional(10, a.newOid) + a3, Optional(10, b.newOid) + b3;
    CountedComesOff(7, 8, Canonical(a.sources), Optional(9, a.oldOid) + a2, Canonical(b.sources), Optional(9, b.oldOid) + b2);
    OptionalComesOff(9, a.oldOid, a2, b.oldOid, b2);
    OptionalComesOff(10, a.newOid, a3, b.newOid, b3);
    OptionalComesOff(11, a.range, a4, b.range, b4);
    OptionalComesOff(12, a.linkedBy, [], b.linkedBy, []);
  }

  /** Two events are encoded alike exactly when they agree on every field but the identity, their
      sources taken as sets. */
  lemma EventEncodingIsExact(a: DerivationEvent, b: DerivationEvent)
    requires EventFits(a) && EventFits(b)
    ensures EventEncoding(a) == EventEncoding(b) <==>
      a.(id := b.id, sources := b.sources) == b && forall s :: s in a.sources <==> s in b.sources
  {
    hide Field, EventLinks, Canonical, RelationName, KindName, OriginName, Dec;
    CanonicalIffSameSet(a.sources, b.sources);
    if EventEncoding(a) == EventEncoding(b) {
      HeadComesOff(a, b);
      LinksComeOff(a, b);
    }
    if a.(id := b.id, sources := b.sources) == b && forall s :: s in a.sources <==> s in b.sources {
      SameLinks(a, b);
    }
  }

  lemma SameLinks(a: DerivationEvent, b: DerivationEvent)
    requires a.(id := b.id, sources := b.sources) == b && Canonical(a.sources) == Canonical(b.sources)
    ensures EventLinks(a) == EventLinks(b)
  {
  }

  lemma NamesAreShort(r: Relation, k: EvidenceKind, o: Origin)
    ensures |RelationName(r)| < U64 && |KindName(k)| < U64 && |OriginName(o)| < U64
  {
  }

  lemma HeadComesOff(a: DerivationEvent, b: DerivationEvent)
    requires EventFits(a) && EventFits(b) && EventEncoding(a) == EventEncoding(b)
    ensures a.interaction == b.interaction && a.target == b.target && a.relation == b.relation
    ensures a.version == b.version && a.kind == b.kind && a.origin == b.origin && EventLinks(a) == EventLinks(b)
  {
    hide Field, EventLinks, RelationName, KindName, OriginName, Dec;
    NamesAreShort(a.relation, a.kind, a.origin);
    NamesAreShort(b.relation, b.kind, b.origin);
    var a6, b6 := Field(6, OriginName(a.origin)) + EventLinks(a), Field(6, OriginName(b.origin)) + EventLinks(b);
    var a5, b5 := Field(5, KindName(a.kind)) + a6, Field(5, KindName(b.kind)) + b6;
    var a4, b4 := Field(4, Dec(a.version)) + a5, Field(4, Dec(b.version)) + b5;
    var a3, b3 := Field(3, RelationName(a.relation)) + a4, Field(3, RelationName(b.relation)) + b4;
    var a2, b2 := Field(2, a.target) + a3, Field(2, b.target) + b3;
    SplitAt(EVENT_DOMAIN, Field(1, a.interaction) + a2, EVENT_DOMAIN, Field(1, b.interaction) + b2);
    FieldComesOff(1, a.interaction, a2, b.interaction, b2);
    FieldComesOff(2, a.target, a3, b.target, b3);
    FieldComesOff(3, RelationName(a.relation), a4, RelationName(b.relation), b4);
    FieldComesOff(4, Dec(a.version), a5, Dec(b.version), b5);
    FieldComesOff(5, KindName(a.kind), a6, KindName(b.kind), b6);
    FieldComesOff(6, OriginName(a.origin), EventLinks(a), OriginName(b.origin), EventLinks(b));
    RelationsDiffer(a.relation, b.relation);
    KindsDiffer(a.kind, b.kind);
    OriginsDiffer(a.origin, b.origin);
    ParseOfDec(a.version);
    ParseOfDec(b.version);
  }

  datatype RangeEvidence = RangeEvidence(
    id: Text, format: Text, version: nat, repository: Text, objectFormat: Text, base: Text, tip: Text,
    baseTree: Text, resultTree: Text, algorithm: Text, digest: Text, commits: seq<Text>)

  const RANGE_DOMAIN: Text := "cvc.range-evidence/canonical/v1\0"

  /** The ten texts of a range, in the order of their tags. */
  function RangeTexts(r: RangeEvidence): (s: seq<Text>)
    ensures |s| == 10
  {
    [r.format, Dec(r.version), r.repository, r.objectFormat, r.base, r.tip, r.baseTree, r.resultTree,
     r.algorithm, r.digest]
  }

  /** Each value under the next tag. */
  function Tagged(first: nat, values: seq<Text>): Text
    requires first + |values| <= 256
    decreases |values|
  {
    if values == [] then [] else Field(first, values[0]) + Tagged(first + 1, values[1..])
  }

  function RangeEncoding(r: RangeEvidence): Text {
    RANGE_DOMAIN + (Tagged(1, RangeTexts(r)) + Counted(11, 12, r.commits))
  }

  ghost predicate RangeFits(r: RangeEvidence) {
    Fit(RangeTexts(r)) && Fit(r.commits)
  }

  lemma {:induction false} TaggedComesOff(first: nat, values: seq<Text>, rest: Text, values': seq<Text>, rest': Text)
    requires first + |values| <= 256 && |values| == |values'| && Fit(values) && Fit(values')
    requires Tagged(first, values) + rest == Tagged(first, values') + rest'
    ensures values == values' && rest == rest'
    decreases |values|
  {
    hide Field;
    if values == [] {
      SplitAt([], rest, [], rest');
    } else {
      var a, b := Tagged(first + 1, values[1..]) + rest, Tagged(first + 1, values'[1..]) + rest';
      assert Tagged(first, values) + rest == Field(first, values[0]) + a;
      assert Tagged(first, values') + rest' == Field(first, values'[0]) + b;
      FieldComesOff(first, values[0], a, values'[0], b);
      TaggedComesOff(first + 1, values[1..], rest, values'[1..], rest');
      assert values == [values[0]] + values[1..] && values' == [values'[0]] + values'[1..];
    }
  }

  /** Two ranges are encoded alike exactly when they agree on every field but the identity: also
      on the order of their commits, and on format and version. */
  lemma RangeEncodingIsExact(a: RangeEvidence, b: RangeEvidence)
    requires RangeFits(a) && RangeFits(b)
    ensures RangeEncoding(a) == RangeEncoding(b) <==> a.(id := b.id) == b
  {
    if RangeEncoding(a) == RangeEncoding(b) {
      RangeComesOff(a, b);
    } else {
      assert RangeTexts(a) != RangeTexts(b) || a.commits != b.commits;
    }
  }

  lemma RangeComesOff(a: RangeEvidence, b: RangeEvidence)
    requires RangeFits(a) && RangeFits(b) && RangeEncoding(a) == RangeEncoding(b)
    ensures a.(id := b.id) == b
  {
    hide Tagged, Counted, RangeTexts, Dec;
    var x, y := RangeTexts(a), RangeTexts(b);
    SplitAt(RANGE_DOMAIN, Tagged(1, x) + Counted(11, 12, a.commits), RANGE_DOMAIN, Tagged(1, y) + Counted(11, 12, b.commits));
    TaggedComesOff(1, x, Counted(11, 12, a.commits), y, Counted(11, 12, b.commits));
    CommitsComeOff(a, b);
    SameTexts(a, b);
  }

  lemma CommitsComeOff(a: RangeEvidence, b: RangeEvidence)
    requires Fit(a.commits) && Fit(b.commits) && Counted(11, 12, a.commits) == Counted(11, 12, b.commits)
    ensures a.commits == b.commits
  {
    hide Counted;
    assert Counted(11, 12, a.commits) + [] == Counted(11, 12, b.commits) + [];
    CountedComesOff(11, 12, a.commits, [], b.commits, []);
  }

  lemma SameTexts(a: RangeEvidence, b: RangeEvidence)
    requires RangeTexts(a) == RangeTexts(b) && a.commits == b.commits
    ensures a.(id := b.id) == b
  {
    var x, y := RangeTexts(a), RangeTexts(b);
    assert forall i :: 0 <= i < 10 ==> x[i] == y[i];
    assert x[0] == y[0] && x[1] == y[1] && x[2] == y[2] && x[3] == y[3] && x[4] == y[4];
    ParseOfDec(a.version);
    ParseOfDec(b.version);
  }
}
