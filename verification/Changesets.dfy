/** The encoding of a tree transition: independent of the order of its records, and exact. */
module Changesets {
  import opened Bytes
  import opened Order
  import opened Encoding

  const ALGORITHM: Text := "cvc.changeset/v1"
  const MAX_CANONICAL_BYTES: nat := 64 * 1024 * 1024

  /** One end of a change. The mode is a 32-bit number; the object id has twenty bytes. */
  datatype Endpoint = Endpoint(present: bool, kind: nat, mode: nat, oid: Text)

  datatype Record = Record(path: Text, status: nat, before: Endpoint, after: Endpoint)

  predicate IsEndpoint(e: Endpoint) {
    e.kind < 256 && e.mode < U32 && |e.oid| == 20
  }

  predicate IsRecord(r: Record) {
    r.status < 256 && |r.path| < U64 && IsEndpoint(r.before) && IsEndpoint(r.after)
  }

  function EndpointBytes(e: Endpoint): (t: Text)
    requires IsEndpoint(e)
    ensures |t| == 26
  {
    [Byte(if e.present then 1 else 0), Byte(e.kind)] + BigEndian(e.mode, 4) + e.oid
  }

  /** The bytes of a record after its path: status and both endpoints. */
  function Rest(r: Record): (t: Text)
    requires IsRecord(r)
    ensures |t| == 53
  {
    [Byte(r.status)] + EndpointBytes(r.before) + EndpointBytes(r.after)
  }

  type Valid = r: Record | IsRecord(r)
    witness Record("", 0, Endpoint(false, 0, 0, "00000000000000000000"), Endpoint(false, 0, 0, "00000000000000000000"))

  /** The derived order of records: by path, then status, then the endpoints field by field. */
  predicate RecordLess(a: Valid, b: Valid) {
    Less(a.path, b.path) || (a.path == b.path && Less(Rest(a), Rest(b)))
  }

  lemma EndpointIsExact(a: Endpoint, b: Endpoint)
    requires IsEndpoint(a) && IsEndpoint(b) && EndpointBytes(a) == EndpointBytes(b)
    ensures a == b
  {
    var x, y := EndpointBytes(a), EndpointBytes(b);
    assert x[0] == y[0] && x[1] == y[1];
    assert x[2..6] == BigEndian(a.mode, 4) && y[2..6] == BigEndian(b.mode, 4);
    assert x[6..] == a.oid && y[6..] == b.oid;
    WordSizes();
    BigEndianIsInjective(a.mode, b.mode, 4);
  }

  lemma RestIsExact(a: Valid, b: Valid)
    requires a.path == b.path && Rest(a) == Rest(b)
    ensures a == b
  {
    hide EndpointBytes;
    var x, y := Rest(a), Rest(b);
    assert x[0] == y[0];
    assert x[1..27] == EndpointBytes(a.before) && y[1..27] == EndpointBytes(b.before);
    assert x[27..] == EndpointBytes(a.after) && y[27..] == EndpointBytes(b.after);
    EndpointIsExact(a.before, b.before);
    EndpointIsExact(a.after, b.after);
  }

  lemma RecordsAreOrdered()
    ensures IsStrictOrder(RecordLess)
  {
    hide Less, Rest, IsRecord;
    TextsAreOrdered();
    forall a: Valid, b: Valid | a != b ensures RecordLess(a, b) || RecordLess(b, a) {
      if a.path == b.path && Rest(a) == Rest(b) { RestIsExact(a, b); }
    }
    forall a: Valid, b: Valid, c: Valid | RecordLess(a, b) && RecordLess(b, c) ensures RecordLess(a, c) {
    }
  }

  function RecordBytes(r: Valid): (t: Text)
    ensures |t| == 9 + |r.path| + 10 + 35 + 35
  {
    Field(3, r.path) + (Field(4, [Byte(r.status)]) + (Field(5, EndpointBytes(r.before)) + Field(6, EndpointBytes(r.after))))
  }

  function RecordsBytes(rs: seq<Valid>): Text {
    if rs == [] then [] else RecordsBytes(rs[..|rs| - 1]) + RecordBytes(rs[|rs| - 1])
  }

  function Header(n: nat): Text {
    Field(1, ALGORITHM) + Field(2, Word(n))
  }

  /** What a changeset's digest hashes. */
  function Material(rs: seq<Valid>): Text {
    Header(|rs|) + RecordsBytes(SortBy(RecordLess, rs))
  }

  lemma RecordComesOff(a: Valid, rest: Text, b: Valid, rest': Text)
    requires RecordBytes(a) + rest == RecordBytes(b) + rest'
    ensures a == b && rest == rest'
  {
    hide Field, EndpointBytes;
    var a4, b4 := Field(6, EndpointBytes(a.after)) + rest, Field(6, EndpointBytes(b.after)) + rest';
    var a3, b3 := Field(5, EndpointBytes(a.before)) + a4, Field(5, EndpointBytes(b.before)) + b4;
    var a2, b2 := Field(4, [Byte(a.status)]) + a3, Field(4, [Byte(b.status)]) + b3;
    assert RecordBytes(a) + rest == Field(3, a.path) + a2;
    assert RecordBytes(b) + rest' == Field(3, b.path) + b2;
    FieldComesOff(3, a.path, a2, b.path, b2);
    FieldComesOff(4, [Byte(a.status)], a3, [Byte(b.status)], b3);
    FieldComesOff(5, EndpointBytes(a.before), a4, EndpointBytes(b.before), b4);
    FieldComesOff(6, EndpointBytes(a.after), rest, EndpointBytes(b.after), rest');
    EndpointIsExact(a.before, b.before);
    EndpointIsExact(a.after, b.after);
    assert [Byte(a.status)][0] == [Byte(b.status)][0];
  }

  lemma {:induction false} FrontComesOff(rs: seq<Valid>)
    requires rs != []
    ensures RecordsBytes(rs) == RecordBytes(rs[0]) + RecordsBytes(rs[1..])
  {
    hide RecordBytes;
    var init := rs[..|rs| - 1];
    if init == [] {
      assert rs[1..] == [];
      assert rs == [rs[0]];
    } else {
      FrontComesOff(init);
      assert rs[1..][..|rs[1..]| - 1] == init[1..];
      assert rs[1..][|rs[1..]| - 1] == rs[|rs| - 1];
    }
  }

  lemma {:induction false} RecordsComeOff(xs: seq<Valid>, ys: seq<Valid>)
    requires |xs| == |ys| && RecordsBytes(xs) == RecordsBytes(ys)
    ensures xs == ys
  {
    hide RecordBytes;
    if xs != [] {
      FrontComesOff(xs);
      FrontComesOff(ys);
      RecordComesOff(xs[0], RecordsBytes(xs[1..]), ys[0], RecordsBytes(ys[1..]));
      RecordsComeOff(xs[1..], ys[1..]);
      assert xs == [xs[0]] + xs[1..] && ys == [ys[0]] + ys[1..];
    }
  }

  lemma HeaderComesOff(n: nat, rest: Text, m: nat, rest': Text)
    requires n < U64 && m < U64 && Header(n) + rest == Header(m) + rest'
    ensures n == m && rest == rest'
  {
    hide Field, Word;
    assert Header(n) + rest == Field(1, ALGORITHM) + (Field(2, Word(n)) + rest);
    assert Header(m) + rest' == Field(1, ALGORITHM) + (Field(2, Word(m)) + rest');
    FieldComesOff(1, ALGORITHM, Field(2, Word(n)) + rest, ALGORITHM, Field(2, Word(m)) + rest');
    FieldComesOff(2, Word(n), rest, Word(m), rest');
    WordIsInjective(n, m);
  }

  /** Two lists of records are encoded alike exactly when they hold the same records, each as often,
      in whatever order they were given. */
  lemma MaterialIsExact(xs: seq<Valid>, ys: seq<Valid>)
    requires |xs| < U64 && |ys| < U64
    ensures Material(xs) == Material(ys) <==> multiset(xs) == multiset(ys)
  {
    hide Header, RecordsBytes, RecordLess;
    RecordsAreOrdered();
    var x, y := SortBy(RecordLess, xs), SortBy(RecordLess, ys);
    SortSorts(RecordLess, xs);
    SortSorts(RecordLess, ys);
    SameElements(xs, x);
    SameElements(ys, y);
    if multiset(xs) == multiset(ys) {
      SameElements(xs, ys);
      SortedIsUnique(RecordLess, x, y);
    }
    if Material(xs) == Material(ys) {
      HeaderComesOff(|xs|, RecordsBytes(x), |ys|, RecordsBytes(y));
      RecordsComeOff(x, y);
    }
  }

  // --- Writing it, with the bound ---

  datatype Written = Written(material: Text, consumed: nat)

  /** One piece goes into the hasher unless it takes the total past the bound. */
  method Put(w: Written, bytes: Text) returns (r: Option<Written>)
    ensures r == if w.consumed + |bytes| > MAX_CANONICAL_BYTES then None
                 else Some(Written(w.material + bytes, w.consumed + |bytes|))
  {
    var consumed := w.consumed + |bytes|;
    if consumed > MAX_CANONICAL_BYTES { return None; }
    r := Some(Written(w.material + bytes, consumed));
  }

  ghost predicate Counts(w: Written) {
    w.consumed == |w.material| <= MAX_CANONICAL_BYTES
  }

  method PutField(w: Written, tag: nat, bytes: Text) returns (r: Option<Written>)
    requires tag < 256 && Counts(w)
    ensures r == if |w.material + Field(tag, bytes)| > MAX_CANONICAL_BYTES then None
                 else Some(Written(w.material + Field(tag, bytes), |w.material + Field(tag, bytes)|))
  {
    r := Put(w, [Byte(tag)]);
    if r.None? { return; }
    r := Put(r.value, Word(|bytes|));
    if r.None? { return; }
    r := Put(r.value, bytes);
    assert w.material + [Byte(tag)] + Word(|bytes|) + bytes == w.material + Field(tag, bytes);
  }

  /** What a writer holds after `text`, when that is within the bound. */
  function After(text: Text): Option<Written> {
    if |text| > MAX_CANONICAL_BYTES then None else Some(Written(text, |text|))
  }

  lemma Concat(a: Text, b: Text, c: Text)
    ensures a + b + c == a + (b + c)
  {
  }

  method PutRecord(w: Written, r: Valid) returns (out: Option<Written>)
    requires Counts(w)
    ensures out == After(w.material + RecordBytes(r))
  {
    hide Field, EndpointBytes;
    var m := w.material;
    var f3, f4 := Field(3, r.path), Field(4, [Byte(r.status)]);
    var f5, f6 := Field(5, EndpointBytes(r.before)), Field(6, EndpointBytes(r.after));
    assert m + RecordBytes(r) == m + f3 + f4 + f5 + f6;
    out := PutField(w, 3, r.path);
    if out.None? { return; }
    out := PutField(out.value, 4, [Byte(r.status)]);
    if out.None? { return; }
    out := PutField(out.value, 5, EndpointBytes(r.before));
    if out.None? { return; }
    out := PutField(out.value, 6, EndpointBytes(r.after));
  }

  lemma {:induction false} PrefixIsShorter(rs: seq<Valid>, i: nat)
    requires i <= |rs|
    ensures |RecordsBytes(rs[..i])| <= |RecordsBytes(rs)|
    decreases |rs|
  {
    hide RecordBytes;
    if i == |rs| {
      assert rs[..i] == rs;
    } else {
      PrefixIsShorter(rs[..|rs| - 1], i);
      assert rs[..|rs| - 1][..i] == rs[..i];
    }
  }

  method PutRecords(head: Written, rs: seq<Valid>) returns (r: Option<Written>)
    requires Counts(head)
    ensures r == After(head.material + RecordsBytes(rs))
  {
    hide RecordBytes;
    var w := head;
    assert rs[..0] == [] && head.material + [] == head.material;
    for i := 0 to |rs|
      invariant Some(w) == After(head.material + RecordsBytes(rs[..i]))
    {
      assert rs[..i + 1][..i] == rs[..i];
      Concat(head.material, RecordsBytes(rs[..i]), RecordBytes(rs[i]));
      var next := PutRecord(w, rs[i]);
      if next.None? {
        PrefixIsShorter(rs, i + 1);
        return None;
      }
      w := next.value;
    }
    assert rs[..|rs|] == rs;
    r := Some(w);
  }

  /** The material and its true length, or nothing when that is over the bound. */
  method Identify(records: seq<Valid>) returns (r: Option<Written>)
    ensures r == if |Material(records)| > 64 * 1024 * 1024 then None
                 else Some(Written(Material(records), |Material(records)|))
  {
    hide RecordBytes, RecordsBytes, RecordLess, Header;
    var sorted := SortBy(RecordLess, records);
    RecordsAreOrdered();
    SortSorts(RecordLess, records);
    SameElements(sorted, records);
    var w := PutHeader(|sorted|);
    r := PutRecords(w, sorted);
  }

  method PutHeader(n: nat) returns (w: Written)
    ensures Some(w) == After(Header(n))
  {
    hide Field;
    var first := PutField(Written([], 0), 1, ALGORITHM);
    assert [] + Field(1, ALGORITHM) == Field(1, ALGORITHM);
    assert |Field(1, ALGORITHM)| == 25 && |Field(2, Word(n))| == 17;
    var second := PutField(first.value, 2, Word(n));
    w := second.value;
  }
}
