/** Sorting: texts in byte order, sorted lists as canonical forms of sets and multisets. */
module Order {
  import opened Bytes

  /** The lexicographic order of byte strings. */
  predicate Less(a: Text, b: Text) {
    b != [] && (a == [] || a[0] < b[0] || (a[0] == b[0] && Less(a[1..], b[1..])))
  }

  ghost predicate IsStrictOrder<T(!new)>(less: (T, T) -> bool) {
    && (forall a :: !less(a, a))
    && (forall a, b, c :: less(a, b) && less(b, c) ==> less(a, c))
    && (forall a, b :: a != b ==> less(a, b) || less(b, a))
  }

  lemma {:induction false} LessIsIrreflexive(a: Text)
    ensures !Less(a, a)
  {
    if a != [] { LessIsIrreflexive(a[1..]); }
  }

  lemma {:induction false} LessIsTransitive(a: Text, b: Text, c: Text)
    requires Less(a, b) && Less(b, c)
    ensures Less(a, c)
  {
    if a != [] && a[0] == b[0] && b[0] == c[0] { LessIsTransitive(a[1..], b[1..], c[1..]); }
  }

  lemma {:induction false} LessIsTotal(a: Text, b: Text)
    requires a != b
    ensures Less(a, b) || Less(b, a)
  {
    if a != [] && b != [] && a[0] == b[0] {
      assert a == [a[0]] + a[1..] && b == [b[0]] + b[1..];
      LessIsTotal(a[1..], b[1..]);
    }
  }

  lemma TextsAreOrdered()
    ensures IsStrictOrder(Less)
  {
    forall a: Text ensures !Less(a, a) { LessIsIrreflexive(a); }
    forall a: Text, b: Text, c: Text | Less(a, b) && Less(b, c) ensures Less(a, c) { LessIsTransitive(a, b, c); }
    forall a: Text, b: Text | a != b ensures Less(a, b) || Less(b, a) { LessIsTotal(a, b); }
  }

  function InsertBy<T>(less: (T, T) -> bool, s: seq<T>, x: T): seq<T> {
    if s == [] then [x]
    else if less(x, s[0]) then [x] + s
    else [s[0]] + InsertBy(less, s[1..], x)
  }

  function SortBy<T>(less: (T, T) -> bool, s: seq<T>): seq<T> {
    if s == [] then [] else InsertBy(less, SortBy(less, s[..|s| - 1]), s[|s| - 1])
  }

  ghost predicate SortedBy<T>(less: (T, T) -> bool, s: seq<T>) {
    forall i, j :: 0 <= i < j < |s| ==> !less(s[j], s[i])
  }

  /** Strictly ascending: sorted, and nothing twice. */
  ghost predicate Ascending<T>(less: (T, T) -> bool, s: seq<T>) {
    forall i, j :: 0 <= i < j < |s| ==> less(s[i], s[j])
  }

  lemma {:induction false} InsertAddsOne<T>(less: (T, T) -> bool, s: seq<T>, x: T)
    ensures multiset(InsertBy(less, s, x)) == multiset(s) + multiset{x}
  {
    if s != [] {
      InsertAddsOne(less, s[1..], x);
      assert s == [s[0]] + s[1..];
    }
  }

  lemma InsertedElements<T>(less: (T, T) -> bool, s: seq<T>, x: T)
    ensures forall y :: y in InsertBy(less, s, x) ==> y == x || y in s
  {
    InsertAddsOne(less, s, x);
    forall y | y in InsertBy(less, s, x) ensures y == x || y in s {
      assert y in multiset(InsertBy(less, s, x));
    }
  }

  lemma {:induction false} InsertSorts<T(!new)>(less: (T, T) -> bool, s: seq<T>, x: T)
    requires IsStrictOrder(less) && SortedBy(less, s)
    ensures SortedBy(less, InsertBy(less, s, x))
  {
    if s != [] && !less(x, s[0]) {
      var rest := InsertBy(less, s[1..], x);
      InsertSorts(less, s[1..], x);
      InsertedElements(less, s[1..], x);
      forall j | 0 <= j < |rest| ensures !less(rest[j], s[0]) {
        assert rest[j] in rest;
      }
    } else if s != [] {
      forall j | 0 <= j < |s| ensures !less(s[j], x) {
        assert !less(s[j], s[0]);
      }
    }
  }

  lemma {:induction false} SortSorts<T(!new)>(less: (T, T) -> bool, s: seq<T>)
    requires IsStrictOrder(less)
    ensures SortedBy(less, SortBy(less, s)) && multiset(SortBy(less, s)) == multiset(s)
  {
    if s != [] {
      SortSorts(less, s[..|s| - 1]);
      InsertSorts(less, SortBy(less, s[..|s| - 1]), s[|s| - 1]);
      InsertAddsOne(less, SortBy(less, s[..|s| - 1]), s[|s| - 1]);
      assert s == s[..|s| - 1] + [s[|s| - 1]];
    }
  }

  lemma FirstIsLeast<T(!new)>(less: (T, T) -> bool, s: seq<T>, x: T)
    requires IsStrictOrder(less) && SortedBy(less, s) && x in s
    ensures x == s[0] || less(s[0], x)
  {
    var i :| 0 <= i < |s| && s[i] == x;
    if i > 0 { assert !less(s[i], s[0]); }
  }

  lemma SameElements<T>(a: seq<T>, b: seq<T>)
    requires multiset(a) == multiset(b)
    ensures |a| == |b| && forall x :: x in a <==> x in b
  {
    assert |multiset(a)| == |a| && |multiset(b)| == |b|;
    forall x ensures x in a <==> x in b { assert x in multiset(a) <==> x in multiset(b); }
  }

  lemma SameRest<T>(a: seq<T>, b: seq<T>)
    requires multiset(a) == multiset(b) && a != [] && b != [] && a[0] == b[0]
    ensures multiset(a[1..]) == multiset(b[1..])
  {
    assert a == [a[0]] + a[1..] && b == [b[0]] + b[1..];
    assert multiset(a) - multiset{a[0]} == multiset(a[1..]);
    assert multiset(b) - multiset{b[0]} == multiset(b[1..]);
  }

  /** A multiset has one sorted list. */
  lemma {:induction false} SortedIsUnique<T(!new)>(less: (T, T) -> bool, a: seq<T>, b: seq<T>)
    requires IsStrictOrder(less) && SortedBy(less, a) && SortedBy(less, b) && multiset(a) == multiset(b)
    ensures a == b
    decreases |a|
  {
    SameElements(a, b);
    if a != [] {
      FirstIsLeast(less, a, b[0]);
      FirstIsLeast(less, b, a[0]);
      SameRest(a, b);
      SortedIsUnique(less, a[1..], b[1..]);
      assert a == [a[0]] + a[1..] && b == [b[0]] + b[1..];
    }
  }

  /** Drops every element that repeats its predecessor. */
  function Dedup<T(==)>(s: seq<T>): seq<T> {
    if |s| <= 1 then s
    else if s[|s| - 1] == s[|s| - 2] then Dedup(s[..|s| - 1])
    else Dedup(s[..|s| - 1]) + [s[|s| - 1]]
  }

  lemma {:induction false} DedupKeepsElements<T>(s: seq<T>)
    ensures forall x :: x in Dedup(s) <==> x in s
    ensures s != [] ==> Dedup(s) != [] && Dedup(s)[|Dedup(s)| - 1] == s[|s| - 1]
  {
    if |s| > 1 {
      DedupKeepsElements(s[..|s| - 1]);
      assert s == s[..|s| - 1] + [s[|s| - 1]];
      assert s[..|s| - 1][|s| - 2] == s[|s| - 2];
    }
  }

  lemma {:induction false} DedupAscends<T(!new)>(less: (T, T) -> bool, s: seq<T>)
    requires IsStrictOrder(less) && SortedBy(less, s)
    ensures Ascending(less, Dedup(s))
  {
    if |s| > 1 {
      var init, last := s[..|s| - 1], s[|s| - 1];
      DedupAscends(less, init);
      DedupKeepsElements(init);
      if last != init[|init| - 1] {
        forall i | 0 <= i < |Dedup(init)| ensures less(Dedup(init)[i], last) {
          assert Dedup(init)[i] in init;
          var j :| 0 <= j < |init| && init[j] == Dedup(init)[i];
          assert !less(s[|s| - 1], s[j]);
          assert !less(s[|s| - 2], s[j]);
        }
      }
    }
  }

  lemma NoElements<T>(a: seq<T>, b: seq<T>)
    requires forall x :: x in a <==> x in b
    ensures a == [] ==> b == []
  {
    if b != [] { assert b[0] in b; }
  }

  lemma {:induction false} AscendingIsUnique<T(!new)>(less: (T, T) -> bool, a: seq<T>, b: seq<T>)
    requires IsStrictOrder(less) && Ascending(less, a) && Ascending(less, b)
    requires forall x :: x in a <==> x in b
    ensures a == b
    decreases |a|
  {
    if a == [] {
      NoElements(a, b);
    } else {
      assert a[0] in b && b[0] in a;
      var i :| 0 <= i < |b| && b[i] == a[0];
      var j :| 0 <= j < |a| && a[j] == b[0];
      assert a[0] == b[0];
      forall x ensures x in a[1..] <==> x in b[1..] {
        assert x in a[1..] <==> x in a && x != a[0];
        assert x in b[1..] <==> x in b && x != b[0];
      }
      AscendingIsUnique(less, a[1..], b[1..]);
      assert a == [a[0]] + a[1..] && b == [b[0]] + b[1..];
    }
  }

  /** The texts of a list in order, each once. */
  function Canonical(s: seq<Text>): seq<Text> {
    Dedup(SortBy(Less, s))
  }

  lemma CanonicalIsSet(s: seq<Text>)
    ensures Ascending(Less, Canonical(s))
    ensures forall x :: x in Canonical(s) <==> x in s
  {
    TextsAreOrdered();
    SortSorts(Less, s);
    DedupAscends(Less, SortBy(Less, s));
    DedupKeepsElements(SortBy(Less, s));
    forall x ensures x in SortBy(Less, s) <==> x in s {
      assert x in multiset(SortBy(Less, s)) <==> x in multiset(s);
    }
  }

  /** Two lists have the same canonical form exactly when they hold the same texts. */
  lemma CanonicalIffSameSet(a: seq<Text>, b: seq<Text>)
    ensures Canonical(a) == Canonical(b) <==> forall x :: x in a <==> x in b
  {
    hide Canonical, Less;
    TextsAreOrdered();
    CanonicalIsSet(a);
    CanonicalIsSet(b);
    if forall x :: x in a <==> x in b { AscendingIsUnique(Less, Canonical(a), Canonical(b)); }
    if Canonical(a) == Canonical(b) {
      forall x ensures x in a <==> x in b {
        assert x in Canonical(a) <==> x in a;
        assert x in Canonical(b) <==> x in b;
      }
    }
  }

  /** A list already in order with nothing twice is its own canonical form. */
  lemma AscendingIsCanonical(s: seq<Text>)
    requires Ascending(Less, s)
    ensures Canonical(s) == s
  {
    hide Canonical, Less;
    TextsAreOrdered();
    CanonicalIsSet(s);
    AscendingIsUnique(Less, Canonical(s), s);
  }
}
