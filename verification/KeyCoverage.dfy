/** What the redaction of lone key lines covers, told byte by byte, and when nothing is left to redact. */
module KeyCoverage {
  import opened Bytes
  import opened KeyBlocks

  predicate IsLetterOrDigit(c: char) {
    ('0' <= c && c <= '9') || ('a' <= c && c <= 'z') || ('A' <= c && c <= 'Z')
  }

  /** The places of letters and digits in a span. */
  function LettersAndDigits(t: Text, lo: nat, hi: nat): set<int>
    requires lo <= hi <= |t|
  {
    set i | lo <= i < hi && IsLetterOrDigit(t[i])
  }

  predicate IsKeyChar(c: char) {
    IsLetterOrDigit(c) || c in "+/="
  }

  lemma {:induction false} CountIsPlaces(t: Text, lo: nat, hi: nat)
    requires lo <= hi <= |t|
    ensures Alphanumerics(t[lo..hi]) == |LettersAndDigits(t, lo, hi)|
    decreases hi
  {
    hide LettersAndDigits, IsLetterOrDigit, IsAlphanumeric;
    if lo == hi {
      NoPlaces(t, lo);
    } else {
      CountIsPlaces(t, lo, hi - 1);
      assert t[lo..hi][..hi - lo - 1] == t[lo..hi - 1];
      OneMorePlace(t, lo, hi);
    }
  }

  lemma NoPlaces(t: Text, lo: nat)
    requires lo <= |t|
    ensures LettersAndDigits(t, lo, lo) == {}
  {
  }

  lemma OneMorePlace(t: Text, lo: nat, hi: nat)
    requires lo < hi <= |t|
    ensures |LettersAndDigits(t, lo, hi)| == |LettersAndDigits(t, lo, hi - 1)| + if IsAlphanumeric(t[hi - 1]) then 1 else 0
  {
    assert LettersAndDigits(t, lo, hi)
        == LettersAndDigits(t, lo, hi - 1) + if IsLetterOrDigit(t[hi - 1]) then {hi - 1} else {};
  }

  /** A long token, told by its characters: a run of letters, digits, plus, slash and equals signs, not part of a longer one,
      of at least 40 characters, three quarters of them letters and digits, and some not hexadecimal. */
  lemma TokenExactly(t: Text, s: Span)
    ensures IsToken(t, s) <==>
      && s.start + 40 <= s.end <= |t| && (forall i :: s.start <= i < s.end ==> IsKeyChar(t[i]))
      && (s.start > 0 ==> !IsKeyChar(t[s.start - 1])) && (s.end < |t| ==> !IsKeyChar(t[s.end]))
      && |LettersAndDigits(t, s.start, s.end)| * 4 >= (s.end - s.start) * 3
      && exists i :: s.start <= i < s.end && t[i] !in "0123456789abcdefABCDEF"
  {
    forall c ensures IsKeyByte(c) <==> IsKeyChar(c) { }
    forall c ensures IsHexDigit(c) <==> c in "0123456789abcdefABCDEF" { HexDigits(c); }
    if s.start <= s.end <= |t| {
      CountIsPlaces(t, s.start, s.end);
      HexInSlice(t, s.start, s.end);
    }
    hide IsKeyByte, IsKeyChar, IsHexDigit, Alphanumerics;
  }

  lemma HexDigits(c: char)
    ensures IsHexDigit(c) <==> c in "0123456789abcdefABCDEF"
  {
    var digits := "0123456789abcdefABCDEF";
    assert digits[0] == '0' && digits[1] == '1' && digits[2] == '2' && digits[3] == '3' && digits[4] == '4' && digits[5] == '5';
    assert digits[6] == '6' && digits[7] == '7' && digits[8] == '8' && digits[9] == '9' && digits[10] == 'a' && digits[11] == 'b';
    assert digits[12] == 'c' && digits[13] == 'd' && digits[14] == 'e' && digits[15] == 'f' && digits[16] == 'A';
    assert digits[17] == 'B' && digits[18] == 'C' && digits[19] == 'D' && digits[20] == 'E' && digits[21] == 'F';
  }

  /** Byte `x` stands beside a lone line: from a header through the key lines after it, or else through a long token
      within 4096 bytes; and likewise before a footer. */
  ghost predicate CoveredBeside(f: Finders, t: Text, x: int) {
    || (exists h :: h in f.headers(t) && AfterHeader(f, t, h, x))
    || (exists e :: e in f.footers(t) && BeforeFooter(f, t, e, x))
  }

  ghost predicate AfterHeader(f: Finders, t: Text, h: Span, x: int) {
    h.start <= x && if f.runEnd(t, h.end) > h.end then x < f.runEnd(t, h.end) else exists s :: TokenAfter(t, h, s) && x < s.end
  }

  ghost predicate BeforeFooter(f: Finders, t: Text, e: Span, x: int) {
    x < e.end && match f.runStart(t, e.start)
                 case Some(start) => start <= x
                 case None => exists s :: TokenBefore(t, e, s) && s.start <= x
  }

  ghost predicate TokenAfter(t: Text, h: Span, s: Span) {
    IsToken(t, s) && h.end <= s.start && s.end <= h.end + 4096
  }

  ghost predicate TokenBefore(t: Text, e: Span, s: Span) {
    IsToken(t, s) && e.start <= s.start + 4096 && s.end <= e.start
  }

  lemma {:induction false} LastToken(t: Text, h: Span, s: Span) returns (last: Span)
    requires TokenAfter(t, h, s)
    ensures TokenAfter(t, h, last) && forall x :: TokenAfter(t, h, x) ==> x.end <= last.end
    decreases |t| - s.end
  {
    hide IsLong, IsKeyByte;
    if x :| TokenAfter(t, h, x) && x.end > s.end {
      last := LastToken(t, h, x);
    } else {
      last := s;
    }
  }

  lemma {:induction false} FirstToken(t: Text, e: Span, s: Span) returns (first: Span)
    requires TokenBefore(t, e, s)
    ensures TokenBefore(t, e, first) && forall x :: TokenBefore(t, e, x) ==> first.start <= x.start
    decreases s.start
  {
    hide IsLong, IsKeyByte;
    if x :| TokenBefore(t, e, x) && x.start < s.start {
      first := FirstToken(t, e, x);
    } else {
      first := s;
    }
  }

  lemma HeaderCovers(f: Finders, t: Text, h: Span, x: int)
    ensures AfterHeader(f, t, h, x) <==> exists r :: HeaderRegion(f, t, h, r) && r.start <= x < r.end
  {
    hide IsToken;
    forall s ensures TokenAfter(t, h, s) <==> IsToken(t, s) && InWindowAfter(s, h.end) { }
    if AfterHeader(f, t, h, x) {
      if f.runEnd(t, h.end) > h.end {
        assert HeaderRegion(f, t, h, Span(h.start, f.runEnd(t, h.end)));
      } else {
        var s :| TokenAfter(t, h, s) && x < s.end;
        var last := LastToken(t, h, s);
        assert HeaderRegion(f, t, h, Span(h.start, last.end));
      }
    }
  }

  lemma FooterCovers(f: Finders, t: Text, e: Span, x: int)
    ensures BeforeFooter(f, t, e, x) <==> exists r :: FooterRegion(f, t, e, r) && r.start <= x < r.end
  {
    hide IsToken;
    forall s ensures TokenBefore(t, e, s) <==> IsToken(t, s) && InWindowBefore(s, e.start) { }
    if BeforeFooter(f, t, e, x) {
      if f.runStart(t, e.start).Some? {
        assert FooterRegion(f, t, e, Span(f.runStart(t, e.start).value, e.end));
      } else {
        var s :| TokenBefore(t, e, s) && s.start <= x;
        var first := FirstToken(t, e, s);
        assert FooterRegion(f, t, e, Span(first.start, e.end));
      }
    }
  }

  /** The regions redacted cover exactly the bytes beside lone lines. */
  lemma RegionsCoverExactly(f: Finders, t: Text, merged: seq<Span>)
    requires IsMerge(f, t, merged)
    ensures forall x :: Covered(merged, x) <==> CoveredBeside(f, t, x)
  {
    hide AfterHeader, BeforeFooter, HeaderRegion, FooterRegion, Covered;
    forall x ensures Covered(merged, x) <==> CoveredBeside(f, t, x) { BesideIsRegion(f, t, x); }
  }

  lemma BesideIsRegion(f: Finders, t: Text, x: int)
    ensures CoveredBeside(f, t, x) <==> exists r :: IsRegion(f, t, r) && r.start <= x < r.end
  {
    hide AfterHeader, BeforeFooter, HeaderRegion, FooterRegion;
    forall h ensures AfterHeader(f, t, h, x) <==> exists r :: HeaderRegion(f, t, h, r) && r.start <= x < r.end {
      HeaderCovers(f, t, h, x);
    }
    forall e ensures BeforeFooter(f, t, e, x) <==> exists r :: FooterRegion(f, t, e, r) && r.start <= x < r.end {
      FooterCovers(f, t, e, x);
    }
  }

  /** After the header there are key lines, or a long token in reach. */
  ghost predicate HasAfter(f: Finders, t: Text, h: Span) {
    f.runEnd(t, h.end) > h.end || exists s :: TokenAfter(t, h, s)
  }

  ghost predicate HasBefore(f: Finders, t: Text, e: Span) {
    f.runStart(t, e.start).Some? || exists s :: TokenBefore(t, e, s)
  }

  /** Nothing to redact stands beside a lone line. */
  ghost predicate NothingLeft(f: Finders, t: Text) {
    (forall h :: h in f.headers(t) ==> !HasAfter(f, t, h)) && forall e :: e in f.footers(t) ==> !HasBefore(f, t, e)
  }

  lemma NoRegionIff(f: Finders, t: Text)
    ensures (forall r :: !IsRegion(f, t, r)) <==> NothingLeft(f, t)
  {
    hide HeaderRegion, FooterRegion, HasAfter, HasBefore;
    if NothingLeft(f, t) {
      forall r ensures !IsRegion(f, t, r) {
        forall h | HeaderRegion(f, t, h, r) ensures HasAfter(f, t, h) { RegionHasAfter(f, t, h, r); }
        forall e | FooterRegion(f, t, e, r) ensures HasBefore(f, t, e) { RegionHasBefore(f, t, e, r); }
      }
    } else if h :| h in f.headers(t) && HasAfter(f, t, h) {
      var r := AfterHasRegion(f, t, h);
      assert IsRegion(f, t, r);
    } else {
      var e :| e in f.footers(t) && HasBefore(f, t, e);
      var r := BeforeHasRegion(f, t, e);
      assert IsRegion(f, t, r);
    }
  }

  lemma RegionHasAfter(f: Finders, t: Text, h: Span, r: Span)
    requires HeaderRegion(f, t, h, r)
    ensures HasAfter(f, t, h)
  {
    hide IsToken;
    if f.runEnd(t, h.end) <= h.end {
      var s :| IsToken(t, s) && InWindowAfter(s, h.end);
      assert TokenAfter(t, h, s);
    }
  }

  lemma AfterHasRegion(f: Finders, t: Text, h: Span) returns (r: Span)
    requires HasAfter(f, t, h)
    ensures HeaderRegion(f, t, h, r)
  {
    hide IsToken;
    if f.runEnd(t, h.end) > h.end {
      r := Span(h.start, f.runEnd(t, h.end));
    } else {
      var s :| TokenAfter(t, h, s);
      var last := LastToken(t, h, s);
      forall x | IsToken(t, x) && InWindowAfter(x, h.end) ensures x.end <= last.end { assert TokenAfter(t, h, x); }
      r := Span(h.start, last.end);
    }
  }

  lemma RegionHasBefore(f: Finders, t: Text, e: Span, r: Span)
    requires FooterRegion(f, t, e, r)
    ensures HasBefore(f, t, e)
  {
    hide IsToken;
    if f.runStart(t, e.start).None? {
      var s :| IsToken(t, s) && InWindowBefore(s, e.start);
      assert TokenBefore(t, e, s);
    }
  }

  lemma BeforeHasRegion(f: Finders, t: Text, e: Span) returns (r: Span)
    requires HasBefore(f, t, e)
    ensures FooterRegion(f, t, e, r)
  {
    hide IsToken;
    if f.runStart(t, e.start).Some? {
      r := Span(f.runStart(t, e.start).value, e.end);
    } else {
      var s :| TokenBefore(t, e, s);
      var first := FirstToken(t, e, s);
      forall x | IsToken(t, x) && InWindowBefore(x, e.start) ensures first.start <= x.start { assert TokenBefore(t, e, x); }
      r := Span(first.start, e.end);
    }
  }

  /** A text is settled exactly when it names no private key, with its markers or without, or nothing is left
      beside its lone lines. */
  lemma SettledIff(f: Finders, g: Staging, t: Text)
    ensures IsSettled(f, g, t) <==>
      !Occurs(t, "PRIVATE KEY") || !Occurs(g.stage(t).0, "PRIVATE KEY") || NothingLeft(f, g.stage(t).0)
  {
    hide Occurs, IsRegion, NothingLeft;
    NoRegionIff(f, g.stage(t).0);
  }
}
