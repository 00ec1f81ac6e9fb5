/** What dIa_split_uri makes of any string: its return codes, and the host in lower case. */
module TargetLaws {
  import opened Bytes
  import opened Targets

  // ----- Where the host begins -----

  /** There is a "://" at position `n`. */
  ghost predicate SchemeAt(s: seq<Byte>, n: nat) { n + 3 <= |s| && s[n..n + 3] == [COLON, SLASH, SLASH] }

  lemma SchemeShift(s: seq<Byte>, i: nat)
    requires s != []
    ensures SchemeAt(s, i + 1) <==> SchemeAt(s[1..], i)
  {
    if i + 4 <= |s| {
      assert s[i + 1..i + 4] == s[1..][i..i + 3];
    }
  }

  lemma {:induction false} SchemeEndFirst(s: seq<Byte>)
    ensures forall i: nat | i < SchemeEnd(s) :: !SchemeAt(s, i)
    ensures SchemeEnd(s) < |s| ==> SchemeAt(s, SchemeEnd(s))
  {
    if |s| >= 3 && !(s[0] == COLON && s[1] == SLASH && s[2] == SLASH) {
      SchemeEndFirst(s[1..]);
      assert !SchemeAt(s, 0) by { assert s[0..3] == [s[0], s[1], s[2]]; }
      forall i: nat | 0 < i <= SchemeEnd(s)
        ensures SchemeAt(s, i) <==> SchemeAt(s[1..], i - 1)
      {
        SchemeShift(s, i - 1);
      }
    }
  }

  /** What is taken for the host begins behind the first "://", if there is one. */
  lemma SchemeFirst(s: seq<Byte>, n: nat)
    requires forall i: nat | i < n :: !SchemeAt(s, i)
    ensures SchemeAt(s, n) ==> AfterScheme(s) == Before(s[n + 3..])
    ensures n >= |s| ==> AfterScheme(s) == NoScheme
  {
    SchemeEndFirst(s);
    if SchemeAt(s, n) {
      assert SchemeEnd(s) <= n;
    }
  }

  // ----- Return codes -----

  /** From the path on there is only success or -1, and the host is not touched. */
  lemma PortCodes(s: seq<Byte>, p: seq<Byte>, u: Uri)
    requires |s| <= |p|
    ensures SplitPort(s, p, u).code == 0 || SplitPort(s, p, u).code == -1
    ensures SplitPort(s, p, u).uri.host == u.host
  {
  }

  ghost predicate Relative(s: seq<Byte>) { s != [] && s[0] == SLASH }

  /** The code -2 is returned exactly for strings that neither are a path nor contain "://". */
  lemma SchemeMissing(s: seq<Byte>)
    ensures SplitUri(s).code == -2 <==> !Relative(s) && forall n: nat :: !SchemeAt(s, n)
    ensures SplitUri(s).code == -2 ==> SplitUri(s).uri == NOTHING
  {
    SchemeEndFirst(s);
    if !Relative(s) {
      if SchemeEnd(s) < |s| {
        HostCodes(s[SchemeEnd(s) + 3..]);
      } else {
        assert AfterScheme(s) == NoScheme;
      }
    }
  }

  /** Nothing that could be a host: no byte of a name, and no address between brackets. */
  ghost predicate Hostless(s: seq<Byte>) {
    || s == [] || s[0] == COLON || s[0] == SLASH || s[0] == QUESTION
    || (s[0] == OPEN && (CLOSE !in s || s[1] == CLOSE))
  }

  lemma HostCodes(s: seq<Byte>)
    ensures SplitHost(s).code == -3 <==> Hostless(s)
    ensures SplitHost(s).code in {0, -1, -3}
    ensures Hostless(s) ==> SplitHost(s).uri == NOTHING
  {
    if s != [] && s[0] == OPEN {
      var k := Span(s, {CLOSE});
      if k < |s| && k != 1 {
        assert s[k] in s;
        PortCodes(s[k + 1..], s[1..], NOTHING.(host := s[..k + 1]));
      }
    } else {
      var k := Span(s, {COLON, SLASH, QUESTION});
      if k > 0 {
        PortCodes(s[k..], s, NOTHING.(host := Lower(s[..k])));
      }
    }
  }

  /** The code -3 is returned exactly when no host stands behind the first "://". */
  lemma HostMissing(s: seq<Byte>, n: nat)
    requires !Relative(s) && SchemeAt(s, n) && forall i: nat | i < n :: !SchemeAt(s, i)
    ensures SplitUri(s).code == -3 <==> Hostless(s[n + 3..])
  {
    SchemeFirst(s, n);
    HostCodes(s[n + 3..]);
  }

  // ----- The case of the host -----

  /** The host `h` was found at the beginning of `s`. */
  ghost predicate HostOf(h: seq<Byte>, s: seq<Byte>) {
    && 0 < |h| <= |s|
    && if s[0] == OPEN then h == s[..|h|] && h[|h| - 1] == CLOSE && CLOSE !in h[..|h| - 1]
       else InLowerCase(h, s[..|h|]) && forall i | 0 <= i < |h| :: !(0x41 <= h[i] <= 0x5A)
  }

  lemma HostFound(s: seq<Byte>)
    ensures var h := SplitHost(s).uri.host; h != [] ==> HostOf(h, s)
    ensures !Hostless(s) ==> SplitHost(s).uri.host != []
  {
    if s != [] && s[0] == OPEN {
      var k := Span(s, {CLOSE});
      if k < |s| && k != 1 {
        PortCodes(s[k + 1..], s[1..], NOTHING.(host := s[..k + 1]));
        assert s[..k + 1][..k] == s[..k];
      }
    } else {
      var k := Span(s, {COLON, SLASH, QUESTION});
      if k > 0 {
        PortCodes(s[k..], s, NOTHING.(host := Lower(s[..k])));
        LowerIs(s[..k], Lower(s[..k]));
      }
    }
  }

  /**
   * The host of a target with a scheme: an address in brackets as the string has it, or a
   * name without capitals, each byte being that of the string or, for a capital, 32 more.
   */
  lemma HostInLowerCase(s: seq<Byte>, n: nat)
    requires !Relative(s) && SchemeAt(s, n) && forall i: nat | i < n :: !SchemeAt(s, i)
    ensures !Hostless(s[n + 3..]) ==> HostOf(SplitUri(s).uri.host, s[n + 3..])
  {
    SchemeFirst(s, n);
    HostFound(s[n + 3..]);
  }

  /** A name: no byte that ends the host, and no bracket in front. */
  ghost predicate Name(w: seq<Byte>) {
    && (forall i | 0 <= i < |w| :: w[i] != COLON && w[i] != SLASH && w[i] != QUESTION)
    && (w != [] ==> w[0] != OPEN)
  }

  /** Equal but for the case of letters. */
  ghost predicate SameButCase(v: seq<Byte>, w: seq<Byte>) {
    && |v| == |w|
    && forall i | 0 <= i < |v| ::
      v[i] == w[i] || (Capital(v[i]) && w[i] == v[i] + 32) || (Capital(w[i]) && v[i] == w[i] + 32)
  }

  /** The second pointer matters only if it is at a question mark. */
  lemma PointerIgnored(s: seq<Byte>, p: seq<Byte>, q: seq<Byte>, u: Uri)
    requires |s| <= |p| && |s| <= |q| && p != [] && q != [] && p[0] != QUESTION && q[0] != QUESTION
    ensures SplitPort(s, p, u) == SplitPort(s, q, u)
  {
  }

  lemma NameSplit(w: seq<Byte>, rest: seq<Byte>)
    requires Name(w) && w != [] && (rest != [] ==> rest[0] in {COLON, SLASH, QUESTION})
    ensures SplitHost(w + rest) == SplitPort(rest, w + rest, NOTHING.(host := Lower(w)))
  {
    var s := w + rest;
    SpanIs(s, {COLON, SLASH, QUESTION}, |w|);
    assert s[..|w|] == w && s[|w|..] == rest;
  }

  lemma NameCaseIgnored(v: seq<Byte>, w: seq<Byte>, rest: seq<Byte>)
    requires Name(v) && Name(w) && SameButCase(v, w) && (rest != [] ==> rest[0] in {COLON, SLASH, QUESTION})
    ensures SplitHost(v + rest) == SplitHost(w + rest)
  {
    if v == [] {
      assert v + rest == w + rest;
    } else {
      NameSplit(v, rest);
      NameSplit(w, rest);
      LowerIs(w, Lower(v));
      PointerIgnored(rest, v + rest, w + rest, NOTHING.(host := Lower(v)));
    }
  }

  lemma SchemeInFront(front: seq<Byte>, t: seq<Byte>)
    requires forall i: nat | i < |front| :: !SchemeAt(front + [COLON, SLASH, SLASH], i)
    ensures AfterScheme(front + [COLON, SLASH, SLASH] + t) == Before(t)
  {
    var pre := front + [COLON, SLASH, SLASH];
    var s := pre + t;
    forall i: nat | i < |front|
      ensures !SchemeAt(s, i)
    {
      assert !SchemeAt(pre, i) && s[i..i + 3] == pre[i..i + 3];
    }
    assert s[|front|..|front| + 3] == [COLON, SLASH, SLASH] && s[|front| + 3..] == t;
    SchemeFirst(s, |front|);
  }

  /** Two targets that differ only in the case of the letters of a host name are the same target. */
  lemma CaseIgnored(front: seq<Byte>, v: seq<Byte>, w: seq<Byte>, rest: seq<Byte>)
    requires forall i: nat | i < |front| :: !SchemeAt(front + [COLON, SLASH, SLASH], i)
    requires !Relative(front)
    requires Name(v) && Name(w) && SameButCase(v, w) && (rest != [] ==> rest[0] in {COLON, SLASH, QUESTION})
    ensures SplitUri(front + [COLON, SLASH, SLASH] + (v + rest)) == SplitUri(front + [COLON, SLASH, SLASH] + (w + rest))
  {
    SchemeInFront(front, v + rest);
    SchemeInFront(front, w + rest);
    NameCaseIgnored(v, w, rest);
  }
}
