/** dIa_split_uri as a program; a pointer into the target is the rest of the string behind it. */
module TargetParser {
  import opened Bytes
  import opened Targets

  /** A pointer loop that stops at one of some bytes. */
  method Scan(s: seq<Byte>, stops: set<Byte>) returns (q: nat)
    ensures q == Span(s, stops)
  {
    q := 0;
    while q < |s| && s[q] !in stops
      invariant q <= |s|
      invariant forall i | 0 <= i < q :: s[i] !in stops
    {
      q := q + 1;
    }
    SpanIs(s, stops, q);
  }

  /** The loop over host names, which also turns them to lower case. */
  method ScanHost(s: seq<Byte>) returns (q: nat, host: seq<Byte>)
    ensures q == Span(s, {COLON, SLASH, QUESTION}) && host == Lower(s[..q])
  {
    q, host := 0, [];
    while q < |s| && s[q] != COLON && s[q] != SLASH && s[q] != QUESTION
      invariant q <= |s| && |host| == q
      invariant forall i | 0 <= i < q :: s[i] !in {COLON, SLASH, QUESTION} && host[i] == LowerByte(s[i])
    {
      host := host + [LowerByte(s[q])];
      q := q + 1;
    }
    SpanIs(s, {COLON, SLASH, QUESTION}, q);
  }

  /** The two loops over the digits of a port. */
  method ScanPort(s: seq<Byte>) returns (q: nat, port: nat)
    ensures q == DigitSpan(s) && port == Number(s[..q])
  {
    q := 0;
    while q < |s| && IsDigit(s[q])
      invariant q <= |s|
      invariant forall i | 0 <= i < q :: IsDigit(s[i])
    {
      q := q + 1;
    }
    DigitSpanIs(s, q);
    var p := 0;
    port := 0;
    while p < q
      invariant p <= q
      invariant port == Number(s[..p])
    {
      assert s[..p + 1][..p] == s[..p];
      port := port * 10 + (s[p] as int - 0x30);
      p := p + 1;
    }
  }

  /** strstr for "://" */
  method FindScheme(s: seq<Byte>) returns (c: Scheme)
    ensures c == AfterScheme(s)
  {
    var n := 0;
    assert s[0..] == s;
    while n + 3 <= |s| && !(s[n] == COLON && s[n + 1] == SLASH && s[n + 2] == SLASH)
      invariant n <= |s| && SchemeEnd(s) == n + SchemeEnd(s[n..])
    {
      assert s[n..][1..] == s[n + 1..];
      n := n + 1;
    }
    c := if n + 3 > |s| then NoScheme else Before(s[n + 3..]);
  }

  /** From the label `path` on; `p0` is the rest of the string behind the second pointer. */
  method ParsePath(s: seq<Byte>, p0: seq<Byte>, u: Uri) returns (r: Split)
    requires |s| <= |p0|
    ensures r == SplitPath(s, p0, u)
  {
    var q, p, uri := s, p0, u;
    if s == [] {
      return Split(0, u);
    }
    if s[0] == SLASH {
      var n := Scan(s[1..], {QUESTION});
      q := s[1 + n..];
      p, uri := q, u.(path := s[1..1 + n]);
    }
    assert q != [] ==> q[1..|q|] == q[1..];
    if q != [] && p[0] == QUESTION {
      r := Split(0, uri.(query := p[1..|q|]));
    } else {
      r := Split(if q != [] then -1 else 0, uri);
    }
  }

  /** From the end of the host on. */
  method ParsePort(s: seq<Byte>, p: seq<Byte>, u: Uri) returns (r: Split)
    requires |s| <= |p|
    ensures r == SplitPort(s, p, u)
  {
    if s != [] && s[0] == COLON {
      var q, port := ScanPort(s[1..]);
      var uri := if q > 0 then u.(port := port % 0x10000) else u;
      r := ParsePath(s[1 + q..], s[1 + q..], uri);
    } else {
      r := ParsePath(s, p, u);
    }
  }

  /** A host name, or an address in brackets, which belong to the host. */
  method ParseHost(s: seq<Byte>) returns (r: Split)
    ensures r == SplitHost(s)
  {
    if s != [] && s[0] == OPEN {
      r := ParseBracket(s);
    } else {
      r := ParseName(s);
    }
  }

  method ParseBracket(s: seq<Byte>) returns (r: Split)
    requires s != [] && s[0] == OPEN
    ensures r == SplitBracket(s)
  {
    var q := Scan(s, {CLOSE});
    if q == |s| || q == 1 {
      return Split(-3, NOTHING);
    }
    r := ParsePort(s[q + 1..], s[1..], NOTHING.(host := s[..q + 1]));
  }

  method ParseName(s: seq<Byte>) returns (r: Split)
    ensures r == SplitName(s)
  {
    var q, host := ScanHost(s);
    if q == 0 {
      return Split(-3, NOTHING);
    }
    r := ParsePort(s[q..], s, NOTHING.(host := host));
  }

  /** dIa_split_uri */
  method ParseUri(s: seq<Byte>) returns (r: Split)
    ensures r == SplitUri(s)
  {
    if s != [] && s[0] == SLASH {
      r := ParsePath(s, s, NOTHING);
    } else {
      var c := FindScheme(s);
      match c {
        case NoScheme => r := Split(-2, NOTHING);
        case Before(rest) => r := ParseHost(rest);
      }
    }
  }
}
