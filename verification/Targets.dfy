/** Target identifiers: dIa_split_uri and the options that setUriParameters derives from a target. */
module Targets {
  import opened Bytes
  import Seqs

  const DEFAULT_PORT: nat := 5683
  const COLON: Byte := 0x3A
  const QUESTION: Byte := 0x3F
  const AMPERSAND: Byte := 0x26
  const OPEN: Byte := 0x5B
  const CLOSE: Byte := 0x5D
  const SCHEME: seq<Byte> := [0x63, 0x6F, 0x61, 0x70, 0x3A, 0x2F, 0x2F]

  /** coap_uri_t: the components of a target. */
  datatype Uri = Uri(host: seq<Byte>, port: nat, path: seq<Byte>, query: seq<Byte>)

  /** The uri structure before anything is parsed. */
  const NOTHING := Uri([], DEFAULT_PORT, [], [])

  // ----- Decimal numbers -----

  predicate IsDigit(b: Byte) { 0x30 <= b <= 0x39 }

  /** sprintf with %d */
  function Decimal(n: nat): (s: seq<Byte>)
    ensures s != [] && forall i | 0 <= i < |s| :: IsDigit(s[i])
  {
    if n < 10 then [0x30 + n] else Decimal(n / 10) + [0x30 + n % 10]
  }

  /** The number that a string of digits denotes. */
  function Number(s: seq<Byte>): nat
    requires forall i | 0 <= i < |s| :: IsDigit(s[i])
  {
    if s == [] then 0
    else
      var d := s[|s| - 1] as int;
      assert IsDigit(s[|s| - 1]);
      Number(s[..|s| - 1]) * 10 + (d - 0x30)
  }

  lemma {:induction false} DecimalDenotes(n: nat)
    ensures Number(Decimal(n)) == n
    ensures |Decimal(n)| > 1 ==> Decimal(n)[0] != 0x30
  {
    if n >= 10 {
      DecimalDenotes(n / 10);
      var s := Decimal(n);
      assert s[..|s| - 1] == Decimal(n / 10);
    }
  }

  // ----- Scanning -----

  /** Length of the longest prefix without a byte from `stops`. */
  function Span(s: seq<Byte>, stops: set<Byte>): (n: nat)
    ensures n <= |s| && (n < |s| ==> s[n] in stops)
    ensures forall i | 0 <= i < n :: s[i] !in stops
  {
    if s == [] || s[0] in stops then 0 else 1 + Span(s[1..], stops)
  }

  /** Only one length is the span. */
  lemma {:induction false} SpanIs(s: seq<Byte>, stops: set<Byte>, n: nat)
    requires n <= |s| && (n < |s| ==> s[n] in stops) && forall i | 0 <= i < n :: s[i] !in stops
    ensures Span(s, stops) == n
  {
    if n > 0 {
      SpanIs(s[1..], stops, n - 1);
    }
  }

  /** Number of digits at the beginning of `s`. */
  function DigitSpan(s: seq<Byte>): (n: nat)
    ensures n <= |s| && (n < |s| ==> !IsDigit(s[n]))
    ensures forall i | 0 <= i < n :: IsDigit(s[i])
  {
    if s == [] || !IsDigit(s[0]) then 0 else 1 + DigitSpan(s[1..])
  }

  lemma {:induction false} DigitSpanIs(s: seq<Byte>, n: nat)
    requires n <= |s| && (n < |s| ==> !IsDigit(s[n])) && forall i | 0 <= i < n :: IsDigit(s[i])
    ensures DigitSpan(s) == n
  {
    if n > 0 {
      DigitSpanIs(s[1..], n - 1);
    }
  }

  /** Position of the first "://", or the length of the string. */
  function SchemeEnd(s: seq<Byte>): (n: nat)
    ensures n <= |s|
    ensures n < |s| ==> n + 3 <= |s| && s[n] == COLON && s[n + 1] == SLASH && s[n + 2] == SLASH
  {
    if |s| < 3 then |s|
    else if s[0] == COLON && s[1] == SLASH && s[2] == SLASH then 0
    else 1 + SchemeEnd(s[1..])
  }

  function LowerByte(b: Byte): Byte { if 0x41 <= b <= 0x5A then b + 32 else b }

  function Lower(s: seq<Byte>): (r: seq<Byte>)
    ensures |r| == |s| && forall i | 0 <= i < |s| :: r[i] == LowerByte(s[i])
  {
    if s == [] then [] else Lower(s[..|s| - 1]) + [LowerByte(s[|s| - 1])]
  }

  // ----- dIa_split_uri -----

  /** Return code and what has been filled in; the caller uses the latter whatever the code. */
  datatype Split = Split(code: int, uri: Uri)

  /**
   * The part from the path on. `p` is the string at the parser's second pointer, which
   * without a port and without a slash has stayed at the host.
   */
  function SplitPath(s: seq<Byte>, p: seq<Byte>, u: Uri): Split
    requires |s| <= |p|
  {
    if s == [] then Split(0, u)
    else if s[0] == SLASH then
      var n := 1 + Span(s[1..], {QUESTION});
      SplitQuery(s[n..], u.(path := s[1..n]))
    else if p[0] == QUESTION then Split(0, u.(query := p[1..|s|]))
    else Split(-1, u)
  }

  function SplitQuery(s: seq<Byte>, u: Uri): Split {
    if s == [] then Split(0, u)
    else if s[0] == QUESTION then Split(0, u.(query := s[1..]))
    else Split(-1, u)
  }

  /** The port number is kept in sixteen bits. */
  function SplitPort(s: seq<Byte>, p: seq<Byte>, u: Uri): Split
    requires |s| <= |p|
  {
    if s != [] && s[0] == COLON then
      var d := DigitSpan(s[1..]);
      var port := if d > 0 then Number(s[1..][..d]) % 0x10000 else u.port;
      SplitPath(s[1 + d..], s[1 + d..], u.(port := port))
    else SplitPath(s, p, u)
  }

  function SplitHost(s: seq<Byte>): Split {
    if s != [] && s[0] == OPEN then SplitBracket(s) else SplitName(s)
  }

  function SplitBracket(s: seq<Byte>): Split
    requires s != []
  {
    var k := Span(s, {CLOSE});
    if k == |s| || k == 1 then Split(-3, NOTHING)
    else SplitPort(s[k + 1..], s[1..], NOTHING.(host := s[..k + 1]))
  }

  function SplitName(s: seq<Byte>): Split {
    var k := Span(s, {COLON, SLASH, QUESTION});
    if k == 0 then Split(-3, NOTHING)
    else SplitPort(s[k..], s, NOTHING.(host := Lower(s[..k])))
  }

  datatype Scheme = NoScheme | Before(rest: seq<Byte>)

  /** What stands behind "://". */
  function AfterScheme(s: seq<Byte>): Scheme {
    var n := SchemeEnd(s);
    if n == |s| then NoScheme else Before(s[n + 3..])
  }

  function SplitAfter(c: Scheme): Split {
    match c
    case NoScheme => Split(-2, NOTHING)
    case Before(rest) => SplitHost(rest)
  }

  function SplitUri(s: seq<Byte>): Split {
    if s != [] && s[0] == SLASH then SplitPath(s, s, NOTHING) else SplitAfter(AfterScheme(s))
  }

  // ----- Rendering and parsing -----

  function PortText(port: nat): seq<Byte> { if port == DEFAULT_PORT then [] else [COLON] + Decimal(port) }
  function PathText(path: seq<Byte>): seq<Byte> { if path == [] then [] else [SLASH] + path }
  function QueryText(query: seq<Byte>): seq<Byte> { if query == [] then [] else [QUESTION] + query }
  function HostText(host: seq<Byte>): seq<Byte> { if host == [] then [] else SCHEME + host }

  /** The target that names these components. */
  function Render(u: Uri): seq<Byte> {
    HostText(u.host) + (PortText(u.port) + (PathText(u.path) + QueryText(u.query)))
  }

  predicate Capital(b: Byte) { 0x41 <= b <= 0x5A }

  /** An address in brackets, or a host name or address without capitals. */
  ghost predicate HostOk(h: seq<Byte>) {
    && h != []
    && if h[0] == OPEN then |h| >= 3 && h[1] != QUESTION && h[|h| - 1] == CLOSE && CLOSE !in h[..|h| - 1]
       else forall i | 0 <= i < |h| :: !Capital(h[i]) && h[i] != COLON && h[i] != SLASH && h[i] != QUESTION
  }

  /** `h` is `w` with its capitals, and nothing else, replaced by the letters 32 places on. */
  ghost predicate InLowerCase(h: seq<Byte>, w: seq<Byte>) {
    |h| == |w| && forall i | 0 <= i < |h| :: h[i] == if Capital(w[i]) then w[i] + 32 else w[i]
  }

  /** A way of writing the host: an address in brackets as it is, a name in any case. */
  ghost predicate HostWritten(w: seq<Byte>, h: seq<Byte>) {
    h != [] && if h[0] == OPEN then w == h else InLowerCase(h, w)
  }

  lemma LowerIs(w: seq<Byte>, h: seq<Byte>)
    ensures Lower(w) == h <==> InLowerCase(h, w)
  {
  }

  /** The components of an absolute target, or of a path on the host itself. */
  ghost predicate Proper(u: Uri) {
    && u.port < 0x10000
    && QUESTION !in u.path
    && if u.host == [] then u.port == DEFAULT_PORT && u.path != [] else HostOk(u.host)
  }

  /** A query without path and port is not seen, because the second pointer has stayed at the host. */
  predicate Overlooked(u: Uri) { u.host != [] && u.port == DEFAULT_PORT && u.path == [] && u.query != [] }

  /** The second pointer is where the first one is, or at a host that does not begin with '?'. */
  ghost predicate Pointer(p: seq<Byte>, s: seq<Byte>) { p == s || (|s| <= |p| && p != [] && p[0] != QUESTION) }

  lemma ParsesPath(path: seq<Byte>, query: seq<Byte>, p: seq<Byte>, u: Uri)
    requires QUESTION !in path && u.path == [] && u.query == []
    requires Pointer(p, PathText(path) + QueryText(query))
    ensures SplitPath(PathText(path) + QueryText(query), p, u) ==
      if path == [] && query != [] && p != QueryText(query) then Split(-1, u)
      else Split(0, u.(path := path, query := query))
  {
    if path == [] {
      assert PathText(path) + QueryText(query) == QueryText(query);
      assert query != [] ==> QueryText(query)[1..] == query;
    } else {
      ParsesQuery(query, u.(path := path));
      PathBehind(path, QueryText(query), p, u);
    }
  }

  lemma ParsesQuery(query: seq<Byte>, u: Uri)
    requires u.query == []
    ensures SplitQuery(QueryText(query), u) == Split(0, u.(query := query))
    ensures QueryText(query) != [] ==> QueryText(query)[0] == QUESTION
  {
    if query != [] {
      assert QueryText(query)[1..] == query;
    }
  }

  lemma PathBehind(path: seq<Byte>, q: seq<Byte>, p: seq<Byte>, u: Uri)
    requires QUESTION !in path && (q != [] ==> q[0] == QUESTION) && |[SLASH] + path + q| <= |p|
    ensures SplitPath([SLASH] + path + q, p, u) == SplitQuery(q, u.(path := path))
  {
    var s := [SLASH] + path + q;
    assert s[1..] == path + q;
    SpanIs(path + q, {QUESTION}, |path|);
    assert s[1..1 + |path|] == path;
    assert s[1 + |path|..] == q;
  }

  ghost predicate Digits(d: seq<Byte>) { forall i | 0 <= i < |d| :: IsDigit(d[i]) }

  /** A way of writing the port: nothing for the default one, or a colon and digits, perhaps with leading zeros. */
  ghost predicate PortWritten(text: seq<Byte>, port: nat) {
    if text == [] then port == DEFAULT_PORT
    else text[0] == COLON && text[1..] != [] && Digits(text[1..]) && Number(text[1..]) % 0x10000 == port
  }

  lemma RenderedPort(port: nat)
    requires port < 0x10000
    ensures PortWritten(PortText(port), port)
    ensures PortWritten([COLON] + Decimal(port), port)
  {
    var d := Decimal(port);
    PortNumber(port);
    WrittenDigits(d, port);
  }

  lemma PortNumber(port: nat)
    requires port < 0x10000
    ensures Number(Decimal(port)) % 0x10000 == port
  {
    DecimalDenotes(port);
  }

  lemma WrittenDigits(d: seq<Byte>, port: nat)
    requires d != [] && Digits(d) && Number(d) % 0x10000 == port
    ensures PortWritten([COLON] + d, port)
  {
    assert ([COLON] + d)[1..] == d;
  }

  lemma ParsesPort(text: seq<Byte>, port: nat, path: seq<Byte>, query: seq<Byte>, p: seq<Byte>, u: Uri)
    requires PortWritten(text, port) && QUESTION !in path && u.path == [] && u.query == [] && u.port == DEFAULT_PORT
    requires p != [] && p[0] != QUESTION && |text + (PathText(path) + QueryText(query))| <= |p|
    ensures SplitPort(text + (PathText(path) + QueryText(query)), p, u) ==
      if text == [] && path == [] && query != [] then Split(-1, u)
      else Split(0, u.(port := port, path := path, query := query))
  {
    var rest := PathText(path) + QueryText(query);
    RestBegins(path, query);
    if text == [] {
      assert text + rest == rest;
      ParsesPath(path, query, p, u);
    } else {
      ParsesPath(path, query, rest, u.(port := port));
      var d := text[1..];
      assert text == [COLON] + d;
      PortBehind(d, rest, p, u);
    }
  }

  /** What follows the port. */
  lemma RestBegins(path: seq<Byte>, query: seq<Byte>)
    ensures var rest := PathText(path) + QueryText(query);
      && (rest != [] ==> rest[0] == SLASH || rest[0] == QUESTION)
      && (path == [] ==> rest == QueryText(query))
  {
    assert path == [] ==> PathText(path) + QueryText(query) == QueryText(query);
  }

  lemma PortBehind(d: seq<Byte>, rest: seq<Byte>, p: seq<Byte>, u: Uri)
    requires d != [] && Digits(d) && (rest != [] ==> !IsDigit(rest[0])) && |[COLON] + d + rest| <= |p|
    ensures SplitPort([COLON] + d + rest, p, u) == SplitPath(rest, rest, u.(port := Number(d) % 0x10000))
  {
    var s := [COLON] + d + rest;
    assert s[1..] == d + rest;
    DigitSpanIs(d + rest, |d|);
    assert (d + rest)[..|d|] == d;
    assert s[1 + |d|..] == rest;
  }

  lemma ParsesHost(u: Uri, w: seq<Byte>, text: seq<Byte>)
    requires Proper(u) && u.host != [] && HostWritten(w, u.host) && PortWritten(text, u.port)
    ensures SplitHost(w + (text + (PathText(u.path) + QueryText(u.query)))) ==
      if text == [] && u.path == [] && u.query != [] then Split(-1, NOTHING.(host := u.host)) else Split(0, u)
  {
    var h, rest := u.host, text + (PathText(u.path) + QueryText(u.query));
    var p := if h[0] == OPEN then (w + rest)[1..] else w + rest;
    NameWritten(h, w);
    ParsesPort(text, u.port, u.path, u.query, p, NOTHING.(host := h));
    if h[0] == OPEN {
      BracketHost(h, rest);
    } else {
      assert rest != [] ==> rest[0] in {COLON, SLASH, QUESTION};
      PlainHost(h, w, rest);
    }
  }

  /** Where a written host may be interrupted does not depend on the case of its letters. */
  lemma NameWritten(h: seq<Byte>, w: seq<Byte>)
    requires HostOk(h) && HostWritten(w, h)
    ensures |w| == |h| && (w[0] == OPEN <==> h[0] == OPEN) && w[0] != QUESTION
    ensures h[0] == OPEN ==> w[1] != QUESTION
    ensures h[0] != OPEN ==> forall i | 0 <= i < |w| :: w[i] != COLON && w[i] != SLASH && w[i] != QUESTION
  {
    assert h[0] != OPEN ==> h[0] == if Capital(w[0]) then w[0] + 32 else w[0];
  }

  lemma BracketHost(h: seq<Byte>, rest: seq<Byte>)
    requires HostOk(h) && h[0] == OPEN
    ensures |rest| <= |(h + rest)[1..]| && SplitHost(h + rest) == SplitPort(rest, (h + rest)[1..], NOTHING.(host := h))
  {
    var s := h + rest;
    forall i | 0 <= i < |h| - 1
      ensures s[i] != CLOSE
    {
      assert s[i] == h[..|h| - 1][i];
    }
    SpanIs(s, {CLOSE}, |h| - 1);
    assert s[..|h|] == h;
    assert s[|h|..] == rest;
  }

  lemma PlainHost(h: seq<Byte>, w: seq<Byte>, rest: seq<Byte>)
    requires HostOk(h) && h[0] != OPEN && HostWritten(w, h)
    requires rest != [] ==> rest[0] in {COLON, SLASH, QUESTION}
    ensures SplitHost(w + rest) == SplitPort(rest, w + rest, NOTHING.(host := h))
  {
    var s := w + rest;
    NameWritten(h, w);
    SpanIs(s, {COLON, SLASH, QUESTION}, |w|);
    assert s[..|w|] == w;
    assert s[|w|..] == rest;
    LowerIs(w, h);
  }

  lemma SchemeFound(t: seq<Byte>)
    ensures AfterScheme(SCHEME + t) == Before(t)
  {
    var s := SCHEME + t;
    assert s[1..][1..][1..][1..] == s[4..];
    assert SchemeEnd(s[4..]) == 0;
    assert SchemeEnd(s[3..]) == 1 by { assert s[3..][1..] == s[4..]; }
    assert SchemeEnd(s[2..]) == 2 by { assert s[2..][1..] == s[3..]; }
    assert SchemeEnd(s[1..]) == 3 by { assert s[1..][1..] == s[2..]; }
    assert s[7..] == t;
  }

  /**
   * However the port is written, and in whatever case the host name, a target with a host
   * parses to its components, unless a query right behind the host is overlooked.
   */
  lemma ParsesWritten(u: Uri, w: seq<Byte>, text: seq<Byte>)
    requires Proper(u) && u.host != [] && HostWritten(w, u.host) && PortWritten(text, u.port)
    ensures SplitUri(SCHEME + w + (text + (PathText(u.path) + QueryText(u.query)))) ==
      if text == [] && u.path == [] && u.query != [] then Split(-1, NOTHING.(host := u.host)) else Split(0, u)
  {
    var rest := text + (PathText(u.path) + QueryText(u.query));
    Seqs.Assoc(SCHEME, w, rest);
    SchemeFound(w + rest);
    ParsesHost(u, w, text);
  }

  /** A proper host is written in the case that it has. */
  lemma WrittenAsIs(u: Uri)
    requires Proper(u) && u.host != []
    ensures HostWritten(u.host, u.host)
  {
  }

  /** Parsing what is rendered gives the components back, unless the query is overlooked. */
  lemma ParsesRendered(u: Uri)
    requires Proper(u)
    ensures SplitUri(Render(u)) == Split(0, u) <==> !Overlooked(u)
    ensures Overlooked(u) ==> SplitUri(Render(u)) == Split(-1, NOTHING.(host := u.host))
  {
    if u.host == [] {
      var s := PathText(u.path) + QueryText(u.query);
      assert Render(u) == s;
      ParsesPath(u.path, u.query, s, NOTHING);
    } else {
      RenderedPort(u.port);
      WrittenAsIs(u);
      ParsesWritten(u, u.host, PortText(u.port));
    }
  }

  /** A target that names the default port parses to what it would without. */
  lemma DefaultPortDropped(u: Uri)
    requires Proper(u) && u.host != [] && u.port == DEFAULT_PORT
    ensures var port := [COLON] + Decimal(DEFAULT_PORT);
      SplitUri(HostText(u.host) + (port + (PathText(u.path) + QueryText(u.query)))).uri == u
    ensures !Overlooked(u) ==> SplitUri(Render(u)).uri == u
  {
    RenderedPort(DEFAULT_PORT);
    WrittenAsIs(u);
    ParsesWritten(u, u.host, [COLON] + Decimal(DEFAULT_PORT));
    ParsesRendered(u);
  }
}
