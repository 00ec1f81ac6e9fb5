/** From a target to options and back: setUriParameters of the client and hnd_request of the server. */
module TargetOptions {
  import opened Bytes
  import opened Options
  import opened Iterators
  import opened Targets
  import opened TargetParser
  import opened ResourceKeys
  import opened Strings
  import Seqs

  const URI_HOST: nat := 5
  const URI_PORT: nat := 7
  const URI_QUERY: nat := 15

  /** "RequestingEntity=" */
  const ENTITY: seq<Byte> :=
    [0x52, 0x65, 0x71, 0x75, 0x65, 0x73, 0x74, 0x69, 0x6E, 0x67, 0x45, 0x6E, 0x74, 0x69, 0x74, 0x79, 0x3D]

  predicate IsEntity(v: seq<Byte>) { |v| >= |ENTITY| && v[..|ENTITY|] == ENTITY }

  // ----- strsep and its inverse -----

  /** The tokens that strsep delivers. */
  function Tokens(s: seq<Byte>, c: Byte): (ts: seq<seq<Byte>>)
    ensures ts != []
    decreases |s|
  {
    var n := Span(s, {c});
    if n == |s| then [s] else [s[..n]] + Tokens(s[n + 1..], c)
  }

  /** The strings with `c` between them. */
  function Join(ts: seq<seq<Byte>>, c: Byte): seq<Byte> {
    if ts == [] then []
    else if |ts| == 1 then ts[0]
    else Join(ts[..|ts| - 1], c) + [c] + ts[|ts| - 1]
  }

  lemma {:induction false} JoinCons(t: seq<Byte>, ts: seq<seq<Byte>>, c: Byte)
    requires ts != []
    ensures Join([t] + ts, c) == t + [c] + Join(ts, c)
  {
    var us := [t] + ts;
    var n := |ts| - 1;
    assert us[|us| - 1] == ts[n] && us[..|us| - 1] == [t] + ts[..n];
    if n > 0 {
      JoinCons(t, ts[..n], c);
      Seqs.Assoc(t + [c], Join(ts[..n], c), [c]);
      Seqs.Assoc(t + [c], Join(ts[..n], c) + [c], ts[n]);
    } else {
      assert us[..1] == [t];
    }
  }

  /** Splitting loses nothing. */
  lemma {:induction false} JoinTokens(s: seq<Byte>, c: Byte)
    ensures Join(Tokens(s, c), c) == s
    decreases |s|
  {
    var n := Span(s, {c});
    if n < |s| {
      JoinTokens(s[n + 1..], c);
      JoinCons(s[..n], Tokens(s[n + 1..], c), c);
      Rejoined(s, c, n);
    }
  }

  /** No token contains the separator. */
  lemma {:induction false} TokensFree(s: seq<Byte>, c: Byte)
    ensures forall t | t in Tokens(s, c) :: c !in t
    decreases |s|
  {
    var n := Span(s, {c});
    assert forall i | 0 <= i < n :: s[i] != c;
    assert c !in s[..n];
    if n < |s| {
      TokensFree(s[n + 1..], c);
      assert forall t :: t in Tokens(s, c) <==> t == s[..n] || t in Tokens(s[n + 1..], c);
    } else {
      assert s[..n] == s;
    }
  }

  lemma Rejoined(s: seq<Byte>, c: Byte, n: nat)
    requires n < |s| && s[n] == c
    ensures s[..n] + [c] + s[n + 1..] == s
  {
  }

  /** The loop around strsep. */
  method SplitTokens(s: seq<Byte>, c: Byte) returns (ts: seq<seq<Byte>>)
    ensures ts == Tokens(s, c)
  {
    ts := [];
    var work := s;
    var n := Scan(work, {c});
    while n < |work|
      invariant n == Span(work, {c}) && Tokens(s, c) == ts + Tokens(work, c)
      decreases |work|
    {
      var token := work[..n];
      work := work[n + 1..];
      Seqs.Assoc(ts, [token], Tokens(work, c));
      ts := ts + [token];
      n := Scan(work, {c});
    }
    ts := ts + [work];
  }

  // ----- The query as the server gathers it -----

  /** Values are joined with '&', except that nothing precedes the first one that is not empty. */
  function Gathered(vs: seq<seq<Byte>>): seq<Byte> {
    if vs == [] then []
    else
      var q, v := Gathered(vs[..|vs| - 1]), vs[|vs| - 1];
      if IsEntity(v) then q else if q == [] then v else q + [AMPERSAND] + v
  }

  /** The requesting entity: all values with the prefix, without it. */
  function Entities(vs: seq<seq<Byte>>): seq<Byte> {
    if vs == [] then []
    else
      var e, v := Entities(vs[..|vs| - 1]), vs[|vs| - 1];
      if IsEntity(v) then e + v[|ENTITY|..] else e
  }

  ghost predicate NoEntity(vs: seq<seq<Byte>>) { forall i | 0 <= i < |vs| :: !IsEntity(vs[i]) }

  lemma {:induction false} GatheredJoins(vs: seq<seq<Byte>>)
    requires vs != [] && NoEntity(vs)
    ensures vs[0] != [] ==> Gathered(vs) == Join(vs, AMPERSAND) != []
    ensures vs[0] == [] && |vs| > 1 ==> |Gathered(vs)| < |Join(vs, AMPERSAND)|
    ensures |Gathered(vs)| <= |Join(vs, AMPERSAND)| && Entities(vs) == []
  {
    var n := |vs| - 1;
    if n > 0 {
      GatheredJoins(vs[..n]);
    } else {
      assert vs[..n] == [];
    }
  }

  /** A query survives the way to the server, if and only if it does not begin with '&'. */
  lemma QuerySurvives(query: seq<Byte>)
    requires query != [] && NoEntity(Tokens(query, AMPERSAND))
    ensures Gathered(Tokens(query, AMPERSAND)) == query <==> query[0] != AMPERSAND
    ensures query[0] == AMPERSAND ==> |Gathered(Tokens(query, AMPERSAND))| < |query|
    ensures Entities(Tokens(query, AMPERSAND)) == []
  {
    GatheredJoins(Tokens(query, AMPERSAND));
    JoinTokens(query, AMPERSAND);
  }

  // ----- The options of the client -----

  function HostValues(u: Uri): seq<seq<Byte>> { if u.host == [] then [] else [u.host] }
  function PortValues(u: Uri): seq<seq<Byte>> { if u.port == DEFAULT_PORT then [] else [VarBytes(u.port)] }
  function PathValues(u: Uri): seq<seq<Byte>> { if u.path == [] then [] else Tokens(u.path, SLASH) }
  function QueryValues(u: Uri, entity: seq<Byte>): seq<seq<Byte>> {
    (if u.query == [] then [] else Tokens(u.query, AMPERSAND)) + if entity == [] then [] else [ENTITY + entity]
  }
  function CttValues(ctt: seq<Byte>): seq<seq<Byte>> { if ctt == [] then [] else [ctt] }

  /**
   * The values that stand for the path are the parts between its slashes, those for the query
   * the parts between its ampersands, and the port is denoted by its bytes.
   */
  lemma ValuesSplit(u: Uri)
    ensures Join(PathValues(u), SLASH) == u.path && forall v | v in PathValues(u) :: SLASH !in v
    ensures Join(QueryValues(u, []), AMPERSAND) == u.query
    ensures forall v | v in QueryValues(u, []) :: AMPERSAND !in v
    ensures u.port != DEFAULT_PORT ==> |PortValues(u)| == 1 && BigEndian(PortValues(u)[0]) == u.port
  {
    JoinTokens(u.path, SLASH);
    TokensFree(u.path, SLASH);
    JoinTokens(u.query, AMPERSAND);
    TokensFree(u.query, AMPERSAND);
    assert QueryValues(u, []) == if u.query == [] then [] else Tokens(u.query, AMPERSAND);
    VarBytesDenote(u.port);
  }

  /** What setUriParameters adds when there is no proxy: values by option number, in order. */
  function ClientBlocks(u: Uri, ctt: seq<Byte>, tid: nat, entity: seq<Byte>): seq<(nat, seq<seq<Byte>>)> {
    [(CONTENT_TYPE, CttValues(ctt)), (URI_HOST, HostValues(u)), (URI_PORT, PortValues(u)),
     (URI_PATH, PathValues(u)), (TOKEN, [Decimal(tid)]), (URI_QUERY, QueryValues(u, entity))]
  }

  function ClientOptions(u: Uri, ctt: seq<Byte>, tid: nat, entity: seq<Byte>): seq<Opt> {
    Blocks(ClientBlocks(u, ctt, tid, entity))
  }

  // ----- What the server rebuilds -----

  /** The port is read from the first two bytes of the value. */
  function PortOf(v: seq<Byte>): nat
    requires |v| >= 2
  {
    v[0] as int * 256 + v[1]
  }

  /** Ports of at least two bytes are read back; so is the default port, which is not sent. */
  lemma PortSurvives(port: nat)
    requires 256 <= port < 0x10000
    ensures |VarBytes(port)| == 2 && PortOf(VarBytes(port)) == port
  {
    assert VarBytes(port / 256 / 256) == [];
    assert VarBytes(port / 256) == VarBytes(port / 256 / 256) + [port / 256 % 256];
  }

  /** A port of one byte is not, whatever byte follows it in the message. */
  lemma ShortPortLost(port: nat, next: Byte)
    requires 0 < port < 256
    ensures |VarBytes(port)| == 1 && PortOf(VarBytes(port) + [next]) != port
  {
    assert VarBytes(port / 256) == [];
  }

  /** A filter for one number keeps all options with that number and no others. */
  lemma SelectNamed(num: nat, vals: seq<seq<Byte>>, t: nat)
    requires num < 24 && t < 24 && t % NOOP != 0
    ensures Select(Named(num, vals), Through(OnlyType(t))) == if num == t then Named(num, vals) else []
  {
    var os, pick := Named(num, vals), Through(OnlyType(t));
    forall i | 0 <= i < |os|
      ensures pick(os[i]) <==> num == t
    {
      NamedPasses(os[i], t);
    }
    SelectUniform(os, pick, num == t);
  }

  lemma SelectUniform(os: seq<Opt>, pick: Opt -> bool, yes: bool)
    requires forall i | 0 <= i < |os| :: pick(os[i]) <==> yes
    ensures Select(os, pick) == if yes then os else []
  {
    if yes {
      SelectEvery(os, pick);
    } else {
      SelectNone(os, pick);
    }
  }

  /** The values with number `t` among options that come in blocks. */
  function Blocks(bs: seq<(nat, seq<seq<Byte>>)>): seq<Opt> {
    if bs == [] then [] else Named(bs[0].0, bs[0].1) + Blocks(bs[1..])
  }

  function BlockOf(bs: seq<(nat, seq<seq<Byte>>)>, t: nat): seq<seq<Byte>> {
    if bs == [] then [] else if bs[0].0 == t then bs[0].1 else BlockOf(bs[1..], t)
  }

  ghost predicate Ascending(bs: seq<(nat, seq<seq<Byte>>)>) {
    && (forall i | 0 <= i < |bs| :: bs[i].0 < 24)
    && forall i, j | 0 <= i < j < |bs| :: bs[i].0 < bs[j].0
  }

  lemma {:induction false} SelectAbsent(bs: seq<(nat, seq<seq<Byte>>)>, t: nat)
    requires Ascending(bs) && t < 24 && t % NOOP != 0 && forall i | 0 <= i < |bs| :: bs[i].0 != t
    ensures Select(Blocks(bs), Through(OnlyType(t))) == []
  {
    if bs != [] {
      SelectFirst(bs[0].0, bs[0].1, Blocks(bs[1..]), t);
      SelectAbsent(bs[1..], t);
    }
  }

  /** The options of one number come first in the selection, if it is for that number. */
  lemma SelectFirst(num: nat, vals: seq<seq<Byte>>, os: seq<Opt>, t: nat)
    requires num < 24 && t < 24 && t % NOOP != 0
    ensures Select(Named(num, vals) + os, Through(OnlyType(t)))
         == (if num == t then Named(num, vals) else []) + Select(os, Through(OnlyType(t)))
  {
    SelectNamed(num, vals, t);
    SelectConcat(Named(num, vals), os, Through(OnlyType(t)));
  }

  lemma {:induction false} SelectBlock(bs: seq<(nat, seq<seq<Byte>>)>, t: nat)
    requires Ascending(bs) && t < 24 && t % NOOP != 0
    ensures Select(Blocks(bs), Through(OnlyType(t))) == Named(t, BlockOf(bs, t))
  {
    if bs != [] {
      SelectFirst(bs[0].0, bs[0].1, Blocks(bs[1..]), t);
      if bs[0].0 == t {
        SelectAbsent(bs[1..], t);
      } else {
        SelectBlock(bs[1..], t);
      }
    }
  }

  /** Each number of the client's options has its values. */
  lemma ClientValues(u: Uri, ctt: seq<Byte>, tid: nat, entity: seq<Byte>)
    ensures var bs := ClientBlocks(u, ctt, tid, entity);
      && Ascending(bs)
      && BlockOf(bs, URI_HOST) == HostValues(u) && BlockOf(bs, URI_PORT) == PortValues(u)
      && BlockOf(bs, TOKEN) == [Decimal(tid)]
      && BlockOf(bs, URI_PATH) == PathValues(u) && BlockOf(bs, URI_QUERY) == QueryValues(u, entity)
  {
    var bs := ClientBlocks(u, ctt, tid, entity);
    BlockAt(bs, 1);
    BlockAt(bs, 2);
    BlockAt(bs, 3);
    BlockAt(bs, 4);
    BlockAt(bs, 5);
  }

  lemma {:induction false} BlockAt(bs: seq<(nat, seq<seq<Byte>>)>, i: nat)
    requires Ascending(bs) && i < |bs|
    ensures BlockOf(bs, bs[i].0) == bs[i].1
  {
    if i > 0 {
      BlockAt(bs[1..], i - 1);
    }
  }

  // ----- The pieces that the server appends to its buffers -----

  function FirstOf(vs: seq<seq<Byte>>): seq<seq<Byte>> { if vs == [] then [] else [vs[0]] }

  function PathPieces(vs: seq<seq<Byte>>): seq<seq<Byte>> {
    if |vs| <= 1 then vs else PathPieces(vs[..|vs| - 1]) + [[SLASH]] + [vs[|vs| - 1]]
  }

  function QueryPieces(vs: seq<seq<Byte>>): seq<seq<Byte>> {
    if vs == [] then []
    else
      var ps, v := QueryPieces(vs[..|vs| - 1]), vs[|vs| - 1];
      if IsEntity(v) then ps else if Concat(ps) == [] then ps + [v] else ps + [[AMPERSAND]] + [v]
  }

  function EntityPieces(vs: seq<seq<Byte>>): seq<seq<Byte>> {
    if vs == [] then []
    else
      var ps, v := EntityPieces(vs[..|vs| - 1]), vs[|vs| - 1];
      if IsEntity(v) then ps + [v[|ENTITY|..]] else ps
  }

  function PartPieces(lead: seq<Byte>, part: seq<Byte>): seq<seq<Byte>> { if part == [] then [] else [lead] + [part] }

  function TargetPieces(host: seq<Byte>, port: seq<Byte>, path: seq<Byte>, query: seq<Byte>): seq<seq<Byte>> {
    PartPieces(SCHEME, host) + PartPieces([COLON], port) + PartPieces([SLASH], path) + PartPieces([QUESTION], query)
  }

  lemma ConcatOne(p: seq<Byte>)
    ensures Concat([p]) == p
  {
    var none: seq<seq<Byte>> := [];
    ConcatSnoc(none, p);
    assert none + [p] == [p];
  }

  lemma {:induction false} PathPiecesAre(vs: seq<seq<Byte>>)
    ensures Concat(PathPieces(vs)) == Join(vs, SLASH)
    ensures AllZeroFree(vs) ==> AllZeroFree(PathPieces(vs))
  {
    if |vs| == 1 {
      ConcatOne(vs[0]);
      assert vs == [vs[0]];
    } else if |vs| > 1 {
      var ps := PathPieces(vs[..|vs| - 1]);
      PathPiecesAre(vs[..|vs| - 1]);
      ConcatSnoc(ps, [SLASH]);
      ConcatSnoc(ps + [[SLASH]], vs[|vs| - 1]);
    }
  }

  lemma {:induction false} QueryPiecesAre(vs: seq<seq<Byte>>)
    ensures Concat(QueryPieces(vs)) == Gathered(vs)
  {
    if vs != [] {
      var ps, v := QueryPieces(vs[..|vs| - 1]), vs[|vs| - 1];
      QueryPiecesAre(vs[..|vs| - 1]);
      ConcatSnoc(ps, v);
      ConcatTwo(ps, [AMPERSAND], v);
    }
  }

  lemma ConcatTwo(ps: seq<seq<Byte>>, p: seq<Byte>, q: seq<Byte>)
    ensures Concat(ps + [p] + [q]) == Concat(ps) + p + q
  {
    ConcatSnoc(ps, p);
    ConcatSnoc(ps + [p], q);
  }

  lemma {:induction false} QueryPiecesFree(vs: seq<seq<Byte>>)
    requires AllZeroFree(vs)
    ensures AllZeroFree(QueryPieces(vs))
  {
    if vs != [] {
      QueryPiecesFree(vs[..|vs| - 1]);
    }
  }

  lemma {:induction false} EntityPiecesAre(vs: seq<seq<Byte>>)
    ensures Concat(EntityPieces(vs)) == Entities(vs)
    ensures AllZeroFree(vs) ==> AllZeroFree(EntityPieces(vs))
  {
    if vs != [] {
      var v := vs[|vs| - 1];
      EntityPiecesAre(vs[..|vs| - 1]);
      if IsEntity(v) {
        ConcatSnoc(EntityPieces(vs[..|vs| - 1]), v[|ENTITY|..]);
      }
    }
  }

  /** Every write of hnd_request for these option values stays inside the buffer it is meant for. */
  ghost predicate Contained(tokens: seq<seq<Byte>>, hosts: seq<seq<Byte>>, ports: seq<seq<Byte>>,
                            paths: seq<seq<Byte>>, queries: seq<seq<Byte>>)
    requires ports != [] ==> |ports[0]| >= 2
  {
    var host := if hosts == [] then [] else Cap(hosts[0], 100);
    var port := if ports == [] then [] else Decimal(PortOf(ports[0]));
    && Inside(FirstOf(tokens), 40) && Inside(FirstOf(hosts), 100) && Inside(PathPieces(paths), 200)
    && Inside(QueryPieces(queries), 400) && Inside(EntityPieces(queries), 400)
    && Inside(TargetPieces(host, port, Cap(Join(paths, SLASH), 200), Cap(Gathered(queries), 400)), 400)
  }

  function Part(lead: seq<Byte>, part: seq<Byte>): seq<Byte> { if part == [] then [] else lead + part }

  /** A target with these parts. */
  function Assembled(host: seq<Byte>, port: seq<Byte>, path: seq<Byte>, query: seq<Byte>): seq<Byte> {
    Part(SCHEME, host) + (Part([COLON], port) + (Part([SLASH], path) + Part([QUESTION], query)))
  }

  /** The target the server assembles from the values; every part is cut to the size of its buffer, and the whole. */
  function ServerText(hosts: seq<seq<Byte>>, ports: seq<seq<Byte>>, paths: seq<seq<Byte>>, queries: seq<seq<Byte>>)
    : seq<Byte>
    requires ports != [] ==> |ports[0]| >= 2
  {
    var host := if hosts == [] then [] else Cap(hosts[0], 100);
    var port := if ports == [] then [] else Decimal(PortOf(ports[0]));
    Cap(Assembled(host, port, Cap(Join(paths, SLASH), 200), Cap(Gathered(queries), 400)), 400)
  }

  /** The target fits into the buffers of the server, and its query does not begin with '&'. */
  predicate Intact(u: Uri) {
    && |u.host| <= 100 && |u.path| <= 200 && |Render(u)| <= 400
    && (u.query == [] || u.query[0] != AMPERSAND)
  }

  /** What the client sends is what the server rebuilds, if and only if the target is intact. */
  lemma TargetSurvives(u: Uri, entity: seq<Byte>)
    requires u.port == DEFAULT_PORT || 256 <= u.port < 0x10000
    requires u.query != [] ==> NoEntity(Tokens(u.query, AMPERSAND))
    ensures u.port != DEFAULT_PORT ==> |VarBytes(u.port)| == 2
    ensures ServerText(HostValues(u), PortValues(u), PathValues(u), QueryValues(u, entity)) == Render(u) <==> Intact(u)
    ensures Entities(QueryValues(u, entity)) == entity
  {
    var port := if u.port == DEFAULT_PORT then [] else Decimal(u.port);
    if u.port != DEFAULT_PORT {
      PortSurvives(u.port);
    }
    if u.path != [] {
      JoinTokens(u.path, SLASH);
    }
    GatheredQuery(u, entity);
    CutExact(u, port, Gathered(QueryValues(u, entity)));
  }

  /** Cutting the parts or the whole shortens the target, and so does a shorter query. */
  lemma CutExact(u: Uri, port: seq<Byte>, query: seq<Byte>)
    requires Part([COLON], port) == PortText(u.port)
    requires |query| <= |u.query| && (query == u.query <==> u.query == [] || u.query[0] != AMPERSAND)
    requires query != u.query ==> |query| < |u.query|
    ensures Cap(Assembled(Cap(u.host, 100), port, Cap(u.path, 200), Cap(query, 400)), 400) == Render(u) <==> Intact(u)
  {
    var host, path, cut := Cap(u.host, 100), Cap(u.path, 200), Cap(query, 400);
    assert Render(u) == Assembled(u.host, port, u.path, u.query);
    if !Intact(u) {
      PartShorter(SCHEME, host, u.host);
      PartShorter([SLASH], path, u.path);
      PartShorter([QUESTION], cut, u.query);
    }
  }

  lemma PartShorter(lead: seq<Byte>, a: seq<Byte>, b: seq<Byte>)
    requires |a| <= |b|
    ensures |Part(lead, a)| <= |Part(lead, b)| && (|a| < |b| ==> |Part(lead, a)| < |Part(lead, b)|)
  {
  }

  lemma GatheredQuery(u: Uri, entity: seq<Byte>)
    requires u.query != [] ==> NoEntity(Tokens(u.query, AMPERSAND))
    ensures var g := Gathered(QueryValues(u, entity));
      && |g| <= |u.query| && (g != u.query ==> |g| < |u.query|)
      && (g == u.query <==> u.query == [] || u.query[0] != AMPERSAND)
    ensures Entities(QueryValues(u, entity)) == entity
  {
    var ts := if u.query == [] then [] else Tokens(u.query, AMPERSAND);
    if u.query != [] {
      QuerySurvives(u.query);
    }
    if entity != [] {
      var vs, v := QueryValues(u, entity), ENTITY + entity;
      assert vs[..|vs| - 1] == ts && vs[|vs| - 1] == v;
      assert v[..|ENTITY|] == ENTITY && v[|ENTITY|..] == entity;
    } else {
      assert QueryValues(u, entity) == ts;
    }
  }
}
