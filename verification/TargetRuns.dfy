/** A target travels: parsed and sent as options by the client, read and rebuilt by the server. */
module TargetRuns {
  import Seqs
  import opened Bytes
  import opened Options
  import opened Pdus
  import opened Iterators
  import opened Codec
  import opened ResourceKeys
  import opened Targets
  import opened TargetParser
  import opened TargetOptions
  import opened Strings

  // ----- The options of a target need no fence posts -----

  /** Values that fit into an option. */
  ghost predicate Short(bs: seq<(nat, seq<seq<Byte>>)>) {
    forall i, j | 0 <= i < |bs| && 0 <= j < |bs[i].1| :: |bs[i].1[j]| <= 255
  }

  lemma {:induction false} BlocksAddable(bs: seq<(nat, seq<seq<Byte>>)>)
    requires Ascending(bs) && Short(bs)
    ensures Addable(Blocks(bs))
    ensures forall o | o in Blocks(bs) :: bs != [] && bs[0].0 <= o.num <= bs[|bs| - 1].0
  {
    if bs != [] {
      var a, b := Named(bs[0].0, bs[0].1), Blocks(bs[1..]);
      assert Short(bs[1..]) by {
        assert forall i | 0 <= i < |bs[1..]| :: bs[1..][i] == bs[i + 1];
      }
      BlocksAddable(bs[1..]);
      forall o | o in b
        ensures bs[0].0 < o.num <= bs[|bs| - 1].0
      {
        assert bs[1..][0] == bs[1];
      }
      JoinAddable(a, b, bs[0].0, bs[|bs| - 1].0);
    }
  }

  /** Options numbered `num` before options with larger numbers. */
  lemma JoinAddable(a: seq<Opt>, b: seq<Opt>, num: nat, hi: nat)
    requires (forall o | o in a :: o.num == num && |o.val| <= 255) && Addable(b)
    requires num <= hi < 0x10000 && forall o | o in b :: num < o.num <= hi
    ensures Addable(a + b) && forall o | o in a + b :: num <= o.num <= hi
  {
    var os := a + b;
    forall i | 0 <= i < |os|
      ensures |os[i].val| <= 255 && os[i].num < 0x10000
    {
      assert os[i] == if i < |a| then a[i] else b[i - |a|];
    }
    forall i, j | 0 <= i < j < |os|
      ensures os[i].num <= os[j].num
    {
      assert os[i] == if i < |a| then a[i] else b[i - |a|];
      assert os[j] == if j < |a| then a[j] else b[j - |a|];
    }
  }

  // ----- The client -----

  /** The calls of coap_add_option in setUriParameters, without a proxy. */
  method BuildOptions(u: Uri, ctt: seq<Byte>, tid: nat, entity: seq<Byte>) returns (bs: seq<(nat, seq<seq<Byte>>)>)
    ensures bs == ClientBlocks(u, ctt, tid, entity)
  {
    var hosts, ports, paths, queries := [], [], [], [];
    if u.host != [] {
      hosts := [u.host];
    }
    if u.port != DEFAULT_PORT {
      ports := [VarBytes(u.port)];
    }
    if u.path != [] {
      paths := SplitTokens(u.path, SLASH);
    }
    if u.query != [] {
      queries := SplitTokens(u.query, AMPERSAND);
    }
    if entity != [] {
      queries := queries + [ENTITY + entity];
    }
    assert queries == QueryValues(u, entity);
    bs := [(CONTENT_TYPE, CttValues(ctt)), (URI_HOST, hosts), (URI_PORT, ports), (URI_PATH, paths),
           (TOKEN, [Decimal(tid)]), (URI_QUERY, queries)];
  }

  // ----- The server -----

  /** The loop over the Uri-Query options. */
  method GatherQuery(vs: seq<seq<Byte>>, query: Buffer, entity: Buffer)
    requires query.Valid() && entity.Valid() && query.pieces == entity.pieces == []
    requires query != entity && query.bytes != entity.bytes
    modifies query`inside, query`pieces, query.bytes, entity`inside, entity`pieces, entity.bytes
    ensures query.Valid() && entity.Valid()
    ensures AllZeroFree(vs) ==> query.pieces == QueryPieces(vs) && entity.pieces == EntityPieces(vs)
  {
    for i := 0 to |vs|
      invariant query.Valid() && entity.Valid()
      invariant AllZeroFree(vs[..i]) ==>
        query.pieces == QueryPieces(vs[..i]) && entity.pieces == EntityPieces(vs[..i])
    {
      assert vs[..i + 1][..i] == vs[..i];
      GatherValue(vs[..i + 1], query, entity);
    }
    assert vs[..|vs|] == vs;
  }

  /** One round: the last of the values `vs` is used. */
  method GatherValue(vs: seq<seq<Byte>>, query: Buffer, entity: Buffer)
    requires vs != [] && query.Valid() && entity.Valid() && query != entity && query.bytes != entity.bytes
    requires AllZeroFree(vs[..|vs| - 1]) ==>
      query.pieces == QueryPieces(vs[..|vs| - 1]) && entity.pieces == EntityPieces(vs[..|vs| - 1])
    modifies query`inside, query`pieces, query.bytes, entity`inside, entity`pieces, entity.bytes
    ensures query.Valid() && entity.Valid()
    ensures AllZeroFree(vs) ==> query.pieces == QueryPieces(vs) && entity.pieces == EntityPieces(vs)
  {
    var v := vs[|vs| - 1];
    if IsEntity(v) {
      entity.Cat(v[|ENTITY|..]);
    } else {
      if AllZeroFree(vs) {
        QueryPiecesFree(vs[..|vs| - 1]);
        query.EmptyIff();
      }
      if !query.Empty() {
        query.Cat([AMPERSAND]);
      }
      query.Cat(v);
    }
  }

  /** The loop over the Uri-Path options. */
  method JoinPath(vs: seq<seq<Byte>>, path: Buffer)
    requires path.Valid() && path.pieces == []
    modifies path`inside, path`pieces, path.bytes
    ensures path.Valid() && path.pieces == PathPieces(vs)
  {
    if vs == [] {
      return;
    }
    path.Cat(vs[0]);
    assert vs[..1] == [vs[0]];
    for i := 1 to |vs|
      invariant path.Valid() && path.pieces == PathPieces(vs[..i])
    {
      PathPiecesStep(vs, i);
      path.Cat([SLASH]);
      path.Cat(vs[i]);
    }
    assert vs[..|vs|] == vs;
  }

  lemma PathPiecesStep(vs: seq<seq<Byte>>, i: nat)
    requires 1 <= i < |vs|
    ensures PathPieces(vs[..i + 1]) == PathPieces(vs[..i]) + [[SLASH]] + [vs[i]]
  {
    assert vs[..i + 1][..i] == vs[..i];
  }

  /** The value of the first option, if there is one. */
  method TakeFirst(vs: seq<seq<Byte>>, to: Buffer)
    requires to.Valid() && to.pieces == []
    modifies to`inside, to`pieces, to.bytes
    ensures to.Valid() && to.pieces == FirstOf(vs)
  {
    if vs != [] {
      to.Cat(vs[0]);
    }
  }

  /** One step of the assembly: a part that is not empty is added behind what introduces it. */
  method AddPart(target: Buffer, lead: seq<Byte>, part: seq<Byte>)
    requires target.Valid()
    modifies target`inside, target`pieces, target.bytes
    ensures target.Valid() && target.pieces == old(target.pieces) + PartPieces(lead, part)
  {
    if part != [] {
      target.Cat(lead);
      target.Cat(part);
    }
  }

  /** The assembly of the target. */
  method Assemble(target: Buffer, host: seq<Byte>, port: seq<Byte>, path: seq<Byte>, query: seq<Byte>)
    requires target.Valid() && target.pieces == []
    modifies target`inside, target`pieces, target.bytes
    ensures target.Valid() && target.pieces == TargetPieces(host, port, path, query)
  {
    AddPart(target, SCHEME, host);
    assert target.pieces == PartPieces(SCHEME, host);
    AddPart(target, [COLON], port);
    AddPart(target, [SLASH], path);
    AddPart(target, [QUESTION], query);
  }

  /** Joining the pieces of a target gives the target. */
  lemma TargetPiecesAre(host: seq<Byte>, port: seq<Byte>, path: seq<Byte>, query: seq<Byte>)
    ensures Concat(TargetPieces(host, port, path, query)) == Assembled(host, port, path, query)
  {
    var a, b, c := PartPieces(SCHEME, host), PartPieces([COLON], port), PartPieces([SLASH], path);
    var none: seq<seq<Byte>> := [];
    PartAdds(none, SCHEME, host);
    assert none + a == a;
    PartAdds(a, [COLON], port);
    PartAdds(a + b, [SLASH], path);
    PartAdds(a + b + c, [QUESTION], query);
    Regroup(Part(SCHEME, host), Part([COLON], port), Part([SLASH], path), Part([QUESTION], query));
  }

  lemma TargetPiecesFree(host: seq<Byte>, port: seq<Byte>, path: seq<Byte>, query: seq<Byte>)
    requires ZeroFree(host) && ZeroFree(port) && ZeroFree(path) && ZeroFree(query)
    ensures AllZeroFree(TargetPieces(host, port, path, query))
  {
    var a, b := PartPieces(SCHEME, host), PartPieces([COLON], port);
    var c, d := PartPieces([SLASH], path), PartPieces([QUESTION], query);
    assert AllZeroFree(a) && AllZeroFree(b) && AllZeroFree(c) && AllZeroFree(d);
  }

  lemma PartAdds(ps: seq<seq<Byte>>, lead: seq<Byte>, part: seq<Byte>)
    ensures Concat(ps + PartPieces(lead, part)) == Concat(ps) + Part(lead, part)
  {
    if part != [] {
      ConcatSnoc(ps, lead);
      ConcatSnoc(ps + [lead], part);
      assert ps + ([lead] + [part]) == (ps + [lead]) + [part];
      Seqs.Assoc(Concat(ps), lead, part);
    } else {
      assert ps + [] == ps && Concat(ps) + [] == Concat(ps);
    }
  }

  lemma Regroup(a: seq<Byte>, b: seq<Byte>, c: seq<Byte>, d: seq<Byte>)
    ensures a + (b + (c + d)) == (([] + a) + b + c) + d
  {
  }

  lemma DecimalZeroFree(n: nat)
    ensures ZeroFree(Decimal(n))
  {
    assert forall i | 0 <= i < |Decimal(n)| :: IsDigit(Decimal(n)[i]);
  }

  /** The option values are C strings. */
  ghost predicate Clean(tokens: seq<seq<Byte>>, hosts: seq<seq<Byte>>, paths: seq<seq<Byte>>, queries: seq<seq<Byte>>) {
    AllZeroFree(tokens) && AllZeroFree(hosts) && AllZeroFree(paths) && AllZeroFree(queries)
  }

  /**
   * The part of hnd_request that reads the transaction id from the Token and rebuilds the
   * target and the requesting entity. For values without zero bytes every part is cut to the
   * size of its buffer, and so is the whole; `inside` tells whether all writes have stayed
   * inside the buffers.
   */
  method ServerTarget(tokens: seq<seq<Byte>>, hosts: seq<seq<Byte>>, ports: seq<seq<Byte>>, paths: seq<seq<Byte>>,
                      queries: seq<seq<Byte>>)
    returns (target: seq<Byte>, entity: seq<Byte>, id: nat, inside: bool)
    requires ports != [] ==> |ports[0]| >= 2
    ensures Clean(tokens, hosts, paths, queries) ==>
      && target == ServerText(hosts, ports, paths, queries) && entity == Cap(Entities(queries), 400)
      && id == (if tokens == [] then 0 else LeadingNumber(Cap(tokens[0], 40)))
      && (inside <==> Contained(tokens, hosts, ports, paths, queries))
  {
    var in0;
    id, in0 := ServerToken(tokens);
    var query, in1;
    query, entity, in1 := ServerQuery(queries);
    var host, in2 := ServerHost(hosts);
    var port := if ports == [] then [] else Decimal(PortOf(ports[0]));
    if ports != [] { DecimalZeroFree(PortOf(ports[0])); }
    var path, in3 := ServerPath(paths);
    var in4;
    target, in4 := ServerWhole(host, port, path, query);
    inside := in0 && in1 && in2 && in3 && in4;
  }

  /** atoi of a text without sign: the number that its leading digits denote. */
  function LeadingNumber(s: seq<Byte>): nat { Number(s[..DigitSpan(s)]) }

  method ServerToken(tokens: seq<seq<Byte>>) returns (id: nat, inside: bool)
    ensures AllZeroFree(tokens) ==>
      && id == (if tokens == [] then 0 else LeadingNumber(Cap(tokens[0], 40)))
      && (inside <==> Inside(FirstOf(tokens), 40))
  {
    var token := new Buffer(40);
    TakeFirst(tokens, token);
    if tokens != [] { ConcatOne(tokens[0]); }
    var text := token.Text();
    var _, n := ScanPort(text);
    id, inside := n, token.inside;
  }

  /** The server reads the transaction id of the client if the Token fits. */
  lemma IdSurvives(tid: nat)
    requires |Decimal(tid)| <= 40
    ensures LeadingNumber(Cap(Decimal(tid), 40)) == tid
  {
    var d := Decimal(tid);
    DigitSpanIs(d, |d|);
    assert d[..|d|] == d;
    DecimalDenotes(tid);
  }

  method ServerQuery(queries: seq<seq<Byte>>) returns (query: seq<Byte>, entity: seq<Byte>, inside: bool)
    ensures AllZeroFree(queries) ==>
      && query == Cap(Gathered(queries), 400) && ZeroFree(query) && entity == Cap(Entities(queries), 400)
      && (inside <==> Inside(QueryPieces(queries), 400) && Inside(EntityPieces(queries), 400))
  {
    var q := new Buffer(400);
    var e := new Buffer(400);
    GatherQuery(queries, q, e);
    QueryPiecesAre(queries);
    EntityPiecesAre(queries);
    if AllZeroFree(queries) { QueryPiecesFree(queries); }
    query := q.Text();
    entity := e.Text();
    inside := q.inside && e.inside;
  }

  method ServerHost(hosts: seq<seq<Byte>>) returns (host: seq<Byte>, inside: bool)
    ensures AllZeroFree(hosts) ==>
      && host == (if hosts == [] then [] else Cap(hosts[0], 100)) && ZeroFree(host)
      && (inside <==> Inside(FirstOf(hosts), 100))
  {
    var h := new Buffer(100);
    TakeFirst(hosts, h);
    if hosts != [] { ConcatOne(hosts[0]); }
    host := h.Text();
    inside := h.inside;
  }

  method ServerPath(paths: seq<seq<Byte>>) returns (path: seq<Byte>, inside: bool)
    ensures AllZeroFree(paths) ==>
      path == Cap(Join(paths, SLASH), 200) && ZeroFree(path) && (inside <==> Inside(PathPieces(paths), 200))
  {
    var p := new Buffer(200);
    JoinPath(paths, p);
    PathPiecesAre(paths);
    path := p.Text();
    inside := p.inside;
  }

  method ServerWhole(host: seq<Byte>, port: seq<Byte>, path: seq<Byte>, query: seq<Byte>)
    returns (target: seq<Byte>, inside: bool)
    ensures ZeroFree(host) && ZeroFree(port) && ZeroFree(path) && ZeroFree(query) ==>
      && target == Cap(Assembled(host, port, path, query), 400)
      && (inside <==> Inside(TargetPieces(host, port, path, query), 400))
  {
    var t := new Buffer(400);
    Assemble(t, host, port, path, query);
    TargetPiecesAre(host, port, path, query);
    if ZeroFree(host) && ZeroFree(port) && ZeroFree(path) && ZeroFree(query) {
      TargetPiecesFree(host, port, path, query);
    }
    target := t.Text();
    inside := t.inside;
  }

  // ----- The whole way -----

  /** The Token comes before the query, so that the list does not begin with a number of 15. */
  lemma ClientNear(u: Uri, ctt: seq<Byte>, tid: nat, entity: seq<Byte>)
    requires Short(ClientBlocks(u, ctt, tid, entity))
    ensures var os := ClientOptions(u, ctt, tid, entity); Addable(os) && Close(os)
  {
    var bs := ClientBlocks(u, ctt, tid, entity);
    BlocksAddable(bs);
    BlockHas(bs, 4, 0);
    var os := Blocks(bs);
    assert forall i | 0 <= i < |os| :: os[i] in os;
    var j :| 0 <= j < |os| && os[j] == Opt(TOKEN, Decimal(tid));
    assert os[0].num <= os[j].num;
    NearIsClose(os);
  }

  lemma NearIsClose(os: seq<Opt>)
    requires forall i | 0 <= i < |os| :: 1 <= os[i].num <= 15
    requires os != [] ==> os[0].num < 15
    ensures Close(os)
  {
  }

  lemma {:induction false} BlockHas(bs: seq<(nat, seq<seq<Byte>>)>, i: nat, j: nat)
    requires i < |bs| && j < |bs[i].1|
    ensures Opt(bs[i].0, bs[i].1[j]) in Blocks(bs)
  {
    var a := Named(bs[0].0, bs[0].1);
    if i > 0 {
      BlockHas(bs[1..], i - 1, j);
    } else {
      assert a[j] in a;
    }
  }

  /** A reader finds the values of each number. */
  lemma ReadsBlock(bs: seq<(nat, seq<seq<Byte>>)>, t: nat)
    requires Ascending(bs) && t < 24 && t % NOOP != 0
    requires Addable(Blocks(bs)) && Close(Blocks(bs)) && |Blocks(bs)| <= 15
    ensures var ws := Encode(Blocks(bs));
      ValuesOf(Emit(ws, ReaderStop(ws), Through(OnlyType(t)), 0, 1)) == BlockOf(bs, t)
  {
    var os, pick := Blocks(bs), Through(OnlyType(t));
    var ws := Encode(os);
    SendableReads(os, pick);
    ReadingExact(ws, ReaderStop(ws), pick);
    EncodeShown(os, pick);
    SelectBlock(bs, t);
    NamedValues(t, BlockOf(bs, t));
  }

  /** coap_check_option and coap_option_next for one number. */
  method ReadNumber(p: Pdu, t: nat, ghost bs: seq<(nat, seq<seq<Byte>>)>) returns (vals: seq<seq<Byte>>)
    requires Ascending(bs) && t < 24 && t % NOOP != 0
    requires Addable(Blocks(bs)) && Close(Blocks(bs)) && |Blocks(bs)| <= 15
    requires p.Valid() && p.wire == Encode(Blocks(bs)) && (p.Open() <==> |p.wire| >= OPT_LONG)
    ensures vals == BlockOf(bs, t)
  {
    var os := Collect(p, OnlyType(t));
    vals := ValuesOf(os);
    ReadsBlock(bs, t);
  }

  /** What setUriParameters and hnd_request need of the components of a target to carry them over. */
  ghost predicate Carried(u: Uri, ctt: seq<Byte>, tid: nat, entity: seq<Byte>) {
    && (u.port == DEFAULT_PORT || 256 <= u.port < 0x10000)
    && (u.query != [] ==> NoEntity(Tokens(u.query, AMPERSAND)))
    && Short(ClientBlocks(u, ctt, tid, entity)) && |ClientOptions(u, ctt, tid, entity)| <= 15
  }

  /** The entity is the last value, with a prefix. */
  lemma ShortEntity(u: Uri, ctt: seq<Byte>, tid: nat, entity: seq<Byte>)
    requires Short(ClientBlocks(u, ctt, tid, entity))
    ensures |entity| <= 255
  {
    if entity != [] {
      var vs := ClientBlocks(u, ctt, tid, entity)[5].1;
      assert vs[|vs| - 1] == ENTITY + entity;
    }
  }

  /** Every write of the server stays inside its buffers when it gets this target from the client. */
  ghost predicate Harmless(u: Uri, tid: nat, entity: seq<Byte>)
    requires u.port == DEFAULT_PORT || 256 <= u.port < 0x10000
  {
    if u.port != DEFAULT_PORT then (PortSurvives(u.port); HarmlessValues(u, tid, entity))
    else HarmlessValues(u, tid, entity)
  }

  ghost predicate HarmlessValues(u: Uri, tid: nat, entity: seq<Byte>)
    requires u.port != DEFAULT_PORT ==> |VarBytes(u.port)| >= 2
  {
    Contained([Decimal(tid)], HostValues(u), PortValues(u), PathValues(u), QueryValues(u, entity))
  }

  /** Then nothing is cut off, so that only a leading '&' is lost. */
  lemma HarmlessIntact(u: Uri, tid: nat, entity: seq<Byte>)
    requires u.port == DEFAULT_PORT || 256 <= u.port < 0x10000
    requires u.query != [] ==> NoEntity(Tokens(u.query, AMPERSAND))
    requires Harmless(u, tid, entity)
    ensures Intact(u) <==> u.query == [] || u.query[0] != AMPERSAND
  {
    if u.port != DEFAULT_PORT { PortSurvives(u.port); }
    var port := if u.port == DEFAULT_PORT then [] else Decimal(u.port);
    GatheredQuery(u, entity);
    if u.host != [] { FirstInside(u.host, 100); }
    PathInside(u);
    QueryInside(QueryValues(u, entity));
    TargetInside(u, port, Gathered(QueryValues(u, entity)));
  }

  /** The path pieces, when they stay inside, and when they surely do. */
  lemma PathInside(u: Uri)
    ensures Join(PathValues(u), SLASH) == u.path
    ensures Inside(PathPieces(PathValues(u)), 200) ==> |u.path| < 200
    ensures |u.path| <= 100 ==> Inside(PathPieces(PathValues(u)), 200)
  {
    var ps := PathPieces(PathValues(u));
    if u.path != [] { JoinTokens(u.path, SLASH); }
    PathPiecesAre(PathValues(u));
    if Inside(ps, 200) { InsideShort(ps, 200); }
    if |u.path| <= 100 { HalfInside(ps, 200); }
  }

  lemma QueryInside(vs: seq<seq<Byte>>)
    ensures Inside(QueryPieces(vs), 400) ==> |Gathered(vs)| < 400
    ensures |Gathered(vs)| <= 200 ==> Inside(QueryPieces(vs), 400)
    ensures |Entities(vs)| <= 200 ==> Inside(EntityPieces(vs), 400)
  {
    QueryPiecesAre(vs);
    EntityPiecesAre(vs);
    if Inside(QueryPieces(vs), 400) { InsideShort(QueryPieces(vs), 400); }
    if |Gathered(vs)| <= 200 { HalfInside(QueryPieces(vs), 400); }
    if |Entities(vs)| <= 200 { HalfInside(EntityPieces(vs), 400); }
  }

  lemma TargetInside(u: Uri, port: seq<Byte>, query: seq<Byte>)
    requires Part([COLON], port) == PortText(u.port) && |query| <= |u.query|
    ensures var ps := TargetPieces(u.host, port, u.path, query);
      && (Inside(ps, 400) && query == u.query ==> |Render(u)| < 400)
      && (|Render(u)| <= 200 ==> Inside(ps, 400))
  {
    var ps := TargetPieces(u.host, port, u.path, query);
    assert Render(u) == Assembled(u.host, port, u.path, u.query);
    PartShorter([QUESTION], query, u.query);
    TargetPiecesAre(u.host, port, u.path, query);
    if Inside(ps, 400) { InsideShort(ps, 400); }
    if |Render(u)| <= 200 { HalfInside(ps, 400); }
  }

  /** A single piece stays inside if and only if it takes no more than half of the buffer. */
  lemma FirstInside(p: seq<Byte>, max: nat)
    ensures Inside([p], max) <==> 2 * |p| <= max
  {
    var none: seq<seq<Byte>> := [];
    InsideSnoc(none, p, max);
    assert none + [p] == [p];
  }

  /** Targets that take no more than half of each buffer are harmless. */
  lemma HalfHarmless(u: Uri, tid: nat, entity: seq<Byte>)
    requires u.port == DEFAULT_PORT || 256 <= u.port < 0x10000
    requires u.query != [] ==> NoEntity(Tokens(u.query, AMPERSAND))
    requires |Decimal(tid)| <= 20 && |u.host| <= 50 && |u.path| <= 100 && |Render(u)| <= 200 && |entity| <= 200
    ensures Harmless(u, tid, entity)
  {
    if u.port != DEFAULT_PORT { PortSurvives(u.port); }
    var port := if u.port == DEFAULT_PORT then [] else Decimal(u.port);
    FirstInside(Decimal(tid), 40);
    FirstInside(u.host, 100);
    GatheredQuery(u, entity);
    PathInside(u);
    QueryInside(QueryValues(u, entity));
    QueryIn(u);
    TargetInside(u, port, Gathered(QueryValues(u, entity)));
  }

  lemma QueryIn(u: Uri)
    ensures |u.query| <= |Render(u)|
  {
  }

  // ----- The components of a target are C strings -----

  lemma PathZeroFree(s: seq<Byte>, p: seq<Byte>, u: Uri)
    requires |s| <= |p| && ZeroFree(s) && ZeroFree(p) && UriZeroFree(u)
    ensures UriZeroFree(SplitPath(s, p, u).uri)
  {
  }

  ghost predicate UriZeroFree(u: Uri) { ZeroFree(u.host) && ZeroFree(u.path) && ZeroFree(u.query) }

  lemma PortZeroFree(s: seq<Byte>, p: seq<Byte>, u: Uri)
    requires |s| <= |p| && ZeroFree(s) && ZeroFree(p) && UriZeroFree(u)
    ensures UriZeroFree(SplitPort(s, p, u).uri)
  {
    if s != [] && s[0] == COLON {
      var d := DigitSpan(s[1..]);
      var port := if d > 0 then Number(s[1..][..d]) % 0x10000 else u.port;
      PathZeroFree(s[1 + d..], s[1 + d..], u.(port := port));
    } else {
      PathZeroFree(s, p, u);
    }
  }

  lemma HostZeroFree(s: seq<Byte>)
    requires ZeroFree(s)
    ensures UriZeroFree(SplitHost(s).uri)
  {
    if s != [] && s[0] == OPEN {
      var k := Span(s, {CLOSE});
      if k != |s| && k != 1 {
        PortZeroFree(s[k + 1..], s[1..], NOTHING.(host := s[..k + 1]));
      }
    } else {
      var k := Span(s, {COLON, SLASH, QUESTION});
      if k != 0 {
        PortZeroFree(s[k..], s, NOTHING.(host := Lower(s[..k])));
      }
    }
  }

  lemma TargetZeroFree(s: seq<Byte>)
    requires ZeroFree(s)
    ensures UriZeroFree(SplitUri(s).uri)
  {
    if s != [] && s[0] == SLASH {
      PathZeroFree(s, s, NOTHING);
    } else {
      match AfterScheme(s) {
        case NoScheme =>
        case Before(rest) => HostZeroFree(rest);
      }
    }
  }

  lemma {:induction false} TokensZeroFree(s: seq<Byte>, c: Byte)
    requires ZeroFree(s)
    ensures AllZeroFree(Tokens(s, c))
    decreases |s|
  {
    var n := Span(s, {c});
    if n < |s| {
      TokensZeroFree(s[n + 1..], c);
    }
  }

  lemma ValuesClean(u: Uri, tid: nat, entity: seq<Byte>)
    requires UriZeroFree(u) && ZeroFree(entity)
    ensures Clean([Decimal(tid)], HostValues(u), PathValues(u), QueryValues(u, entity))
  {
    DecimalZeroFree(tid);
    TokensZeroFree(u.path, SLASH);
    TokensZeroFree(u.query, AMPERSAND);
    assert ZeroFree(ENTITY + entity);
  }

  // ----- The way of a target -----

  /** The server reads the values that the client sent. */
  method ReadParts(p: Pdu, ghost u: Uri, ghost ctt: seq<Byte>, ghost tid: nat, ghost entity: seq<Byte>)
    returns (types: seq<seq<Byte>>, tokens: seq<seq<Byte>>, hosts: seq<seq<Byte>>, ports: seq<seq<Byte>>,
      paths: seq<seq<Byte>>, queries: seq<seq<Byte>>)
    requires Carried(u, ctt, tid, entity)
    requires p.Valid() && (p.Open() <==> |p.wire| >= OPT_LONG)
    requires Addable(ClientOptions(u, ctt, tid, entity)) && p.wire == Encode(ClientOptions(u, ctt, tid, entity))
    ensures tokens == [Decimal(tid)] && hosts == HostValues(u) && ports == PortValues(u)
    ensures paths == PathValues(u) && queries == QueryValues(u, entity) && types == if ctt == [] then [] else [ctt]
  {
    ghost var bs := ClientBlocks(u, ctt, tid, entity);
    ClientNear(u, ctt, tid, entity);
    ClientValues(u, ctt, tid, entity);
    types := ReadNumber(p, CONTENT_TYPE, bs);
    tokens := ReadNumber(p, TOKEN, bs);
    hosts := ReadNumber(p, URI_HOST, bs);
    ports := ReadNumber(p, URI_PORT, bs);
    paths := ReadNumber(p, URI_PATH, bs);
    queries := ReadNumber(p, URI_QUERY, bs);
  }

  /** The server reads the values and rebuilds. */
  method Serve(p: Pdu, ghost u: Uri, ghost ctt: seq<Byte>, ghost tid: nat, ghost entity: seq<Byte>)
    returns (target: seq<Byte>, who: seq<Byte>, id: nat, types: seq<seq<Byte>>, inside: bool)
    requires Carried(u, ctt, tid, entity) && UriZeroFree(u) && ZeroFree(entity)
    requires p.Valid() && (p.Open() <==> |p.wire| >= OPT_LONG)
    requires Addable(ClientOptions(u, ctt, tid, entity)) && p.wire == Encode(ClientOptions(u, ctt, tid, entity))
    ensures who == entity && (target == Render(u) <==> Intact(u))
    ensures types == if ctt == [] then [] else [ctt]
    ensures (inside <==> Harmless(u, tid, entity)) && (inside ==> id == tid)
  {
    TargetSurvives(u, entity);
    ShortEntity(u, ctt, tid, entity);
    ValuesClean(u, tid, entity);
    var tokens, hosts, ports, paths, queries;
    types, tokens, hosts, ports, paths, queries := ReadParts(p, u, ctt, tid, entity);
    target, who, id, inside := ServerTarget(tokens, hosts, ports, paths, queries);
    FirstInside(Decimal(tid), 40);
    if inside { IdSurvives(tid); }
  }

  /**
   * The way of any target: every option is accepted if the message has room for them. The
   * writes of the server stay inside its buffers if and only if the target is harmless, and
   * then it learns transaction id, content type and requesting entity, and rebuilds the target
   * that names the same components if and only if the query does not begin with '&'. What the
   * buffers hold when a zero has missed them is stated as if it had hit nothing else.
   */
  method Travel(size: nat, target: seq<Byte>, ctt: seq<Byte>, tid: nat, entity: seq<Byte>)
    returns (ok: bool, rebuilt: seq<Byte>, who: seq<Byte>, id: nat, types: seq<seq<Byte>>, inside: bool)
    requires HEADER_SIZE <= size < 0x10000 && ZeroFree(target) && ZeroFree(entity)
    requires Carried(SplitUri(target).uri, ctt, tid, entity)
    ensures var u := SplitUri(target).uri;
      && Addable(ClientOptions(u, ctt, tid, entity))
      && (ok <==> AllFit(size, ClientOptions(u, ctt, tid, entity)))
      && (ok ==> who == entity && (rebuilt == Render(u) <==> Intact(u)))
      && (ok ==> types == if ctt == [] then [] else [ctt])
      && (ok ==> (inside <==> Harmless(u, tid, entity)) && (inside ==> id == tid))
      && (ok && inside ==> (rebuilt == Render(u) <==> u.query == [] || u.query[0] != AMPERSAND))
  {
    rebuilt, who, id, types, inside := [], [], 0, [], true;
    var split := ParseUri(target);
    var u := split.uri;
    TargetZeroFree(target);
    var bs := BuildOptions(u, ctt, tid, entity);
    ClientNear(u, ctt, tid, entity);
    var p;
    ok, p := Send(size, Blocks(bs));
    if ok {
      rebuilt, who, id, types, inside := Serve(p, u, ctt, tid, entity);
      if inside { HarmlessIntact(u, tid, entity); }
    }
  }

  lemma WrittenZeroFree(u: Uri, port: seq<Byte>)
    requires UriZeroFree(u) && ZeroFree(port)
    ensures ZeroFree(HostText(u.host) + (port + (PathText(u.path) + QueryText(u.query))))
  {
    var h, p, q := HostText(u.host), PathText(u.path), QueryText(u.query);
    assert ZeroFree(h) && ZeroFree(p) && ZeroFree(q);
    assert ZeroFree(port + (p + q));
  }

  /**
   * A target written in the form in which the server rebuilds it arrives as the client
   * gave it, if and only if it is intact; a port that is the default one is dropped on the
   * way. The writes stay inside the buffers if and only if it is harmless.
   */
  method TravelUnchanged(size: nat, u: Uri, explicit: bool, ctt: seq<Byte>, tid: nat, entity: seq<Byte>)
    returns (ok: bool, target: seq<Byte>, rebuilt: seq<Byte>, inside: bool)
    requires HEADER_SIZE <= size < 0x10000 && UriZeroFree(u) && ZeroFree(entity)
    requires Proper(u) && (explicit ==> u.host != []) && (Overlooked(u) ==> explicit)
    requires Carried(u, ctt, tid, entity)
    ensures var port := if explicit then [COLON] + Decimal(u.port) else PortText(u.port);
      target == HostText(u.host) + (port + (PathText(u.path) + QueryText(u.query)))
    ensures ok ==> (rebuilt == Render(u) <==> Intact(u)) && (inside <==> Harmless(u, tid, entity))
    ensures ok && (!explicit || u.port != DEFAULT_PORT) ==> (rebuilt == target <==> Intact(u))
    ensures ok && inside && (!explicit || u.port != DEFAULT_PORT) ==>
      (rebuilt == target <==> u.query == [] || u.query[0] != AMPERSAND)
  {
    var port := if explicit then [COLON] + Decimal(u.port) else PortText(u.port);
    target := HostText(u.host) + (port + (PathText(u.path) + QueryText(u.query)));
    RenderedPort(u.port);
    DecimalZeroFree(u.port);
    WrittenZeroFree(u, port);
    if explicit {
      WrittenAsIs(u);
      ParsesWritten(u, u.host, port);
    } else {
      ParsesRendered(u);
    }
    var who, id, types;
    ok, rebuilt, who, id, types, inside := Travel(size, target, ctt, tid, entity);
  }
}
