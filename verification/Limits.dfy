/** Inputs on which promises of the code fail; the exact conditions are proved beside the code. */
module Limits {
  import opened Bytes
  import opened Options
  import opened Iterators
  import opened Codec
  import opened Blocks
  import opened Transfer
  import opened Runs
  import Bits
  import ErrorResponses
  import Dispatch
  import UriPath
  import UriOptions
  import Targets
  import TargetOptions
  import TargetRuns
  import Strings

  /** A value of 256 bytes is announced as empty. */
  lemma LongValue(val: seq<Byte>)
    requires |val| == 256
    ensures LengthAt(SetHead(1, |val|) + val, 0) == 0
  {
    assert SetHead(1, 256) == [16];
  }

  /** A lone option numbered 14 * m + 2 needs `m` fence posts. */
  lemma {:induction false} FenceCount(k: nat, m: nat)
    requires k <= m
    ensures |Fences(NOOP * k, NOOP * m + 2)| == m - k
    decreases m - k
  {
    if k < m {
      assert NOOP * k + Gap(NOOP * k) == NOOP * (k + 1);
      FenceCount(k + 1, m);
    }
  }

  /** A fence post never looks like the end marker. */
  lemma {:induction false} FencesPlain(prev: nat, num: nat)
    ensures forall i | 0 <= i < |Fences(prev, num)| :: !LooksLikeEnd(Fences(prev, num)[i])
    decreases num - prev
  {
    if prev + 15 < num {
      FencesPlain(prev + Gap(prev), num);
    }
  }

  lemma LoneEncode(o: Opt)
    requires Addable([o])
    ensures Encode([o]) == WireOf(0, o) && Num(Encode([o])) == o.num
  {
    var none: seq<Wire> := [];
    assert [o][..0] == [];
    assert none + WireOf(0, o) == WireOf(0, o);
  }

  /** The wire form of a lone option: its fence posts, and the option behind them. */
  lemma LoneOption(o: Opt, m: nat)
    requires o.num == NOOP * m + 2 < 0x10000 && 0 < |o.val| <= 255
    ensures var ws := Encode([o]);
      |ws| == m + 1 && ReaderStop(ws) == |ws| && OptAt(ws, m) == o
  {
    var fs := Fences(0, o.num);
    LoneEncode(o);
    assert |fs| == m by { FenceCount(0, m); }
    FencesPlain(0, o.num);
    LastOf(fs, Wire(LastDelta(0, o.num), o.val));
  }

  /** The last wire option behind others, none of which looks like the end marker. */
  lemma LastOf(fs: seq<Wire>, w: Wire)
    requires w.val != [] && forall i | 0 <= i < |fs| :: !LooksLikeEnd(fs[i])
    ensures var ws := fs + [w]; ReaderStop(ws) == |ws| && OptAt(ws, |fs|) == Opt(Num(ws), w.val)
  {
    var ws := fs + [w];
    assert ws[..|fs| + 1] == ws;
    forall i | 0 <= i < |ws|
      ensures !LooksLikeEnd(ws[i])
    {
      if i < |fs| { assert ws[i] == fs[i]; }
    }
  }

  /** If its place is a multiple of 256, it is handed out more than once. */
  lemma ReadTwice(o: Opt, m: nat, pick: Opt -> bool)
    requires o.num == NOOP * m + 2 < 0x10000 && 0 < |o.val| <= 255 && (m + 1) % 256 == 0
    requires pick(o) && HidesFences(pick)
    ensures |Emit(Encode([o]), ReaderStop(Encode([o])), pick, 0, 1)| > |Select([o], pick)|
  {
    var ws := Encode([o]);
    LoneOption(o, m);
    EncodeShown([o], pick);
    assert ws[..|ws|] == ws && ws[..0] == [];
    assert WrapsAt(ws, pick, m);
    EmitIsMore(ws, |ws|, pick, 0, m);
  }

  /** The lone option 3572 is one of them. */
  lemma ReadTwiceAt3572(val: seq<Byte>, pick: Opt -> bool)
    requires 0 < |val| <= 255 && pick(Opt(3572, val)) && HidesFences(pick)
    ensures |Emit(Encode([Opt(3572, val)]), ReaderStop(Encode([Opt(3572, val)])), pick, 0, 1)|
      > |Select([Opt(3572, val)], pick)|
  {
    ReadTwice(Opt(3572, val), 255, pick);
  }

  /** An empty option with delta 15 ends an open-ended list before anything is read. */
  lemma Lookalike(ws: seq<Wire>, pick: Opt -> bool)
    requires |ws| >= OPT_LONG && ws[0] == Wire(15, [])
    ensures ReaderStop(ws) == 0 && Emit(ws, ReaderStop(ws), pick, 0, 1) == []
  {
    assert LooksLikeEnd(ws[0]);
  }

  /** The first block of the smallest size, when it is the last, is read as another block. */
  lemma ZeroBlock()
    ensures FromValue(2, VarBytes(Block(0, false, 0).Value())) == Block(2, false, 0)
  {
  }

  /** A message of 100 bytes with a Token of one byte has 94 bytes left. */
  lemma TokenOnly(o: Opt)
    requires ShortToken(o)
    ensures Roomy(100, [o]) && Space(100, [o]) == 94
  {
    var none: seq<Opt> := [];
    ErrorResponses.SizesSnoc(none, o);
    assert none + [o] == [o] && [o][0].num == TOKEN;
    SameOptions([o], o);
  }

  /** A request and a reply of 100 bytes each, in such messages: the client is handed the one behind the other. */
  method BothInBlocks(up: seq<Byte>, down: seq<Byte>) returns (atServer: seq<Byte>, atClient: seq<Byte>)
    requires |up| == |down| == 100
    ensures atServer == up && atClient == up + down != down
  {
    var o := Opt(TOKEN, [0x31]);
    var os := [o];
    var plan := Plan(i => 100, i => os);
    TokenPlan(plan, o);
    UsuallySafe(plan, 100, FIRST);
    DeliveredExact(plan, down, FIRST);
    atServer, atClient := Exchange(up, down, plan, plan);
  }

  lemma TokenPlan(plan: Plan, o: Opt)
    requires ShortToken(o) && forall i: nat :: plan.size(i) == 100 && plan.options(i) == [o]
    ensures plan.Usable() && plan.Room(0) == 94
  {
    TokenOnly(o);
    EqualPlan(plan, 100, [o]);
  }

  /** All messages of a plan alike. */
  lemma EqualPlan(plan: Plan, size: nat, os: seq<Opt>)
    requires Roomy(size, os) && forall i: nat :: plan.size(i) == size && plan.options(i) == os
    ensures plan.Usable() && forall i: nat :: plan.Room(i) == Space(size, os) && (plan.Opens(i) <==> Last(|Encode(os)|))
  {
    assert forall i: nat :: plan.Ready(i);
  }

  // ----- A block that does not fit behind its option -----

  /** Block `k` of 1024 bytes of 2^24, sent in 1028 free bytes. */
  lemma FullBlock(k: nat)
    requires k <= 4096
    ensures CanSend(1028, Block(k, false, 6), MAX_DATA)
    ensures NextBlock(Block(k, false, 6), 1028, MAX_DATA) == Block(k, true, 6)
    ensures After(Block(k, true, 6)) == Block(k + 1, false, 6)
  {
    var b := Block(k, false, 6);
    Kilobyte();
    assert b.Start() == k * 1024;
    assert Avail(1028) == 1024;
  }

  lemma Kilobyte()
    ensures Pow2(10) == 1024
  {
    assert Pow2(5) == 32;
    Pow2Add(5, 5);
  }

  /** Block 4096 has an option value of three bytes; with an end marker behind it there are 1023 bytes left. */
  lemma BlockTooBig()
    ensures !Whole(true, 1028, Block(4096, true, 6), MAX_DATA)
  {
    var c := Block(4096, true, 6);
    Kilobyte();
    assert c.Value() == 65550;
    VarBytesLength(65550, 2);
    Pow2Words();
    Pow2Add(8, 8);
  }

  /** Every message has fourteen wire options and 1028 free bytes. */
  ghost predicate Tight(plan: Plan) {
    plan.Usable() && forall i: nat :: plan.Room(i) == 1028 && plan.Opens(i)
  }

  lemma FullStep(plan: Plan, n: nat, k: nat, i: nat)
    requires Tight(plan) && n == MAX_DATA && k <= 4096
    ensures Asked(plan, n, Block(k, false, 6), i) && Asked(plan, n, Block(k + 1, false, 6), i + 2)
    ensures Lossless(plan, n, Block(k, false, 6), i) <==>
      Whole(true, 1028, Block(k, true, 6), n) && Lossless(plan, n, Block(k + 1, false, 6), i + 2)
  {
    FullBlock(k);
    LosslessStep(plan, n, Block(k, false, 6), i, Block(k, true, 6));
  }

  /** A block is lost from block `k` in message `i` on. */
  ghost predicate Loses(plan: Plan, n: nat, k: nat, i: nat) {
    Asked(plan, n, Block(k, false, 6), i) && !Lossless(plan, n, Block(k, false, 6), i)
  }

  lemma HoleHere(plan: Plan, n: nat, k: nat, i: nat)
    requires Tight(plan) && n == MAX_DATA && k == 4096
    ensures Loses(plan, n, k, i)
  {
    FullStep(plan, n, k, i);
    BlockTooBig();
  }

  lemma HoleBehind(plan: Plan, n: nat, k: nat, i: nat)
    requires Tight(plan) && n == MAX_DATA && k < 4096 && Loses(plan, n, k + 1, i + 2)
    ensures Loses(plan, n, k, i)
  {
    FullStep(plan, n, k, i);
  }

  /** So an upload of 2^24 bytes in such messages loses a block. */
  lemma {:induction false} Hole(plan: Plan, n: nat, k: nat, i: nat)
    requires Tight(plan) && n == MAX_DATA && k <= 4096
    ensures Loses(plan, n, k, i)
    decreases 4096 - k
  {
    if k == 4096 {
      HoleHere(plan, n, k, i);
    } else {
      Hole(plan, n, k + 1, i + 2);
      HoleBehind(plan, n, k, i);
    }
  }

  /** The same option `n` times. */
  function Copies(o: Opt, n: nat): seq<Opt> { if n == 0 then [] else Copies(o, n - 1) + [o] }

  predicate ShortToken(o: Opt) { o.num == TOKEN && |o.val| == 1 }

  lemma {:induction false} CopiesAre(o: Opt, n: nat)
    ensures |Copies(o, n)| == n && forall i | 0 <= i < n :: Copies(o, n)[i] == o
  {
    if n > 0 {
      CopiesAre(o, n - 1);
    }
  }

  lemma {:induction false} CopiesSize(o: Opt, n: nat)
    requires ShortToken(o)
    ensures ErrorResponses.Sizes(Copies(o, n)) == 2 * n
  {
    if n > 0 {
      CopiesSize(o, n - 1);
      ErrorResponses.SizesSnoc(Copies(o, n - 1), o);
    }
  }

  /** The wire form of Tokens of one byte takes two bytes for each. */
  lemma CopiesEncode(o: Opt, n: nat)
    requires ShortToken(o)
    ensures |Copies(o, n)| == n && (forall i | 0 <= i < n :: Copies(o, n)[i] == o) && Addable(Copies(o, n))
    ensures |Encode(Copies(o, n))| == Stop(Encode(Copies(o, n))) == n && |Flat(Encode(Copies(o, n)))| == 2 * n
  {
    CopiesAre(o, n);
    CopiesSize(o, n);
    SameOptions(Copies(o, n), o);
  }

  lemma SameOptions(os: seq<Opt>, o: Opt)
    requires ShortToken(o) && (forall i | 0 <= i < |os| :: os[i] == o) && ErrorResponses.Sizes(os) == 2 * |os|
    ensures Addable(os) && |Encode(os)| == Stop(Encode(os)) == |os| && |Flat(Encode(os))| == 2 * |os|
  {
    CloseEncode(os);
    ErrorResponses.EncodedSize(os);
  }

  /** The bytes that arrive are not the bytes sent. */
  method UploadWithHole(data: seq<Byte>) returns (delivered: seq<Byte>)
    requires |data| == MAX_DATA
    ensures delivered != data
  {
    var o := Opt(TOKEN, [0x31]);
    var os := Copies(o, 14);
    var plan := Plan(i => 1060, i => os);
    TightPlan(plan, o, 14);
    Hole(plan, |data|, 0, 0);
    var client := new DiaRequest();
    var server := new DiaRequest();
    var blocks;
    delivered, blocks := Upload(client, server, data, plan);
  }

  lemma TightPlan(plan: Plan, o: Opt, n: nat)
    requires ShortToken(o) && n == 14 && forall i: nat :: plan.size(i) == 1060 && plan.options(i) == Copies(o, n)
    ensures Tight(plan)
  {
    var os := Copies(o, n);
    CopiesEncode(o, n);
    assert os[0].num == TOKEN;
    assert Roomy(1060, os);
    EqualPlan(plan, 1060, os);
  }

  /** A segment that is a single dot is part of the path's key, but not of any request. */
  lemma DotPath(path: seq<Byte>)
    requires path == [UriPath.DOT]
    ensures UriPath.Joined(UriOptions.Values(UriPath.Segments(UriPath.PATH, path))) == []
    ensures UriPath.Stream(path) == path
  {
    assert UriPath.SegmentLength(UriPath.PATH, path) == 1 by { assert path[1..] == []; }
    assert path[..1] == path && path[1..] == [];
    assert UriPath.Segments(UriPath.PATH, path) == [path];
    assert [UriPath.DOT][..1] == [UriPath.DOT] && UriOptions.Skipped(path);
    assert UriOptions.Values([path][..0]) == [];
    assert UriPath.Before(UriPath.PATH, path) == path && UriPath.Bare(UriPath.PATH, path) == path;
    assert UriOptions.Values([path]) == [];
  }

  /** A query of a single '&' is not seen by the server. */
  lemma LostAmpersand(query: seq<Byte>)
    requires query == [Targets.AMPERSAND]
    ensures TargetOptions.Gathered(TargetOptions.Tokens(query, Targets.AMPERSAND)) == []
  {
    var none: seq<Byte> := [];
    assert query[..0] == none && query[1..] == none;
    assert Targets.Span(query, {Targets.AMPERSAND}) == 0;
    assert TargetOptions.Tokens(query, Targets.AMPERSAND) == [none] + [none];
    var ts: seq<seq<Byte>> := [none] + [none];
    assert ts[..1] == [none] && ts[..1][..0] == [];
    assert TargetOptions.Gathered(ts[..1]) == none;
  }

  /** A host of 51 bytes: the zero is written at position 102 of a buffer of 101 bytes. */
  lemma StrayZero(b: seq<Byte>, host: seq<Byte>)
    requires |b| == 101 && (forall i | 0 <= i < 101 :: b[i] == 0) && |host| == 51 && Strings.ZeroFree(host)
    ensures Strings.StrCat(b, host, 100).at == 102
  {
    Strings.StrCatHolds(b, [], host, 100);
  }

  /** So no target with such a host is harmless, and it may be intact. */
  lemma HostOf51(u: Targets.Uri, tid: nat, entity: seq<Byte>)
    requires u.port == Targets.DEFAULT_PORT || 256 <= u.port < 0x10000
    requires |u.host| == 51
    ensures !TargetRuns.Harmless(u, tid, entity)
    ensures u.port == Targets.DEFAULT_PORT && u.path == [] && u.query == [] ==> TargetOptions.Intact(u)
  {
    if u.port != Targets.DEFAULT_PORT { TargetOptions.PortSurvives(u.port); }
    TargetRuns.FirstInside(u.host, 100);
  }

  /** A segment "%4" with the digit 1 behind it in memory. */
  lemma HalfEscape(s: seq<Byte>)
    requires s == [UriPath.PERCENT, 0x34]
    ensures UriOptions.RunsOff(s, 0x31) && !UriOptions.WellEscaped(s)
  {
  }

  /** An elective option numbered 26 is repeated in a 4.02 response that should not contain it. */
  lemma ElectiveRepeated(o: Opt, known: Bits.Vec)
    requires o.num == 26
    ensures Dispatch.Repeats([o], known) != Dispatch.Unknowns([o], known)
  {
    Dispatch.RepeatsExact([o], known);
    assert [o][0].num >= 24 && !Hidden([o][0]) && !ErrorResponses.Bad([o][0], known);
  }
}
