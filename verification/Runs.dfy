/** Whole block-wise transfers between two dIa peers, message by message. */
module Runs {
  import opened Bytes
  import opened Options
  import opened Pdus
  import opened Codec
  import opened Blocks
  import opened Transfer
  import Seqs

  /**
   * Options and message size that leave room for a block option and a 16-byte block:
   * what setUriParameters, diaResponse and copy_options put into a message beforehand.
   * A Token is among these options, and all are numbered below the block options.
   */
  ghost predicate Roomy(size: nat, os: seq<Opt>) {
    && HEADER_SIZE <= size < 0x10000
    && Addable(os) && (exists k :: 0 <= k < |os| && os[k].num == TOKEN) && os[|os| - 1].num < BLOCK2
    && |Encode(os)| < OPT_LONG && (Last(|Encode(os)|) ==> Stop(Encode(os)) == |Encode(os)|)
    && HEADER_SIZE + |Flat(Encode(os))| + 20 <= size
  }

  /** The bytes left for the payload behind these options. */
  ghost function Space(size: nat, os: seq<Opt>): int
    requires Addable(os)
  {
    size - HEADER_SIZE - |Flat(Encode(os))|
  }

  /** The messages of a run: message `i` has size `size(i)` and options `options(i)`. */
  datatype Plan = Plan(size: nat -> nat, options: nat -> seq<Opt>) {
    ghost predicate Ready(i: nat) { Roomy(size(i), options(i)) }

    ghost predicate Usable() {
      forall i: nat :: Ready(i)
    }

    /** The payload that message `i` has room for. */
    ghost function Room(i: nat): (free: nat)
      requires Usable()
      ensures 20 <= free < 0x10000
    {
      assert Ready(i);
      Space(size(i), options(i))
    }

    /** A block option would open the option list of message `i`. */
    ghost predicate Opens(i: nat)
      requires Usable()
    {
      assert Ready(i);
      Last(|Encode(options(i))|)
    }
  }

  /** Message number `i` of a run, with its ordinary options in place. */
  method NewMessage(plan: Plan, i: nat) returns (p: Pdu)
    requires plan.Usable()
    ensures fresh(p) && fresh(p.buf) && Prepared(p)
    ensures Free(p) == plan.Room(i) && (Last(|p.wire|) <==> plan.Opens(i))
  {
    var os := plan.options(i);
    assert plan.Ready(i);
    p := new Pdu(plan.size(i));
    forall k | 0 <= k < |os|
      ensures Counted(os, k)
    {
      ShorterPrefixes(os, k);
    }
    var ok := AddAll(p, os);
    ghost var k :| 0 <= k < |os| && os[k].num == TOKEN;
    ghost var j := EncodeHas(os, k);
  }

  // ----- What arrives -----

  /** Block `b` of `n` bytes is asked for, and message `i` of the plan is going to hold it. */
  ghost predicate Asked(plan: Plan, n: nat, b: Block, i: nat) {
    plan.Usable() && CanSend(plan.Room(i), b, n)
  }

  /** The block that is sent then. */
  ghost function SentBlock(plan: Plan, n: nat, b: Block, i: nat): (c: Block)
    requires Asked(plan, n, b, i)
    ensures Answers(c, b, plan.Room(i), n)
    ensures c.m ==> Asked(plan, n, After(c), i + 2) && After(c).Value() != 0
    ensures c.m ==> b.Start() < After(c).Start() == c.Start() + c.Size()
  {
    NextAnswers(b, plan.Room(i), n);
    var c := NextBlock(b, plan.Room(i), n);
    if c.m then AfterFollows(n, c); c else c
  }

  /**
   * No block is lost from block `b` in message `i` on: option and bytes of every block fit
   * into the message that the plan has for it.
   */
  ghost predicate Lossless(plan: Plan, n: nat, b: Block, i: nat)
    requires Asked(plan, n, b, i)
    decreases n - b.Start()
  {
    var c := SentBlock(plan, n, b, i);
    Whole(plan.Opens(i), plan.Room(i), c, n) && (c.m ==> Lossless(plan, n, After(c), i + 2))
  }

  lemma LosslessStep(plan: Plan, n: nat, b: Block, i: nat, c: Block)
    requires Asked(plan, n, b, i) && c == NextBlock(b, plan.Room(i), n)
    ensures c == SentBlock(plan, n, b, i)
    ensures c.m ==> Asked(plan, n, After(c), i + 2)
    ensures Lossless(plan, n, b, i) <==>
      Whole(plan.Opens(i), plan.Room(i), c, n) && (c.m ==> Lossless(plan, n, After(c), i + 2))
  {
  }

  /** The bytes that the peer is sent from block `b` in message `i` on. */
  ghost function Arrives(plan: Plan, data: seq<Byte>, b: Block, i: nat): (got: seq<Byte>)
    requires Asked(plan, |data|, b, i)
    decreases |data| - b.Start()
  {
    var c := SentBlock(plan, |data|, b, i);
    Part(plan.Opens(i), plan.Room(i), c, data) + if c.m then Arrives(plan, data, After(c), i + 2) else []
  }

  /** What arrives is the rest of the data if no block is lost, and else it is shorter. */
  ghost predicate Exact(plan: Plan, data: seq<Byte>, b: Block, i: nat) {
    && Asked(plan, |data|, b, i)
    && var got := Arrives(plan, data, b, i);
       if Lossless(plan, |data|, b, i) then got == data[b.Start()..] else |got| < |data| - b.Start()
  }

  lemma {:induction false} ArrivesExact(plan: Plan, data: seq<Byte>, b: Block, i: nat)
    requires Asked(plan, |data|, b, i)
    ensures Exact(plan, data, b, i)
    decreases |data| - b.Start()
  {
    var c := SentBlock(plan, |data|, b, i);
    if c.m {
      ArrivesExact(plan, data, After(c), i + 2);
      MoreExact(plan, data, b, i, c);
    } else {
      LastExact(plan, data, b, i, c);
    }
  }

  lemma MoreExact(plan: Plan, data: seq<Byte>, b: Block, i: nat, c: Block)
    requires Asked(plan, |data|, b, i) && c == SentBlock(plan, |data|, b, i) && c.m
    requires Exact(plan, data, After(c), i + 2)
    ensures Exact(plan, data, b, i)
  {
    var part, rest := Part(plan.Opens(i), plan.Room(i), c, data), Arrives(plan, data, After(c), i + 2);
    ArrivesStep(plan, data, b, i, c);
    JoinExact(data, c, Whole(plan.Opens(i), plan.Room(i), c, |data|), part,
              Lossless(plan, |data|, After(c), i + 2), rest);
  }

  lemma LastExact(plan: Plan, data: seq<Byte>, b: Block, i: nat, c: Block)
    requires Asked(plan, |data|, b, i) && c == SentBlock(plan, |data|, b, i) && !c.m
    ensures Exact(plan, data, b, i)
  {
    ArrivesStep(plan, data, b, i, c);
    ChunkRest(data, c);
  }

  /** A block with more to follow, and what arrives of the rest. */
  lemma JoinExact(data: seq<Byte>, c: Block, whole: bool, part: seq<Byte>, ok: bool, rest: seq<Byte>)
    requires c.Start() + c.Size() < |data| && part == if whole then Chunk(data, c) else []
    requires ok ==> rest == data[c.Start() + c.Size()..]
    requires !ok ==> |rest| < |data| - (c.Start() + c.Size())
    ensures whole && ok ==> part + rest == data[c.Start()..]
    ensures !(whole && ok) ==> |part + rest| < |data| - c.Start()
  {
    ChunkRest(data, c);
  }

  lemma ArrivesStep(plan: Plan, data: seq<Byte>, b: Block, i: nat, c: Block)
    requires Asked(plan, |data|, b, i) && c == SentBlock(plan, |data|, b, i)
    ensures c.m ==>
      Arrives(plan, data, b, i) == Part(plan.Opens(i), plan.Room(i), c, data) + Arrives(plan, data, After(c), i + 2)
    ensures !c.m ==> Arrives(plan, data, b, i) == Part(plan.Opens(i), plan.Room(i), c, data)
  {
  }

  /** The bytes of a block and those behind it. */
  lemma ChunkRest(data: seq<Byte>, c: Block)
    requires c.Start() < |data|
    ensures 0 < |Chunk(data, c)| == Min(|data| - c.Start(), c.Size())
    ensures c.Start() + c.Size() < |data| ==> data[c.Start()..] == Chunk(data, c) + data[c.Start() + c.Size()..]
    ensures c.Start() + c.Size() >= |data| ==> data[c.Start()..] == Chunk(data, c)
  {
  }

  /** A block option of four bytes with an end marker behind it is what can make a block not fit. */
  lemma FitsUnless(last: bool, free: nat, c: Block, b: Block, n: nat)
    requires Answers(c, b, free, n)
    ensures Whole(last, free, c, n) || (last && c.Value() >= 0x1_0000 && Min(n - c.Start(), c.Size()) == free - 4)
  {
    BlockBytes(c);
    VarBytesLength(c.Value(), 2);
    Pow2Words();
    Pow2Add(8, 8);
  }

  /** Nothing is lost if no block option opens an option list. */
  lemma {:induction false} CountedLossless(plan: Plan, n: nat, b: Block, i: nat)
    requires Asked(plan, n, b, i) && forall j: nat :: !plan.Opens(j)
    ensures Lossless(plan, n, b, i)
    decreases n - b.Start()
  {
    var c := SentBlock(plan, n, b, i);
    FitsUnless(plan.Opens(i), plan.Room(i), c, b, n);
    if c.m {
      CountedLossless(plan, n, After(c), i + 2);
    }
  }

  /** Nothing is lost of up to 65536 bytes, whatever the messages. */
  lemma {:induction false} ShortLossless(plan: Plan, n: nat, b: Block, i: nat)
    requires Asked(plan, n, b, i) && n <= 0x1_0000
    ensures Lossless(plan, n, b, i)
    decreases n - b.Start()
  {
    var c := SentBlock(plan, n, b, i);
    FitsUnless(plan.Opens(i), plan.Room(i), c, b, n);
    SmallNumber(c);
    if c.m {
      ShortLossless(plan, n, After(c), i + 2);
    }
  }

  /** Blocks that begin below 65536 have option values of two bytes. */
  lemma SmallNumber(c: Block)
    requires c.Valid() && c.Start() < 0x1_0000
    ensures c.Value() < 0x1_0000
  {
    Pow2Mono(4, c.szx + 4);
    assert Pow2(4) == 16;
    SixteenTimes(c.num, c.Size());
  }

  lemma SixteenTimes(num: nat, size: nat)
    requires size >= 16
    ensures num * 16 <= num * size
  {
  }

  /** The block after one with more to follow begins where that one ends. */
  lemma AfterFollows(n: nat, b: Block)
    requires b.Valid() && b.Start() + b.Size() < n <= MAX_DATA
    ensures After(b).Valid() && After(b).Value() != 0
    ensures b.Start() < After(b).Start() == b.Start() + b.Size() < n
  {
    NextStart(b.num, b.Size());
    NumberFits(b.num + 1, b.szx);
    AfterIs(b);
  }

  lemma NextStart(num: nat, size: nat)
    ensures (num + 1) * size == num * size + size
  {
  }

  lemma AfterIs(b: Block)
    requires b.Valid() && b.num + 1 < NUM_MOD
    ensures After(b).Valid() && After(b).Value() != 0 && After(b).Start() == (b.num + 1) * b.Size()
  {
    assert After(b) == Block(b.num + 1, false, b.szx);
  }

  /** A delivered message still holds its block. */
  method Transmit(p: Pdu, t: nat, ghost b: Block) returns (q: Pdu)
    requires HoldsBlock(p, t, b)
    ensures fresh(q) && fresh(q.buf) && HoldsBlock(q, t, b) && q.Payload() == p.Payload()
  {
    q := Deliver(p);
  }

  /** Message `i` of the plan, sent because block `b` of `data` was asked for. */
  ghost predicate Going(p: Pdu, t: nat, c: Block, plan: Plan, data: seq<Byte>, b: Block, i: nat)
    reads p, p.buf
  {
    && Asked(plan, |data|, b, i) && c == SentBlock(plan, |data|, b, i)
    && HoldsBlock(p, t, c) && p.Payload() == Part(plan.Opens(i), plan.Room(i), c, data)
  }

  lemma GoingOut(p: Pdu, t: nat, c: Block, plan: Plan, data: seq<Byte>, b: Block, i: nat)
    requires Asked(plan, |data|, b, i) && Sends(p, t, c, b, plan.Opens(i), plan.Room(i), data)
    ensures Going(p, t, c, plan, data, b, i)
  {
    assert SentBlock(plan, |data|, b, i) == NextBlock(b, plan.Room(i), |data|);
  }

  /** If block `c` has more to follow, the block after it can be asked for and sent in message `i`. */
  ghost predicate Follows(plan: Plan, n: nat, c: Block, i: nat) {
    c.m ==> Asked(plan, n, After(c), i) && After(c).Value() != 0
  }

  /** What the peer has got so far, and what is still to come. */
  lemma GotMore(plan: Plan, data: seq<Byte>, b: Block, i: nat, c: Block, got: seq<Byte>)
    requires Asked(plan, |data|, b, i) && c == SentBlock(plan, |data|, b, i)
    ensures got + Arrives(plan, data, b, i) == (got + Part(plan.Opens(i), plan.Room(i), c, data))
      + if c.m then Arrives(plan, data, After(c), i + 2) else []
  {
    ArrivesStep(plan, data, b, i, c);
    if c.m {
      Seqs.Assoc(got, Part(plan.Opens(i), plan.Room(i), c, data), Arrives(plan, data, After(c), i + 2));
    }
  }

  /** The block that a transfer begins with unless another size was proposed. */
  const FIRST: Block := Block(0, false, 6)

  /** What a transfer of `data` hands over: all of it in one message, or what arrives in blocks. */
  ghost function Delivered(plan: Plan, data: seq<Byte>, first: Block): seq<Byte>
    requires plan.Usable() && |data| <= MAX_DATA && first.Valid() && first.num == 0
  {
    if |data| <= plan.Room(0) then data else Arrives(plan, data, first, 0)
  }

  /** A transfer of `n` bytes is whole: they fit into one message, or no block is lost. */
  ghost predicate Safe(plan: Plan, n: nat, first: Block)
    requires plan.Usable() && n <= MAX_DATA && first.Valid() && first.num == 0
  {
    n <= plan.Room(0) || Lossless(plan, n, first, 0)
  }

  lemma DeliveredExact(plan: Plan, data: seq<Byte>, first: Block)
    requires plan.Usable() && |data| <= MAX_DATA && first.Valid() && first.num == 0
    ensures Delivered(plan, data, first) == data <==> Safe(plan, |data|, first)
  {
    if |data| > plan.Room(0) {
      ArrivesExact(plan, data, first, 0);
    }
  }

  /** Up to 65536 bytes, or in counted messages, every transfer is whole. */
  lemma UsuallySafe(plan: Plan, n: nat, first: Block)
    requires plan.Usable() && n <= MAX_DATA && first.Valid() && first.num == 0
    requires n <= 0x1_0000 || forall i: nat :: !plan.Opens(i)
    ensures Safe(plan, n, first)
  {
    if n > plan.Room(0) {
      if n <= 0x1_0000 {
        ShortLossless(plan, n, first, 0);
      } else {
        CountedLossless(plan, n, first, 0);
      }
    }
  }

  // ----- Which blocks go out -----

  /** The blocks that are sent from block `b` in message `i` on. */
  ghost function BlocksSent(plan: Plan, n: nat, b: Block, i: nat): seq<Block>
    requires Asked(plan, n, b, i)
    decreases n - b.Start()
  {
    var c := SentBlock(plan, n, b, i);
    [c] + if c.m then BlocksSent(plan, n, After(c), i + 2) else []
  }

  /** No block is larger than the one before it. */
  ghost predicate Shrinking(bs: seq<Block>) { forall i, j | 0 <= i <= j < |bs| :: bs[j].szx <= bs[i].szx }

  lemma {:induction false} BlocksShrink(plan: Plan, n: nat, b: Block, i: nat)
    requires Asked(plan, n, b, i)
    ensures Shrinking(BlocksSent(plan, n, b, i))
    ensures forall k | 0 <= k < |BlocksSent(plan, n, b, i)| :: BlocksSent(plan, n, b, i)[k].szx <= b.szx
    decreases n - b.Start()
  {
    var c := SentBlock(plan, n, b, i);
    if c.m {
      BlocksShrink(plan, n, After(c), i + 2);
    }
  }

  /** The blocks sent so far, and those still to come. */
  lemma SentMore(plan: Plan, n: nat, b: Block, i: nat, c: Block, sent: seq<Block>)
    requires Asked(plan, n, b, i) && c == SentBlock(plan, n, b, i)
    ensures sent + BlocksSent(plan, n, b, i) ==
      (sent + [c]) + if c.m then BlocksSent(plan, n, After(c), i + 2) else []
  {
    Seqs.Assoc(sent, [c], if c.m then BlocksSent(plan, n, After(c), i + 2) else []);
  }

  // ----- Uploads -----

  /**
   * One round of an upload: the server stores what came with the block in `p` and asks for
   * the next block, and the client answers with the message `next`.
   */
  method UploadRound(client: DiaRequest, server: DiaRequest, p: Pdu, plan: Plan, i: nat)
    returns (r: Outcome, next: Pdu)
    requires client != server && plan.Usable()
    requires HoldsBlock(p, BLOCK1, client.block1) && Follows(plan, |client.payload|, client.block1, i + 2)
    modifies client, server
    ensures client.payload == old(client.payload) && server.block2 == Block(0, false, 0) && !server.earlyNego
    ensures server.payload == old(server.payload) + old(p.Payload())
    ensures old(client.block1).m ==>
      r == Continue && Going(next, BLOCK1, client.block1, plan, client.payload, After(old(client.block1)), i + 2)
    ensures !old(client.block1).m ==> r == Complete(server.payload)
  {
    ghost var c := client.block1;
    var answer;
    r, answer := ServerHalf(server, p, c, plan, i + 1);
    if r != Continue {
      return r, answer;
    }
    next := SendNext(client, answer, After(c), plan, i + 2);
  }

  /** The client's half: send the block that is asked for. */
  method SendNext(client: DiaRequest, answer: Pdu, ghost b: Block, plan: Plan, i: nat) returns (next: Pdu)
    requires Asked(plan, |client.payload|, b, i)
    requires HoldsBlock(answer, BLOCK1, b)
    modifies client
    ensures client.payload == old(client.payload)
    ensures Going(next, BLOCK1, client.block1, plan, client.payload, b, i)
  {
    next := NewMessage(plan, i);
    var reply := Transmit(answer, BLOCK1, b);
    var answered := client.HndResponse(reply, next, b);
    GoingOut(next, BLOCK1, client.block1, plan, client.payload, b, i);
  }

  /** The server's half: store what came with the block and ask for the next one. */
  method ServerHalf(server: DiaRequest, p: Pdu, ghost c: Block, plan: Plan, i: nat) returns (r: Outcome, answer: Pdu)
    requires HoldsBlock(p, BLOCK1, c) && (c.m ==> After(c).Value() != 0) && plan.Usable()
    modifies server
    ensures server.payload == old(server.payload + p.Payload())
    ensures c.m ==> r == Continue && HoldsBlock(answer, BLOCK1, After(c))
    ensures !c.m ==> r == Complete(server.payload)
    ensures server.block2 == Block(0, false, 0) && !server.earlyNego
  {
    answer := NewMessage(plan, i);
    var q := Transmit(p, BLOCK1, c);
    r := server.HndRequest(q, answer, c);
  }

  /** A message without block option: the server passes its payload on at once. */
  method UploadWhole(server: DiaRequest, p: Pdu, plan: Plan) returns (delivered: seq<Byte>)
    requires p.Valid() && !p.Open() && Num(p.wire) < BLOCK2 && HasToken(p.wire) && plan.Usable()
    modifies server
    ensures delivered == p.Payload() && server.block2 == Block(0, false, 0) && !server.earlyNego
  {
    var q := Deliver(p);
    NoBlock(q, BLOCK1);
    NoBlock(q, BLOCK2);
    TokenSeen(q);
    var answer := NewMessage(plan, 1);
    var r := server.HndRequest(q, answer, Block(0, false, 0));
    delivered := r.ctt;
  }

  /**
   * A whole upload, every message delivered once and in order: for every payload of up
   * to 2^24 bytes and all message sizes and options, the server hands exactly the
   * client's bytes to the application, if and only if no block is lost. Block sizes may
   * shrink at every message.
   */
  method Upload(client: DiaRequest, server: DiaRequest, data: seq<Byte>, plan: Plan)
    returns (delivered: seq<Byte>, withBlocks: bool)
    requires client != server && |data| <= MAX_DATA && plan.Usable()
    requires client.payload == server.payload == [] && client.block1 == Block(0, false, 0)
    modifies client, server
    ensures delivered == Delivered(plan, data, FIRST)
    ensures delivered == data <==> Safe(plan, |data|, FIRST)
    ensures withBlocks <==> |data| > plan.Room(0)
    ensures client.payload == if withBlocks then data else []
    ensures server.block2 == Block(0, false, 0) && !server.earlyNego
  {
    DeliveredExact(plan, data, FIRST);
    var p := NewMessage(plan, 0);
    withBlocks := client.Request(p, data);
    if withBlocks {
      GoingOut(p, BLOCK1, client.block1, plan, data, FIRST, 0);
      delivered := UploadRest(client, server, p, data, plan);
    } else {
      delivered := UploadWhole(server, p, plan);
    }
  }

  /** The rounds of an upload after its first block has been sent. */
  method UploadRest(client: DiaRequest, server: DiaRequest, first: Pdu, ghost data: seq<Byte>,
                    plan: Plan) returns (delivered: seq<Byte>)
    requires client != server && client.payload == data && server.payload == []
    requires Going(first, BLOCK1, client.block1, plan, data, FIRST, 0)
    modifies client, server
    ensures delivered == Arrives(plan, data, FIRST, 0)
    ensures client.payload == data && server.block2 == Block(0, false, 0) && !server.earlyNego
  {
    var p, i := first, 0;
    ghost var b, total := FIRST, Arrives(plan, data, FIRST, 0);
    assert [] + total == total;
    while true
      invariant client.payload == data && Going(p, BLOCK1, client.block1, plan, data, b, i)
      invariant server.payload + Arrives(plan, data, b, i) == total
      decreases |data| - b.Start()
    {
      ghost var c := client.block1;
      GotMore(plan, data, b, i, c, server.payload);
      var r;
      r, p := UploadRound(client, server, p, plan, i);
      if r.Complete? {
        return r.ctt;
      }
      i, b := i + 2, After(c);
    }
  }

  // ----- Downloads -----

  /**
   * One round of a download: the client stores what came with the block in `p` and asks for
   * the next block, and the server answers with the message `next`. The server keeps the
   * reply until it has sent the last block.
   */
  method DownloadRound(client: DiaRequest, server: DiaRequest, p: Pdu, plan: Plan, ghost data: seq<Byte>,
                       i: nat) returns (r: Outcome, next: Pdu)
    requires client != server && server.payload == (if server.block2.m then data else []) && plan.Usable()
    requires HoldsBlock(p, BLOCK2, server.block2) && Follows(plan, |data|, server.block2, i + 2)
    modifies client, server
    ensures server.payload == if server.block2.m then data else []
    ensures client.payload == old(client.payload) + old(p.Payload())
    ensures old(server.block2).m ==>
      r == Continue && Going(next, BLOCK2, server.block2, plan, data, After(old(server.block2)), i + 2)
    ensures !old(server.block2).m ==> r == Complete(client.payload) && server.payload == []
  {
    ghost var c := server.block2;
    var ask;
    r, ask := ClientHalf(client, p, c, plan, i + 1);
    if r != Continue {
      return r, ask;
    }
    next := AnswerNext(server, ask, After(c), plan, i + 2);
  }

  /** The client's half: store what came with the block and ask for the next one. */
  method ClientHalf(client: DiaRequest, p: Pdu, ghost c: Block, plan: Plan, i: nat) returns (r: Outcome, ask: Pdu)
    requires HoldsBlock(p, BLOCK2, c) && (c.m ==> After(c).Value() != 0) && plan.Usable()
    modifies client
    ensures client.payload == old(client.payload + p.Payload())
    ensures c.m ==> r == Continue && HoldsBlock(ask, BLOCK2, After(c))
    ensures !c.m ==> r == Complete(client.payload)
  {
    ask := NewMessage(plan, i);
    var q := Transmit(p, BLOCK2, c);
    r := client.HndResponse(q, ask, c);
  }

  /** The server's half: send the block that is asked for, and forget the reply with its last block. */
  method AnswerNext(server: DiaRequest, ask: Pdu, ghost b: Block, plan: Plan, i: nat) returns (next: Pdu)
    requires Asked(plan, |server.payload|, b, i)
    requires HoldsBlock(ask, BLOCK2, b)
    modifies server
    ensures Going(next, BLOCK2, server.block2, plan, old(server.payload), b, i)
    ensures server.payload == if server.block2.m then old(server.payload) else []
  {
    next := NewMessage(plan, i);
    var request := Transmit(ask, BLOCK2, b);
    var answered := server.HndRequest(request, next, b);
    GoingOut(next, BLOCK2, server.block2, plan, old(server.payload), b, i);
  }

  /** The rounds of a download after its first block has been sent; `sent` are the blocks that the server sends. */
  method DownloadRest(client: DiaRequest, server: DiaRequest, first: Pdu, ghost data: seq<Byte>, ghost b0: Block,
                      plan: Plan) returns (delivered: seq<Byte>, ghost sent: seq<Block>)
    requires client != server && server.payload == data && server.block2.m
    requires Going(first, BLOCK2, server.block2, plan, data, b0, 0)
    modifies client, server
    ensures delivered == old(client.payload) + Arrives(plan, data, b0, 0) && server.payload == []
    ensures sent == BlocksSent(plan, |data|, b0, 0)
  {
    var p, i := first, 0;
    ghost var b, total := b0, client.payload + Arrives(plan, data, b0, 0);
    sent := [];
    assert [] + BlocksSent(plan, |data|, b0, 0) == BlocksSent(plan, |data|, b0, 0);
    while true
      invariant server.payload == if server.block2.m then data else []
      invariant Going(p, BLOCK2, server.block2, plan, data, b, i)
      invariant client.payload + Arrives(plan, data, b, i) == total
      invariant sent + BlocksSent(plan, |data|, b, i) == BlocksSent(plan, |data|, b0, 0)
      decreases |data| - b.Start()
    {
      ghost var c := server.block2;
      GotMore(plan, data, b, i, c, client.payload);
      SentMore(plan, |data|, b, i, c, sent);
      sent := sent + [c];
      var r;
      r, p := DownloadRound(client, server, p, plan, data, i);
      if r.Complete? {
        return r.ctt, sent;
      }
      i, b := i + 2, After(c);
    }
  }

  /** A reply without block option: the client passes its payload on at once. */
  method DownloadWhole(client: DiaRequest, p: Pdu, plan: Plan) returns (delivered: seq<Byte>)
    requires p.Valid() && !p.Open() && Num(p.wire) < BLOCK2 && HasToken(p.wire) && plan.Usable()
    modifies client
    ensures delivered == p.Payload()
  {
    var q := Deliver(p);
    NoBlock(q, BLOCK1);
    NoBlock(q, BLOCK2);
    TokenSeen(q);
    var ask := NewMessage(plan, 1);
    var r := client.HndResponse(q, ask, Block(0, false, 0));
    delivered := r.ctt;
  }

  /** The block that a reply begins with: of the size that the client proposed, if any, or of 1024 bytes. */
  ghost function FirstOf(proposed: bool, b: Block): Block { if proposed then b else b.(szx := 6) }

  /**
   * A whole download, every message delivered once and in order. `client` is the state
   * the request left behind, `server` holds the size the client proposed, if any. In
   * blocks, what arrives is stored behind whatever the client still kept of its own upload;
   * the server keeps nothing once the last block is out. `sent` are the blocks that the
   * server sends.
   */
  method Download(client: DiaRequest, server: DiaRequest, data: seq<Byte>, plan: Plan)
    returns (delivered: seq<Byte>, withBlocks: bool, ghost sent: seq<Block>)
    requires client != server && |data| <= MAX_DATA && plan.Usable()
    requires server.block2.num == 0 && server.block2.Valid()
    modifies client, server
    ensures withBlocks <==> |data| > plan.Room(0)
    ensures var first := FirstOf(old(server.earlyNego), old(server.block2));
      && delivered == (if withBlocks then old(client.payload) else []) + Delivered(plan, data, first)
      && (Delivered(plan, data, first) == data <==> Safe(plan, |data|, first))
      && (if withBlocks then Asked(plan, |data|, first, 0) && sent == BlocksSent(plan, |data|, first, 0)
          else sent == [])
    ensures server.payload == []
  {
    ghost var first := FirstOf(server.earlyNego, server.block2);
    DeliveredExact(plan, data, first);
    var p := NewMessage(plan, 0);
    sent := [];
    withBlocks := server.Respond(p, data);
    if withBlocks {
      assert CanSend(plan.Room(0), first, |data|) by { Zeroth(first); }
      GoingOut(p, BLOCK2, server.block2, plan, data, first, 0);
      delivered, sent := DownloadRest(client, server, p, data, first, plan);
    } else {
      delivered := DownloadWhole(client, p, plan);
    }
  }

  /**
   * A request in which the client proposes a block size, and the reply to it: if the server
   * has no reply stored, no block that it sends is larger than the proposed block or than the
   * block before, and the first one has exactly the proposed size if its message has room
   * for it. The client gets the reply if and only if no block is lost.
   */
  method Propose(client: DiaRequest, server: DiaRequest, request: Pdu, b: Block, data: seq<Byte>, plan: Plan)
    returns (delivered: seq<Byte>, withBlocks: bool, ghost sent: seq<Block>)
    requires client != server && |data| <= MAX_DATA && plan.Usable()
    requires HoldsBlock(request, BLOCK2, b) && b.num == 0 && server.payload == []
    modifies client, server
    ensures withBlocks <==> |data| > plan.Room(0)
    ensures withBlocks ==> sent != [] && FirstSize(sent[0], b.Size(), plan.Room(0))
    ensures Shrinking(sent) && forall k | 0 <= k < |sent| :: sent[k].szx <= b.szx
    ensures delivered == (if withBlocks then old(client.payload) else []) + Delivered(plan, data, b)
    ensures Delivered(plan, data, b) == data <==> Safe(plan, |data|, b)
  {
    TakeProposal(server, request, b, plan);
    delivered, withBlocks, sent := Download(client, server, data, plan);
    if withBlocks { ProposedBlocks(plan, |data|, b, sent); }
  }

  /** The server notes the proposed size. */
  method TakeProposal(server: DiaRequest, request: Pdu, b: Block, plan: Plan)
    requires HoldsBlock(request, BLOCK2, b) && server.payload == [] && plan.Usable()
    modifies server
    ensures server.payload == [] && server.earlyNego && server.block2 == b
  {
    var q := Transmit(request, BLOCK2, b);
    var response := NewMessage(plan, 0);
    var r := server.HndRequest(q, response, b);
  }

  lemma ProposedBlocks(plan: Plan, n: nat, b: Block, sent: seq<Block>)
    requires Asked(plan, n, b, 0) && sent == BlocksSent(plan, n, b, 0) && b.num == 0 && n > plan.Room(0)
    ensures sent != [] && FirstSize(sent[0], b.Size(), plan.Room(0))
    ensures Shrinking(sent) && forall k | 0 <= k < |sent| :: sent[k].szx <= b.szx
  {
    BlocksShrink(plan, n, b, 0);
    FirstFits(sent[0], b, plan.Room(0), n);
  }

  /**
   * A request with a payload and the reply to it. Each side gets what was sent if the
   * transfer is safe, with one exception: when both travel in blocks, the blocks of the
   * reply are appended to the upload that the client still keeps.
   */
  method Exchange(up: seq<Byte>, down: seq<Byte>, plan1: Plan, plan2: Plan)
    returns (atServer: seq<Byte>, atClient: seq<Byte>)
    requires |up| <= MAX_DATA && |down| <= MAX_DATA && plan1.Usable() && plan2.Usable()
    ensures atServer == up <==> Safe(plan1, |up|, FIRST)
    ensures |up| <= plan1.Room(0) || |down| <= plan2.Room(0) ==>
      (atClient == down <==> Safe(plan2, |down|, FIRST))
    ensures |up| > plan1.Room(0) && |down| > plan2.Room(0) ==> atClient == up + Delivered(plan2, down, FIRST)
    ensures Safe(plan2, |down|, FIRST) ==>
      (atClient == down <==> |up| <= plan1.Room(0) || |down| <= plan2.Room(0))
  {
    var client := new DiaRequest();
    var server := new DiaRequest();
    var upBlocks, downBlocks;
    atServer, upBlocks := Upload(client, server, up, plan1);
    ghost var sent;
    atClient, downBlocks, sent := Download(client, server, down, plan2);
    Behind(up, down, Delivered(plan2, down, FIRST), upBlocks && downBlocks, atClient);
  }

  /** What is handed over, perhaps behind an upload. */
  lemma Behind(up: seq<Byte>, down: seq<Byte>, got: seq<Byte>, both: bool, all: seq<Byte>)
    requires all == (if both then up else []) + got && (both ==> up != [])
    ensures !both ==> all == got
    ensures both && got == down ==> all != down
  {
    assert |all| == (if both then |up| else 0) + |got|;
  }
}
