/** Block-wise transfers: the four block cases of the dIa handlers (dIa.c). */
module Transfer {
  import opened Bytes
  import opened Options
  import opened Pdus
  import opened Iterators
  import opened Blocks

  const BLOCK1 := 19
  const BLOCK2 := 17
  const MAX_DATA := 0x100_0000

  /** The two block options. */
  predicate IsBlock(t: nat) { t == BLOCK1 || t == BLOCK2 }

  /** A Token option is among these wire options. */
  ghost predicate HasToken(ws: seq<Wire>) { exists i :: 0 <= i < |ws| && OptAt(ws, i).num == TOKEN }

  /** One more option opens the list. */
  predicate Last(count: nat) { count + 1 == OPT_LONG }

  /**
   * A message whose ordinary options are in place, a Token among them, and that may get a
   * block option: counted, without payload. If the block option is going to open the list,
   * no option looks like the end marker.
   */
  ghost predicate Prepared(pdu: Pdu)
    reads pdu, pdu.buf
  {
    && pdu.Valid() && !pdu.Open() && pdu.length == pdu.data
    && Num(pdu.wire) < BLOCK2 && HasToken(pdu.wire)
    && (Last(|pdu.wire|) ==> Stop(pdu.wire) == |pdu.wire|)
  }

  ghost function Free(pdu: Pdu): nat
    requires pdu.Valid()
    reads pdu, pdu.buf
  {
    pdu.buf.Length - pdu.length
  }

  /** The last option of the message is block option `t` holding block `b`. */
  ghost predicate HoldsBlock(pdu: Pdu, t: nat, b: Block)
    reads pdu, pdu.buf
  {
    && pdu.Valid() && pdu.StopIndex() == |pdu.wire| && b.Valid() && b.Value() != 0
    && |pdu.wire| > 0 && HasToken(pdu.wire)
    && IsBlock(t) && Num(pdu.wire) == t && Num(pdu.wire[..|pdu.wire| - 1]) < BLOCK2
    && pdu.wire[|pdu.wire| - 1].val == VarBytes(b.Value())
  }

  /** A block option that comes last is the one coap_get_block finds. */
  lemma LastIsFirst(pdu: Pdu, t: nat, b: Block)
    requires HoldsBlock(pdu, t, b)
    ensures !Without(pdu, t)
    ensures forall j: nat | FirstWith(pdu, t, j) :: j == |pdu.wire| - 1
    ensures FromValue(pdu.wire[|pdu.wire| - 1].delta, pdu.wire[|pdu.wire| - 1].val) == b
  {
    var ws := pdu.wire;
    var n := |ws| - 1;
    assert ws[..n + 1] == ws;
    assert OptAt(ws, n).num == t;
    forall j: nat | FirstWith(pdu, t, j)
      ensures j == n
    {
      if j < n {
        NumPrefix(ws, j + 1, n);
      }
    }
    BlockReadsBack(b, ws[n].delta);
  }

  /** A message without option numbers as high as `t` has no block option `t`. */
  lemma NoBlock(pdu: Pdu, t: nat)
    requires pdu.OptionsValid() && Num(pdu.wire) < t
    ensures Without(pdu, t)
  {
    forall i | 0 <= i < pdu.StopIndex()
      ensures OptAt(pdu.wire, i).num != t
    {
      NumPrefix(pdu.wire, i + 1, |pdu.wire|);
      assert pdu.wire[..|pdu.wire|] == pdu.wire;
    }
  }

  /** A message that holds one block option does not have the other one. */
  lemma OnlyBlock(pdu: Pdu, t: nat, b: Block, other: nat)
    requires HoldsBlock(pdu, t, b) && IsBlock(other) && other != t
    ensures Without(pdu, other)
  {
    var ws := pdu.wire;
    var n := |ws| - 1;
    assert ws[..n + 1] == ws;
    forall i | 0 <= i < pdu.StopIndex()
      ensures OptAt(ws, i).num != other
    {
      if i < n {
        NumPrefix(ws, i + 1, n);
      }
    }
  }

  /** A Token that a reader reaches is found. */
  lemma TokenSeen(pdu: Pdu)
    requires pdu.StopIndex() == |pdu.wire| && HasToken(pdu.wire)
    ensures !Without(pdu, TOKEN)
  {
  }

  /** Behind a Token both block options are near enough to need no fence post. */
  lemma TokenNear(ws: seq<Wire>)
    requires HasToken(ws)
    ensures Num(ws) >= TOKEN
  {
    var i :| 0 <= i < |ws| && OptAt(ws, i).num == TOKEN;
    NumPrefix(ws, i + 1, |ws|);
    assert ws[..|ws|] == ws;
  }

  lemma TokenKept(ws: seq<Wire>, w: Wire)
    requires HasToken(ws)
    ensures HasToken(ws + [w])
  {
    var i :| 0 <= i < |ws| && OptAt(ws, i).num == TOKEN;
    assert (ws + [w])[..i + 1] == ws[..i + 1];
    assert OptAt(ws + [w], i).num == TOKEN;
  }

  lemma NoFences(prev: nat, t: nat, val: seq<Byte>)
    requires prev <= t <= prev + 15
    ensures Fences(prev, t) == [] && WireOf(prev, Opt(t, val)) == [Wire(t - prev, val)]
  {
  }

  /** coap_add_option with the value of a block. */
  method AddBlockOption(pdu: Pdu, t: nat, b: Block)
    requires Prepared(pdu) && IsBlock(t) && b.Valid()
    modifies pdu`optcnt, pdu`data, pdu`length, pdu`wire, pdu.buf
    ensures pdu.Valid()
    ensures b.Value() != 0 && old(Free(pdu)) >= 5 ==> HoldsBlock(pdu, t, b) && pdu.Payload() == []
  {
    ghost var ws := pdu.wire;
    var val := EncodeBlock(b);
    var r := pdu.AddOption(t, val);
    if b.Value() != 0 && old(Free(pdu)) >= 5 {
      BlockAdded(pdu, t, b, ws, old(pdu.length));
    }
  }

  /** Block `b` is the part of `data` from its offset on, and says whether more follows. */
  ghost predicate Describes(b: Block, data: seq<Byte>) {
    && b.Valid() && b.Value() != 0
    && b.Start() < |data|
    && (b.m <==> b.Start() + b.Size() < |data|)
  }

  /** The message carries block `b` of `data`: option and bytes. */
  ghost predicate CarriesBlock(pdu: Pdu, t: nat, b: Block, data: seq<Byte>)
    reads pdu, pdu.buf
  {
    Describes(b, data) && HoldsBlock(pdu, t, b) && pdu.Payload() == Chunk(data, b)
  }

  /** A block behind the first one, or with more to follow, has a non-empty option value. */
  lemma NonZero(b: Block)
    requires b.m || b.Start() > 0
    ensures b.Value() != 0
  {
  }

  /** With `free` bytes left, a block of `n` bytes of data can be sent at the offset of `b`. */
  ghost predicate CanSend(free: nat, b: Block, n: nat) {
    && b.Valid() && 20 <= free < 0x10000
    && b.Start() < n <= MAX_DATA
    && (b.Start() > 0 || n > free)
  }

  /** The block that is sent when `b` is asked for. */
  ghost function NextBlock(b: Block, free: nat, n: nat): Block {
    if Choose(b, free, n).Chosen? then Choose(b, free, n).block else b
  }

  /** Block `c` of `n` bytes of data, sent for `b`: at the requested offset, with bytes for which space is set aside. */
  ghost predicate Answers(c: Block, b: Block, free: nat, n: nat) {
    && c.Valid() && c.Value() != 0
    && c.Start() == b.Start() < n
    && (c.m <==> c.Start() + c.Size() < n)
    && c.szx <= b.szx && Min(n - c.Start(), c.Size()) <= free - 4
    && (c.szx < b.szx ==> c.Size() <= free - 4 < 2 * c.Size())
    && (b.Start() == 0 ==> c.m)
  }

  lemma NextAnswers(b: Block, free: nat, n: nat)
    requires CanSend(free, b, n)
    ensures Choose(b, free, n).Chosen? && Answers(NextBlock(b, free, n), b, free, n)
  {
    ChooseRefuses(b, free, n);
    ChooseExact(b, free, n);
    NonZero(Choose(b, free, n).block);
  }

  /** A first block has `size` bytes if they fit into the space set aside, and else as many as fit. */
  predicate FirstSize(c: Block, size: nat, free: nat) {
    if size <= free - 4 then c.Size() == size else c.Size() <= free - 4 < 2 * c.Size()
  }

  lemma FirstFits(c: Block, b: Block, free: nat, n: nat)
    requires Answers(c, b, free, n) && b.num == 0 && b.Valid() && n > free
    ensures FirstSize(c, b.Size(), free) && c.num == 0
  {
    Zeroth(b);
    Zeroth(c);
    if c.szx < b.szx {
      Pow2Mono(c.szx + 5, b.szx + 4);
    }
  }

  lemma Zeroth(b: Block)
    requires b.Valid()
    ensures b.Start() == 0 <==> b.num == 0
  {
    Pow2Mono(0, b.szx + 4);
    if b.num > 0 {
      MoreTimes(b.num, b.Size());
    }
  }

  lemma MoreTimes(num: nat, size: nat)
    requires num > 0
    ensures size <= num * size
  {
  }

  /** A block of 1024 bytes. */
  lemma FullSize(b: Block)
    requires b.szx == 6
    ensures b.Size() == 1024
  {
    assert Pow2(8) == 256;
    assert Pow2(10) == 1024;
  }

  /** The bytes that the option of block `c` takes, with the end marker behind it if it opens the list. */
  function OptionSize(last: bool, c: Block): nat { 1 + |VarBytes(c.Value())| + if last then 1 else 0 }

  /**
   * Option and bytes of block `c` fit into `free` bytes. Four bytes are set aside for the
   * option, but with an end marker behind it it may take five.
   */
  ghost predicate Whole(last: bool, free: nat, c: Block, n: nat) {
    OptionSize(last, c) + Min(n - c.Start(), c.Size()) <= free
  }

  /** The bytes that go out with the option of block `c`: those of the block, or none. */
  ghost function Part(last: bool, free: nat, c: Block, data: seq<Byte>): seq<Byte> {
    if Whole(last, free, c, |data|) then Chunk(data, c) else []
  }

  /** The message holds the block that is sent when `b` is asked for, and what goes out with it. */
  ghost predicate Sends(pdu: Pdu, t: nat, c: Block, b: Block, last: bool, free: nat, data: seq<Byte>)
    reads pdu, pdu.buf
  {
    && c == NextBlock(b, free, |data|) && Answers(c, b, free, |data|)
    && HoldsBlock(pdu, t, c) && pdu.Payload() == Part(last, free, c, data)
  }

  /** Such a message carries its block if and only if option and bytes fit. */
  lemma CarriesIff(pdu: Pdu, t: nat, c: Block, b: Block, last: bool, free: nat, data: seq<Byte>)
    requires Sends(pdu, t, c, b, last, free, data)
    ensures CarriesBlock(pdu, t, c, data) <==> Whole(last, free, c, |data|)
  {
    assert Chunk(data, c) != [];
  }

  /** coap_write_block_opt for a block of `n` bytes of data. */
  method WriteBlockFor(pdu: Pdu, t: nat, b: Block, n: nat) returns (c: Block)
    requires pdu.Valid() && !pdu.Open() && IsBlock(t) && b.Valid()
    modifies pdu`optcnt, pdu`data, pdu`length, pdu`wire, pdu.buf
    ensures pdu.Valid() && c.Valid()
    ensures CanSend(old(Free(pdu)), b, n) ==>
      && c == NextBlock(b, old(Free(pdu)), n) && Answers(c, b, old(Free(pdu)), n)
      && Placed(pdu, t, VarBytes(c.Value()), old(pdu.wire), old(pdu.length))
  {
    ghost var ws, len, free := pdu.wire, pdu.length, Free(pdu);
    var r;
    r, c := WriteBlockOpt(b, t, pdu, n);
    if CanSend(free, b, n) { WrittenFor(pdu, t, b, c, r, n, free, ws, len); }
  }

  lemma WrittenFor(pdu: Pdu, t: nat, b: Block, c: Block, r: int, n: nat, free: nat, ws: seq<Wire>, len: nat)
    requires CanSend(free, b, n) && pdu.Valid() && AllValid(ws)
    requires Written(Choose(b, free, n), r, b, c, t, pdu, ws, len)
    ensures c == NextBlock(b, free, n) && Answers(c, b, free, n) && Placed(pdu, t, VarBytes(c.Value()), ws, len)
  {
    NextAnswers(b, free, n);
  }

  /** The same on a prepared message. */
  method PutBlockOption(pdu: Pdu, t: nat, b: Block, n: nat) returns (c: Block)
    requires Prepared(pdu) && IsBlock(t) && b.Valid()
    modifies pdu`optcnt, pdu`data, pdu`length, pdu`wire, pdu.buf
    ensures pdu.Valid() && c.Valid()
    ensures CanSend(old(Free(pdu)), b, n) ==>
      && c == NextBlock(b, old(Free(pdu)), n) && Answers(c, b, old(Free(pdu)), n) && HoldsBlock(pdu, t, c)
      && pdu.length == old(pdu.length) + OptionSize(Last(|old(pdu.wire)|), c)
      && pdu.Payload() == []
  {
    ghost var ws, len, free := pdu.wire, pdu.length, Free(pdu);
    c := WriteBlockFor(pdu, t, b, n);
    if CanSend(free, b, n) {
      BlockAdded(pdu, t, c, ws, len);
    }
  }

  /** What adding the block option did to a prepared message. */
  lemma BlockAdded(pdu: Pdu, t: nat, c: Block, ws: seq<Wire>, len: nat)
    requires pdu.Valid() && c.Valid() && c.Value() != 0 && AllValid(ws)
    requires IsBlock(t) && Num(ws) < BLOCK2 && HasToken(ws) && |ws| < OPT_LONG && (Last(|ws|) ==> Stop(ws) == |ws|)
    requires len == HEADER_SIZE + |Flat(ws)| && len + 5 <= pdu.buf.Length
    requires Placed(pdu, t, VarBytes(c.Value()), ws, len)
    ensures HoldsBlock(pdu, t, c) && pdu.Payload() == []
    ensures pdu.length == len + OptionSize(Last(|ws|), c)
  {
    var val := VarBytes(c.Value());
    BlockBytes(c);
    TokenNear(ws);
    NoFences(Num(ws), t, val);
    OptionAdded(pdu, ws, Wire(t - Num(ws), val));
    TokenKept(ws, Wire(t - Num(ws), val));
  }

  /** A message to which one short option with a value has been added. */
  lemma OptionAdded(pdu: Pdu, ws: seq<Wire>, w: Wire)
    requires pdu.Valid() && AllValid(ws) && w.Valid() && 0 < |w.val| <= 3
    requires pdu.wire == ws + [w] && pdu.length == pdu.data
    requires |ws| < OPT_LONG && (pdu.Open() <==> Last(|ws|)) && (Last(|ws|) ==> Stop(ws) == |ws|)
    ensures |pdu.wire| == |ws| + 1 && pdu.wire[..|ws|] == ws && pdu.wire[|ws|] == w
    ensures Num(pdu.wire) == Num(ws) + w.delta && pdu.StopIndex() == |pdu.wire|
    ensures pdu.length == HEADER_SIZE + |Flat(ws)| + 1 + |w.val| + (if Last(|ws|) then 1 else 0) && pdu.Payload() == []
  {
    FlatSnoc(ws, w);
    assert pdu.wire[..|pdu.wire| - 1] == ws;
  }

  /**
   * coap_write_block_opt followed by coap_add_block, as all block cases do it. With room
   * for a 16-byte block the message holds the option of a block at the requested offset, and
   * carries the block if and only if option and bytes fit.
   */
  method PutBlock(pdu: Pdu, t: nat, b: Block, data: seq<Byte>) returns (c: Block)
    requires Prepared(pdu) && IsBlock(t) && b.Valid()
    modifies pdu`optcnt, pdu`data, pdu`length, pdu`wire, pdu.buf
    ensures pdu.Valid() && c.Valid()
    ensures CanSend(old(Free(pdu)), b, |data|) ==>
      && Sends(pdu, t, c, b, Last(|old(pdu.wire)|), old(Free(pdu)), data)
      && (CarriesBlock(pdu, t, c, data) <==> Whole(Last(|old(pdu.wire)|), old(Free(pdu)), c, |data|))
  {
    ghost var last, free := Last(|pdu.wire|), Free(pdu);
    c := PutBlockOption(pdu, t, b, |data|);
    PutBytes(pdu, data, c, t, last, free);
    if CanSend(free, b, |data|) { CarriesIff(pdu, t, c, b, last, free, data); }
  }

  /** coap_add_block behind the option; its result is not looked at. */
  method PutBytes(pdu: Pdu, data: seq<Byte>, c: Block, ghost t: nat, ghost last: bool, ghost free: nat)
    requires pdu.Valid()
    modifies pdu`length, pdu.buf
    ensures pdu.Valid()
    ensures var taken := OptionSize(last, c);
      old(HoldsBlock(pdu, t, c) && pdu.Payload() == []) && old(Free(pdu)) + taken == free && c.Start() < |data| ==>
        HoldsBlock(pdu, t, c) && pdu.Payload() == Part(last, free, c, data)
  {
    var ok := AddBlock(pdu, data, c);
  }

  /** coap_add_data, and if the data is too big its first block instead. */
  method PutData(pdu: Pdu, t: nat, b: Block, data: seq<Byte>) returns (big: bool, c: Block)
    requires Prepared(pdu) && IsBlock(t) && b.Valid()
    modifies pdu`optcnt, pdu`data, pdu`length, pdu`wire, pdu.buf
    ensures pdu.Valid() && c.Valid()
    ensures big <==> |data| > old(Free(pdu))
    ensures !big ==> pdu.Payload() == data && pdu.wire == old(pdu.wire) && !pdu.Open()
    ensures big && CanSend(old(Free(pdu)), b, |data|) ==>
      Sends(pdu, t, c, b, Last(|old(pdu.wire)|), old(Free(pdu)), data)
  {
    c := b;
    var ok := pdu.AddData(data);
    big := !ok;
    if big {
      c := PutBlock(pdu, t, b, data);
    }
  }

  /** coap_get_block and coap_get_data on a received message. */
  method ReceiveBlock(pdu: Pdu, t: nat, ghost b: Block) returns (found: bool, c: Block, frag: seq<Byte>)
    requires pdu.Valid() && t < 24 && t % NOOP != 0 && t != 15
    ensures frag == pdu.Payload() && c.Valid()
    ensures Without(pdu, t) ==> !found && c == Block(0, false, 0)
    ensures HoldsBlock(pdu, t, b) ==> found && c == b
  {
    frag := pdu.GetData();
    ghost var j;
    found, c, j := GetBlock(pdu, t);
    if HoldsBlock(pdu, t, b) { LastIsFirst(pdu, t, b); }
  }

  /** What the handlers read from a message: both block options and the payload. */
  method ReadBlocks(pdu: Pdu, ghost b: Block)
    returns (found1: bool, c1: Block, found2: bool, c2: Block, ctt: seq<Byte>)
    requires pdu.Valid()
    ensures ctt == pdu.Payload() && c1.Valid() && c2.Valid()
    ensures Without(pdu, BLOCK1) ==> !found1
    ensures Without(pdu, BLOCK2) ==> !found2 && c2 == Block(0, false, 0)
    ensures HoldsBlock(pdu, BLOCK1, b) ==> found1 && c1 == b && !found2 && c2 == Block(0, false, 0)
    ensures HoldsBlock(pdu, BLOCK2, b) ==> found2 && c2 == b && !found1
  {
    if HoldsBlock(pdu, BLOCK1, b) { OnlyBlock(pdu, BLOCK1, b, BLOCK2); }
    if HoldsBlock(pdu, BLOCK2, b) { OnlyBlock(pdu, BLOCK2, b, BLOCK1); }
    found1, c1, ctt := ReceiveBlock(pdu, BLOCK1, b);
    found2, c2, ctt := ReceiveBlock(pdu, BLOCK2, b);
  }

  /** The request for the block after `b`: its number is a 20-bit counter. */
  function After(b: Block): Block { Block((b.num + 1) % NUM_MOD, false, b.szx) }

  /** Count the block number up and ask the peer for the block after `b`. */
  method AskNext(pdu: Pdu, t: nat, b: Block) returns (c: Block)
    requires Prepared(pdu) && IsBlock(t) && b.Valid()
    modifies pdu`optcnt, pdu`data, pdu`length, pdu`wire, pdu.buf
    ensures pdu.Valid() && c == b.(num := After(b).num)
    ensures After(b).Value() != 0 && old(Free(pdu)) >= 5 ==> HoldsBlock(pdu, t, After(b)) && pdu.Payload() == []
  {
    c := b.(num := (b.num + 1) % NUM_MOD);
    AddBlockOption(pdu, t, Block(c.num, false, c.szx));
  }

  /** What the first block of a reply is like. */
  lemma RespondedFirst(b: Block, c: Block, free: nat, n: nat)
    requires b.Valid() && b.num == 0 && 20 <= free < 0x10000 && free < n <= MAX_DATA
    requires CanSend(free, b, n) ==> Answers(c, b, free, n)
    ensures CanSend(free, b, n)
    ensures FirstSize(c, b.Size(), free) && c.num == 0 && (b.szx == 6 ==> b.Size() == 1024)
  {
    Zeroth(b);
    FirstFits(c, b, free, n);
    if b.szx == 6 {
      FullSize(b);
    }
  }

  /** How a handler leaves a message: rejected, answered with a stored block, waiting for more, or complete. */
  datatype Outcome = Rejected | Answered | Continue | Complete(ctt: seq<Byte>)

  /** The state kept for one request (dia_request_t). */
  class DiaRequest {
    var payload: seq<Byte>
    var block1: Block
    var block2: Block
    var earlyNego: bool

    constructor ()
      ensures payload == [] && block1 == block2 == Block(0, false, 0) && !earlyNego
    {
      payload, block1, block2, earlyNego := [], Block(0, false, 0), Block(0, false, 0), false;
    }

    /** diaRequest: all of the payload if it fits, else its first block. */
    method Request(pdu: Pdu, ctt: seq<Byte>) returns (withBlocks: bool)
      requires Prepared(pdu) && block1 == Block(0, false, 0)
      modifies this`payload, this`block1
      modifies pdu`optcnt, pdu`data, pdu`length, pdu`wire, pdu.buf
      ensures pdu.Valid()
      ensures withBlocks <==> |ctt| > old(Free(pdu))
      ensures !withBlocks ==>
        pdu.Payload() == ctt && pdu.wire == old(pdu.wire) && !pdu.Open() && payload == old(payload)
      ensures withBlocks && 20 <= old(Free(pdu)) && |ctt| <= MAX_DATA ==>
        payload == ctt && Sends(pdu, BLOCK1, block1, old(block1).(szx := 6), Last(|old(pdu.wire)|), old(Free(pdu)), ctt)
    {
      withBlocks := false;
      if |ctt| != 0 {
        var c;
        withBlocks, c := PutData(pdu, BLOCK1, block1.(szx := 6), ctt);
        if withBlocks {
          Store(c, ctt);
        }
      }
    }

    /** Note the block that was sent and keep the payload. */
    method Store(c: Block, ctt: seq<Byte>)
      modifies this`payload, this`block1
      ensures block1 == c && payload == ctt
    {
      block1, payload := c, ctt;
    }

    /** hnd_request, block case B: store the block `c` that the client sends, if one was found. */
    method CaseB(found: bool, c: Block, ctt: seq<Byte>, response: Pdu) returns (r: Outcome)
      requires c.Valid() && Prepared(response)
      modifies this`payload, this`block1
      modifies response`optcnt, response`data, response`length, response`wire, response.buf
      ensures response.Valid()
      ensures !found ==> r == Complete(ctt) && payload == old(payload)
      ensures found ==> payload == old(payload) + ctt && r == if c.m then Continue else Complete(payload)
      ensures found && c.m && After(c).Value() != 0 && old(Free(response)) >= 5 ==>
        HoldsBlock(response, BLOCK1, After(c)) && response.Payload() == []
    {
      block1 := c;
      if !found {
        return Complete(ctt);
      }
      payload := payload + ctt;
      if c.m {
        block1 := AskNext(response, BLOCK1, c);
        return Continue;
      }
      r := Complete(payload);
    }

    /** hnd_response, block case C: the server asks for the block `c`. */
    method CaseC(found: bool, c: Block, pdu: Pdu)
      requires c.Valid() && Prepared(pdu)
      modifies this`block1
      modifies pdu`optcnt, pdu`data, pdu`length, pdu`wire, pdu.buf
      ensures pdu.Valid()
      ensures !found ==> Prepared(pdu) && Free(pdu) == old(Free(pdu))
      ensures found && CanSend(old(Free(pdu)), c, |payload|) ==>
        Sends(pdu, BLOCK1, block1, c, Last(|old(pdu.wire)|), old(Free(pdu)), payload)
    {
      block1 := c;
      if found {
        SendKept(pdu);
      }
    }

    /** Send the block of the kept upload that `block1` asks for. */
    method SendKept(pdu: Pdu)
      requires Prepared(pdu) && block1.Valid()
      modifies this`block1
      modifies pdu`optcnt, pdu`data, pdu`length, pdu`wire, pdu.buf
      ensures pdu.Valid()
      ensures CanSend(old(Free(pdu)), old(block1), |payload|) ==>
        Sends(pdu, BLOCK1, block1, old(block1), Last(|old(pdu.wire)|), old(Free(pdu)), payload)
    {
      block1 := PutBlock(pdu, BLOCK1, block1, payload);
    }

    /** The block a reply begins with: of the size that the client proposed, or of 1024 bytes. */
    function Proposed(): Block
      reads this
    {
      if earlyNego then block2 else block2.(szx := 6)
    }

    /**
     * diaResponse: all of the reply if it fits, else its first block. That one has the size
     * that the client proposed, or 1024 bytes, if the message has room for so many.
     */
    method Respond(pdu: Pdu, ctt: seq<Byte>) returns (withBlocks: bool)
      requires Prepared(pdu) && block2.Valid()
      modifies this`payload, this`block2
      modifies pdu`optcnt, pdu`data, pdu`length, pdu`wire, pdu.buf
      ensures pdu.Valid()
      ensures withBlocks <==> |ctt| > old(Free(pdu))
      ensures !withBlocks ==> pdu.Payload() == ctt && pdu.wire == old(pdu.wire) && !pdu.Open() && payload == []
      ensures var b := if old(earlyNego) then old(block2) else old(block2).(szx := 6);
        withBlocks && CanSend(old(Free(pdu)), b, |ctt|) ==>
          payload == ctt && Sends(pdu, BLOCK2, block2, b, Last(|old(pdu.wire)|), old(Free(pdu)), ctt)
      ensures withBlocks && 20 <= old(Free(pdu)) && |ctt| <= MAX_DATA && old(block2).num == 0 ==>
        FirstSize(block2, if old(earlyNego) then old(block2).Size() else 1024, old(Free(pdu))) && block2.num == 0
    {
      ghost var b, free := Proposed(), Free(pdu);
      withBlocks := RespondFrom(pdu, Proposed(), ctt);
      if withBlocks && 20 <= free && |ctt| <= MAX_DATA && b.num == 0 { RespondedFirst(b, block2, free, |ctt|); }
    }

    /** The same, when the first block is to be like `b`. */
    method RespondFrom(pdu: Pdu, b: Block, ctt: seq<Byte>) returns (withBlocks: bool)
      requires Prepared(pdu) && b.Valid()
      modifies this`payload, this`block2
      modifies pdu`optcnt, pdu`data, pdu`length, pdu`wire, pdu.buf
      ensures pdu.Valid()
      ensures withBlocks <==> |ctt| > old(Free(pdu))
      ensures !withBlocks ==> pdu.Payload() == ctt && pdu.wire == old(pdu.wire) && !pdu.Open() && payload == []
      ensures withBlocks && CanSend(old(Free(pdu)), b, |ctt|) ==>
        payload == ctt && Sends(pdu, BLOCK2, block2, b, Last(|old(pdu.wire)|), old(Free(pdu)), ctt)
    {
      withBlocks := false;
      if |ctt| != 0 {
        var c;
        withBlocks, c := PutData(pdu, BLOCK2, b, ctt);
        if withBlocks {
          block2, payload := c, ctt;
        }
      }
      if !withBlocks {
        payload := [];
      }
    }

    /** Send the block of the stored reply that `block2` asks for; the last one frees the reply. */
    method SendStored(pdu: Pdu)
      requires Prepared(pdu) && block2.Valid()
      modifies this`payload, this`block2
      modifies pdu`optcnt, pdu`data, pdu`length, pdu`wire, pdu.buf
      ensures pdu.Valid()
      ensures CanSend(old(Free(pdu)), old(block2), |old(payload)|) ==>
        && Sends(pdu, BLOCK2, block2, old(block2), Last(|old(pdu.wire)|), old(Free(pdu)), old(payload))
        && payload == if block2.m then old(payload) else []
    {
      var c := PutBlock(pdu, BLOCK2, block2, payload);
      Keep(c);
    }

    /** Note the block that was sent, and forget the reply with its last one. */
    method Keep(c: Block)
      modifies this`payload, this`block2
      ensures block2 == c && payload == if c.m then old(payload) else []
    {
      block2 := c;
      if !c.m {
        payload := [];
      }
    }

    /**
     * hnd_request, block case A: the client asks for the block `c`. Without a stored reply
     * the option is only a size proposal. The reply is dropped with its last block.
     */
    method CaseA(found: bool, c: Block, pdu: Pdu) returns (handled: bool)
      requires c.Valid() && Prepared(pdu)
      modifies this`payload, this`block2, this`earlyNego
      modifies pdu`optcnt, pdu`data, pdu`length, pdu`wire, pdu.buf
      ensures pdu.Valid() && (handled <==> found && old(payload) != []) && (earlyNego <==> found && !handled)
      ensures !handled ==> payload == old(payload) && block2 == c && Prepared(pdu) && Free(pdu) == old(Free(pdu))
      ensures handled && CanSend(old(Free(pdu)), c, |old(payload)|) ==>
        && Sends(pdu, BLOCK2, block2, c, Last(|old(pdu.wire)|), old(Free(pdu)), old(payload))
        && payload == if block2.m then old(payload) else []
    {
      earlyNego, block2 := false, c;
      if !found {
        return false;
      }
      if payload == [] {
        earlyNego := true;
        return false;
      }
      SendStored(pdu);
      handled := true;
    }

    /** hnd_response, block case D: store the block `c` that the server sends, if one was found. */
    method CaseD(found: bool, c: Block, ctt: seq<Byte>, pdu: Pdu) returns (r: Outcome)
      requires c.Valid() && Prepared(pdu)
      modifies this`payload, this`block2
      modifies pdu`optcnt, pdu`data, pdu`length, pdu`wire, pdu.buf
      ensures pdu.Valid()
      ensures !found ==> r == Complete(ctt) && payload == old(payload)
      ensures found ==> payload == old(payload) + ctt && r == if c.m then Continue else Complete(payload)
      ensures found && c.m && After(c).Value() != 0 && old(Free(pdu)) >= 5 ==>
        HoldsBlock(pdu, BLOCK2, After(c)) && pdu.Payload() == []
    {
      block2 := c;
      if !found {
        return Complete(ctt);
      }
      payload := payload + ctt;
      if c.m {
        block2 := AskNext(pdu, BLOCK2, c);
        return Continue;
      }
      r := Complete(payload);
    }

    /**
     * hnd_request: a message without Token is rejected. Case A comes first; a message with
     * the other block option, or with none, falls through to case B.
     */
    method HndRequest(request: Pdu, response: Pdu, ghost b: Block) returns (r: Outcome)
      requires request.Valid() && Prepared(response) && request != response && request.buf != response.buf
      modifies this
      modifies response`optcnt, response`data, response`length, response`wire, response.buf
      ensures response.Valid()
      ensures old(Without(request, TOKEN)) ==>
        r == Rejected && payload == old(payload) && block1 == old(block1) && block2 == old(block2)
      ensures old(!Without(request, TOKEN) && Without(request, BLOCK1) && Without(request, BLOCK2)) ==>
        && r == Complete(old(request.Payload())) && payload == old(payload)
        && block2 == Block(0, false, 0) && !earlyNego
      ensures old(HoldsBlock(request, BLOCK1, b)) ==>
        && payload == old(payload + request.Payload()) && r == (if b.m then Continue else Complete(payload))
        && block2 == Block(0, false, 0) && !earlyNego
      ensures old(HoldsBlock(request, BLOCK1, b)) && b.m && After(b).Value() != 0 && old(Free(response)) >= 5 ==>
        HoldsBlock(response, BLOCK1, After(b)) && response.Payload() == []
      ensures old(HoldsBlock(request, BLOCK2, b)) && old(payload) == [] ==>
        r == Complete(old(request.Payload())) && payload == [] && earlyNego && block2 == b
      ensures old(HoldsBlock(request, BLOCK2, b)) && CanSend(old(Free(response)), b, |old(payload)|) ==>
        && r == Answered
        && Sends(response, BLOCK2, block2, b, Last(|old(response.wire)|), old(Free(response)), old(payload))
        && payload == if block2.m then old(payload) else []
    {
      var token := Tokened(request);
      if !token {
        return Rejected;
      }
      r := TakeRequest(request, response, b);
    }

    /** The handler once the Token is found. */
    method TakeRequest(request: Pdu, response: Pdu, ghost b: Block) returns (r: Outcome)
      requires request.Valid() && Prepared(response) && request != response && request.buf != response.buf
      modifies this
      modifies response`optcnt, response`data, response`length, response`wire, response.buf
      ensures response.Valid()
      ensures old(Without(request, BLOCK1) && Without(request, BLOCK2)) ==>
        && r == Complete(old(request.Payload())) && payload == old(payload)
        && block2 == Block(0, false, 0) && !earlyNego
      ensures old(HoldsBlock(request, BLOCK1, b)) ==>
        && payload == old(payload + request.Payload()) && r == (if b.m then Continue else Complete(payload))
        && block2 == Block(0, false, 0) && !earlyNego
      ensures old(HoldsBlock(request, BLOCK1, b)) && b.m && After(b).Value() != 0 && old(Free(response)) >= 5 ==>
        HoldsBlock(response, BLOCK1, After(b)) && response.Payload() == []
      ensures old(HoldsBlock(request, BLOCK2, b)) && old(payload) == [] ==>
        r == Complete(old(request.Payload())) && payload == [] && earlyNego && block2 == b
      ensures old(HoldsBlock(request, BLOCK2, b)) && CanSend(old(Free(response)), b, |old(payload)|) ==>
        && r == Answered
        && Sends(response, BLOCK2, block2, b, Last(|old(response.wire)|), old(Free(response)), old(payload))
        && payload == if block2.m then old(payload) else []
    {
      var found1, c1, found2, c2, ctt := ReadBlocks(request, b);
      r := CasesAB(found1, c1, found2, c2, ctt, response);
    }

    /** Case A, and case B if it falls through. */
    method CasesAB(found1: bool, c1: Block, found2: bool, c2: Block, ctt: seq<Byte>, response: Pdu)
      returns (r: Outcome)
      requires c1.Valid() && c2.Valid() && Prepared(response)
      modifies this
      modifies response`optcnt, response`data, response`length, response`wire, response.buf
      ensures response.Valid()
      ensures !found2 ==> block2 == c2 && !earlyNego
      ensures !found1 && !found2 ==> r == Complete(ctt) && payload == old(payload)
      ensures found1 && !found2 ==> payload == old(payload) + ctt && r == if c1.m then Continue else Complete(payload)
      ensures found1 && !found2 && c1.m && After(c1).Value() != 0 && old(Free(response)) >= 5 ==>
        HoldsBlock(response, BLOCK1, After(c1)) && response.Payload() == []
      ensures !found1 && found2 && old(payload) == [] ==>
        r == Complete(ctt) && payload == [] && earlyNego && block2 == c2
      ensures found2 && CanSend(old(Free(response)), c2, |old(payload)|) ==>
        && r == Answered
        && Sends(response, BLOCK2, block2, c2, Last(|old(response.wire)|), old(Free(response)), old(payload))
        && payload == if block2.m then old(payload) else []
    {
      var handled := CaseA(found2, c2, response);
      if handled {
        return Answered;
      }
      r := CaseB(found1, c1, ctt, response);
    }

    /** hnd_response: a message without Token is dropped. Case C comes first, then case D. */
    method HndResponse(received: Pdu, pdu: Pdu, ghost b: Block) returns (r: Outcome)
      requires received.Valid() && Prepared(pdu) && received != pdu && received.buf != pdu.buf
      modifies this`payload, this`block1, this`block2
      modifies pdu`optcnt, pdu`data, pdu`length, pdu`wire, pdu.buf
      ensures pdu.Valid()
      ensures old(Without(received, TOKEN)) ==>
        r == Rejected && payload == old(payload) && block1 == old(block1) && block2 == old(block2)
      ensures old(!Without(received, TOKEN) && Without(received, BLOCK1) && Without(received, BLOCK2)) ==>
        r == Complete(old(received.Payload())) && payload == old(payload)
      ensures old(HoldsBlock(received, BLOCK1, b)) ==> r == Answered && payload == old(payload)
      ensures old(HoldsBlock(received, BLOCK1, b)) && CanSend(old(Free(pdu)), b, |old(payload)|) ==>
        Sends(pdu, BLOCK1, block1, b, Last(|old(pdu.wire)|), old(Free(pdu)), payload)
      ensures old(HoldsBlock(received, BLOCK2, b)) ==>
        payload == old(payload + received.Payload()) && r == if b.m then Continue else Complete(payload)
      ensures old(HoldsBlock(received, BLOCK2, b)) && b.m && After(b).Value() != 0 && old(Free(pdu)) >= 5 ==>
        HoldsBlock(pdu, BLOCK2, After(b)) && pdu.Payload() == []
    {
      var token := Tokened(received);
      if !token {
        return Rejected;
      }
      r := TakeResponse(received, pdu, b);
    }

    /** The handler once the Token is found. */
    method TakeResponse(received: Pdu, pdu: Pdu, ghost b: Block) returns (r: Outcome)
      requires received.Valid() && Prepared(pdu) && received != pdu && received.buf != pdu.buf
      modifies this`payload, this`block1, this`block2
      modifies pdu`optcnt, pdu`data, pdu`length, pdu`wire, pdu.buf
      ensures pdu.Valid()
      ensures old(Without(received, BLOCK1) && Without(received, BLOCK2)) ==>
        r == Complete(old(received.Payload())) && payload == old(payload)
      ensures old(HoldsBlock(received, BLOCK1, b)) ==> r == Answered && payload == old(payload)
      ensures old(HoldsBlock(received, BLOCK1, b)) && CanSend(old(Free(pdu)), b, |old(payload)|) ==>
        Sends(pdu, BLOCK1, block1, b, Last(|old(pdu.wire)|), old(Free(pdu)), payload)
      ensures old(HoldsBlock(received, BLOCK2, b)) ==>
        payload == old(payload + received.Payload()) && r == if b.m then Continue else Complete(payload)
      ensures old(HoldsBlock(received, BLOCK2, b)) && b.m && After(b).Value() != 0 && old(Free(pdu)) >= 5 ==>
        HoldsBlock(pdu, BLOCK2, After(b)) && pdu.Payload() == []
    {
      var found1, c1, found2, c2, ctt := ReadBlocks(received, b);
      CaseC(found1, c1, pdu);
      if found1 {
        return Answered;
      }
      r := CaseD(found2, c2, ctt, pdu);
    }
  }

  /** The look for the Token with which both handlers begin. */
  method Tokened(pdu: Pdu) returns (found: bool)
    requires pdu.Valid()
    ensures found <==> !Without(pdu, TOKEN)
    ensures pdu.StopIndex() == |pdu.wire| && HasToken(pdu.wire) ==> found
  {
    var it;
    it, found := CheckOption(pdu, TOKEN);
    if found {
      assert OptAt(pdu.wire, it.k).num == TOKEN;
    }
    if pdu.StopIndex() == |pdu.wire| && HasToken(pdu.wire) { TokenSeen(pdu); }
  }
}
