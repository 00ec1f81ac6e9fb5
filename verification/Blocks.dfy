/** Block options and block-wise payloads: block.h and block.c. */
module Blocks {
  import opened Bytes
  import opened Options
  import opened Pdus
  import opened Iterators

  const NUM_MOD: nat := 0x10_0000
  const SIZE_MOD: nat := 0x1_0000_0000_0000_0000

  /** coap_block_t; the number has 20 bits and the size exponent three. */
  datatype Block = Block(num: nat, m: bool, szx: nat) {
    predicate Valid() { num < NUM_MOD && szx < 8 }
    function Size(): nat { Pow2(szx + 4) }
    function Start(): nat { num * Size() }
    /** The option value: number, more-bit and size exponent packed together. */
    function Value(): nat { num * 16 + (if m then 8 else 0) + szx }
  }

  // ----- coap_get_block -----

  /**
   * The accessors of block.h. The last byte of an empty value is, one position before
   * the value, the option header itself.
   */
  function FromValue(delta: nat, val: seq<Byte>): Block {
    if val == [] then Block(delta % NUM_MOD, false, 0)
    else
      var last := val[|val| - 1];
      Block((BigEndian(val[..|val| - 1]) * 16 + last / 16) % NUM_MOD, last / 8 % 2 == 1, last as int % 8)
  }

  lemma ValueFields(b: Block)
    requires b.Valid()
    ensures b.Value() / 16 == b.num
    ensures b.Value() % 256 % 8 == b.szx && (b.Value() % 256 / 8 % 2 == 1 <==> b.m)
    ensures b.Value() / 256 * 16 + b.Value() % 256 / 16 == b.num
    ensures b.Value() < 0x100_0000
  {
    var low := (if b.m then 8 else 0) + b.szx;
    Packed(b.num, low);
    LowByte(b.num % 16, low, b.m, b.szx);
  }

  /** The last byte of a packed value holds four bits of the number. */
  lemma Packed(num: nat, low: nat)
    requires low < 16
    ensures var v := num * 16 + low;
      v / 16 == num && v / 256 == num / 16 && v % 256 == num % 16 * 16 + low
  {
    var hi, n := num / 16, num % 16;
    assert num * 16 + low == hi * 256 + (n * 16 + low);
  }

  lemma LowByte(n: nat, low: nat, m: bool, szx: nat)
    requires n < 16 && szx < 8 && low == (if m then 8 else 0) + szx
    ensures var x := n * 16 + low; x % 8 == szx && (x / 8 % 2 == 1 <==> m) && x / 16 == n
  {
    assert n * 16 + low == 8 * (2 * n + if m then 1 else 0) + szx;
  }

  /**
   * A block written as a variable-length integer reads back as the same block, except
   * for the block that encodes to no bytes at all after an option with another number.
   */
  lemma BlockReadsBack(b: Block, delta: nat)
    requires b.Valid() && delta <= 15
    ensures |VarBytes(b.Value())| <= 3
    ensures FromValue(delta, VarBytes(b.Value())) == b <==> b.Value() != 0 || delta == 0
  {
    BlockBytes(b);
    if b.Value() == 0 {
      assert b == Block(0, false, 0);
    } else {
      NonZeroReadsBack(b, delta, b.Value());
    }
  }

  lemma BlockBytes(b: Block)
    requires b.Valid()
    ensures |VarBytes(b.Value())| <= 3
  {
    ValueFields(b);
    VarBytesLength(b.Value(), 3);
    Pow2Words();
  }

  lemma NonZeroReadsBack(b: Block, delta: nat, v: nat)
    requires b.Valid() && v == b.Value() != 0
    ensures FromValue(delta, VarBytes(v)) == b
  {
    ValueFields(b);
    VarBytesDenote(v / 256);
    FieldsReadBack(b, delta, VarBytes(v / 256), v % 256);
  }

  lemma FieldsReadBack(b: Block, delta: nat, front: seq<Byte>, last: Byte)
    requires b.Valid() && BigEndian(front) * 16 + last / 16 == b.num
    requires last / 8 % 2 == 1 <==> b.m
    requires last as int % 8 == b.szx
    ensures FromValue(delta, front + [last]) == b
  {
    FromSnoc(delta, front, last);
    assert b.num % NUM_MOD == b.num;
  }

  /** The accessors on a value of at least one byte. */
  lemma FromSnoc(delta: nat, front: seq<Byte>, last: Byte)
    ensures FromValue(delta, front + [last])
         == Block((BigEndian(front) * 16 + last / 16) % NUM_MOD, last / 8 % 2 == 1, last as int % 8)
  {
    assert (front + [last])[..|front|] == front;
  }

  /** Decoding in 32 bits loses nothing that the 20-bit number would keep. */
  lemma NumberBits(x: nat, y: nat)
    ensures (x % UINT_MOD * 16 + y) % NUM_MOD == (x * 16 + y) % NUM_MOD
  {
    var k := x / UINT_MOD * 0x1_0000;
    var a := x % UINT_MOD * 16 + y;
    assert x * 16 + y == a + NUM_MOD * k;
    assert (a + NUM_MOD * k) % NUM_MOD == a % NUM_MOD;
  }

  /** The last byte of a slice, and those before it. */
  lemma SliceLast(s: seq<Byte>, a: nat, b: nat, val: seq<Byte>)
    requires a < b <= |s| && s[a..b] == val
    ensures |val| == b - a && s[b - 1] == val[|val| - 1] && s[a..b - 1] == val[..|val| - 1]
  {
    assert s[a..b][..b - a - 1] == s[a..b - 1];
  }

  lemma BlockParts(delta: nat, val: seq<Byte>, num: nat, last: Byte)
    requires val != [] && last == val[|val| - 1] && num == BigEndian(val[..|val| - 1]) % UINT_MOD
    ensures FromValue(delta, val) == Block((num * 16 + last / 16) % NUM_MOD, last / 8 % 2 == 1, last as int % 8)
  {
    NumberBits(BigEndian(val[..|val| - 1]), last / 16);
  }

  /** The block held by the option at position `p`. */
  method ReadBlock(s: seq<Byte>, p: nat, ghost w: Wire) returns (b: Block)
    requires w.Valid() && Readable(s, p) && NextAt(s, p) <= |s|
    requires s[p] / 16 == w.delta && LengthAt(s, p) == |w.val| && s[ValueAt(s, p)..NextAt(s, p)] == w.val
    ensures b == FromValue(w.delta, w.val)
  {
    var len, start := LengthAt(s, p), ValueAt(s, p);
    var num := 0;
    var last := s[if len == 0 then p else start + len - 1];
    if len > 0 { SliceLast(s, start, start + len, w.val); }
    if len > 1 {
      num := DecodeVarBytes(s[start..start + len - 1]);
    }
    if len > 0 { BlockParts(w.delta, w.val, num, last); }
    b := Block((num * 16 + last / 16) % NUM_MOD, last / 8 % 2 == 1, last as int % 8);
  }

  /** The block held by the option at which the iterator stands. */
  method CurrentBlock(it: OptionIterator) returns (b: Block)
    requires it.Valid() && it.k < it.pdu.StopIndex()
    ensures b == FromValue(it.pdu.wire[it.k].delta, it.pdu.wire[it.k].val)
  {
    it.pdu.ReadOption(it.k);
    b := ReadBlock(it.pdu.buf[..], it.option, it.pdu.wire[it.k]);
  }

  /** coap_get_block; without the option the block is zeroed. */
  method GetBlock(pdu: Pdu, t: nat) returns (found: bool, b: Block, ghost j: nat)
    requires pdu.OptionsValid() && t < 24 && t % NOOP != 0 && t != 15
    ensures found ==> FirstWith(pdu, t, j) && b == FromValue(pdu.wire[j].delta, pdu.wire[j].val)
    ensures !found ==> Without(pdu, t) && b == Block(0, false, 0)
  {
    b, j := Block(0, false, 0), 0;
    var it;
    it, found := CheckOption(pdu, t);
    if found {
      j := it.k;
      b := CurrentBlock(it);
    }
  }

  // ----- coap_write_block_opt -----

  datatype Choice = Chosen(block: Block) | Refused(code: int)

  /** A space that holds the smallest block but not the wanted one allows a smaller block. */
  lemma SmallerFits(avail: nat, szx: nat)
    requires 16 <= avail < Pow2(szx + 4)
    ensures 5 <= FlsOf(avail) <= szx + 4
  {
    FlsBrackets(avail);
    assert Pow2(4) == 16;
    if FlsOf(avail) <= 4 {
      Pow2Mono(FlsOf(avail), 4);
    } else if FlsOf(avail) > szx + 4 {
      Pow2Mono(szx + 4, FlsOf(avail) - 1);
    }
  }

  /** Bytes left for the block when `free` bytes are left: four less, in unsigned arithmetic. */
  function Avail(free: nat): nat { (free + SIZE_MOD - 4) % SIZE_MOD }

  /** The decision of coap_write_block_opt for `free` bytes left in the message. */
  function Choose(b: Block, free: nat, dataLen: nat): Choice {
    var avail := Avail(free);
    if dataLen <= b.Start() then Refused(-2)
    else if b.Size() <= avail then Chosen(b.(m := b.Size() < dataLen - b.Start()))
    else if dataLen - b.Start() <= avail then Chosen(b.(m := false))
    else if avail < 16 then Refused(-3)
    else Chosen(Reduced(b, avail))
  }

  /** Halving the block size as often as the number is doubled keeps the offset. */
  lemma Rescale(num: nat, szx: nat, szx': nat)
    requires szx' <= szx
    ensures num * Pow2(szx - szx') * Pow2(szx' + 4) == num * Pow2(szx + 4)
  {
    Pow2Add(szx - szx', szx' + 4);
    assert num * Pow2(szx - szx') * Pow2(szx' + 4) == num * (Pow2(szx - szx') * Pow2(szx' + 4));
  }

  /** Offsets below 2^24 have block numbers below 2^20. */
  lemma NumberFits(num: nat, szx: nat)
    requires num * Pow2(szx + 4) < 0x100_0000
    ensures num < NUM_MOD
  {
    Pow2Mono(4, szx + 4);
    assert Pow2(4) == 16;
    assert num * 16 <= num * Pow2(szx + 4);
  }

  /** The block of the largest size that fits into `avail` bytes, at the offset of `b`. */
  function Reduced(b: Block, avail: nat): Block
    requires 16 <= avail < b.Size()
  {
    SmallerFits(avail, b.szx);
    var szx := FlsOf(avail) - 5;
    Block(b.num * Pow2(b.szx - szx) % NUM_MOD, true, szx)
  }

  lemma SmallMod(x: nat, n: nat)
    requires x < n
    ensures x % n == x
  {
  }

  /** The number of the smaller block fits, and its offset is the same. */
  lemma ReducedStart(b: Block, szx: nat, num: nat)
    requires b.Valid() && szx <= b.szx && b.Start() < 0x100_0000 && num == b.num * Pow2(b.szx - szx)
    ensures num * Pow2(szx + 4) == b.Start() && num < NUM_MOD && num % NUM_MOD == num
  {
    Rescale(b.num, b.szx, szx);
    NumberFits(num, szx);
    SmallMod(num, NUM_MOD);
  }

  lemma BlockFields(num: nat, szx: nat)
    ensures Block(num, true, szx).Start() == num * Pow2(szx + 4)
    ensures Block(num, true, szx).Size() == Pow2(szx + 4)
  {
  }

  lemma ReducedExact(b: Block, avail: nat)
    requires b.Valid() && 16 <= avail < b.Size() && b.Start() < 0x100_0000
    ensures var c := Reduced(b, avail);
      && c.szx < b.szx && c.num < NUM_MOD
      && c.Start() == b.Start()
      && c.Size() <= avail < 2 * c.Size()
  {
    SmallerFits(avail, b.szx);
    LargestFits(avail, FlsOf(avail) - 5);
    ReducedIs(b, FlsOf(avail) - 5);
  }

  /** The chosen size is the largest power of two within the space. */
  lemma LargestFits(avail: nat, szx: nat)
    requires avail > 0 && FlsOf(avail) == szx + 5
    ensures Pow2(szx + 4) <= avail < 2 * Pow2(szx + 4)
  {
    FlsBrackets(avail);
  }

  lemma ReducedIs(b: Block, szx: nat)
    requires b.Valid() && szx <= b.szx && b.Start() < 0x100_0000
    ensures var c := Block(b.num * Pow2(b.szx - szx) % NUM_MOD, true, szx);
      c.num < NUM_MOD && c.Start() == b.Start() && c.Size() == Pow2(szx + 4)
  {
    var num := b.num * Pow2(b.szx - szx);
    ReducedStart(b, szx, num);
    BlockFields(num, szx);
  }

  /** Block `c` serves for `b`: the same offset, more to follow exactly if data is left, and a chunk that fits. */
  predicate Serves(c: Block, b: Block, free: int, dataLen: nat) {
    && c.Valid()
    && c.Start() == b.Start() < dataLen
    && (c.m <==> c.Start() + c.Size() < dataLen)
    && Min(dataLen - c.Start(), c.Size()) <= free - 4
    && c.szx <= b.szx
    && (c.szx < b.szx ==> c.Size() <= free - 4 < 2 * c.Size())
  }

  lemma KeptServes(b: Block, m: bool, free: nat, dataLen: nat)
    requires b.Valid() && b.Start() < dataLen && 4 <= free
    requires b.Size() <= free - 4 || dataLen - b.Start() <= free - 4
    requires m <==> b.Size() <= free - 4 && b.Size() < dataLen - b.Start()
    ensures Serves(b.(m := m), b, free, dataLen)
  {
    var c := b.(m := m);
    assert c.Size() == b.Size() && c.Start() == b.Start();
  }

  lemma ReducedServes(b: Block, free: nat, dataLen: nat)
    requires b.Valid() && 20 <= free && free - 4 < b.Size() && b.Start() < 0x100_0000
    requires free - 4 < dataLen - b.Start()
    ensures Serves(Reduced(b, free - 4), b, free, dataLen)
  {
    ReducedExact(b, free - 4);
  }

  /**
   * Resizing is exact: for data of at most 2^24 bytes the chosen block begins at the
   * same offset, its more-bit tells whether data is left behind it, a smaller size is
   * the largest that fits, and the bytes it carries fit into the space set aside.
   */
  lemma ChooseExact(b: Block, free: nat, dataLen: nat)
    requires b.Valid() && 4 <= free < SIZE_MOD && dataLen <= 0x100_0000
    requires Choose(b, free, dataLen).Chosen?
    ensures Serves(Choose(b, free, dataLen).block, b, free, dataLen)
  {
    assert Avail(free) == free - 4;
    if b.Size() > free - 4 && dataLen - b.Start() > free - 4 {
      ReducedServes(b, free, dataLen);
    } else {
      KeptServes(b, b.Size() <= free - 4 && b.Size() < dataLen - b.Start(), free, dataLen);
    }
  }

  /** With room for one smallest block, only a request beyond the data is refused. */
  lemma ChooseRefuses(b: Block, free: nat, dataLen: nat)
    requires 4 <= free < SIZE_MOD
    ensures dataLen <= b.Start() <==> Choose(b, free, dataLen) == Refused(-2)
    ensures Choose(b, free, dataLen).Refused? && dataLen > b.Start() ==> Choose(b, free, dataLen) == Refused(-3)
    ensures Choose(b, free, dataLen).Refused? <==>
      dataLen <= b.Start() || (free < 20 && b.Size() > free - 4 && dataLen - b.Start() > free - 4)
  {
  }

  /** With fewer than four bytes left the unsigned difference is huge, and every block seems to fit. */
  lemma ChooseWraps(b: Block, free: nat, dataLen: nat)
    requires b.Valid() && free < 4 && b.Start() < dataLen
    ensures Choose(b, free, dataLen) == Chosen(b.(m := b.Start() + b.Size() < dataLen))
  {
    Pow2Mono(b.szx + 4, 11);
    assert Pow2(11) == 2048;
  }

  /** The branches of coap_write_block_opt before the option is written. */
  method Negotiate(b: Block, free: nat, dataLen: nat) returns (r: int, c: Block)
    requires b.Valid()
    ensures match Choose(b, free, dataLen)
            case Chosen(block) => r == 1 && c == block && c.Valid()
            case Refused(code) => r == code < 0 && c == b
  {
    c := b;
    if dataLen <= b.Start() {
      return -2, c;
    }
    var avail := Avail(free);
    var want := b.Size();
    if want <= avail {
      c := c.(m := want < dataLen - b.Start());
    } else if dataLen - b.Start() <= avail {
      c := c.(m := false);
    } else {
      if avail < 16 {
        return -3, c;
      }
      c := Reduce(b, avail);
    }
    r := 1;
  }

  /** The largest block size that fits, by the position of the highest bit. */
  method Reduce(b: Block, avail: nat) returns (c: Block)
    requires b.Valid() && 16 <= avail < b.Size()
    ensures c == Reduced(b, avail) && c.Valid()
  {
    SmallerFits(avail, b.szx);
    var n := Fls(avail);
    c := Block(b.num * Pow2(b.szx - (n - 5)) % NUM_MOD, true, n - 5);
  }

  /** coap_encode_var_bytes of a block into the three-byte buffer. */
  method EncodeBlock(b: Block) returns (val: seq<Byte>)
    requires b.Valid()
    ensures val == VarBytes(b.Value()) && |val| <= 3
  {
    ValueFields(b);
    VarBytesLength(b.Value(), 3);
    Pow2Words();
    var buf := new Byte[3](i => 0);
    var n := EncodeVarBytes(buf, b.Value());
    val := buf[..n];
  }

  /**
   * What coap_write_block_opt leaves behind: the chosen block, and the message with the
   * block option after the options `ws`, if there was room for it.
   */
  ghost predicate Written(choice: Choice, r: int, b: Block, c: Block, t: nat, pdu: Pdu, ws: seq<Wire>, len: nat)
    requires pdu.Valid() && AllValid(ws)
    reads pdu, pdu.buf
  {
    if choice.Refused? then r == choice.code < 0 && c == b && pdu.wire == ws && pdu.length == len
    else r == 1 && c == choice.block && Placed(pdu, t, VarBytes(c.Value()), ws, len)
  }

  /** The option has been added behind the options `ws` if it fits, and else nothing was. */
  ghost predicate Placed(pdu: Pdu, t: nat, val: seq<Byte>, ws: seq<Wire>, len: nat)
    requires pdu.Valid() && AllValid(ws)
    reads pdu, pdu.buf
  {
    if FitsIn(ws, pdu.buf.Length, t, |val|)
    then pdu.wire == ws + WireOf(Num(ws), Opt(t, val)) && pdu.length == pdu.data
      && (pdu.Open() <==> |pdu.wire| >= OPT_LONG)
    else pdu.wire == ws && pdu.length == len
  }

  /** coap_write_block_opt. The result of adding the option is not looked at. */
  method WriteBlockOpt(b: Block, t: nat, pdu: Pdu, dataLen: nat) returns (r: int, c: Block)
    requires b.Valid() && pdu.Valid() && t < 0x10000 && !pdu.Open()
    modifies pdu`optcnt, pdu`data, pdu`length, pdu`wire, pdu.buf
    ensures pdu.Valid() && c.Valid()
    ensures var choice := Choose(b, pdu.buf.Length - old(pdu.length), dataLen);
      Written(choice, r, b, c, t, pdu, old(pdu.wire), old(pdu.length))
  {
    r, c := Negotiate(b, pdu.buf.Length - pdu.length, dataLen);
    if r < 0 {
      return;
    }
    var val := EncodeBlock(c);
    var n := pdu.AddOption(t, val);
  }

  /** The bytes of `data` that block `b` carries. */
  function Chunk(data: seq<Byte>, b: Block): seq<Byte> {
    if |data| <= b.Start() then [] else data[b.Start()..b.Start() + Min(|data| - b.Start(), b.Size())]
  }

  /** coap_add_block. */
  method AddBlock(pdu: Pdu, data: seq<Byte>, b: Block) returns (ok: bool)
    requires pdu.Valid()
    modifies pdu`length, pdu.buf
    ensures pdu.Valid()
    ensures ok <==> b.Start() < |data| && old(pdu.length) + |Chunk(data, b)| <= pdu.buf.Length
    ensures pdu.Payload() == if ok then old(pdu.Payload()) + Chunk(data, b) else old(pdu.Payload())
  {
    if |data| <= b.Start() {
      return false;
    }
    ok := pdu.AddData(data[b.Start()..b.Start() + Min(|data| - b.Start(), b.Size())]);
  }
}
