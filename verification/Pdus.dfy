/** Messages in memory: the buffer built by pdu.c and walked by net.c. */
module Pdus {
  import opened Bytes
  import opened Options
  import Seqs

  /**
   * A message under construction or just received. `buf` is the message; its length
   * is the maximum size. The four header bytes are kept as fields and the first four
   * positions of `buf` stand for them. `wire` names the options the buffer holds.
   */
  class Pdu {
    const buf: array<Byte>
    var kind: nat
    var code: Byte
    var id: nat
    var optcnt: nat
    var length: nat
    var data: nat
    ghost var wire: seq<Wire>

    /** First position after the last option. */
    ghost function End(): nat
      requires AllValid(wire)
      reads this
    {
      HEADER_SIZE + |Flat(wire)|
    }

    /** The list is closed by an end marker instead of being counted. */
    predicate Open()
      reads this
    {
      optcnt == OPT_LONG
    }

    ghost function DataStart(): nat
      requires AllValid(wire)
      reads this
    {
      End() + if Open() then 1 else 0
    }

    /** The buffer holds the options `wire`. */
    ghost predicate OptionsValid()
      reads this, buf
    {
      && HEADER_SIZE <= buf.Length < 0x10000
      && kind < 4 && id < 0x10000 && optcnt <= OPT_LONG
      && AllValid(wire)
      && Num(wire) < 0x10000
      && DataStart() <= buf.Length
      && buf[HEADER_SIZE..End()] == Flat(wire)
      && (if Open() then buf[End()] == OPT_END else optcnt == |wire|)
    }

    ghost predicate Valid()
      reads this, buf
    {
      OptionsValid() && data == DataStart() <= length <= buf.Length
    }

    /** The bytes after the options. */
    ghost function Payload(): seq<Byte>
      requires Valid()
      reads this, buf
    {
      buf[data..length]
    }

    /** Index of the option at which a reader stops. */
    ghost function StopIndex(): (k: nat)
      reads this
      ensures k <= |wire|
    {
      if Open() then Stop(wire) else |wire|
    }

    /** Position of the byte at which a reader stops. */
    ghost function StopPos(): (p: nat)
      requires AllValid(wire)
      reads this
      ensures p <= End()
    {
      FlatPrefix(wire, StopIndex());
      HEADER_SIZE + Off(wire, StopIndex())
    }

    /** coap_pdu_clear: an empty message of protocol version 1. */
    constructor (size: nat)
      requires HEADER_SIZE <= size < 0x10000
      ensures Valid() && wire == [] && optcnt == 0 && length == data == HEADER_SIZE
      ensures buf.Length == size && fresh(buf)
    {
      buf := new Byte[size](i => 0);
      kind, code, id, optcnt := 0, 0, 0, 0;
      length := HEADER_SIZE;
      data := HEADER_SIZE;
      wire := [];
    }

    /** The copy of a received datagram, with the data position found by the option walk. */
    constructor FromBytes(s: seq<Byte>, data: nat)
      requires HEADER_SIZE <= |s| < 0x10000
      ensures buf[..] == s && fresh(buf)
      ensures kind == s[0] / 16 % 4 && code == s[1] && id == s[2] as int * 256 + s[3]
      ensures optcnt == OptCntOf(s) && length == buf.Length == |s| && this.data == data
      ensures data <= |s| ==> buf[data..length] == s[data..]
    {
      buf := new Byte[|s|](i requires 0 <= i < |s| => s[i]);
      kind, code, id := s[0] as int / 16 % 4, s[1], s[2] as int * 256 + s[3];
      optcnt, length, this.data := OptCntOf(s), |s|, data;
      wire := [];
    }

    /** The received bytes hold the options `ws`. */
    ghost method Hold(ws: seq<Wire>)
      requires HEADER_SIZE <= buf.Length == length < 0x10000 && kind < 4 && id < 0x10000 && optcnt <= OPT_LONG
      requires AllValid(ws) && Num(ws) < 0x10000
      requires data == HEADER_SIZE + |Flat(ws)| + (if Open() then 1 else 0) <= buf.Length
      requires buf[HEADER_SIZE..HEADER_SIZE + |Flat(ws)|] == Flat(ws)
      requires if Open() then buf[HEADER_SIZE + |Flat(ws)|] == OPT_END else optcnt == |ws|
      modifies this`wire
      ensures Valid() && wire == ws
    {
      wire := ws;
    }

    /** Reading the buffer at the position of wire option `k`. */
    lemma ReadOption(k: nat)
      requires OptionsValid() && k < |wire|
      ensures HEADER_SIZE + Off(wire, k + 1) <= End()
      ensures var s, p := buf[..], HEADER_SIZE + Off(wire, k);
        && Readable(s, p)
        && DeltaOf(s[p]) == wire[k].delta
        && LengthAt(s, p) == |wire[k].val|
        && NextAt(s, p) == HEADER_SIZE + Off(wire, k + 1)
        && s[ValueAt(s, p)..NextAt(s, p)] == wire[k].val
        && (s[p] == OPT_END <==> LooksLikeEnd(wire[k]))
      ensures Num(wire[..k + 1]) == Num(wire[..k]) + wire[k].delta
    {
      assert buf[..][HEADER_SIZE..End()] == buf[HEADER_SIZE..End()];
      ReadWire(buf[..], HEADER_SIZE, wire, k);
    }

    /** In the open-ended form there is an end marker byte where a reader stops. */
    lemma StopByte()
      requires OptionsValid() && Open()
      ensures StopPos() < buf.Length && buf[StopPos()] == OPT_END
    {
      var k := StopIndex();
      if k < |wire| {
        ReadOption(k);
        assert buf[..][StopPos()] == buf[StopPos()];
      } else {
        assert wire[..k] == wire;
      }
    }

    /** The walk stands at wire option `k`, having summed up the numbers before it. */
    ghost predicate At(opt: nat, code: nat, k: nat)
      requires AllValid(wire)
      reads this
    {
      k <= |wire| && opt == HEADER_SIZE + Off(wire, k) && code == Num(wire[..k])
    }

    lemma AtStart()
      requires OptionsValid()
      ensures At(HEADER_SIZE, 0, 0)
    {
      assert wire[..0] == [];
    }

    lemma AtEnd(opt: nat, code: nat)
      requires OptionsValid() && At(opt, code, |wire|)
      ensures opt == End() && code == Num(wire)
    {
      assert wire[..|wire|] == wire;
    }

    lemma AtStep(opt: nat, code: nat, k: nat)
      requires OptionsValid() && At(opt, code, k) && k < |wire|
      ensures Readable(buf[..], opt)
      ensures opt < NextAt(buf[..], opt)
      ensures At(NextAt(buf[..], opt), code + DeltaOf(buf[opt]), k + 1)
    {
      ReadOption(k);
      assert buf[..][opt] == buf[opt];
    }

    /** In the open-ended form the walk has not reached the stop byte, or has passed it. */
    ghost predicate LongWalk(opt: nat, code: nat, cnt: int, k: nat)
      requires AllValid(wire)
      reads this
    {
      opt > StopPos() || (cnt == OPT_LONG && k <= StopIndex() && At(opt, code, k))
    }

    lemma LongStep(opt: nat, code: nat, cnt: int, k: nat)
      requires OptionsValid() && Open() && LongWalk(opt, code, cnt, k)
      requires Readable(buf[..], opt)
      ensures var skip := buf[opt] != OPT_END;
        LongWalk(NextAt(buf[..], opt), code + DeltaOf(buf[opt]), if skip then cnt else cnt - 1, k + 1)
    {
      if opt <= StopPos() {
        if k < StopIndex() {
          AtStep(opt, code, k);
          ReadOption(k);
        } else {
          StopByte();
        }
      }
    }

    /**
     * The loop of coap_add_option that looks for the last option. A position outside
     * the buffer can only move further out, so the walk gives up there.
     */
    method FindLast() returns (opt: nat, code: nat)
      requires OptionsValid()
      ensures !Open() ==> opt == End() && code == Num(wire)
      ensures Open() ==> opt > StopPos()
    {
      var isLong := optcnt == OPT_LONG;
      var cnt := optcnt;
      opt, code := HEADER_SIZE, 0;
      ghost var k := 0;
      AtStart();
      while (isLong && opt < buf.Length && buf[opt] != OPT_END) || cnt > 0
        invariant 0 <= cnt
        invariant isLong ==> LongWalk(opt, code, cnt, k)
        invariant !isLong ==> k <= |wire| && cnt == |wire| - k && At(opt, code, k)
        decreases buf.Length - opt
      {
        if isLong {
          if Readable(buf[..], opt) { LongStep(opt, code, cnt, k); }
        } else {
          AtStep(opt, code, k);
        }
        if !(isLong && opt < buf.Length && buf[opt] != OPT_END) {
          cnt := cnt - 1;
        }
        if !Readable(buf[..], opt) {
          return buf.Length + 1, code;
        }
        code := code + DeltaOf(buf[opt]);
        opt := NextAt(buf[..], opt);
        k := k + 1;
      }
      if !isLong { AtEnd(opt, code); }
    }

    /** One fence post behind those already written. */
    method WriteFence(ghost start: nat, opt: nat, fence: Byte, ghost done: seq<Wire>, ghost prev: nat, ghost code: nat,
                      ghost typ: nat)
      requires FencesDone(done, prev, code, typ) && code + 15 < typ && fence == Gap(code) * 16
      requires start <= opt < buf.Length && buf[start..opt] == Flat(done)
      modifies buf
      ensures buf[..start] == old(buf[..start])
      ensures FencesDone(done + [Wire(Gap(code), [])], prev, code + Gap(code), typ) && Gap(code + Gap(code)) == NOOP
      ensures buf[start..opt + 1] == Flat(done + [Wire(Gap(code), [])])
    {
      FenceStep(done, prev, code, typ);
      PutByte(buf, start, opt, fence);
    }

    /** The loop of coap_add_option that writes fence posts, one byte each. */
    method WriteFences(start: nat, prev: nat, typ: nat, optsize: nat)
      returns (ok: bool, opt: nat, code: nat)
      requires prev <= typ && start <= buf.Length
      modifies buf
      ensures buf[..start] == old(buf[..start])
      ensures ok ==>
        && opt == start + |Fences(prev, typ)| <= buf.Length
        && code == prev + Num(Fences(prev, typ))
        && buf[start..opt] == Flat(Fences(prev, typ))
      ensures !ok ==> start + |Fences(prev, typ)| + optsize + 1 > buf.Length
    {
      opt, code := start, prev;
      var fence := Gap(code) * 16;
      ghost var done: seq<Wire> := [];
      while code + 15 < typ
        invariant FencesDone(done, prev, code, typ)
        invariant opt == start + |done| <= buf.Length
        invariant fence == Gap(code) * 16
        invariant buf[start..opt] == Flat(done)
        invariant buf[..start] == old(buf[..start])
        decreases typ - code
      {
        if opt + optsize + 1 > buf.Length {
          return false, opt, code;
        }
        WriteFence(start, opt, fence, done, prev, code, typ);
        done := done + [Wire(Gap(code), [])];
        code := code + DeltaOf(fence);
        opt := opt + 1;
        fence := NOOP * 16;
      }
      assert done == Fences(prev, typ);
      ok := true;
    }

    method CopyBytes(start: nat, val: seq<Byte>)
      requires start + |val| <= buf.Length
      modifies buf
      ensures buf[..start] == old(buf[..start])
      ensures buf[start..start + |val|] == val
      ensures buf[start + |val|..] == old(buf[start + |val|..])
    {
      forall i | 0 <= i < |val| {
        buf[start + i] := val[i];
      }
    }

    /** The part of coap_add_option that writes the option itself. */
    method WriteOption(opt: nat, delta: nat, val: seq<Byte>) returns (end: nat)
      requires delta <= 15
      requires opt + |val| + (if |val| > 14 then 2 else 1) <= buf.Length
      modifies buf
      ensures buf[..opt] == old(buf[..opt])
      ensures end == opt + |SetHead(delta, |val|) + val| <= buf.Length
      ensures buf[opt..end] == SetHead(delta, |val|) + val
    {
      var start := opt + 1;
      if |val| % 256 < 15 {
        buf[opt] := delta * 16 + |val| % 256;
      } else {
        buf[opt] := delta * 16 + 15;
        buf[opt + 1] := |val| % 256 - 15;
        start := opt + 2;
      }
      assert buf[..opt] == old(buf[..opt]);
      assert buf[opt..start] == SetHead(delta, |val|);
      ghost var before := buf[..];
      CopyBytes(start, val);
      end := start + |val|;
      Seqs.PrefixSlice(buf[..], before, start, 0, opt);
      Seqs.PrefixSlice(buf[..], before, start, opt, start);
      Seqs.SliceConcat(buf[..], opt, start, end);
    }

    /** Size reserved for an option, header included. */
    static function OptSize(len: nat): nat { len + if len > 14 then 2 else 1 }

    /** The end of coap_add_option: record the count and the data position. */
    method Finish(cnt: nat, end: nat)
      requires end < buf.Length
      modifies this`optcnt, this`data, this`length, buf
      ensures buf[..end] == old(buf[..end])
      ensures optcnt == Min(cnt, OPT_LONG)
      ensures Open() ==> buf[end] == OPT_END
      ensures length == data == end + if Open() then 1 else 0
    {
      data := end;
      if cnt < OPT_LONG {
        optcnt := cnt;
      } else {
        optcnt := OPT_LONG;
        buf[data] := OPT_END;
        data := data + 1;
      }
      length := data;
    }

    /** Fence posts and option at `start`, if the space reserved for them is there. */
    method WriteAll(start: nat, prev: nat, typ: nat, val: seq<Byte>) returns (ok: bool, n: nat, end: nat)
      requires start <= buf.Length && prev <= typ
      modifies buf
      ensures ok <==> start + |Fences(prev, typ)| + OptSize(|val|) + 1 <= buf.Length
      ensures buf[..start] == old(buf[..start])
      ensures ok ==>
        && n == |Fences(prev, typ)|
        && end == start + |Added(prev, typ, val)| < buf.Length
        && buf[start..end] == Added(prev, typ, val)
    {
      var optsize := OptSize(|val|);
      FencesReach(prev, typ);
      var opt, code;
      end, n := start, 0;
      ok, opt, code := WriteFences(start, prev, typ, optsize);
      if !ok || opt + optsize + 1 > buf.Length {
        return false, n, end;
      }
      end := WriteBehindFences(start, opt, typ - code, val);
      n := opt - start;
    }

    /** The option behind the fence posts from `start` on. */
    method WriteBehindFences(ghost start: nat, opt: nat, delta: nat, val: seq<Byte>) returns (end: nat)
      requires delta <= 15 && start <= opt && opt + OptSize(|val|) <= buf.Length
      modifies buf
      ensures buf[..start] == old(buf[..start])
      ensures end == opt + |SetHead(delta, |val|) + val| <= buf.Length
      ensures buf[start..end] == old(buf[start..opt]) + (SetHead(delta, |val|) + val)
      ensures |SetHead(delta, |val|) + val| <= OptSize(|val|)
    {
      ghost var mid := buf[..];
      end := WriteOption(opt, delta, val);
      Seqs.PrefixSlice(buf[..], mid, opt, 0, start);
      Seqs.PrefixSlice(buf[..], mid, opt, start, opt);
      Seqs.SliceConcat(buf[..], start, opt, end);
    }

    ghost predicate Fits(typ: nat, len: nat)
      requires AllValid(wire)
      reads this
    {
      FitsIn(wire, buf.Length, typ, len)
    }

    /** The options of a list that was already open-ended, up to where a reader stops. */
    lemma TruncatedValid()
      requires OptionsValid() && Open()
      ensures StopPos() < buf.Length && buf[StopPos()] == OPT_END
      ensures Flat(wire[..StopIndex()]) == buf[HEADER_SIZE..StopPos()]
      ensures Num(wire[..StopIndex()]) <= Num(wire)
    {
      StopByte();
      var k := StopIndex();
      FlatPrefix(wire, k);
      Seqs.SliceSlice(buf[..], HEADER_SIZE, End(), 0, Off(wire, k));
    }

    /** The writing part of coap_add_option on a counted list. */
    method ExtendCounted(opt: nat, prev: nat, typ: nat, val: seq<Byte>) returns (ok: bool, ghost end: nat)
      requires Valid() && !Open() && opt == End() && prev == Num(wire) <= typ
      modifies this`optcnt, this`data, this`length, buf
      ensures ok <==> Fits(typ, |val|)
      ensures ok ==>
        && end == End() + |Added(Num(wire), typ, val)| < buf.Length
        && buf[HEADER_SIZE..end] == Flat(wire) + Added(Num(wire), typ, val)
        && optcnt == Min(|wire| + |Fences(Num(wire), typ)| + 1, OPT_LONG)
        && (Open() ==> buf[end] == OPT_END)
        && length == data == end + if Open() then 1 else 0
      ensures !ok ==> Valid() && length == old(length) && !Open()
    {
      ghost var s0 := buf[..];
      var n, e;
      ok, n, e := WriteAll(opt, prev, typ, val);
      end := e;
      Seqs.PrefixSlice(buf[..], s0, opt, HEADER_SIZE, opt);
      if !ok {
        return;
      }
      ghost var s1 := buf[..];
      Finish(optcnt + n + 1, e);
      Seqs.PrefixSlice(buf[..], s1, e, HEADER_SIZE, e);
      Seqs.SliceConcat(s1, HEADER_SIZE, opt, e);
    }

    /** The buffer now holds the longer list `ws`, and data starts after it. */
    ghost method Adopt(ws: seq<Wire>, end: nat)
      requires HEADER_SIZE <= end < buf.Length < 0x10000 && kind < 4 && id < 0x10000
      requires AllValid(ws) && Num(ws) < 0x10000
      requires buf[HEADER_SIZE..end] == Flat(ws)
      requires optcnt == Min(|ws|, OPT_LONG) && (Open() ==> buf[end] == OPT_END)
      requires length == data == end + if Open() then 1 else 0
      modifies this`wire
      ensures Valid() && wire == ws && (Open() <==> |ws| >= OPT_LONG)
    {
      wire := ws;
    }

    /** coap_add_option on a counted list. */
    method AddToCounted(typ: nat, val: seq<Byte>) returns (r: int)
      requires Valid() && typ < 0x10000 && !Open()
      modifies this`optcnt, this`data, this`length, this`wire, buf
      ensures r == if old(Fits(typ, |val|)) then |val| else -1
      ensures r == |val| && |val| <= 255 ==>
        && Valid() && length == data
        && wire == old(wire) + WireOf(Num(old(wire)), Opt(typ, val))
        && (Open() <==> |wire| >= OPT_LONG)
      ensures r == -1 ==> Valid() && wire == old(wire) && length == old(length) && !Open()
    {
      var opt, prev := FindLast();
      if opt > buf.Length || typ < prev {
        return -1;
      }
      var ok; ghost var end;
      ok, end := ExtendCounted(opt, prev, typ, val);
      if !ok {
        return -1;
      }
      if |val| <= 255 {
        Extended(typ, val, end);
      }
      r := |val|;
    }

    /** The buffer holds one option more. */
    ghost method Extended(typ: nat, val: seq<Byte>, end: nat)
      requires AllValid(wire) && Num(wire) <= typ < 0x10000 && |val| <= 255
      requires HEADER_SIZE <= end < buf.Length < 0x10000 && kind < 4 && id < 0x10000
      requires buf[HEADER_SIZE..end] == Flat(wire) + Added(Num(wire), typ, val)
      requires optcnt == Min(|wire| + |Fences(Num(wire), typ)| + 1, OPT_LONG)
      requires (Open() ==> buf[end] == OPT_END) && length == data == end + if Open() then 1 else 0
      modifies this`wire
      ensures Valid() && wire == old(wire) + WireOf(Num(old(wire)), Opt(typ, val)) && (Open() <==> |wire| >= OPT_LONG)
    {
      AppendImage(wire, typ, val);
      Adopt(wire + WireOf(Num(wire), Opt(typ, val)), end);
    }

    /**
     * coap_add_option on a list that is open-ended already. The walk runs past the end
     * marker, so whatever is written lies behind it.
     */
    method AddToOpen(typ: nat, val: seq<Byte>) returns (r: int)
      requires Valid() && typ < 0x10000 && Open()
      modifies this`optcnt, this`data, this`length, this`wire, buf
      ensures r == -1 || r == |val|
      ensures OptionsValid() && Open() && wire == old(wire[..StopIndex()])
    {
      var opt, prev := FindLast();
      TruncatedValid();
      ghost var k, p, s0 := StopIndex(), StopPos(), buf[..];
      if opt > buf.Length || typ < prev {
        wire := wire[..k];
        return -1;
      }
      r := WriteBehind(opt, prev, typ, val, p + 1);
      Seqs.PrefixSlice(buf[..], s0, p + 1, HEADER_SIZE, p);
      assert buf[p] == buf[..p + 1][p] == s0[p];
      Truncate(k, p);
    }

    /** The list now ends where a reader stops. */
    ghost method Truncate(k: nat, p: nat)
      requires AllValid(wire) && Num(wire) < 0x10000 && k <= |wire| && Num(wire[..k]) <= Num(wire)
      requires HEADER_SIZE <= p < buf.Length < 0x10000 && kind < 4 && id < 0x10000 && Open()
      requires buf[HEADER_SIZE..p] == Flat(wire[..k]) && buf[p] == OPT_END
      modifies this`wire
      ensures OptionsValid() && wire == old(wire[..k])
    {
      wire := wire[..k];
    }

    /** The writing part of it; the first `n` bytes are not touched. */
    method WriteBehind(opt: nat, prev: nat, typ: nat, val: seq<Byte>, ghost n: nat) returns (r: int)
      requires n <= opt <= buf.Length && prev <= typ && Open()
      modifies this`optcnt, this`data, this`length, buf
      ensures (r == -1 || r == |val|) && Open()
      ensures buf[..n] == old(buf[..n])
    {
      ghost var s0 := buf[..];
      var ok, cnt, end := WriteAll(opt, prev, typ, val);
      Seqs.PrefixSlice(buf[..], s0, opt, 0, n);
      if !ok {
        if opt < buf.Length {
          buf[opt] := OPT_END;
        }
        r := -1;
      } else {
        ghost var s1 := buf[..];
        Finish(optcnt + cnt + 1, end);
        Seqs.PrefixSlice(buf[..], s1, end, 0, n);
        r := |val|;
      }
    }

    /**
     * coap_add_option: the walk, the order check, the fence posts, the option, and the
     * switch to the open-ended form when the count reaches fifteen.
     */
    method AddOption(typ: nat, val: seq<Byte>) returns (r: int)
      requires Valid() && typ < 0x10000
      modifies this`optcnt, this`data, this`length, this`wire, buf
      ensures !old(Open()) ==> r == if old(Fits(typ, |val|)) then |val| else -1
      ensures !old(Open()) && r == |val| && |val| <= 255 ==>
        && Valid() && length == data
        && wire == old(wire) + WireOf(Num(old(wire)), Opt(typ, val))
        && (Open() <==> |wire| >= OPT_LONG)
      ensures !old(Open()) && r == -1 ==> Valid() && wire == old(wire) && length == old(length) && !Open()
      ensures old(Open()) ==> OptionsValid() && Open() && wire == old(wire[..StopIndex()])
    {
      if Open() {
        r := AddToOpen(typ, val);
      } else {
        r := AddToCounted(typ, val);
      }
    }

    /** coap_add_data. */
    method AddData(val: seq<Byte>) returns (ok: bool)
      requires Valid()
      modifies this`length, buf
      ensures Valid()
      ensures ok <==> old(length) + |val| <= buf.Length
      ensures Payload() == if ok then old(Payload()) + val else old(Payload())
    {
      if length + |val| > buf.Length {
        return false;
      }
      ghost var s0 := buf[..];
      CopyBehind(data, length, val);
      Seqs.PrefixSlice(buf[..], s0, length, HEADER_SIZE, End());
      if Open() {
        assert buf[End()] == buf[..length][End()] == s0[End()];
      }
      length := length + |val|;
      ok := true;
    }

    /** Bytes behind those from `start` to `end`. */
    method CopyBehind(ghost start: nat, end: nat, val: seq<Byte>)
      requires start <= end && end + |val| <= buf.Length
      modifies buf
      ensures buf[..end] == old(buf[..end])
      ensures buf[start..end + |val|] == old(buf[start..end]) + val
    {
      ghost var s0 := buf[..];
      CopyBytes(end, val);
      Seqs.PrefixSlice(buf[..], s0, end, start, end);
      Seqs.SliceConcat(buf[..], start, end, end + |val|);
    }

    /** coap_get_data: the payload, empty if there is none. */
    method GetData() returns (val: seq<Byte>)
      requires Valid()
      ensures val == Payload()
    {
      if data < length {
        val := buf[data..length];
      } else {
        val := [];
      }
    }

    /** The datagram that is sent for this message. */
    function Datagram(): (s: seq<Byte>)
      requires kind < 4 && id < 0x10000 && optcnt <= OPT_LONG && HEADER_SIZE <= length <= buf.Length
      reads this, buf
    {
      var b0: Byte, b2: Byte, b3: Byte := 64 + kind * 16 + optcnt, id / 256, id % 256;
      [b0, code, b2, b3] + buf[HEADER_SIZE..length]
    }
  }

  // ----- The receiving side: coap_read in net.c -----

  function OptCntOf(s: seq<Byte>): nat
    requires |s| >= HEADER_SIZE
  {
    s[0] as int % 16
  }

  /** The datagram `s` carries the options `ws`, closed in the way its header announces. */
  ghost predicate Carries(s: seq<Byte>, ws: seq<Wire>) {
    && |s| >= HEADER_SIZE
    && HoldsAt(s, HEADER_SIZE, ws)
    && if OptCntOf(s) == OPT_LONG
       then HEADER_SIZE + |Flat(ws)| < |s| && s[HEADER_SIZE + |Flat(ws)|] == OPT_END
       else OptCntOf(s) == |ws|
  }

  /** Where the reader of such a datagram takes the payload to begin. */
  ghost function ReaderData(s: seq<Byte>, ws: seq<Wire>): nat
    requires Carries(s, ws)
  {
    if OptCntOf(s) == OPT_LONG then HEADER_SIZE + Off(ws, Stop(ws)) + 1 else HEADER_SIZE + |Flat(ws)|
  }

  datatype ReadResult = Parsed(data: nat) | Malformed

  ghost predicate WalkAt(s: seq<Byte>, ws: seq<Wire>, opt: nat, k: nat)
    requires Carries(s, ws)
  {
    && (k <= if OptCntOf(s) == OPT_LONG then Stop(ws) else |ws|)
    && opt == HEADER_SIZE + Off(ws, k)
  }

  lemma WalkStep(s: seq<Byte>, ws: seq<Wire>, opt: nat, k: nat)
    requires Carries(s, ws) && k <= |ws| && WalkAt(s, ws, opt, k)
    ensures OptCntOf(s) == OPT_LONG ==> opt < |s| && (s[opt] == OPT_END <==> k == Stop(ws))
    ensures k < |ws| ==> Readable(s, opt)
    ensures k < |ws| && (OptCntOf(s) == OPT_LONG ==> s[opt] != OPT_END) ==> WalkAt(s, ws, NextAt(s, opt), k + 1)
    ensures k == |ws| ==> opt == HEADER_SIZE + |Flat(ws)|
  {
    if k < |ws| {
      ReadWire(s, HEADER_SIZE, ws, k);
    } else {
      assert ws[..k] == ws;
    }
  }

  /** The options `seen` fill the datagram up to position `opt`, and none of them looks like the end. */
  ghost predicate Seen(s: seq<Byte>, seen: seq<Wire>, opt: nat) {
    && HoldsAt(s, HEADER_SIZE, seen) && opt == HEADER_SIZE + |Flat(seen)|
    && (|s| >= HEADER_SIZE && OptCntOf(s) == OPT_LONG ==> Stop(seen) == |seen|)
  }

  /** The option at position `i`, whatever the bytes there are. */
  ghost function WireFrom(s: seq<Byte>, i: nat): (w: Wire)
    requires Readable(s, i) && NextAt(s, i) <= |s|
    ensures w.Valid() && WireBytes(w) == s[i..NextAt(s, i)]
    ensures LooksLikeEnd(w) <==> s[i] == OPT_END
  {
    var w := Wire(DeltaOf(s[i]), s[ValueAt(s, i)..NextAt(s, i)]);
    Seqs.SliceConcat(s, i, ValueAt(s, i), NextAt(s, i));
    assert Head(w) == s[i..ValueAt(s, i)];
    w
  }

  lemma SeenStep(s: seq<Byte>, seen: seq<Wire>, opt: nat)
    requires |s| >= HEADER_SIZE && Seen(s, seen, opt) && Readable(s, opt) && NextAt(s, opt) <= |s|
    requires OptCntOf(s) == OPT_LONG ==> s[opt] != OPT_END
    ensures Seen(s, seen + [WireFrom(s, opt)], NextAt(s, opt))
  {
    var w := WireFrom(s, opt);
    FlatSnoc(seen, w);
    assert (seen + [w])[..|seen|] == seen;
    Seqs.SliceConcat(s, HEADER_SIZE, opt, NextAt(s, opt));
  }

  /** What was walked over is the list the datagram carries, once its announced end is reached. */
  lemma SeenAll(s: seq<Byte>, seen: seq<Wire>, opt: nat)
    requires |s| >= HEADER_SIZE && Seen(s, seen, opt)
    requires if OptCntOf(s) == OPT_LONG then opt < |s| && s[opt] == OPT_END else OptCntOf(s) == |seen|
    ensures Carries(s, seen) && ReaderData(s, seen) == opt + if OptCntOf(s) == OPT_LONG then 1 else 0
  {
    assert seen[..|seen|] == seen;
  }

  /** options_next, which may lead out of the datagram. */
  method PassOption(s: seq<Byte>, opt: nat, ghost seen: seq<Wire>) returns (next: nat, ghost seen': seq<Wire>)
    requires HEADER_SIZE <= opt < |s| && Seen(s, seen, opt)
    requires OptCntOf(s) == OPT_LONG ==> s[opt] != OPT_END
    ensures next > opt && next == if Readable(s, opt) then NextAt(s, opt) else |s| + 1
    ensures next <= |s| ==> Seen(s, seen', next) && |seen'| == |seen| + 1
  {
    seen' := seen;
    if Readable(s, opt) && NextAt(s, opt) <= |s| {
      SeenStep(s, seen, opt);
      seen' := seen + [WireFrom(s, opt)];
    }
    next := if Readable(s, opt) then NextAt(s, opt) else |s| + 1;
  }

  /**
   * The option walk of coap_read. It finds a payload inside the datagram if and only if
   * the datagram carries a list of options as its header announces it: `ws` is any list
   * it carries, `seen` the one that was walked over. An option that runs past the end of
   * the datagram leaves the position outside; the next round, or coap_get_data, notices that.
   */
  method ReadWalk(s: seq<Byte>, ghost ws: seq<Wire>) returns (r: ReadResult, ghost seen: seq<Wire>)
    requires |s| >= HEADER_SIZE
    ensures Carries(s, ws) ==> r == Parsed(ReaderData(s, ws)) && r.data <= |s|
    ensures r.Parsed? && r.data <= |s| ==> Carries(s, seen) && r.data == ReaderData(s, seen)
  {
    var opt: nat := HEADER_SIZE;
    var cnt := OptCntOf(s);
    var isLong := cnt == OPT_LONG;
    ghost var k := 0;
    seen := [];
    while cnt > 0
      invariant 0 <= cnt <= OPT_LONG && (isLong ==> cnt == OPT_LONG)
      invariant Carries(s, ws) ==> k <= |ws| && WalkAt(s, ws, opt, k) && (!isLong ==> cnt == |ws| - k)
      invariant opt <= |s| ==> Seen(s, seen, opt) && (!isLong ==> |seen| + cnt == OptCntOf(s))
      decreases if opt < |s| then |s| - opt else 0, cnt
    {
      if Carries(s, ws) { WalkStep(s, ws, opt, k); }
      if |s| <= opt {
        return Malformed, seen;
      }
      if isLong {
        if s[opt] == OPT_END {
          SeenAll(s, seen, opt);
          return Parsed(opt + 1), seen;
        }
      } else {
        cnt := cnt - 1;
      }
      opt, seen := PassOption(s, opt, seen);
      k := k + 1;
    }
    if Carries(s, ws) { WalkStep(s, ws, opt, k); }
    if opt <= |s| { SeenAll(s, seen, opt); }
    r := Parsed(opt);
  }

  /** The part of `ws` that the reader of a datagram gets to see. */
  ghost function ReaderWires(s: seq<Byte>, ws: seq<Wire>): seq<Wire>
    requires Carries(s, ws)
  {
    if OptCntOf(s) == OPT_LONG then ws[..Stop(ws)] else ws
  }

  lemma ReaderSees(s: seq<Byte>, ws: seq<Wire>)
    requires Carries(s, ws)
    ensures var rs := ReaderWires(s, ws);
      && AllValid(rs) && Num(rs) <= Num(ws)
      && HEADER_SIZE + |Flat(rs)| <= |s|
      && s[HEADER_SIZE..HEADER_SIZE + |Flat(rs)|] == Flat(rs)
      && ReaderData(s, ws) == HEADER_SIZE + |Flat(rs)| + (if OptCntOf(s) == OPT_LONG then 1 else 0)
      && (OptCntOf(s) == OPT_LONG ==> HEADER_SIZE + |Flat(rs)| < |s| && s[HEADER_SIZE + |Flat(rs)|] == OPT_END)
  {
    if OptCntOf(s) == OPT_LONG {
      var k := Stop(ws);
      FlatPrefix(ws, k);
      Seqs.SliceSlice(s, HEADER_SIZE, HEADER_SIZE + |Flat(ws)|, 0, Off(ws, k));
      WalkStep(s, ws, HEADER_SIZE + Off(ws, k), k);
    }
  }

  /** The message `p` is what the datagram `s` with the options `ws` says. */
  ghost predicate Received(p: Pdu, s: seq<Byte>, ws: seq<Wire>)
    reads p, p.buf
    requires Carries(s, ws)
  {
    && p.Valid()
    && p.kind == s[0] / 16 % 4 && p.code == s[1] && p.id == s[2] as int * 256 + s[3]
    && p.wire == ReaderWires(s, ws)
    && p.optcnt == OptCntOf(s)
    && p.length == p.buf.Length == |s|
    && p.data == ReaderData(s, ws)
    && p.Payload() == s[ReaderData(s, ws)..]
  }

  /** Fill a message with the bytes of a datagram, its payload beginning at `data`. */
  method CopyIn(s: seq<Byte>, data: nat, ghost ws: seq<Wire>) returns (p: Pdu)
    requires HEADER_SIZE <= |s| < 0x10000 && (Carries(s, ws) ==> data == ReaderData(s, ws))
    ensures fresh(p) && fresh(p.buf) && p.length == |s| && p.data == data
    ensures Carries(s, ws) && Num(ws) < 0x10000 ==> Received(p, s, ws)
  {
    p := new Pdu.FromBytes(s, data);
    if Carries(s, ws) && Num(ws) < 0x10000 {
      ReaderSees(s, ws);
      p.Hold(ReaderWires(s, ws));
      assert p.Payload() == s[data..];
    }
  }

  /**
   * coap_read after recvfrom: discard short frames and unknown versions, copy the
   * bytes, find the payload. Null stands for a discarded datagram; a malformed one of
   * type CON or NON is answered with a reset. A message whose payload begins inside it
   * was sent with a well-formed list of options, `seen`.
   */
  method Receive(s: seq<Byte>, ghost ws: seq<Wire>) returns (p: Pdu?, reset: bool, ghost seen: seq<Wire>)
    requires |s| < 0x10000
    ensures |s| < HEADER_SIZE || s[0] / 64 != 1 ==> p == null && !reset
    ensures |s| >= HEADER_SIZE && s[0] / 64 == 1 ==> (reset <==> p == null && s[0] / 16 % 4 < 2)
    ensures p != null ==> fresh(p) && fresh(p.buf) && p.length == |s|
    ensures p != null && p.data <= p.length ==> Carries(s, seen) && p.data == ReaderData(s, seen)
    ensures Carries(s, ws) && s[0] / 64 == 1 && Num(ws) < 0x10000 ==> p != null && Received(p, s, ws)
  {
    seen := [];
    if |s| < HEADER_SIZE || s[0] / 64 != 1 {
      return null, false, seen;
    }
    var r;
    r, seen := ReadWalk(s, ws);
    if r == Malformed {
      return null, s[0] / 16 % 4 < 2, seen;
    }
    p := CopyIn(s, r.data, ws);
    reset := false;
  }

  /** A valid message is sent as a datagram that carries its options. */
  lemma DatagramCarries(p: Pdu)
    requires p.Valid()
    ensures Carries(p.Datagram(), p.wire)
    ensures |p.Datagram()| == p.length && p.Datagram()[0] / 64 == 1
    ensures OptCntOf(p.Datagram()) == p.optcnt
    ensures p.Datagram()[0] / 16 % 4 == p.kind && p.Datagram()[1] == p.code
    ensures p.Datagram()[2] as int * 256 + p.Datagram()[3] == p.id
    ensures p.Datagram()[p.data..] == p.Payload()
  {
    var s := p.Datagram();
    DatagramHeader(p);
    DatagramBytes(p, HEADER_SIZE, p.End());
    DatagramBytes(p, p.data, p.length);
    assert s[p.data..p.length] == s[p.data..];
    if p.Open() {
      DatagramByte(p, p.End());
    }
  }

  lemma DatagramHeader(p: Pdu)
    requires p.kind < 4 && p.id < 0x10000 && p.optcnt <= OPT_LONG && HEADER_SIZE <= p.length <= p.buf.Length
    ensures var s := p.Datagram();
      && |s| == p.length && s[0] / 64 == 1 && OptCntOf(s) == p.optcnt
      && s[0] / 16 % 4 == p.kind && s[1] == p.code && s[2] as int * 256 + s[3] == p.id
  {
  }

  lemma DatagramByte(p: Pdu, i: nat)
    requires p.kind < 4 && p.id < 0x10000 && p.optcnt <= OPT_LONG && p.length <= p.buf.Length
    requires HEADER_SIZE <= i < p.length
    ensures i < |p.Datagram()| && p.Datagram()[i] == p.buf[i]
  {
    DatagramBytes(p, i, i + 1);
    assert p.Datagram()[i] == p.Datagram()[i..i + 1][0];
  }

  /** Behind the header the datagram is the buffer. */
  lemma DatagramBytes(p: Pdu, lo: nat, hi: nat)
    requires p.kind < 4 && p.id < 0x10000 && p.optcnt <= OPT_LONG && p.length <= p.buf.Length
    requires HEADER_SIZE <= lo <= hi <= p.length
    ensures |p.Datagram()| == p.length && p.Datagram()[lo..hi] == p.buf[lo..hi]
  {
    var s := p.Datagram();
    forall i | lo <= i < hi
      ensures s[i] == p.buf[i]
    {
      assert s[i] == p.buf[HEADER_SIZE..p.length][i - HEADER_SIZE];
    }
  }

  /** Every wire option takes at least one byte. */
  lemma OffStrict(ws: seq<Wire>, k: nat)
    requires AllValid(ws) && k < |ws|
    ensures Off(ws, k) < |Flat(ws)|
  {
    OffStep(ws, k);
  }

  /**
   * The receiver finds the payload where the sender put it exactly when no option of
   * an open-ended list looks like the end marker.
   */
  lemma BoundaryAgrees(p: Pdu)
    requires p.Valid()
    ensures Carries(p.Datagram(), p.wire)
    ensures ReaderData(p.Datagram(), p.wire) == p.data <==> p.StopIndex() == |p.wire|
    ensures ReaderWires(p.Datagram(), p.wire) == p.wire <==> p.StopIndex() == |p.wire|
  {
    DatagramCarries(p);
    var k := p.StopIndex();
    if k < |p.wire| {
      OffStrict(p.wire, k);
    } else {
      assert p.wire[..k] == p.wire;
    }
  }

  /** Sending and receiving: the other side sees the same options and the same payload. */
  method Deliver(p: Pdu) returns (q: Pdu)
    requires p.Valid() && p.StopIndex() == |p.wire|
    ensures fresh(q) && fresh(q.buf) && q.Valid()
    ensures q.wire == p.wire && q.optcnt == p.optcnt && q.Payload() == p.Payload()
    ensures q.kind == p.kind && q.code == p.code && q.id == p.id
  {
    DatagramCarries(p);
    BoundaryAgrees(p);
    var r, _, _ := Receive(p.Datagram(), p.wire);
    q := r;
  }

  /** coap_add_option accepts an option in order for which its reservation fits. */
  ghost predicate FitsIn(ws: seq<Wire>, size: nat, typ: nat, len: nat)
    requires AllValid(ws)
  {
    && Num(ws) <= typ
    && HEADER_SIZE + |Flat(ws)| + |Fences(Num(ws), typ)| + Pdu.OptSize(len) + 1 <= size
  }

  /** The bytes written for an option: its fence posts, its header and its value. */
  ghost function Added(prev: nat, typ: nat, val: seq<Byte>): seq<Byte>
    requires prev <= typ
  {
    Flat(Fences(prev, typ)) + (SetHead(LastDelta(prev, typ), |val|) + val)
  }

  /** For values of at most 255 bytes they are the image of the option's wire form. */
  lemma AppendImage(ws: seq<Wire>, typ: nat, val: seq<Byte>)
    requires AllValid(ws) && Num(ws) <= typ && |val| <= 255
    ensures var ws' := ws + WireOf(Num(ws), Opt(typ, val));
      && AllValid(ws')
      && Flat(ws') == Flat(ws) + Added(Num(ws), typ, val)
      && Num(ws') == typ
      && |ws'| == |ws| + |Fences(Num(ws), typ)| + 1
  {
    var fs, w := Fences(Num(ws), typ), Wire(LastDelta(Num(ws), typ), val);
    SetHeadExact(w.delta, val);
    AppendFlat(ws, fs, w);
  }

  lemma AppendFlat(ws: seq<Wire>, fs: seq<Wire>, w: Wire)
    requires AllValid(ws) && AllValid(fs) && w.Valid()
    ensures AllValid(ws + (fs + [w]))
    ensures Flat(ws + (fs + [w])) == Flat(ws) + (Flat(fs) + WireBytes(w))
    ensures Num(ws + (fs + [w])) == Num(ws) + Num(fs) + w.delta
  {
    FlatSnoc(fs, w);
    FlatConcat(ws, fs + [w]);
  }

  /** Progress of the fence post loop: `done` is written, the rest is still to come. */
  ghost predicate FencesDone(done: seq<Wire>, prev: nat, code: nat, typ: nat) {
    && code <= typ
    && AllValid(done)
    && code == prev + Num(done)
    && done + Fences(code, typ) == Fences(prev, typ)
  }

  lemma FenceStep(done: seq<Wire>, prev: nat, code: nat, typ: nat)
    requires FencesDone(done, prev, code, typ) && code + 15 < typ
    ensures FencesDone(done + [Wire(Gap(code), [])], prev, code + Gap(code), typ)
    ensures Flat(done + [Wire(Gap(code), [])]) == Flat(done) + [Gap(code) * 16]
    ensures Gap(code + Gap(code)) == NOOP
  {
    var w := Wire(Gap(code), []);
    FlatSnoc(done, w);
    Seqs.Assoc(done, [w], Fences(code + Gap(code), typ));
  }

  lemma FlatPrefix(ws: seq<Wire>, k: nat)
    requires AllValid(ws) && k <= |ws|
    ensures Off(ws, k) <= |Flat(ws)| && Num(ws[..k]) <= Num(ws)
    ensures Flat(ws)[..Off(ws, k)] == Flat(ws[..k])
    ensures k == |ws| ==> Off(ws, k) == |Flat(ws)|
  {
    FlatConcat(ws[..k], ws[k..]);
    Seqs.Cut(ws, k);
    assert k == |ws| ==> ws[..k] == ws;
  }
}
