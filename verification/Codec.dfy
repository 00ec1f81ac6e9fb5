/** The option codec as a whole: what coap_add_option wrote is what the iterator reads. */
module Codec {
  import opened Bytes
  import opened Bits
  import opened Options
  import opened Pdus
  import opened Iterators

  /** Options a caller may add one after the other: in order, and each of at most 255 bytes. */
  ghost predicate Addable(os: seq<Opt>) {
    && (forall i | 0 <= i < |os| :: |os[i].val| <= 255 && os[i].num < 0x10000)
    && (forall i, j | 0 <= i < j < |os| :: os[i].num <= os[j].num)
  }

  /** The wire form of a list of options. */
  ghost function Encode(os: seq<Opt>): (ws: seq<Wire>)
    requires Addable(os)
    ensures AllValid(ws)
    ensures Num(ws) == if os == [] then 0 else os[|os| - 1].num
  {
    if os == [] then []
    else
      var ws := Encode(os[..|os| - 1]);
      AppendImage(ws, os[|os| - 1].num, os[|os| - 1].val);
      ws + WireOf(Num(ws), os[|os| - 1])
  }

  /** Decoding the wire form gives back the list, in order and with every value. */
  lemma {:induction false} EncodeShown(os: seq<Opt>, pick: Opt -> bool)
    requires Addable(os) && HidesFences(pick)
    ensures Shown(Encode(os), pick) == Select(os, pick)
  {
    if os != [] {
      var front, o := os[..|os| - 1], os[|os| - 1];
      EncodeShown(front, pick);
      AppendDecodes(Encode(front), o, pick);
    }
  }

  /** Every option of the list has a place in its wire form. */
  lemma {:induction false} EncodeHas(os: seq<Opt>, k: nat) returns (i: nat)
    requires Addable(os) && k < |os|
    ensures i < |Encode(os)| && OptAt(Encode(os), i).num == os[k].num
  {
    var n := |os| - 1;
    EncodeLast(os);
    if k < n {
      i := EncodeHas(os[..n], k);
      OptAtFront(Encode(os[..n]), WireOf(Num(Encode(os[..n])), os[n]), i);
    } else {
      i := |Encode(os)| - 1;
      assert Encode(os)[..i + 1] == Encode(os);
    }
  }

  /** Options behind it do not change an option. */
  lemma OptAtFront(ws: seq<Wire>, more: seq<Wire>, i: nat)
    requires i < |ws|
    ensures OptAt(ws + more, i) == OptAt(ws, i)
  {
    assert (ws + more)[..i + 1] == ws[..i + 1];
  }

  /** Where a reader of the message with these wire options stops. */
  ghost function ReaderStop(ws: seq<Wire>): (k: nat)
    ensures k <= |ws| && (k < |ws| ==> LooksLikeEnd(ws[k]))
  {
    if |ws| >= OPT_LONG then Stop(ws) else |ws|
  }

  /** The condition under which everything added is read back. */
  ghost predicate ReadsBack(ws: seq<Wire>, pick: Opt -> bool) {
    && (forall j | 0 <= j < |ws| :: !LostAt(ws, ReaderStop(ws), pick, j))
    && (forall j | 0 <= j < ReaderStop(ws) :: !WrapsAt(ws, pick, j))
  }

  /** The wire form takes the space that coap_add_option reserves for it. */
  lemma EncodeStep(os: seq<Opt>, i: nat)
    requires Addable(os) && i < |os|
    ensures Addable(os[..i]) && Addable(os[..i + 1])
    ensures Encode(os[..i + 1]) == Encode(os[..i]) + WireOf(Num(Encode(os[..i])), os[i])
    ensures |Flat(Encode(os[..i + 1]))|
         == |Flat(Encode(os[..i]))| + |Fences(Num(Encode(os[..i])), os[i].num)| + Pdu.OptSize(|os[i].val|)
  {
    assert os[..i + 1] == os[..i] + [os[i]];
    EncodeSnoc(os[..i], os[i]);
  }

  lemma EncodeSnoc(os: seq<Opt>, o: Opt)
    requires Addable(os + [o]) && Addable(os)
    ensures Num(Encode(os)) <= o.num
    ensures Encode(os + [o]) == Encode(os) + WireOf(Num(Encode(os)), o)
    ensures |Flat(Encode(os + [o]))|
         == |Flat(Encode(os))| + |Fences(Num(Encode(os)), o.num)| + Pdu.OptSize(|o.val|)
  {
    var a := os + [o];
    assert a[..|a| - 1] == os && a[|a| - 1] == o;
    EncodeLast(a);
    WireSize(Encode(os), o);
  }

  lemma WireSize(ws: seq<Wire>, o: Opt)
    requires AllValid(ws) && Num(ws) <= o.num && |o.val| <= 255
    ensures AllValid(ws + WireOf(Num(ws), o))
    ensures |Flat(ws + WireOf(Num(ws), o))| == |Flat(ws)| + |Fences(Num(ws), o.num)| + Pdu.OptSize(|o.val|)
  {
    AppendImage(ws, o.num, o.val);
    AddedSize(Num(ws), o.num, o.val);
  }

  lemma EncodeLast(os: seq<Opt>)
    requires Addable(os) && os != []
    ensures var ws, o := Encode(os[..|os| - 1]), os[|os| - 1];
      Num(ws) <= o.num && Encode(os) == ws + WireOf(Num(ws), o)
  {
  }

  lemma AddedSize(prev: nat, typ: nat, val: seq<Byte>)
    requires prev <= typ && |val| <= 255
    ensures |Added(prev, typ, val)| == |Fences(prev, typ)| + Pdu.OptSize(|val|)
  {
    FenceBytes(prev, typ);
  }

  lemma {:induction false} FenceBytes(prev: nat, num: nat)
    ensures |Flat(Fences(prev, num))| == |Fences(prev, num)|
    decreases num - prev
  {
    if prev + 15 < num {
      FenceBytes(prev + Gap(prev), num);
      FlatConcat([Wire(Gap(prev), [])], Fences(prev + Gap(prev), num));
      FlatSnoc([], Wire(Gap(prev), []));
      assert [] + [Wire(Gap(prev), [])] == [Wire(Gap(prev), [])];
    }
  }

  lemma PrefixAddable(os: seq<Opt>, k: nat)
    requires Addable(os) && k <= |os|
    ensures Addable(os[..k])
  {
  }

  /** The bytes taken by the first `k` options. */
  ghost function Taking(os: seq<Opt>, k: nat): nat
    requires Addable(os) && k <= |os|
  {
    PrefixAddable(os, k);
    |Flat(Encode(os[..k]))|
  }

  lemma TakingStep(os: seq<Opt>, i: nat)
    requires Addable(os) && i < |os|
    ensures Taking(os, i) <= Taking(os, i + 1)
  {
    EncodeStep(os, i);
  }

  lemma {:induction false} TakingGrows(os: seq<Opt>, i: nat, j: nat)
    requires Addable(os) && i <= j <= |os|
    ensures Taking(os, i) <= Taking(os, j)
    decreases j
  {
    if i < j {
      var k := j - 1;
      TakingGrows(os, i, k);
      TakingStep(os, k);
    }
  }

  /** The first `k` options are in the counted form. */
  ghost predicate Counted(os: seq<Opt>, k: nat)
    requires k <= |os| && Addable(os)
  {
    PrefixAddable(os, k);
    |Encode(os[..k])| < OPT_LONG
  }

  /** The options, and the end marker or the byte kept free for it, fit into the message. */
  ghost predicate AllFit(size: nat, os: seq<Opt>)
    requires Addable(os)
  {
    os == [] || HEADER_SIZE + |Flat(Encode(os))| + 1 <= size
  }

  lemma AllTaking(os: seq<Opt>)
    requires Addable(os)
    ensures Taking(os, |os|) == |Flat(Encode(os))|
  {
    assert os[..|os|] == os;
  }

  /** The message holds the first `k` options of the list, and nothing else. */
  ghost predicate Holding(p: Pdu, os: seq<Opt>, k: nat)
    requires k <= |os| && Addable(os)
    reads p, p.buf
  {
    PrefixAddable(os, k);
    && p.Valid() && p.length == p.data && p.wire == Encode(os[..k])
    && (p.Open() <==> |p.wire| >= OPT_LONG)
    && (k > 0 ==> HEADER_SIZE + Taking(os, k) + 1 <= p.buf.Length)
  }

  /** Add option `i` behind those before it; it is refused exactly if it does not fit. */
  method AddOne(p: Pdu, os: seq<Opt>, i: nat) returns (ok: bool)
    requires Addable(os) && i < |os| && Holding(p, os, i) && Counted(os, i)
    modifies p`optcnt, p`data, p`length, p`wire, p.buf
    ensures p.Valid()
    ensures ok <==> HEADER_SIZE + Taking(os, i + 1) + 1 <= p.buf.Length
    ensures ok ==> Holding(p, os, i + 1)
  {
    EncodeStep(os, i);
    var r := p.AddOption(os[i].num, os[i].val);
    ok := r != -1;
  }

  /** Add the options in order; give up at the first that is refused. */
  method AddAll(p: Pdu, os: seq<Opt>) returns (ok: bool)
    requires p.Valid() && p.wire == [] && !p.Open() && p.length == p.data && Addable(os)
    requires forall k | 0 <= k < |os| :: Counted(os, k)
    modifies p`optcnt, p`data, p`length, p`wire, p.buf
    ensures p.Valid()
    ensures ok <==> AllFit(p.buf.Length, os)
    ensures ok ==> p.wire == Encode(os) && p.length == p.data && (p.Open() <==> |p.wire| >= OPT_LONG)
  {
    assert Holding(p, os, 0) by { assert os[..0] == []; }
    for i := 0 to |os|
      invariant Holding(p, os, i)
    {
      assert Counted(os, i);
      ok := AddOne(p, os, i);
      if !ok {
        TooLong(p.buf.Length, os, i);
        return;
      }
    }
    HoldsAll(p, os);
    ok := true;
  }

  lemma HoldsAll(p: Pdu, os: seq<Opt>)
    requires Addable(os) && Holding(p, os, |os|)
    ensures p.Valid() && p.length == p.data && p.wire == Encode(os) && (p.Open() <==> |p.wire| >= OPT_LONG)
    ensures AllFit(p.buf.Length, os)
  {
    assert os[..|os|] == os;
    AllTaking(os);
  }

  /** If option `i` does not fit, the list does not. */
  lemma TooLong(size: nat, os: seq<Opt>, i: nat)
    requires Addable(os) && i < |os| && HEADER_SIZE + Taking(os, i + 1) + 1 > size
    ensures !AllFit(size, os)
  {
    TakingGrows(os, i + 1, |os|);
    AllTaking(os);
  }

  /** Build a message from a list of options and read it back. */
  method WriteThenRead(size: nat, os: seq<Opt>, filter: Vec) returns (ok: bool, back: seq<Opt>)
    requires HEADER_SIZE <= size < 0x10000 && Addable(os)
    requires forall k | 0 <= k < |os| :: Counted(os, k)
    ensures ok <==> AllFit(size, os)
    ensures ok ==> (back == Select(os, Through(filter)) <==> ReadsBack(Encode(os), Through(filter)))
  {
    back := [];
    var p := new Pdu(size);
    ok := AddAll(p, os);
    if ok {
      back := Collect(p, filter);
      EncodeShown(os, Through(filter));
      ReadingExact(p.wire, ReaderStop(p.wire), Through(filter));
    }
  }

  // ----- Lists that need no fence posts -----

  /** Every number is within 14 of the one before. */
  ghost predicate Close(os: seq<Opt>) {
    forall i | 0 <= i < |os| :: os[i].num < NumBefore(os, i) + 15
  }

  ghost function NumBefore(os: seq<Opt>, i: nat): nat
    requires i < |os|
  {
    if i == 0 then 0 else os[i - 1].num
  }

  lemma ClosePrefix(os: seq<Opt>, k: nat)
    requires Close(os) && k <= |os|
    ensures Close(os[..k])
  {
    forall i | 0 <= i < k
      ensures os[..k][i].num < NumBefore(os[..k], i) + 15
    {
      assert os[i].num < NumBefore(os, i) + 15;
    }
  }

  /** An option close to the one before needs no fence post. */
  lemma CloseWire(prev: nat, o: Opt)
    requires prev <= o.num <= prev + 15
    ensures WireOf(prev, o) == [Wire(o.num - prev, o.val)]
  {
    assert Fences(prev, o.num) == [];
  }

  /** The wire form of such a list has one wire option for each, none of them an end marker lookalike. */
  lemma {:induction false} CloseEncode(os: seq<Opt>)
    requires Addable(os) && Close(os)
    ensures |Encode(os)| == |os|
    ensures forall j | 0 <= j < |os| :: Encode(os)[j].delta < 15
  {
    if os != [] {
      ClosePrefix(os, |os| - 1);
      CloseEncode(os[..|os| - 1]);
      var w := CloseLast(os, |os| - 1);
    }
  }

  /** The last option of such a list adds one wire option. */
  lemma CloseLast(os: seq<Opt>, n: nat) returns (w: Wire)
    requires Addable(os) && Close(os) && |os| == n + 1
    ensures w.delta < 15 && Encode(os) == Encode(os[..n]) + [w]
  {
    EncodeLast(os);
    NumIsBefore(os, n);
    CloseWire(NumBefore(os, n), os[n]);
    w := Wire(os[n].num - NumBefore(os, n), os[n].val);
    assert os[n].num < NumBefore(os, n) + 15;
  }

  lemma NumIsBefore(os: seq<Opt>, n: nat)
    requires Addable(os) && n < |os|
    ensures Num(Encode(os[..n])) == NumBefore(os, n)
  {
    if n > 0 {
      EncodeLast(os[..n]);
    }
  }

  /** A list that can be sent: counted, or close and just long enough to be open-ended. */
  ghost predicate Sendable(os: seq<Opt>) {
    Addable(os) && (|Encode(os)| < OPT_LONG || (Close(os) && |os| <= OPT_LONG))
  }

  lemma SendableCounts(os: seq<Opt>, k: nat)
    requires Sendable(os) && k < |os|
    ensures Counted(os, k)
  {
    PrefixAddable(os, k);
    if |Encode(os)| < OPT_LONG {
      ShorterPrefixes(os, k);
    } else {
      ClosePrefix(os, k);
      CloseEncode(os[..k]);
    }
  }

  lemma {:induction false} ShorterPrefixes(os: seq<Opt>, k: nat)
    requires Addable(os) && k <= |os|
    ensures Addable(os[..k]) && |Encode(os[..k])| <= |Encode(os)|
    decreases |os| - k
  {
    if k < |os| {
      ShorterPrefixes(os, k + 1);
      EncodeStep(os, k);
    } else {
      assert os[..k] == os;
    }
  }

  /** A reader sees all of a list that can be sent. */
  lemma SendableReads(os: seq<Opt>, pick: Opt -> bool)
    requires Sendable(os)
    ensures ReaderStop(Encode(os)) == |Encode(os)| && ReadsBack(Encode(os), pick)
  {
    var ws := Encode(os);
    if |ws| >= OPT_LONG {
      CloseEncode(os);
      NoLookalike(ws, pick);
    } else {
      NoLookalike(ws, pick);
    }
  }

  /** A short list without lookalikes is read completely. */
  lemma NoLookalike(ws: seq<Wire>, pick: Opt -> bool)
    requires |ws| <= OPT_LONG && (|ws| == OPT_LONG ==> forall j | 0 <= j < |ws| :: ws[j].delta < 15)
    ensures ReaderStop(ws) == |ws| && ReadsBack(ws, pick)
  {
    forall j | 0 <= j < |ws|
      ensures !LostAt(ws, ReaderStop(ws), pick, j) && !WrapsAt(ws, pick, j)
    {
    }
  }

  /** Build a message from such a list and send it: it arrives if and only if the options fit. */
  method Send(size: nat, os: seq<Opt>) returns (ok: bool, q: Pdu)
    requires HEADER_SIZE <= size < 0x10000 && Sendable(os)
    ensures fresh(q) && fresh(q.buf)
    ensures ok <==> AllFit(size, os)
    ensures ok ==> q.Valid() && q.wire == Encode(os) && (q.Open() <==> |q.wire| >= OPT_LONG)
  {
    forall k | 0 <= k < |os|
      ensures Counted(os, k)
    {
      SendableCounts(os, k);
    }
    q := new Pdu(size);
    ok := AddAll(q, os);
    if ok {
      SendableReads(os, Through([]));
      q := Deliver(q);
    }
  }
}
