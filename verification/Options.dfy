/**
 * Options as values: the byte layout of option.h, the fence posts of pdu.c, and
 * what a list of wire options decodes to.
 */
module Options {
  import opened Bytes
  import opened Bits
  import Seqs

  const HEADER_SIZE: nat := 4
  const OPT_END: Byte := 0xF0
  const OPT_LONG: nat := 15
  const NOOP: nat := 14
  const CONTENT_TYPE: nat := 1
  const TOKEN: nat := 11

  /** A decoded option: absolute number and value. */
  datatype Opt = Opt(num: nat, val: seq<Byte>)

  /** An option as it lies in a message: its number is relative to the previous option. */
  datatype Wire = Wire(delta: nat, val: seq<Byte>) {
    predicate Valid() { delta <= 15 && |val| <= 270 }
  }

  ghost predicate AllValid(ws: seq<Wire>) {
    forall i | 0 <= i < |ws| :: ws[i].Valid()
  }

  // ----- The access macros of option.h -----

  predicate Extended(b: Byte) { b % 16 == 15 }

  function DeltaOf(b: Byte): nat { b / 16 }

  /** The length byte of an extended option lies inside the string. */
  predicate Readable(s: seq<Byte>, i: nat) {
    i < |s| && (Extended(s[i]) ==> i + 1 < |s|)
  }

  function LengthAt(s: seq<Byte>, i: nat): nat
    requires Readable(s, i)
  {
    if Extended(s[i]) then s[i + 1] as int + 15 else s[i] as int % 16
  }

  function ValueAt(s: seq<Byte>, i: nat): nat
    requires Readable(s, i)
  {
    i + if Extended(s[i]) then 2 else 1
  }

  function NextAt(s: seq<Byte>, i: nat): nat
    requires Readable(s, i)
  {
    ValueAt(s, i) + LengthAt(s, i)
  }

  /** COAP_OPT_SETDELTA and COAP_OPT_SETLENGTH: only the low eight bits of the length are kept. */
  function SetHead(delta: nat, len: nat): (s: seq<Byte>)
    requires delta <= 15
  {
    if len % 256 < 15 then [delta * 16 + len % 256] else [delta * 16 + 15, len % 256 - 15]
  }

  /** The header that announces exactly |w.val| bytes. */
  function Head(w: Wire): (s: seq<Byte>)
    requires w.Valid()
  {
    if |w.val| < 15 then [w.delta * 16 + |w.val|] else [w.delta * 16 + 15, |w.val| - 15]
  }

  /** The setter macros announce the length they were given exactly up to 255 bytes. */
  lemma SetHeadExact(delta: nat, val: seq<Byte>)
    requires delta <= 15
    ensures LengthAt(SetHead(delta, |val|) + val, 0) == |val| <==> |val| <= 255
    ensures |val| <= 255 ==> SetHead(delta, |val|) == Head(Wire(delta, val))
  {
    var s := SetHead(delta, |val|);
    assert (s + val)[0] == s[0];
    if |s| == 2 { assert (s + val)[1] == s[1]; }
  }

  // ----- Sequences of wire options -----

  function WireBytes(w: Wire): seq<Byte>
    requires w.Valid()
  {
    Head(w) + w.val
  }

  ghost function Flat(ws: seq<Wire>): seq<Byte>
    requires AllValid(ws)
  {
    if ws == [] then [] else Flat(ws[..|ws| - 1]) + WireBytes(ws[|ws| - 1])
  }

  /** The number of the last option of the list, 0 if there is none. */
  ghost function Num(ws: seq<Wire>): nat {
    if ws == [] then 0 else Num(ws[..|ws| - 1]) + ws[|ws| - 1].delta
  }

  lemma FlatSnoc(ws: seq<Wire>, w: Wire)
    requires AllValid(ws) && w.Valid()
    ensures Flat(ws + [w]) == Flat(ws) + WireBytes(w)
    ensures Num(ws + [w]) == Num(ws) + w.delta
  {
    assert (ws + [w])[..|ws|] == ws;
  }

  lemma {:induction false} FlatConcat(a: seq<Wire>, b: seq<Wire>)
    requires AllValid(a) && AllValid(b)
    ensures Flat(a + b) == Flat(a) + Flat(b)
    ensures Num(a + b) == Num(a) + Num(b)
    decreases |b|
  {
    if b == [] {
      assert a + b == a;
    } else {
      var c, w := b[..|b| - 1], b[|b| - 1];
      FlatConcat(a, c);
      assert (a + b)[..|a + b| - 1] == a + c && (a + b)[|a + b| - 1] == w;
      Seqs.Assoc(Flat(a), Flat(c), WireBytes(w));
    }
  }

  ghost function Off(ws: seq<Wire>, k: nat): nat
    requires AllValid(ws) && k <= |ws|
  {
    |Flat(ws[..k])|
  }

  lemma NumStep(ws: seq<Wire>, k: nat)
    requires k < |ws|
    ensures Num(ws[..k + 1]) == Num(ws[..k]) + ws[k].delta
  {
    assert ws[..k + 1][..k] == ws[..k];
  }

  lemma OffStep(ws: seq<Wire>, k: nat)
    requires AllValid(ws) && k < |ws|
    ensures Off(ws, k) + |WireBytes(ws[k])| == Off(ws, k + 1) <= |Flat(ws)|
    ensures Flat(ws)[Off(ws, k)..Off(ws, k + 1)] == WireBytes(ws[k])
  {
    FlatSnoc(ws[..k], ws[k]);
    Seqs.PrefixSnoc(ws, k);
    FlatConcat(ws[..k + 1], ws[k + 1..]);
    Seqs.Cut(ws, k + 1);
    Seqs.Middle(Flat(ws[..k]), WireBytes(ws[k]), Flat(ws[k + 1..]));
  }

  /** `s` holds the byte image of `ws` from position `base` on. */
  ghost predicate HoldsAt(s: seq<Byte>, base: nat, ws: seq<Wire>) {
    && AllValid(ws)
    && base + |Flat(ws)| <= |s|
    && s[base..base + |Flat(ws)|] == Flat(ws)
  }

  /**
   * The header of a wire option: the delta in the upper half of its first byte, and in the
   * lower half the length or, from 15 bytes on, 15 and the rest of the length in a second
   * byte. The access macros read both.
   */
  lemma HeadFields(w: Wire)
    requires w.Valid()
    ensures var b, n := WireBytes(w), |w.val|;
      && b[0] / 16 == w.delta && b[0] as int % 16 == Min(n, 15)
      && (n < 15 ==> b[1..] == w.val) && (n >= 15 ==> b[1] == n - 15 && b[2..] == w.val)
    ensures Readable(WireBytes(w), 0)
    ensures DeltaOf(WireBytes(w)[0]) == w.delta
    ensures LengthAt(WireBytes(w), 0) == |w.val|
    ensures ValueAt(WireBytes(w), 0) == |Head(w)|
    ensures WireBytes(w)[0] == OPT_END <==> w == Wire(15, [])
    ensures WireBytes(w)[|Head(w)|..] == w.val
  {
    var b := WireBytes(w);
    assert b[0] == Head(w)[0];
    if |w.val| >= 15 { assert b[1] == Head(w)[1]; }
  }

  /** A field of an option is the same wherever in a string the option lies. */
  lemma ReadShifted(s: seq<Byte>, p: nat, b: seq<Byte>)
    requires p + |b| <= |s| && s[p..p + |b|] == b && Readable(b, 0)
    ensures Readable(s, p) && s[p] == b[0]
    ensures LengthAt(s, p) == LengthAt(b, 0)
    ensures ValueAt(s, p) == p + ValueAt(b, 0)
  {
    assert s[p] == b[0];
    if Extended(b[0]) { assert s[p + 1] == b[1]; }
  }

  /** The access macros at position `p` find the option `w`, and the next one at `next`. */
  ghost predicate Reads(s: seq<Byte>, p: nat, next: nat, w: Wire) {
    && next <= |s|
    && Readable(s, p)
    && DeltaOf(s[p]) == w.delta
    && LengthAt(s, p) == |w.val|
    && NextAt(s, p) == next
    && s[ValueAt(s, p)..next] == w.val
    && (s[p] == OPT_END <==> w == Wire(15, []))
  }

  /** Reading at the position of wire option `k` finds exactly that option. */
  lemma ReadWire(s: seq<Byte>, base: nat, ws: seq<Wire>, k: nat)
    requires HoldsAt(s, base, ws) && k < |ws|
    ensures Off(ws, k + 1) <= |Flat(ws)| <= |s| - base
    ensures Reads(s, base + Off(ws, k), base + Off(ws, k + 1), ws[k])
    ensures Num(ws[..k + 1]) == Num(ws[..k]) + ws[k].delta
  {
    NumStep(ws, k);
    WireSlice(s, base, ws, k);
    ReadAt(s, base + Off(ws, k), base + Off(ws, k + 1), ws[k]);
  }

  /** Where wire option `k` lies in the string. */
  lemma WireSlice(s: seq<Byte>, base: nat, ws: seq<Wire>, k: nat)
    requires HoldsAt(s, base, ws) && k < |ws|
    ensures Off(ws, k) + |WireBytes(ws[k])| == Off(ws, k + 1) <= |Flat(ws)| <= |s| - base
    ensures s[base + Off(ws, k)..base + Off(ws, k + 1)] == WireBytes(ws[k])
  {
    OffStep(ws, k);
    Seqs.Inside(s, base, Flat(ws), Off(ws, k), Off(ws, k + 1), WireBytes(ws[k]));
  }

  /** Reading a wire option that lies at position `p`. */
  lemma ReadAt(s: seq<Byte>, p: nat, next: nat, w: Wire)
    requires w.Valid() && p + |WireBytes(w)| == next <= |s| && s[p..next] == WireBytes(w)
    ensures Reads(s, p, next, w)
  {
    var b := WireBytes(w);
    HeadFields(w);
    ReadShifted(s, p, b);
    Seqs.SliceSlice(s, p, p + |b|, |Head(w)|, |b|);
  }

  // ----- What a list of wire options means -----

  /** The option that wire option `k` stands for. */
  ghost function OptAt(ws: seq<Wire>, k: nat): Opt
    requires k < |ws|
  {
    Opt(Num(ws[..k + 1]), ws[k].val)
  }

  /** An empty option whose number is a multiple of 14 is taken for a fence post. */
  predicate Hidden(o: Opt) { o.num % NOOP == 0 && o.val == [] }

  /**
   * What coap_option_next lets through. The filter is asked for the number
   * truncated to eight bits; a bit outside the filter is not zero and passes.
   */
  predicate Passes(o: Opt, filter: Vec) {
    !Hidden(o) && GetB(filter, o.num % 256) != 0
  }

  /** COAP_OPT_ALL. */
  const ALL: Vec := [255, 255, 255]

  lemma AllPasses(o: Opt)
    ensures Passes(o, ALL) <==> !Hidden(o)
  {
    var bit := o.num % 256;
    if bit / 8 < 3 {
      assert ALL[bit / 8] == 255;
      assert (255 as bv8) & Mask(bit % 8) != 0;
    }
  }

  ghost function Kept(o: Opt, pick: Opt -> bool): seq<Opt> {
    if pick(o) then [o] else []
  }

  /** The options of a list that acceptance test `pick` keeps, in order. */
  ghost function Select(os: seq<Opt>, pick: Opt -> bool): seq<Opt> {
    if os == [] then []
    else Select(os[..|os| - 1], pick) + Kept(os[|os| - 1], pick)
  }

  /** What a reader with acceptance test `pick` is given for a list of wire options. */
  ghost function Shown(ws: seq<Wire>, pick: Opt -> bool): seq<Opt> {
    if ws == [] then []
    else Shown(ws[..|ws| - 1], pick) + Kept(Opt(Num(ws), ws[|ws| - 1].val), pick)
  }

  /** The acceptance test of an iterator with the given filter. */
  function Through(filter: Vec): (pick: Opt -> bool)
    ensures HidesFences(pick)
  {
    (o: Opt) => Passes(o, filter)
  }

  ghost predicate AllPicked(os: seq<Opt>, pick: Opt -> bool) { forall i | 0 <= i < |os| :: pick(os[i]) }

  lemma AllPickedSnoc(front: seq<Opt>, o: Opt, pick: Opt -> bool)
    ensures AllPicked(front + [o], pick) <==> AllPicked(front, pick) && pick(o)
  {
    var os := front + [o];
    assert os[|front|] == o && forall i | 0 <= i < |front| :: os[i] == front[i];
  }

  lemma {:induction false} SelectWhole(os: seq<Opt>, pick: Opt -> bool)
    ensures |Select(os, pick)| <= |os|
    ensures Select(os, pick) == os <==> AllPicked(os, pick)
  {
    if os != [] {
      var front, o := os[..|os| - 1], os[|os| - 1];
      assert os == front + [o];
      SelectWhole(front, pick);
      AllPickedSnoc(front, o, pick);
      LastKept(front, o, Select(front, pick), Kept(o, pick), os);
    }
  }

  lemma LastKept(front: seq<Opt>, o: Opt, kept: seq<Opt>, last: seq<Opt>, os: seq<Opt>)
    requires os == front + [o] && |kept| <= |front| && (last == [] || last == [o])
    ensures |kept + last| <= |os|
    ensures kept + last == os <==> kept == front && last == [o]
  {
    if kept + last == os {
      assert |last| == 1;
      assert (kept + last)[..|kept|] == kept && os[..|front|] == front;
    }
  }

  /** Reading everything keeps a list whole exactly if none of its options is empty with a number divisible by 14. */
  lemma KeptWhole(os: seq<Opt>)
    ensures Select(os, Through(ALL)) == os <==> forall i | 0 <= i < |os| :: os[i].num % 14 != 0 || os[i].val != []
  {
    SelectWhole(os, Through(ALL));
    forall i | 0 <= i < |os|
      ensures Through(ALL)(os[i]) <==> os[i].num % 14 != 0 || os[i].val != []
    {
      AllPasses(os[i]);
    }
  }

  ghost predicate HidesFences(pick: Opt -> bool) {
    forall o: Opt :: Hidden(o) ==> !pick(o)
  }

  lemma SelectSnoc(os: seq<Opt>, o: Opt, pick: Opt -> bool)
    ensures Select(os + [o], pick) == Select(os, pick) + Kept(o, pick)
  {
    assert (os + [o])[..|os|] == os;
  }

  /** One more wire option gives the reader one more option to accept or refuse. */
  lemma ShownStep(ws: seq<Wire>, w: Wire, pick: Opt -> bool)
    ensures Shown(ws + [w], pick) == Shown(ws, pick) + Kept(Opt(Num(ws) + w.delta, w.val), pick)
    ensures Num(ws + [w]) == Num(ws) + w.delta
  {
    assert (ws + [w])[..|ws|] == ws;
  }

  lemma ShownAt(ws: seq<Wire>, k: nat, pick: Opt -> bool)
    requires k < |ws|
    ensures Shown(ws[..k + 1], pick) == Shown(ws[..k], pick) + Kept(OptAt(ws, k), pick)
  {
    ShownStep(ws[..k], ws[k], pick);
    NumStep(ws, k);
    Seqs.PrefixSnoc(ws, k);
  }

  // ----- Fence posts -----

  /** Distance from `prev` to the next multiple of 14. */
  function Gap(prev: nat): (g: nat)
    ensures 1 <= g <= 14 && (prev + g) % NOOP == 0
  {
    NOOP * (prev / NOOP + 1) - prev
  }

  /** The fence posts written between option number `prev` and option number `num`. */
  function Fences(prev: nat, num: nat): (ws: seq<Wire>)
    ensures forall i | 0 <= i < |ws| :: ws[i].Valid() && ws[i].val == []
    decreases num - prev
  {
    if prev + 15 < num then [Wire(Gap(prev), [])] + Fences(prev + Gap(prev), num) else []
  }

  /** The number reached by the fence posts: within 15 of the target. */
  lemma {:induction false} FencesReach(prev: nat, num: nat)
    requires prev <= num
    ensures prev + Num(Fences(prev, num)) <= num <= prev + Num(Fences(prev, num)) + 15
    decreases num - prev
  {
    if prev + 15 < num {
      FencesReach(prev + Gap(prev), num);
      FlatConcat([Wire(Gap(prev), [])], Fences(prev + Gap(prev), num));
      FlatSnoc([], Wire(Gap(prev), []));
      assert [] + [Wire(Gap(prev), [])] == [Wire(Gap(prev), [])];
    }
  }

  /** Delta of the option itself, once its fence posts are in place. */
  ghost function LastDelta(prev: nat, num: nat): (d: nat)
    requires prev <= num
    ensures d <= 15
  {
    FencesReach(prev, num);
    num - (prev + Num(Fences(prev, num)))
  }

  /** The wire options that represent `o` after an option numbered `prev`. */
  ghost function WireOf(prev: nat, o: Opt): (ws: seq<Wire>)
    requires prev <= o.num
  {
    Fences(prev, o.num) + [Wire(LastDelta(prev, o.num), o.val)]
  }

  /** The sequence `ws` leads from number `prev` to within 15 of `num` by options that a reader hides. */
  ghost predicate Bridges(ws: seq<Wire>, prev: nat, num: nat) {
    if ws == [] then num <= prev + 15
    else
      && ws[0].delta <= 14 && Hidden(Opt(prev + ws[0].delta, ws[0].val))
      && Bridges(ws[1..], prev + ws[0].delta, num)
  }

  /** One hidden option leads at most to the next multiple of 14. */
  lemma OneStep(prev: nat, d: nat)
    requires d <= 14 && (prev + d) % NOOP == 0
    ensures d == Gap(prev) || d == 0
  {
  }

  /** No other hidden options do with fewer. */
  lemma {:induction false} FencesFewest(ws: seq<Wire>, prev: nat, num: nat)
    requires Bridges(ws, prev, num)
    ensures |Fences(prev, num)| <= |ws|
    decreases |ws|
  {
    if prev + 15 < num {
      var d := ws[0].delta;
      FencesFewest(ws[1..], prev + d, num);
      OneStep(prev, d);
      if d == 0 {
        assert prev + d == prev;
      }
    }
  }

  lemma FenceInvisible(ws: seq<Wire>, pick: Opt -> bool)
    requires HidesFences(pick)
    ensures Shown(ws + [Wire(Gap(Num(ws)), [])], pick) == Shown(ws, pick)
    ensures Num(ws + [Wire(Gap(Num(ws)), [])]) == Num(ws) + Gap(Num(ws))
  {
    ShownStep(ws, Wire(Gap(Num(ws)), []), pick);
    assert Hidden(Opt(Num(ws) + Gap(Num(ws)), []));
  }

  lemma FencesSplit(ws: seq<Wire>, num: nat)
    requires Num(ws) + 15 < num
    ensures var more := ws + [Wire(Gap(Num(ws)), [])];
      Num(more) <= num && ws + Fences(Num(ws), num) == more + Fences(Num(more), num)
  {
    var prev := Num(ws);
    NumSnoc(ws, Wire(Gap(prev), []));
    Seqs.Assoc(ws, [Wire(Gap(prev), [])], Fences(prev + Gap(prev), num));
  }

  lemma NumSnoc(ws: seq<Wire>, w: Wire)
    ensures Num(ws + [w]) == Num(ws) + w.delta
  {
    assert (ws + [w])[..|ws|] == ws;
  }

  /** No number of fence posts changes what is decoded. */
  lemma {:induction false} FencesInvisible(ws: seq<Wire>, num: nat, pick: Opt -> bool)
    requires Num(ws) <= num && HidesFences(pick)
    ensures Shown(ws + Fences(Num(ws), num), pick) == Shown(ws, pick)
    decreases num - Num(ws)
  {
    if Num(ws) + 15 < num {
      FenceInvisible(ws, pick);
      FencesInvisible(ws + [Wire(Gap(Num(ws)), [])], num, pick);
      FencesSplit(ws, num);
    } else {
      assert ws + Fences(Num(ws), num) == ws;
    }
  }

  /**
   * Appending the wire form of an option extends the decoded list by exactly that
   * option, or by nothing if it is one the reader takes for a fence post.
   */
  lemma AppendDecodes(ws: seq<Wire>, o: Opt, pick: Opt -> bool)
    requires AllValid(ws) && Num(ws) <= o.num && HidesFences(pick)
    ensures Shown(ws + WireOf(Num(ws), o), pick) == Shown(ws, pick) + Kept(o, pick)
    ensures Num(ws + WireOf(Num(ws), o)) == o.num
  {
    FencesInvisible(ws, o.num, pick);
    FencesNum(ws, o.num);
    ShownBehind(ws, Fences(Num(ws), o.num), Wire(LastDelta(Num(ws), o.num), o.val), o, pick);
  }

  lemma ShownBehind(ws: seq<Wire>, fs: seq<Wire>, w: Wire, o: Opt, pick: Opt -> bool)
    requires Shown(ws + fs, pick) == Shown(ws, pick) && Num(ws + fs) + w.delta == o.num && w.val == o.val
    ensures Shown(ws + (fs + [w]), pick) == Shown(ws, pick) + Kept(o, pick) && Num(ws + (fs + [w])) == o.num
  {
    ShownStep(ws + fs, w, pick);
    Seqs.Assoc(ws, fs, [w]);
  }

  /** Behind the fence posts the last delta leads to the number. */
  lemma FencesNum(ws: seq<Wire>, num: nat)
    requires AllValid(ws) && Num(ws) <= num
    ensures Num(ws + Fences(Num(ws), num)) + LastDelta(Num(ws), num) == num
  {
    FlatConcat(ws, Fences(Num(ws), num));
  }

  // ----- Where a reader stops -----

  /** A wire option whose image is the end marker of the open-ended list form. */
  predicate LooksLikeEnd(w: Wire) { w == Wire(15, []) }

  /**
   * Index at which a reader of the open-ended form stops: the first end marker
   * lookalike, or the end of the list.
   */
  ghost function Stop(ws: seq<Wire>): (k: nat)
    ensures k <= |ws|
    ensures forall i | 0 <= i < k :: !LooksLikeEnd(ws[i])
    ensures k < |ws| ==> LooksLikeEnd(ws[k])
  {
    if ws == [] then 0
    else
      var k := Stop(ws[..|ws| - 1]);
      if k < |ws| - 1 || LooksLikeEnd(ws[|ws| - 1]) then k else |ws|
  }
}
