/** The option iterator of option.c. */
module Iterators {
  import opened Bits
  import opened Options
  import opened Pdus
  import Seqs

  /**
   * The state of coap_opt_iterator_t. `k` is the index of the current wire option and
   * `steps` what the eight-bit counter `n` would be if it did not wrap around.
   */
  class OptionIterator {
    const pdu: Pdu
    const filter: Vec
    var n: nat
    var typ: nat
    var option: nat
    ghost var k: nat
    ghost var steps: nat

    /** The iterator stands at wire option `k`. In a counted list `steps` is its ordinal number. */
    ghost predicate Placed()
      reads this, pdu, pdu.buf
    {
      && pdu.OptionsValid()
      && n == steps % 256
      && k <= pdu.StopIndex()
      && option == HEADER_SIZE + Off(pdu.wire, k)
      && (!pdu.Open() ==> steps == if steps == 0 then k else k + 1)
    }

    ghost predicate Valid()
      reads this, pdu, pdu.buf
    {
      Placed() && (k < pdu.StopIndex() ==> typ == Num(pdu.wire[..k + 1]))
    }

    /** opt_finished. */
    predicate Finished()
      requires pdu.Open() ==> option < pdu.buf.Length
      reads this, pdu, pdu.buf
    {
      if pdu.Open() then pdu.buf[option] == OPT_END else n > pdu.optcnt
    }

    lemma FinishedIff()
      requires Placed()
      ensures pdu.Open() ==> option < pdu.buf.Length
      ensures Finished() <==> k == pdu.StopIndex() && (pdu.Open() || steps != 0)
    {
      if pdu.Open() {
        pdu.StopByte();
        if k < pdu.StopIndex() {
          pdu.ReadOption(k);
          assert pdu.buf[..][option] == pdu.buf[option];
        }
      }
    }

    /** The current option as the caller reads it. */
    ghost function Current(): Opt
      requires k < pdu.StopIndex()
      reads this, pdu
    {
      OptAt(pdu.wire, k)
    }

    /** Everything the iterator will still hand out, the current option included. */
    ghost function Rest(): seq<Opt>
      requires k <= pdu.StopIndex()
      reads this, pdu
    {
      Emit(pdu.wire, pdu.StopIndex(), Through(filter), k, steps)
    }

    /** Where the search for the next accepted option, starting here, will end. */
    ghost function Target(): nat
      requires k <= pdu.StopIndex()
      reads this, pdu
    {
      Find(pdu.wire, pdu.StopIndex(), Through(filter), k)
    }

    /** coap_option_iterator_init. */
    constructor (pdu: Pdu, filter: Vec)
      requires pdu.OptionsValid()
      ensures Valid() && this.pdu == pdu && this.filter == filter && k == steps == 0
      ensures pdu.Open() && pdu.StopIndex() == 0 ==> typ == 15
    {
      this.pdu, this.filter := pdu, filter;
      n, k, steps := 0, 0, 0;
      typ, option := 0, HEADER_SIZE;
      new;
      assert pdu.wire[..0] == [];
      if pdu.optcnt != 0 {
        FirstOption();
        typ := DeltaOf(pdu.buf[option]);
      }
    }

    lemma FirstOption()
      requires pdu.OptionsValid() && option == HEADER_SIZE && pdu.optcnt != 0
      ensures HEADER_SIZE < pdu.buf.Length
      ensures 0 < pdu.StopIndex() ==> DeltaOf(pdu.buf[HEADER_SIZE]) == Num(pdu.wire[..1])
      ensures pdu.Open() && pdu.StopIndex() == 0 ==> pdu.buf[HEADER_SIZE] == OPT_END
    {
      assert pdu.wire[..0] == [];
      if pdu.Open() { pdu.StopByte(); }
      if |pdu.wire| > 0 {
        pdu.ReadOption(0);
        assert pdu.buf[..][HEADER_SIZE] == pdu.buf[HEADER_SIZE];
      }
    }

    /** options_next, without the number. */
    method Skip()
      requires Valid() && k < pdu.StopIndex()
      modifies this`option, this`k
      ensures k == old(k) + 1 && option == HEADER_SIZE + Off(pdu.wire, k)
    {
      pdu.ReadOption(k);
      option := NextAt(pdu.buf[..], option);
      k := k + 1;
    }

    /** Add the delta found at the new position to the option number. */
    method Load()
      requires pdu.OptionsValid() && 0 < k <= pdu.StopIndex() && option == HEADER_SIZE + Off(pdu.wire, k)
      requires typ == Num(pdu.wire[..k])
      modifies this`typ
      ensures k < pdu.StopIndex() ==> typ == Num(pdu.wire[..k + 1])
    {
      if k < |pdu.wire| { DeltaHere(); }
      if option < pdu.buf.Length {
        typ := (typ + DeltaOf(pdu.buf[option])) % 0x10000;
      }
    }

    /** The delta at the current position leads to the number of the current option. */
    lemma DeltaHere()
      requires pdu.OptionsValid() && k < |pdu.wire| && option == HEADER_SIZE + Off(pdu.wire, k)
      ensures option < pdu.buf.Length
      ensures Num(pdu.wire[..k]) + DeltaOf(pdu.buf[option]) == Num(pdu.wire[..k + 1]) < 0x10000
    {
      pdu.ReadOption(k);
      FlatPrefix(pdu.wire, k + 1);
      assert pdu.buf[..][option] == pdu.buf[option];
    }

    /** The condition of the skipping loop: a fence post, or refused by the filter. */
    method Skippable() returns (skip: bool)
      requires Valid() && (pdu.Open() || steps != 0)
      ensures skip <==> k < pdu.StopIndex() && !Passes(Current(), filter)
    {
      FinishedIff();
      if Finished() {
        return false;
      }
      pdu.ReadOption(k);
      skip := (typ % NOOP == 0 && LengthAt(pdu.buf[..], option) == 0) || GetB(filter, typ % 256) == 0;
    }

    method Count()
      requires n == steps % 256
      modifies this`n, this`steps
      ensures n == steps % 256 && steps == old(steps) + 1
    {
      n := (n + 1) % 256;
      steps := steps + 1;
    }

    /** One round of the skipping loop. */
    method Step()
      requires Valid() && k < pdu.StopIndex() && (pdu.Open() || steps != 0)
      requires !Passes(Current(), filter)
      modifies this
      ensures Valid() && k == old(k) + 1 && steps == old(steps) + 1 && (pdu.Open() || steps != 0)
      ensures Rest() == old(Rest()) && Target() == old(Target())
      ensures k == pdu.StopIndex() ==> typ == old(typ)
    {
      Skip();
      Count();
      FinishedIff();
      if !Finished() {
        Load();
      }
    }

    /** One round of the loop, and its condition again. */
    method StepOn(ghost k0: nat, ghost typ0: nat) returns (skip: bool)
      requires Looking(true, k0, typ0)
      modifies this
      ensures Looking(skip, k0, typ0) && k == old(k) + 1
      ensures Rest() == old(Rest()) && Target() == old(Target())
    {
      Step();
      skip := Skippable();
    }

    /** The first part of coap_option_next: only the very first call does not advance. */
    method Proceed()
      requires Valid() && (k < pdu.StopIndex() || (steps == 0 && !pdu.Open()))
      modifies this
      ensures Valid() && (pdu.Open() || steps != 0)
      ensures steps == old(steps) + 1
      ensures k == if old(n) == 0 then old(k) else old(k) + 1
      ensures old(n) == 0 ==> typ == old(typ)
    {
      if n != 0 {
        Advance();
      }
      Count();
    }

    /** Go to the next wire option. */
    method Advance()
      requires Valid() && k < pdu.StopIndex()
      modifies this`option, this`k, this`typ
      ensures k == old(k) + 1 && option == HEADER_SIZE + Off(pdu.wire, k)
      ensures k < pdu.StopIndex() ==> typ == Num(pdu.wire[..k + 1])
    {
      Skip();
      Load();
    }

    /** The skipping loop, begun at option `k0` with number `typ0`, goes on if `skip`. */
    ghost predicate Looking(skip: bool, k0: nat, typ0: nat)
      reads this, pdu, pdu.buf
    {
      && Valid() && (pdu.Open() || steps != 0) && k0 <= k
      && (skip <==> k < pdu.StopIndex() && !Passes(Current(), filter))
      && (k == pdu.StopIndex() ==> typ == if k0 < k then Num(pdu.wire[..k]) else typ0)
    }

    /** The skipping loop of coap_option_next. */
    method SkipRefused()
      requires Valid() && (pdu.Open() || steps != 0)
      modifies this
      ensures Valid() && (pdu.Open() || steps != 0)
      ensures k < pdu.StopIndex() ==> Passes(Current(), filter)
      ensures k == old(Target()) && Rest() == old(Rest())
      ensures k == pdu.StopIndex() ==> typ == if old(k) < k then Num(pdu.wire[..k]) else old(typ)
    {
      var skip := Skippable();
      while skip
        invariant Looking(skip, old(k), old(typ))
        invariant Rest() == old(Rest()) && Target() == old(Target())
        decreases pdu.StopIndex() - k
      {
        skip := StepOn(old(k), old(typ));
      }
    }

    /** What the next call will see, if the iterator is not finished. */
    ghost function Coming(): seq<Opt>
      requires k <= pdu.StopIndex()
      reads this, pdu
    {
      if k == pdu.StopIndex() then []
      else Emit(pdu.wire, pdu.StopIndex(), Through(filter), if n == 0 then k else k + 1, steps + 1)
    }

    /** Before the first call everything is still to come. */
    lemma FirstComing()
      requires k == steps == n == 0
      ensures Coming() == Emit(pdu.wire, pdu.StopIndex(), Through(filter), 0, 1)
    {
    }

    /** coap_option_next. */
    method Next() returns (found: bool)
      requires Valid()
      modifies this
      ensures Valid()
      ensures found <==> k < pdu.StopIndex()
      ensures found ==> Passes(Current(), filter)
      ensures old(n) == 0 ==> k == old(Target())
      ensures old(n) == 0 && !found ==> typ == if old(k) < k then Num(pdu.wire[..k]) else old(typ)
      ensures Rest() == old(Coming())
    {
      FinishedIff();
      if Finished() {
        return false;
      }
      Proceed();
      SkipRefused();
      FinishedIff();
      found := !Finished();
    }

    /** COAP_OPT_VALUE and COAP_OPT_LENGTH of the option just found. */
    method Read() returns (o: Opt)
      requires Valid() && k < pdu.StopIndex()
      ensures o == Current()
    {
      pdu.ReadOption(k);
      o := Opt(typ, pdu.buf[ValueAt(pdu.buf[..], option)..NextAt(pdu.buf[..], option)]);
    }

    /** The iterator has just been moved by coap_option_next, which returned `found`. */
    ghost predicate Moved(found: bool)
      reads this, pdu, pdu.buf
    {
      && Valid()
      && (found <==> k < pdu.StopIndex())
      && (found ==> Passes(Current(), filter))
    }

    lemma RestHead()
      requires k < pdu.StopIndex() && n == steps % 256 && Passes(Current(), filter)
      ensures Rest() == [Current()] + Coming()
    {
      EmitHead(pdu.wire, pdu.StopIndex(), Through(filter), k, steps, if n == 0 then k else k + 1);
    }

    /** Use the current option and move on: one round of a caller's loop. */
    method Take() returns (o: Opt, found: bool)
      requires Moved(true)
      modifies this
      ensures Moved(found)
      ensures old(Rest()) == [o] + Rest()
    {
      RestHead();
      o := Read();
      found := Next();
    }
  }

  /** Index of the first accepted option from `k` on, `stop` if there is none. */
  ghost function Find(ws: seq<Wire>, stop: nat, pick: Opt -> bool, k: nat): (r: nat)
    requires k <= stop <= |ws|
    ensures k <= r <= stop
    decreases stop - k
  {
    if k == stop || pick(OptAt(ws, k)) then k else Find(ws, stop, pick, k + 1)
  }

  lemma {:induction false} FindsFirst(ws: seq<Wire>, stop: nat, pick: Opt -> bool, k: nat)
    requires k <= stop <= |ws|
    ensures var r := Find(ws, stop, pick, k);
      (r < stop ==> pick(OptAt(ws, r))) && forall j | k <= j < r :: !pick(OptAt(ws, j))
    decreases stop - k
  {
    if k < stop && !pick(OptAt(ws, k)) {
      FindsFirst(ws, stop, pick, k + 1);
    }
  }

  /**
   * What repeated calls of coap_option_next hand out from wire option `k` on, when the
   * counter has reached `steps` there. A counter that has wrapped around to zero looks
   * like a fresh iterator's, and the option is handed out once more.
   */
  ghost function Emit(ws: seq<Wire>, stop: nat, pick: Opt -> bool, k: nat, steps: nat): seq<Opt>
    requires k <= stop <= |ws|
    decreases stop - k, if steps % 256 == 0 then 1 else 0
  {
    if k == stop then []
    else if !pick(OptAt(ws, k)) then Emit(ws, stop, pick, k + 1, steps + 1)
    else if steps % 256 == 0 then [OptAt(ws, k)] + Emit(ws, stop, pick, k, steps + 1)
    else [OptAt(ws, k)] + Emit(ws, stop, pick, k + 1, steps + 1)
  }

  lemma EmitHead(ws: seq<Wire>, stop: nat, pick: Opt -> bool, k: nat, steps: nat, next: nat)
    requires k < stop <= |ws| && pick(OptAt(ws, k)) && next == if steps % 256 == 0 then k else k + 1
    ensures Emit(ws, stop, pick, k, steps) == [OptAt(ws, k)] + Emit(ws, stop, pick, next, steps + 1)
  {
  }

  /** The loop every caller writes around coap_option_next. */
  method Collect(pdu: Pdu, filter: Vec) returns (os: seq<Opt>)
    requires pdu.OptionsValid()
    ensures os == Emit(pdu.wire, pdu.StopIndex(), Through(filter), 0, 1)
  {
    var it := new OptionIterator(pdu, filter);
    it.FirstComing();
    var found := it.Next();
    os := CollectRest(it, found);
  }

  method CollectRest(it: OptionIterator, found0: bool) returns (os: seq<Opt>)
    requires it.Moved(found0)
    modifies it
    ensures os == old(it.Rest())
  {
    ghost var every := it.Rest();
    var found := found0;
    os := [];
    while found
      invariant it.Moved(found) && os + it.Rest() == every
      decreases |it.Rest()|
    {
      var o;
      o, found := it.Take();
      Seqs.Assoc(os, [o], it.Rest());
      os := os + [o];
    }
  }

  // ----- coap_check_option -----

  /** The filter of coap_check_option. */
  function OnlyType(t: nat): Vec { SetB([0, 0, 0], t) }

  lemma OnlyTypePasses(o: Opt, t: nat)
    ensures Passes(o, OnlyType(t)) <==> !Hidden(o) && ((t < 24 && o.num % 256 == t) || o.num % 256 >= 24)
  {
    SetBReads([0, 0, 0], t, o.num % 256);
    ZeroReads([0, 0, 0], o.num % 256);
  }

  /** Among numbers up to 23 the filter is exact. */
  lemma NamedPasses(o: Opt, t: nat)
    requires o.num < 24 && t < 24 && t % NOOP != 0
    ensures Through(OnlyType(t))(o) <==> o.num == t
  {
    OnlyTypePasses(o, t);
  }

  /** `j` is the first option numbered `t` that a reader reaches. */
  ghost predicate FirstWith(pdu: Pdu, t: nat, j: nat)
    reads pdu
  {
    && j < pdu.StopIndex()
    && OptAt(pdu.wire, j).num == t
    && forall i | 0 <= i < j :: OptAt(pdu.wire, i).num != t
  }

  ghost predicate Without(pdu: Pdu, t: nat)
    reads pdu
  {
    forall i | 0 <= i < pdu.StopIndex() :: OptAt(pdu.wire, i).num != t
  }

  /** The search of coap_check_option ends at the first option with the number, if there is one. */
  lemma SearchType(pdu: Pdu, t: nat)
    requires t < 24 && t % NOOP != 0
    ensures var j := Find(pdu.wire, pdu.StopIndex(), Through(OnlyType(t)), 0);
      && (j < pdu.StopIndex() && OptAt(pdu.wire, j).num == t ==> FirstWith(pdu, t, j))
      && (j < pdu.StopIndex() && OptAt(pdu.wire, j).num != t ==> Without(pdu, t))
      && (j == pdu.StopIndex() ==> Without(pdu, t))
  {
    var ws, stop, pick := pdu.wire, pdu.StopIndex(), Through(OnlyType(t));
    var j := Find(ws, stop, pick, 0);
    FindsFirst(ws, stop, pick, 0);
    NoneRefused(ws, j, t);
    if j < stop && OptAt(ws, j).num != t {
      NoneBehind(ws, stop, j, t);
    }
  }

  /** If the search stops at another number, nothing from there on has the wanted one. */
  lemma NoneBehind(ws: seq<Wire>, stop: nat, j: nat, t: nat)
    requires t < 24 && j < stop <= |ws| && Passes(OptAt(ws, j), OnlyType(t)) && OptAt(ws, j).num != t
    ensures forall i | j <= i < stop :: OptAt(ws, i).num != t
  {
    OtherAbove(OptAt(ws, j), t);
    LaterAbove(ws, stop, j, t);
  }

  /** A filter for one number lets only larger numbers slip through. */
  lemma OtherAbove(o: Opt, t: nat)
    requires t < 24 && Passes(o, OnlyType(t)) && o.num != t
    ensures o.num > t
  {
    OnlyTypePasses(o, t);
  }

  /** The filter for number `t` refuses no option with that number. */
  lemma NoneRefused(ws: seq<Wire>, j: nat, t: nat)
    requires t < 24 && t % NOOP != 0 && j <= |ws| && forall i | 0 <= i < j :: !Passes(OptAt(ws, i), OnlyType(t))
    ensures forall i | 0 <= i < j :: OptAt(ws, i).num != t
  {
    forall i | 0 <= i < j
      ensures OptAt(ws, i).num != t
    {
      if OptAt(ws, i).num == t { TypePasses(OptAt(ws, i), t); }
    }
  }

  lemma TypePasses(o: Opt, t: nat)
    requires t < 24 && t % NOOP != 0 && o.num == t
    ensures Passes(o, OnlyType(t))
  {
    OnlyTypePasses(o, t);
  }

  /** Behind an option with a larger number there is none numbered `t`. */
  lemma LaterAbove(ws: seq<Wire>, stop: nat, j: nat, t: nat)
    requires j < stop <= |ws| && OptAt(ws, j).num > t
    ensures forall i | j <= i < stop :: OptAt(ws, i).num != t
  {
    forall i | j <= i < stop
      ensures OptAt(ws, i).num != t
    {
      NumPrefix(ws, j + 1, i + 1);
    }
  }

  /** An empty open-ended list makes the end marker pass for an option numbered 15. */
  ghost predicate Bogus(pdu: Pdu, t: nat)
    reads pdu
  {
    t == 15 && pdu.Open() && pdu.StopIndex() == 0
  }

  /** coap_check_option, for the numbers a filter can hold that are not fence posts. */
  method CheckOption(pdu: Pdu, t: nat) returns (it: OptionIterator, found: bool)
    requires pdu.OptionsValid() && t < 24 && t % NOOP != 0
    ensures fresh(it) && it.pdu == pdu && it.filter == OnlyType(t)
    ensures Bogus(pdu, t) ==> found
    ensures !Bogus(pdu, t) ==> if found then it.Moved(true) && FirstWith(pdu, t, it.k) else Without(pdu, t)
  {
    it := new OptionIterator(pdu, OnlyType(t));
    SearchType(pdu, t);
    var hit := it.Next();
    found := pdu.optcnt != 0 && it.typ == t;
    if !hit && it.k > 0 {
      assert it.typ == OptAt(pdu.wire, it.k - 1).num;
    }
  }

  // ----- When is what is handed out what was meant? -----

  /** An accepted option whose ordinal number is a multiple of 256. */
  ghost predicate WrapsAt(ws: seq<Wire>, pick: Opt -> bool, j: nat)
    requires j < |ws|
  {
    pick(OptAt(ws, j)) && (j + 1) % 256 == 0
  }

  lemma {:induction false} EmitIsShown(ws: seq<Wire>, stop: nat, pick: Opt -> bool, k: nat)
    requires k <= stop <= |ws|
    requires forall j | k <= j < stop :: !WrapsAt(ws, pick, j)
    ensures Shown(ws[..k], pick) + Emit(ws, stop, pick, k, k + 1) == Shown(ws[..stop], pick)
    decreases stop - k
  {
    if k < stop {
      ShownAt(ws, k, pick);
      EmitIsShown(ws, stop, pick, k + 1);
      assert !WrapsAt(ws, pick, k);
      assert Emit(ws, stop, pick, k, k + 1) == Kept(OptAt(ws, k), pick) + Emit(ws, stop, pick, k + 1, k + 2);
      Seqs.Assoc(Shown(ws[..k], pick), Kept(OptAt(ws, k), pick), Emit(ws, stop, pick, k + 1, k + 2));
    }
  }

  lemma {:induction false} EmitAtLeast(ws: seq<Wire>, stop: nat, pick: Opt -> bool, k: nat, steps: nat)
    requires k <= stop <= |ws|
    ensures |Shown(ws[..k], pick)| + |Emit(ws, stop, pick, k, steps)| >= |Shown(ws[..stop], pick)|
    decreases stop - k, if steps % 256 == 0 then 1 else 0
  {
    if k < stop {
      var stay := pick(OptAt(ws, k)) && steps % 256 == 0;
      ShownAt(ws, k, pick);
      EmitCount(ws, stop, pick, k, steps, stay);
      EmitAtLeast(ws, stop, pick, if stay then k else k + 1, steps + 1);
    }
  }

  lemma EmitCount(ws: seq<Wire>, stop: nat, pick: Opt -> bool, k: nat, steps: nat, stay: bool)
    requires k < stop <= |ws| && (stay <==> pick(OptAt(ws, k)) && steps % 256 == 0)
    ensures stay ==> (steps + 1) % 256 != 0
    ensures |Emit(ws, stop, pick, k, steps)|
         == (if pick(OptAt(ws, k)) then 1 else 0) + |Emit(ws, stop, pick, if stay then k else k + 1, steps + 1)|
  {
  }

  lemma {:induction false} EmitIsMore(ws: seq<Wire>, stop: nat, pick: Opt -> bool, k: nat, j: nat)
    requires k <= j < stop <= |ws| && WrapsAt(ws, pick, j)
    ensures |Shown(ws[..k], pick)| + |Emit(ws, stop, pick, k, k + 1)| > |Shown(ws[..stop], pick)|
    decreases stop - k
  {
    ShownAt(ws, k, pick);
    if k == j {
      WrapRepeats(ws, stop, pick, k, k + 1);
    } else if WrapsAt(ws, pick, k) {
      WrapRepeats(ws, stop, pick, k, k + 1);
    } else {
      EmitCount(ws, stop, pick, k, k + 1, false);
      EmitIsMore(ws, stop, pick, k + 1, j);
    }
  }

  /** A wrap-around hands out an option and does not leave it. */
  lemma WrapRepeats(ws: seq<Wire>, stop: nat, pick: Opt -> bool, k: nat, steps: nat)
    requires k < stop <= |ws| && pick(OptAt(ws, k)) && steps % 256 == 0
    ensures |Shown(ws[..k], pick)| + |Emit(ws, stop, pick, k, steps)| > |Shown(ws[..stop], pick)|
  {
    EmitHead(ws, stop, pick, k, steps, k);
    EmitAtLeast(ws, stop, pick, k, steps + 1);
  }

  lemma {:induction false} EmitNumbers(ws: seq<Wire>, stop: nat, pick: Opt -> bool, k: nat, steps: nat)
    requires k <= stop <= |ws|
    ensures forall o | o in Emit(ws, stop, pick, k, steps) :: o.num <= Num(ws[..stop])
    decreases stop - k, if steps % 256 == 0 then 1 else 0
  {
    if k < stop {
      NumPrefix(ws, k + 1, stop);
      if pick(OptAt(ws, k)) && steps % 256 == 0 {
        EmitNumbers(ws, stop, pick, k, steps + 1);
      } else {
        EmitNumbers(ws, stop, pick, k + 1, steps + 1);
      }
    }
  }

  lemma {:induction false} NumPrefix(ws: seq<Wire>, a: nat, b: nat)
    requires a <= b <= |ws|
    ensures Num(ws[..a]) <= Num(ws[..b])
    decreases b
  {
    if a < b {
      NumPrefix(ws, a, b - 1);
      assert ws[..b][..b - 1] == ws[..b - 1];
    }
  }

  lemma {:induction false} ShownHas(ws: seq<Wire>, b: nat, j: nat, pick: Opt -> bool)
    requires j < b <= |ws| && pick(OptAt(ws, j))
    ensures OptAt(ws, j) in Shown(ws[..b], pick)
    decreases b
  {
    ShownAt(ws, b - 1, pick);
    if j < b - 1 {
      ShownHas(ws, b - 1, j, pick);
    }
  }

  lemma {:induction false} ShownSame(ws: seq<Wire>, a: nat, b: nat, pick: Opt -> bool)
    requires a <= b <= |ws|
    requires forall j | a <= j < b :: !pick(OptAt(ws, j))
    ensures Shown(ws[..a], pick) == Shown(ws[..b], pick)
    decreases b
  {
    if a < b {
      ShownSame(ws, a, b - 1, pick);
      ShownAt(ws, b - 1, pick);
    }
  }

  /** An accepted option that lies at or behind the point where a reader stops. */
  ghost predicate LostAt(ws: seq<Wire>, stop: nat, pick: Opt -> bool, j: nat)
    requires j < |ws|
  {
    j >= stop && pick(OptAt(ws, j))
  }

  /** A lost option has a larger number than everything that is handed out. */
  lemma LostDiffers(ws: seq<Wire>, stop: nat, pick: Opt -> bool, j: nat)
    requires stop <= j < |ws| && LooksLikeEnd(ws[stop]) && pick(OptAt(ws, j))
    ensures Emit(ws, stop, pick, 0, 1) != Shown(ws, pick)
  {
    assert ws[..|ws|] == ws;
    ShownHas(ws, |ws|, j, pick);
    EmitNumbers(ws, stop, pick, 0, 1);
    assert ws[..stop + 1][..stop] == ws[..stop];
    NumPrefix(ws, stop + 1, j + 1);
  }

  /** With nothing lost, only a wrap-around can make a difference. */
  lemma UnlostExact(ws: seq<Wire>, stop: nat, pick: Opt -> bool)
    requires stop <= |ws| && forall j | 0 <= j < |ws| :: !LostAt(ws, stop, pick, j)
    ensures Emit(ws, stop, pick, 0, 1) == Shown(ws, pick) <==>
      forall j | 0 <= j < stop :: !WrapsAt(ws, pick, j)
  {
    forall j | stop <= j < |ws|
      ensures !pick(OptAt(ws, j))
    {
      assert !LostAt(ws, stop, pick, j);
    }
    ShownSame(ws, stop, |ws|, pick);
    assert ws[..0] == [] && ws[..|ws|] == ws;
    if forall j | 0 <= j < stop :: !WrapsAt(ws, pick, j) {
      EmitIsShown(ws, stop, pick, 0);
    } else {
      var j :| 0 <= j < stop && WrapsAt(ws, pick, j);
      EmitIsMore(ws, stop, pick, 0, j);
    }
  }

  /**
   * Reading gives back exactly the accepted options of the list, if and only if none
   * of them lies at or behind an end marker lookalike and none of those before it has
   * an ordinal number that is a multiple of 256.
   */
  lemma ReadingExact(ws: seq<Wire>, stop: nat, pick: Opt -> bool)
    requires stop <= |ws| && (stop < |ws| ==> LooksLikeEnd(ws[stop]))
    ensures Emit(ws, stop, pick, 0, 1) == Shown(ws, pick) <==>
      && (forall j | 0 <= j < |ws| :: !LostAt(ws, stop, pick, j))
      && (forall j | 0 <= j < stop :: !WrapsAt(ws, pick, j))
  {
    if forall j | 0 <= j < |ws| :: !LostAt(ws, stop, pick, j) {
      UnlostExact(ws, stop, pick);
    } else {
      var j :| 0 <= j < |ws| && LostAt(ws, stop, pick, j);
      LostDiffers(ws, stop, pick, j);
    }
  }
}
