/** How coap_dispatch treats unknown critical options: the 4.02 response says exactly which. */
module Dispatch {
  import opened Bytes
  import opened Bits
  import opened Options
  import opened Pdus
  import opened Iterators
  import opened Codec
  import opened ErrorResponses

  const BAD_OPTION: Byte := 130

  /** The options of a message, without fence posts. */
  ghost function Visible(ws: seq<Wire>): seq<Opt> { Shown(ws, Through(ALL)) }

  /** What a 4.02 response should repeat from a list of options, and what it does repeat. */
  ghost function Unknowns(os: seq<Opt>, known: Vec): seq<Opt> { Select(os, (o: Opt) => Repeated(o, known)) }

  ghost function Repeats(os: seq<Opt>, known: Vec): seq<Opt> { Select(os, (o: Opt) => Passed(o, known)) }

  /** A stricter choice is shorter if and only if it refuses something. */
  lemma {:induction false} SelectFewer(os: seq<Opt>, p: Opt -> bool, q: Opt -> bool)
    requires forall o | q(o) :: p(o)
    ensures |Select(os, q)| <= |Select(os, p)|
    ensures Select(os, p) == Select(os, q) <==> forall i | 0 <= i < |os| :: p(os[i]) ==> q(os[i])
    ensures (exists i | 0 <= i < |os| :: p(os[i]) && !q(os[i])) ==> |Select(os, q)| < |Select(os, p)|
  {
    if os != [] {
      var n := |os| - 1;
      SelectFewer(os[..n], p, q);
      assert os == os[..n] + [os[n]];
    }
  }

  /** The response repeats what it should, if and only if no elective option has a number of 24 or more. */
  lemma RepeatsExact(os: seq<Opt>, known: Vec)
    ensures Repeats(os, known) == Unknowns(os, known) <==>
      forall i | 0 <= i < |os| && os[i].num >= 24 && !Hidden(os[i]) :: Bad(os[i], known)
  {
    SelectFewer(os, (o: Opt) => Passed(o, known), (o: Opt) => Repeated(o, known));
  }

  lemma {:induction false} ShownSelect(ws: seq<Wire>, pick: Opt -> bool)
    requires HidesFences(pick)
    ensures Shown(ws, pick) == Select(Visible(ws), pick)
  {
    if ws != [] {
      var n := |ws| - 1;
      var o := Opt(Num(ws), ws[n].val);
      ShownSelect(ws[..n], pick);
      AllPasses(o);
      if Hidden(o) {
        assert Visible(ws) == Visible(ws[..n]);
      } else {
        SelectSnoc(Visible(ws[..n]), o, pick);
      }
    }
  }

  lemma {:induction false} SelectSame(os: seq<Opt>, p: Opt -> bool, q: Opt -> bool)
    requires forall o | o in os :: p(o) == q(o)
    ensures Select(os, p) == Select(os, q)
  {
    if os != [] {
      SelectSame(os[..|os| - 1], p, q);
    }
  }

  /** Reading a message of fewer than 256 wire options gives exactly the accepted ones. */
  lemma GivenIsShown(p: Pdu, filter: Vec)
    requires p.StopIndex() == |p.wire| < 256
    ensures Given(p, filter) == Shown(p.wire, Through(filter))
  {
    var ws := p.wire;
    EmitIsShown(ws, |ws|, Through(filter), 0);
    assert ws[..0] == [] && ws[..|ws|] == ws;
  }

  /** The options the response copies are the Token, the unknown critical options and those beyond the filter. */
  lemma CopiesUnknowns(ws: seq<Wire>, known: Vec, f: Vec)
    requires Accumulated(known, f) && GetB(known, CONTENT_TYPE) == 1
    requires forall o | o in Visible(ws) :: o.num < 256
    ensures Numbered(Visible(ws))
    ensures Shown(ws, Through(Copied(Check(Visible(ws), known, f).unknown))) == Repeats(Visible(ws), known)
  {
    ShownSorted(ws, Through(ALL));
    var vis := Visible(ws);
    var pick := Through(Copied(Check(vis, known, f).unknown));
    ShownSelect(ws, pick);
    forall o | o in vis
      ensures pick(o) == Passed(o, known)
    {
      FilterExact(known, f, vis, o);
    }
    SelectSame(vis, pick, (o: Opt) => Passed(o, known));
  }

  lemma {:induction false} ShownSorted(ws: seq<Wire>, pick: Opt -> bool)
    ensures Sorted(Shown(ws, pick))
    ensures forall o | o in Shown(ws, pick) :: o.num <= Num(ws) && pick(o)
  {
    if ws != [] {
      ShownSorted(ws[..|ws| - 1], pick);
    }
  }

  lemma {:induction false} SelectFrom(os: seq<Opt>, pick: Opt -> bool)
    ensures forall o | o in Select(os, pick) :: o in os && pick(o)
  {
    if os != [] {
      SelectFrom(os[..|os| - 1], pick);
    }
  }

  /** Requests that the size estimate is meant for: numbers up to 23, at most twelve options to repeat. */
  ghost predicate Ordinary(ws: seq<Wire>, known: Vec) {
    && (forall o | o in Visible(ws) :: o.num < 24 && |o.val| <= 255)
    && |Unknowns(Visible(ws), known)| <= 12
  }

  /** A sorted list of short options with numbers from 1 to 23. */
  ghost predicate Small(os: seq<Opt>) {
    Sorted(os) && forall i | 0 <= i < |os| :: |os[i].val| <= 255 && 1 <= os[i].num < 24
  }

  lemma RepeatedNumber(o: Opt, known: Vec)
    requires Repeated(o, known)
    ensures o.num >= 1
  {
  }

  lemma UnknownsSmall(ws: seq<Wire>, known: Vec, f: Vec)
    requires Accumulated(known, f) && GetB(known, CONTENT_TYPE) == 1 && Ordinary(ws, known)
    ensures Repeats(Visible(ws), known) == Unknowns(Visible(ws), known) && Small(Unknowns(Visible(ws), known))
  {
    var copied := Unknowns(Visible(ws), known);
    RepeatsExact(Visible(ws), known);
    CopiesUnknowns(ws, known, f);
    ShownSorted(ws, Through(Copied(Check(Visible(ws), known, f).unknown)));
    SelectFrom(Visible(ws), (o: Opt) => Repeated(o, known));
    forall i | 0 <= i < |copied|
      ensures |copied[i].val| <= 255 && 1 <= copied[i].num < 24
    {
      var o := copied[i];
      assert o in copied && o in Visible(ws);
      RepeatedNumber(o, known);
    }
  }

  lemma SmallResponse(phrase: Phrase, copied: seq<Opt>)
    requires Small(copied)
    ensures Small(ResponseOptions(phrase, copied)) && |ResponseOptions(phrase, copied)| <= |copied| + 1
  {
    var os := ResponseOptions(phrase, copied);
    var h := |os| - |copied|;
    assert forall i | h <= i < |os| :: os[i] == copied[i - h];
  }

  lemma SmallPosts(os: seq<Opt>, k: nat)
    requires Small(os) && k <= |os| <= 13
    ensures Addable(os) && Addable(os[..k]) && Posts(os[..k]) <= 1 && Counted(os, k)
  {
    FewPosts(os[..k]);
  }

  /** Then no option is dropped. */
  lemma OrdinaryAnswerable(ws: seq<Wire>, known: Vec, f: Vec, phrase: Phrase)
    requires Accumulated(known, f) && GetB(known, CONTENT_TYPE) == 1 && Ordinary(ws, known)
    ensures Repeats(Visible(ws), known) == Unknowns(Visible(ws), known)
    ensures Answerable(phrase, Unknowns(Visible(ws), known)) && Repeatable(ws, known, phrase)
  {
    UnknownsSmall(ws, known, f);
    var os := ResponseOptions(phrase, Unknowns(Visible(ws), known));
    SmallResponse(phrase, Unknowns(Visible(ws), known));
    SmallPosts(os, |os|);
    assert os[..|os|] == os;
    forall k | 0 <= k < |os|
      ensures Counted(os, k)
    {
      SmallPosts(os, k);
    }
  }

  // ----- The filter over one dispatch loop -----

  /** What the loop looks at in a received message: its type and the options the iterator hands out. */
  datatype Heard = Heard(kind: nat, options: seq<Opt>)

  /** What one message does to the filter: nothing unless it is checked; a refused request leaves its copy filter. */
  function FilterNext(f: Vec, m: Heard, known: Vec): Vec {
    if m.kind != CON && m.kind != NON then f
    else
      var v := Check(m.options, known, f);
      if v.ok || m.kind == NON then v.unknown else Copied(v.unknown)
  }

  /** The filter behind these messages. */
  ghost function FilterAfter(ms: seq<Heard>, known: Vec): Vec {
    if ms == [] then CLEARED else FilterNext(FilterAfter(ms[..|ms| - 1], known), ms[|ms| - 1], known)
  }

  const CLEARED: Vec := [0, 0, 0]

  lemma NextKeeps(known: Vec, f: Vec, m: Heard)
    requires Accumulated(known, f)
    ensures Accumulated(known, FilterNext(f, m, known))
  {
    CheckKeeps(known, f, m.options);
    ResponseKeeps(known, Check(m.options, known, f).unknown);
  }

  /** Behind any messages the filter holds nothing but the Token and numbers of unknown critical options. */
  lemma {:induction false} FilterAccumulates(ms: seq<Heard>, known: Vec)
    ensures Accumulated(known, FilterAfter(ms, known))
  {
    if ms == [] {
      DispatchStarts(known, CLEARED);
    } else {
      FilterAccumulates(ms[..|ms| - 1], known);
      NextKeeps(known, FilterAfter(ms[..|ms| - 1], known), ms[|ms| - 1]);
    }
  }

  ghost function HeardOf(p: Pdu): Heard
    reads p
  {
    Heard(p.kind, Given(p, ALL))
  }

  ghost function AllHeard(queue: seq<Pdu>): (ms: seq<Heard>)
    reads queue
    ensures |ms| == |queue|
  {
    if queue == [] then [] else AllHeard(queue[..|queue| - 1]) + [HeardOf(queue[|queue| - 1])]
  }

  /** The dispatch loop over the receive queue, as far as it concerns the filter. */
  method DispatchFilter(queue: seq<Pdu>, known: Vec) returns (f: Vec)
    requires forall p | p in queue :: p.OptionsValid()
    ensures f == FilterAfter(AllHeard(queue), known)
  {
    f := CLEARED;
    for i := 0 to |queue|
      invariant HeardUpTo(queue, i, known, f)
    {
      HeardStep(queue, i, known, f);
      f := HearOne(queue[i], known, f);
    }
    HeardAll(queue, known, f);
  }

  /** The filter behind the first `i` messages. */
  ghost predicate HeardUpTo(queue: seq<Pdu>, i: nat, known: Vec, f: Vec)
    reads queue
  {
    i <= |queue| && f == FilterAfter(AllHeard(queue[..i]), known)
  }

  lemma HeardAll(queue: seq<Pdu>, known: Vec, f: Vec)
    requires HeardUpTo(queue, |queue|, known, f)
    ensures f == FilterAfter(AllHeard(queue), known)
  {
    assert queue[..|queue|] == queue;
  }

  /** One round of the loop. */
  method HearOne(p: Pdu, known: Vec, f: Vec) returns (f': Vec)
    requires p.OptionsValid()
    ensures f' == FilterNext(f, HeardOf(p), known)
  {
    f' := f;
    if p.kind == CON || p.kind == NON {
      var v := CheckCritical(p, known, f);
      f' := if v.ok || p.kind == NON then v.unknown else Copied(v.unknown);
    }
  }

  lemma HeardStep(queue: seq<Pdu>, i: nat, known: Vec, f: Vec)
    requires HeardUpTo(queue, i, known, f) && i < |queue|
    ensures HeardUpTo(queue, i + 1, known, FilterNext(f, HeardOf(queue[i]), known))
  {
    assert queue[..i + 1][..i] == queue[..i];
    var ms := AllHeard(queue[..i]);
    assert (ms + [HeardOf(queue[i])])[..|ms|] == ms;
  }

  /**
   * A request behind any messages of the same dispatch loop: what they left in the filter does
   * not change which options the response repeats.
   */
  method Answer(queue: seq<Pdu>, request: Pdu, known: Vec, phrase: Phrase) returns (v: Verdict, response: Pdu?)
    requires forall p | p in queue :: p.OptionsValid()
    requires request.OptionsValid() && request.StopIndex() == |request.wire| < 256
    requires GetB(known, CONTENT_TYPE) == 1 && Repeatable(request.wire, known, phrase)
    ensures Refused(request, known, phrase, v, response)
  {
    var f := DispatchFilter(queue, known);
    FilterAccumulates(AllHeard(queue), known);
    var f';
    v, response, f' := Refuse(request, known, f, phrase);
  }

  /** The options to repeat have numbers below 256 and can all be added to the response; ordinary requests are such. */
  ghost predicate Repeatable(ws: seq<Wire>, known: Vec, phrase: Phrase) {
    (forall o | o in Visible(ws) :: o.num < 256) && Answerable(phrase, Repeats(Visible(ws), known))
  }

  /**
   * The verdict on a request, and the response to it. It repeats exactly the Token and the
   * unknown critical options, unless there are elective ones beyond the filter.
   */
  ghost predicate Refused(request: Pdu, known: Vec, phrase: Phrase, v: Verdict, response: Pdu?)
    reads request, response, if response == null then {} else {response.buf}
  {
    var copied := Repeats(Visible(request.wire), known);
    && (v.ok <==> forall o | o in Visible(request.wire) :: Acceptable(o, known))
    && if v.ok || request.kind != CON || EstimateOf(phrase, copied) > MAX_PDU_SIZE then response == null
       else
         && response != null
         && Response(response, CON, request.id, BAD_OPTION, phrase,
              (if phrase.Phrase? then [Opt(CONTENT_TYPE, [])] else []) + copied)
  }

  lemma VerdictMeans(os: seq<Opt>, known: Vec, f: Vec)
    requires |f| == 3 && Numbered(os)
    ensures Check(os, known, f).ok <==> forall o | o in os :: Acceptable(o, known)
  {
    CheckMeans(os, known, f, 0);
    forall o {
      BadExact(o, known);
    }
    assert forall i | 0 <= i < |os| :: os[i] in os;
  }

  /**
   * The critical option branch of coap_dispatch for a request. `f` is the filter that
   * the loop has accumulated from the messages before this one.
   */
  method Refuse(request: Pdu, known: Vec, f: Vec, phrase: Phrase) returns (v: Verdict, response: Pdu?, f': Vec)
    requires request.OptionsValid() && request.StopIndex() == |request.wire| < 256
    requires Accumulated(known, f) && GetB(known, CONTENT_TYPE) == 1 && Repeatable(request.wire, known, phrase)
    ensures Refused(request, known, phrase, v, response)
    ensures Accumulated(known, f')
    ensures request.kind == CON || request.kind == NON ==> f' == FilterNext(f, HeardOf(request), known)
  {
    ghost var vis := Visible(request.wire);
    GivenIsShown(request, ALL);
    v := CheckCritical(request, known, f);
    CopiesUnknowns(request.wire, known, f);
    VerdictMeans(vis, known, f);
    CheckKeeps(known, f, vis);
    ResponseKeeps(known, v.unknown);
    response, f' := null, v.unknown;
    if !v.ok && request.kind == CON {
      GivenIsShown(request, Copied(v.unknown));
      f' := Copied(f');
      response := NewErrorResponse(request, BAD_OPTION, phrase, v.unknown, Repeats(vis, known));
    }
  }
}
