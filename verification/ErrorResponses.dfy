/** The critical option check of net.c and the error response built from its result. */
module ErrorResponses {
  import opened Bytes
  import opened Bits
  import opened Options
  import opened Pdus
  import opened Iterators
  import opened Codec
  import Seqs

  const MAX_PDU_SIZE: nat := 1400

  /** An option with an odd number that the receiver does not know. */
  predicate Bad(o: Opt, known: Vec) { o.num % 2 == 1 && GetB(known, o.num % 256) < 1 }

  datatype Verdict = Verdict(ok: bool, unknown: Vec)

  /** The check over a list of options: a bad one outside the filter ends it. */
  function Check(os: seq<Opt>, known: Vec, unknown: Vec): Verdict
    decreases |os|
  {
    if os == [] then Verdict(true, unknown)
    else if !Bad(os[0], known) then Check(os[1..], known, unknown)
    else if |unknown| <= os[0].num % 256 / 8 then Verdict(false, unknown)
    else Verdict(false, Check(os[1..], known, SetB(unknown, os[0].num % 256)).unknown)
  }

  /** coap_option_check_critical */
  method CheckCritical(pdu: Pdu, known: Vec, unknown: Vec) returns (v: Verdict)
    requires pdu.OptionsValid()
    ensures v == Check(Emit(pdu.wire, pdu.StopIndex(), Through(ALL), 0, 1), known, unknown)
  {
    ghost var every := Emit(pdu.wire, pdu.StopIndex(), Through(ALL), 0, 1);
    var it := new OptionIterator(pdu, ALL);
    var ok, f := true, unknown;
    var found := it.Next();
    while found
      invariant it.Moved(found) && it.pdu == pdu && fresh(it)
      invariant var rest := Check(it.Rest(), known, f);
        Check(every, known, unknown) == Verdict(ok && rest.ok, rest.unknown)
      decreases |it.Rest()|
    {
      ghost var rest := it.Rest();
      var o;
      o, found := it.Take();
      assert rest[0] == o && rest[1..] == it.Rest();
      if Bad(o, known) {
        ok := false;
        if |f| <= o.num % 256 / 8 {
          return Verdict(false, f);
        }
        f := SetB(f, o.num % 256);
      }
    }
    assert it.Rest() == [];
    v := Verdict(ok, f);
  }

  /** An option with an even number, or one whose bit is set among the known ones. */
  predicate Acceptable(o: Opt, known: Vec) { o.num % 2 == 0 || GetB(known, o.num % 256) == 1 }

  /** Those are the options that are not bad. */
  lemma BadExact(o: Opt, known: Vec)
    ensures Bad(o, known) <==> !Acceptable(o, known)
  {
  }

  /** The check ends at position `e`: the first bad option whose low byte is no number below 24, or the end. */
  ghost predicate EndsAt(os: seq<Opt>, known: Vec, e: nat) {
    && e <= |os| && (forall i | 0 <= i < e :: Bad(os[i], known) ==> os[i].num % 256 < 24)
    && (e < |os| ==> Bad(os[e], known) && os[e].num % 256 >= 24)
  }

  /**
   * For any list of options, with any numbers: the check fails if and only if one is bad, and
   * the filter gains the low bytes of the bad ones before its end.
   */
  lemma {:induction false} CheckExact(os: seq<Opt>, known: Vec, f: Vec, e: nat, t: nat)
    requires |f| == 3 && EndsAt(os, known, e)
    ensures Check(os, known, f).ok <==> forall i | 0 <= i < |os| :: Acceptable(os[i], known)
    ensures |Check(os, known, f).unknown| == 3
    ensures GetB(Check(os, known, f).unknown, t) == 1 <==>
      GetB(f, t) == 1 || exists i :: 0 <= i < e && Bad(os[i], known) && os[i].num % 256 == t
    decreases |os|
  {
    if os != [] {
      BadExact(os[0], known);
    }
    if e > 0 {
      var o, rest := os[0], os[1..];
      var g := if Bad(o, known) then SetB(f, o.num % 256) else f;
      assert forall i | 0 <= i < |rest| :: rest[i] == os[i + 1];
      CheckExact(rest, known, g, e - 1, t);
      SetBReads(f, o.num % 256, t);
      if i :| 0 <= i < e && Bad(os[i], known) && os[i].num % 256 == t {
        assert i > 0 ==> rest[i - 1] == os[i];
      }
    }
  }

  /** There is a bad option with this number. */
  ghost predicate Marks(os: seq<Opt>, known: Vec, t: nat) {
    exists i :: 0 <= i < |os| && Bad(os[i], known) && os[i].num == t
  }

  ghost predicate Sorted(os: seq<Opt>) { forall i, j | 0 <= i < j < |os| :: os[i].num <= os[j].num }

  /** Options in the order of a message, with numbers that fit into the eight bits of a filter call. */
  ghost predicate Numbered(os: seq<Opt>) { Sorted(os) && forall i | 0 <= i < |os| :: os[i].num < 256 }

  /** An option with a number up to 23 is noted, if it is bad, and the check goes on. */
  lemma CheckStep(os: seq<Opt>, known: Vec, f: Vec)
    requires os != [] && |f| == 3 && os[0].num < 24
    ensures var g := if Bad(os[0], known) then SetB(f, os[0].num) else f;
      var rest := Check(os[1..], known, g);
      Check(os, known, f) == Verdict(!Bad(os[0], known) && rest.ok, rest.unknown)
  {
    assert os[0].num % 256 == os[0].num;
  }

  /** A larger number is not; the first bad one ends the check, and all behind it are larger, too. */
  lemma {:induction false} CheckLarge(os: seq<Opt>, known: Vec, f: Vec)
    requires Numbered(os) && |f| == 3 && (os != [] ==> os[0].num >= 24)
    ensures Check(os, known, f).unknown == f
    ensures Check(os, known, f).ok <==> forall i | 0 <= i < |os| :: !Bad(os[i], known)
    decreases |os|
  {
    if os != [] && !Bad(os[0], known) {
      assert forall i | 0 <= i < |os[1..]| :: os[1..][i] == os[i + 1];
      CheckLarge(os[1..], known, f);
    }
  }

  lemma MarkReads(f: Vec, o: Opt, known: Vec, t: nat)
    requires |f| == 3 && o.num < 24
    ensures GetB(if Bad(o, known) then SetB(f, o.num) else f, t) == 1 <==>
      GetB(f, t) == 1 || (Bad(o, known) && o.num == t)
  {
    SetBReads(f, o.num, t);
  }

  /** The verdict is about bad options, and the filter gains exactly those of their numbers that have a bit in it. */
  lemma {:induction false} CheckMeans(os: seq<Opt>, known: Vec, f: Vec, t: nat)
    requires |f| == 3 && Numbered(os) && t < 24
    ensures |Check(os, known, f).unknown| == 3
    ensures Check(os, known, f).ok <==> forall i | 0 <= i < |os| :: !Bad(os[i], known)
    ensures GetB(Check(os, known, f).unknown, t) == 1 <==>
      GetB(f, t) == 1 || Marks(os, known, t)
    decreases |os|
  {
    if os != [] && os[0].num >= 24 {
      CheckLarge(os, known, f);
    } else if os != [] {
      var o, rest := os[0], os[1..];
      assert os == [o] + rest;
      var g := if Bad(o, known) then SetB(f, o.num) else f;
      CheckStep(os, known, f);
      CheckMeans(rest, known, g, t);
      MarkReads(f, o, known, t);
      MarksFirst(o, rest, known, t);
    }
  }

  lemma MarksFirst(o: Opt, rest: seq<Opt>, known: Vec, t: nat)
    ensures Marks([o] + rest, known, t) <==> (Bad(o, known) && o.num == t) || Marks(rest, known, t)
  {
    var os := [o] + rest;
    if Marks(rest, known, t) {
      var i :| 0 <= i < |rest| && Bad(rest[i], known) && rest[i].num == t;
      assert os[i + 1] == rest[i];
    }
    if Bad(o, known) && o.num == t {
      assert os[0] == o;
    }
  }

  /** The filter with which options are copied: no Content-Type, always the Token. */
  function Copied(opts: Vec): Vec { SetB(ClrB(opts, CONTENT_TYPE), TOKEN) }

  lemma CopiedReads(f: Vec, t: nat)
    requires |f| == 3
    ensures |Copied(f)| == 3
    ensures GetB(Copied(f), t) == if t == TOKEN then 1 else if t == CONTENT_TYPE then 0 else GetB(f, t)
  {
    SetBReads(ClrB(f, CONTENT_TYPE), TOKEN, t);
    ClrBReads(f, CONTENT_TYPE, t);
  }

  /** What the filter of the dispatch loop may hold: the Token and unknown critical options. */
  ghost predicate Accumulated(known: Vec, f: Vec) {
    |f| == 3 && forall t: nat :: GetB(f, t) == 1 ==> Wanted(known, t)
  }

  predicate Wanted(known: Vec, t: nat) { t == TOKEN || (t % 2 == 1 && GetB(known, t) < 1) }

  /** The dispatch loop starts with an empty filter. */
  lemma DispatchStarts(known: Vec, f: Vec)
    requires |f| == 3 && forall i | 0 <= i < |f| :: f[i] == 0
    ensures Accumulated(known, f)
  {
    forall t: nat
      ensures GetB(f, t) != 1
    {
      ZeroReads(f, t);
    }
  }

  /** Every critical option check keeps the filter like that, whatever the numbers of the options. */
  lemma {:induction false} CheckKeeps(known: Vec, f: Vec, os: seq<Opt>)
    requires Accumulated(known, f)
    ensures Accumulated(known, Check(os, known, f).unknown)
    decreases |os|
  {
    if os != [] {
      if !Bad(os[0], known) {
        CheckKeeps(known, f, os[1..]);
      } else if os[0].num % 256 / 8 < |f| {
        MarkKeeps(known, f, os[0]);
        CheckKeeps(known, SetB(f, os[0].num % 256), os[1..]);
      }
    }
  }

  /** The eight bits that are left of an odd number are an odd number. */
  lemma MarkKeeps(known: Vec, f: Vec, o: Opt)
    requires Accumulated(known, f) && Bad(o, known)
    ensures Accumulated(known, SetB(f, o.num % 256))
  {
    forall t: nat | GetB(SetB(f, o.num % 256), t) == 1
      ensures Wanted(known, t)
    {
      SetBReads(f, o.num % 256, t);
    }
  }

  /** So does every error response. */
  lemma ResponseKeeps(known: Vec, f: Vec)
    requires Accumulated(known, f)
    ensures Accumulated(known, Copied(f))
  {
    CopiedReads(f, 0);
    forall t: nat | GetB(Copied(f), t) == 1
      ensures Wanted(known, t)
    {
      CopiedReads(f, t);
    }
  }

  /** What a 4.02 response has to repeat. */
  predicate Repeated(o: Opt, known: Vec) { !Hidden(o) && (o.num == TOKEN || Bad(o, known)) }

  /** What it does repeat: options with numbers of 24 and more pass every filter. */
  predicate Passed(o: Opt, known: Vec) { Repeated(o, known) || (!Hidden(o) && o.num >= 24) }

  lemma PassesBit(o: Opt, g: Vec)
    requires |g| == 3 && o.num < 256
    ensures Passes(o, g) <==> !Hidden(o) && (o.num >= 24 || GetB(g, o.num) == 1)
  {
    assert o.num % 256 == o.num;
  }

  lemma WantedMeans(o: Opt, known: Vec)
    requires o.num < 24
    ensures Wanted(known, o.num) <==> o.num == TOKEN || Bad(o, known)
  {
    assert o.num % 256 == o.num;
  }

  /**
   * Whatever the dispatch loop has accumulated, the filter picks from the options of a
   * request exactly the Token, the unknown critical ones, and those beyond the filter.
   */
  lemma FilterExact(known: Vec, f: Vec, os: seq<Opt>, o: Opt)
    requires Accumulated(known, f) && GetB(known, CONTENT_TYPE) == 1
    requires o in os && Numbered(os)
    ensures Passes(o, Copied(Check(os, known, f).unknown)) <==> Passed(o, known)
  {
    var u := Check(os, known, f).unknown;
    CheckKeeps(known, f, os);
    CopiedReads(u, o.num);
    PassesBit(o, Copied(u));
    if o.num < 24 {
      CheckMeans(os, known, f, o.num);
      WantedMeans(o, known);
      if Bad(o, known) {
        var i :| 0 <= i < |os| && os[i] == o;
        assert Marks(os, known, o.num);
      }
    }
  }

  // ----- coap_new_error_response -----

  function Sizes(os: seq<Opt>): nat {
    if os == [] then 0 else Sizes(os[..|os| - 1]) + Pdu.OptSize(|os[|os| - 1].val|)
  }

  lemma SizesSnoc(os: seq<Opt>, o: Opt)
    ensures Sizes(os + [o]) == Sizes(os) + Pdu.OptSize(|o.val|)
  {
    assert (os + [o])[..|os|] == os;
  }

  lemma {:induction false} SizesConcat(a: seq<Opt>, b: seq<Opt>)
    ensures Sizes(a + b) == Sizes(a) + Sizes(b)
    decreases |b|
  {
    if b == [] {
      assert a + b == a;
    } else {
      SizesConcat(a, b[..|b| - 1]);
      assert (a + b)[..|a + b| - 1] == a + b[..|b| - 1];
    }
  }

  /** The loop that adds up the sizes of the options to copy. */
  method Estimate(request: Pdu, filter: Vec) returns (n: nat)
    requires request.OptionsValid()
    ensures n == Sizes(Emit(request.wire, request.StopIndex(), Through(filter), 0, 1))
  {
    ghost var every := Emit(request.wire, request.StopIndex(), Through(filter), 0, 1);
    var it := new OptionIterator(request, filter);
    n := 0;
    ghost var os := [];
    var found := it.Next();
    while found
      invariant it.Moved(found) && it.pdu == request && fresh(it)
      invariant os + it.Rest() == every && n == Sizes(os)
      decreases |it.Rest()|
    {
      var o;
      o, found := it.Take();
      n := n + Pdu.OptSize(|o.val|);
      Seqs.Assoc(os, [o], it.Rest());
      SizesSnoc(os, o);
      os := os + [o];
    }
    assert it.Rest() == [] && os + [] == os;
  }

  /** Options that can be added one after the other to a message of this size. */
  ghost predicate AddsUp(os: seq<Opt>, size: nat) {
    Addable(os) && AllFit(size, os) && forall k | 0 <= k < |os| :: Counted(os, k)
  }

  /** The fence posts in the wire form of a list. */
  ghost function Posts(os: seq<Opt>): int
    requires Addable(os)
  {
    |Encode(os)| - |os|
  }

  /** The wire form takes one byte for every fence post and the size of every option. */
  lemma {:induction false} EncodedSize(os: seq<Opt>)
    requires Addable(os)
    ensures |Flat(Encode(os))| == Sizes(os) + Posts(os)
  {
    if os != [] {
      var n := |os| - 1;
      assert os[..n + 1] == os;
      EncodeStep(os, n);
      EncodedSize(os[..n]);
    }
  }

  lemma OneFence(prev: nat, num: nat)
    requires prev <= num < 24
    ensures |Fences(prev, num)| <= if prev <= 14 < num then 1 else 0
  {
    if prev + 15 < num {
      assert Gap(prev) + prev == 14;
      assert Fences(14, num) == [];
    }
  }

  /** Options with numbers up to 23 need at most one fence post. */
  lemma {:induction false} FewPosts(os: seq<Opt>)
    requires Addable(os) && forall i | 0 <= i < |os| :: os[i].num < 24
    ensures Posts(os) <= if Num(Encode(os)) > 14 then 1 else 0
  {
    if os != [] {
      var n := |os| - 1;
      PostsSnoc(os, n);
      FewPosts(os[..n]);
      OneFence(Num(Encode(os[..n])), os[n].num);
    }
  }

  lemma PostsSnoc(os: seq<Opt>, n: nat)
    requires Addable(os) && |os| == n + 1
    ensures Addable(os[..n]) && Num(Encode(os[..n])) <= os[n].num == Num(Encode(os))
    ensures Posts(os) == Posts(os[..n]) + |Fences(Num(Encode(os[..n])), os[n].num)|
  {
    assert os == os[..n] + [os[n]];
    EncodeSnoc(os[..n], os[n]);
  }

  /** The error phrase of a response code, if there is one. */
  datatype Phrase = NoPhrase | Phrase(text: seq<Byte>)

  function Text(phrase: Phrase): seq<Byte> { if phrase.Phrase? then phrase.text else [] }

  /** The options of an error response: an empty Content-Type for text, and what is copied. */
  function ResponseOptions(phrase: Phrase, copied: seq<Opt>): seq<Opt> {
    (if phrase.Phrase? then [Opt(CONTENT_TYPE, [])] else []) + copied
  }

  /** The estimate of the message size. */
  function EstimateOf(phrase: Phrase, copied: seq<Opt>): nat {
    HEADER_SIZE + 4 + (if phrase.Phrase? then |phrase.text| + 2 else 0) + Sizes(copied)
  }

  /** The estimate has room for all options and the phrase as long as there are few fence posts. */
  lemma EstimateSuffices(phrase: Phrase, copied: seq<Opt>)
    requires Addable(ResponseOptions(phrase, copied)) && Posts(ResponseOptions(phrase, copied)) <= 3
    ensures AllFit(EstimateOf(phrase, copied), ResponseOptions(phrase, copied))
    ensures var os := ResponseOptions(phrase, copied);
      HEADER_SIZE + |Flat(Encode(os))| + 1 + |Text(phrase)| <= EstimateOf(phrase, copied)
  {
    EncodedSize(ResponseOptions(phrase, copied));
    ResponseSizes(phrase, copied);
  }

  /**
   * The estimate is the space for options, their end and the phrase, and three bytes more, or
   * four with a phrase, less one for every fence post.
   */
  lemma EstimateExact(phrase: Phrase, copied: seq<Opt>)
    requires Addable(ResponseOptions(phrase, copied))
    ensures var os := ResponseOptions(phrase, copied);
      EstimateOf(phrase, copied) + Posts(os) ==
        HEADER_SIZE + |Flat(Encode(os))| + 1 + |Text(phrase)| + if phrase.Phrase? then 4 else 3
  {
    EncodedSize(ResponseOptions(phrase, copied));
    ResponseSizes(phrase, copied);
  }

  /** The Content-Type option takes one byte. */
  lemma ResponseSizes(phrase: Phrase, copied: seq<Opt>)
    ensures Sizes(ResponseOptions(phrase, copied)) == Sizes(copied) + if phrase.Phrase? then 1 else 0
  {
    if phrase.Phrase? {
      var none: seq<Opt>, o := [], Opt(CONTENT_TYPE, []);
      SizesSnoc(none, o);
      assert none + [o] == [o];
      SizesConcat([o], copied);
    } else {
      assert ResponseOptions(phrase, copied) == copied;
    }
  }

  const CON: nat := 0
  const NON: nat := 1
  const ACK: nat := 2

  /** What an iterator over the message hands out. */
  ghost function Given(p: Pdu, filter: Vec): seq<Opt>
    reads p
  {
    Emit(p.wire, p.StopIndex(), Through(filter), 0, 1)
  }

  /** The options of a response can all be added to a message of the estimated size. */
  ghost predicate Answerable(phrase: Phrase, copied: seq<Opt>) {
    var os := ResponseOptions(phrase, copied);
    Addable(os) && Posts(os) <= 3 && forall k | 0 <= k < |os| :: Counted(os, k)
  }

  lemma AnswerAddsUp(phrase: Phrase, copied: seq<Opt>)
    requires Answerable(phrase, copied)
    ensures AddsUp(ResponseOptions(phrase, copied), EstimateOf(phrase, copied))
  {
    EstimateSuffices(phrase, copied);
  }

  /**
   * Create the response and add its options. Adding does not change the request, so the
   * options are read first; since all of them are accepted, the ignored results do not matter.
   */
  method Fill(request: Pdu, phrase: Phrase, filter: Vec, size: nat, ghost copied: seq<Opt>) returns (p: Pdu)
    requires request.OptionsValid() && copied == Given(request, filter) && Answerable(phrase, copied)
    requires size == EstimateOf(phrase, copied) < 0x10000
    ensures fresh(p) && fresh(p.buf) && p.buf.Length == size
    ensures p.Valid() && p.length == p.data && p.wire == Encode(ResponseOptions(phrase, copied))
    ensures p.Open() <==> |p.wire| >= OPT_LONG
  {
    AnswerAddsUp(phrase, copied);
    var options := Collect(request, filter);
    var os := ResponseOptions(phrase, options);
    p := new Pdu(size);
    var _ := AddAll(p, os);
  }

  /** The end of coap_new_error_response: the phrase is the payload. */
  method AddPhrase(p: Pdu, phrase: Phrase)
    requires p.Valid() && p.length == p.data && p.length + |Text(phrase)| <= p.buf.Length
    modifies p`length, p.buf
    ensures p.Valid() && p.Payload() == Text(phrase)
  {
    assert p.Payload() == [];
    if phrase.Phrase? {
      var _ := p.AddData(phrase.text);
    }
  }

  /** The header of the response. */
  method SetHeader(p: Pdu, request: Pdu, code: Byte)
    requires p.Valid() && p != request && request.kind < 4 && request.id < 0x10000
    modifies p`kind, p`code, p`id
    ensures p.Valid() && p.code == code && p.id == request.id
    ensures p.kind == if request.kind == CON then ACK else NON
  {
    p.kind, p.code, p.id := if request.kind == CON then ACK else NON, code, request.id;
  }

  /** A message with all these options and room for the phrase. */
  ghost predicate Filled(p: Pdu, phrase: Phrase, os: seq<Opt>)
    reads p, p.buf
  {
    && Addable(os) && p.Valid() && p.wire == Encode(os)
    && p.length == p.data && p.length + |Text(phrase)| <= p.buf.Length
  }

  lemma FilledHolds(p: Pdu, phrase: Phrase, copied: seq<Opt>)
    requires Answerable(phrase, copied) && p.buf.Length == EstimateOf(phrase, copied)
    requires p.Valid() && p.length == p.data && p.wire == Encode(ResponseOptions(phrase, copied))
    ensures Filled(p, phrase, ResponseOptions(phrase, copied))
  {
    EstimateSuffices(phrase, copied);
  }

  /** The response as the specification describes it. */
  ghost predicate Response(p: Pdu, kind: nat, id: nat, code: Byte, phrase: Phrase, os: seq<Opt>)
    reads p, p.buf
  {
    && p.Valid() && p.code == code && p.id == id && p.kind == (if kind == CON then ACK else NON)
    && Addable(os) && p.wire == Encode(os) && p.Payload() == Text(phrase)
  }

  /** Header and phrase. */
  method Complete(p: Pdu, request: Pdu, code: Byte, phrase: Phrase, ghost os: seq<Opt>)
    requires Filled(p, phrase, os) && p != request && request.kind < 4 && request.id < 0x10000
    modifies p`kind, p`code, p`id, p`length, p.buf
    ensures Response(p, request.kind, request.id, code, phrase, os)
  {
    SetHeader(p, request, code);
    AddPhrase(p, phrase);
  }

  /** coap_new_error_response. `copied` is what the filter picks from the request. */
  method NewErrorResponse(request: Pdu, code: Byte, phrase: Phrase, opts: Vec, ghost copied: seq<Opt>)
    returns (response: Pdu?)
    requires request.OptionsValid() && copied == Given(request, Copied(opts)) && Answerable(phrase, copied)
    ensures response == null <==> EstimateOf(phrase, copied) > MAX_PDU_SIZE
    ensures response != null ==> fresh(response) && fresh(response.buf)
    ensures response != null ==>
      Response(response, request.kind, request.id, code, phrase, ResponseOptions(phrase, copied))
  {
    var filter := Copied(opts);
    var n := Estimate(request, filter);
    var size := HEADER_SIZE + 4 + (if phrase.Phrase? then |phrase.text| + 2 else 0) + n;
    if size > MAX_PDU_SIZE {
      return null;
    }
    var p := Fill(request, phrase, filter, size, copied);
    FilledHolds(p, phrase, copied);
    Complete(p, request, code, phrase, ResponseOptions(phrase, copied));
    response := p;
  }
}
