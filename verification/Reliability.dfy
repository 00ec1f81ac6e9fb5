/** What holds of every run of the confirmable message layer. */
module Reliability {
  import opened Bytes
  import opened SendQueue

  // ----- Runs -----

  datatype Op =
    | SendOp(msg: nat, id: int, now: nat, r: nat)
    | TimerOp(now: nat)
    | ReplyOp(id: int)

  function Step(s: State, op: Op): State {
    match op
    case SendOp(msg, id, now, r) => Send(s, msg, id, now, r)
    case TimerOp(now) => Drain(s, now)
    case ReplyOp(id) => Reply(s, id)
  }

  function Run(s: State, ops: seq<Op>): State
    decreases |ops|
  {
    if ops == [] then s else Run(Step(s, ops[0]), ops[1..])
  }

  /** Every send is of a message that was not sent before. */
  ghost predicate Legal(s: State, ops: seq<Op>)
    decreases |ops|
  {
    ops == [] ||
    (&& (ops[0].SendOp? ==> Story(s.log, ops[0].msg) == [])
     && Legal(Step(s, ops[0]), ops[1..]))
  }

  // ----- The story of one message -----

  /** The events that concern message `m`, in order. */
  ghost function Story(log: seq<Event>, m: nat): seq<Event> {
    if log == [] then []
    else Story(log[..|log| - 1], m) + (if log[|log| - 1].msg == m then [log[|log| - 1]] else [])
  }

  lemma StoryStep(log: seq<Event>, e: Event, m: nat)
    ensures Story(log + [e], m) == if e.msg == m then Story(log, m) + [e] else Story(log, m)
  {
    assert (log + [e])[..|log|] == log;
  }

  /** Ticks from the first transmission to the `k`-th deadline. */
  function Backoff(timeout: nat, k: nat): int { timeout * (Pow2(k) - 1) }

  /**
   * The story of a message that is still queued: it was transmitted once more than it
   * was retransmitted, never before its time, and its next deadline is in closed form.
   */
  ghost predicate Alive(p: seq<Event>, n: Node) {
    && n.cnt <= MAX_RETRANSMIT
    && 2048 <= n.timeout <= 3068
    && |p| == n.cnt + 1 && p[0].Transmit?
    && (forall k | 0 <= k < |p| :: p[k].Transmit? && p[k].at >= p[0].at + Backoff(n.timeout, k))
    && n.t == p[0].at + Backoff(n.timeout, n.cnt + 1)
  }

  /** The story of a message that has left the queue: one outcome, and nothing after it. */
  ghost predicate Ended(p: seq<Event>) {
    && 2 <= |p| <= 6
    && (forall k | 0 <= k < |p| - 1 :: p[k].Transmit?)
    && !p[|p| - 1].Transmit?
    && (p[|p| - 1].TimedOut? ==> |p| == 6)
  }

  ghost predicate Queued(q: seq<Node>, m: nat) { exists i | 0 <= i < |q| :: q[i].msg == m }

  ghost predicate Sorted(q: seq<Node>) { forall i, j | 0 <= i < j < |q| :: q[i].t <= q[j].t }

  ghost predicate Distinct(q: seq<Node>) { forall i, j | 0 <= i < j < |q| :: q[i].msg != q[j].msg }

  ghost predicate Inv(s: State) {
    && Sorted(s.queue)
    && Distinct(s.queue)
    && (forall i | 0 <= i < |s.queue| :: Alive(Story(s.log, s.queue[i].msg), s.queue[i]))
    && (forall m: nat :: Queued(s.queue, m) || Story(s.log, m) == [] || Ended(Story(s.log, m)))
  }

  // ----- Each operation keeps the invariant -----

  lemma {:induction false} InsertAt(q: seq<Node>, n: Node) returns (i: nat)
    ensures i <= |q| && Insert(q, n) == q[..i] + [n] + q[i..]
    ensures forall j | 0 <= j < i :: q[j].t <= n.t
    ensures i < |q| ==> n.t < q[i].t
  {
    if q == [] || n.t < q[0].t {
      i := 0;
    } else {
      i := InsertAt(q[1..], n);
      i := i + 1;
      assert q[..i] + [n] + q[i..] == [q[0]] + (q[1..][..i - 1] + [n] + q[1..][i - 1..]);
    }
  }

  /** The timeout: two seconds and as many of 256 parts of a second as the random byte says. */
  lemma TimeoutRange(r: nat)
    ensures 2048 <= Timeout(r) <= 3068
    ensures Timeout(r) == RESPONSE_TIMEOUT * TICKS_PER_SECOND + r % 256 * (TICKS_PER_SECOND / 256)
  {
  }

  /** `r` is `q` with `n` put in at position `i`. */
  ghost predicate Placed(q: seq<Node>, n: Node, i: nat, r: seq<Node>) {
    && i <= |q| && |r| == |q| + 1 && r[i] == n
    && (forall j | 0 <= j < i :: r[j] == q[j])
    && (forall j | i < j < |r| :: r[j] == q[j - 1])
  }

  lemma InsertPlaces(q: seq<Node>, n: Node) returns (i: nat)
    ensures Placed(q, n, i, Insert(q, n))
    ensures forall j | 0 <= j < i :: q[j].t <= n.t
    ensures i < |q| ==> n.t < q[i].t
  {
    i := InsertAt(q, n);
  }

  lemma PlacedSorted(q: seq<Node>, n: Node, i: nat, r: seq<Node>)
    requires Sorted(q) && Placed(q, n, i, r)
    requires (forall j | 0 <= j < i :: q[j].t <= n.t) && (i < |q| ==> n.t < q[i].t)
    ensures Sorted(r)
  {
    forall j, k | 0 <= j < k < |r|
      ensures r[j].t <= r[k].t
    {
      assert k < i ==> r[k] == q[k];
      assert j > i ==> r[j] == q[j - 1];
      assert k > i ==> r[k] == q[k - 1] && q[i].t <= q[k - 1].t;
    }
  }

  lemma PlacedDistinct(q: seq<Node>, n: Node, i: nat, r: seq<Node>)
    requires Distinct(q) && Placed(q, n, i, r) && !Queued(q, n.msg)
    ensures Distinct(r)
  {
    forall j, k | 0 <= j < k < |r|
      ensures r[j].msg != r[k].msg
    {
      assert j < i ==> r[j] == q[j];
      assert j > i ==> r[j] == q[j - 1];
      assert k < i ==> r[k] == q[k];
      assert k > i ==> r[k] == q[k - 1];
    }
  }

  lemma PlacedQueued(q: seq<Node>, n: Node, i: nat, r: seq<Node>, m: nat)
    requires Placed(q, n, i, r)
    ensures Queued(r, m) <==> m == n.msg || Queued(q, m)
  {
    if Queued(q, m) {
      var j :| 0 <= j < |q| && q[j].msg == m;
      assert r[if j < i then j else j + 1].msg == m;
    }
    if Queued(r, m) && m != n.msg {
      var j :| 0 <= j < |r| && r[j].msg == m;
      assert q[if j < i then j else j - 1].msg == m;
    }
  }

  /** Inserting a node for a message that is not queued. */
  lemma InsertKeeps(q: seq<Node>, n: Node)
    requires Sorted(q) && Distinct(q) && !Queued(q, n.msg)
    ensures Sorted(Insert(q, n)) && Distinct(Insert(q, n))
    ensures forall j | 0 <= j < |Insert(q, n)| :: Insert(q, n)[j] == n || Insert(q, n)[j] in q
    ensures forall m: nat :: Queued(Insert(q, n), m) <==> m == n.msg || Queued(q, m)
  {
    var i := InsertPlaces(q, n);
    var r := Insert(q, n);
    PlacedSorted(q, n, i, r);
    PlacedDistinct(q, n, i, r);
    forall m: nat {
      PlacedQueued(q, n, i, r, m);
    }
  }

  /** A message that is not queued keeps its story when another message is concerned. */
  lemma Unconcerned(s: State, e: Event, m: nat)
    requires m != e.msg
    ensures Story(s.log + [e], m) == Story(s.log, m)
  {
    StoryStep(s.log, e, m);
  }

  lemma FirstAlive(n: Node, now: nat, r: nat)
    requires n.timeout == Timeout(r) && n.t == now + n.timeout && n.cnt == 0
    ensures Alive([Transmit(n.msg, now)], n)
  {
    TimeoutRange(r);
    assert Pow2(0) == 1 && Pow2(1) == 2;
  }

  /** Sending a new message: its first deadline is one timeout away. */
  lemma SendKeeps(s: State, msg: nat, id: int, now: nat, r: nat)
    requires Inv(s) && Story(s.log, msg) == []
    ensures Inv(Send(s, msg, id, now, r))
  {
    var n := Node(msg, id, now + Timeout(r), 0, Timeout(r));
    var e := Transmit(msg, now);
    assert Send(s, msg, id, now, r) == State(Insert(s.queue, n), s.log + [e]);
    NotQueued(s, msg);
    FreshAlive(s.log, n, now, r);
    FreshKeeps(s, e, n);
  }

  lemma FreshAlive(log: seq<Event>, n: Node, now: nat, r: nat)
    requires Story(log, n.msg) == []
    requires n.timeout == Timeout(r) && n.t == now + n.timeout && n.cnt == 0
    ensures Alive(Story(log + [Transmit(n.msg, now)], n.msg), n)
  {
    FirstAlive(n, now, r);
    FirstStory(log, Transmit(n.msg, now));
  }

  /** A new message enters the queue. */
  lemma FreshKeeps(s: State, e: Event, n: Node)
    requires Inv(s) && n.msg == e.msg && forall j | 0 <= j < |s.queue| :: s.queue[j].msg != n.msg
    requires Alive(Story(s.log + [e], e.msg), n)
    ensures Inv(State(Insert(s.queue, n), s.log + [e]))
  {
    InsertKeeps(s.queue, n);
    Insulated(s, e, Insert(s.queue, n), n);
  }

  lemma FirstStory(log: seq<Event>, e: Event)
    requires Story(log, e.msg) == []
    ensures Story(log + [e], e.msg) == [e]
  {
    StoryStep(log, e, e.msg);
  }

  /** A message without a story is not in the queue. */
  lemma NotQueued(s: State, msg: nat)
    requires Inv(s) && Story(s.log, msg) == []
    ensures forall j | 0 <= j < |s.queue| :: s.queue[j].msg != msg
  {
    forall j | 0 <= j < |s.queue|
      ensures s.queue[j].msg != msg
    {
      assert Alive(Story(s.log, s.queue[j].msg), s.queue[j]);
    }
  }

  /** The queue `q` holds old nodes of other messages and possibly the node `n` of the event's message. */
  lemma Insulated(s: State, e: Event, q: seq<Node>, n: Node)
    requires Inv(s) && Sorted(q) && Distinct(q) && n.msg == e.msg
    requires forall j | 0 <= j < |q| :: q[j] == n || (q[j] in s.queue && q[j].msg != e.msg)
    requires forall m: nat | m != e.msg :: Queued(q, m) <==> Queued(s.queue, m)
    requires if Queued(q, e.msg) then Alive(Story(s.log + [e], e.msg), n) else Ended(Story(s.log + [e], e.msg))
    ensures Inv(State(q, s.log + [e]))
  {
    forall j | 0 <= j < |q|
      ensures Alive(Story(s.log + [e], q[j].msg), q[j])
    {
      if q[j] != n {
        Unconcerned(s, e, q[j].msg);
      }
    }
    forall m: nat
      ensures Queued(q, m) || Story(s.log + [e], m) == [] || Ended(Story(s.log + [e], m))
    {
      if m != e.msg {
        Unconcerned(s, e, m);
      }
    }
  }

  lemma BackoffStep(timeout: nat, k: nat)
    ensures Backoff(timeout, k) + timeout * Pow2(k) == Backoff(timeout, k + 1)
  {
    assert timeout * (2 * Pow2(k) - 1) == timeout * (Pow2(k) - 1) + timeout * Pow2(k);
  }

  /** Taking one node out of the queue. */
  lemma RemoveKeeps(q: seq<Node>, i: nat)
    requires Sorted(q) && Distinct(q) && i < |q|
    ensures var r := q[..i] + q[i + 1..];
      && Sorted(r) && Distinct(r) && !Queued(r, q[i].msg)
      && (forall j | 0 <= j < |r| :: r[j] in q && r[j].msg != q[i].msg)
      && (forall m: nat | m != q[i].msg :: Queued(r, m) <==> Queued(q, m))
  {
    var r := q[..i] + q[i + 1..];
    assert forall j | 0 <= j < i :: r[j] == q[j];
    assert forall j | i <= j < |r| :: r[j] == q[j + 1];
    forall m: nat | m != q[i].msg && Queued(q, m)
      ensures Queued(r, m)
    {
      var j :| 0 <= j < |q| && q[j].msg == m;
      assert r[if j < i then j else j - 1].msg == m;
    }
  }

  /** A retransmission moves the deadline by the doubled interval. */
  lemma AgainAlive(p: seq<Event>, n: Node, now: nat)
    requires Alive(p, n) && n.cnt < MAX_RETRANSMIT && n.t <= now
    ensures Alive(p + [Transmit(n.msg, now)], Again(n))
  {
    BackoffStep(n.timeout, n.cnt + 1);
  }

  lemma FireKeeps(s: State, now: nat)
    requires Inv(s) && Due(s.queue, now)
    ensures Inv(Fire(s, now))
  {
    TakeFirst(s);
    if s.queue[0].cnt < MAX_RETRANSMIT {
      AgainKeeps(s, s.queue[0], s.queue[1..], now);
    } else {
      GiveUpKeeps(s, s.queue[0], s.queue[1..]);
    }
  }

  /** What the invariant says of the first node and of the queue behind it. */
  lemma TakeFirst(s: State)
    requires Inv(s) && s.queue != []
    ensures var n, rest := s.queue[0], s.queue[1..];
      && Sorted(rest) && Distinct(rest) && !Queued(rest, n.msg)
      && (forall j | 0 <= j < |rest| :: rest[j] in s.queue && rest[j].msg != n.msg)
      && (forall m: nat | m != n.msg :: Queued(rest, m) <==> Queued(s.queue, m))
      && Alive(Story(s.log, n.msg), n)
  {
    RemoveKeeps(s.queue, 0);
    assert s.queue[..0] + s.queue[1..] == s.queue[1..];
  }

  /** The branch that reports a timeout. */
  lemma {:induction false} GiveUpKeeps(s: State, n: Node, rest: seq<Node>)
    requires Inv(s) && Sorted(rest) && Distinct(rest) && !Queued(rest, n.msg)
    requires forall j | 0 <= j < |rest| :: rest[j] in s.queue && rest[j].msg != n.msg
    requires forall m: nat | m != n.msg :: Queued(rest, m) <==> Queued(s.queue, m)
    requires Alive(Story(s.log, n.msg), n) && n.cnt >= MAX_RETRANSMIT
    ensures Inv(State(rest, s.log + [TimedOut(n.msg)]))
  {
    StoryStep(s.log, TimedOut(n.msg), n.msg);
    Insulated(s, TimedOut(n.msg), rest, n);
  }

  /** The retransmission branch. */
  lemma {:induction false} AgainKeeps(s: State, n: Node, rest: seq<Node>, now: nat)
    requires Inv(s) && Sorted(rest) && Distinct(rest) && !Queued(rest, n.msg)
    requires forall j | 0 <= j < |rest| :: rest[j] in s.queue && rest[j].msg != n.msg
    requires forall m: nat | m != n.msg :: Queued(rest, m) <==> Queued(s.queue, m)
    requires Alive(Story(s.log, n.msg), n) && n.cnt < MAX_RETRANSMIT && n.t <= now
    ensures Inv(State(Insert(rest, Again(n)), s.log + [Transmit(n.msg, now)]))
  {
    var e := Transmit(n.msg, now);
    StoryStep(s.log, e, n.msg);
    AgainAlive(Story(s.log, n.msg), n, now);
    InsertKeeps(rest, Again(n));
    Insulated(s, e, Insert(rest, Again(n)), Again(n));
  }

  lemma ReplyKeeps(s: State, id: int)
    requires Inv(s)
    ensures Inv(Reply(s, id))
  {
    var i := Find(s.queue, id);
    if i < |s.queue| {
      var n := s.queue[i];
      RemoveKeeps(s.queue, i);
      assert Alive(Story(s.log, n.msg), n);
      StoryStep(s.log, Answered(n.msg), n.msg);
      Insulated(s, Answered(n.msg), s.queue[..i] + s.queue[i + 1..], n);
    }
  }

  /** The timer loop keeps the invariant and leaves only nodes that are not due. */
  lemma {:induction false} DrainKeeps(s: State, now: nat)
    requires Inv(s)
    ensures Inv(Drain(s, now))
    ensures forall i | 0 <= i < |Drain(s, now).queue| :: Drain(s, now).queue[i].t > now
    decreases Work(s.queue)
  {
    if Due(s.queue, now) {
      FireKeeps(s, now);
      DrainKeeps(Fire(s, now), now);
    }
  }

  lemma StepKeeps(s: State, op: Op)
    requires Inv(s) && (op.SendOp? ==> Story(s.log, op.msg) == [])
    ensures Inv(Step(s, op))
  {
    match op
    case SendOp(msg, id, now, r) => SendKeeps(s, msg, id, now, r);
    case TimerOp(now) => DrainKeeps(s, now);
    case ReplyOp(id) => ReplyKeeps(s, id);
  }

  /** Every reachable state satisfies the invariant. */
  lemma {:induction false} RunKeeps(s: State, ops: seq<Op>)
    requires Inv(s) && Legal(s, ops)
    ensures Inv(Run(s, ops))
    decreases |ops|
  {
    if ops != [] {
      StepKeeps(s, ops[0]);
      RunKeeps(Step(s, ops[0]), ops[1..]);
    }
  }

  // ----- What a user of the layer can rely on -----

  /**
   * Exactly one outcome. After any run from the empty queue a message was never sent, or
   * is queued exactly once and has no outcome yet, or has left the queue with exactly one
   * outcome, an answer or a timeout but not both, and was never transmitted afterwards.
   * It was transmitted at most five times; a timeout comes only after all five.
   */
  lemma ExactlyOnce(ops: seq<Op>, m: nat)
    requires Legal(State([], []), ops)
    ensures var s := Run(State([], []), ops);
      var p := Story(s.log, m);
      && Distinct(s.queue)
      && (|| (p == [] && !Queued(s.queue, m))
          || (Queued(s.queue, m) && 1 <= |p| <= 5 && forall k | 0 <= k < |p| :: p[k].Transmit?)
          || (Ended(p) && !Queued(s.queue, m)))
  {
    var s := Run(State([], []), ops);
    RunKeeps(State([], []), ops);
    if Queued(s.queue, m) {
      var i :| 0 <= i < |s.queue| && s.queue[i].msg == m;
      assert Alive(Story(s.log, m), s.queue[i]);
    }
  }

  /** A message with story `p` is due at its first transmission plus timeout * (2^(retransmissions + 1) - 1). */
  ghost predicate OnTime(p: seq<Event>, n: Node) {
    && |p| == n.cnt + 1 <= 5 && p[0].Transmit? && 2048 <= n.timeout <= 3068
    && n.t == p[0].at + n.timeout * (Pow2(n.cnt + 1) - 1)
    && n.t <= p[0].at + 93 * TICKS_PER_SECOND
    && (forall k | 0 <= k < |p| :: p[k].Transmit? && p[k].at >= p[0].at + n.timeout * (Pow2(k) - 1))
  }

  lemma AliveOnTime(p: seq<Event>, n: Node)
    requires Alive(p, n)
    ensures OnTime(p, n)
  {
    BackoffBound(n.timeout, n.cnt + 1);
  }

  /**
   * The schedule. Every queued message is due at its first transmission plus
   * timeout * (2^(retransmissions + 1) - 1), and never later than 93 seconds after it,
   * the MAX_TRANSMIT_WAIT of section 4.8.2 of RFC 7252.
   */
  lemma Schedule(ops: seq<Op>, i: nat)
    requires Legal(State([], []), ops) && i < |Run(State([], []), ops).queue|
    ensures var s := Run(State([], []), ops);
      var n := s.queue[i];
      OnTime(Story(s.log, n.msg), n) && forall j | i < j < |s.queue| :: n.t <= s.queue[j].t
  {
    var s := Run(State([], []), ops);
    RunKeeps(State([], []), ops);
    AliveOnTime(Story(s.log, s.queue[i].msg), s.queue[i]);
  }

  lemma BackoffBound(timeout: nat, k: nat)
    requires timeout <= 3068 && k <= 5
    ensures Backoff(timeout, k) <= 93 * TICKS_PER_SECOND
  {
    Pow2Mono(k, 5);
    assert Pow2(5) == 32;
    assert timeout * (Pow2(k) - 1) <= 3068 * 31;
  }

  // ----- Other messages are left alone -----

  /** The queued nodes of the messages in `keep`, in queue order. */
  ghost function Restrict(q: seq<Node>, keep: set<nat>): seq<Node> {
    if q == [] then []
    else (if q[0].msg in keep then [q[0]] else []) + Restrict(q[1..], keep)
  }

  lemma {:induction false} RestrictInsert(q: seq<Node>, n: Node, keep: set<nat>)
    requires n.msg !in keep
    ensures Restrict(Insert(q, n), keep) == Restrict(q, keep)
  {
    if q == [] || n.t < q[0].t {
      assert ([n] + q)[1..] == q;
    } else {
      RestrictInsert(q[1..], n, keep);
      assert ([q[0]] + Insert(q[1..], n))[1..] == Insert(q[1..], n);
    }
  }

  lemma {:induction false} RestrictRemove(q: seq<Node>, i: nat, keep: set<nat>)
    requires i < |q| && q[i].msg !in keep
    ensures Restrict(q[..i] + q[i + 1..], keep) == Restrict(q, keep)
    decreases i
  {
    if i == 0 {
      assert q[..0] + q[1..] == q[1..];
    } else {
      RestrictRemove(q[1..], i - 1, keep);
      assert q[1..][..i - 1] + q[1..][i..] == (q[..i] + q[i + 1..])[1..];
    }
  }

  /** An answer leaves all other messages in the queue as they were, in the same order. */
  lemma ReplyKeepsOthers(s: State, id: int, keep: set<nat>)
    requires Find(s.queue, id) < |s.queue| ==> s.queue[Find(s.queue, id)].msg !in keep
    ensures Restrict(Reply(s, id).queue, keep) == Restrict(s.queue, keep)
  {
    if Find(s.queue, id) < |s.queue| {
      RestrictRemove(s.queue, Find(s.queue, id), keep);
    }
  }

  /** The messages in `keep` are not due. */
  ghost predicate NotDue(q: seq<Node>, now: nat, keep: set<nat>) {
    forall i | 0 <= i < |q| && q[i].msg in keep :: q[i].t > now
  }

  lemma FireKeepsOthers(s: State, now: nat, keep: set<nat>)
    requires Due(s.queue, now) && NotDue(s.queue, now, keep)
    ensures Restrict(Fire(s, now).queue, keep) == Restrict(s.queue, keep)
    ensures NotDue(Fire(s, now).queue, now, keep)
  {
    var n, rest := s.queue[0], s.queue[1..];
    if n.cnt < MAX_RETRANSMIT {
      RestrictInsert(rest, Again(n), keep);
      PlacedNotDue(rest, Again(n), now, keep);
    }
  }

  lemma PlacedNotDue(q: seq<Node>, n: Node, now: nat, keep: set<nat>)
    requires NotDue(q, now, keep) && n.msg !in keep
    ensures NotDue(Insert(q, n), now, keep)
  {
    var i := InsertPlaces(q, n);
    var r := Insert(q, n);
    forall j | 0 <= j < |r| && r[j].msg in keep
      ensures r[j].t > now
    {
      assert r[j] == q[if j < i then j else j - 1];
    }
  }

  /** The timer loop leaves messages that are not due in the queue as they were, in the same order. */
  lemma {:induction false} DrainKeepsOthers(s: State, now: nat, keep: set<nat>)
    requires NotDue(s.queue, now, keep)
    ensures Restrict(Drain(s, now).queue, keep) == Restrict(s.queue, keep)
    decreases Work(s.queue)
  {
    if Due(s.queue, now) {
      FireKeepsOthers(s, now, keep);
      DrainKeepsOthers(Fire(s, now), now, keep);
    }
  }

  /** No queued message is lost by the timer loop: it stays queued or its timeout is reported. */
  lemma {:induction false} DrainLosesNothing(s: State, now: nat, m: nat)
    requires Inv(s) && Queued(s.queue, m)
    ensures Queued(Drain(s, now).queue, m) || TimedOut(m) in Drain(s, now).log
    decreases Work(s.queue)
  {
    if Due(s.queue, now) {
      FireKeeps(s, now);
      FireLosesNothing(s, now, m);
      if Queued(Fire(s, now).queue, m) {
        DrainLosesNothing(Fire(s, now), now, m);
      } else {
        LogGrows(Fire(s, now), now, TimedOut(m));
      }
    }
  }

  lemma FireLosesNothing(s: State, now: nat, m: nat)
    requires Inv(s) && Queued(s.queue, m) && Due(s.queue, now)
    ensures Queued(Fire(s, now).queue, m) || TimedOut(m) in Fire(s, now).log
  {
    var n, rest := s.queue[0], s.queue[1..];
    TakeFirst(s);
    if n.cnt < MAX_RETRANSMIT {
      InsertKeeps(rest, Again(n));
    } else if n.msg == m {
      assert Fire(s, now).log == s.log + [TimedOut(m)];
    }
  }

  lemma {:induction false} LogGrows(s: State, now: nat, e: Event)
    requires e in s.log
    ensures e in Drain(s, now).log
    decreases Work(s.queue)
  {
    if Due(s.queue, now) {
      LogGrows(Fire(s, now), now, e);
    }
  }

  // ----- Answers find their message -----

  /** Message `m` was sent under transaction id `id`. */
  ghost predicate Sent(ops: seq<Op>, m: nat, id: int) {
    exists op | op in ops :: op.SendOp? && op.msg == m && op.id == id
  }

  /** Every queued node has the transaction id under which its message was sent. */
  ghost predicate Known(q: seq<Node>, ops: seq<Op>) { forall n | n in q :: Sent(ops, n.msg, n.id) }

  lemma SentMore(ops: seq<Op>, more: seq<Op>, m: nat, id: int)
    requires Sent(ops, m, id) || Sent(more, m, id)
    ensures Sent(ops + more, m, id)
  {
    if Sent(ops, m, id) {
      var op :| op in ops && op.SendOp? && op.msg == m && op.id == id;
      assert op in ops + more;
    } else {
      var op :| op in more && op.SendOp? && op.msg == m && op.id == id;
      assert op in ops + more;
    }
  }

  lemma KnownMore(q: seq<Node>, r: seq<Node>, ops: seq<Op>, op: Op)
    requires Known(q, ops)
    requires forall n | n in r :: n in q || (op.SendOp? && op.msg == n.msg && op.id == n.id)
    ensures Known(r, ops + [op])
  {
    forall n | n in r
      ensures Sent(ops + [op], n.msg, n.id)
    {
      assert op in [op];
      SentMore(ops, [op], n.msg, n.id);
    }
  }

  /** Insertion adds the node and nothing else. */
  lemma InsertMembers(q: seq<Node>, n: Node)
    ensures forall x :: x in Insert(q, n) <==> x == n || x in q
  {
    var i := InsertAt(q, n);
    assert q == q[..i] + q[i..];
  }

  /** A retransmission keeps the transaction id. */
  lemma FireKnown(s: State, now: nat, ops: seq<Op>)
    requires s.queue != [] && Known(s.queue, ops)
    ensures Known(Fire(s, now).queue, ops)
  {
    var n := s.queue[0];
    assert Sent(ops, n.msg, n.id);
    InsertMembers(s.queue[1..], Again(n));
  }

  lemma {:induction false} DrainKnown(s: State, now: nat, ops: seq<Op>)
    requires Known(s.queue, ops)
    ensures Known(Drain(s, now).queue, ops)
    decreases Work(s.queue)
  {
    if Due(s.queue, now) {
      FireKnown(s, now, ops);
      DrainKnown(Fire(s, now), now, ops);
    }
  }

  lemma StepKnown(s: State, op: Op, ops: seq<Op>)
    requires Known(s.queue, ops)
    ensures Known(Step(s, op).queue, ops + [op])
  {
    match op
    case SendOp(msg, id, now, r) =>
      InsertMembers(s.queue, Node(msg, id, now + Timeout(r), 0, Timeout(r)));
      KnownMore(s.queue, Step(s, op).queue, ops, op);
    case TimerOp(now) =>
      DrainKnown(s, now, ops);
      KnownMore(Drain(s, now).queue, Drain(s, now).queue, ops, op);
    case ReplyOp(id) =>
      KnownMore(s.queue, Step(s, op).queue, ops, op);
  }

  lemma {:induction false} RunKnown(s: State, done: seq<Op>, ops: seq<Op>)
    requires Known(s.queue, done)
    ensures Known(Run(s, ops).queue, done + ops)
    decreases |ops|
  {
    if ops == [] {
      assert done + ops == done;
    } else {
      StepKnown(s, ops[0], done);
      RunKnown(Step(s, ops[0]), done + [ops[0]], ops[1..]);
      assert done + [ops[0]] + ops[1..] == done + ops;
    }
  }

  /** A message with a story keeps having one. */
  lemma StoryStays(s: State, op: Op, m: nat)
    requires Story(s.log, m) != []
    ensures Story(Step(s, op).log, m) != []
  {
    match op
    case SendOp(msg, _, now, _) => StoryStep(s.log, Transmit(msg, now), m);
    case TimerOp(now) => DrainStory(s, now, m);
    case ReplyOp(id) =>
      if Find(s.queue, id) < |s.queue| {
        StoryStep(s.log, Answered(s.queue[Find(s.queue, id)].msg), m);
      }
  }

  /** The messages sent in `done` have a story, and one transaction id each. */
  ghost predicate Once(s: State, done: seq<Op>) {
    && (forall m: nat, id :: Sent(done, m, id) ==> Story(s.log, m) != [])
    && forall m: nat, a, b :: Sent(done, m, a) && Sent(done, m, b) ==> a == b
  }

  lemma StepOnce(s: State, op: Op, done: seq<Op>)
    requires Once(s, done) && (op.SendOp? ==> Story(s.log, op.msg) == [])
    ensures Once(Step(s, op), done + [op])
  {
    if op.SendOp? {
      StoryStep(s.log, Transmit(op.msg, op.now), op.msg);
    }
    forall m: nat, id | Sent(done + [op], m, id)
      ensures Story(Step(s, op).log, m) != []
      ensures if op.SendOp? && op.msg == m then id == op.id else Sent(done, m, id)
    {
      SentLess(done, op, m, id);
      if Sent(done, m, id) {
        StoryStays(s, op, m);
      }
    }
  }

  lemma SentLess(done: seq<Op>, op: Op, m: nat, id: int)
    requires Sent(done + [op], m, id)
    ensures Sent(done, m, id) || (op.SendOp? && op.msg == m && op.id == id)
  {
    var x :| x in done + [op] && x.SendOp? && x.msg == m && x.id == id;
    assert x in done || x == op;
  }

  lemma {:induction false} RunOnce(s: State, done: seq<Op>, ops: seq<Op>)
    requires Once(s, done) && Legal(s, ops)
    ensures Once(Run(s, ops), done + ops)
    decreases |ops|
  {
    if ops == [] {
      assert done + ops == done;
    } else {
      StepOnce(s, ops[0], done);
      RunOnce(Step(s, ops[0]), done + [ops[0]], ops[1..]);
      assert done + [ops[0]] + ops[1..] == done + ops;
    }
  }

  /** After a run a queued node carries the one transaction id under which its message was sent. */
  lemma KeepsId(ops: seq<Op>, n: Node, id: int)
    requires Legal(State([], []), ops) && n in Run(State([], []), ops).queue
    ensures Sent(ops, n.msg, id) <==> id == n.id
  {
    RunKnown(State([], []), [], ops);
    RunOnce(State([], []), [], ops);
    assert [] + ops == ops;
  }

  /** What a reply does: the first node with its id leaves the queue and is answered. */
  lemma ReplyFirst(s: State, id: int, i: nat)
    requires i < |s.queue| && s.queue[i].id == id && forall j | 0 <= j < i :: s.queue[j].id != id
    ensures Step(s, ReplyOp(id)).queue == s.queue[..i] + s.queue[i + 1..]
    ensures Step(s, ReplyOp(id)).log == s.log + [Answered(s.queue[i].msg)]
  {
    FindUnique(s.queue, id, i);
  }

  /**
   * An acknowledgement reaches its message: after any run, if `m` was sent under `id`, is
   * still queued, and no other queued message was sent under that id, then the reply takes
   * `m` out of the queue and ends its story with the answer. All other messages stay as they are.
   */
  lemma AnswerEnds(ops: seq<Op>, m: nat, id: int)
    requires Legal(State([], []), ops) && Sent(ops, m, id)
    requires var q := Run(State([], []), ops).queue;
      Queued(q, m) && forall k: nat | k != m && Queued(q, k) :: !Sent(ops, k, id)
    ensures var s, s' := Run(State([], []), ops), Run(State([], []), ops + [ReplyOp(id)]);
      && !Queued(s'.queue, m) && Story(s'.log, m) == Story(s.log, m) + [Answered(m)]
      && (forall n: Node :: n in s'.queue <==> n in s.queue && n.msg != m)
      && (forall k: nat | k != m :: Story(s'.log, k) == Story(s.log, k))
  {
    var s := Run(State([], []), ops);
    var i :| 0 <= i < |s.queue| && s.queue[i].msg == m;
    RunKeeps(State([], []), ops);
    KeepsId(ops, s.queue[i], id);
    forall j | 0 <= j < i
      ensures s.queue[j].id != id
    {
      assert Queued(s.queue, s.queue[j].msg);
      KeepsId(ops, s.queue[j], id);
    }
    ReplyFirst(s, id, i);
    RunMore(State([], []), ops, ReplyOp(id));
    RemoveMembers(s.queue, i);
    RemoveKeeps(s.queue, i);
    forall k: nat {
      StoryStep(s.log, Answered(m), k);
    }
  }

  /** In a queue of distinct messages removal takes out that node and nothing else. */
  lemma RemoveMembers(q: seq<Node>, i: nat)
    requires Distinct(q) && i < |q|
    ensures forall n: Node :: n in q[..i] + q[i + 1..] <==> n in q && n.msg != q[i].msg
  {
    assert q == q[..i] + [q[i]] + q[i + 1..];
    forall n | n in q && n.msg == q[i].msg
      ensures n == q[i]
    {
      var j :| 0 <= j < |q| && q[j] == n;
    }
    forall n | n in q[..i] + q[i + 1..]
      ensures n.msg != q[i].msg
    {
      var j :| 0 <= j < |q| && j != i && q[j] == n;
    }
  }

  /** A reply under an id that no queued message was sent under changes nothing. */
  lemma StrayReply(ops: seq<Op>, id: int)
    requires Legal(State([], []), ops)
    requires forall k: nat | Queued(Run(State([], []), ops).queue, k) :: !Sent(ops, k, id)
    ensures Run(State([], []), ops + [ReplyOp(id)]) == Run(State([], []), ops)
  {
    var q := Run(State([], []), ops).queue;
    RunMore(State([], []), ops, ReplyOp(id));
    if Find(q, id) < |q| {
      var n := q[Find(q, id)];
      assert Queued(q, n.msg);
      KeepsId(ops, n, id);
    }
  }

  lemma {:induction false} RunMore(s: State, ops: seq<Op>, op: Op)
    ensures Run(s, ops + [op]) == Step(Run(s, ops), op)
    decreases |ops|
  {
    if ops == [] {
      assert (ops + [op])[1..] == [];
    } else {
      RunMore(Step(s, ops[0]), ops[1..], op);
      assert (ops + [op])[1..] == ops[1..] + [op];
    }
  }

  // ----- Transmissions happen when something calls for them -----

  /**
   * A transmission of `m` at time `at`, with `before` in the log: the first one is that of a
   * send at that time, every other one that of a timer loop at that time.
   */
  ghost predicate Caused(ops: seq<Op>, before: seq<Event>, m: nat, at: nat) {
    if Story(before, m) == [] then exists op | op in ops :: op.SendOp? && op.msg == m && op.now == at
    else TimerOp(at) in ops
  }

  ghost predicate AllCaused(log: seq<Event>, ops: seq<Op>) {
    forall i | 0 <= i < |log| && log[i].Transmit? :: Caused(ops, log[..i], log[i].msg, log[i].at)
  }

  lemma CausedMore(log: seq<Event>, ops: seq<Op>, op: Op)
    requires AllCaused(log, ops)
    ensures AllCaused(log, ops + [op])
  {
    forall i | 0 <= i < |log| && log[i].Transmit?
      ensures Caused(ops + [op], log[..i], log[i].msg, log[i].at)
    {
      assert Caused(ops, log[..i], log[i].msg, log[i].at);
      assert forall x | x in ops :: x in ops + [op];
    }
  }

  lemma OneMoreCaused(log: seq<Event>, e: Event, ops: seq<Op>)
    requires AllCaused(log, ops) && (e.Transmit? ==> Caused(ops, log, e.msg, e.at))
    ensures AllCaused(log + [e], ops)
  {
    var more := log + [e];
    assert more[..|log|] == log;
    forall i | 0 <= i < |more| && more[i].Transmit?
      ensures Caused(ops, more[..i], more[i].msg, more[i].at)
    {
      assert i < |log| ==> more[..i] == log[..i];
    }
  }

  lemma {:induction false} DrainCaused(s: State, now: nat, ops: seq<Op>)
    requires Inv(s) && AllCaused(s.log, ops) && TimerOp(now) in ops
    ensures AllCaused(Drain(s, now).log, ops)
    decreases Work(s.queue)
  {
    if Due(s.queue, now) {
      var n := s.queue[0];
      TakeFirst(s);
      OneMoreCaused(s.log, if n.cnt < MAX_RETRANSMIT then Transmit(n.msg, now) else TimedOut(n.msg), ops);
      FireKeeps(s, now);
      DrainCaused(Fire(s, now), now, ops);
    }
  }

  lemma StepCaused(s: State, op: Op, ops: seq<Op>)
    requires Inv(s) && AllCaused(s.log, ops) && (op.SendOp? ==> Story(s.log, op.msg) == [])
    ensures AllCaused(Step(s, op).log, ops + [op])
  {
    CausedMore(s.log, ops, op);
    assert op in ops + [op];
    match op
    case SendOp(msg, _, now, _) => OneMoreCaused(s.log, Transmit(msg, now), ops + [op]);
    case TimerOp(now) => DrainCaused(s, now, ops + [op]);
    case ReplyOp(id) =>
      if Find(s.queue, id) < |s.queue| {
        OneMoreCaused(s.log, Answered(s.queue[Find(s.queue, id)].msg), ops + [op]);
      }
  }

  lemma {:induction false} RunCaused(s: State, done: seq<Op>, ops: seq<Op>)
    requires Inv(s) && AllCaused(s.log, done) && Legal(s, ops)
    ensures AllCaused(Run(s, ops).log, done + ops)
    decreases |ops|
  {
    if ops == [] {
      assert done + ops == done;
    } else {
      StepCaused(s, ops[0], done);
      StepKeeps(s, ops[0]);
      RunCaused(Step(s, ops[0]), done + [ops[0]], ops[1..]);
      assert done + [ops[0]] + ops[1..] == done + ops;
    }
  }

  /**
   * The first transmission of a message is at the time of its send, every later one at the
   * time of a timer loop.
   */
  lemma TransmitTimes(ops: seq<Op>, i: nat)
    requires Legal(State([], []), ops)
    ensures var log := Run(State([], []), ops).log;
      i < |log| && log[i].Transmit? ==> Caused(ops, log[..i], log[i].msg, log[i].at)
  {
    RunCaused(State([], []), [], ops);
    assert [] + ops == ops;
  }

  // ----- The end of a message -----

  /** The timer loop adds to the story of a message and does not change its beginning. */
  lemma {:induction false} DrainStory(s: State, now: nat, m: nat)
    requires Story(s.log, m) != []
    ensures Story(Drain(s, now).log, m) != [] && Story(Drain(s, now).log, m)[0] == Story(s.log, m)[0]
    decreases Work(s.queue)
  {
    if Due(s.queue, now) {
      var n := s.queue[0];
      StoryStep(s.log, if n.cnt < MAX_RETRANSMIT then Transmit(n.msg, now) else TimedOut(n.msg), m);
      DrainStory(Fire(s, now), now, m);
    }
  }

  /** A queued message is due within 93 seconds of its first transmission. */
  lemma DueSoon(s: State, i: nat)
    requires Inv(s) && i < |s.queue|
    ensures var p := Story(s.log, s.queue[i].msg);
      p != [] && p[0].Transmit? && s.queue[i].t <= p[0].at + 93 * TICKS_PER_SECOND
  {
    AliveOnTime(Story(s.log, s.queue[i].msg), s.queue[i]);
  }

  /**
   * Every message comes to an end: after any run, a timer loop that runs 93 seconds or more
   * after the first transmission of a message leaves it out of the queue, with its one outcome.
   */
  lemma GivesUp(ops: seq<Op>, m: nat, now: nat)
    requires Legal(State([], []), ops) && Story(Run(State([], []), ops).log, m) != []
    requires var first := Story(Run(State([], []), ops).log, m)[0];
      first.Transmit? ==> now >= first.at + 93 * TICKS_PER_SECOND
    ensures var s := Step(Run(State([], []), ops), TimerOp(now));
      !Queued(s.queue, m) && Ended(Story(s.log, m))
  {
    RunKeeps(State([], []), ops);
    DrainEnds(Run(State([], []), ops), m, now);
  }

  lemma DrainEnds(s: State, m: nat, now: nat)
    requires Inv(s) && Story(s.log, m) != []
    requires Story(s.log, m)[0].Transmit? ==> now >= Story(s.log, m)[0].at + 93 * TICKS_PER_SECOND
    ensures !Queued(Drain(s, now).queue, m) && Ended(Story(Drain(s, now).log, m))
  {
    DrainKeeps(s, now);
    DrainStory(s, now, m);
    var q := Drain(s, now).queue;
    forall i | 0 <= i < |q|
      ensures q[i].msg != m
    {
      DueSoon(Drain(s, now), i);
    }
  }
}
