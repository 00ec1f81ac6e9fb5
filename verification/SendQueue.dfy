/** The confirmable message layer: the send queue of net.c, driven by dia_nextTimer. */
module SendQueue {
  import opened Bytes
  import Seqs

  const TICKS_PER_SECOND := 1024
  const RESPONSE_TIMEOUT := 2
  const MAX_RETRANSMIT := 4

  /** A queued message: `msg` stands for the PDU, `id` is its transaction id. */
  datatype Node = Node(msg: nat, id: int, t: nat, cnt: nat, timeout: nat)

  /** What the outside world sees of a message. */
  datatype Event = Transmit(msg: nat, at: nat) | TimedOut(msg: nat) | Answered(msg: nat)

  datatype State = State(queue: seq<Node>, log: seq<Event>)

  // ----- The queue operations as functions -----

  /** coap_insert_node with _order_timestamp: behind all nodes that are not later. */
  function Insert(q: seq<Node>, n: Node): seq<Node> {
    if q == [] || n.t < q[0].t then [n] + q else [q[0]] + Insert(q[1..], n)
  }

  /** The randomised timeout of coap_send_confirmed; `r` is a random number. */
  function Timeout(r: nat): nat {
    RESPONSE_TIMEOUT * TICKS_PER_SECOND + RESPONSE_TIMEOUT / 2 * (TICKS_PER_SECOND * (r % 256) / 256)
  }

  /** coap_send_confirmed at time `now`. */
  function Send(s: State, msg: nat, id: int, now: nat, r: nat): State {
    State(Insert(s.queue, Node(msg, id, now + Timeout(r), 0, Timeout(r))), s.log + [Transmit(msg, now)])
  }

  /** coap_retransmit of a node that has been taken off the queue. */
  function Retransmit(s: State, n: Node, now: nat): State {
    if n.cnt < MAX_RETRANSMIT then
      State(Insert(s.queue, Again(n)), s.log + [Transmit(n.msg, now)])
    else
      State(s.queue, s.log + [TimedOut(n.msg)])
  }

  /** The node as it is queued for its next retransmission. */
  function Again(n: Node): Node { n.(cnt := n.cnt + 1, t := n.t + n.timeout * Pow2(n.cnt + 1)) }

  /** Attempts left for a node, the final report included. */
  function Weight(n: Node): nat { if n.cnt < MAX_RETRANSMIT then 5 - n.cnt else 1 }

  function Work(q: seq<Node>): nat {
    if q == [] then 0 else Weight(q[0]) + Work(q[1..])
  }

  lemma {:induction false} InsertWork(q: seq<Node>, n: Node)
    ensures Work(Insert(q, n)) == Work(q) + Weight(n)
  {
    if q == [] || n.t < q[0].t {
      assert ([n] + q)[1..] == q;
    } else {
      InsertWork(q[1..], n);
      assert ([q[0]] + Insert(q[1..], n))[1..] == Insert(q[1..], n);
    }
  }

  /** One round of the loop in dia_nextTimer, for a head that is due. */
  function Fire(s: State, now: nat): (s': State)
    requires s.queue != []
    ensures Work(s'.queue) < Work(s.queue)
  {
    InsertWork(s.queue[1..], Again(s.queue[0]));
    Retransmit(s.(queue := s.queue[1..]), s.queue[0], now)
  }

  predicate Due(q: seq<Node>, now: nat) { q != [] && q[0].t <= now }

  /** The loop of dia_nextTimer. */
  function Drain(s: State, now: nat): State
    decreases Work(s.queue)
  {
    if Due(s.queue, now) then Drain(Fire(s, now), now) else s
  }

  /** Position of the first node with transaction id `id`. */
  function Find(q: seq<Node>, id: int): (i: nat)
    ensures i <= |q|
    ensures i < |q| ==> q[i].id == id
    ensures forall j | 0 <= j < i :: q[j].id != id
  {
    if q == [] || q[0].id == id then 0 else 1 + Find(q[1..], id)
  }

  /** coap_remove_from_queue for the transaction of a received ACK or RST. */
  function Reply(s: State, id: int): State {
    var i := Find(s.queue, id);
    if i < |s.queue| then
      State(s.queue[..i] + s.queue[i + 1..], s.log + [Answered(s.queue[i].msg)])
    else s
  }

  // ----- The code -----

  /** The send queue of a context; `log` records what happened to its messages. */
  class Context {
    var sendqueue: seq<Node>
    ghost var log: seq<Event>

    ghost function Abs(): State
      reads this
    {
      State(sendqueue, log)
    }

    constructor ()
      ensures Abs() == State([], [])
    {
      sendqueue, log := [], [];
    }

    /** coap_insert_node. */
    method InsertNode(node: Node)
      modifies this`sendqueue
      ensures sendqueue == Insert(old(sendqueue), node)
    {
      var s := sendqueue;
      if s == [] {
        sendqueue := [node];
        assert [node] == [node] + s;
        return;
      }
      if node.t < s[0].t {
        sendqueue := [node] + s;
        return;
      }
      var q := 1;
      assert s[..1] == [s[0]];
      while q < |s| && node.t >= s[q].t
        invariant 1 <= q <= |s|
        invariant Insert(s, node) == s[..q] + Insert(s[q..], node)
      {
        InsertSkip(s, q, node);
        q := q + 1;
      }
      assert Insert(s[q..], node) == [node] + s[q..];
      Seqs.Assoc(s[..q], [node], s[q..]);
      sendqueue := s[..q] + [node] + s[q..];
    }

    /** coap_pop_next. */
    method PopNext() returns (node: Node)
      requires sendqueue != []
      modifies this`sendqueue
      ensures node == old(sendqueue)[0] && sendqueue == old(sendqueue)[1..]
    {
      node := sendqueue[0];
      sendqueue := sendqueue[1..];
    }

    /** coap_send_confirmed, with the clock and the random number as inputs. */
    method SendConfirmed(msg: nat, id: int, now: nat, r: nat)
      modifies this
      ensures Abs() == Send(old(Abs()), msg, id, now, r)
    {
      var timeout := RESPONSE_TIMEOUT * TICKS_PER_SECOND
                   + RESPONSE_TIMEOUT / 2 * (TICKS_PER_SECOND * (r % 256) / 256);
      InsertNode(Node(msg, id, now + timeout, 0, timeout));
      log := log + [Transmit(msg, now)];
    }

    /** coap_retransmit. */
    method RetransmitNode(node: Node, now: nat)
      modifies this
      ensures Abs() == Retransmit(old(Abs()), node, now)
    {
      if node.cnt < MAX_RETRANSMIT {
        var cnt := node.cnt + 1;
        InsertNode(node.(cnt := cnt, t := node.t + node.timeout * Pow2(cnt)));
        log := log + [Transmit(node.msg, now)];
      } else {
        log := log + [TimedOut(node.msg)];
      }
    }

    /** The loop of dia_nextTimer. */
    method NextTimer(now: nat)
      modifies this
      ensures Abs() == Drain(old(Abs()), now)
    {
      while sendqueue != [] && sendqueue[0].t <= now
        invariant Drain(Abs(), now) == Drain(old(Abs()), now)
        decreases Work(sendqueue)
      {
        ghost var s := Abs();
        var node := PopNext();
        RetransmitNode(node, now);
        assert Abs() == Fire(s, now);
      }
    }

    /** coap_remove_from_queue, called by coap_dispatch for an ACK or RST. */
    method RemoveFromQueue(id: int) returns (found: bool)
      modifies this
      ensures Abs() == Reply(old(Abs()), id)
      ensures found <==> exists n :: n in old(sendqueue) && n.id == id
    {
      if sendqueue == [] {
        return false;
      }
      var q := 0;
      if sendqueue[0].id != id {
        q := 1;
        while q < |sendqueue| && id != sendqueue[q].id
          invariant 1 <= q <= |sendqueue|
          invariant forall j | 0 <= j < q :: sendqueue[j].id != id
        {
          q := q + 1;
        }
      }
      FindUnique(sendqueue, id, q);
      found := q < |sendqueue|;
      if found {
        assert sendqueue[q] in sendqueue;
        log := log + [Answered(sendqueue[q].msg)];
        sendqueue := sendqueue[..q] + sendqueue[q + 1..];
      }
    }
  }

  lemma FindUnique(q: seq<Node>, id: int, i: nat)
    requires i <= |q| && (i < |q| ==> q[i].id == id)
    requires forall j | 0 <= j < i :: q[j].id != id
    ensures Find(q, id) == i
  {
  }

  lemma InsertSkip(s: seq<Node>, q: nat, n: Node)
    requires q < |s| && n.t >= s[q].t
    ensures s[..q] + Insert(s[q..], n) == s[..q + 1] + Insert(s[q + 1..], n)
  {
    assert s[q..][1..] == s[q + 1..];
    assert s[..q + 1] == s[..q] + [s[q]];
  }
}
