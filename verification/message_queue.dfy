/** A sequential model of the `MessageQueue<T>` template of src/TrafficLight.cpp.

    The buffer is a deque: `send` pushes at the back and `receive` pops from
    the back as well, so the structure is a stack (last sent, first received).
    The mutex and the condition variable are left out; the wait for a
    non-empty buffer becomes the precondition of `Receive`, and in the trace
    semantics `Run` a receive on an empty buffer is `Blocked`.
 */
module MessageQueues {

  /** The message `receive` hands out: the one at the back of the buffer. */
  function Back<T>(q: seq<T>): T
    requires q != []
  {
    q[|q| - 1]
  }

  /** The buffer that `receive` leaves behind: its back element removed. */
  function Popped<T>(q: seq<T>): seq<T>
    requires q != []
  {
    q[..|q| - 1]
  }

  class MessageQueue<T> {
    /** The pending messages, oldest first; the back is the end of the sequence. */
    var queue: seq<T>

    constructor ()
      ensures queue == []
    {
      queue := [];
    }

    /** Appends `msg` at the back; nothing already in the buffer moves. */
    method Send(msg: T)
      modifies this
      ensures queue == old(queue) + [msg]
      ensures |queue| == |old(queue)| + 1 && queue[..|old(queue)|] == old(queue)
    {
      queue := queue + [msg];
    }

    /** Removes and returns the most recently sent message still in the buffer. */
    method Receive() returns (msg: T)
      requires queue != []
      modifies this
      ensures msg == Back(old(queue))
      ensures queue == Popped(old(queue))
    {
      msg := queue[|queue| - 1];
      queue := queue[..|queue| - 1];
    }
  }

  /** A client of the queue: a send followed at once by a receive hands the
      same message back and leaves the buffer as it was. */
  method SendThenReceive<T>(mq: MessageQueue<T>, x: T) returns (y: T)
    modifies mq
    ensures y == x
    ensures mq.queue == old(mq.queue)
  {
    mq.Send(x);
    y := mq.Receive();
  }

  // ---------------------------------------------------------------------
  // Traces of sends and receives on one buffer, as values.
  // ---------------------------------------------------------------------

  datatype Op<T> = Send(msg: T) | Receive

  /** What a trace does: either some receive found the buffer empty (in a
      single thread it would wait forever), or the trace completes, handing
      out `received` in order and leaving `rest` in the buffer. */
  datatype Outcome<T> = Blocked | Done(received: seq<T>, rest: seq<T>)

  /** Runs `ops` on a buffer holding `q`; each step does what the methods
      `MessageQueue.Send` and `MessageQueue.Receive` promise. */
  function Run<T>(q: seq<T>, ops: seq<Op<T>>): Outcome<T>
    decreases |ops|
  {
    if ops == [] then Done([], q)
    else match ops[0]
      case Send(msg) => Run(q + [msg], ops[1..])
      case Receive =>
        if q == [] then Blocked
        else match Run(Popped(q), ops[1..])
          case Blocked => Blocked
          case Done(received, rest) => Done([Back(q)] + received, rest)
  }

  /** Executes a trace on a queue object with its own `Send` and `Receive`:
      what comes out, and what is left, is what `Run` says. */
  method Perform<T>(mq: MessageQueue<T>, ops: seq<Op<T>>) returns (received: seq<T>)
    requires Run(mq.queue, ops).Done?
    modifies mq
    ensures Run(old(mq.queue), ops) == Done(received, mq.queue)
  {
    received := [];
    for k := 0 to |ops|
      invariant Run(mq.queue, ops[k..]).Done?
      invariant Run(old(mq.queue), ops) ==
        Done(received + Run(mq.queue, ops[k..]).received, Run(mq.queue, ops[k..]).rest)
    {
      assert ops[k..][1..] == ops[k + 1..];
      match ops[k]
      case Send(msg) =>
        mq.Send(msg);
      case Receive =>
        var msg := mq.Receive();
        received := received + [msg];
    }
    assert ops[|ops|..] == [];
  }

  function Sends<T>(xs: seq<T>): seq<Op<T>>
  {
    if xs == [] then [] else [Send(xs[0])] + Sends(xs[1..])
  }

  function Receives<T>(n: nat): seq<Op<T>>
  {
    if n == 0 then [] else [Receive] + Receives(n - 1)
  }

  /** Each message sent and at once received, one at a time. */
  function HandOffs<T>(xs: seq<T>): seq<Op<T>>
  {
    if xs == [] then [] else [Send(xs[0]), Receive] + HandOffs(xs[1..])
  }

  function SentValues<T>(ops: seq<Op<T>>): seq<T>
  {
    if ops == [] then []
    else (match ops[0] case Send(msg) => [msg] case Receive => []) + SentValues(ops[1..])
  }

  function Reverse<T>(s: seq<T>): seq<T>
  {
    seq(|s|, i requires 0 <= i < |s| => s[|s| - 1 - i])
  }

  /** Sends only ever append: a run of sends leaves `xs` behind `q`. */
  lemma {:induction false} RunAfterSends<T>(q: seq<T>, xs: seq<T>, ops: seq<Op<T>>)
    ensures Run(q, Sends(xs) + ops) == Run(q + xs, ops)
    decreases |xs|
  {
    if xs == [] {
      assert Sends(xs) + ops == ops;
      assert q + xs == q;
    } else {
      assert Sends(xs) + ops == [Send(xs[0])] + (Sends(xs[1..]) + ops);
      assert (q + [xs[0]]) + xs[1..] == q + xs;
      RunAfterSends(q + [xs[0]], xs[1..], ops);
    }
  }

  /** Receiving as many messages as were sent on top of `q` hands them out
      newest first and uncovers `q` again. */
  lemma {:induction false} ReceivesAfterSends<T>(q: seq<T>, xs: seq<T>)
    ensures Run(q + xs, Receives(|xs|)) == Done(Reverse(xs), q)
    decreases |xs|
  {
    if xs == [] {
      assert q + xs == q;
    } else {
      var n := |xs|;
      var init := xs[..n - 1];
      assert Back(q + xs) == xs[n - 1];
      assert Popped(q + xs) == q + init;
      ReceivesAfterSends(q, init);
      assert Reverse(xs) == [xs[n - 1]] + Reverse(init);
    }
  }

  /** The stack discipline: send `xs`, then receive `|xs|` times, and the
      messages come out in reverse order while the buffer returns to `q`. */
  lemma StackDiscipline<T>(q: seq<T>, xs: seq<T>)
    ensures Run(q, Sends(xs) + Receives(|xs|)) == Done(Reverse(xs), q)
  {
    RunAfterSends(q, xs, Receives(|xs|));
    ReceivesAfterSends(q, xs);
  }

  /** Used as a single-slot hand-off (each send followed by a receive) the
      buffer delivers every message once, in the order sent. */
  lemma {:induction false} HandOffPreservesOrder<T>(q: seq<T>, xs: seq<T>)
    ensures Run(q, HandOffs(xs)) == Done(xs, q)
    decreases |xs|
  {
    if xs != [] {
      var tail := HandOffs(xs[1..]);
      assert HandOffs(xs) == [Send(xs[0])] + ([Receive] + tail);
      assert ([Receive] + tail)[1..] == tail;
      assert Back(q + [xs[0]]) == xs[0];
      assert Popped(q + [xs[0]]) == q;
      HandOffPreservesOrder(q, xs[1..]);
      assert [xs[0]] + xs[1..] == xs;
    }
  }

  /** A receive that comes late takes the newest message and leaves an
      older one under it: after sends of `a` and `b`, a receive, and another
      send of `a`, the next two receives both hand out `a`. */
  lemma LateReceive<T>(a: T, b: T)
    ensures Run([], [Send(a), Send(b), Receive, Send(a), Receive, Receive]) == Done([b, a, a], [])
  {
    var ops := [Send(a), Send(b), Receive, Send(a), Receive, Receive];
    assert Run([a], ops[5..]) == Done([a], []);
    assert Run([a, a], ops[4..]) == Done([a, a], []);
    assert Run([a], ops[3..]) == Done([a, a], []);
    assert Popped([a, b]) == [a];
    assert Run([a, b], ops[2..]) == Done([b, a, a], []);
    assert Run([a], ops[1..]) == Done([b, a, a], []);
    assert [] + [a] == [a];
  }

  /** No loss and no duplication: whatever a completed trace hands out plus
      what it leaves behind is exactly what was there plus what was sent. */
  lemma {:induction false} RunConserves<T>(q: seq<T>, ops: seq<Op<T>>)
    ensures Run(q, ops).Done? ==>
      multiset(Run(q, ops).received) + multiset(Run(q, ops).rest) == multiset(q) + multiset(SentValues(ops))
    decreases |ops|
  {
    if ops != [] {
      var tail := ops[1..];
      match ops[0]
      case Send(msg) =>
        RunConserves(q + [msg], tail);
        SendConserves(q, msg, tail, Run(q, ops), SentValues(ops));
      case Receive =>
        if q != [] {
          RunConserves(Popped(q), tail);
          ReceiveConserves(q, Run(Popped(q), tail), Run(q, ops), SentValues(tail));
          assert SentValues(ops) == SentValues(tail);
        }
    }
  }

  /** The accounting of `RunConserves` across one send. */
  lemma SendConserves<T>(q: seq<T>, msg: T, tail: seq<Op<T>>, out: Outcome<T>, sent: seq<T>)
    requires out == Run(q + [msg], tail)
    requires sent == [msg] + SentValues(tail)
    requires out.Done? ==>
      multiset(out.received) + multiset(out.rest) == multiset(q + [msg]) + multiset(SentValues(tail))
    ensures out.Done? ==> multiset(out.received) + multiset(out.rest) == multiset(q) + multiset(sent)
  {
    assert multiset(q + [msg]) == multiset(q) + multiset{msg};
  }

  /** The accounting of `RunConserves` across one receive. */
  lemma ReceiveConserves<T>(q: seq<T>, r: Outcome<T>, out: Outcome<T>, sent: seq<T>)
    requires q != []
    requires out == (if r.Blocked? then Blocked else Done([Back(q)] + r.received, r.rest))
    requires r.Done? ==> multiset(r.received) + multiset(r.rest) == multiset(Popped(q)) + multiset(sent)
    ensures out.Done? ==> multiset(out.received) + multiset(out.rest) == multiset(q) + multiset(sent)
  {
    if r.Done? {
      assert q == Popped(q) + [Back(q)];
      calc {
        multiset(out.received) + multiset(out.rest);
        multiset{Back(q)} + (multiset(r.received) + multiset(r.rest));
        multiset{Back(q)} + (multiset(Popped(q)) + multiset(sent));
        multiset(q) + multiset(sent);
      }
    }
  }
}
