/** A sequential model of the `TrafficLight` class of src/TrafficLight.cpp:
    a two-phase light that toggles once enough time has elapsed and
    publishes every new phase through its `MessageQueue`.

    The background thread, the wall clock and the sleep are left out: one
    iteration of the phase loop is `Step`, given the whole seconds elapsed
    since the last toggle, and a bounded run of the loop is
    `CycleThroughPhases`.
 */
module TrafficLights {
  import opened MessageQueues

  datatype Phase = Red | Green

  /** The loop toggles once at least this many seconds have elapsed. */
  const Threshold: int := 4

  /** The other phase. */
  function Toggle(p: Phase): (q: Phase)
    ensures q != p
  {
    if p == Red then Green else Red
  }

  /** No two neighbours are the same phase. */
  predicate Alternating(s: seq<Phase>)
  {
    forall i :: 0 <= i < |s| - 1 ==> s[i] != s[i + 1]
  }

  /** The phase of a light that starts at `from` and toggles `n` times: it
      is back at `from` exactly after an even number of toggles. */
  function PhaseAfter(from: Phase, n: nat): (p: Phase)
    ensures p == from <==> n % 2 == 0
  {
    if n == 0 then from else Toggle(PhaseAfter(from, n - 1))
  }

  /** The phases sent by `n` toggling iterations of a light that starts at
      `from`, oldest first: each toggle sends the phase it switched to. */
  function Published(from: Phase, n: nat): (r: seq<Phase>)
    ensures |r| == n
  {
    if n == 0 then [] else Published(from, n - 1) + [PhaseAfter(from, n)]
  }

  /** The `i`-th publication is the phase after `i + 1` toggles. */
  lemma {:induction false} PublishedAt(from: Phase, n: nat, i: nat)
    requires i < n
    ensures Published(from, n)[i] == PhaseAfter(from, i + 1)
  {
    if i < n - 1 {
      PublishedAt(from, n - 1, i);
    }
  }

  /** The published phases strictly alternate, starting with the phase the
      light was not in. */
  lemma PublishedAlternates(from: Phase, n: nat)
    ensures Alternating(Published(from, n))
    ensures n > 0 ==> Published(from, n)[0] == Toggle(from)
  {
    var r := Published(from, n);
    forall i | 0 <= i < n - 1
      ensures r[i] != r[i + 1]
    {
      PublishedAt(from, n, i);
      PublishedAt(from, n, i + 1);
    }
    if n > 0 {
      PublishedAt(from, n, 0);
    }
  }

  /** A longer run publishes a longer history: the first `k` of `n`
      publications are those of a run of `k` toggles. */
  lemma PublishedPrefix(from: Phase, n: nat, k: nat)
    requires k <= n
    ensures Published(from, n)[..k] == Published(from, k)
  {
    forall i | 0 <= i < k
      ensures Published(from, n)[i] == Published(from, k)[i]
    {
      PublishedAt(from, n, i);
      PublishedAt(from, k, i);
    }
  }

  /** The number of iterations, among those given their elapsed times, that
      toggle the light. */
  function Toggles(elapsed: seq<int>): (n: nat)
    ensures n <= |elapsed|
    ensures n == 0 <==> forall i :: 0 <= i < |elapsed| ==> elapsed[i] < Threshold
    ensures n == |elapsed| <==> forall i :: 0 <= i < |elapsed| ==> elapsed[i] >= Threshold
  {
    if elapsed == [] then 0
    else Toggles(Popped(elapsed)) + (if Back(elapsed) >= Threshold then 1 else 0)
  }

  /** Counting one more iteration adds one exactly when that iteration toggles. */
  lemma TogglesSnoc(elapsed: seq<int>, k: nat)
    requires k < |elapsed|
    ensures Toggles(elapsed[..k + 1]) == Toggles(elapsed[..k]) + if elapsed[k] >= Threshold then 1 else 0
  {
    assert Popped(elapsed[..k + 1]) == elapsed[..k];
  }

  /** The buffer that `waitForGreen` leaves behind: everything sent before
      the most recently sent Green that is still pending. */
  function BeforeLastGreen(q: seq<Phase>): (r: seq<Phase>)
    requires Green in q
    ensures |r| < |q| && q[..|r|] == r
    ensures q[|r|] == Green
    ensures forall i :: |r| < i < |q| ==> q[i] == Red
    decreases |q|
  {
    if Back(q) == Green then Popped(q)
    else
      assert q == Popped(q) + [Back(q)];
      BeforeLastGreen(Popped(q))
  }

  /** The contract of `BeforeLastGreen` pins it down: the one Green followed
      only by Reds is the one `waitForGreen` stops at. */
  lemma BeforeLastGreenAt(q: seq<Phase>, k: nat)
    requires k < |q| && q[k] == Green
    requires forall i :: k < i < |q| ==> q[i] == Red
    ensures BeforeLastGreen(q) == q[..k]
  {
  }

  /** What `waitForGreen` does, as receives: it takes the trailing Reds and
      then the last Green, newest first, and stops. */
  lemma WaitForGreenReceives(q: seq<Phase>)
    requires Green in q
    ensures var r := BeforeLastGreen(q);
      var taken := Run(q, Receives(|q| - |r|));
      taken.Done? && taken.rest == r &&
      |taken.received| > 0 && Back(taken.received) == Green &&
      forall i :: 0 <= i < |taken.received| - 1 ==> taken.received[i] == Red
  {
    var r := BeforeLastGreen(q);
    var xs := q[|r|..];
    assert r + xs == q;
    ReceivesAfterSends(r, xs);
  }

  /** From a fresh light, `waitForGreen` leaves the publications of the
      toggles before the most recent one to Green. */
  lemma WaitForGreenAfterRun(n: nat)
    requires n >= 1
    ensures Published(Red, n)[0] == Green
    ensures BeforeLastGreen(Published(Red, n)) == Published(Red, if n % 2 == 1 then n - 1 else n - 2)
  {
    var q := Published(Red, n);
    var k := if n % 2 == 1 then n - 1 else n - 2;
    PublishedAt(Red, n, 0);
    PublishedAt(Red, n, k);
    forall i | k < i < n
      ensures q[i] == Red
    {
      PublishedAt(Red, n, i);
    }
    BeforeLastGreenAt(q, k);
    PublishedPrefix(Red, n, k);
  }

  /** Sends and receives interleaved on the light's buffer need not hand out
      alternating phases, although the phases sent alternate: after two
      toggles the consumer takes Red, a third toggle sends Green, and the
      consumer then takes that Green and the older Green under it. */
  lemma ReceivedMayRepeat()
    ensures var p := Published(Red, 3);
      var out := Run([], [Send(p[0]), Send(p[1]), Receive, Send(p[2]), Receive, Receive]);
      Alternating(p) && out == Done([Red, Green, Green], []) && !Alternating(out.received)
  {
    var p := Published(Red, 3);
    assert p == [Green, Red, Green];
    LateReceive(Green, Red);
    assert !Alternating([Red, Green, Green]) by {
      assert [Red, Green, Green][1] == [Red, Green, Green][2];
    }
  }

  class TrafficLight {
    /** The phase the light shows. */
    var phase: Phase
    /** The buffer through which every new phase is published. */
    const messages: MessageQueue<Phase>
    /** Every phase ever sent, oldest first (received or not). */
    ghost var published: seq<Phase>

    /** The light started at Red and each publication toggled it. */
    ghost predicate Valid()
      reads this
    {
      published == Published(Red, |published|) &&
      phase == PhaseAfter(Red, |published|)
    }

    constructor ()
      ensures Valid()
      ensures phase == Red && published == []
      ensures fresh(messages) && messages.queue == []
    {
      phase := Red;
      messages := new MessageQueue();
      published := [];
    }

    /** The phase shown is the last one published, and it is Red exactly
        when the light has toggled an even number of times. */
    function GetCurrentPhase(): (p: Phase)
      reads this
      requires Valid()
      ensures published != [] ==> p == Back(published)
      ensures p == Red <==> |published| % 2 == 0
    {
      phase
    }

    /** One iteration of the phase loop: at or past the threshold the light
        toggles and sends its new phase; below it nothing changes. */
    method Step(elapsed: int)
      requires Valid()
      modifies this, messages
      ensures Valid()
      ensures elapsed >= Threshold ==>
        phase == Toggle(old(phase)) &&
        messages.queue == old(messages.queue) + [phase] &&
        published == old(published) + [phase]
      ensures elapsed < Threshold ==>
        phase == old(phase) && messages.queue == old(messages.queue) && published == old(published)
    {
      if elapsed >= Threshold {
        if phase == Red {
          phase := Green;
        } else {
          phase := Red;
        }
        published := published + [phase];
        messages.Send(phase);
      }
    }

    /** A bounded run of the phase loop, one iteration per elapsed time:
        every toggle publishes the next phase of the alternation. */
    method CycleThroughPhases(elapsed: seq<int>)
      requires Valid()
      modifies this, messages
      ensures Valid()
      ensures messages.queue == old(messages.queue) + Published(old(phase), Toggles(elapsed))
      ensures published == old(published) + Published(old(phase), Toggles(elapsed))
      ensures phase == PhaseAfter(old(phase), Toggles(elapsed))
    {
      ghost var phase0, queue0, published0 := phase, messages.queue, published;
      ghost var toggles := 0;
      for k := 0 to |elapsed|
        invariant toggles == Toggles(elapsed[..k])
        invariant Valid()
        invariant messages.queue == queue0 + Published(phase0, toggles)
        invariant published == published0 + Published(phase0, toggles)
        invariant phase == PhaseAfter(phase0, toggles)
      {
        TogglesSnoc(elapsed, k);
        Step(elapsed[k]);
        if elapsed[k] >= Threshold {
          toggles := toggles + 1;
        }
      }
      assert elapsed[..|elapsed|] == elapsed;
    }

    /** Receives until a Green comes out. The buffer must hold a Green, or
        the loop would wait for one forever. */
    method WaitForGreen()
      requires Green in messages.queue
      modifies messages
      ensures messages.queue == BeforeLastGreen(old(messages.queue))
      ensures |messages.queue| < |old(messages.queue)| && old(messages.queue)[|messages.queue|] == Green
      ensures phase == old(phase) && published == old(published)
    {
      var done := false;
      while !done
        invariant !done ==> Green in messages.queue
        invariant !done ==> BeforeLastGreen(messages.queue) == BeforeLastGreen(old(messages.queue))
        invariant done ==> messages.queue == BeforeLastGreen(old(messages.queue))
        decreases |messages.queue|
      {
        var msg := messages.Receive();
        done := msg == Green;
      }
    }
  }

  /** The gate pattern from a fresh light: run the loop, wait for Green,
      then read the phase. The read shows Green exactly when the number of
      toggles is odd, since later toggles are not seen by the wait. */
  method WaitThenRead(elapsed: seq<int>) returns (p: Phase)
    requires Toggles(elapsed) >= 1
    ensures p == Green <==> Toggles(elapsed) % 2 == 1
  {
    var light := new TrafficLight();
    ghost var toggles := Toggles(elapsed);
    light.CycleThroughPhases(elapsed);
    assert light.messages.queue == Published(Red, toggles);
    WaitForGreenAfterRun(toggles);
    light.WaitForGreen();
    p := light.GetCurrentPhase();
  }
}
