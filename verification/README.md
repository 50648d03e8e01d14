# Traffic light with a message queue

A sequential Dafny model of `src/TrafficLight.cpp`, the controller of one
traffic light. The file holds two pieces:

- `MessageQueue<T>`, a buffer guarded by a mutex and a condition variable.
  `send` pushes a message at the back of a deque; `receive` waits until
  the deque is non-empty, then takes the message at the back and pops it.
  Both ends are the same end, so the buffer is a stack: the message
  received is always the most recently sent message still in the buffer.
- `TrafficLight`, a two-phase state machine (`red`, `green`). It starts at
  `red`. Each iteration of its phase loop checks whether at least 4 seconds
  have passed since the last toggle. If so, it flips the phase and sends
  the new phase into its queue. `waitForGreen` receives messages until one
  is `green`. `getCurrentPhase` reads the phase.

The model is in two modules:

- `MessageQueues` (message_queue.dfy) has the class `MessageQueue<T>`.
  Its field `queue: seq<T>` holds the pending messages, oldest first. It
  also gives a value-level semantics of traces of sends and receives
  (`Run`), which the lemmas use to state the stack discipline, the
  hand-off order, and that no message is lost or duplicated.
- `TrafficLights` (traffic_light.dfy) has the class `TrafficLight`. It has
  `phase`, a `const messages: MessageQueue<Phase>`, and a ghost history
  `published` of every phase ever sent. Its invariant `Valid()` says that
  the history is exactly the alternation that starts from `red`, and that
  the phase is the one reached after that many toggles.

Time is abstracted as follows. `Step(elapsed)` is one iteration of the
phase loop, where `elapsed` is the whole number of seconds since the last
toggle. For a real number of seconds `x`, `floor(x) >= 4` holds exactly
when `x >= 4`, so the integer comparison decides the same as the source's
`elapsed_seconds.count() >= 4`. `CycleThroughPhases(elapsed)` runs the
loop once for each entry of `elapsed`.

Where the code and its comments differ, the model follows the code:

- The buffer is LIFO (`back()` then `pop_back()`), not FIFO.
- The threshold is the fixed `>= 4` of line 89. It is not a random 4–6
  seconds.
- The 1 ms sleep is inside the toggle branch, so it does not separate every
  iteration. It has no functional effect and is not modelled.

The phases sent alternate (`PublishedAlternates`); because of the LIFO
pop, those a slow consumer receives need not (`ReceivedMayRepeat`: three
alternating sends received as Red, Green, Green).

`Perform` ties the trace semantics `Run` to the class: running a trace
through `MessageQueue.Send` and `MessageQueue.Receive` on an object hands
out exactly what `Run` says and leaves the buffer `Run` says, so the
lemmas about `Run` hold of the object.

## Model

| member | source | states |
|---|---|---|
| `MessageQueues.MessageQueue.Send` | src/TrafficLight.cpp:19-29 | the message is appended at the back: the length grows by one and every earlier message stays where it was |
| `MessageQueues.MessageQueue.Receive` | src/TrafficLight.cpp:6-17 | on a non-empty buffer (the wait predicate of line 13), returns the most recently sent message still in the buffer and leaves the buffer without it |
| `MessageQueues.SendThenReceive` | src/TrafficLight.cpp:14-26 | `send(x)` followed at once by `receive()` returns `x` and leaves the buffer exactly as it was before the send |
| `MessageQueues.Perform` | src/TrafficLight.cpp:6-29 | executing a trace that does not block with the object's own `Send` and `Receive` yields the messages and the final buffer that `Run` gives for the old buffer |
| `MessageQueues.RunAfterSends` | src/TrafficLight.cpp:26 | a run of sends only appends its messages behind what is pending, whatever follows |
| `MessageQueues.ReceivesAfterSends` | src/TrafficLight.cpp:14-15 | receiving as many times as messages were pushed on top of a buffer returns them newest first and uncovers the buffer underneath |
| `MessageQueues.StackDiscipline` | src/TrafficLight.cpp:6-29 | sending `xs` and then receiving once per message of `xs` hands out `xs` reversed and restores the buffer: LIFO order |
| `MessageQueues.HandOffPreservesOrder` | src/TrafficLight.cpp:6-29 | when every send is followed by a receive (single-slot use), each message is received exactly once, in the order sent |
| `MessageQueues.LateReceive` | src/TrafficLight.cpp:14-15 | after sends of `a`, `b`, a receive, and another send of `a`, the next two receives both return `a` |
| `MessageQueues.RunConserves` | src/TrafficLight.cpp:6-29 | for any trace that does not block, the messages received plus those left pending are, as a multiset, those pending at the start plus those sent: no loss, no duplication |
| `TrafficLights.Toggle` | src/TrafficLight.cpp:91-98 | a toggle always yields the other phase |
| `TrafficLights.PhaseAfter` | src/TrafficLight.cpp:91-98 | after `n` toggles the light is back at its starting phase exactly when `n` is even (so two toggles restore the phase) |
| `TrafficLights.PublishedAt` | src/TrafficLight.cpp:91-104 | the `i`-th phase sent is the phase after `i + 1` toggles, because the phase sent is the freshly toggled current phase |
| `TrafficLights.PublishedAlternates` | src/TrafficLight.cpp:91-104 | the sent phases strictly alternate and the first is the phase the light was not in (`green` for a fresh light) |
| `TrafficLights.PublishedPrefix` | src/TrafficLight.cpp:91-104 | the first `k` of `n` sent phases are exactly what `k` toggles send |
| `TrafficLights.Toggles` | src/TrafficLight.cpp:89 | no iteration toggles exactly when every elapsed time is below 4 seconds, and every iteration toggles exactly when each is at least 4 |
| `TrafficLights.BeforeLastGreen` | src/TrafficLight.cpp:45-51 | the buffer left by `waitForGreen` is a proper prefix of the old one, cut just before a `green` that is followed only by `red`s |
| `TrafficLights.BeforeLastGreenAt` | src/TrafficLight.cpp:45-51 | that cut is unique: the `green` followed only by `red`s is where `waitForGreen` stops |
| `TrafficLights.WaitForGreenReceives` | src/TrafficLight.cpp:45-51 | `waitForGreen` amounts to receives that take the trailing `red`s and then the last `green`, after which it stops |
| `TrafficLights.WaitForGreenAfterRun` | src/TrafficLight.cpp:45-51 | from a fresh light that toggled `n >= 1` times, the first phase sent is `green`, and `waitForGreen` leaves what the first `n - 1` (odd `n`) or `n - 2` (even `n`) toggles sent |
| `TrafficLights.ReceivedMayRepeat` | src/TrafficLight.cpp:14-15 | the phases sent by three toggles alternate, but with one receive between the second and third toggle the consumer gets Red, Green, Green |
| `TrafficLights.TrafficLight.constructor` | src/TrafficLight.cpp:35-38 | a new light is `red`, has sent nothing, and its buffer is empty |
| `TrafficLights.TrafficLight.GetCurrentPhase` | src/TrafficLight.cpp:54-57 | the phase read is the last phase sent, and it is `red` exactly when the light has toggled an even number of times |
| `TrafficLights.TrafficLight.Step` | src/TrafficLight.cpp:85-108 | with at least 4 seconds elapsed, the phase flips and the new phase is sent, so the back of the buffer equals the current phase; below 4 seconds neither the phase nor the buffer changes; the alternation invariant is kept |
| `TrafficLights.TrafficLight.CycleThroughPhases` | src/TrafficLight.cpp:70-112 | a bounded run of the loop appends to the buffer exactly the alternating phases of its toggles, and ends in the phase reached after that many toggles |
| `TrafficLights.TrafficLight.WaitForGreen` | src/TrafficLight.cpp:40-52 | given a buffer holding a `green`, it terminates; the last message it took was `green`; the buffer becomes the old one cut just before its last `green`; the phase and the history do not change |
| `TrafficLights.WaitThenRead` | src/TrafficLight.cpp:35-57 | for a fresh light that ran its loop with at least one toggle, then waited for green, then read its phase: the read is `green` exactly when the number of toggles is odd |

## Left out

- The mutex, `unique_lock`/`lock_guard` and the condition variable's wait and notify (lines 12-13, 24, 28). Blocking and delivery between threads are concurrency. The method `Receive` instead requires a non-empty buffer. In `Run`, a receive on an empty buffer gives `Blocked`. Line 13 waits on `_conition` while line 28 notifies `_condition`; whether these are two members of the class (in which case a receive on an empty buffer is never woken) depends on the header, and this pairing is out of scope.
- TrafficLights.TrafficLight.WaitForGreen: requires a Green in the buffer. On a buffer without one, the source receives every Red and then blocks in `receive` (line 13) until a later send; the model does not represent that wait.
- `simulate` (line 66) starts the phase loop on a thread kept in the base class. Thread creation is not modelled. `CycleThroughPhases` is the loop itself, run in the caller's thread.
- The clock: `system_clock` readings, `lastUpdate` and `duration<double>` (lines 77-89, 99). They are replaced by the whole seconds elapsed since the last toggle, which the caller passes to `Step`. Taking a fresh reading after a toggle is therefore not modelled.
- `sleep_for` (line 107): it only affects timing.
- TrafficLights.TrafficLight.CycleThroughPhases: runs the `while (true)` loop of line 82 once for each given elapsed time rather than forever, since non-termination cannot be modelled by a method that returns.
- The random 4–6 second cycle duration described in the comment at line 75: the code does not implement it.
- TrafficLight.h is not part of this model. The queue's initial emptiness is taken from the default-constructed deque, and the phase enum from its two uses in the code.
