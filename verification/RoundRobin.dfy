/** Round robin: the place of a process in the queue says at which interrupt its turn comes. */
module RoundRobin {
  import opened Common
  import opened SchedulerSpec
  import opened WaitProtocol

  /** The number of interrupts among the steps in [s, n). */
  function Interrupts(events: seq<Event>, s: nat, n: nat): nat
    requires s <= n <= |events|
  {
    if s == n then 0
    else Interrupts(events, s, n - 1) + if events[n - 1].Interrupt? then 1 else 0
  }

  predicate At(k: Kernel, i: nat, w: nat) {
    i < |k.queue| && k.queue[i] == w
  }

  /** One step moves a queued process forward by one place if it is an interrupt, not at all
      if it is not. */
  lemma StepMoves(k: Kernel, e: Event, i: nat, w: nat)
    requires Enabled(k, e) && At(k, i, w)
    ensures !e.Interrupt? ==> At(Next(k, e), i, w)
    ensures e.Interrupt? && i > 0 ==> At(Next(k, e), i - 1, w)
    ensures e.Interrupt? && i == 0 ==> Popped(k) == w
  {
    hide GetProcess, WaitTarget;
  }

  lemma NotPoppedEarly(k: Kernel, i: nat, w: nat)
    requires Inv(k) && At(k, i, w) && i > 0
    ensures Popped(k) != w
  {
    hide BlockOk, ListenersOk, OwnerOk, ActiveListed, Exclusive;
  }

  /** After j interrupts, j <= i, the process at place i is at place i - j, whatever exits, waits,
      schedules and user code come between. */
  lemma {:induction false} Advances(states: seq<Kernel>, events: seq<Event>, s: nat, n: nat, i: nat, w: nat)
    requires IsRun(states, events) && s <= n <= |events|
    requires At(states[s], i, w) && Interrupts(events, s, n) <= i
    ensures At(states[n], i - Interrupts(events, s, n), w)
  {
    hide Next, Enabled;
    if s < n {
      Advances(states, events, s, n - 1, i, w);
      assert IsStep(states[n - 1], events[n - 1], states[n]);
      StepMoves(states[n - 1], events[n - 1], i - Interrupts(events, s, n - 1), w);
    }
  }

  /** The process at place i is taken by exactly the (i+1)-th following interrupt. */
  lemma TurnComesExactly(states: seq<Kernel>, events: seq<Event>, s: nat, n: nat, i: nat, w: nat)
    requires IsRun(states, events) && s <= n < |events| && events[n].Interrupt?
    requires At(states[s], i, w) && Interrupts(events, s, n) <= i
    ensures Popped(states[n]) == w <==> Interrupts(events, s, n) == i
  {
    hide Next, Enabled, Inv, Popped;
    var j := Interrupts(events, s, n);
    Advances(states, events, s, n, i, w);
    EveryRunKeepsInv(states, events, n);
    assert IsStep(states[n], events[n], states[n + 1]);
    if j < i {
      NotPoppedEarly(states[n], i - j, w);
    } else {
      StepMoves(states[n], events[n], 0, w);
    }
  }

  /** The step that is the (i+1)-th interrupt from `s` on. */
  lemma {:induction false} NthInterrupt(events: seq<Event>, s: nat, n: nat, i: nat) returns (d: nat)
    requires s <= n <= |events| && Interrupts(events, s, n) > i
    ensures s <= d < n && events[d].Interrupt? && Interrupts(events, s, d) == i
  {
    if Interrupts(events, s, n - 1) > i {
      d := NthInterrupt(events, s, n - 1, i);
    } else {
      d := n - 1;
    }
  }

  lemma {:induction false} InterruptsGrow(events: seq<Event>, s: nat, m: nat, n: nat)
    requires s <= m <= n <= |events|
    ensures Interrupts(events, s, m) <= Interrupts(events, s, n)
  {
    if m < n {
      InterruptsGrow(events, s, m, n - 1);
    }
  }

  lemma Place(k: Kernel, w: nat) returns (i: nat)
    requires w in k.queue
    ensures At(k, i, w)
  {
    i :| i < |k.queue| && k.queue[i] == w;
  }

  /** A released waiter is back on the processor, with its result, within as many interrupts as
      there are queued processes, and it is the first interrupt to take it that resumes it. */
  lemma ReleasedRunsSoon(states: seq<Kernel>, events: seq<Event>, s: nat, n: nat,
      w: nat, b: nat, pid: nat, loc: nat, code: nat) returns (d: nat)
    requires IsRun(states, events) && s <= n <= |events|
    requires ReleasedWith(states[s], w, b, pid, loc, code)
    requires Interrupts(events, s, n) >= |states[s].queue|
    ensures s <= d < n && Interrupts(events, s, d) < |states[s].queue|
    ensures Resumed(states[d + 1], w, pid, loc, code)
    ensures forall m :: s <= m <= d ==> NotRunning(states[m], w)
  {
    hide Next, Enabled, Inv, Popped, Resumed, NotRunning;
    EveryRunKeepsInv(states, events, s);
    var i := Place(states[s], w);
    d := NthInterrupt(events, s, n, i);
    forall m | s <= m <= d
      ensures ReleasedWith(states[m], w, b, pid, loc, code) && NotRunning(states[m], w)
    {
      forall m' | s <= m' < m && events[m'].Interrupt?
        ensures Popped(states[m']) != w
      {
        InterruptsGrow(events, s, m' + 1, d);
        TurnComesExactly(states, events, s, m', i, w);
      }
      ReleasedUntilPopped(states, events, s, m, w, b, pid, loc, code);
    }
    TurnComesExactly(states, events, s, d, i, w);
    EveryRunKeepsInv(states, events, d);
    assert IsStep(states[d], events[d], states[d + 1]);
    ReleasedStep(states[d], events[d], w, b, pid, loc, code);
  }

  /** The turn of a process that still waits strands whatever code is on the processor then. */
  lemma WaitersTurnStrands(states: seq<Kernel>, events: seq<Event>, s: nat, n: nat, i: nat,
      w: nat, b: nat, q: nat, pid: nat, loc: nat)
    requires IsRun(states, events) && s <= n < |events| && events[n].Interrupt?
    requires At(states[s], i, w) && Interrupts(events, s, n) == i
    requires WaitsFor(states[s], w, b, q, pid, loc) && NoEnd(states, events, q, s, n)
    ensures states[n].registerBlock != 0 <==> Stranded(states[n + 1])
    ensures states[n + 1].registerBlock == states[n].registerBlock
  {
    hide Next, Enabled, Inv;
    TurnComesExactly(states, events, s, n, i, w);
    WaitsUntilEnd(states, events, s, n, w, b, q, pid, loc);
    EveryRunKeepsInv(states, events, n);
    assert IsStep(states[n], events[n], states[n + 1]);
    StrandedExactly(states[n], events[n]);
    WaiterIsTaken(states[n], w, b, q, pid, loc);
  }

  lemma WaiterIsTaken(k: Kernel, w: nat, b: nat, q: nat, pid: nat, loc: nat)
    requires Inv(k) && WaitsFor(k, w, b, q, pid, loc) && Popped(k) == w
    ensures Requeued(k) != [] && Requeued(k)[0] == w && IsBlocking(k, w)
    ensures Next(k, Event.Interrupt).registerBlock == k.registerBlock
  {
    assert OwnerOk(k, b);
  }
}
