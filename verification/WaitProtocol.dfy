/** What a waiting process observes over every run of the scheduler. */
module WaitProtocol {
  import opened Common
  import opened SchedulerSpec

  /** Process `w` waits, with block `b`, for process `q` that holds `pid`. */
  predicate WaitsFor(k: Kernel, w: nat, b: nat, q: nat, pid: nat, loc: nat) {
    && w in k.queue && w in k.procs && k.procs[w].block == b
    && b in k.blocks && k.blocks[b].active && k.blocks[b].statusLoc == loc && k.blocks[b].caller == w
    && q in k.procs && b in k.procs[q].listeners && k.procs[q].pid == pid
  }

  /** The wait of `w` is over with result `pid` and status `code`, but `w` has not run yet. */
  predicate ReleasedWith(k: Kernel, w: nat, b: nat, pid: nat, loc: nat, code: nat) {
    && w in k.queue && w in k.procs && k.procs[w].block == b
    && b in k.blocks && !k.blocks[b].active && k.blocks[b].statusLoc == loc && k.blocks[b].caller == w
    && k.blocks[b].terminatedPid == pid && k.blocks[b].exitCode == code
  }

  /** `w` has been put back on the processor with the result of its wait. */
  predicate Resumed(k: Kernel, w: nat, pid: nat, loc: nat, code: nat) {
    && k.current == w && k.registerBlock == w && w in k.procs
    && k.procs[w].block == 0 && k.procs[w].r0 == pid
    && (loc != 0 ==> loc in MemoryOf(k, w) && MemoryOf(k, w)[loc] == code)
  }

  predicate Ends(k: Kernel, e: Event, q: nat) {
    e.Exit? && k.current == q
  }

  /** The process an interrupt takes from the queue, or null. */
  function Popped(k: Kernel): nat {
    if Requeued(k) == [] then 0 else Requeued(k)[0]
  }

  // ----- single steps

  lemma WaitStarts(k: Kernel, pid: nat, loc: nat, b: nat, garbage: nat)
    requires Inv(k) && Enabled(k, Wait(pid, loc, b, garbage))
    ensures var k', q := Next(k, Wait(pid, loc, b, garbage)), WaitTarget(k, pid);
      if q != 0 then WaitsFor(k', k.current, b, q, pid, loc)
      else ReleasedWith(k', k.current, b, 0xffff_ffff, loc, garbage)
  {
    hide GetProcess, WaitTarget;
    WaitShape(k, pid, loc, b, garbage);
  }

  lemma WaitingStep(k: Kernel, e: Event, w: nat, b: nat, q: nat, pid: nat, loc: nat)
    requires Inv(k) && Enabled(k, e) && WaitsFor(k, w, b, q, pid, loc)
    ensures if Ends(k, e, q) then ReleasedWith(Next(k, e), w, b, pid, loc, e.code)
            else WaitsFor(Next(k, e), w, b, q, pid, loc)
  {
    hide NoRepeats, OwnerOk, ActiveListed, GetProcess, WaitTarget;
    assert BlockOk(k, w) && ListenersOk(k, q);
    match e
    case Create(_, _, _) =>
    case Schedule(_) =>
    case Execute(r0, memory, shared) => ExecuteShape(k, r0, memory, shared);
    case Interrupt => WaitingInterrupt(k, w, b, q, pid, loc);
    case Exit(code) =>
    case Wait(p, l, c, g) => WaitShape(k, p, l, c, g);
  }

  /** An interrupt keeps the objects of every process but the one it dispatches. */
  lemma InterruptShape(k: Kernel, w: nat)
    requires Inv(k) && w in k.queue && w in k.procs
    ensures var k', p := InterruptStep(k), Popped(k);
      && Requeued(k) != [] && p in k.procs
      && (if IsBlocking(k, p) then k'.queue == Requeued(k)[1..] + [p] && k'.procs == k.procs && k'.blocks == k.blocks
          else k' == Dispatch(k, p, Requeued(k)[1..]))
      && (w in k'.queue || (w == p && !IsBlocking(k, p)))
  {
    hide NoRepeats, ActiveListed, Exclusive, ListenersOk, BlockOk, OwnerOk, Dispatch, IsBlocking;
    RequeuedIsLive(k);
    var p := Popped(k);
    assert w in Requeued(k);
    assert Requeued(k) == [p] + Requeued(k)[1..];
    DispatchQueue(k, p, Requeued(k)[1..]);
  }

  lemma DispatchQueue(k: Kernel, p: nat, rest: seq<nat>)
    ensures Dispatch(k, p, rest).queue == rest
  {
  }

  lemma WaitingInterrupt(k: Kernel, w: nat, b: nat, q: nat, pid: nat, loc: nat)
    requires Inv(k) && WaitsFor(k, w, b, q, pid, loc)
    ensures WaitsFor(InterruptStep(k), w, b, q, pid, loc)
  {
    hide QueueOk, ActiveListed, Exclusive, ListenersOk, InterruptStep, Popped, Requeued;
    InterruptShape(k, w);
    assert BlockOk(k, Popped(k)) && OwnerOk(k, b);
  }

  lemma ReleasedStep(k: Kernel, e: Event, w: nat, b: nat, pid: nat, loc: nat, code: nat)
    requires Inv(k) && Enabled(k, e) && ReleasedWith(k, w, b, pid, loc, code)
    ensures if e.Interrupt? && Popped(k) == w then Resumed(Next(k, e), w, pid, loc, code)
            else ReleasedWith(Next(k, e), w, b, pid, loc, code)
  {
    hide NoRepeats, OwnerOk, ActiveListed, GetProcess, WaitTarget;
    assert BlockOk(k, w);
    match e
    case Create(_, _, _) =>
    case Schedule(_) =>
    case Execute(r0, memory, shared) => ExecuteShape(k, r0, memory, shared);
    case Interrupt => ReleasedInterrupt(k, w, b, pid, loc, code);
    case Exit(c) => NotListed(k, b, k.current);
    case Wait(p, l, c, g) => WaitShape(k, p, l, c, g);
  }

  lemma NotListed(k: Kernel, b: nat, p: nat)
    requires Inv(k) && b in k.blocks && !k.blocks[b].active && p in k.procs
    ensures b !in k.procs[p].listeners
  {
    assert ListenersOk(k, p);
  }

  lemma ReleasedInterrupt(k: Kernel, w: nat, b: nat, pid: nat, loc: nat, code: nat)
    requires Inv(k) && ReleasedWith(k, w, b, pid, loc, code)
    ensures if Popped(k) == w then Resumed(InterruptStep(k), w, pid, loc, code)
            else ReleasedWith(InterruptStep(k), w, b, pid, loc, code)
  {
    hide QueueOk, ActiveListed, Exclusive, ListenersOk, InterruptStep, Popped, Requeued;
    InterruptShape(k, w);
    assert BlockOk(k, Popped(k)) && OwnerOk(k, b);
  }

  // ----- runs

  /** No process `q` that `w` waits for ends at a step in [s, n). */
  predicate NoEnd(states: seq<Kernel>, events: seq<Event>, q: nat, s: nat, n: nat)
    requires n <= |events| && |states| == |events| + 1
  {
    forall m :: s <= m < n ==> !Ends(states[m], events[m], q)
  }

  predicate NotRunning(k: Kernel, w: nat) {
    k.current != w && k.registerBlock != w
  }

  lemma WaitersDoNotRun(k: Kernel, w: nat, b: nat, q: nat, pid: nat, loc: nat)
    requires Inv(k) && WaitsFor(k, w, b, q, pid, loc)
    ensures NotRunning(k, w)
  {
    assert BlockOk(k, w);
    assert OwnerOk(k, b);
  }

  lemma ReleasedDoNotRun(k: Kernel, w: nat, b: nat, pid: nat, loc: nat, code: nat)
    requires Inv(k) && ReleasedWith(k, w, b, pid, loc, code)
    ensures NotRunning(k, w)
  {
    assert OwnerOk(k, b);
  }

  /** As long as `q` lives, `w` keeps waiting and is never on the processor. */
  lemma {:induction false} WaitsUntilEnd(states: seq<Kernel>, events: seq<Event>, s: nat, n: nat,
      w: nat, b: nat, q: nat, pid: nat, loc: nat)
    requires IsRun(states, events) && s <= n <= |events|
    requires WaitsFor(states[s], w, b, q, pid, loc) && NoEnd(states, events, q, s, n)
    ensures WaitsFor(states[n], w, b, q, pid, loc) && NotRunning(states[n], w)
  {
    hide Inv, WaitsFor, NotRunning, Next, Enabled;
    EveryRunKeepsInv(states, events, n);
    if s < n {
      WaitsUntilEnd(states, events, s, n - 1, w, b, q, pid, loc);
      EveryRunKeepsInv(states, events, n - 1);
      assert IsStep(states[n - 1], events[n - 1], states[n]);
      WaitingStep(states[n - 1], events[n - 1], w, b, q, pid, loc);
    }
    WaitersDoNotRun(states[n], w, b, q, pid, loc);
  }

  /** A released waiter stays as it is until an interrupt takes it from the queue. */
  lemma {:induction false} ReleasedUntilPopped(states: seq<Kernel>, events: seq<Event>, s: nat, n: nat,
      w: nat, b: nat, pid: nat, loc: nat, code: nat)
    requires IsRun(states, events) && s <= n <= |events|
    requires ReleasedWith(states[s], w, b, pid, loc, code)
    requires forall m :: s <= m < n ==> !(events[m].Interrupt? && Popped(states[m]) == w)
    ensures ReleasedWith(states[n], w, b, pid, loc, code) && NotRunning(states[n], w)
  {
    hide Inv, ReleasedWith, NotRunning, Next, Enabled, Popped;
    EveryRunKeepsInv(states, events, n);
    if s < n {
      ReleasedUntilPopped(states, events, s, n - 1, w, b, pid, loc, code);
      EveryRunKeepsInv(states, events, n - 1);
      assert IsStep(states[n - 1], events[n - 1], states[n]);
      ReleasedStep(states[n - 1], events[n - 1], w, b, pid, loc, code);
    }
    ReleasedDoNotRun(states[n], w, b, pid, loc, code);
  }

  /** The step at which a process that was off the processor comes back on. */
  predicate ComesBack(states: seq<Kernel>, s: nat, n: nat, w: nat)
    requires s < n < |states|
  {
    !NotRunning(states[n], w) && forall j :: s < j < n ==> NotRunning(states[j], w)
  }

  /** No process that could be waited for: the pid means "any child", or no queued process has it. */
  ghost predicate Nobody(k: Kernel, pid: nat) {
    pid == 0xffff_ffff || pid == 0 || forall p :: p in k.queue ==> ProcAt(k, p).pid != pid
  }

  lemma NobodyExactly(k: Kernel, pid: nat)
    requires Inv(k)
    ensures WaitTarget(k, pid) == 0 <==> Nobody(k, pid)
    ensures WaitTarget(k, pid) != 0 ==> WaitTarget(k, pid) in k.queue && ProcAt(k, WaitTarget(k, pid)).pid == pid
  {
    hide NoRepeats, BlockOk, ListenersOk, OwnerOk, ActiveListed, Exclusive, GetProcess;
    GetProcessFinds(k.queue, k.procs, pid);
    assert forall p :: p in k.queue ==> p in Live(k);
  }

  /** A process that waits for a queued pid next runs only after a process holding that pid, the
      one the wait found, has ended, and then finds that pid in r0 and that exit code in its
      status word. */
  lemma WaitResult(states: seq<Kernel>, events: seq<Event>, s: nat, n: nat) returns (q: nat, m: nat)
    requires IsRun(states, events) && s < n <= |events|
    requires events[s].Wait? && !Nobody(states[s], events[s].waitPid)
    requires ComesBack(states, s, n, states[s].current)
    ensures q in states[s].queue && ProcAt(states[s], q).pid == events[s].waitPid
    ensures s < m < n && Ends(states[m], events[m], q) && NoEnd(states, events, q, s + 1, m)
    ensures Resumed(states[n], states[s].current, events[s].waitPid, events[s].statusLoc, events[m].code)
  {
    hide Inv, WaitsFor, ReleasedWith, Next, Enabled, WaitTarget, Resumed, NotRunning, Popped, Ends, Nobody, ProcAt;
    var w, e := states[s].current, events[s];
    q := WaitTarget(states[s], e.waitPid);
    EveryRunKeepsInv(states, events, s);
    NobodyExactly(states[s], e.waitPid);
    assert IsStep(states[s], e, states[s + 1]);
    WaitStarts(states[s], e.waitPid, e.statusLoc, e.block, e.garbage);
    if NoEnd(states, events, q, s + 1, n) {
      WaitsUntilEnd(states, events, s + 1, n, w, e.block, q, e.waitPid, e.statusLoc);
      assert false;
    }
    m := FirstEnd(states, events, q, s + 1, n);
    WaitsUntilEnd(states, events, s + 1, m, w, e.block, q, e.waitPid, e.statusLoc);
    EveryRunKeepsInv(states, events, m);
    assert IsStep(states[m], events[m], states[m + 1]);
    WaitingStep(states[m], events[m], w, e.block, q, e.waitPid, e.statusLoc);
    ReleasedComesBack(states, events, s, m + 1, n, w, e.block, e.waitPid, e.statusLoc, events[m].code);
  }

  /** A wait on a pid that no queued process holds returns -1 at the caller's next dispatch. */
  lemma WaitOnNobody(states: seq<Kernel>, events: seq<Event>, s: nat, n: nat)
    requires IsRun(states, events) && s < n <= |events|
    requires events[s].Wait? && Nobody(states[s], events[s].waitPid)
    requires ComesBack(states, s, n, states[s].current)
    ensures Resumed(states[n], states[s].current, 0xffff_ffff, events[s].statusLoc, events[s].garbage)
  {
    hide Inv, WaitsFor, ReleasedWith, Next, Enabled, WaitTarget, Resumed, NotRunning, Popped, Nobody;
    var w, e := states[s].current, events[s];
    EveryRunKeepsInv(states, events, s);
    NobodyExactly(states[s], e.waitPid);
    assert IsStep(states[s], e, states[s + 1]);
    WaitStarts(states[s], e.waitPid, e.statusLoc, e.block, e.garbage);
    ReleasedComesBack(states, events, s, s + 1, n, w, e.block, 0xffff_ffff, e.statusLoc, e.garbage);
  }

  lemma ReleasedComesBack(states: seq<Kernel>, events: seq<Event>, s: nat, r: nat, n: nat,
      w: nat, b: nat, pid: nat, loc: nat, code: nat)
    requires IsRun(states, events) && s < r <= n <= |events|
    requires ReleasedWith(states[r], w, b, pid, loc, code) && ComesBack(states, s, n, w)
    ensures Resumed(states[n], w, pid, loc, code)
  {
    hide Inv, ReleasedWith, Next, Enabled, Resumed, Popped;
    EveryRunKeepsInv(states, events, r);
    ReleasedDoNotRun(states[r], w, b, pid, loc, code);
    if forall m :: r <= m < n ==> !(events[m].Interrupt? && Popped(states[m]) == w) {
      ReleasedUntilPopped(states, events, r, n, w, b, pid, loc, code);
      assert false;
    }
    var d := FirstPop(states, events, w, r, n);
    ReleasedUntilPopped(states, events, r, d, w, b, pid, loc, code);
    EveryRunKeepsInv(states, events, d);
    assert IsStep(states[d], events[d], states[d + 1]);
    ReleasedStep(states[d], events[d], w, b, pid, loc, code);
    ResumedRuns(states[d + 1], w, pid, loc, code);
  }

  lemma ResumedRuns(k: Kernel, w: nat, pid: nat, loc: nat, code: nat)
    requires Resumed(k, w, pid, loc, code)
    ensures !NotRunning(k, w)
  {
  }

  lemma {:induction false} FirstEnd(states: seq<Kernel>, events: seq<Event>, q: nat, s: nat, n: nat) returns (m: nat)
    requires s <= n <= |events| && |states| == |events| + 1 && !NoEnd(states, events, q, s, n)
    ensures s <= m < n && Ends(states[m], events[m], q) && NoEnd(states, events, q, s, m)
  {
    if NoEnd(states, events, q, s, n - 1) {
      m := n - 1;
    } else {
      m := FirstEnd(states, events, q, s, n - 1);
    }
  }

  lemma {:induction false} FirstPop(states: seq<Kernel>, events: seq<Event>, w: nat, s: nat, n: nat) returns (d: nat)
    requires s <= n <= |events| && |states| == |events| + 1
    requires exists m :: s <= m < n && events[m].Interrupt? && Popped(states[m]) == w
    ensures s <= d < n && events[d].Interrupt? && Popped(states[d]) == w
    ensures forall m :: s <= m < d ==> !(events[m].Interrupt? && Popped(states[m]) == w)
  {
    if exists m :: s <= m < n - 1 && events[m].Interrupt? && Popped(states[m]) == w {
      d := FirstPop(states, events, w, s, n - 1);
    } else {
      d := n - 1;
    }
  }
}
