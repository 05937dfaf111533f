/** Pids over whole runs: every new process gets its pid from the allocator. */
module PidRuns {
  import opened Arithmetic
  import opened Common
  import opened Pids
  import opened SchedulerSpec
  import opened WaitProtocol

  /** The pids of the queued processes. */
  ghost function QueuedPids(k: Kernel): (r: set<nat>)
    ensures |r| <= |k.queue|
    ensures forall pid :: pid in r <==> exists p :: p in k.queue && ProcAt(k, p).pid == pid
  {
    QueuedPidsCount(k);
    set p | p in k.queue :: ProcAt(k, p).pid
  }

  lemma QueuedPidsCount(k: Kernel)
    ensures |set p | p in k.queue :: ProcAt(k, p).pid| <= |k.queue|
  {
    hide ProcAt;
    assert (set p | p in k.queue :: ProcAt(k, p).pid) == PidsOf(k, k.queue);
  }

  ghost function {:induction false} PidsOf(k: Kernel, q: seq<nat>): (r: set<nat>)
    ensures |r| <= |q|
    ensures forall pid :: pid in r <==> exists p :: p in q && ProcAt(k, p).pid == pid
  {
    if q == [] then {} else
      var n := |q| - 1;
      assert q == q[..n] + [q[n]];
      PidsOf(k, q[..n]) + {ProcAt(k, q[n]).pid}
  }

  lemma QueuedProc(k: Kernel, i: nat)
    requires i < |k.queue| && k.queue[i] in k.procs
    ensures ProcAt(k, k.queue[i]) == k.procs[k.queue[i]] && k.procs[k.queue[i]].pid in QueuedPids(k)
  {
    assert k.queue[i] in k.queue;
  }

  // ----- runs with allocated pids

  /** The scheduler together with its pid counter. */
  datatype Numbered = Numbered(kernel: Kernel, next: Word)

  /** A new process gets the next pid that no queued process holds; it is queued later, if at all. */
  ghost predicate IsNumberedStep(s: Numbered, e: Event, s': Numbered) {
    && IsStep(s.kernel, e, s'.kernel)
    && if e.Create? then
         && |s.kernel.queue| < U32
         && FirstFree(s.next, QueuedPids(s.kernel), e.pid) && s'.next == Wrap(e.pid + 1)
       else
         s'.next == s.next
  }

  ghost predicate IsNumberedRun(states: seq<Numbered>, events: seq<Event>) {
    && |states| == |events| + 1 && states[0] == Numbered(BOOT, 2)
    && forall i :: 0 <= i < |events| ==> IsNumberedStep(states[i], events[i], states[i + 1])
  }

  ghost predicate PidsDiffer(k: Kernel) {
    forall p, q :: p in k.procs && q in k.procs && p != q ==> k.procs[p].pid != k.procs[q].pid
  }

  /** A process is created while one that is not queued holds the pid it gets. */
  ghost predicate Clash(s: Numbered, e: Event) {
    e.Create? && exists p :: Unseen(s.kernel, p) && s.kernel.procs[p].pid == e.pid
  }

  /** A process outside the queue: the running one, or one that is constructed but not scheduled. */
  predicate Unseen(k: Kernel, p: nat) {
    p in k.procs && p !in k.queue
  }

  lemma UnseenExactly(k: Kernel, p: nat)
    requires Inv(k)
    ensures Unseen(k, p) <==> (p == k.current && p != 0) || p in k.unqueued
  {
  }

  /** A step keeps the pids of all processes different if and only if it is no clash. */
  lemma StepKeepsPidsExactly(s: Numbered, e: Event, s': Numbered)
    requires Inv(s.kernel) && PidsDiffer(s.kernel) && IsNumberedStep(s, e, s')
    ensures PidsDiffer(s'.kernel) <==> !Clash(s, e)
  {
    hide NoRepeats, BlockOk, ListenersOk, OwnerOk, ActiveListed, Exclusive, QueuedPids, Follows, PidsDiffer, Live;
    if e.Create? {
      NewPidIsNotQueued(s, e);
      OneMorePid(s.kernel, e.proc, e.pid, e.origin);
      assert forall p :: p in s.kernel.procs && s.kernel.procs[p].pid == e.pid ==> Unseen(s.kernel, p);
    } else {
      PidsKept(s.kernel, e);
      SamePids(s.kernel, s'.kernel);
    }
  }

  lemma OneMorePid(k: Kernel, p: nat, pid: nat, origin: Origin)
    requires PidsDiffer(k) && p !in k.procs
    ensures PidsDiffer(CreateStep(k, p, pid, origin)) <==> forall q :: q in k.procs ==> k.procs[q].pid != pid
  {
    var k' := CreateStep(k, p, pid, origin);
    forall q | q in k.procs && k.procs[q].pid == pid
      ensures !PidsDiffer(k')
    {
      assert k'.procs[q].pid == k'.procs[p].pid;
    }
  }

  lemma SamePids(k: Kernel, k': Kernel)
    requires PidsDiffer(k)
    requires forall p :: p in k'.procs ==> p in k.procs && k'.procs[p].pid == k.procs[p].pid
    ensures PidsDiffer(k')
  {
  }

  lemma NewPidIsNotQueued(s: Numbered, e: Event)
    requires Inv(s.kernel) && e.Create? && e.pid !in QueuedPids(s.kernel)
    ensures forall p :: p in s.kernel.queue ==> p in s.kernel.procs && s.kernel.procs[p].pid != e.pid
  {
    hide NoRepeats, BlockOk, ListenersOk, OwnerOk, ActiveListed, Exclusive;
    var k := s.kernel;
    forall p | p in k.queue
      ensures p in k.procs && k.procs[p].pid != e.pid
    {
      assert p in Live(k);
      var i :| 0 <= i < |k.queue| && k.queue[i] == p;
      QueuedProc(k, i);
    }
  }

  /** No step but Create gives or changes a pid. */
  lemma PidsKept(k: Kernel, e: Event)
    requires Inv(k) && Enabled(k, e) && !e.Create?
    ensures forall p :: p in Next(k, e).procs ==> p in k.procs && Next(k, e).procs[p].pid == k.procs[p].pid
  {
    hide NoRepeats, BlockOk, ListenersOk, OwnerOk, ActiveListed, Exclusive;
    match e
    case Interrupt =>
      if Requeued(k) != [] {
        RequeuedIsLive(k);
        assert Requeued(k)[0] in Requeued(k);
      }
    case Schedule(_) =>
    case Exit(_) =>
    case Wait(pid, loc, b, garbage) => WaitShape(k, pid, loc, b, garbage);
    case Execute(r0, memory, shared) => ExecuteShape(k, r0, memory, shared);
  }

  /** In every run without a clash, all processes have different pids. */
  lemma {:induction false} PidsStayDifferent(states: seq<Numbered>, events: seq<Event>, n: nat)
    requires IsNumberedRun(states, events) && n <= |events|
    requires forall i :: 0 <= i < n ==> !Clash(states[i], events[i])
    ensures Inv(states[n].kernel) && PidsDiffer(states[n].kernel)
  {
    hide Inv, Clash;
    if n == 0 {
      BootOk();
    } else {
      PidsStayDifferent(states, events, n - 1);
      assert IsNumberedStep(states[n - 1], events[n - 1], states[n]);
      StepKeepsPidsExactly(states[n - 1], events[n - 1], states[n]);
      StepKeepsInv(states[n - 1].kernel, events[n - 1]);
    }
  }

  /** The allocator clashes exactly when the pid of a process outside the queue follows the counter
      with only queued pids in between. */
  lemma StepClashesExactly(s: Numbered, e: Event)
    requires Inv(s.kernel) && PidsDiffer(s.kernel)
    requires e.Create? && FirstFree(s.next, QueuedPids(s.kernel), e.pid)
    ensures Clash(s, e) <==>
      exists p, d: nat :: Unseen(s.kernel, p) && Follows(s.next, QueuedPids(s.kernel), s.kernel.procs[p].pid, d)
  {
    hide NoRepeats, BlockOk, ListenersOk, OwnerOk, ActiveListed, Exclusive, Follows, QueuedPids;
    forall p | Unseen(s.kernel, p)
      ensures s.kernel.procs[p].pid !in QueuedPids(s.kernel)
    {
      UnseenPidIsFree(s.kernel, p);
    }
    forall p | Unseen(s.kernel, p)
      ensures s.kernel.procs[p].pid == e.pid
          <==> exists d: nat :: Follows(s.next, QueuedPids(s.kernel), s.kernel.procs[p].pid, d)
    {
      ClashExactly(s.next, QueuedPids(s.kernel), e.pid, s.kernel.procs[p].pid);
    }
  }

  lemma UnseenPidIsFree(k: Kernel, p: nat)
    requires Inv(k) && PidsDiffer(k) && Unseen(k, p)
    ensures k.procs[p].pid !in QueuedPids(k)
  {
    hide NoRepeats, BlockOk, ListenersOk, OwnerOk, ActiveListed, Exclusive, QueuedPids;
    forall i | 0 <= i < |k.queue|
      ensures ProcAt(k, k.queue[i]).pid != k.procs[p].pid
    {
      assert k.queue[i] in k.queue && k.queue[i] in Live(k);
    }
  }

  // ----- a run that clashes

  /** Only the first process, a kernel thread, exists, and it is running. */
  const ALONE := Kernel([], 1, 1, 0, {}, map[1 := Proc(2, true, 0, [], 0, map[])], map[], map[], false)

  lemma Extend(states: seq<Numbered>, events: seq<Event>, e: Event, s: Numbered)
    requires IsNumberedRun(states, events) && IsNumberedStep(states[|events|], e, s)
    ensures IsNumberedRun(states + [s], events + [e])
  {
    hide IsNumberedStep;
    forall i | 0 <= i < |events + [e]|
      ensures IsNumberedStep((states + [s])[i], (events + [e])[i], (states + [s])[i + 1])
    {
      assert i < |events| ==> IsNumberedStep(states[i], events[i], states[i + 1]);
    }
  }

  /** With nobody queued the counter itself is handed out. */
  lemma CounterIsFree(k: Kernel, next: Word)
    requires k.queue == []
    ensures FirstFree(next, QueuedPids(k), next)
  {
    FirstCandidate(next);
    assert Follows(next, QueuedPids(k), next, 0);
  }

  /** The kernel after the running first thread has made a second one with this pid. */
  function WithChild(pid: nat): Kernel {
    ALONE.(unqueued := {2}, procs := ALONE.procs[2 := Proc(pid, true, 0, [], 0, map[])])
  }

  lemma ChildIsBorn(next: Word)
    ensures IsNumberedStep(Numbered(ALONE, next), Create(2, next, Thread), Numbered(WithChild(next), Wrap(next + 1)))
  {
    CounterIsFree(ALONE, next);
    hide Wrap, QueuedPids, FirstFree;
    assert Next(ALONE, Create(2, next, Thread)) == WithChild(next);
  }

  /** The second thread ends at its first turn, and the first runs on. */
  lemma ChildEnds(pid: nat)
    ensures var born := WithChild(pid);
      var ready := ScheduleStep(born, 2);
      var turn := InterruptStep(ready);
      var over := ExitStep(turn, 0);
      && IsStep(born, Schedule(2), ready) && IsStep(ready, Event.Interrupt, turn) && IsStep(turn, Exit(0), over)
      && IsStep(over, Event.Interrupt, ALONE)
  {
    var born := WithChild(pid);
    var ready := ScheduleStep(born, 2);
    assert ready == Kernel([2], 1, 1, 0, {}, born.procs, map[], map[], false);
    assert Requeued(ready) == [2, 1] && [2, 1][1..] == [1] && [1][1..] == [];
    var turn := InterruptStep(ready);
    assert turn == Kernel([1], 2, 2, 0, {}, born.procs, map[], map[], false);
    var over := ExitStep(turn, 0);
    assert born.procs - {2} == ALONE.procs;
    assert over == Kernel([1], 0, 0, 0, {}, ALONE.procs, map[], map[], false);
    assert InterruptStep(over) == ALONE;
  }

  /** Making a thread that ends at its first turn moves only the counter. */
  lemma Round(states: seq<Numbered>, events: seq<Event>, next: Word)
    returns (states': seq<Numbered>, events': seq<Event>)
    requires IsNumberedRun(states, events) && states[|events|] == Numbered(ALONE, next)
    ensures IsNumberedRun(states', events') && states'[|events'|] == Numbered(ALONE, Wrap(next + 1))
  {
    ChildIsBorn(next);
    ChildEnds(next);
    hide IsNumberedRun, IsStep, ScheduleStep, InterruptStep, ExitStep, WithChild;
    var born, after := WithChild(next), Wrap(next + 1);
    var ready := ScheduleStep(born, 2);
    var turn := InterruptStep(ready);
    var over := ExitStep(turn, 0);
    LengthOfRun(states, events);
    Extend(states, events, Create(2, next, Thread), Numbered(born, after));
    states', events' := states + [Numbered(born, after)], events + [Create(2, next, Thread)];
    Extend(states', events', Schedule(2), Numbered(ready, after));
    states', events' := states' + [Numbered(ready, after)], events' + [Schedule(2)];
    Extend(states', events', Event.Interrupt, Numbered(turn, after));
    states', events' := states' + [Numbered(turn, after)], events' + [Event.Interrupt];
    Extend(states', events', Exit(0), Numbered(over, after));
    states', events' := states' + [Numbered(over, after)], events' + [Exit(0)];
    Extend(states', events', Event.Interrupt, Numbered(ALONE, after));
    states', events' := states' + [Numbered(ALONE, after)], events' + [Event.Interrupt];
  }

  lemma LengthOfRun(states: seq<Numbered>, events: seq<Event>)
    requires IsNumberedRun(states, events)
    ensures |states| == |events| + 1
  {
  }

  lemma {:induction false} Rounds(n: nat) returns (states: seq<Numbered>, events: seq<Event>)
    ensures IsNumberedRun(states, events) && states[|events|] == Numbered(ALONE, Wrap(3 + n))
  {
    if n == 0 {
      CounterIsFree(BOOT, 2);
      WrapOnce(3);
      var made := Next(BOOT, Create(1, 2, Thread));
      var k := Next(made, Schedule(1));
      assert k.queue == [1] && [1][1..] == [] && k.unqueued == {};
      states, events := [Numbered(BOOT, 2)], [];
      Extend(states, events, Create(1, 2, Thread), Numbered(made, 3));
      states, events := states + [Numbered(made, 3)], events + [Create(1, 2, Thread)];
      Extend(states, events, Schedule(1), Numbered(k, 3));
      states, events := states + [Numbered(k, 3)], events + [Schedule(1)];
      Extend(states, events, Event.Interrupt, Numbered(ALONE, 3));
      states, events := states + [Numbered(ALONE, 3)], events + [Event.Interrupt];
    } else {
      states, events := Rounds(n - 1);
      WrapNext(2 + n);
      states, events := Round(states, events, Wrap(2 + n));
    }
  }

  lemma WrapNext(n: nat)
    ensures Wrap(Wrap(n) + 1) == Wrap(n + 1)
  {
  }

  /** Live processes can come to share a pid: after 2^32 - 1 threads that have ended the counter is
      back at the pid of the first one, which is running and therefore not looked at. */
  lemma ClashIsReachable() returns (states: seq<Numbered>, events: seq<Event>)
    ensures IsNumberedRun(states, events) && |events| > 1
    ensures Clash(states[|events| - 2], events[|events| - 2])
    ensures ProcAt(states[|events|].kernel, 1).pid == ProcAt(states[|events|].kernel, 2).pid == 2
    ensures Live(states[|events|].kernel) == {1, 2}
  {
    states, events := Rounds(U32 - 1);
    WrapOnce(3 + (U32 - 1));
    CounterIsFree(ALONE, 2);
    WrapOnce(3);
    var made := Numbered(Next(ALONE, Create(2, 2, Thread)), 3);
    var s := Numbered(Next(made.kernel, Schedule(2)), 3);
    assert s.kernel.queue == [2] && Unseen(ALONE, 1);
    Extend(states, events, Create(2, 2, Thread), made);
    states, events := states + [made], events + [Create(2, 2, Thread)];
    Extend(states, events, Schedule(2), s);
    states, events := states + [s], events + [Schedule(2)];
  }

  // ----- waits when pids differ

  ghost function Kernels(states: seq<Numbered>): (r: seq<Kernel>)
    ensures |r| == |states| && forall i :: 0 <= i < |states| ==> r[i] == states[i].kernel
  {
    seq(|states|, i requires 0 <= i < |states| => states[i].kernel)
  }

  lemma KernelsRun(states: seq<Numbered>, events: seq<Event>)
    requires IsNumberedRun(states, events)
    ensures IsRun(Kernels(states), events)
  {
    hide IsStep;
    forall i | 0 <= i < |events|
      ensures IsStep(Kernels(states)[i], events[i], Kernels(states)[i + 1])
    {
      assert IsNumberedStep(states[i], events[i], states[i + 1]);
    }
  }

  /** In a run without a clash, waiting on one's own pid returns -1 at the next dispatch. */
  lemma WaitOnSelf(states: seq<Numbered>, events: seq<Event>, s: nat, n: nat)
    requires IsNumberedRun(states, events) && s < n <= |events|
    requires forall i :: 0 <= i < s ==> !Clash(states[i], events[i])
    requires events[s].Wait? && events[s].waitPid == ProcAt(states[s].kernel, states[s].kernel.current).pid
    requires ComesBack(Kernels(states), s, n, states[s].kernel.current)
    ensures Resumed(states[n].kernel, states[s].kernel.current, 0xffff_ffff, events[s].statusLoc, events[s].garbage)
  {
    hide Clash, IsNumberedStep, ComesBack, Resumed;
    KernelsRun(states, events);
    PidsStayDifferent(states, events, s);
    assert IsNumberedStep(states[s], events[s], states[s + 1]);
    OwnPidIsNotQueued(states[s], events[s], states[s + 1]);
    WaitOnNobody(Kernels(states), events, s, n);
  }

  lemma OwnPidIsNotQueued(s: Numbered, e: Event, s': Numbered)
    requires Inv(s.kernel) && PidsDiffer(s.kernel) && IsNumberedStep(s, e, s') && e.Wait?
    ensures Nobody(s.kernel, ProcAt(s.kernel, s.kernel.current).pid)
  {
    hide NoRepeats, BlockOk, ListenersOk, OwnerOk, ActiveListed, Exclusive;
    var k := s.kernel;
    assert k.current in Live(k);
    forall p | p in k.queue
      ensures ProcAt(k, p).pid != ProcAt(k, k.current).pid
    {
      assert p in Live(k);
    }
  }

  /** In a run without a clash, the process a wait finds is the only one that holds the pid. */
  lemma HolderIsUnique(states: seq<Numbered>, events: seq<Event>, s: nat, q: nat, p: nat)
    requires IsNumberedRun(states, events) && s <= |events|
    requires forall i :: 0 <= i < s ==> !Clash(states[i], events[i])
    requires q in states[s].kernel.queue && p in states[s].kernel.queue
    requires ProcAt(states[s].kernel, q).pid == ProcAt(states[s].kernel, p).pid
    ensures p == q
  {
    PidsStayDifferent(states, events, s);
    hide NoRepeats, BlockOk, ListenersOk, OwnerOk, ActiveListed, Exclusive;
    assert p in Live(states[s].kernel) && q in Live(states[s].kernel);
  }
}
