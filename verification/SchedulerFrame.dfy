/** What the steps of the scheduler leave alone. */
module SchedulerFrame {
  import opened Common
  import opened SchedulerSpec
  import opened WaitProtocol

  /** The interrupt that takes `p` delivers the result of its wait. */
  predicate Delivers(k: Kernel, e: Event, p: nat) {
    e.Interrupt? && Popped(k) == p && ProcAt(k, p).block != 0 && !IsBlocking(k, p)
  }

  /** The delivery to `p` stores a status word. */
  predicate StoresStatus(k: Kernel, e: Event, p: nat) {
    Delivers(k, e, p) && ProcAt(k, p).block in k.blocks && k.blocks[ProcAt(k, p).block].statusLoc != 0
  }

  /** The fields of process `p`, which lives on, that a step may change. */
  predicate Changes(k: Kernel, e: Event, p: nat, p1: Proc, p2: Proc) {
    && p2.pid == p1.pid && p2.thread == p1.thread
    && (p2.block != p1.block ==> (e.Wait? && p == k.current) || Delivers(k, e, p))
    && (p2.listeners != p1.listeners ==> e.Wait? && p in k.queue && p1.pid == e.waitPid)
    && (p2.r0 != p1.r0 ==> (e.Execute? && p == k.registerBlock) || Delivers(k, e, p))
    && (p2.memory != p1.memory ==> (e.Execute? && p == k.space) || (StoresStatus(k, e, p) && !p1.thread))
  }

  /** A step changes a process only in these fields; a new one is empty, and only Exit removes any. */
  lemma StepFrame(k: Kernel, e: Event)
    requires Inv(k) && Enabled(k, e)
    ensures forall p :: p in k.procs && !Ends(k, e, p) ==>
      p in Next(k, e).procs && Changes(k, e, p, k.procs[p], Next(k, e).procs[p])
    ensures forall p :: p in Next(k, e).procs && p !in k.procs ==>
      e.Create? && p == e.proc && Next(k, e).procs[p] == Proc(e.pid, e.origin.Thread?, 0, [], 0, map[])
  {
    hide NoRepeats, ListenersOk, OwnerOk, ActiveListed, Exclusive, GetProcess;
    match e
    case Create(_, _, _) =>
    case Schedule(_) =>
    case Interrupt => InterruptFrame(k);
    case Exit(_) =>
    case Wait(pid, loc, b, garbage) => WaitFrame(k, pid, loc, b, garbage);
    case Execute(r0, memory, shared) => ExecuteShape(k, r0, memory, shared);
  }

  lemma InterruptFrame(k: Kernel)
    requires Inv(k)
    ensures forall p :: p in k.procs ==>
      p in InterruptStep(k).procs && Changes(k, Event.Interrupt, p, k.procs[p], InterruptStep(k).procs[p])
    ensures InterruptStep(k).procs.Keys == k.procs.Keys
  {
    hide NoRepeats, ListenersOk, OwnerOk, ActiveListed, Exclusive;
    RequeuedIsLive(k);
    if Requeued(k) != [] {
      assert Requeued(k)[0] in Requeued(k);
      assert BlockOk(k, Requeued(k)[0]);
    }
  }

  lemma WaitFrame(k: Kernel, pid: nat, loc: nat, b: nat, garbage: nat)
    requires Inv(k) && Enabled(k, Wait(pid, loc, b, garbage))
    ensures var k' := WaitStep(k, pid, loc, b, garbage);
      && k'.procs.Keys == k.procs.Keys
      && forall p :: p in k.procs ==> Changes(k, Wait(pid, loc, b, garbage), p, k.procs[p], k'.procs[p])
  {
    hide NoRepeats, BlockOk, ListenersOk, OwnerOk, ActiveListed, Exclusive, GetProcess, WaitTarget;
    WaitShape(k, pid, loc, b, garbage);
  }

  /** The kernel's memory changes only by a kernel thread that runs, or by a status word for one. */
  lemma SharedFrame(k: Kernel, e: Event)
    requires Inv(k) && Enabled(k, e)
    ensures Next(k, e).shared != k.shared ==>
      || (e.Execute? && ProcAt(k, k.registerBlock).thread)
      || (e.Interrupt? && Popped(k) in k.procs && k.procs[Popped(k)].thread && StoresStatus(k, e, Popped(k)))
  {
    hide NoRepeats, ListenersOk, OwnerOk, ActiveListed, Exclusive;
    RequeuedIsLive(k);
    if Requeued(k) != [] {
      assert Requeued(k)[0] in Requeued(k);
      assert BlockOk(k, Requeued(k)[0]);
    }
  }

  /** Delivering the result of a wait stores one word in the waiter's memory, or none if it passed a
      null pointer, and touches nobody else's. */
  lemma DeliveryExactly(k: Kernel, w: nat, b: nat, pid: nat, loc: nat, code: nat)
    requires Inv(k) && ReleasedWith(k, w, b, pid, loc, code) && Popped(k) == w
    ensures var k' := InterruptStep(k);
      && Resumed(k', w, pid, loc, code)
      && MemoryOf(k', w) == (if loc == 0 then MemoryOf(k, w) else MemoryOf(k, w)[loc := code])
      && k'.procs.Keys == k.procs.Keys
      && (forall p :: p in k.procs && p != w ==> k'.procs[p] == k.procs[p])
      && (if k.procs[w].thread then k'.procs[w].memory == k.procs[w].memory else k'.shared == k.shared)
  {
    hide QueueOk, ActiveListed, Exclusive, ListenersOk;
    assert BlockOk(k, w) && OwnerOk(k, b);
    ReleasedInterrupt(k, w, b, pid, loc, code);
  }

  /** The kernel halts at the first interrupt that finds no process, and at no other step. */
  lemma HaltsExactly(k: Kernel, e: Event)
    requires Inv(k) && Enabled(k, e)
    ensures Next(k, e).halted <==> e.Interrupt? && Live(k) == {}
  {
    hide NoRepeats, BlockOk, ListenersOk, OwnerOk, ActiveListed, Exclusive;
    RequeuedIsLive(k);
    if Requeued(k) == [] {
      assert forall p :: p in Live(k) ==> p in Requeued(k);
    } else {
      assert Requeued(k)[0] in Requeued(k);
    }
  }
}
