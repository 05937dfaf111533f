/** The scheduler object: its handlers update the queue, the current process and the kernel
    objects in place, and each refines one step of SchedulerSpec. */
module Scheduler {
  import opened Arithmetic
  import opened Common
  import opened SchedulerSpec
  import opened PidRuns
  import opened Pids
  import KQueue

  /** The process an interrupt takes from the queue exists, and so does its block. */
  lemma HeadExists(k: Kernel)
    requires Inv(k) && Requeued(k) != []
    ensures var p := Requeued(k)[0];
      && p in k.procs
      && (k.procs[p].block != 0 ==> k.procs[p].block in k.blocks && k.blocks[k.procs[p].block].caller == p)
  {
    hide ListenersOk, OwnerOk, ActiveListed, Exclusive;
    RequeuedIsLive(k);
    assert BlockOk(k, Requeued(k)[0]);
  }

  /** The outcomes of an interrupt, field by field. */
  lemma InterruptOutcomes(k: Kernel)
    requires Inv(k)
    ensures Requeued(k) == [] ==> Next(k, Event.Interrupt) == k.(halted := true)
    ensures Requeued(k) != [] ==>
      var p, rest := Requeued(k)[0], Requeued(k)[1..];
      var b := k.procs[p].block;
      var space := SpaceOf(k, p);
      Next(k, Event.Interrupt) ==
        if b != 0 && k.blocks[b].active then k.(queue := rest + [p], current := 0, space := space)
        else
          var k1 := k.(queue := rest, current := p, registerBlock := p, space := space);
          if b == 0 then k1
          else k1.(procs := k.procs[p := Returned(k.procs[p], k.blocks[b])], blocks := k.blocks - {b},
                   shared := if k.procs[p].thread then Stored(k.shared, k.blocks[b]) else k.shared)
  {
    hide Inv;
    if Requeued(k) != [] {
      HeadExists(k);
    }
  }

  lemma NotifyOneMore(blocks: map<nat, WaitBlock>, listeners: seq<nat>, i: nat, pid: nat, code: nat)
    requires i < |listeners| && listeners[i] in blocks
    ensures var done := NotifyAll(blocks, listeners[..i], pid, code);
      && listeners[i] in done
      && NotifyAll(blocks, listeners[..i + 1], pid, code)
         == done[listeners[i] := Notified(done[listeners[i]], pid, code)]
  {
    assert listeners[..i + 1] == listeners[..i] + [listeners[i]];
  }

  lemma NotifyNone(blocks: map<nat, WaitBlock>, pid: nat, code: nat)
    ensures NotifyAll(blocks, [], pid, code) == blocks
  {
  }

  lemma QueuedExist(k: Kernel)
    requires Inv(k)
    ensures forall p :: p in k.queue ==> p in k.procs
    ensures k.current != 0 ==> k.current in k.procs
  {
    hide NoRepeats, BlockOk, ListenersOk, OwnerOk, ActiveListed, Exclusive;
    assert forall p :: p in k.queue ==> p in Live(k);
  }

  lemma CounterMoves(first: Word, d: nat)
    ensures Candidate(first, 1 + d) == Wrap(Candidate(first, d) + 1)
  {
  }

  class Scheduler {
    const processQueue: KQueue.Queue<nat>
    var currentProcess: nat
    var registerBlock: nat
    /** The process whose address space the MMU uses, or 0. */
    var space: nat
    /** Processes that have been constructed but not scheduled. */
    var unqueued: set<nat>
    var nextPid: nat
    /** Processes and wait blocks in kernel memory. */
    var procs: map<nat, Proc>
    var blocks: map<nat, WaitBlock>
    /** The words of the kernel's address space. */
    var shared: map<nat, nat>
    var halted: bool

    ghost predicate Valid()
      reads this, processQueue, processQueue.nodes
    {
      processQueue.Valid() && nextPid < U32
    }

    ghost function State(): Kernel
      reads this, processQueue
    {
      Kernel(processQueue.Contents(), currentProcess, registerBlock, space, unqueued, procs, blocks, shared, halted)
    }

    constructor ()
      ensures Valid() && State() == BOOT && nextPid == 2
      ensures fresh(processQueue) && fresh(processQueue.nodes)
    {
      processQueue := new KQueue.Queue();
      currentProcess, registerBlock, space, nextPid := 0, 0, 0, 2;
      unqueued, procs, blocks, shared, halted := {}, map[], map[], map[], false;
    }

    /** The first queued process with the given pid, or null. */
    method GetProcess(pid: nat) returns (proc: nat)
      requires Valid()
      ensures proc == SchedulerSpec.GetProcess(State().queue, procs, pid)
    {
      var n := processQueue.front;
      ghost var i := 0;
      ghost var queue := State().queue;
      while n != null
        invariant i <= |processQueue.nodes|
        invariant n == if i < |processQueue.nodes| then processQueue.nodes[i] else null
        invariant SchedulerSpec.GetProcess(queue, procs, pid) == SchedulerSpec.GetProcess(queue[i..], procs, pid)
        decreases |processQueue.nodes| - i
      {
        assert queue[i..][1..] == queue[i + 1..];
        if n.data in procs && procs[n.data].pid == pid {
          return n.data;
        }
        assert KQueue.LinkedAt(processQueue.nodes, i);
        n, i := n.next, i + 1;
      }
      return 0;
    }

    /** A pid no queued process holds, found in at most one attempt more than there are queued
        processes, even when the counter wraps around. */
    method AllocatePid() returns (pid: nat, ghost attempts: nat)
      requires Valid() && |processQueue.nodes| < U32
      requires forall p :: p in State().queue ==> p in procs
      modifies this`nextPid
      ensures Valid() && State() == old(State())
      ensures pid !in QueuedPids(State())
      ensures attempts == 1 + Skips(old(nextPid), QueuedPids(State())) <= |State().queue| + 1
      ensures pid == Candidate(old(nextPid), attempts - 1) && nextPid == Candidate(old(nextPid), attempts)
      decreases Skips(nextPid, QueuedPids(State()))
    {
      hide Skips, QueuedPids, Candidate, ProcAt;
      ghost var first, k := nextPid, State();
      FirstCandidate(first);
      NextCandidate(first);
      pid := nextPid;
      nextPid := Wrap(nextPid + 1);
      var n := processQueue.front;
      ghost var i := 0;
      while n != null
        invariant i <= |processQueue.nodes|
        invariant n == if i < |processQueue.nodes| then processQueue.nodes[i] else null
        invariant Valid() && State() == k && nextPid == Candidate(first, 1)
        invariant forall j :: 0 <= j < i ==> ProcAt(k, k.queue[j]).pid != pid
        decreases |processQueue.nodes| - i
      {
        assert n.data == k.queue[i];
        QueuedProc(k, i);
        if procs[n.data].pid == pid {
          SkipsUnfold(first, QueuedPids(k));
          pid, attempts := AllocatePid();
          StepThenSkip(first, attempts - 1);
          StepThenSkip(first, attempts);
          attempts := attempts + 1;
          return;
        }
        assert KQueue.LinkedAt(processQueue.nodes, i);
        n, i := n.next, i + 1;
      }
      NoSkip(first, QueuedPids(k));
      attempts := 1;
    }

    /** The constructors of processes and kernel threads, as far as the scheduler sees them, and what
        the fork handler does after its child has been made. `proc` is the address of the new object. */
    method Create(proc: nat, origin: Origin) returns (pid: nat)
      requires Valid() && Inv(State()) && Enabled(State(), Event.Create(proc, nextPid, origin))
      requires |processQueue.nodes| < U32
      modifies this
      ensures Valid() && old(nextPid) < U32 && nextPid < U32
      ensures IsNumberedStep(Numbered(old(State()), old(nextPid)), Event.Create(proc, pid, origin),
                             Numbered(State(), nextPid))
    {
      hide Inv, Skips, QueuedPids, Candidate, FirstFree, KQueue.Queue.Valid;
      ghost var first, k := nextPid, State();
      QueuedExist(k);
      ghost var attempts;
      pid, attempts := AllocatePid();
      SkipsToFirstFree(first, QueuedPids(k));
      CounterMoves(first, attempts - 1);
      procs := procs[proc := Proc(pid, origin.Thread?, 0, [], 0, map[])];
      unqueued := unqueued + {proc};
      match origin
      case Thread =>
      case Loaded => space := proc;
      case Forked => EnableAddrspace(currentProcess);
    }

    /** A kernel thread has no address space of its own and disables the one in use. */
    method EnableAddrspace(proc: nat)
      requires proc in procs
      modifies this`space
      ensures space == SpaceOf(State(), proc)
    {
      space := if procs[proc].thread then 0 else proc;
    }

    method Schedule(proc: nat)
      requires Valid() && Enabled(State(), Event.Schedule(proc))
      modifies this, processQueue, processQueue.nodes
      ensures Valid() && State() == Next(old(State()), Event.Schedule(proc)) && nextPid == old(nextPid)
      ensures fresh(set n | n in processQueue.nodes && n !in old(processQueue.nodes))
    {
      unqueued := unqueued - {proc};
      processQueue.PushBack(proc);
    }

    method Interrupt()
      requires Valid() && Inv(State()) && !halted
      modifies this, processQueue, processQueue.nodes
      ensures Valid() && State() == Next(old(State()), Event.Interrupt)
      ensures fresh(set n | n in processQueue.nodes && n !in old(processQueue.nodes))
    {
      hide Inv, Next, NoRepeats, Returned, Stored, IsBlocking, KQueue.Queue.Valid;
      ghost var k := State();
      InterruptOutcomes(k);
      if Requeued(k) != [] {
        HeadExists(k);
      }
      var next := TakeNext();
      match next
      case None =>
        halted := true;
      case Some(p) =>
        currentProcess := p;
        EnableAddrspace(p);
        var block := procs[p].block;
        if block != 0 && blocks[block].active {
          processQueue.PushBack(p);
          currentProcess := 0;
          return;
        } else if block != 0 {
          Release(p, block);
        }
        registerBlock := p;
    }

    /** Delivers the result of a released block and deletes it. */
    method Release(p: nat, block: nat)
      requires p in procs && block in blocks && blocks[block].caller == p
      modifies this`procs, this`blocks, this`shared
      ensures var b := old(blocks)[block];
        && procs == old(procs)[p := Returned(old(procs)[p], b)] && blocks == old(blocks) - {block}
        && shared == if old(procs)[p].thread then Stored(old(shared), b) else old(shared)
    {
      BlockReturn(block);
      blocks := blocks - {block};
      procs := procs[p := procs[p].(block := 0)];
    }

    /** Puts the current process back in the queue and takes the next one out. */
    method TakeNext() returns (next: Option<nat>)
      requires Valid()
      modifies processQueue, processQueue.nodes
      ensures Valid()
      ensures fresh(set n | n in processQueue.nodes && n !in old(processQueue.nodes))
      ensures var q := Requeued(old(State()));
        if q == [] then next == None && processQueue.Contents() == []
        else next == Some(q[0]) && processQueue.Contents() == q[1..]
    {
      if currentProcess != 0 {
        processQueue.PushBack(currentProcess);
      }
      next := processQueue.PopFront();
    }

    /** Writes the result of a wait into the caller's register and status word. */
    method BlockReturn(block: nat)
      requires block in blocks && blocks[block].caller in procs
      modifies this`procs, this`shared
      ensures var b := blocks[block];
        && procs == old(procs)[b.caller := Returned(old(procs)[b.caller], b).(block := old(procs)[b.caller].block)]
        && shared == if old(procs)[b.caller].thread then Stored(old(shared), b) else old(shared)
    {
      var b := blocks[block];
      procs := procs[b.caller := procs[b.caller].(r0 := b.terminatedPid)];
      var caller := procs[b.caller];
      if b.statusLoc != 0 {
        if caller.thread {
          shared := shared[b.statusLoc := b.exitCode];
        } else {
          procs := procs[b.caller := caller.(memory := caller.memory[b.statusLoc := b.exitCode])];
        }
      }
    }

    method SyscallExit(code: nat)
      requires Valid() && Inv(State()) && Enabled(State(), Exit(code))
      modifies this
      ensures Valid() && State() == Next(old(State()), Exit(code))
      ensures nextPid == old(nextPid)
    {
      hide NotifyAll, KQueue.Queue.Valid;
      assert ListenersOk(State(), currentProcess);
      NotifyNone(blocks, procs[currentProcess].pid, code);
      var me := procs[currentProcess];
      var i := 0;
      while i < |me.listeners|
        invariant 0 <= i <= |me.listeners|
        invariant blocks == NotifyAll(old(blocks), me.listeners[..i], me.pid, code)
        modifies this`blocks
      {
        NotifyOneMore(old(blocks), me.listeners, i, me.pid, code);
        ProcessTerminated(me.listeners[i], me.pid, code);
        i := i + 1;
      }
      assert me.listeners[..i] == me.listeners;
      procs := procs - {currentProcess};
      currentProcess, registerBlock := 0, 0;
    }

    method ProcessTerminated(block: nat, pid: nat, code: nat)
      requires block in blocks
      modifies this`blocks
      ensures blocks == old(blocks)[block := Notified(old(blocks)[block], pid, code)]
    {
      blocks := blocks[block := blocks[block].(terminatedPid := pid)];
      blocks := blocks[block := blocks[block].(exitCode := code)];
      blocks := blocks[block := blocks[block].(active := false)];
    }

    /** `block` is the address of the new wait block, `garbage` what its memory held. */
    method SyscallWait(pid: nat, statusLoc: nat, block: nat, garbage: nat)
      requires Valid() && Inv(State()) && Enabled(State(), Wait(pid, statusLoc, block, garbage))
      modifies this, processQueue, processQueue.nodes
      ensures Valid() && State() == Next(old(State()), Wait(pid, statusLoc, block, garbage))
      ensures fresh(set n | n in processQueue.nodes && n !in old(processQueue.nodes))
    {
      hide NoRepeats, BlockOk, ListenersOk, OwnerOk, ActiveListed, Exclusive, SchedulerSpec.GetProcess,
           KQueue.Queue.Valid;
      NewBlock(pid, statusLoc, block, garbage);
      procs := procs[currentProcess := procs[currentProcess].(block := block)];
      processQueue.PushBack(currentProcess);
      currentProcess, registerBlock := 0, 0;
    }

    /** The wait block constructor: it registers with the process it waits for, or starts out
        released when there is none. No process has children yet, so waiting for any child
        finds none. */
    method NewBlock(pid: nat, statusLoc: nat, block: nat, garbage: nat)
      requires Valid() && Inv(State()) && Enabled(State(), Wait(pid, statusLoc, block, garbage))
      modifies this`procs, this`blocks
      ensures Valid()
      ensures var q := WaitTarget(old(State()), pid);
        && (q != 0 ==> q in old(procs))
        && blocks == old(blocks)[block :=
            if q == 0 then WaitBlock(pid, statusLoc, currentProcess, false, MINUS_ONE, garbage)
            else WaitBlock(pid, statusLoc, currentProcess, true, garbage, garbage)]
        && procs == if q == 0 then old(procs)
            else old(procs)[q := old(procs)[q].(listeners := [block] + old(procs)[q].listeners)]
    {
      hide NoRepeats, BlockOk, ListenersOk, OwnerOk, ActiveListed, Exclusive, KQueue.Queue.Valid;
      blocks := blocks[block := WaitBlock(pid, statusLoc, currentProcess, true, garbage, garbage)];
      if pid == MINUS_ONE || pid == 0 {
        blocks := blocks[block := blocks[block].(active := false, terminatedPid := MINUS_ONE)];
      } else {
        GetProcessFinds(State().queue, procs, pid);
        var q := GetProcess(pid);
        if q == 0 {
          blocks := blocks[block := blocks[block].(active := false, terminatedPid := MINUS_ONE)];
        } else {
          procs := procs[q := procs[q].(listeners := [block] + procs[q].listeners)];
        }
      }
    }
  }
}
