/** The scheduler and the wait/exit protocol as a step system over kernel memory: processes and
    wait blocks are objects at addresses (0 is null), and deleting one removes its address. */
module SchedulerSpec {
  import opened Arithmetic
  import opened Common

  /** `-1` as an unsigned word: the result of a wait that found nothing to wait for. */
  const MINUS_ONE: nat := U32 - 1

  datatype WaitBlock = WaitBlock(
    waitPid: nat, statusLoc: nat, caller: nat,
    active: bool, terminatedPid: nat, exitCode: nat)

  /** `listeners` are the wait blocks to tell when the process ends, `r0` its saved result
      register. A process has an address space of its own, with `memory` its words, unless it is a
      kernel thread. */
  datatype Proc = Proc(pid: nat, thread: bool, block: nat, listeners: seq<nat>, r0: nat, memory: map<nat, nat>)

  /** `space` is the process whose address space is enabled, 0 if there is none; `registerBlock` the
      one whose registers are in use; `unqueued` the processes that have been constructed but not
      scheduled; `shared` the words of the kernel's address space, which all kernel threads share. */
  datatype Kernel = Kernel(
    queue: seq<nat>, current: nat, registerBlock: nat, space: nat, unqueued: set<nat>,
    procs: map<nat, Proc>, blocks: map<nat, WaitBlock>, shared: map<nat, nat>, halted: bool)

  /** How a process is made: as a kernel thread, by loading an executable, or by forking. */
  datatype Origin = Thread | Loaded | Forked

  /** Addresses of new objects and uninitialised words are chosen by the environment. `Execute`
      is a process's code running on the registers that `registerBlock` points at. */
  datatype Event =
    | Create(proc: nat, pid: nat, origin: Origin)
    | Schedule(proc: nat)
    | Interrupt
    | Exit(code: nat)
    | Wait(waitPid: nat, statusLoc: nat, block: nat, garbage: nat)
    | Execute(r0: nat, memory: map<nat, nat>, shared: map<nat, nat>)

  const BOOT := Kernel([], 0, 0, 0, {}, map[], map[], map[], false)

  // ----- lookups

  /** The first queued process with the given pid, or null. */
  function GetProcess(queue: seq<nat>, procs: map<nat, Proc>, pid: nat): nat {
    if queue == [] then 0
    else if queue[0] in procs && procs[queue[0]].pid == pid then queue[0]
    else GetProcess(queue[1..], procs, pid)
  }

  /** The queue an interrupt takes its next process from. */
  function Requeued(k: Kernel): seq<nat> {
    if k.current != 0 then k.queue + [k.current] else k.queue
  }

  /** The process object at `p`; in every reachable state it exists wherever it is used. */
  function ProcAt(k: Kernel, p: nat): Proc {
    if p in k.procs then k.procs[p] else Proc(0, false, 0, [], 0, map[])
  }

  predicate IsBlocking(k: Kernel, p: nat) {
    var b := ProcAt(k, p).block;
    b != 0 && b in k.blocks && k.blocks[b].active
  }

  // ----- steps

  predicate Enabled(k: Kernel, e: Event) {
    && !k.halted
    && match e
       case Create(p, _, origin) => p != 0 && p !in k.procs && (origin.Forked? ==> k.current != 0)
       case Schedule(p) => p in k.unqueued
       case Interrupt => true
       case Exit(_) => k.current != 0
       case Wait(_, _, b, _) => k.current != 0 && b != 0 && b !in k.blocks
       case Execute(_, _, _) => k.registerBlock != 0
  }

  function Notified(b: WaitBlock, pid: nat, code: nat): WaitBlock {
    b.(terminatedPid := pid, exitCode := code, active := false)
  }

  function NotifyAll(blocks: map<nat, WaitBlock>, listeners: seq<nat>, pid: nat, code: nat): map<nat, WaitBlock> {
    map b | b in blocks :: if b in listeners then Notified(blocks[b], pid, code) else blocks[b]
  }

  function ExitStep(k: Kernel, code: nat): Kernel {
    var p := ProcAt(k, k.current);
    k.(blocks := NotifyAll(k.blocks, p.listeners, p.pid, code),
       procs := k.procs - {k.current}, current := 0, registerBlock := 0)
  }

  /** The process a wait would listen to, or null if the call cannot block. */
  function WaitTarget(k: Kernel, pid: nat): nat {
    if pid == MINUS_ONE || pid == 0 then 0 else GetProcess(k.queue, k.procs, pid)
  }

  function WaitStep(k: Kernel, pid: nat, statusLoc: nat, b: nat, garbage: nat): Kernel {
    var q := WaitTarget(k, pid);
    var block := if q == 0 then WaitBlock(pid, statusLoc, k.current, false, MINUS_ONE, garbage)
                 else WaitBlock(pid, statusLoc, k.current, true, garbage, garbage);
    var procs1 := if q == 0 then k.procs else k.procs[q := ProcAt(k, q).(listeners := [b] + ProcAt(k, q).listeners)];
    k.(blocks := k.blocks[b := block],
       procs := if k.current in procs1 then procs1[k.current := procs1[k.current].(block := b)] else procs1,
       queue := k.queue + [k.current], current := 0, registerBlock := 0)
  }

  /** Memory with the status word of a wait stored. */
  function Stored(memory: map<nat, nat>, b: WaitBlock): map<nat, nat> {
    if b.statusLoc != 0 then memory[b.statusLoc := b.exitCode] else memory
  }

  /** The effect of `block_return` and the deletion of the block on process `p`. */
  function Returned(p: Proc, b: WaitBlock): Proc {
    p.(block := 0, r0 := b.terminatedPid, memory := if p.thread then p.memory else Stored(p.memory, b))
  }

  /** What enabling the address space of `p` enables: for a kernel thread, nothing. */
  function SpaceOf(k: Kernel, p: nat): nat {
    if ProcAt(k, p).thread then 0 else p
  }

  /** The memory in which process `p` finds its own words. */
  function MemoryOf(k: Kernel, p: nat): map<nat, nat> {
    if ProcAt(k, p).thread then k.shared else ProcAt(k, p).memory
  }

  function InterruptStep(k: Kernel): Kernel {
    var q := Requeued(k);
    if q == [] then k.(halted := true)
    else if IsBlocking(k, q[0]) then k.(queue := q[1..] + [q[0]], current := 0, space := SpaceOf(k, q[0]))
    else Dispatch(k, q[0], q[1..])
  }

  /** Makes `p` current, delivering the result of a released block and deleting it. */
  function Dispatch(k: Kernel, p: nat, rest: seq<nat>): Kernel {
    var b := ProcAt(k, p).block;
    var k1 := k.(queue := rest, current := p, registerBlock := p, space := SpaceOf(k, p));
    if b != 0 && b in k.blocks then
      k1.(procs := k.procs[p := Returned(ProcAt(k, p), k.blocks[b])], blocks := k.blocks - {b},
          shared := if ProcAt(k, p).thread then Stored(k.shared, k.blocks[b]) else k.shared)
    else k1
  }

  /** Loading enables the new address space and leaves it so; the fork handler enables that of the
      current process again. The table of a kernel thread maps nothing, which is as good as none. */
  function CreateStep(k: Kernel, p: nat, pid: nat, origin: Origin): Kernel {
    k.(unqueued := k.unqueued + {p}, procs := k.procs[p := Proc(pid, origin.Thread?, 0, [], 0, map[])],
       space := match origin
                case Thread => k.space
                case Loaded => p
                case Forked => SpaceOf(k, k.current))
  }

  function ScheduleStep(k: Kernel, p: nat): Kernel {
    k.(queue := k.queue + [p], unqueued := k.unqueued - {p})
  }

  /** Running code changes the registers it runs on and the memory of the enabled address space; a
      kernel thread also changes the kernel's. */
  function ExecuteStep(k: Kernel, r0: nat, memory: map<nat, nat>, shared: map<nat, nat>): Kernel {
    var k1 := k.(procs := k.procs[k.registerBlock := ProcAt(k, k.registerBlock).(r0 := r0)],
                 shared := if ProcAt(k, k.registerBlock).thread then shared else k.shared);
    if k.space == 0 then k1
    else k1.(procs := k1.procs[k.space := ProcAt(k1, k.space).(memory := memory)])
  }

  function Next(k: Kernel, e: Event): Kernel {
    match e
    case Create(p, pid, origin) => CreateStep(k, p, pid, origin)
    case Schedule(p) => ScheduleStep(k, p)
    case Interrupt => InterruptStep(k)
    case Exit(code) => ExitStep(k, code)
    case Wait(pid, loc, b, garbage) => WaitStep(k, pid, loc, b, garbage)
    case Execute(r0, memory, shared) => ExecuteStep(k, r0, memory, shared)
  }

  // ----- the invariant

  function Live(k: Kernel): set<nat> {
    (set p | p in k.queue) + (if k.current != 0 then {k.current} else {})
  }

  /** Every live process is exactly once in the queue or current; the others are not scheduled yet. */
  ghost predicate QueueOk(k: Kernel) {
    && NoRepeats(k.queue) && k.current !in k.queue && 0 !in k.queue
    && k.procs.Keys == Live(k) + k.unqueued && Live(k) !! k.unqueued && 0 !in k.unqueued
  }

  /** A current process owns the register block; a register block belongs to a live process
      that is not waiting. */
  predicate RegistersOk(k: Kernel) {
    && (k.current != 0 ==> k.registerBlock == k.current)
    && (k.registerBlock != 0 ==>
      k.registerBlock in k.procs && k.registerBlock !in k.unqueued && k.procs[k.registerBlock].block == 0)
  }

  /** While code runs, an enabled address space belongs to a process that has one, and code that
      runs without a current process is not in its own. */
  predicate SpaceOk(k: Kernel) {
    k.registerBlock != 0 ==>
      && (k.space != 0 ==> k.space in k.procs && !k.procs[k.space].thread)
      && (k.current == 0 ==> k.space != k.registerBlock)
  }

  /** A process's block exists and belongs to it. */
  predicate BlockOk(k: Kernel, p: nat)
    requires p in k.procs
  {
    k.procs[p].block != 0 ==> k.procs[p].block in k.blocks && k.blocks[k.procs[p].block].caller == p
  }

  /** Every block belongs to the live process that waits on it. */
  predicate OwnerOk(k: Kernel, b: nat)
    requires b in k.blocks
  {
    b != 0 && k.blocks[b].caller in k.procs && k.procs[k.blocks[b].caller].block == b
  }

  /** A process lists only existing, active blocks that wait for its own pid. */
  predicate ListenersOk(k: Kernel, p: nat)
    requires p in k.procs
  {
    forall b :: b in k.procs[p].listeners ==>
      b in k.blocks && k.blocks[b].active && k.blocks[b].waitPid == k.procs[p].pid
  }

  /** No block listens to two processes. */
  predicate Exclusive(k: Kernel) {
    forall p, q, b :: p in k.procs && q in k.procs && p != q && b in k.procs[p].listeners ==> b !in k.procs[q].listeners
  }

  /** An active block is listed by some live process, which can still release it. */
  predicate ActiveListed(k: Kernel, b: nat)
    requires b in k.blocks
  {
    k.blocks[b].active ==> exists q :: q in k.procs && b in k.procs[q].listeners
  }

  ghost predicate Inv(k: Kernel) {
    && QueueOk(k) && RegistersOk(k) && SpaceOk(k) && Exclusive(k)
    && (forall p :: p in k.procs ==> BlockOk(k, p) && ListenersOk(k, p))
    && (forall b :: b in k.blocks ==> OwnerOk(k, b) && ActiveListed(k, b))
  }

  lemma {:induction false} GetProcessFinds(queue: seq<nat>, procs: map<nat, Proc>, pid: nat)
    ensures var q := GetProcess(queue, procs, pid);
      && (q != 0 ==> q in queue && q in procs && procs[q].pid == pid)
      && (q == 0 && 0 !in queue ==> forall p :: p in queue && p in procs ==> procs[p].pid != pid)
  {
    if queue != [] {
      GetProcessFinds(queue[1..], procs, pid);
      assert queue == [queue[0]] + queue[1..];
    }
  }

  /** Of several holders of a pid, the lookup finds the one that is queued first. */
  lemma {:induction false} GetProcessFindsFirst(queue: seq<nat>, procs: map<nat, Proc>, pid: nat, i: nat)
    requires i < |queue| && queue[i] in procs && procs[queue[i]].pid == pid
    requires forall j :: 0 <= j < i ==> !(queue[j] in procs && procs[queue[j]].pid == pid)
    ensures GetProcess(queue, procs, pid) == queue[i]
  {
    if i > 0 {
      GetProcessFindsFirst(queue[1..], procs, pid, i - 1);
    }
  }

  // ----- every step keeps the invariant

  lemma CreateKeeps(k: Kernel, p: nat, pid: nat, origin: Origin)
    requires Inv(k) && Enabled(k, Create(p, pid, origin))
    ensures Inv(CreateStep(k, p, pid, origin))
  {
    var k' := CreateStep(k, p, pid, origin);
    assert p !in Live(k) && Live(k') == Live(k);
    forall x | x in k'.procs
      ensures BlockOk(k', x) && ListenersOk(k', x)
    {
      assert x != p ==> BlockOk(k, x) && ListenersOk(k, x);
    }
    forall b | b in k'.blocks
      ensures OwnerOk(k', b) && ActiveListed(k', b)
    {
      assert OwnerOk(k, b) && ActiveListed(k, b);
      if k.blocks[b].active {
        var q :| q in k.procs && b in k.procs[q].listeners;
        assert q in k'.procs && b in k'.procs[q].listeners;
      }
    }
  }

  lemma ScheduleKeeps(k: Kernel, p: nat)
    requires Inv(k) && Enabled(k, Schedule(p))
    ensures Inv(ScheduleStep(k, p))
  {
    hide BlockOk, ListenersOk, OwnerOk, ActiveListed, Exclusive;
    var k' := ScheduleStep(k, p);
    assert Live(k') == Live(k) + {p};
    assert p !in Live(k);
    SameObjects(k, k');
  }

  /** Running code changes nothing the scheduler looks at. */
  lemma ExecuteShape(k: Kernel, r0: nat, memory: map<nat, nat>, shared: map<nat, nat>)
    requires RegistersOk(k) && SpaceOk(k) && k.registerBlock != 0
    ensures var k' := ExecuteStep(k, r0, memory, shared);
      && k' == k.(procs := k'.procs, shared := k'.shared) && k'.procs.Keys == k.procs.Keys
      && forall x :: x in k.procs ==> SameBut(k.procs[x], k'.procs[x])
  {
  }

  /** The two differ at most in registers and memory. */
  predicate SameBut(p: Proc, p': Proc) {
    p'.pid == p.pid && p'.thread == p.thread && p'.block == p.block && p'.listeners == p.listeners
  }

  lemma ExecuteKeeps(k: Kernel, r0: nat, memory: map<nat, nat>, shared: map<nat, nat>)
    requires Inv(k) && Enabled(k, Execute(r0, memory, shared))
    ensures Inv(Next(k, Execute(r0, memory, shared)))
  {
    hide ExecuteStep, NoRepeats;
    var k' := Next(k, Execute(r0, memory, shared));
    ExecuteShape(k, r0, memory, shared);
    forall x | x in k'.procs
      ensures BlockOk(k', x) && ListenersOk(k', x)
    {
      assert BlockOk(k, x) && ListenersOk(k, x);
    }
    forall b | b in k'.blocks
      ensures OwnerOk(k', b) && ActiveListed(k', b)
    {
      assert OwnerOk(k, b) && ActiveListed(k, b);
      if k.blocks[b].active {
        var q :| q in k.procs && b in k.procs[q].listeners;
        assert q in k'.procs && b in k'.procs[q].listeners;
      }
    }
  }

  lemma ExitKeeps(k: Kernel, code: nat)
    requires Inv(k) && k.current != 0
    ensures Inv(ExitStep(k, code))
  {
    var k' := ExitStep(k, code);
    var me := k.current;
    assert k.procs[me].block == 0;
    forall x | x in k'.procs
      ensures BlockOk(k', x) && ListenersOk(k', x)
    {
      assert BlockOk(k, x) && ListenersOk(k, x);
    }
    forall b | b in k'.blocks
      ensures OwnerOk(k', b) && ActiveListed(k', b)
    {
      assert OwnerOk(k, b) && ActiveListed(k, b);
      if k'.blocks[b].active {
        var q :| q in k.procs && b in k.procs[q].listeners;
        assert q in k'.procs && b in k'.procs[q].listeners;
      }
    }
  }

  lemma WaitShape(k: Kernel, pid: nat, loc: nat, b: nat, garbage: nat)
    requires Inv(k) && Enabled(k, Wait(pid, loc, b, garbage))
    ensures var q, me, k' := WaitTarget(k, pid), k.current, WaitStep(k, pid, loc, b, garbage);
      && me in k.procs && k.procs[me].block == 0
      && (q != 0 ==> q in k.queue && q != me && q in k.procs && k.procs[q].pid == pid)
      && k'.procs.Keys == k.procs.Keys
      && (forall x :: x in k.procs ==> b !in k.procs[x].listeners)
      && (forall x :: x in k.procs && x != me ==> k'.procs[x].block == k.procs[x].block)
      && (forall x :: x in k.procs && x != q ==> k'.procs[x].listeners == k.procs[x].listeners)
      && (forall x :: x in k.procs ==> k'.procs[x].pid == k.procs[x].pid)
      && k'.procs[me].block == b && (q != 0 ==> k'.procs[q].listeners == [b] + k.procs[q].listeners)
  {
    hide NoRepeats, BlockOk, OwnerOk, ActiveListed, Exclusive, GetProcess;
    GetProcessFinds(k.queue, k.procs, pid);
    forall x | x in k.procs
      ensures b !in k.procs[x].listeners
    {
      assert ListenersOk(k, x);
    }
  }

  lemma WaitKeeps(k: Kernel, pid: nat, loc: nat, b: nat, garbage: nat)
    requires Inv(k) && Enabled(k, Wait(pid, loc, b, garbage))
    ensures Inv(WaitStep(k, pid, loc, b, garbage))
  {
    hide GetProcess, WaitTarget;
    WaitShape(k, pid, loc, b, garbage);
    WaitKeepsQueue(k, pid, loc, b, garbage);
    WaitKeepsListeners(k, pid, loc, b, garbage);
    WaitKeepsExclusive(k, pid, loc, b, garbage);
    WaitKeepsBlocks(k, pid, loc, b, garbage);
  }

  lemma WaitKeepsQueue(k: Kernel, pid: nat, loc: nat, b: nat, garbage: nat)
    requires Inv(k) && Enabled(k, Wait(pid, loc, b, garbage))
    ensures var k' := WaitStep(k, pid, loc, b, garbage); QueueOk(k') && RegistersOk(k') && SpaceOk(k')
  {
    hide GetProcess, WaitTarget, Exclusive, BlockOk, ListenersOk, OwnerOk, ActiveListed;
    WaitShape(k, pid, loc, b, garbage);
  }

  lemma WaitKeepsListeners(k: Kernel, pid: nat, loc: nat, b: nat, garbage: nat)
    requires Inv(k) && Enabled(k, Wait(pid, loc, b, garbage))
    ensures var k' := WaitStep(k, pid, loc, b, garbage);
      forall x :: x in k'.procs ==> BlockOk(k', x) && ListenersOk(k', x)
  {
    hide GetProcess, WaitTarget, QueueOk, RegistersOk, OwnerOk, ActiveListed, Exclusive;
    WaitShape(k, pid, loc, b, garbage);
    var k' := WaitStep(k, pid, loc, b, garbage);
    forall x | x in k'.procs
      ensures BlockOk(k', x) && ListenersOk(k', x)
    {
      assert BlockOk(k, x) && ListenersOk(k, x);
    }
  }

  lemma WaitKeepsExclusive(k: Kernel, pid: nat, loc: nat, b: nat, garbage: nat)
    requires Inv(k) && Enabled(k, Wait(pid, loc, b, garbage))
    ensures Exclusive(WaitStep(k, pid, loc, b, garbage))
  {
    hide GetProcess, WaitTarget, QueueOk, RegistersOk, OwnerOk, ActiveListed, BlockOk, ListenersOk;
    WaitShape(k, pid, loc, b, garbage);
  }

  lemma WaitKeepsBlocks(k: Kernel, pid: nat, loc: nat, b: nat, garbage: nat)
    requires Inv(k) && Enabled(k, Wait(pid, loc, b, garbage))
    ensures var k' := WaitStep(k, pid, loc, b, garbage);
      forall c :: c in k'.blocks ==> OwnerOk(k', c) && ActiveListed(k', c)
  {
    hide GetProcess, WaitTarget, QueueOk, RegistersOk, BlockOk, ListenersOk, Exclusive;
    WaitShape(k, pid, loc, b, garbage);
    var q, k' := WaitTarget(k, pid), WaitStep(k, pid, loc, b, garbage);
    forall c | c in k'.blocks
      ensures OwnerOk(k', c) && ActiveListed(k', c)
    {
      if c == b {
        assert q != 0 ==> b in k'.procs[q].listeners;
      } else {
        assert OwnerOk(k, c) && ActiveListed(k, c);
        if k.blocks[c].active {
          var y :| y in k.procs && c in k.procs[y].listeners;
          assert c in k'.procs[y].listeners;
        }
      }
    }
  }

  lemma InterruptKeeps(k: Kernel)
    requires Inv(k)
    ensures Inv(InterruptStep(k))
  {
    var q := Requeued(k);
    RequeuedIsLive(k);
    if q == [] {
      InterruptHalts(k);
    } else if IsBlocking(k, q[0]) {
      RotateKeeps(k);
    } else {
      DispatchKeeps(k);
    }
  }

  lemma RequeuedIsLive(k: Kernel)
    requires QueueOk(k)
    ensures var q := Requeued(k);
      && NoRepeats(q) && 0 !in q && (forall x :: x in q <==> x in Live(k)) && (forall x :: x in q ==> x in k.procs)
  {
    assert forall x :: x in Requeued(k) <==> x in Live(k);
  }

  lemma InterruptHalts(k: Kernel)
    requires Inv(k) && Requeued(k) == []
    ensures Inv(InterruptStep(k))
  {
    hide BlockOk, ListenersOk, OwnerOk, ActiveListed;
    SameObjects(k, InterruptStep(k));
  }

  lemma {:induction false} RotateKeeps(k: Kernel)
    requires Inv(k) && Requeued(k) != [] && IsBlocking(k, Requeued(k)[0])
    ensures Inv(InterruptStep(k))
  {
    hide NoRepeats, BlockOk, ListenersOk, OwnerOk, ActiveListed, Exclusive;
    var q := Requeued(k);
    RequeuedIsLive(k);
    var k' := InterruptStep(k);
    Rotated(q);
    assert k'.procs == k.procs && k'.blocks == k.blocks;
    assert Live(k') == Live(k) by {
      assert forall x :: x in k'.queue <==> x in q;
    }
    SameObjects(k, k');
  }

  lemma Rotated(q: seq<nat>)
    requires q != [] && NoRepeats(q)
    ensures NoRepeats(q[1..] + [q[0]]) && NoRepeats(q[1..]) && q[0] !in q[1..]
    ensures forall x :: x in q[1..] + [q[0]] <==> x in q
  {
    assert q == [q[0]] + q[1..];
  }

  lemma DispatchFields(k: Kernel, p: nat, rest: seq<nat>)
    ensures var k' := Dispatch(k, p, rest);
      k'.queue == rest && k'.current == p && k'.registerBlock == p && k'.space == SpaceOf(k, p)
  {
  }

  /** The object part of the invariant depends on the objects only. */
  lemma SameObjects(k: Kernel, k': Kernel)
    requires k'.procs == k.procs && k'.blocks == k.blocks
    requires forall p :: p in k.procs ==> BlockOk(k, p) && ListenersOk(k, p)
    requires forall b :: b in k.blocks ==> OwnerOk(k, b) && ActiveListed(k, b)
    ensures Exclusive(k) ==> Exclusive(k')
    ensures forall p :: p in k'.procs ==> BlockOk(k', p) && ListenersOk(k', p)
    ensures forall b :: b in k'.blocks ==> OwnerOk(k', b) && ActiveListed(k', b)
  {
    forall p | p in k'.procs
      ensures BlockOk(k', p) && ListenersOk(k', p)
    {
      assert BlockOk(k, p) && ListenersOk(k, p);
    }
    forall b | b in k'.blocks
      ensures OwnerOk(k', b) && ActiveListed(k', b)
    {
      assert OwnerOk(k, b) && ActiveListed(k, b);
    }
  }

  lemma DispatchKeeps(k: Kernel)
    requires Inv(k) && Requeued(k) != [] && !IsBlocking(k, Requeued(k)[0])
    ensures Inv(InterruptStep(k))
  {
    hide NoRepeats, BlockOk, ListenersOk, OwnerOk, ActiveListed, Exclusive, Dispatch, Live, Requeued, IsBlocking,
         QueueOk, RegistersOk, SpaceOk;
    var q := Requeued(k);
    RequeuedIsLive(k);
    assert q[0] in q && q == [q[0]] + q[1..];
    DispatchKeepsListeners(k, q[0], q[1..]);
    DispatchKeepsBlocks(k, q[0], q[1..]);
    DispatchKeepsQueue(k, q[0], q[1..]);
  }

  lemma DispatchKeepsQueue(k: Kernel, p: nat, rest: seq<nat>)
    requires QueueOk(k) && Requeued(k) == [p] + rest
    requires p in Dispatch(k, p, rest).procs && Dispatch(k, p, rest).procs[p].block == 0
    ensures QueueOk(Dispatch(k, p, rest)) && RegistersOk(Dispatch(k, p, rest)) && SpaceOk(Dispatch(k, p, rest))
  {
    hide NoRepeats, Dispatch;
    RequeuedIsLive(k);
    Rotated(Requeued(k));
    assert p in Requeued(k);
    DispatchFields(k, p, rest);
    DispatchLive(k, p, rest);
  }

  lemma DispatchLive(k: Kernel, p: nat, rest: seq<nat>)
    requires p in k.procs && p != 0 && k.procs.Keys == Live(k) + k.unqueued
    requires Requeued(k) == [p] + rest
    ensures var k' := Dispatch(k, p, rest);
      && k'.procs.Keys == k.procs.Keys && Live(k') == Live(k) && k'.unqueued == k.unqueued
      && k'.procs[p].thread == k.procs[p].thread
  {
    assert forall x :: x in Requeued(k) <==> x in Live(k);
  }

  /** Dispatching takes the block of `p` away and changes its register and memory. */
  lemma DispatchShape(k: Kernel, p: nat, rest: seq<nat>)
    requires p in k.procs && BlockOk(k, p)
    ensures var k', b := Dispatch(k, p, rest), k.procs[p].block;
      && k'.procs.Keys == k.procs.Keys && k'.procs[p].block == 0
      && k'.blocks == (if b != 0 then k.blocks - {b} else k.blocks)
      && (forall x :: x in k.procs ==>
        k'.procs[x].pid == k.procs[x].pid && k'.procs[x].listeners == k.procs[x].listeners)
      && (forall x :: x in k.procs && x != p ==> k'.procs[x] == k.procs[x])
  {
  }

  lemma DispatchKeepsListeners(k: Kernel, p: nat, rest: seq<nat>)
    requires Inv(k) && p in k.procs && !IsBlocking(k, p)
    ensures var k' := Dispatch(k, p, rest);
      && (forall x :: x in k'.procs ==> BlockOk(k', x) && ListenersOk(k', x))
      && Exclusive(k') && p in k'.procs && k'.procs[p].block == 0
  {
    hide QueueOk, RegistersOk, SpaceOk, OwnerOk, ActiveListed, Dispatch;
    var k' := Dispatch(k, p, rest);
    assert BlockOk(k, p);
    DispatchShape(k, p, rest);
    forall x | x in k'.procs
      ensures BlockOk(k', x) && ListenersOk(k', x)
    {
      assert BlockOk(k, x) && ListenersOk(k, x);
    }
  }

  lemma DispatchKeepsBlocks(k: Kernel, p: nat, rest: seq<nat>)
    requires Inv(k) && p in k.procs && !IsBlocking(k, p)
    ensures var k' := Dispatch(k, p, rest);
      forall b :: b in k'.blocks ==> OwnerOk(k', b) && ActiveListed(k', b)
  {
    hide QueueOk, RegistersOk, ListenersOk, Exclusive;
    var k' := Dispatch(k, p, rest);
    assert BlockOk(k, p);
    forall c | c in k'.blocks
      ensures OwnerOk(k', c) && ActiveListed(k', c)
    {
      assert OwnerOk(k, c) && ActiveListed(k, c);
      if k.blocks[c].active {
        var y :| y in k.procs && c in k.procs[y].listeners;
        assert c in k'.procs[y].listeners;
      }
    }
  }

  lemma StepKeepsInv(k: Kernel, e: Event)
    requires Inv(k) && Enabled(k, e)
    ensures Inv(Next(k, e))
  {
    match e
    case Create(p, pid, origin) => CreateKeeps(k, p, pid, origin);
    case Schedule(p) => ScheduleKeeps(k, p);
    case Interrupt => InterruptKeeps(k);
    case Exit(code) => ExitKeeps(k, code);
    case Wait(pid, loc, b, garbage) => WaitKeeps(k, pid, loc, b, garbage);
    case Execute(r0, memory, shared) => ExecuteKeeps(k, r0, memory, shared);
  }

  /** Only Schedule makes a process live, one that Create made, and only Exit removes one. */
  lemma LiveChangesOnly(k: Kernel, e: Event)
    requires Inv(k) && Enabled(k, e)
    ensures Live(Next(k, e)) == match e
      case Schedule(p) => Live(k) + {p}
      case Exit(_) => Live(k) - {k.current}
      case _ => Live(k)
    ensures Next(k, e).unqueued == match e
      case Create(p, _, _) => k.unqueued + {p}
      case Schedule(p) => k.unqueued - {p}
      case _ => k.unqueued
  {
    hide NoRepeats, BlockOk, ListenersOk, OwnerOk, ActiveListed, Exclusive, Live;
    StepKeepsInv(k, e);
    match e
    case Interrupt =>
      if Requeued(k) != [] {
        RequeuedIsLive(k);
        assert Requeued(k)[0] in Requeued(k);
      }
    case Create(_, _, _) => SameLive(k, Next(k, e));
    case Schedule(_) => OneMoreLive(k, e.proc);
    case Exit(_) =>
    case Wait(pid, loc, b, garbage) => WaitShape(k, pid, loc, b, garbage);
    case Execute(r0, memory, shared) => ExecuteShape(k, r0, memory, shared);
  }

  lemma SameLive(k: Kernel, k': Kernel)
    requires k'.queue == k.queue && k'.current == k.current
    ensures Live(k') == Live(k)
  {
  }

  lemma OneMoreLive(k: Kernel, p: nat)
    ensures Live(ScheduleStep(k, p)) == Live(k) + {p}
  {
  }

  // ----- code that runs without a current process

  /** The next process is blocked while the registers of some process are in use. */
  predicate TakesBlocked(k: Kernel) {
    Requeued(k) != [] && IsBlocking(k, Requeued(k)[0]) && k.registerBlock != 0
  }

  /** An interrupt leaves the register block to the current process, or empty with none, unless the
      process it takes is blocked while some registers are in use. */
  lemma RegistersMatchExactly(k: Kernel)
    requires Inv(k)
    ensures InterruptStep(k).registerBlock == InterruptStep(k).current <==> !TakesBlocked(k)
  {
    hide NoRepeats, BlockOk, ListenersOk, OwnerOk, ActiveListed, Exclusive;
    RequeuedIsLive(k);
    if Requeued(k) == [] {
      assert k.registerBlock !in Live(k);
    }
  }

  /** Code runs that the scheduler does not know of: its next call of exit, wait or fork goes through
      the null pointer `current_process`. */
  predicate Stranded(k: Kernel) {
    k.registerBlock != 0 && k.current == 0
  }

  /** Code is stranded by an interrupt that takes a blocked process while registers are in use, by
      nothing else, and stays so until an interrupt takes another; it runs on but cannot call. */
  lemma StrandedExactly(k: Kernel, e: Event)
    requires Inv(k) && Enabled(k, e)
    ensures Stranded(Next(k, e)) <==> if e.Interrupt? then TakesBlocked(k) else Stranded(k)
    ensures Stranded(k) ==> !e.Exit? && !e.Wait? && !(e.Create? && e.origin.Forked?)
    ensures Stranded(Next(k, e)) ==>
      forall r0, memory, shared :: Enabled(Next(k, e), Execute(r0, memory, shared))
  {
    hide Inv;
    match e
    case Interrupt =>
      RegistersMatchExactly(k);
      CurrentIsReal(k);
    case Create(_, _, _) =>
    case Schedule(_) =>
    case Exit(_) =>
    case Wait(_, _, _, _) =>
    case Execute(_, _, _) =>
  }

  lemma CurrentIsReal(k: Kernel)
    requires Inv(k)
    ensures Requeued(k) != [] ==> Requeued(k)[0] != 0
    ensures Requeued(k) == [] ==> k.registerBlock == 0
  {
    hide NoRepeats, BlockOk, ListenersOk, OwnerOk, ActiveListed, Exclusive;
    RequeuedIsLive(k);
    if Requeued(k) == [] {
      assert k.registerBlock !in Live(k);
    } else {
      assert Requeued(k)[0] in Requeued(k);
    }
  }

  // ----- code in the address space of another

  /** The registers in use belong to a process with an address space of its own. */
  predicate RunsUserCode(k: Kernel) {
    k.registerBlock != 0 && !ProcAt(k, k.registerBlock).thread
  }

  predicate AtHome(k: Kernel) {
    RunsUserCode(k) ==> k.space == k.registerBlock
  }

  /** The step enables another address space, or none, under running user code. */
  predicate Displaces(k: Kernel, e: Event) {
    RunsUserCode(k) && ((e.Interrupt? && TakesBlocked(k)) || (e.Create? && e.origin.Loaded?))
  }

  /** A step leaves user code in its own address space if and only if it does not displace it; for
      an interrupt or a fork this holds wherever the code ran before. */
  lemma UserCodeAtHomeExactly(k: Kernel, e: Event)
    requires Inv(k) && Enabled(k, e) && (AtHome(k) || e.Interrupt? || (e.Create? && e.origin.Forked?))
    ensures AtHome(Next(k, e)) <==> !Displaces(k, e)
  {
    hide NoRepeats, BlockOk, ListenersOk, OwnerOk, ActiveListed, Exclusive;
    match e
    case Interrupt => InterruptHome(k);
    case Create(_, _, _) =>
    case Schedule(_) =>
    case Exit(_) =>
    case Wait(_, _, _, _) =>
    case Execute(r0, memory, shared) => ExecuteShape(k, r0, memory, shared);
  }

  lemma InterruptHome(k: Kernel)
    requires Inv(k)
    ensures AtHome(InterruptStep(k)) <==> !(RunsUserCode(k) && TakesBlocked(k))
  {
    hide NoRepeats, BlockOk, ListenersOk, OwnerOk, ActiveListed, Exclusive;
    RequeuedIsLive(k);
    CurrentIsReal(k);
    if Requeued(k) != [] {
      assert Requeued(k)[0] in Requeued(k);
    }
  }

  // ----- runs

  predicate IsStep(k: Kernel, e: Event, k': Kernel) {
    Enabled(k, e) && k' == Next(k, e)
  }

  predicate IsRun(states: seq<Kernel>, events: seq<Event>) {
    && |states| == |events| + 1 && states[0] == BOOT
    && forall i :: 0 <= i < |events| ==> IsStep(states[i], events[i], states[i + 1])
  }

  lemma BootOk()
    ensures Inv(BOOT)
  {
  }

  /** The invariant holds in every state of every run. */
  lemma {:induction false} EveryRunKeepsInv(states: seq<Kernel>, events: seq<Event>, n: nat)
    requires IsRun(states, events) && n <= |events|
    ensures Inv(states[n])
  {
    hide Inv, Next, Enabled;
    if n == 0 {
      BootOk();
    } else {
      EveryRunKeepsInv(states, events, n - 1);
      assert IsStep(states[n - 1], events[n - 1], states[n]);
      StepKeepsInv(states[n - 1], events[n - 1]);
    }
  }

  /** In a run without displacing steps, user code always runs in its own address space. */
  lemma {:induction false} UserCodeStaysHome(states: seq<Kernel>, events: seq<Event>, n: nat)
    requires IsRun(states, events) && n <= |events|
    requires forall i :: 0 <= i < n ==> !Displaces(states[i], events[i])
    ensures AtHome(states[n])
  {
    hide Inv, Next, Enabled, AtHome, Displaces;
    if n == 0 {
      BootAtHome();
    } else {
      UserCodeStaysHome(states, events, n - 1);
      EveryRunKeepsInv(states, events, n - 1);
      assert IsStep(states[n - 1], events[n - 1], states[n]);
      UserCodeAtHomeExactly(states[n - 1], events[n - 1]);
    }
  }

  lemma BootAtHome()
    ensures AtHome(BOOT)
  {
  }

  // ----- a run in which code is stranded

  /** The first process waits for the second, which then goes on when the first is blocked. */
  const WITNESS_START := [Schedule(1), Schedule(2), Event.Interrupt, Wait(3, 0, 7, 0)]
  const WITNESS_END := [Event.Interrupt, Event.Interrupt, Execute(5, map[64 := 9], map[])]

  function WitnessEvents(o: Origin): (events: seq<Event>)
    ensures |events| == 9
  {
    [Create(1, 2, o), Create(2, 3, o)] + WITNESS_START + WITNESS_END
  }

  lemma WitnessStart(o: Origin) returns (states: seq<Kernel>)
    requires !o.Forked?
    ensures IsRun(states, [Create(1, 2, o), Create(2, 3, o)] + WITNESS_START)
    ensures states[6] == Kernel([2, 1], 0, 0, if o.Thread? then 0 else 1, {},
      map[1 := Proc(2, o.Thread?, 7, [], 0, map[]), 2 := Proc(3, o.Thread?, 0, [7], 0, map[])],
      map[7 := WaitBlock(3, 0, 1, true, 0, 0)], map[], false)
  {
    var a := Next(BOOT, Create(1, 2, o));
    var k0 := Next(a, Create(2, 3, o));
    assert k0.unqueued == {1, 2};
    var k1 := Next(k0, Schedule(1));
    var k2 := Next(k1, Schedule(2));
    assert k2.queue == [1, 2] && k2.queue[1..] == [2] && k2.unqueued == {};
    var k3 := Next(k2, Event.Interrupt);
    assert k3.queue == [2] && k3.current == 1 && k3.procs[2].pid == 3;
    assert GetProcess(k3.queue, k3.procs, 3) == 2;
    var k4 := Next(k3, Wait(3, 0, 7, 0));
    assert [7] + k3.procs[2].listeners == [7];
    assert k4.procs == map[1 := Proc(2, o.Thread?, 7, [], 0, map[]), 2 := Proc(3, o.Thread?, 0, [7], 0, map[])];
    assert k4.queue == [2, 1] && k4.blocks == map[7 := WaitBlock(3, 0, 1, true, 0, 0)];
    states := [BOOT, a, k0, k1, k2, k3, k4];
  }

  /** Two kernel threads, or two loaded processes: the second runs on without being current. A
      kernel thread stays in the kernel's address space and only loses its calls; what a process with an
      address space of its own writes ends up in that of the waiting one. */
  lemma BlockedInterruptWitness(o: Origin) returns (states: seq<Kernel>)
    requires !o.Forked?
    ensures |states| == 10 && IsRun(states, WitnessEvents(o))
    ensures states[7].current == states[7].registerBlock == 2 && AtHome(states[7])
    ensures Stranded(states[8]) && states[8].registerBlock == 2 && Inv(states[8])
    ensures o.Thread? ==> states[8].space == 0 && AtHome(states[8])
    ensures o.Loaded? ==> states[8].space == 1 && ProcAt(states[9], 1).memory == map[64 := 9]
    ensures ProcAt(states[9], 2).memory == map[] && ProcAt(states[9], 2).r0 == 5
  {
    var start := WitnessStart(o);
    var k4 := start[6];
    assert k4.queue[1..] == [1];
    var k5 := Next(k4, Event.Interrupt);
    assert k5.queue == [1] && Requeued(k5) == [1, 2];
    var k6 := Next(k5, Event.Interrupt);
    var k7 := Next(k6, WITNESS_END[2]);
    states := start + [k5, k6, k7];
    var events := WitnessEvents(o);
    var first := [Create(1, 2, o), Create(2, 3, o)] + WITNESS_START;
    forall i | 0 <= i < 9
      ensures IsStep(states[i], events[i], states[i + 1])
    {
      assert i < 6 ==> IsStep(start[i], first[i], start[i + 1]);
    }
    assert IsRun(states, events);
    EveryRunKeepsInv(states, events, 8);
    assert states[7] == k5 && states[8] == k6 && states[9] == k7;
  }
}
