/** The SD driver object: posts and the interrupt handler update the queue, the active request
    and the request counters in place. */
module SdDriver {
  import opened Arithmetic
  import opened SdProtocol
  import KQueue

  class Driver {
    const readQueue: KQueue.Queue<nat>
    var activeRead: nat
    /** Request objects in kernel memory. */
    var ops: map<nat, Op>
    /** The command register's history. */
    var commands: seq<Command>
    ghost var between: nat
    ghost var posted: seq<nat>
    ghost var completed: seq<nat>
    ghost var phase: Phase

    ghost predicate Valid()
      reads this, readQueue, readQueue.nodes
    {
      readQueue.Valid()
    }

    ghost function State(): Sd
      reads this, readQueue
    {
      Sd(ops, activeRead, readQueue.Contents(), between, posted, completed, commands, phase)
    }

    constructor ()
      ensures Valid() && State() == INITIAL
      ensures fresh(readQueue) && fresh(readQueue.nodes)
    {
      readQueue := new KQueue.Queue();
      activeRead, ops, commands := 0, map[], [];
      between, posted, completed, phase := 0, [], [], Quiet;
    }

    method SendCommand17(target: nat)
      requires activeRead in ops
      modifies this`commands, this`phase
      ensures commands == old(commands) + [Command(activeRead, ops[activeRead].blocksRead, target)]
      ensures phase == Fetching
    {
      commands := commands + [Command(activeRead, ops[activeRead].blocksRead, target)];
      phase := Fetching;
    }

    method InitiateRead(op: nat)
      requires op in ops && ops[op].blocksRead == 0
      modifies this`activeRead, this`ops, this`commands, this`phase
      ensures activeRead == op && ops == old(ops)[op := old(ops)[op].(status := Incomplete)]
      ensures commands == old(commands) + [Command(op, 0, ops[op].address)] && phase == Fetching
    {
      ops := ops[op := ops[op].(status := Incomplete)];
      activeRead := op;
      SendCommand17(ops[op].address);
    }

    method InitiateNextRead()
      requires Valid() && Steady(State()) && activeRead == 0
      modifies this`activeRead, this`ops, this`commands, this`phase, readQueue, readQueue.nodes
      ensures Valid() && State() == InitiateNext(old(State()))
      ensures forall n :: n in readQueue.nodes ==> n in old(readQueue.nodes)
    {
      hide KQueue.Queue.Valid, CommandOk, InOrder, OpsOk;
      ghost var s := State();
      if s.queue != [] {
        InitiateNextOrder(s);
        FirstUnread(s);
      }
      var next := readQueue.PopFront();
      match next
      case None =>
      case Some(op) =>
        WrapOnce(ops[op].address);
        InitiateRead(op);
    }

    /** The first half of posting a read. */
    method PushRead(op: nat, blocks: Word, address: Word)
      requires Valid() && Enabled(State(), Push(op, blocks, address))
      modifies this, readQueue, readQueue.nodes
      ensures Valid() && State() == Next(old(State()), Push(op, blocks, address))
      ensures fresh(set n | n in readQueue.nodes && n !in old(readQueue.nodes))
    {
      ops := ops[op := Op(Queued, blocks, 0, address)];
      readQueue.PushBack(op);
      between, posted := between + 1, posted + [op];
    }

    /** The second half: start the next read unless one is active. */
    method StartIfIdle()
      requires Valid() && Inv(State()) && Enabled(State(), Start)
      modifies this, readQueue, readQueue.nodes
      ensures Valid() && State() == Next(old(State()), Start)
      ensures forall n :: n in readQueue.nodes ==> n in old(readQueue.nodes)
    {
      ghost var s1 := State().(between := between - 1);
      CommandsKept(State(), s1);
      between := between - 1;
      if activeRead == 0 {
        InitiateNextRead();
      }
    }

    method IrqHandler(irq: int, brr: bool, tc: bool, cc: bool)
      requires Valid() && Inv(State())
      modifies this, readQueue, readQueue.nodes
      ensures Valid() && State() == Next(old(State()), Irq(irq, brr, tc, cc))
      ensures forall n :: n in readQueue.nodes ==> n in old(readQueue.nodes)
    {
      hide KQueue.Queue.Valid, Inv, Steady, InitiateNext;
      ActiveExists(State());
      if irq != SD_IRQ || activeRead == 0 {
        return;
      }
      var op := ops[activeRead];
      if brr {
        ops := ops[activeRead := op.(blocksRead := Wrap(op.blocksRead + 1))];
        phase := Transferred;
      } else if tc {
        if op.blocksRead < op.blocks {
          SendCommand17(Wrap(op.address + op.blocksRead));
        } else {
          FinishKeeps(State());
          ops := ops[activeRead := op.(status := Successful)];
          completed := completed + [activeRead];
          activeRead, phase := 0, Quiet;
          InitiateNextRead();
        }
      }
    }
  }

  lemma FirstUnread(s: Sd)
    requires Steady(s) && s.queue != []
    ensures OpAt(s, s.queue[0]).blocksRead == 0
  {
    assert QueuedOk(s, s.queue[0]);
  }

  lemma ActiveExists(s: Sd)
    requires Inv(s)
    ensures s.active != 0 ==> s.active in s.ops
  {
    assert s.active != 0 ==> s.active in s.completed + Current(s) + s.queue;
  }
}
