/** What a well-behaved controller makes of the SD protocol: every command is answered by one
    buffer-read-ready and then one transfer-complete interrupt. */
module SdService {
  import opened Arithmetic
  import opened Common
  import opened SdProtocol

  /** The controller signals only what it owes the driver. */
  predicate Conforming(s: Sd, e: Event) {
    e.Irq? && e.line == SD_IRQ && s.active != 0 ==>
      if e.brr then s.phase == Fetching else e.tc ==> s.phase == Transferred
  }

  /** Blocks actually transferred for a request: a request for no blocks still reads one. */
  function Transfers(blocks: nat): nat {
    if blocks == 0 then 1 else blocks
  }

  /** The first `n` commands of a request: consecutive blocks from its address. */
  function Fetch(op: nat, address: nat, n: nat): seq<Command> {
    if n == 0 then [] else Fetch(op, address, n - 1) + [Command(op, n - 1, Wrap(address + (n - 1)))]
  }

  /** All commands of the requests `ids`, one request after the other. */
  function Served(s: Sd, ids: seq<nat>): seq<Command> {
    if ids == [] then []
    else
      var p := ids[|ids| - 1];
      Served(s, ids[..|ids| - 1]) + Fetch(p, OpAt(s, p).address, Transfers(OpAt(s, p).blocks))
  }

  /** Commands sent for the active request so far. */
  function Issued(s: Sd): nat {
    OpAt(s, s.active).blocksRead + if s.phase == Fetching then 1 else 0
  }

  predicate ActiveServed(s: Sd) {
    var o := OpAt(s, s.active);
    && s.phase != Quiet && Issued(s) <= Transfers(o.blocks) && (s.phase == Transferred ==> o.blocksRead > 0)
  }

  /** The command log is that of the completed requests in order, then that of the active one. */
  ghost predicate Serving(s: Sd) {
    && (forall p :: p in s.completed ==> OpAt(s, p).blocksRead == Transfers(OpAt(s, p).blocks))
    && (s.active == 0 ==> s.commands == Served(s, s.completed))
    && (s.active != 0 ==> ActiveServed(s))
    && (s.active != 0 ==>
          s.commands == Served(s, s.completed) + Fetch(s.active, OpAt(s, s.active).address, Issued(s)))
  }

  lemma {:induction false} ServedKept(s: Sd, s': Sd, ids: seq<nat>)
    requires SameRequests(s, s') && forall p :: p in ids ==> p in s.ops
    ensures Served(s', ids) == Served(s, ids)
  {
    if ids != [] {
      assert ids[|ids| - 1] in ids;
      ServedKept(s, s', ids[..|ids| - 1]);
    }
  }

  lemma InitiateNextServes(s: Sd)
    requires Steady(s) && s.active == 0 && Serving(s)
    ensures Serving(InitiateNext(s))
  {
    hide InOrder, OpsOk, CommandOk;
    if s.queue != [] {
      var s' := InitiateNext(s);
      InitiateNextOrder(s);
      InitiateNextOthers(s);
      ServedKept(s, s', s.completed);
      assert Fetch(s'.active, OpAt(s', s'.active).address, 0) == [];
    }
  }

  lemma InitiateNextOthers(s: Sd)
    requires Steady(s) && s.active == 0 && s.queue != []
    ensures forall p :: p in s.completed ==> p in s.ops && OpAt(InitiateNext(s), p) == OpAt(s, p)
    ensures OpAt(s, s.queue[0]).blocksRead == 0
  {
    hide NoRepeats, CommandOk;
    Apart(s.completed, [], s.queue);
    assert forall p :: p in s.completed ==> p in s.posted;
    assert s.queue[0] in s.queue && QueuedOk(s, s.queue[0]);
  }

  lemma PushServes(s: Sd, op: nat, blocks: Word, address: Word)
    requires Inv(s) && Serving(s) && Enabled(s, Push(op, blocks, address))
    ensures Serving(PushStep(s, op, blocks, address))
  {
    hide NoRepeats, CommandOk;
    var s' := PushStep(s, op, blocks, address);
    ServedKept(s, s', s.completed);
    forall p | p in s.posted
      ensures p in s.ops && OpAt(s', p) == OpAt(s, p)
    {
    }
    assert forall p :: p in s.completed ==> p in s.posted;
  }

  lemma StartServes(s: Sd)
    requires Inv(s) && Serving(s) && Enabled(s, Start)
    ensures Serving(StartStep(s))
  {
    hide Serving, InOrder, OpsOk, CommandOk, InitiateNext;
    var s1 := s.(between := s.between - 1);
    SteadyExceptBetween(s, s1);
    if s.active == 0 {
      InitiateNextServes(s1);
    }
  }

  lemma SteadyExceptBetween(s: Sd, s1: Sd)
    requires Inv(s) && Serving(s) && s1 == s.(between := s1.between)
    ensures Steady(s1) && Serving(s1)
  {
    hide NoRepeats, DoneOk, QueuedOk, Fetch, Served;
    assert forall p :: OpAt(s1, p) == OpAt(s, p);
    assert forall p :: p in s.completed ==> p in s.posted;
    ServedKept(s, s1, s.completed);
    CommandsKept(s, s1);
    OpsKept(s, s1);
  }

  lemma OpsKept(s: Sd, s1: Sd)
    requires OpsOk(s) && s1 == s.(between := s1.between)
    ensures OpsOk(s1)
  {
    assert forall p :: (DoneOk(s, p) ==> DoneOk(s1, p)) && (QueuedOk(s, p) ==> QueuedOk(s1, p));
  }

  lemma DataServes(s: Sd)
    requires Inv(s) && Serving(s) && s.active != 0 && s.phase == Fetching
    ensures Serving(DataStep(s))
  {
    hide InOrder, OpsOk, CommandOk, Served, Fetch;
    ActiveIsNotDone(s);
    ServedKept(s, DataStep(s), s.completed);
    WrapOnce(OpAt(s, s.active).blocksRead + 1);
  }

  lemma FinishServes(s: Sd)
    requires Inv(s) && Serving(s) && s.active != 0 && s.phase == Transferred
    requires OpAt(s, s.active).blocksRead >= OpAt(s, s.active).blocks
    ensures Serving(Finish(s))
  {
    hide Served, Fetch, CommandOk;
    Apart(s.completed, Current(s), s.queue);
    FinishLog(s);
  }

  lemma FinishLog(s: Sd)
    requires Inv(s) && s.active != 0
    ensures Served(Finish(s), Finish(s).completed) ==
      Served(s, s.completed) + Fetch(s.active, OpAt(s, s.active).address, Transfers(OpAt(s, s.active).blocks))
  {
    hide OpsOk, CommandOk;
    var s1 := Finish(s);
    assert forall p :: p in s.completed + Current(s) ==> p in s.posted;
    assert s.active in s.completed + Current(s);
    ServedKept(s, s1, s.completed);
    assert s1.completed[..|s1.completed| - 1] == s.completed;
  }

  lemma TransferServes(s: Sd)
    requires Inv(s) && Serving(s) && s.active != 0 && s.phase == Transferred
    ensures Serving(TransferStep(s))
  {
    var o := OpAt(s, s.active);
    if o.blocksRead < o.blocks {
      NextBlockServes(s);
    } else {
      FinishServes(s);
      FinishKeeps(s);
      InitiateNextServes(Finish(s));
    }
  }

  lemma NextBlockServes(s: Sd)
    requires Inv(s) && Serving(s) && s.active != 0 && s.phase == Transferred
    requires OpAt(s, s.active).blocksRead < OpAt(s, s.active).blocks
    ensures Serving(Send(s))
  {
    hide NoRepeats, CommandOk;
    ServedKept(s, Send(s), s.completed);
  }

  lemma StepServes(s: Sd, e: Event)
    requires Inv(s) && Serving(s) && Enabled(s, e) && Conforming(s, e)
    ensures Serving(Next(s, e))
  {
    match e
    case Push(op, blocks, address) => PushServes(s, op, blocks, address);
    case Start => StartServes(s);
    case Irq(line, brr, tc, _) =>
      if line == SD_IRQ && s.active != 0 {
        if brr {
          DataServes(s);
        } else if tc {
          TransferServes(s);
        }
      }
  }

  ghost predicate ConformingRun(states: seq<Sd>, events: seq<Event>) {
    IsRun(states, events) && forall i :: 0 <= i < |events| ==> Conforming(states[i], events[i])
  }

  /** In every run of a well-behaved controller the driver has sent, request after request in
      posting order, one command for each consecutive block, and no others. */
  lemma {:induction false} EveryRunServes(states: seq<Sd>, events: seq<Event>, n: nat)
    requires ConformingRun(states, events) && n <= |events|
    ensures Serving(states[n])
  {
    hide Next, Enabled, Inv, Conforming;
    if n > 0 {
      EveryRunServes(states, events, n - 1);
      EveryRunKeepsInv(states, events, n - 1);
      assert IsStep(states[n - 1], events[n - 1], states[n]);
      StepServes(states[n - 1], events[n - 1]);
    }
  }

  // ----- the log in terms of what was posted

  datatype Request = Request(op: nat, blocks: nat, address: nat)

  /** The requests posted in the first `n` events, in order. */
  function Requests(events: seq<Event>, n: nat): seq<Request>
    requires n <= |events|
  {
    if n == 0 then []
    else
      Requests(events, n - 1) + match events[n - 1]
        case Push(op, blocks, address) => [Request(op, blocks, address)]
        case _ => []
  }

  /** Request `i` is known under its address as it was posted. */
  predicate KnownAs(s: Sd, r: Request, i: nat) {
    && i < |s.posted| && s.posted[i] == r.op
    && r.op in s.ops && s.ops[r.op].blocks == r.blocks && s.ops[r.op].address == r.address
  }

  lemma StepKeepsRequests(s: Sd, e: Event)
    requires Inv(s) && Enabled(s, e)
    ensures SameRequests(s, Next(s, e))
    ensures Next(s, e).posted == s.posted + if e.Push? then [e.op] else []
    ensures e.Push? ==> KnownAs(Next(s, e), Request(e.op, e.blocks, e.address), |s.posted|)
  {
    hide NoRepeats, CommandOk, OpsOk;
    ActiveIsNotDone(s);
    assert s.queue != [] ==> s.queue[0] in s.queue;
  }

  /** In every run the requests known are those posted, with the blocks and address they came with. */
  lemma {:induction false} PostedAsRequested(states: seq<Sd>, events: seq<Event>, n: nat)
    requires IsRun(states, events) && n <= |events|
    ensures |states[n].posted| == |Requests(events, n)|
    ensures forall i :: 0 <= i < |Requests(events, n)| ==> KnownAs(states[n], Requests(events, n)[i], i)
  {
    hide Next, Enabled, Inv;
    if n > 0 {
      PostedAsRequested(states, events, n - 1);
      EveryRunKeepsInv(states, events, n - 1);
      assert IsStep(states[n - 1], events[n - 1], states[n]);
      StepKeepsRequests(states[n - 1], events[n - 1]);
    }
  }

  function Consecutive(op: nat, address: nat, n: nat): seq<Command> {
    seq(n, i requires 0 <= i < n => Command(op, i, (address + i) % 0x1_0000_0000))
  }

  /** Block reads for all of `rs`, one request after the other: consecutive blocks from each address. */
  function Reads(rs: seq<Request>): seq<Command> {
    if rs == [] then []
    else
      var r := rs[|rs| - 1];
      Reads(rs[..|rs| - 1]) + Consecutive(r.op, r.address, Transfers(r.blocks))
  }

  lemma {:induction false} FetchIsConsecutive(op: nat, address: nat, n: nat)
    ensures Fetch(op, address, n) == Consecutive(op, address, n)
  {
    if n > 0 {
      FetchIsConsecutive(op, address, n - 1);
    }
  }

  lemma {:induction false} ServedIsReads(s: Sd, ids: seq<nat>, rs: seq<Request>)
    requires |ids| == |rs| && ids <= s.posted && forall i :: 0 <= i < |rs| ==> KnownAs(s, rs[i], i)
    ensures Served(s, ids) == Reads(rs)
  {
    if ids != [] {
      var n := |ids| - 1;
      ServedIsReads(s, ids[..n], rs[..n]);
      assert KnownAs(s, rs[n], n);
      FetchIsConsecutive(ids[n], OpAt(s, ids[n]).address, Transfers(OpAt(s, ids[n]).blocks));
    }
  }

  /** Once everything posted is complete, the controller has been sent exactly the consecutive blocks
      of each request, as posted and in posting order. */
  lemma AllReadAsPosted(states: seq<Sd>, events: seq<Event>, n: nat)
    requires ConformingRun(states, events) && n <= |events| && states[n].completed == states[n].posted
    ensures states[n].commands == Reads(Requests(events, n))
  {
    hide Next, Enabled, Conforming, Served, Fetch, Reads, CommandOk;
    EveryRunServes(states, events, n);
    EveryRunKeepsInv(states, events, n);
    PostedAsRequested(states, events, n);
    assert |states[n].posted| == |states[n].completed| + |Current(states[n])| + |states[n].queue|;
    ServedIsReads(states[n], states[n].completed, Requests(events, n));
  }

  // ----- progress

  function {:induction false} QueueWork(s: Sd, ids: seq<nat>): nat {
    if ids == [] then 0 else Transfers(OpAt(s, ids[0]).blocks) + QueueWork(s, ids[1..])
  }

  /** Transfer-complete interrupts still needed to finish everything posted. */
  function Remaining(s: Sd): int {
    QueueWork(s, s.queue) +
    if s.active == 0 then 0
    else Transfers(OpAt(s, s.active).blocks) - OpAt(s, s.active).blocksRead + if s.phase == Transferred then 1 else 0
  }

  /** The work a step adds, less the work it does. */
  function Added(e: Event): nat {
    if e.Push? then Transfers(e.blocks) else 0
  }

  function Done(s: Sd, e: Event): nat {
    if e.Irq? && e.line == SD_IRQ && s.active != 0 && !e.brr && e.tc then 1 else 0
  }

  lemma {:induction false} QueueWorkKept(s: Sd, s': Sd, ids: seq<nat>)
    requires SameRequests(s, s') && forall p :: p in ids ==> p in s.ops
    ensures QueueWork(s', ids) == QueueWork(s, ids)
  {
    if ids != [] {
      QueueWorkKept(s, s', ids[1..]);
    }
  }

  lemma {:induction false} QueueWorkAppend(s: Sd, ids: seq<nat>, p: nat)
    ensures QueueWork(s, ids + [p]) == QueueWork(s, ids) + Transfers(OpAt(s, p).blocks)
  {
    if ids == [] {
      assert QueueWork(s, []) == 0;
      assert ([] + [p])[1..] == [];
    } else {
      QueueWorkAppend(s, ids[1..], p);
      assert (ids + [p])[1..] == ids[1..] + [p];
    }
  }

  lemma InitiateNextWork(s: Sd)
    requires Steady(s) && s.active == 0
    ensures Remaining(InitiateNext(s)) == Remaining(s)
  {
    hide NoRepeats, CommandOk;
    if s.queue != [] {
      var op, s' := s.queue[0], InitiateNext(s);
      assert op in s.queue && QueuedOk(s, op);
      assert forall p :: p in s.queue ==> p in s.posted;
      QueueWorkKept(s, s', s.queue[1..]);
    }
  }

  lemma PushWork(s: Sd, op: nat, blocks: Word, address: Word)
    requires Inv(s) && Enabled(s, Push(op, blocks, address))
    ensures Remaining(PushStep(s, op, blocks, address)) == Remaining(s) + Transfers(blocks)
  {
    hide NoRepeats, CommandOk;
    var s' := PushStep(s, op, blocks, address);
    assert forall p :: p in s.queue + Current(s) ==> p in s.posted;
    assert s.active != 0 ==> s.active in s.queue + Current(s);
    QueueWorkKept(s, s', s.queue);
    QueueWorkAppend(s', s.queue, op);
  }

  lemma StartWork(s: Sd)
    requires Inv(s) && Enabled(s, Start)
    ensures Remaining(StartStep(s)) == Remaining(s)
  {
    var s1 := s.(between := s.between - 1);
    CommandsKept(s, s1);
    assert forall p :: p in s.queue ==> p in s.posted;
    QueueWorkKept(s, s1, s.queue);
    if s.active == 0 {
      InitiateNextWork(s1);
    }
  }

  lemma DataWork(s: Sd)
    requires Inv(s) && Serving(s) && s.active != 0 && s.phase == Fetching
    ensures Remaining(DataStep(s)) == Remaining(s)
  {
    hide NoRepeats, CommandOk;
    assert forall p :: p in s.queue ==> p in s.posted;
    QueueWorkKept(s, DataStep(s), s.queue);
    WrapOnce(OpAt(s, s.active).blocksRead + 1);
  }

  lemma FinishWork(s: Sd)
    requires Inv(s) && Serving(s) && s.active != 0 && s.phase == Transferred
    requires OpAt(s, s.active).blocksRead >= OpAt(s, s.active).blocks
    ensures Remaining(Finish(s)) == Remaining(s) - 1
  {
    hide NoRepeats, CommandOk;
    Apart(s.completed, Current(s), s.queue);
    assert forall p :: p in s.queue ==> p in s.posted;
    QueueWorkKept(s, Finish(s), s.queue);
  }

  lemma TransferWork(s: Sd)
    requires Inv(s) && Serving(s) && s.active != 0 && s.phase == Transferred
    ensures Remaining(TransferStep(s)) == Remaining(s) - 1
  {
    var o := OpAt(s, s.active);
    if o.blocksRead < o.blocks {
      NextBlockWork(s);
    } else {
      FinishWork(s);
      FinishKeeps(s);
      InitiateNextWork(Finish(s));
    }
  }

  lemma NextBlockWork(s: Sd)
    requires Inv(s) && s.active != 0 && s.phase == Transferred
    ensures Remaining(Send(s)) == Remaining(s) - 1
  {
    hide NoRepeats, CommandOk;
    assert forall p :: p in s.queue ==> p in s.posted;
    QueueWorkKept(s, Send(s), s.queue);
  }

  /** Each transfer-complete interrupt does one unit of work; only a push adds any. */
  lemma StepWork(s: Sd, e: Event)
    requires Inv(s) && Serving(s) && Enabled(s, e) && Conforming(s, e)
    ensures Remaining(Next(s, e)) == Remaining(s) + Added(e) - Done(s, e)
  {
    match e
    case Push(op, blocks, address) => PushWork(s, op, blocks, address);
    case Start => StartWork(s);
    case Irq(line, brr, tc, _) =>
      if line == SD_IRQ && s.active != 0 {
        if brr {
          DataWork(s);
        } else if tc {
          TransferWork(s);
        }
      }
  }

  function TotalAdded(events: seq<Event>, n: nat): nat
    requires n <= |events|
  {
    if n == 0 then 0 else TotalAdded(events, n - 1) + Added(events[n - 1])
  }

  function TotalDone(states: seq<Sd>, events: seq<Event>, n: nat): nat
    requires n <= |events| <= |states|
  {
    if n == 0 then 0 else TotalDone(states, events, n - 1) + Done(states[n - 1], events[n - 1])
  }

  /** Over every run, work posted equals transfers completed plus work left. */
  lemma {:induction false} WorkConserved(states: seq<Sd>, events: seq<Event>, n: nat)
    requires ConformingRun(states, events) && n <= |events|
    ensures TotalAdded(events, n) == TotalDone(states, events, n) + Remaining(states[n])
  {
    hide Next, Enabled, Inv, Conforming, Serving, Added, Done;
    if n > 0 {
      WorkConserved(states, events, n - 1);
      EveryRunServes(states, events, n - 1);
      EveryRunKeepsInv(states, events, n - 1);
      assert IsStep(states[n - 1], events[n - 1], states[n]);
      StepWork(states[n - 1], events[n - 1]);
    }
  }

  /** All posted requests are complete exactly when the transfers done make up the work posted. */
  lemma AllCompletedExactly(states: seq<Sd>, events: seq<Event>, n: nat)
    requires ConformingRun(states, events) && n <= |events|
    ensures states[n].completed == states[n].posted <==> TotalDone(states, events, n) == TotalAdded(events, n)
  {
    var s := states[n];
    WorkConserved(states, events, n);
    EveryRunServes(states, events, n);
    EveryRunKeepsInv(states, events, n);
    assert |s.posted| == |s.completed| + |Current(s)| + |s.queue|;
  }
}
