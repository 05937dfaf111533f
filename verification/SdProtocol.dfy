/** The SD read protocol: threads post requests in two steps (push, then check and start) while
    controller interrupts come in between. Requests are objects at addresses; 0 is null. */
module SdProtocol {
  import opened Arithmetic
  import opened Common

  const SD_IRQ: int := 83

  datatype Status = Queued | Incomplete | Successful

  datatype Op = Op(status: Status, blocks: Word, blocksRead: Word, address: Word)

  /** A single-block read command sent for `op` when it had `read` blocks. */
  datatype Command = Command(op: nat, read: nat, target: nat)

  /** What the controller owes the driver: nothing, the data of a command, or its completion. */
  datatype Phase = Quiet | Fetching | Transferred

  /** `between` counts posts that have pushed but not yet checked for an active read. `posted`,
      `completed` and `commands` record the past. */
  datatype Sd = Sd(
    ops: map<nat, Op>, active: nat, queue: seq<nat>, between: nat,
    posted: seq<nat>, completed: seq<nat>, commands: seq<Command>, phase: Phase)

  datatype Event =
    | Push(op: nat, blocks: Word, address: Word)
    | Start
    | Irq(line: int, brr: bool, tc: bool, cc: bool)

  const INITIAL := Sd(map[], 0, [], 0, [], [], [], Quiet)

  predicate Enabled(s: Sd, e: Event) {
    match e
    case Push(op, _, _) => op != 0 && op !in s.ops
    case Start => s.between > 0
    case Irq(_, _, _, _) => true
  }

  function OpAt(s: Sd, op: nat): Op {
    if op in s.ops then s.ops[op] else Op(Queued, 0, 0, 0)
  }

  function Send(s: Sd): Sd {
    var o := OpAt(s, s.active);
    s.(commands := s.commands + [Command(s.active, o.blocksRead, Wrap(o.address + o.blocksRead))], phase := Fetching)
  }

  function InitiateNext(s: Sd): Sd {
    if s.queue == [] then s
    else
      var op := s.queue[0];
      Send(s.(queue := s.queue[1..], active := op, ops := s.ops[op := OpAt(s, op).(status := Incomplete)]))
  }

  function PushStep(s: Sd, op: nat, blocks: Word, address: Word): Sd {
    s.(ops := s.ops[op := Op(Queued, blocks, 0, address)], queue := s.queue + [op],
       posted := s.posted + [op], between := s.between + 1)
  }

  function StartStep(s: Sd): Sd {
    var s1 := s.(between := if s.between > 0 then s.between - 1 else 0);
    if s.active == 0 then InitiateNext(s1) else s1
  }

  /** The buffer-read-ready branch: one block has been fetched. */
  function DataStep(s: Sd): Sd {
    var o := OpAt(s, s.active);
    s.(ops := s.ops[s.active := o.(blocksRead := Wrap(o.blocksRead + 1))], phase := Transferred)
  }

  /** The transfer-complete branch: read the next block, or complete and start the next request. */
  function TransferStep(s: Sd): Sd {
    var o := OpAt(s, s.active);
    if o.blocksRead < o.blocks then Send(s) else InitiateNext(Finish(s))
  }

  function Finish(s: Sd): Sd {
    s.(ops := s.ops[s.active := OpAt(s, s.active).(status := Successful)],
       completed := s.completed + [s.active], active := 0, phase := Quiet)
  }

  function Next(s: Sd, e: Event): Sd {
    match e
    case Push(op, blocks, address) => PushStep(s, op, blocks, address)
    case Start => StartStep(s)
    case Irq(line, brr, tc, _) =>
      if line != SD_IRQ || s.active == 0 then s
      else if brr then DataStep(s)
      else if tc then TransferStep(s)
      else s
  }

  // ----- the invariant, whatever the controller does

  function Current(s: Sd): seq<nat> {
    if s.active == 0 then [] else [s.active]
  }

  /** Requests pass from queue to active to completed in the order they were posted. */
  ghost predicate InOrder(s: Sd) {
    && s.completed + Current(s) + s.queue == s.posted
    && NoRepeats(s.posted) && forall p :: p in s.posted <==> p in s.ops
  }

  predicate DoneOk(s: Sd, p: nat) {
    p != 0 && OpAt(s, p).status == Successful && OpAt(s, p).blocksRead >= OpAt(s, p).blocks
  }

  predicate QueuedOk(s: Sd, p: nat) {
    p != 0 && OpAt(s, p).status == Queued && OpAt(s, p).blocksRead == 0
  }

  ghost predicate OpsOk(s: Sd) {
    && (forall p :: p in s.completed ==> DoneOk(s, p))
    && (forall p :: p in s.queue ==> QueuedOk(s, p))
    && (s.active != 0 ==> OpAt(s, s.active).status == Incomplete)
  }

  /** A command reads the block after those already read, inside the request. */
  predicate CommandOk(s: Sd, c: Command) {
    && c.op in s.ops && c.target == Wrap(s.ops[c.op].address + c.read)
    && (c.read == 0 || c.read < s.ops[c.op].blocks)
  }

  ghost predicate Inv(s: Sd) {
    && InOrder(s) && OpsOk(s)
    && (s.active == 0 && s.queue != [] ==> s.between > 0)
    && (forall i :: 0 <= i < |s.commands| ==> CommandOk(s, s.commands[i]))
  }

  /** The fields a step must leave alone in every operation. */
  ghost predicate SameRequests(s: Sd, s': Sd) {
    forall p :: p in s.ops ==>
      p in s'.ops && s'.ops[p].address == s.ops[p].address && s'.ops[p].blocks == s.ops[p].blocks
  }

  lemma CommandsKept(s: Sd, s': Sd)
    requires SameRequests(s, s') && s.commands <= s'.commands
    requires forall i :: 0 <= i < |s.commands| ==> CommandOk(s, s.commands[i])
    requires forall i :: |s.commands| <= i < |s'.commands| ==> CommandOk(s', s'.commands[i])
    ensures forall i :: 0 <= i < |s'.commands| ==> CommandOk(s', s'.commands[i])
  {
    forall i | 0 <= i < |s'.commands|
      ensures CommandOk(s', s'.commands[i])
    {
      assert i < |s.commands| ==> s'.commands[i] == s.commands[i] && CommandOk(s, s.commands[i]);
    }
  }

  /** All of Inv but the idle condition, which `InitiateNext` re-establishes. */
  ghost predicate Steady(s: Sd) {
    InOrder(s) && OpsOk(s) && forall i :: 0 <= i < |s.commands| ==> CommandOk(s, s.commands[i])
  }

  lemma InitiateNextKeeps(s: Sd)
    requires Steady(s) && s.active == 0
    ensures Steady(InitiateNext(s)) && (InitiateNext(s).active == 0 ==> InitiateNext(s).queue == [])
  {
    hide InOrder, OpsOk, CommandOk;
    if s.queue != [] {
      InitiateNextOrder(s);
      InitiateNextOps(s);
      CommandsKept(s, InitiateNext(s));
    }
  }

  lemma InitiateNextOrder(s: Sd)
    requires Steady(s) && s.active == 0 && s.queue != []
    ensures InOrder(InitiateNext(s)) && SameRequests(s, InitiateNext(s))
    ensures s.queue[0] != 0 && s.queue[0] in s.ops
  {
    hide NoRepeats, CommandOk;
    var op, s' := s.queue[0], InitiateNext(s);
    assert op in s.queue && QueuedOk(s, op);
    assert op in s.completed + Current(s) + s.queue;
    assert s.queue == [op] + s.queue[1..];
    assert s'.completed + Current(s') + s'.queue == s.posted;
  }

  lemma InitiateNextOps(s: Sd)
    requires Steady(s) && s.active == 0 && s.queue != []
    ensures var s' := InitiateNext(s); OpsOk(s') && CommandOk(s', s'.commands[|s.commands|])
  {
    hide NoRepeats;
    Apart(s.completed, [], s.queue);
    assert s.queue[0] in s.queue && QueuedOk(s, s.queue[0]);
    forall p | p in s.queue[1..]
      ensures QueuedOk(InitiateNext(s), p)
    {
      assert p in s.queue && QueuedOk(s, p);
    }
  }

  /** Different places of the order hold different requests. */
  lemma Apart(a: seq<nat>, b: seq<nat>, c: seq<nat>)
    requires NoRepeats(a + b + c)
    ensures NoRepeats(a) && NoRepeats(b) && NoRepeats(c)
    ensures forall p :: p in a ==> p !in b && p !in c
    ensures forall p :: p in b ==> p !in c
    ensures c != [] ==> c[0] !in c[1..]
  {
    var t := a + b + c;
    assert forall i :: 0 <= i < |a| ==> t[i] == a[i];
    assert forall i :: 0 <= i < |b| ==> t[|a| + i] == b[i];
    assert forall i :: 0 <= i < |c| ==> t[|a| + |b| + i] == c[i];
  }

  lemma AppendKeeps(q: seq<nat>, x: nat)
    requires NoRepeats(q) && x !in q
    ensures NoRepeats(q + [x])
  {
  }

  /** The active request is known and not yet completed, the completed ones are known. */
  lemma ActiveIsNotDone(s: Sd)
    requires InOrder(s)
    ensures s.active != 0 ==> s.active in s.ops && s.active !in s.completed && s.active !in s.queue
    ensures forall p :: p in s.completed ==> p in s.ops
    ensures forall p :: p in s.queue ==> p in s.ops
  {
    hide NoRepeats;
    Apart(s.completed, Current(s), s.queue);
    assert forall p :: p in s.completed + Current(s) + s.queue ==> p in s.posted;
    assert s.active != 0 ==> s.active in Current(s);
    assert forall p :: p in s.completed ==> p in s.completed + Current(s) + s.queue;
    assert forall p :: p in s.queue ==> p in s.completed + Current(s) + s.queue;
  }

  lemma PushKeeps(s: Sd, op: nat, blocks: Word, address: Word)
    requires Inv(s) && Enabled(s, Push(op, blocks, address))
    ensures Inv(PushStep(s, op, blocks, address))
  {
    hide InOrder, OpsOk, CommandOk;
    PushOrder(s, op, blocks, address);
    PushOps(s, op, blocks, address);
    CommandsKept(s, PushStep(s, op, blocks, address));
  }

  lemma PushOrder(s: Sd, op: nat, blocks: Word, address: Word)
    requires InOrder(s) && op !in s.ops
    ensures InOrder(PushStep(s, op, blocks, address)) && SameRequests(s, PushStep(s, op, blocks, address))
  {
    hide NoRepeats;
    var s' := PushStep(s, op, blocks, address);
    AppendKeeps(s.posted, op);
    assert s'.completed + Current(s') + s'.queue == s'.posted;
  }

  lemma PushOps(s: Sd, op: nat, blocks: Word, address: Word)
    requires InOrder(s) && OpsOk(s) && op != 0 && op !in s.ops
    ensures OpsOk(PushStep(s, op, blocks, address))
  {
    hide InOrder;
    ActiveIsNotDone(s);
    assert forall p :: p in s.ops ==> OpAt(PushStep(s, op, blocks, address), p) == OpAt(s, p);
  }

  lemma StartKeeps(s: Sd)
    requires Inv(s) && Enabled(s, Start)
    ensures Inv(StartStep(s))
  {
    var s1 := s.(between := s.between - 1);
    CommandsKept(s, s1);
    if s.active == 0 {
      InitiateNextKeeps(s1);
    }
  }

  lemma DataKeeps(s: Sd)
    requires Inv(s) && s.active != 0
    ensures Inv(DataStep(s))
  {
    var s' := DataStep(s);
    Apart(s.completed, Current(s), s.queue);
    CommandsKept(s, s');
  }

  lemma FinishKeeps(s: Sd)
    requires Inv(s) && s.active != 0 && OpAt(s, s.active).blocksRead >= OpAt(s, s.active).blocks
    ensures Steady(Finish(s)) && SameRequests(s, Finish(s))
  {
    var s1 := Finish(s);
    Apart(s.completed, Current(s), s.queue);
    assert s1.completed + Current(s1) + s1.queue == s.posted;
    CommandsKept(s, s1);
  }

  lemma TransferKeeps(s: Sd)
    requires Inv(s) && s.active != 0
    ensures Inv(TransferStep(s))
  {
    var o := OpAt(s, s.active);
    if o.blocksRead < o.blocks {
      CommandsKept(s, Send(s));
    } else {
      FinishKeeps(s);
      InitiateNextKeeps(Finish(s));
    }
  }

  lemma StepKeepsInv(s: Sd, e: Event)
    requires Inv(s) && Enabled(s, e)
    ensures Inv(Next(s, e))
  {
    match e
    case Push(op, blocks, address) => PushKeeps(s, op, blocks, address);
    case Start => StartKeeps(s);
    case Irq(line, brr, tc, _) =>
      if line == SD_IRQ && s.active != 0 {
        if brr {
          DataKeeps(s);
        } else if tc {
          TransferKeeps(s);
        }
      }
  }

  /** Interrupts of other devices, and any while nothing is being read, change nothing. */
  lemma OtherInterruptsIgnored(s: Sd, line: int, brr: bool, tc: bool, cc: bool)
    requires line != 83 || s.active == 0
    ensures Next(s, Irq(line, brr, tc, cc)) == s
  {
  }

  // ----- runs

  predicate IsStep(s: Sd, e: Event, s': Sd) {
    Enabled(s, e) && s' == Next(s, e)
  }

  predicate IsRun(states: seq<Sd>, events: seq<Event>) {
    && |states| == |events| + 1 && states[0] == INITIAL
    && forall i :: 0 <= i < |events| ==> IsStep(states[i], events[i], states[i + 1])
  }

  lemma {:induction false} EveryRunKeepsInv(states: seq<Sd>, events: seq<Event>, n: nat)
    requires IsRun(states, events) && n <= |events|
    ensures Inv(states[n])
  {
    hide Next, Enabled;
    if n > 0 {
      EveryRunKeepsInv(states, events, n - 1);
      assert IsStep(states[n - 1], events[n - 1], states[n]);
      StepKeepsInv(states[n - 1], events[n - 1]);
    }
  }

  /** No request is ever stranded: once every post has finished its second step, an idle driver
      has completed everything that was posted, in posting order. */
  lemma NothingStranded(states: seq<Sd>, events: seq<Event>, n: nat)
    requires IsRun(states, events) && n <= |events|
    ensures states[n].completed <= states[n].posted
    ensures states[n].active == 0 && states[n].between == 0 ==> states[n].completed == states[n].posted
  {
    EveryRunKeepsInv(states, events, n);
  }
}
