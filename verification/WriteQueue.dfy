/** The write queue and the life of the handle around it (internal/writequeue/queue.go, db.go), as a
    system of atomic steps: any number of callers, one consumer, and Close, which stops the queue
    while the consumer is still draining it. */
module WriteQueue {
  import opened Pebble

  // ---------------------------------------------------------------- state

  /** What a submitter is told: nil, the engine's error, or ErrStopped. */
  datatype Outcome = Committed | Failed | Stopped

  /** A WriteOp. done is its Done channel of capacity one; a released object has none. */
  datatype WriteOp = WriteOp(op: Op, done: Option<seq<Outcome>>)

  /** What travels through the queue: a pointer to a WriteOp. The ticket is its number in acceptance
      order; the program does not have it. */
  datatype Item = Item(obj: nat, ticket: nat)

  /** Record of an accepted operation: its content when accepted, its object, its caller. */
  datatype Acceptance = Acceptance(op: Op, obj: nat, caller: nat)

  /** Where a caller stands, with the operation it was called with. Locked and Checked hold the queue's read lock; Direct and DirectDone
      hold the handle's read lock; Closing holds the handle's write lock. */
  datatype Caller =
    | Idle
    | Filled(obj: nat, op: Op)
    | Locked(obj: nat, op: Op)
    | Checked(obj: nat, op: Op)
    | Waiting(obj: nat, op: Op, ticket: nat)
    | Rejected(obj: nat)
    | Answered(obj: nat, op: Op, ticket: nat, outcome: Outcome)
    | Direct(ops: seq<Op>)
    | DirectDone
    | Closing

  /** The consumer: blocked on the channel, gathering a batch, or committing one. In Work, the first
      `applied` operations have gone to the engine, the last of them with `outcome`, and the first
      `replied` have been answered; `last` says the closed channel has been seen. */
  datatype Consumer =
    | Receiving
    | Collecting(batch: seq<Item>)
    | Work(batch: seq<Item>, grouped: bool, applied: nat, replied: nat, outcome: Outcome, last: bool)
    | Exited

  /** How far the holder of the handle's write lock has come in Close. Draining and QueueClosed hold
      the queue's write lock. */
  datatype Stage =
    | Enter
    | WantQueueLock
    | Draining(held: Option<Item>)
    | QueueClosed
    | Joining
    | CloseEngine
    | Leave(ok: bool)

  datatype Gate = Free | Held(caller: nat, stage: Stage)

  /** One engine commit: an operation of the queue, or a direct write. */
  datatype Commit = Queued(op: Op, ticket: nat) | Wrote(ops: seq<Op>)

  datatype State = State(
    callers: seq<Caller>, objs: seq<WriteOp>, pool: set<nat>,
    chan: seq<Item>, consumer: Consumer, gate: Gate,
    stopped: bool, chanClosed: bool, closed: bool, engineClosed: bool,
    store: KV, log: seq<Commit>,
    accepted: seq<Acceptance>, sent: map<nat, Outcome>, closes: nat)

  /** Queue length, batch size (0 when operations are consumed one by one), and whether the engine
      takes batches. */
  datatype Config = Config(capacity: nat, batchSize: nat, batches: bool)

  // ---------------------------------------------------------------- steps

  /** submit: take an object, ask the queue, wait for the answer, give the object back. */
  datatype SubmitStep =
    | Acquire(obj: nat, op: Op)
    | ReadLock
    | Check(memExceeded: bool)
    | Send
    | Receive
    | Release

  /** Get, PutSync and WriteBatch, under the handle's read lock; a read writes nothing. */
  datatype DirectStep =
    | EnterDirect(ops: seq<Op>)
    | CommitDirect(ok: bool)
    | LeaveDirect

  /** Close, and Stop inside it. */
  datatype CloseStep =
    | StartClose(i: nat)
    | Swap
    | LockQueue
    | DrainTake
    | DrainReply
    | CloseQueue
    | UnlockQueue
    | Join
    | ShutEngine
    | EndClose

  /** consumeLoop and consumeBatchLoop. */
  datatype ConsumerStep =
    | Take
    | Collect
    | Cut
    | ApplyNext(ok: bool)
    | Reply
    | Finish
    | Exit

  datatype Step =
    | Submitting(i: nat, submit: SubmitStep)
    | Directly(i: nat, direct: DirectStep)
    | Stopping(close: CloseStep)
    | Consuming(consume: ConsumerStep)

  predicate QueueWriteLocked(s: State) {
    s.gate.Held? && (s.gate.stage.Draining? || s.gate.stage.QueueClosed?)
  }

  predicate QueueReadLocked(s: State) {
    exists i :: 0 <= i < |s.callers| && (s.callers[i].Locked? || s.callers[i].Checked?)
  }

  predicate HandleReadLocked(s: State) {
    exists i :: 0 <= i < |s.callers| && (s.callers[i].Direct? || s.callers[i].DirectDone?)
  }

  predicate AtStage(s: State, stage: Stage) {
    s.gate.Held? && s.gate.stage == stage
  }

  /** Sending on an object's Done channel does not block. */
  predicate CanReply(s: State, it: Item) {
    it.obj < |s.objs| && s.objs[it.obj].done == Some([])
  }

  /** What committing these items writes to the log: the content their objects have now. */
  function Entries(objs: seq<WriteOp>, items: seq<Item>): (r: seq<Commit>)
    ensures |r| == |items|
  {
    seq(|items|, j requires 0 <= j < |items| =>
      Queued(if items[j].obj < |objs| then objs[items[j].obj].op else Put([], []), items[j].ticket))
  }

  function OpsOf(c: Commit): seq<Op> {
    match c
    case Queued(op, _) => [op]
    case Wrote(ops) => ops
  }

  function Ops(log: seq<Commit>): seq<Op> {
    if |log| == 0 then [] else Ops(log[..|log| - 1]) + OpsOf(log[|log| - 1])
  }

  /** How far the next engine call of the consumer reaches: the whole batch, or one operation. */
  function Reach(c: Consumer): nat
    requires c.Work?
  {
    if c.grouped then |c.batch| else c.applied + 1
  }

  predicate CanSubmit(s: State, i: nat, step: SubmitStep) {
    && i < |s.callers|
    && var c := s.callers[i];
       match step
       case Acquire(obj, op) => c.Idle? && !s.closed && op.key != [] && obj <= |s.objs| && (obj in s.pool || obj == |s.objs|)
       case ReadLock => c.Filled? && !QueueWriteLocked(s)
       case Check(_) => c.Locked?
       case Send => c.Checked?
       case Receive => c.Waiting? && c.obj < |s.objs| && s.objs[c.obj].done.Some? && s.objs[c.obj].done.value != []
       case Release => c.Rejected? || c.Answered?
  }

  predicate CanDirect(s: State, i: nat, step: DirectStep) {
    && i < |s.callers|
    && match step
       case EnterDirect(_) => s.callers[i].Idle? && s.gate.Free?
       case CommitDirect(_) => s.callers[i].Direct?
       case LeaveDirect => s.callers[i].DirectDone?
  }

  predicate CanClose(s: State, step: CloseStep) {
    match step
    case StartClose(i) => i < |s.callers| && s.callers[i].Idle? && s.gate.Free? && !HandleReadLocked(s)
    case Swap => AtStage(s, Enter)
    case LockQueue => AtStage(s, WantQueueLock) && !QueueReadLocked(s)
    case DrainTake => AtStage(s, Draining(None)) && s.chan != []
    case DrainReply => s.gate.Held? && s.gate.stage.Draining? && s.gate.stage.held.Some? && CanReply(s, s.gate.stage.held.value)
    case CloseQueue => AtStage(s, Draining(None)) && s.chan == []
    case UnlockQueue => AtStage(s, QueueClosed)
    case Join => AtStage(s, Joining) && s.consumer.Exited?
    case ShutEngine => AtStage(s, CloseEngine)
    case EndClose => s.gate.Held? && s.gate.stage.Leave? && s.gate.caller < |s.callers|
  }

  predicate CanConsume(cfg: Config, s: State, step: ConsumerStep) {
    var c := s.consumer;
    match step
    case Take => c.Receiving? && s.chan != []
    case Collect => c.Collecting? && |c.batch| < cfg.batchSize && s.chan != []
    case Cut => c.Collecting? && (|c.batch| >= cfg.batchSize || s.chan == [])
    case ApplyNext(_) => c.Work? && c.applied == c.replied && c.applied < |c.batch|
    case Reply => c.Work? && c.replied < c.applied <= |c.batch| && CanReply(s, c.batch[c.replied])
    case Finish => c.Work? && c.replied == |c.batch|
    case Exit => c.Receiving? && s.chan == [] && s.chanClosed
  }

  predicate Enabled(cfg: Config, s: State, step: Step) {
    match step
    case Submitting(i, submit) => CanSubmit(s, i, submit)
    case Directly(i, direct) => CanDirect(s, i, direct)
    case Stopping(close) => CanClose(s, close)
    case Consuming(consume) => CanConsume(cfg, s, consume)
  }

  function Deliver(s: State, it: Item, outcome: Outcome): State
    requires CanReply(s, it)
  {
    s.(objs := s.objs[it.obj := s.objs[it.obj].(done := Some([outcome]))], sent := s.sent[it.ticket := outcome])
  }

  function SetStage(s: State, stage: Stage): State
    requires s.gate.Held?
  {
    s.(gate := Held(s.gate.caller, stage))
  }

  /** AcquireWriteOp: a pooled or new object gets a fresh channel and the operation. */
  function Acquired(s: State, i: nat, obj: nat, op: Op): (r: State)
    requires i < |s.callers| && obj <= |s.objs|
    ensures r == s.(callers := r.callers, objs := r.objs, pool := r.pool)
  {
    var w := WriteOp(op, Some([]));
    s.(callers := s.callers[i := Filled(obj, op)],
       objs := if obj < |s.objs| then s.objs[obj := w] else s.objs + [w],
       pool := s.pool - {obj})
  }

  /** The send of Submit: accepted if the channel has room, refused at once if not. */
  function Sent(cfg: Config, s: State, i: nat): (r: State)
    requires i < |s.callers| && s.callers[i].Checked?
    ensures r == s.(callers := r.callers, chan := r.chan, accepted := r.accepted) && s.accepted <= r.accepted
  {
    var Checked(obj, op) := s.callers[i];
    if |s.chan| < cfg.capacity && obj < |s.objs| then
      var ticket := |s.accepted|;
      s.(callers := s.callers[i := Waiting(obj, op, ticket)],
         chan := s.chan + [Item(obj, ticket)],
         accepted := s.accepted + [Acceptance(s.objs[obj].op, obj, i)])
    else s.(callers := s.callers[i := Rejected(obj)])
  }

  function Received(s: State, i: nat): (r: State)
    requires CanSubmit(s, i, Receive)
    ensures r == s.(callers := r.callers, objs := r.objs)
  {
    var Waiting(obj, op, ticket) := s.callers[i];
    var buffer := s.objs[obj].done.value;
    s.(callers := s.callers[i := Answered(obj, op, ticket, buffer[0])],
       objs := s.objs[obj := s.objs[obj].(done := Some(buffer[1..]))])
  }

  /** ReleaseWriteOp: the object loses operation and channel and goes back to the pool. */
  function Released(s: State, i: nat): (r: State)
    requires CanSubmit(s, i, Release)
    ensures r == s.(callers := r.callers, objs := r.objs, pool := r.pool)
  {
    var obj := s.callers[i].obj;
    s.(callers := s.callers[i := Idle],
       objs := if obj < |s.objs| then s.objs[obj := WriteOp(Put([], []), None)] else s.objs,
       pool := s.pool + {obj})
  }

  function NextSubmit(cfg: Config, s: State, i: nat, step: SubmitStep): (r: State)
    requires CanSubmit(s, i, step)
    ensures r == s.(callers := r.callers, objs := r.objs, pool := r.pool, chan := r.chan, accepted := r.accepted)
    ensures s.accepted <= r.accepted
  {
    match step
    case Acquire(obj, op) => Acquired(s, i, obj, op)
    case ReadLock => s.(callers := s.callers[i := Locked(s.callers[i].obj, s.callers[i].op)])
    case Check(memExceeded) =>
      var Locked(obj, op) := s.callers[i];
      s.(callers := s.callers[i := if s.stopped || memExceeded then Rejected(obj) else Checked(obj, op)])
    case Send => Sent(cfg, s, i)
    case Receive => Received(s, i)
    case Release => Released(s, i)
  }

  function NextDirect(s: State, i: nat, step: DirectStep): (r: State)
    requires CanDirect(s, i, step)
    ensures r == s.(callers := r.callers, store := r.store, log := r.log)
  {
    match step
    case EnterDirect(ops) => if s.closed then s else s.(callers := s.callers[i := Direct(ops)])
    case CommitDirect(ok) =>
      var ops := s.callers[i].ops;
      if ok then s.(callers := s.callers[i := DirectDone], store := Apply(s.store, ops), log := s.log + [Wrote(ops)])
      else s.(callers := s.callers[i := DirectDone])
    case LeaveDirect => s.(callers := s.callers[i := Idle])
  }

  function NextClose(s: State, step: CloseStep): (r: State)
    requires CanClose(s, step)
    ensures r == State(r.callers, r.objs, s.pool, r.chan, s.consumer, r.gate, r.stopped, r.chanClosed, r.closed, r.engineClosed,
                       s.store, s.log, s.accepted, r.sent, r.closes)
    ensures !step.DrainReply? ==> r.sent == s.sent
    ensures !step.StartClose? && !step.EndClose? ==> r.callers == s.callers
  {
    match step
    case StartClose(i) => s.(callers := s.callers[i := Closing], gate := Held(i, Enter))
    case Swap => if s.closed then SetStage(s, Leave(false)) else SetStage(s, WantQueueLock).(closed := true)
    case LockQueue => SetStage(s, Draining(None)).(stopped := true)
    case DrainTake => SetStage(s, Draining(Some(s.chan[0]))).(chan := s.chan[1..])
    case DrainReply => SetStage(Deliver(s, s.gate.stage.held.value, Stopped), Draining(None))
    case CloseQueue => SetStage(s, QueueClosed).(chanClosed := true)
    case UnlockQueue => SetStage(s, Joining)
    case Join => SetStage(s, CloseEngine)
    case ShutEngine => SetStage(s, Leave(true)).(engineClosed := true)
    case EndClose =>
      s.(callers := s.callers[s.gate.caller := Idle], gate := Free, closes := s.closes + if s.gate.stage.ok then 1 else 0)
  }

  /** An engine call of the consumer: the next operation, or the whole batch. */
  function Applying(s: State, ok: bool): (r: State)
    requires s.consumer.Work? && s.consumer.applied < |s.consumer.batch|
    ensures r == s.(consumer := r.consumer, store := r.store, log := r.log)
  {
    var c := s.consumer;
    var entries := Entries(s.objs, c.batch[c.applied..Reach(c)]);
    var c' := c.(applied := Reach(c), outcome := if ok then Committed else Failed);
    if ok then s.(consumer := c', store := Apply(s.store, Ops(entries)), log := s.log + entries)
    else s.(consumer := c')
  }

  function Replying(s: State): (r: State)
    requires s.consumer.Work? && s.consumer.replied < |s.consumer.batch| && CanReply(s, s.consumer.batch[s.consumer.replied])
    ensures r == s.(objs := r.objs, consumer := r.consumer, sent := r.sent)
  {
    var c := s.consumer;
    Deliver(s, c.batch[c.replied], c.outcome).(consumer := c.(replied := c.replied + 1))
  }

  /** Receive one operation: to be consumed alone, or to begin or join a batch. */
  function Taking(cfg: Config, s: State): (r: State)
    requires s.chan != []
    ensures r == s.(chan := r.chan, consumer := r.consumer)
  {
    var it := s.chan[0];
    var c := if s.consumer.Collecting? then Collecting(s.consumer.batch + [it])
             else if cfg.batchSize == 0 then Work([it], false, 0, 0, Failed, false)
             else Collecting([it]);
    s.(chan := s.chan[1..], consumer := c)
  }

  /** The steps of the consumer that touch nothing but its own position. */
  function Turned(cfg: Config, s: State, step: ConsumerStep): Consumer
    requires CanConsume(cfg, s, step) && (step.Cut? || step.Finish? || step.Exit?)
  {
    var c := s.consumer;
    match step
    case Cut => Work(c.batch, cfg.batches && |c.batch| > 1, 0, 0, Failed, |c.batch| < cfg.batchSize && s.chanClosed)
    case Finish => if c.last then Exited else Receiving
    case Exit => Exited
  }

  function NextConsume(cfg: Config, s: State, step: ConsumerStep): (r: State)
    requires CanConsume(cfg, s, step)
    ensures r == s.(objs := r.objs, chan := r.chan, consumer := r.consumer, store := r.store, log := r.log, sent := r.sent)
    ensures !step.Reply? ==> r.objs == s.objs && r.sent == s.sent
    ensures !step.ApplyNext? ==> r.store == s.store && r.log == s.log
  {
    match step
    case Take => Taking(cfg, s)
    case Collect => Taking(cfg, s)
    case ApplyNext(ok) => Applying(s, ok)
    case Reply => Replying(s)
    case _ => s.(consumer := Turned(cfg, s, step))
  }

  function Next(cfg: Config, s: State, step: Step): State
    requires Enabled(cfg, s, step)
  {
    match step
    case Submitting(i, submit) => NextSubmit(cfg, s, i, submit)
    case Directly(i, direct) => NextDirect(s, i, direct)
    case Stopping(close) => NextClose(s, close)
    case Consuming(consume) => NextConsume(cfg, s, consume)
  }

  predicate Init(s: State) {
    && (forall i :: 0 <= i < |s.callers| ==> s.callers[i].Idle?)
    && s.objs == [] && s.pool == {} && s.chan == [] && s.consumer == Receiving && s.gate == Free
    && !s.stopped && !s.chanClosed && !s.closed && !s.engineClosed
    && s.log == [] && s.accepted == [] && s.sent == map[] && s.closes == 0
  }

  // ---------------------------------------------------------------- what is where

  function Unreplied(c: Consumer): seq<Item> {
    match c
    case Collecting(batch) => batch
    case Work(batch, _, _, replied, _, _) => if replied <= |batch| then batch[replied..] else []
    case _ => []
  }

  function Unapplied(c: Consumer): seq<Item> {
    match c
    case Collecting(batch) => batch
    case Work(batch, _, applied, _, _, _) => if applied <= |batch| then batch[applied..] else []
    case _ => []
  }

  /** Given to the engine but not answered yet. */
  function InFlight(c: Consumer): seq<Item> {
    if c.Work? && c.replied <= c.applied <= |c.batch| then c.batch[c.replied..c.applied] else []
  }

  function HeldByStop(g: Gate): seq<Item> {
    if g.Held? && g.stage.Draining? && g.stage.held.Some? then [g.stage.held.value] else []
  }

  ghost predicate Pending(s: State, it: Item) {
    it in s.chan || it in Unreplied(s.consumer) || it in HeldByStop(s.gate)
  }

  function Tickets(items: seq<Item>): (r: seq<nat>)
    ensures |r| == |items| && forall j :: 0 <= j < |r| ==> r[j] == items[j].ticket
  {
    seq(|items|, j requires 0 <= j < |items| => items[j].ticket)
  }

  /** Tickets of the queue's operations in the engine's log, in commit order. */
  function Applied(log: seq<Commit>): seq<nat> {
    if |log| == 0 then []
    else Applied(log[..|log| - 1]) + if log[|log| - 1].Queued? then [log[|log| - 1].ticket] else []
  }

  predicate Increasing(ts: seq<nat>) {
    forall i, j :: 0 <= i < j < |ts| ==> ts[i] < ts[j]
  }

  function Owns(c: Caller): Option<nat> {
    match c
    case Filled(o, _) => Some(o)
    case Locked(o, _) => Some(o)
    case Checked(o, _) => Some(o)
    case Waiting(o, _, _) => Some(o)
    case Rejected(o) => Some(o)
    case Answered(o, _, _, _) => Some(o)
    case _ => None
  }

  // ---------------------------------------------------------------- the invariant

  /** Every object has one owner at most, and the pool owns the rest. */
  predicate OwnersInv(s: State) {
    && (forall i, j :: 0 <= i < j < |s.callers| && Owns(s.callers[i]).Some? ==> Owns(s.callers[i]) != Owns(s.callers[j]))
    && (forall i :: 0 <= i < |s.callers| && Owns(s.callers[i]).Some? ==>
          Owns(s.callers[i]).value < |s.objs| && Owns(s.callers[i]).value !in s.pool)
    && (forall o :: o in s.pool ==> o < |s.objs|)
  }

  /** A pending item belongs to a caller that waits for it, still holds what was accepted, and has
      not been answered. */
  predicate PendingOk(s: State, it: Item) {
    && it.ticket < |s.accepted| && it.ticket !in s.sent
    && var a := s.accepted[it.ticket];
       && a.obj == it.obj < |s.objs| && s.objs[it.obj] == WriteOp(a.op, Some([]))
       && a.caller < |s.callers| && s.callers[a.caller] == Waiting(it.obj, a.op, it.ticket)
  }

  ghost predicate PendingInv(s: State) {
    && (forall it :: Pending(s, it) ==> PendingOk(s, it))
    && (forall t :: 0 <= t < |s.accepted| ==> t in s.sent || Pending(s, Item(s.accepted[t].obj, t)))
    && (forall t :: t in s.sent ==> t < |s.accepted|)
  }

  /** Tickets move through the queue in order. */
  ghost predicate OrderInv(s: State) {
    && Increasing(Tickets(Unreplied(s.consumer) + s.chan))
    && Increasing(Applied(s.log) + Tickets(Unapplied(s.consumer) + s.chan))
    && (forall t :: t in Applied(s.log) ==> t < |s.accepted|)
    && (forall it :: it in HeldByStop(s.gate) ==>
          && it.ticket !in Applied(s.log) && it.ticket !in Tickets(Unreplied(s.consumer))
          && forall x :: x in s.chan ==> it.ticket < x.ticket)
  }

  /** A caller's object holds the caller's operation until it is sent; what was accepted is that
      operation. The Done channel holds the answer the caller has not yet picked up, and nothing else. */
  predicate DoneOk(s: State, i: nat)
    requires i < |s.callers|
  {
    Owns(s.callers[i]).Some? && Owns(s.callers[i]).value < |s.objs| ==>
      var w := s.objs[Owns(s.callers[i]).value];
      match s.callers[i]
      case Filled(_, op) => w == WriteOp(op, Some([]))
      case Locked(_, op) => w == WriteOp(op, Some([]))
      case Checked(_, op) => w == WriteOp(op, Some([]))
      case Waiting(o, op, t) =>
        && t < |s.accepted| && s.accepted[t] == Acceptance(op, o, i)
        && w.done == Some(if t in s.sent then [s.sent[t]] else [])
      case Answered(o, op, t, r) =>
        && t < |s.accepted| && s.accepted[t] == Acceptance(op, o, i)
        && t in s.sent && s.sent[t] == r && w.done == Some([])
      case _ => w.done == Some([])
  }

  predicate DoneInv(s: State) {
    forall i :: 0 <= i < |s.callers| ==> DoneOk(s, i)
  }

  /** Answers are truthful: nil exactly for the operations in the log. */
  ghost predicate AnswersInv(s: State) {
    && (forall t :: t in s.sent ==> (s.sent[t] == Committed <==> t in Applied(s.log)))
    && (forall it :: it in InFlight(s.consumer) ==> (s.consumer.outcome == Committed <==> it.ticket in Applied(s.log)))
    && (forall t :: t in Applied(s.log) ==> t in s.sent || t in Tickets(InFlight(s.consumer)))
  }

  /** The store is the log, and the log holds what was accepted. */
  predicate StoreInv(s: State, base: KV) {
    && s.store == Apply(base, Ops(s.log))
    && forall j :: 0 <= j < |s.log| && s.log[j].Queued? ==>
         s.log[j].ticket < |s.accepted| && s.log[j].op == s.accepted[s.log[j].ticket].op
  }

  predicate ConsumerInv(s: State) {
    match s.consumer
    case Collecting(batch) => batch != []
    case Work(batch, grouped, applied, replied, _, last) =>
      && replied <= applied <= |batch|
      && (grouped ==> applied == 0 || applied == |batch|)
      && (!grouped ==> applied <= replied + 1)
      && (last ==> s.chanClosed)
    case _ => true
  }

  /** The order in which Close takes things down, and who can be inside meanwhile. */
  predicate LifeInv(s: State) {
    && (s.engineClosed ==> s.consumer.Exited?) && (s.consumer.Exited? ==> s.chanClosed)
    && (s.chanClosed ==> s.stopped && s.chan == []) && (s.stopped ==> s.closed)
    && (forall i :: 0 <= i < |s.callers| ==>
          && (s.callers[i].Closing? <==> s.gate.Held? && s.gate.caller == i)
          && (s.callers[i].Direct? || s.callers[i].DirectDone? ==> s.gate.Free? && !s.closed)
          && (s.callers[i].Locked? || s.callers[i].Checked? ==> !QueueWriteLocked(s))
          && (s.callers[i].Checked? ==> !s.stopped))
    && (s.gate.Held? ==> s.gate.caller < |s.callers|)
    && s.closes == (if s.engineClosed && !AtStage(s, Leave(true)) then 1 else 0)
    && match s.gate
       case Free => s.closed == s.stopped == s.chanClosed == s.engineClosed
       case Held(_, stage) =>
         match stage
         case Enter => s.closed == s.stopped == s.chanClosed == s.engineClosed
         case WantQueueLock => s.closed && !s.stopped
         case Draining(_) => s.stopped && !s.chanClosed
         case QueueClosed => s.chanClosed && !s.engineClosed
         case Joining => s.chanClosed && !s.engineClosed
         case CloseEngine => s.chanClosed && !s.engineClosed && s.consumer.Exited?
         case Leave(_) => s.engineClosed
  }

  ghost predicate Inv(s: State, base: KV) {
    && OwnersInv(s) && PendingInv(s) && OrderInv(s) && DoneInv(s) && AnswersInv(s) && StoreInv(s, base)
    && ConsumerInv(s) && LifeInv(s)
  }

  lemma InitInv(s: State)
    requires Init(s)
    ensures Inv(s, s.store)
  {
    hide LifeInv;
    assert Applied(s.log) == [] && Unreplied(s.consumer) == [] && Unapplied(s.consumer) == [];
    InitLife(s);
  }

  lemma InitLife(s: State)
    requires Init(s)
    ensures LifeInv(s)
  {
  }

  // ---------------------------------------------------------------- logs and lines of tickets

  lemma Snoc(a: seq<Commit>, b: seq<Commit>)
    requires b != []
    ensures var n := |b| - 1; (a + b)[..|a + b| - 1] == a + b[..n] && (a + b)[|a + b| - 1] == b[n]
  {
  }

  lemma {:induction false} AppliedAppend(a: seq<Commit>, b: seq<Commit>)
    ensures Applied(a + b) == Applied(a) + Applied(b)
  {
    if |b| == 0 {
      assert a + b == a;
    } else {
      AppliedAppend(a, b[..|b| - 1]);
      Snoc(a, b);
    }
  }

  lemma {:induction false} OpsAppend(a: seq<Commit>, b: seq<Commit>)
    ensures Ops(a + b) == Ops(a) + Ops(b)
  {
    hide OpsOf;
    if |b| == 0 {
      assert a + b == a;
    } else {
      OpsAppend(a, b[..|b| - 1]);
      Snoc(a, b);
    }
  }

  lemma {:induction false} EntriesTickets(objs: seq<WriteOp>, items: seq<Item>)
    ensures Applied(Entries(objs, items)) == Tickets(items)
  {
    if |items| > 0 {
      var n := |items| - 1;
      EntriesTickets(objs, items[..n]);
      assert Entries(objs, items)[..n] == Entries(objs, items[..n]);
      assert Tickets(items) == Tickets(items[..n]) + [items[n].ticket];
    }
  }

  lemma TicketsAppend(a: seq<Item>, b: seq<Item>)
    ensures Tickets(a + b) == Tickets(a) + Tickets(b)
  {
  }

  lemma TicketOf(items: seq<Item>, it: Item)
    requires it in items
    ensures it.ticket in Tickets(items)
  {
    var j :| 0 <= j < |items| && items[j] == it;
    assert Tickets(items)[j] == it.ticket;
  }

  lemma IncreasingSkip(a: seq<nat>, b: seq<nat>, c: seq<nat>)
    requires Increasing(a + b + c)
    ensures Increasing(a + c)
  {
    forall i, j | 0 <= i < j < |a + c| ensures (a + c)[i] < (a + c)[j] {
      var abc := a + b + c;
      assert (a + c)[i] == abc[if i < |a| then i else i + |b|];
      assert (a + c)[j] == abc[if j < |a| then j else j + |b|];
    }
  }

  lemma IncreasingSnoc(a: seq<nat>, t: nat)
    requires Increasing(a) && forall x :: x in a ==> x < t
    ensures Increasing(a + [t])
  {
    forall i, j | 0 <= i < j < |a + [t]| ensures (a + [t])[i] < (a + [t])[j] {
      assert a[i] in a;
    }
  }

  // ---------------------------------------------------------------- steps of submit keep it

  /** How one step of submit moves objects between pool and caller. */
  lemma SubmitMovesObjects(cfg: Config, s: State, i: nat, step: SubmitStep)
    requires CanSubmit(s, i, step)
    ensures var s' := NextSubmit(cfg, s, i, step);
      && |s'.callers| == |s.callers| && |s.objs| <= |s'.objs|
      && (forall j :: 0 <= j < |s.callers| && j != i ==> s'.callers[j] == s.callers[j])
      && match step
         case Acquire(obj, _) =>
           Owns(s.callers[i]) == None && Owns(s'.callers[i]) == Some(obj) && s'.pool == s.pool - {obj} && obj < |s'.objs|
         case Release => Owns(s'.callers[i]) == None && s'.pool == s.pool + {Owns(s.callers[i]).value}
         case _ => Owns(s'.callers[i]) == Owns(s.callers[i]) && s'.pool == s.pool
  {
  }

  lemma SubmitKeepsOwners(cfg: Config, s: State, i: nat, step: SubmitStep)
    requires CanSubmit(s, i, step) && OwnersInv(s)
    ensures OwnersInv(NextSubmit(cfg, s, i, step))
  {
    hide NextSubmit, Owns;
    SubmitMovesObjects(cfg, s, i, step);
    if step.Release? { ReleaserOwns(s, i); }
  }

  lemma ReleaserOwns(s: State, i: nat)
    requires CanSubmit(s, i, Release) && OwnersInv(s)
    ensures Owns(s.callers[i]).Some? && Owns(s.callers[i]).value < |s.objs|
  {
  }

  lemma SubmitKeepsConsumer(cfg: Config, s: State, i: nat, step: SubmitStep)
    requires CanSubmit(s, i, step) && ConsumerInv(s)
    ensures ConsumerInv(NextSubmit(cfg, s, i, step))
  {
    hide NextSubmit;
  }

  lemma SubmitKeepsLife(cfg: Config, s: State, i: nat, step: SubmitStep)
    requires CanSubmit(s, i, step) && LifeInv(s)
    ensures LifeInv(NextSubmit(cfg, s, i, step))
  {
  }

  /** Two callers never share an object. */
  lemma OwnedApart(s: State, i: nat, j: nat)
    requires OwnersInv(s) && i < |s.callers| && j < |s.callers| && i != j && Owns(s.callers[i]).Some?
    ensures Owns(s.callers[i]) != Owns(s.callers[j])
  {
    if i < j {
      assert Owns(s.callers[i]) != Owns(s.callers[j]);
    } else {
      assert Owns(s.callers[j]).Some? ==> Owns(s.callers[j]) != Owns(s.callers[i]);
    }
  }

  lemma SubmitLeavesPendingOk(cfg: Config, s: State, i: nat, step: SubmitStep, it: Item)
    requires CanSubmit(s, i, step) && OwnersInv(s) && PendingOk(s, it)
    ensures PendingOk(NextSubmit(cfg, s, i, step), it)
  {
    hide OwnersInv;
    var c := s.accepted[it.ticket].caller;
    if c != i {
      OwnedApart(s, c, i);
      Owned(s, c);
    }
  }

  lemma Owned(s: State, i: nat)
    requires OwnersInv(s) && i < |s.callers| && Owns(s.callers[i]).Some?
    ensures Owns(s.callers[i]).value < |s.objs| && Owns(s.callers[i]).value !in s.pool
  {
  }

  /** What stays in its place stays pending. */
  lemma SubmitKeepsPending(cfg: Config, s: State, i: nat, step: SubmitStep)
    requires CanSubmit(s, i, step) && OwnersInv(s) && PendingInv(s) && DoneInv(s)
    ensures PendingInv(NextSubmit(cfg, s, i, step))
  {
    hide OwnersInv, DoneInv, PendingOk;
    var s' := NextSubmit(cfg, s, i, step);
    forall it | Pending(s', it) ensures PendingOk(s', it) {
      if Pending(s, it) {
        SubmitLeavesPendingOk(cfg, s, i, step, it);
      } else {
        SentIsPending(cfg, s, i);
      }
    }
    forall t | 0 <= t < |s'.accepted| && t !in s'.sent ensures Pending(s', Item(s'.accepted[t].obj, t)) {
      if t < |s.accepted| { assert Pending(s, Item(s.accepted[t].obj, t)); }
    }
  }

  /** A freshly accepted operation. */
  lemma SentIsPending(cfg: Config, s: State, i: nat)
    requires CanSubmit(s, i, Send) && OwnersInv(s) && DoneInv(s) && forall t :: t in s.sent ==> t < |s.accepted|
    requires |s.chan| < cfg.capacity
    ensures PendingOk(NextSubmit(cfg, s, i, Send), Item(s.callers[i].obj, |s.accepted|))
  {
    Owned(s, i);
    assert DoneOk(s, i);
  }

  lemma SubmitKeepsOrder(cfg: Config, s: State, i: nat, step: SubmitStep)
    requires CanSubmit(s, i, step) && PendingInv(s) && OrderInv(s) && ConsumerInv(s)
    ensures OrderInv(NextSubmit(cfg, s, i, step))
  {
    hide Applied, Unreplied, Unapplied, Pending, Increasing, PendingInv;
    var s' := NextSubmit(cfg, s, i, step);
    if s'.accepted != s.accepted {
      SentIsLast(s, Item(s.callers[i].obj, |s.accepted|));
    } else {
      assert s'.chan == s.chan;
    }
  }

  /** A new ticket behind everything accepted so far. */
  lemma SentIsLast(s: State, it: Item)
    requires PendingInv(s) && OrderInv(s) && ConsumerInv(s) && it.ticket == |s.accepted|
    ensures Increasing(Tickets(Unreplied(s.consumer) + (s.chan + [it])))
    ensures Increasing(Applied(s.log) + Tickets(Unapplied(s.consumer) + (s.chan + [it])))
    ensures forall x :: x in HeldByStop(s.gate) ==> x.ticket < it.ticket
  {
    hide Applied;
    var unreplied, unapplied := Unreplied(s.consumer), Unapplied(s.consumer);
    forall x | x in unreplied + s.chan || x in HeldByStop(s.gate) ensures x.ticket < it.ticket {
      assert Pending(s, x);
    }
    UnappliedUnreplied(s.consumer);
    TicketsAppend(unreplied + s.chan, [it]);
    TicketsAppend(unapplied + s.chan, [it]);
    IncreasingSnoc(Tickets(unreplied + s.chan), it.ticket);
    IncreasingSnoc(Applied(s.log) + Tickets(unapplied + s.chan), it.ticket);
    assert unreplied + (s.chan + [it]) == unreplied + s.chan + [it];
    assert unapplied + (s.chan + [it]) == unapplied + s.chan + [it];
    assert Tickets([it]) == [it.ticket];
    assert Applied(s.log) + Tickets(unapplied + s.chan + [it]) == Applied(s.log) + Tickets(unapplied + s.chan) + [it.ticket];
  }

  lemma UnappliedUnreplied(c: Consumer)
    requires c.Work? ==> c.replied <= c.applied <= |c.batch|
    ensures forall it :: it in Unapplied(c) ==> it in Unreplied(c)
    ensures Unreplied(c) == InFlight(c) + Unapplied(c)
  {
    if c.Work? {
      assert c.batch[c.replied..] == c.batch[c.replied..c.applied] + c.batch[c.applied..];
    }
  }

  lemma SubmitKeepsRecords(cfg: Config, s: State, i: nat, step: SubmitStep, base: KV)
    requires CanSubmit(s, i, step) && AnswersInv(s) && StoreInv(s, base)
    ensures AnswersInv(NextSubmit(cfg, s, i, step)) && StoreInv(NextSubmit(cfg, s, i, step), base)
  {
    hide Applied, Ops, Apply, InFlight, AnswersInv, NextSubmit;
    SameAnswers(s, NextSubmit(cfg, s, i, step));
  }

  lemma SameAnswers(s: State, s': State)
    requires AnswersInv(s) && s'.log == s.log && s'.sent == s.sent && s'.consumer == s.consumer
    ensures AnswersInv(s')
  {
  }

  lemma SubmitterDoneOk(cfg: Config, s: State, i: nat, step: SubmitStep)
    requires CanSubmit(s, i, step) && DoneOk(s, i) && |s.accepted| !in s.sent
    ensures DoneOk(NextSubmit(cfg, s, i, step), i)
  {
    if step.Receive? {
      assert s.objs[s.callers[i].obj].done.value[1..] == [];
    }
  }

  lemma SubmitKeepsDone(cfg: Config, s: State, i: nat, step: SubmitStep)
    requires CanSubmit(s, i, step) && OwnersInv(s) && PendingInv(s) && DoneInv(s)
    ensures DoneInv(NextSubmit(cfg, s, i, step))
  {
    hide OwnersInv, Pending, PendingOk;
    var s' := NextSubmit(cfg, s, i, step);
    if Owns(s.callers[i]).Some? { Owned(s, i); }
    forall j | 0 <= j < |s.callers| && j != i ensures DoneOk(s', j) {
      assert DoneOk(s, j);
      if Owns(s.callers[j]).Some? {
        Owned(s, j);
        OwnedApart(s, j, i);
      }
    }
    SubmitterDoneOk(cfg, s, i, step);
  }

  // ---------------------------------------------------------------- steps of direct access keep it

  lemma DirectKeepsShape(s: State, i: nat, step: DirectStep)
    requires CanDirect(s, i, step) && OwnersInv(s) && ConsumerInv(s) && LifeInv(s) && DoneInv(s)
    ensures OwnersInv(NextDirect(s, i, step)) && ConsumerInv(NextDirect(s, i, step)) && DoneInv(NextDirect(s, i, step))
    ensures LifeInv(NextDirect(s, i, step))
  {
    hide Apply;
    var s' := NextDirect(s, i, step);
    forall j | 0 <= j < |s'.callers| ensures DoneOk(s', j) { assert DoneOk(s, j); }
  }

  lemma DirectKeepsPending(s: State, i: nat, step: DirectStep)
    requires CanDirect(s, i, step) && PendingInv(s)
    ensures PendingInv(NextDirect(s, i, step))
  {
    hide Apply, Unreplied, HeldByStop;
    var s' := NextDirect(s, i, step);
    forall it | Pending(s', it) ensures PendingOk(s', it) { assert Pending(s, it); }
    forall t | 0 <= t < |s'.accepted| && t !in s'.sent ensures Pending(s', Item(s'.accepted[t].obj, t)) {
      assert Pending(s, Item(s.accepted[t].obj, t));
    }
  }

  /** A direct write adds no ticket to the log. */
  lemma DirectKeepsRecords(s: State, i: nat, step: DirectStep, base: KV)
    requires CanDirect(s, i, step) && OrderInv(s) && AnswersInv(s) && StoreInv(s, base)
    ensures OrderInv(NextDirect(s, i, step)) && AnswersInv(NextDirect(s, i, step)) && StoreInv(NextDirect(s, i, step), base)
  {
    hide Applied, Apply, Ops, Unreplied, Unapplied, InFlight, HeldByStop, OrderInv, AnswersInv;
    var s' := NextDirect(s, i, step);
    if step.CommitDirect? {
      var ops := s.callers[i].ops;
      AppliedAppend(s.log, [Wrote(ops)]);
      OpsAppend(s.log, [Wrote(ops)]);
      LoneWrite(ops);
      assert Applied(s.log + [Wrote(ops)]) == Applied(s.log);
      ApplyAppend(base, Ops(s.log), ops);
    }
    SameTickets(s, s');
  }

  lemma SameTickets(s: State, s': State)
    requires Applied(s'.log) == Applied(s.log) && s'.consumer == s.consumer && s'.chan == s.chan
    requires s'.gate == s.gate && s'.accepted == s.accepted && s'.sent == s.sent
    ensures OrderInv(s') == OrderInv(s) && AnswersInv(s') == AnswersInv(s)
  {
    hide Applied, Unreplied, Unapplied, InFlight, HeldByStop, Increasing;
  }

  lemma LoneWrite(ops: seq<Op>)
    ensures Applied([Wrote(ops)]) == [] && Ops([Wrote(ops)]) == ops
  {
    assert [Wrote(ops)][..0] == [];
  }

  // ---------------------------------------------------------------- answering

  lemma DeliverLeavesPendingOk(s: State, it: Item, outcome: Outcome, other: Item)
    requires OwnersInv(s) && PendingOk(s, it) && PendingOk(s, other) && it.ticket != other.ticket
    ensures PendingOk(Deliver(s, it, outcome), other)
  {
    hide OwnersInv;
    OwnedApart(s, s.accepted[it.ticket].caller, s.accepted[other.ticket].caller);
  }

  lemma DeliverKeepsDone(s: State, it: Item, outcome: Outcome)
    requires OwnersInv(s) && PendingOk(s, it) && DoneInv(s)
    ensures DoneInv(Deliver(s, it, outcome))
  {
    hide OwnersInv;
    var s' := Deliver(s, it, outcome);
    var c := s.accepted[it.ticket].caller;
    forall j | 0 <= j < |s'.callers| ensures DoneOk(s', j) {
      assert DoneOk(s, j);
      if j != c { OwnedApart(s, c, j); }
    }
  }

  /** Nothing pending twice: the rest of the line stays pending when its head is answered. */
  lemma HeadIsDistinct(head: Item, rest: seq<Item>)
    requires Increasing(Tickets([head] + rest))
    ensures forall it :: it in rest ==> it.ticket != head.ticket
  {
    forall it | it in rest ensures it.ticket != head.ticket {
      var j :| 0 <= j < |rest| && rest[j] == it;
      assert Tickets([head] + rest)[0] < Tickets([head] + rest)[j + 1];
    }
  }

  // ---------------------------------------------------------------- steps of Close keep it

  lemma CloseKeepsShape(s: State, step: CloseStep)
    requires CanClose(s, step) && OwnersInv(s) && ConsumerInv(s)
    ensures OwnersInv(NextClose(s, step)) && ConsumerInv(NextClose(s, step))
  {
  }

  lemma CloseKeepsLife(s: State, step: CloseStep)
    requires CanClose(s, step) && LifeInv(s)
    ensures LifeInv(NextClose(s, step))
  {
  }

  lemma CloseKeepsPending(s: State, step: CloseStep)
    requires CanClose(s, step) && OwnersInv(s) && OrderInv(s) && PendingInv(s) && LifeInv(s)
    ensures PendingInv(NextClose(s, step))
  {
    hide OwnersInv, Applied, Unreplied, Unapplied;
    var s' := NextClose(s, step);
    if step.DrainReply? {
      var held := s.gate.stage.held.value;
      assert held in HeldByStop(s.gate) && Pending(s, held);
      forall it | Pending(s', it) ensures PendingOk(s', it) {
        assert Pending(s, it);
        if it in Unreplied(s.consumer) { TicketOf(Unreplied(s.consumer), it); }
        DeliverLeavesPendingOk(s, held, Stopped, it);
      }
    } else {
      forall it | Pending(s', it) ensures PendingOk(s', it) { assert Pending(s, it); }
    }
    forall t | 0 <= t < |s'.accepted| && t !in s'.sent ensures Pending(s', Item(s'.accepted[t].obj, t)) {
      assert Pending(s, Item(s.accepted[t].obj, t));
    }
  }

  lemma CloseKeepsDone(s: State, step: CloseStep)
    requires CanClose(s, step) && OwnersInv(s) && PendingInv(s) && DoneInv(s)
    ensures DoneInv(NextClose(s, step))
  {
    hide OwnersInv, PendingOk;
    var s' := NextClose(s, step);
    if step.DrainReply? {
      var held := s.gate.stage.held.value;
      assert held in HeldByStop(s.gate) && Pending(s, held);
      DeliverKeepsDone(s, held, Stopped);
      var mid := Deliver(s, held, Stopped);
      forall j | 0 <= j < |s'.callers| ensures DoneOk(s', j) { assert DoneOk(mid, j); }
    } else {
      forall j | 0 <= j < |s'.callers| ensures DoneOk(s', j) { assert DoneOk(s, j); }
    }
  }

  lemma MiddleOut(before: seq<nat>, t: nat, after: seq<nat>)
    requires Increasing(before + [t] + after)
    ensures t !in before && (forall x :: x in after ==> t < x) && Increasing(before + after)
  {
    var line := before + [t] + after;
    IncreasingSkip(before, [t], after);
    assert line[|before|] == t;
    assert forall j :: 0 <= j < |before| ==> before[j] == line[j];
    assert forall j :: 0 <= j < |after| ==> after[j] == line[|before| + 1 + j];
  }

  /** Stop takes the head of the channel out of the line. */
  lemma DrainedHead(front: seq<nat>, mid: seq<Item>, chan: seq<Item>)
    requires chan != [] && Increasing(front + Tickets(mid + chan))
    ensures Increasing(front + Tickets(mid + chan[1..]))
    ensures chan[0].ticket !in front + Tickets(mid)
    ensures forall x :: x in chan[1..] ==> chan[0].ticket < x.ticket
  {
    var t, rest := chan[0].ticket, chan[1..];
    assert front + Tickets(mid + chan) == (front + Tickets(mid)) + [t] + Tickets(rest);
    MiddleOut(front + Tickets(mid), t, Tickets(rest));
    assert front + Tickets(mid + rest) == (front + Tickets(mid)) + Tickets(rest);
    forall x | x in rest ensures t < x.ticket { TicketOf(rest, x); }
  }

  lemma DrainKeepsOrder(s: State)
    requires CanClose(s, DrainTake) && OrderInv(s)
    ensures OrderInv(NextClose(s, DrainTake))
  {
    hide Applied, Unreplied, Unapplied, Increasing;
    var mid := Unreplied(s.consumer);
    assert [] + Tickets(mid + s.chan) == Tickets(mid + s.chan);
    assert [] + Tickets(mid + s.chan[1..]) == Tickets(mid + s.chan[1..]);
    assert [] + Tickets(mid) == Tickets(mid);
    DrainedHead([], mid, s.chan);
    DrainedHead(Applied(s.log), Unapplied(s.consumer), s.chan);
  }

  lemma CloseKeepsOrder(s: State, step: CloseStep)
    requires CanClose(s, step) && OrderInv(s)
    ensures OrderInv(NextClose(s, step))
  {
    hide Applied, Unreplied, Unapplied, Increasing;
    if step.DrainTake? { DrainKeepsOrder(s); }
  }

  lemma CloseKeepsRecords(s: State, step: CloseStep, base: KV)
    requires CanClose(s, step) && OrderInv(s) && PendingInv(s) && AnswersInv(s) && StoreInv(s, base)
    ensures AnswersInv(NextClose(s, step)) && StoreInv(NextClose(s, step), base)
  {
    hide Applied, Ops, Apply, InFlight, Increasing, Pending;
    if step.DrainReply? {
      var held := s.gate.stage.held.value;
      assert held in HeldByStop(s.gate);
    } else {
      hide NextClose;
    }
  }

  // ---------------------------------------------------------------- steps of the consumer keep it

  lemma ConsumeKeepsShape(cfg: Config, s: State, step: ConsumerStep)
    requires CanConsume(cfg, s, step) && OwnersInv(s) && ConsumerInv(s) && LifeInv(s)
    ensures OwnersInv(NextConsume(cfg, s, step)) && ConsumerInv(NextConsume(cfg, s, step))
    ensures LifeInv(NextConsume(cfg, s, step))
  {
    hide Apply, Ops, Entries;
  }

  /** How the consumer's line of unanswered items moves: an answer takes the head off, every other
      step leaves the line as it was. */
  lemma UnrepliedLine(cfg: Config, s: State, step: ConsumerStep)
    requires CanConsume(cfg, s, step) && ConsumerInv(s)
    ensures var s' := NextConsume(cfg, s, step);
      Unreplied(s.consumer) + s.chan
        == (if step.Reply? then [s.consumer.batch[s.consumer.replied]] else []) + (Unreplied(s'.consumer) + s'.chan)
  {
    hide Apply, Ops, Entries;
    var s' := NextConsume(cfg, s, step);
    var c := s.consumer;
    match step
    case Take => Shift([], s.chan); assert Unreplied(s'.consumer) == [] + [s.chan[0]];
    case Collect => Shift(c.batch, s.chan);
    case Reply => assert Unreplied(c) == [c.batch[c.replied]] + Unreplied(s'.consumer);
    case Finish => assert Unreplied(c) == [];
    case _ => assert Unreplied(s'.consumer) == Unreplied(c);
  }

  lemma Shift(a: seq<Item>, b: seq<Item>)
    requires b != []
    ensures a + b == (a + [b[0]]) + b[1..]
  {
  }

  /** The line of operations the engine has not seen: an engine call takes its operations off. */
  lemma UnappliedLine(cfg: Config, s: State, step: ConsumerStep)
    requires CanConsume(cfg, s, step) && ConsumerInv(s)
    ensures var s' := NextConsume(cfg, s, step);
      Unapplied(s.consumer) + s.chan
        == (if step.ApplyNext? then s.consumer.batch[s.consumer.applied..Reach(s.consumer)] else [])
           + (Unapplied(s'.consumer) + s'.chan)
  {
    hide Apply, Ops, Entries;
    var s' := NextConsume(cfg, s, step);
    var c := s.consumer;
    match step
    case Take => Shift([], s.chan); assert Unapplied(s'.consumer) == [] + [s.chan[0]];
    case Collect => Shift(c.batch, s.chan);
    case ApplyNext(_) => assert Unapplied(c) == c.batch[c.applied..Reach(c)] + Unapplied(s'.consumer);
    case Finish => assert Unapplied(c) == [];
    case _ => assert Unapplied(s'.consumer) == Unapplied(c);
  }

  lemma ConsumeKeepsPending(cfg: Config, s: State, step: ConsumerStep)
    requires CanConsume(cfg, s, step) && ConsumerInv(s) && OwnersInv(s) && OrderInv(s) && PendingInv(s)
    ensures PendingInv(NextConsume(cfg, s, step))
  {
    hide Apply, Ops, Entries, OwnersInv, Applied, Unapplied, Unreplied, PendingOk;
    var s' := NextConsume(cfg, s, step);
    UnrepliedLine(cfg, s, step);
    var line, line' := Unreplied(s.consumer) + s.chan, Unreplied(s'.consumer) + s'.chan;
    if step.Reply? {
      var head := s.consumer.batch[s.consumer.replied];
      assert head in line;
      HeadIsDistinct(head, line');
      HeadOfBatch(s);
      forall it | Pending(s', it) ensures PendingOk(s', it) {
        assert it in line' || it in HeldByStop(s.gate);
        assert it in line || it in HeldByStop(s.gate);
        DeliverLeavesPendingOk(s, head, s.consumer.outcome, it);
        SamePendingOk(Deliver(s, head, s.consumer.outcome), s', it);
      }
    } else {
      forall it | Pending(s', it) ensures PendingOk(s', it) {
        assert it in line' || it in HeldByStop(s.gate);
        assert it in line || it in HeldByStop(s.gate);
        SamePendingOk(s, s', it);
      }
    }
    forall t | 0 <= t < |s'.accepted| && t !in s'.sent ensures Pending(s', Item(s'.accepted[t].obj, t)) {
      var it := Item(s.accepted[t].obj, t);
      assert Pending(s, it);
      assert it in line || it in HeldByStop(s.gate);
      assert it in line' || it in HeldByStop(s.gate);
    }
  }

  lemma SamePendingOk(s: State, s': State, it: Item)
    requires s'.accepted == s.accepted && s'.sent == s.sent && s'.objs == s.objs && s'.callers == s.callers
    ensures PendingOk(s, it) == PendingOk(s', it)
  {
  }

  /** The item to be answered next is not the one Stop holds. */
  lemma HeadOfBatch(s: State)
    requires ConsumerInv(s) && s.consumer.Work? && s.consumer.replied < |s.consumer.batch| && OrderInv(s) && PendingInv(s)
    ensures var head := s.consumer.batch[s.consumer.replied];
      && head in Unreplied(s.consumer) && PendingOk(s, head) && head.ticket < |s.accepted|
      && forall it :: it in HeldByStop(s.gate) ==> it.ticket != head.ticket
  {
    hide Applied;
    assert Pending(s, s.consumer.batch[s.consumer.replied]);
    TicketOf(Unreplied(s.consumer), s.consumer.batch[s.consumer.replied]);
  }

  lemma ConsumeKeepsDone(cfg: Config, s: State, step: ConsumerStep)
    requires CanConsume(cfg, s, step) && ConsumerInv(s) && OwnersInv(s) && PendingInv(s) && DoneInv(s)
    ensures DoneInv(NextConsume(cfg, s, step))
  {
    hide Apply, Ops, Entries, OwnersInv, PendingOk;
    var s' := NextConsume(cfg, s, step);
    if step.Reply? {
      var head := s.consumer.batch[s.consumer.replied];
      assert head in Unreplied(s.consumer) && Pending(s, head);
      DeliverKeepsDone(s, head, s.consumer.outcome);
      SameDone(Deliver(s, head, s.consumer.outcome), s');
    } else {
      hide NextConsume;
      SameDone(s, s');
    }
  }

  lemma SameDone(s: State, s': State)
    requires s'.callers == s.callers && s'.objs == s.objs && s'.accepted == s.accepted && s'.sent == s.sent && DoneInv(s)
    ensures DoneInv(s')
  {
    forall j | 0 <= j < |s'.callers| ensures DoneOk(s', j) { assert DoneOk(s, j); }
  }

  /** What an engine call adds to the log, and what it takes off the line. */
  lemma ApplyMovesTickets(s: State, ok: bool, entries: seq<Commit>, items: seq<Item>, rest: seq<Item>)
    requires Increasing(Applied(s.log) + Tickets(items + rest)) && entries == Entries(s.objs, items)
    ensures var log' := if ok then s.log + entries else s.log;
      && Applied(log') == Applied(s.log) + (if ok then Tickets(items) else [])
      && Increasing(Applied(log') + Tickets(rest))
      && forall t :: t in Tickets(items) ==> (ok <==> t in Applied(log'))
  {
    AppliedAppend(s.log, entries);
    EntriesTickets(s.objs, items);
    TicketsAppend(items, rest);
    var line := Applied(s.log) + Tickets(items) + Tickets(rest);
    assert Applied(s.log) + Tickets(items + rest) == line;
    if !ok {
      IncreasingSkip(Applied(s.log), Tickets(items), Tickets(rest));
      forall j, k | 0 <= j < |Applied(s.log)| && 0 <= k < |items| ensures Applied(s.log)[j] != items[k].ticket {
        assert line[j] < line[|Applied(s.log)| + k];
      }
    }
  }

  lemma ChannelShrinks(cfg: Config, s: State, step: ConsumerStep)
    requires CanConsume(cfg, s, step)
    ensures forall x :: x in NextConsume(cfg, s, step).chan ==> x in s.chan
  {
    hide Apply, Ops, Entries;
  }

  /** The item Stop holds is no longer in the line, so the consumer cannot meet it. */
  lemma HeldApart(s: State, held: Item, x: Item)
    requires OrderInv(s) && held in HeldByStop(s.gate) && x in Unreplied(s.consumer) + s.chan
    ensures x.ticket != held.ticket
  {
    hide Applied;
    if x in Unreplied(s.consumer) { TicketOf(Unreplied(s.consumer), x); }
  }

  lemma ConsumeKeepsOrder(cfg: Config, s: State, step: ConsumerStep)
    requires CanConsume(cfg, s, step) && ConsumerInv(s) && OrderInv(s) && PendingInv(s)
    ensures OrderInv(NextConsume(cfg, s, step))
  {
    hide Apply, Ops, Entries, Applied, PendingOk, NextConsume, CanConsume, Unreplied, Unapplied;
    var s' := NextConsume(cfg, s, step);
    var line, line' := Unreplied(s.consumer) + s.chan, Unreplied(s'.consumer) + s'.chan;
    UnrepliedLine(cfg, s, step);
    ChannelShrinks(cfg, s, step);
    assert Increasing(Tickets(line')) by {
      if step.Reply? { assert Tickets(line)[1..] == Tickets(line'); } else { assert line == line'; }
    }
    CommitOrder(cfg, s, step);
    forall it | it in HeldByStop(s'.gate)
      ensures it.ticket !in Applied(s'.log) && it.ticket !in Tickets(Unreplied(s'.consumer))
    {
      forall x | x in line' ensures x.ticket != it.ticket {
        assert x in line;
        HeldApart(s, it, x);
      }
    }
  }

  lemma CommitOrder(cfg: Config, s: State, step: ConsumerStep)
    requires CanConsume(cfg, s, step) && ConsumerInv(s) && OrderInv(s) && PendingInv(s)
    ensures var s' := NextConsume(cfg, s, step);
      && Increasing(Applied(s'.log) + Tickets(Unapplied(s'.consumer) + s'.chan))
      && (forall t :: t in Applied(s'.log) ==> t < |s'.accepted|)
      && (forall it :: it in HeldByStop(s'.gate) ==> it.ticket !in Applied(s'.log))
  {
    hide Apply, Ops, Entries, Applied, PendingOk, NextConsume, Unapplied;
    var s' := NextConsume(cfg, s, step);
    UnappliedLine(cfg, s, step);
    var line' := Unapplied(s'.consumer) + s'.chan;
    if step.ApplyNext? {
      var c := s.consumer;
      var items := c.batch[c.applied..Reach(c)];
      Committing(cfg, s, step.ok);
      ApplyMovesTickets(s, step.ok, Entries(s.objs, items), items, line');
      forall x | x in items
        ensures x.ticket < |s.accepted| && forall it :: it in HeldByStop(s.gate) ==> it.ticket != x.ticket
      {
        BatchIsUnreplied(s, x);
        forall it | it in HeldByStop(s.gate) ensures it.ticket != x.ticket { HeldApart(s, it, x); }
      }
    } else {
      assert Unapplied(s.consumer) + s.chan == line';
    }
  }

  lemma BatchIsUnreplied(s: State, x: Item)
    requires ConsumerInv(s) && PendingInv(s) && s.consumer.Work? && s.consumer.applied == s.consumer.replied
    requires s.consumer.applied < |s.consumer.batch| && x in s.consumer.batch[s.consumer.applied..Reach(s.consumer)]
    ensures x in Unreplied(s.consumer) && PendingOk(s, x) && x.ticket < |s.accepted|
  {
    assert x in Unreplied(s.consumer);
    assert Pending(s, x);
  }

  /** The step that calls the engine, written out. */
  lemma Committing(cfg: Config, s: State, ok: bool)
    requires CanConsume(cfg, s, ApplyNext(ok)) && ConsumerInv(s)
    ensures var c := s.consumer;
      var s' := NextConsume(cfg, s, ApplyNext(ok));
      var entries := Entries(s.objs, c.batch[c.applied..Reach(c)]);
      && s'.log == (if ok then s.log + entries else s.log)
      && s'.store == (if ok then Apply(s.store, Ops(entries)) else s.store)
      && InFlight(c) == [] && InFlight(s'.consumer) == c.batch[c.applied..Reach(c)]
      && s'.consumer.Work? && s'.consumer.outcome == (if ok then Committed else Failed)
  {
    hide Apply, Ops, Entries;
  }

  lemma ConsumeKeepsAnswers(cfg: Config, s: State, step: ConsumerStep)
    requires CanConsume(cfg, s, step) && ConsumerInv(s) && OrderInv(s) && PendingInv(s) && AnswersInv(s)
    ensures AnswersInv(NextConsume(cfg, s, step))
  {
    hide Applied, InFlight, OrderInv, PendingInv, ConsumerInv, CanConsume, NextConsume;
    match step
    case ApplyNext(ok) => CommitKeepsAnswers(cfg, s, ok);
    case Reply => AnswerKeepsAnswers(cfg, s);
    case _ => Quiet(cfg, s, step);
  }

  lemma Unanswered(s: State, x: Item)
    requires PendingOk(s, x)
    ensures x.ticket !in s.sent
  {
  }

  /** Every step but an engine call or an answer is taken with nothing in flight. */
  lemma Quiet(cfg: Config, s: State, step: ConsumerStep)
    requires CanConsume(cfg, s, step) && ConsumerInv(s) && !step.ApplyNext? && !step.Reply?
    ensures InFlight(NextConsume(cfg, s, step).consumer) == InFlight(s.consumer) == []
  {
  }

  lemma HeadInFlight(c: Consumer)
    requires c.Work? && c.replied < c.applied <= |c.batch|
    ensures var rest := InFlight(c.(replied := c.replied + 1));
      && InFlight(c) == [c.batch[c.replied]] + rest
      && Tickets(InFlight(c)) == [c.batch[c.replied].ticket] + Tickets(rest)
  {
    var head, rest := c.batch[c.replied], InFlight(c.(replied := c.replied + 1));
    assert InFlight(c) == [head] + rest;
    TicketsAppend([head], rest);
    assert Tickets([head]) == [head.ticket];
  }

  /** An answer moves the head of what is in flight to what has been sent. */
  lemma AnswerKeepsAnswers(cfg: Config, s: State)
    requires CanConsume(cfg, s, Reply) && ConsumerInv(s) && AnswersInv(s)
    ensures AnswersInv(NextConsume(cfg, s, Reply))
  {
    hide Apply, Ops, Applied, InFlight;
    var c := s.consumer;
    HeadInFlight(c);
    assert NextConsume(cfg, s, Reply).consumer == c.(replied := c.replied + 1);
    assert c.batch[c.replied] in InFlight(c);
  }

  lemma CommitKeepsAnswers(cfg: Config, s: State, ok: bool)
    requires CanConsume(cfg, s, ApplyNext(ok)) && ConsumerInv(s) && OrderInv(s) && PendingInv(s) && AnswersInv(s)
    ensures AnswersInv(NextConsume(cfg, s, ApplyNext(ok)))
  {
    hide Apply, Ops, Entries, Applied, PendingOk, Unreplied, Unapplied, InFlight, Increasing, Pending, NextConsume;
    var s' := NextConsume(cfg, s, ApplyNext(ok));
    var c := s.consumer;
    var items := c.batch[c.applied..Reach(c)];
    Committing(cfg, s, ok);
    UnappliedLine(cfg, s, ApplyNext(ok));
    ApplyMovesTickets(s, ok, Entries(s.objs, items), items, Unapplied(s'.consumer) + s'.chan);
    forall x | x in items ensures x.ticket !in s.sent && x.ticket in Tickets(items) {
      BatchIsUnreplied(s, x);
      Unanswered(s, x);
      TicketOf(items, x);
    }
  }

  lemma ConsumeKeepsStore(cfg: Config, s: State, step: ConsumerStep, base: KV)
    requires CanConsume(cfg, s, step) && ConsumerInv(s) && PendingInv(s) && StoreInv(s, base)
    ensures StoreInv(NextConsume(cfg, s, step), base)
  {
    hide Apply, Ops, Applied, Unreplied, Unapplied, InFlight, NextConsume, Pending;
    if step.ApplyNext? {
      var c := s.consumer;
      var items := c.batch[c.applied..Reach(c)];
      var entries := Entries(s.objs, items);
      Committing(cfg, s, step.ok);
      OpsAppend(s.log, entries);
      ApplyAppend(base, Ops(s.log), Ops(entries));
      forall j | 0 <= j < |entries|
        ensures entries[j].ticket < |s.accepted| && entries[j].op == s.accepted[entries[j].ticket].op
      {
        BatchIsUnreplied(s, items[j]);
      }
    }
  }

  // ---------------------------------------------------------------- every step, every run

  lemma StepKeepsInv(cfg: Config, s: State, step: Step, base: KV)
    requires Enabled(cfg, s, step) && Inv(s, base)
    ensures Inv(Next(cfg, s, step), base)
  {
    hide OwnersInv, PendingInv, OrderInv, DoneInv, AnswersInv, StoreInv, ConsumerInv, LifeInv,
      CanSubmit, CanDirect, CanClose, CanConsume, NextSubmit, NextDirect, NextClose, NextConsume;
    match step
    case Submitting(i, submit) =>
      SubmitKeepsOwners(cfg, s, i, submit);
      SubmitKeepsConsumer(cfg, s, i, submit);
      SubmitKeepsLife(cfg, s, i, submit);
      SubmitKeepsPending(cfg, s, i, submit);
      SubmitKeepsOrder(cfg, s, i, submit);
      SubmitKeepsRecords(cfg, s, i, submit, base);
      SubmitKeepsDone(cfg, s, i, submit);
    case Directly(i, direct) =>
      DirectKeepsShape(s, i, direct);
      DirectKeepsPending(s, i, direct);
      DirectKeepsRecords(s, i, direct, base);
    case Stopping(close) =>
      CloseKeepsShape(s, close);
      CloseKeepsLife(s, close);
      CloseKeepsPending(s, close);
      CloseKeepsDone(s, close);
      CloseKeepsOrder(s, close);
      CloseKeepsRecords(s, close, base);
    case Consuming(consume) =>
      ConsumeKeepsShape(cfg, s, consume);
      ConsumeKeepsPending(cfg, s, consume);
      ConsumeKeepsDone(cfg, s, consume);
      ConsumeKeepsOrder(cfg, s, consume);
      ConsumeKeepsAnswers(cfg, s, consume);
      ConsumeKeepsStore(cfg, s, consume, base);
  }

  /** A run: every step is enabled where it is taken. */
  predicate IsRun(cfg: Config, s: State, steps: seq<Step>)
    decreases |steps|
  {
    |steps| > 0 ==> Enabled(cfg, s, steps[0]) && IsRun(cfg, Next(cfg, s, steps[0]), steps[1..])
  }

  function After(cfg: Config, s: State, steps: seq<Step>): State
    requires IsRun(cfg, s, steps)
    decreases |steps|
  {
    if |steps| == 0 then s else After(cfg, Next(cfg, s, steps[0]), steps[1..])
  }

  lemma {:induction false} RunKeepsInv(cfg: Config, s: State, steps: seq<Step>, base: KV)
    requires IsRun(cfg, s, steps) && Inv(s, base)
    ensures Inv(After(cfg, s, steps), base)
    decreases |steps|
  {
    hide Inv, Enabled, Next;
    if |steps| > 0 {
      StepKeepsInv(cfg, s, steps[0], base);
      RunKeepsInv(cfg, Next(cfg, s, steps[0]), steps[1..], base);
    }
  }
}
