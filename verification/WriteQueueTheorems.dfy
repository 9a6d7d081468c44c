/** What the invariant of the write queue is for: consequences for single states and whole runs. */
module WriteQueueTheorems {
  import opened Pebble
  import opened WriteQueue

  /** s is reached from an initial state by these steps. */
  ghost predicate Reachable(cfg: Config, s0: State, steps: seq<Step>, s: State) {
    Init(s0) && IsRun(cfg, s0, steps) && After(cfg, s0, steps) == s
  }

  lemma ReachableInv(cfg: Config, s0: State, steps: seq<Step>, s: State)
    requires Reachable(cfg, s0, steps, s)
    ensures Inv(s, s0.store)
  {
    hide Inv, IsRun, After, Init;
    InitInv(s0);
    RunKeepsInv(cfg, s0, steps, s0.store);
  }

  // ---------------------------------------------------------------- safety, in every reachable state

  /** Submit never sends on a closed channel, nor after Stop has begun. */
  lemma NoSendOnClosedChannel(cfg: Config, s0: State, steps: seq<Step>, s: State, i: nat)
    requires Reachable(cfg, s0, steps, s) && CanSubmit(s, i, Send)
    ensures !s.chanClosed && !s.stopped
  {
    hide Reachable, OwnersInv, PendingInv, OrderInv, DoneInv, AnswersInv, StoreInv, ConsumerInv;
    ReachableInv(cfg, s0, steps, s);
  }

  /** An object in the pool is neither in the channel, nor unanswered in the consumer's batch, nor
      held by Stop, nor in any caller's hands. */
  lemma PooledIsUnused(cfg: Config, s0: State, steps: seq<Step>, s: State, obj: nat)
    requires Reachable(cfg, s0, steps, s) && obj in s.pool
    ensures forall it :: Pending(s, it) ==> it.obj != obj
    ensures forall i :: 0 <= i < |s.callers| ==> Owns(s.callers[i]) != Some(obj)
  {
    hide OrderInv, DoneInv, AnswersInv, StoreInv, ConsumerInv, LifeInv, Pending;
    ReachableInv(cfg, s0, steps, s);
    forall it | Pending(s, it) ensures it.obj != obj {
      assert PendingOk(s, it);
      Owned(s, s.accepted[it.ticket].caller);
    }
  }

  /** Until it is answered, an operation reaches the engine with the content it was accepted with. */
  lemma ContentIsKept(cfg: Config, s0: State, steps: seq<Step>, s: State, it: Item)
    requires Reachable(cfg, s0, steps, s) && Pending(s, it)
    ensures it.ticket < |s.accepted| && it.obj < |s.objs| && s.objs[it.obj].op == s.accepted[it.ticket].op
  {
    hide Reachable, OwnersInv, OrderInv, DoneInv, AnswersInv, StoreInv, ConsumerInv, LifeInv, Pending;
    ReachableInv(cfg, s0, steps, s);
    assert PendingOk(s, it);
  }

  /** No answer is ever taken back or given twice, and acceptance is never revoked. */
  lemma AnswersAreFinal(cfg: Config, s: State, step: Step, base: KV)
    requires Inv(s, base) && Enabled(cfg, s, step)
    ensures var s' := Next(cfg, s, step);
      && s.accepted <= s'.accepted
      && (forall t :: t in s.sent ==> t in s'.sent && s'.sent[t] == s.sent[t])
  {
    hide Inv, NextSubmit, NextDirect, NextClose, NextConsume, CanSubmit, CanDirect, CanClose, CanConsume, Apply;
    match step
    case Stopping(DrainReply) => DrainAnswersNew(s, base);
    case Consuming(Reply) => ReplyAnswersNew(cfg, s, base);
    case _ =>
  }

  lemma DrainAnswersNew(s: State, base: KV)
    requires Inv(s, base) && CanClose(s, DrainReply)
    ensures forall t :: t in s.sent ==> t in NextClose(s, DrainReply).sent && NextClose(s, DrainReply).sent[t] == s.sent[t]
  {
    hide OwnersInv, DoneInv, AnswersInv, StoreInv, LifeInv, OrderInv, ConsumerInv;
    var held := s.gate.stage.held.value;
    assert held in HeldByStop(s.gate);
    assert Pending(s, held);
  }

  lemma ReplyAnswersNew(cfg: Config, s: State, base: KV)
    requires Inv(s, base) && CanConsume(cfg, s, Reply)
    ensures forall t :: t in s.sent ==> t in NextConsume(cfg, s, Reply).sent && NextConsume(cfg, s, Reply).sent[t] == s.sent[t]
  {
    hide OwnersInv, DoneInv, AnswersInv, StoreInv, LifeInv, OrderInv;
    var head := s.consumer.batch[s.consumer.replied];
    assert head in Unreplied(s.consumer);
    assert Pending(s, head);
  }

  lemma {:induction false} RunAnswersAreFinal(cfg: Config, s: State, steps: seq<Step>, base: KV)
    requires IsRun(cfg, s, steps) && Inv(s, base)
    ensures var s' := After(cfg, s, steps);
      && s.accepted <= s'.accepted
      && (forall t :: t in s.sent ==> t in s'.sent && s'.sent[t] == s.sent[t])
    decreases |steps|
  {
    hide Inv, Enabled, Next;
    if |steps| > 0 {
      StepKeepsInv(cfg, s, steps[0], base);
      AnswersAreFinal(cfg, s, steps[0], base);
      RunAnswersAreFinal(cfg, Next(cfg, s, steps[0]), steps[1..], base);
    }
  }

  /** The operation a caller came with. */
  function Asked(c: Caller): Option<Op> {
    match c
    case Filled(_, op) => Some(op)
    case Locked(_, op) => Some(op)
    case Checked(_, op) => Some(op)
    case Waiting(_, op, _) => Some(op)
    case Answered(_, op, _, _) => Some(op)
    case _ => None
  }

  /** What is accepted from a caller, and later answered, is the operation it came with. */
  lemma AcceptedAsAsked(cfg: Config, s0: State, steps: seq<Step>, s: State, i: nat)
    requires Reachable(cfg, s0, steps, s)
    requires i < |s.callers| && (s.callers[i].Waiting? || s.callers[i].Answered?)
    ensures s.callers[i].ticket < |s.accepted|
    ensures s.accepted[s.callers[i].ticket] == Acceptance(Asked(s.callers[i]).value, s.callers[i].obj, i)
  {
    hide Reachable, PendingInv, OrderInv, AnswersInv, StoreInv, ConsumerInv, LifeInv, OwnersInv;
    ReachableInv(cfg, s0, steps, s);
    Owned(s, i);
    assert DoneOk(s, i);
  }

  /** What one step may do to what a caller asked: nothing, but begin or end the call. */
  predicate SameCall(c: Caller, c': Caller, began: Option<Op>) {
    if c.Idle? then Asked(c').Some? ==> Asked(c') == began
    else Asked(c).Some? ==> Asked(c') == Asked(c) || c'.Rejected? || c'.Idle?
  }

  lemma SubmitKeepsAsked(cfg: Config, s: State, i: nat, step: SubmitStep, j: nat)
    requires CanSubmit(s, i, step) && j < |s.callers|
    ensures |NextSubmit(cfg, s, i, step).callers| == |s.callers|
    ensures SameCall(s.callers[j], NextSubmit(cfg, s, i, step).callers[j],
      if step.Acquire? && i == j then Some(step.op) else None)
  {
  }

  lemma NothingHappens(c: Caller)
    ensures SameCall(c, c, None)
  {
  }

  lemma DirectKeepsAsked(s: State, i: nat, step: DirectStep, j: nat)
    requires CanDirect(s, i, step) && j < |s.callers|
    ensures |NextDirect(s, i, step).callers| == |s.callers|
    ensures SameCall(s.callers[j], NextDirect(s, i, step).callers[j], None)
  {
    hide Apply;
  }

  lemma CloseKeepsAsked(s: State, step: CloseStep, j: nat)
    requires CanClose(s, step) && j < |s.callers|
    ensures |NextClose(s, step).callers| == |s.callers|
    ensures SameCall(s.callers[j], NextClose(s, step).callers[j], None)
  {
    if !step.StartClose? && !step.EndClose? { hide NextClose, CanClose; }
  }

  /** Nobody else's step, and none of its own before the end of the call, changes what a caller asked;
      the call began with it. */
  lemma CallKeepsItsOp(cfg: Config, s: State, step: Step, j: nat)
    requires Enabled(cfg, s, step) && j < |s.callers|
    ensures |Next(cfg, s, step).callers| == |s.callers|
    ensures SameCall(s.callers[j], Next(cfg, s, step).callers[j],
      if step.Submitting? && step.submit.Acquire? && step.i == j then Some(step.submit.op) else None)
  {
    hide SameCall, CanSubmit, CanDirect, CanClose, CanConsume, NextSubmit, NextDirect, NextClose, NextConsume;
    match step
    case Submitting(i, submit) => SubmitKeepsAsked(cfg, s, i, submit, j);
    case Directly(i, direct) => DirectKeepsAsked(s, i, direct, j);
    case Stopping(close) => CloseKeepsAsked(s, close, j);
    case Consuming(_) => NothingHappens(s.callers[j]);
  }

  /** What a caller of an accepted operation is told is true: nil exactly when its own operation is
      in the engine's log. */
  lemma CallerHearsTruth(cfg: Config, s0: State, steps: seq<Step>, s: State, i: nat)
    requires Reachable(cfg, s0, steps, s) && i < |s.callers| && s.callers[i].Answered?
    ensures var t := s.callers[i].ticket;
      && t < |s.accepted| && s.accepted[t].caller == i && s.accepted[t].op == s.callers[i].op
      && (s.callers[i].outcome == Committed <==> t in Applied(s.log))
  {
    hide Reachable, PendingInv, OrderInv, StoreInv, ConsumerInv, LifeInv, Applied;
    ReachableInv(cfg, s0, steps, s);
    Owned(s, i);
    assert DoneOk(s, i);
  }

  /** A refused operation never reaches the queue or its Done channel. */
  lemma RejectedIsSilent(cfg: Config, s0: State, steps: seq<Step>, s: State, i: nat)
    requires Reachable(cfg, s0, steps, s) && i < |s.callers| && s.callers[i].Rejected?
    ensures var o := s.callers[i].obj;
      o < |s.objs| && s.objs[o].done == Some([]) && forall it :: Pending(s, it) ==> it.obj != o
  {
    hide OrderInv, AnswersInv, StoreInv, ConsumerInv, LifeInv, Pending, OwnersInv;
    ReachableInv(cfg, s0, steps, s);
    Owned(s, i);
    assert DoneOk(s, i);
    forall it | Pending(s, it) ensures it.obj != s.callers[i].obj {
      assert PendingOk(s, it);
      OwnedApart(s, s.accepted[it.ticket].caller, i);
    }
  }

  /** Operations are committed in acceptance order, each at most once. */
  lemma CommittedInOrder(cfg: Config, s0: State, steps: seq<Step>, s: State)
    requires Reachable(cfg, s0, steps, s)
    ensures Increasing(Applied(s.log))
    ensures s.store == Apply(s0.store, Ops(s.log))
  {
    hide Reachable, OwnersInv, PendingInv, DoneInv, AnswersInv, ConsumerInv, LifeInv, Applied, Ops, Apply;
    ReachableInv(cfg, s0, steps, s);
    var line := Applied(s.log) + Tickets(Unapplied(s.consumer) + s.chan);
    assert forall j :: 0 <= j < |Applied(s.log)| ==> Applied(s.log)[j] == line[j];
  }

  /** A group commit is all or nothing, and all its callers are to hear the same. */
  lemma GroupIsAtomic(cfg: Config, s0: State, steps: seq<Step>, s: State, ok: bool)
    requires Reachable(cfg, s0, steps, s) && CanConsume(cfg, s, ApplyNext(ok)) && s.consumer.grouped
    ensures var s' := NextConsume(cfg, s, ApplyNext(ok));
      && InFlight(s'.consumer) == s.consumer.batch
      && s'.consumer.outcome == (if ok then Committed else Failed)
      && (forall it :: it in s.consumer.batch ==> (it.ticket in Applied(s'.log) <==> ok))
      && (!ok ==> s'.store == s.store && s'.log == s.log)
  {
    hide Reachable, OwnersInv, PendingInv, DoneInv, AnswersInv, StoreInv, LifeInv, Applied, Ops, Apply, Entries, NextConsume, Unapplied;
    ReachableInv(cfg, s0, steps, s);
    var c := s.consumer;
    assert c.batch[c.applied..Reach(c)] == c.batch;
    Committing(cfg, s, ok);
    UnappliedLine(cfg, s, ApplyNext(ok));
    var s' := NextConsume(cfg, s, ApplyNext(ok));
    ApplyMovesTickets(s, ok, Entries(s.objs, c.batch), c.batch, Unapplied(s'.consumer) + s'.chan);
    forall it | it in c.batch ensures it.ticket in Tickets(c.batch) { TicketOf(c.batch, it); }
  }

  /** A group commit under way or over: those of the batch who have been told, were told `outcome`. */
  ghost predicate GroupTold(s: State, batch: seq<Item>, outcome: Outcome) {
    var c := s.consumer;
    || (c.Work? && c.grouped && c.batch == batch && c.applied == |batch| && c.replied <= |batch| && c.outcome == outcome
        && forall it :: it in batch[..c.replied] ==> it.ticket in s.sent && s.sent[it.ticket] == outcome)
    || forall it :: it in batch ==> it.ticket in s.sent && s.sent[it.ticket] == outcome
  }

  lemma StepKeepsGroupTold(cfg: Config, s: State, step: Step, base: KV, batch: seq<Item>, outcome: Outcome)
    requires Inv(s, base) && Enabled(cfg, s, step) && GroupTold(s, batch, outcome)
    ensures GroupTold(Next(cfg, s, step), batch, outcome)
  {
    hide OwnersInv, PendingInv, OrderInv, DoneInv, AnswersInv, StoreInv, LifeInv, ConsumerInv, Next, Enabled;
    AnswersAreFinal(cfg, s, step, base);
    if forall it :: it in batch ==> it.ticket in s.sent && s.sent[it.ticket] == outcome {
    } else {
      GroupStep(cfg, s, step);
    }
  }

  /** What can happen to a consumer that has committed a group. */
  lemma GroupStep(cfg: Config, s: State, step: Step)
    requires Enabled(cfg, s, step) && s.consumer.Work? && s.consumer.grouped && s.consumer.applied == |s.consumer.batch|
    requires s.consumer.replied <= |s.consumer.batch|
    ensures var c, s' := s.consumer, Next(cfg, s, step);
      || s'.consumer == c
      || (c.replied == |c.batch| && c.batch[..c.replied] == c.batch)
      || (&& c.replied < |c.batch| && s'.consumer == c.(replied := c.replied + 1)
          && s'.sent == s.sent[c.batch[c.replied].ticket := c.outcome]
          && c.batch[..c.replied + 1] == c.batch[..c.replied] + [c.batch[c.replied]])
  {
    hide NextSubmit, NextDirect, NextClose, CanSubmit, CanDirect, CanClose, Entries, Ops, Apply;
  }

  lemma {:induction false} RunKeepsGroupTold(cfg: Config, s: State, steps: seq<Step>, base: KV, batch: seq<Item>, outcome: Outcome)
    requires IsRun(cfg, s, steps) && Inv(s, base) && GroupTold(s, batch, outcome)
    ensures Inv(After(cfg, s, steps), base) && GroupTold(After(cfg, s, steps), batch, outcome)
    decreases |steps|
  {
    hide Inv, Enabled, Next, GroupTold;
    if |steps| > 0 {
      StepKeepsInv(cfg, s, steps[0], base);
      StepKeepsGroupTold(cfg, s, steps[0], base, batch, outcome);
      RunKeepsGroupTold(cfg, Next(cfg, s, steps[0]), steps[1..], base, batch, outcome);
    }
  }

  /** However a run goes on after a group commit, every caller of the batch that is told anything is
      told the same: nil when the batch was committed, the engine's error when it was not. */
  lemma GroupHearsOne(cfg: Config, s0: State, steps: seq<Step>, s: State, ok: bool, more: seq<Step>)
    requires Reachable(cfg, s0, steps, s) && CanConsume(cfg, s, ApplyNext(ok)) && s.consumer.grouped
    requires IsRun(cfg, NextConsume(cfg, s, ApplyNext(ok)), more)
    ensures var s2 := After(cfg, NextConsume(cfg, s, ApplyNext(ok)), more);
      forall it :: it in s.consumer.batch && it.ticket in s2.sent ==>
        s2.sent[it.ticket] == if ok then Committed else Failed
  {
    hide Reachable, OwnersInv, OrderInv, DoneInv, AnswersInv, StoreInv, LifeInv, IsRun, After, NextConsume, Entries, Ops, Apply;
    ReachableInv(cfg, s0, steps, s);
    var s1 := NextConsume(cfg, s, ApplyNext(ok));
    var outcome := if ok then Committed else Failed;
    assert s1 == Next(cfg, s, Consuming(ApplyNext(ok)));
    StepKeepsInv(cfg, s, Consuming(ApplyNext(ok)), s0.store);
    GroupBegins(cfg, s, ok);
    RunKeepsGroupTold(cfg, s1, more, s0.store, s.consumer.batch, outcome);
    var s2 := After(cfg, s1, more);
    forall it | it in s.consumer.batch && it.ticket in s2.sent ensures s2.sent[it.ticket] == outcome {
      ToldInGroup(s2, s0.store, s.consumer.batch, outcome, it);
    }
  }

  lemma GroupBegins(cfg: Config, s: State, ok: bool)
    requires CanConsume(cfg, s, ApplyNext(ok)) && ConsumerInv(s) && s.consumer.grouped
    ensures GroupTold(NextConsume(cfg, s, ApplyNext(ok)), s.consumer.batch, if ok then Committed else Failed)
  {
    hide Entries, Ops, Apply;
  }

  lemma ToldInGroup(s: State, base: KV, batch: seq<Item>, outcome: Outcome, it: Item)
    requires Inv(s, base) && GroupTold(s, batch, outcome) && it in batch && it.ticket in s.sent
    ensures s.sent[it.ticket] == outcome
  {
    hide OwnersInv, OrderInv, DoneInv, AnswersInv, StoreInv, LifeInv, ConsumerInv;
    if !(forall x :: x in batch ==> x.ticket in s.sent && s.sent[x.ticket] == outcome) {
      var c := s.consumer;
      assert batch == batch[..c.replied] + batch[c.replied..];
      if it in batch[c.replied..] { assert Pending(s, it); }
    }
  }

  // ---------------------------------------------------------------- group commit refines one by one

  /** An operation that has gone through: its caller has been told so, or is about to be. */
  ghost predicate Succeeded(s: State, t: nat) {
    || (t in s.sent && s.sent[t] == Committed)
    || (s.consumer.Work? && s.consumer.outcome == Committed && t in Tickets(InFlight(s.consumer)))
  }

  /** The tickets below n that have gone through, in order. */
  ghost function Successes(s: State, n: nat): (ts: seq<nat>)
    ensures Increasing(ts) && (forall t :: t in ts <==> 0 <= t < n && Succeeded(s, t))
    ensures forall j :: 0 <= j < |ts| ==> ts[j] < n
  {
    if n == 0 then [] else
      var front := Successes(s, n - 1);
      front + if Succeeded(s, n - 1) then [n - 1] else []
  }

  function Contents(accepted: seq<Acceptance>, ts: seq<nat>): (r: seq<Op>)
    requires forall j :: 0 <= j < |ts| ==> ts[j] < |accepted|
    ensures |r| == |ts| && forall j :: 0 <= j < |ts| ==> r[j] == accepted[ts[j]].op
  {
    seq(|ts|, j requires 0 <= j < |ts| => accepted[ts[j]].op)
  }

  /** The queue's part of the log. */
  function QueuedOps(log: seq<Commit>): seq<Op> {
    if |log| == 0 then []
    else QueuedOps(log[..|log| - 1]) + if log[|log| - 1].Queued? then [log[|log| - 1].op] else []
  }

  lemma {:induction false} QueuedContents(log: seq<Commit>, accepted: seq<Acceptance>)
    requires forall j :: 0 <= j < |log| && log[j].Queued? ==>
      log[j].ticket < |accepted| && log[j].op == accepted[log[j].ticket].op
    ensures forall j :: 0 <= j < |Applied(log)| ==> Applied(log)[j] < |accepted|
    ensures QueuedOps(log) == Contents(accepted, Applied(log))
  {
    if |log| > 0 { QueuedContents(log[..|log| - 1], accepted); }
  }

  lemma {:induction false} OnlyQueued(log: seq<Commit>)
    requires forall j :: 0 <= j < |log| ==> log[j].Queued?
    ensures Ops(log) == QueuedOps(log)
  {
    if |log| > 0 { OnlyQueued(log[..|log| - 1]); }
  }

  lemma NotEarlier(a: seq<nat>, b: seq<nat>, j: nat)
    requires Increasing(a) && Increasing(b) && j < |a| && j <= |b|
    requires (forall i :: 0 <= i < j ==> a[i] == b[i]) && a[j] in b
    ensures j < |b| && b[j] <= a[j]
  {
    var k :| 0 <= k < |b| && b[k] == a[j];
    assert k >= j;
  }

  /** Increasing lists of the same numbers are equal. */
  lemma IncreasingUnique(a: seq<nat>, b: seq<nat>)
    requires Increasing(a) && Increasing(b) && forall t :: t in a <==> t in b
    ensures a == b
  {
    var j := 0;
    while j < |a| || j < |b|
      invariant j <= |a| && j <= |b| && forall i :: 0 <= i < j ==> a[i] == b[i]
      decreases |a| - j
    {
      if j < |a| { NotEarlier(a, b, j); }
      NotEarlier(b, a, j);
      j := j + 1;
    }
  }

  /** However the consumer cuts the accepted operations into batches, whichever of them fail, whatever
      Stop drains and whatever is written directly in between: the queue's part of the log is the
      contents of exactly the operations that went through, one by one in acceptance order, and the
      store is the log applied. */
  lemma GroupCommitIsFifo(cfg: Config, s0: State, steps: seq<Step>, s: State)
    requires Reachable(cfg, s0, steps, s)
    ensures Applied(s.log) == Successes(s, |s.accepted|)
    ensures QueuedOps(s.log) == Contents(s.accepted, Successes(s, |s.accepted|))
    ensures s.store == Apply(s0.store, Ops(s.log))
    ensures (forall j :: 0 <= j < |s.log| ==> s.log[j].Queued?) ==>
      s.store == Apply(s0.store, Contents(s.accepted, Successes(s, |s.accepted|)))
  {
    hide Reachable, OwnersInv, PendingInv, DoneInv, ConsumerInv, LifeInv, Applied, Ops, Apply, QueuedOps, Succeeded, Successes;
    ReachableInv(cfg, s0, steps, s);
    CommittedInOrder(cfg, s0, steps, s);
    QueuedContents(s.log, s.accepted);
    AppliedSucceeded(s);
    IncreasingUnique(Applied(s.log), Successes(s, |s.accepted|));
    if forall j :: 0 <= j < |s.log| ==> s.log[j].Queued? { OnlyQueued(s.log); }
  }

  lemma AppliedSucceeded(s: State)
    requires AnswersInv(s)
    ensures forall t :: t in Applied(s.log) <==> Succeeded(s, t)
  {
    hide Applied;
    var flight := InFlight(s.consumer);
    forall t | t in Tickets(flight) ensures s.consumer.outcome == Committed <==> t in Applied(s.log) {
      var j :| 0 <= j < |flight| && Tickets(flight)[j] == t;
      assert flight[j] in flight;
    }
  }

  /** Two runs with different batch sizes, engines or interleavings that accept the same operations, of
      which the same go through, leave the same store. */
  lemma BatchingIsInvisible(cfg1: Config, steps1: seq<Step>, s1: State, cfg2: Config, steps2: seq<Step>, s2: State, s0: State)
    requires Reachable(cfg1, s0, steps1, s1) && Reachable(cfg2, s0, steps2, s2)
    requires forall j :: 0 <= j < |s1.log| ==> s1.log[j].Queued?
    requires forall j :: 0 <= j < |s2.log| ==> s2.log[j].Queued?
    requires |s1.accepted| == |s2.accepted|
    requires forall t :: 0 <= t < |s1.accepted| ==>
      s1.accepted[t].op == s2.accepted[t].op && (Succeeded(s1, t) <==> Succeeded(s2, t))
    ensures s1.store == s2.store
  {
    hide Reachable, Succeeded, Successes, QueuedOps, Ops, Apply, Applied;
    GroupCommitIsFifo(cfg1, s0, steps1, s1);
    GroupCommitIsFifo(cfg2, s0, steps2, s2);
    var n := |s1.accepted|;
    IncreasingUnique(Successes(s1, n), Successes(s2, n));
    var ts := Successes(s1, n);
    assert forall j :: 0 <= j < |ts| ==> ts[j] in ts;
    assert Contents(s1.accepted, ts) == Contents(s2.accepted, ts);
  }

  /** The loops behind a grouped engine call (applyBatch and ApplyBatch): entries are copied out of
      the objects, then into one engine batch. */
  method ApplyGroup(store: KV, objs: seq<WriteOp>, ops: seq<Item>, commits: bool) returns (store': KV, outcome: Outcome)
    requires forall it :: it in ops ==> it.obj < |objs|
    ensures store' == if commits then Apply(store, Ops(Entries(objs, ops))) else store
    ensures outcome == if commits then Committed else Failed
  {
    var entries: seq<Commit> := [];
    for i := 0 to |ops|
      invariant entries == Entries(objs, ops)[..i]
    {
      assert ops[i] in ops;
      entries := entries + [Queued(objs[ops[i].obj].op, ops[i].ticket)];
    }
    var batch: seq<Op> := [];
    for i := 0 to |entries|
      invariant batch == Ops(entries[..i])
    {
      assert entries[..i + 1][..i] == entries[..i];
      batch := batch + [entries[i].op];
    }
    assert entries[..|entries|] == entries == Entries(objs, ops);
    return if commits then Apply(store, batch) else store, if commits then Committed else Failed;
  }

  // ---------------------------------------------------------------- Close

  /** Nobody can reach the engine once it is closed. */
  lemma NoEngineUseAfterClose(cfg: Config, s0: State, steps: seq<Step>, s: State)
    requires Reachable(cfg, s0, steps, s) && s.engineClosed
    ensures forall ok :: !CanConsume(cfg, s, ApplyNext(ok))
    ensures forall i: nat, ok :: !CanDirect(s, i, CommitDirect(ok))
  {
    hide Reachable, OwnersInv, PendingInv, OrderInv, DoneInv, AnswersInv, StoreInv;
    ReachableInv(cfg, s0, steps, s);
    assert forall i :: 0 <= i < |s.callers| ==> !s.callers[i].Direct?;
  }

  /** When Stop has returned, everything ever accepted has been answered. */
  lemma NothingPendingAfterStop(cfg: Config, s0: State, steps: seq<Step>, s: State)
    requires Reachable(cfg, s0, steps, s) && (AtStage(s, CloseEngine) || s.engineClosed)
    ensures forall it :: !Pending(s, it)
    ensures forall t :: 0 <= t < |s.accepted| ==> t in s.sent
  {
    hide Reachable, OwnersInv, OrderInv, DoneInv, AnswersInv, StoreInv;
    ReachableInv(cfg, s0, steps, s);
    assert forall it :: !Pending(s, it);
  }

  /** Close succeeds once at most, over all callers and the whole run. */
  lemma ClosesOnce(cfg: Config, s0: State, steps: seq<Step>, s: State)
    requires Reachable(cfg, s0, steps, s)
    ensures s.closes <= 1
  {
    hide Reachable, OwnersInv, PendingInv, OrderInv, DoneInv, AnswersInv, StoreInv, ConsumerInv;
    ReachableInv(cfg, s0, steps, s);
  }

  // ---------------------------------------------------------------- nobody waits for ever

  /** Steps that finish calls already under way; the others begin new ones. */
  predicate Internal(step: Step) {
    match step
    case Submitting(_, submit) => !submit.Acquire?
    case Directly(_, direct) => !direct.EnterDirect?
    case Stopping(close) => !close.StartClose?
    case Consuming(_) => true
  }

  /** All calls have returned and the consumer has nothing left to do. */
  predicate AtRest(s: State) {
    && (forall i :: 0 <= i < |s.callers| ==> s.callers[i].Idle?)
    && s.gate.Free? && s.chan == []
    && (if s.chanClosed then s.consumer.Exited? else s.consumer.Receiving?)
  }

  /** No deadlock: short of rest, some call under way can go on. */
  lemma Progress(cfg: Config, s: State, base: KV) returns (step: Step)
    requires Inv(s, base) && !AtRest(s)
    ensures Internal(step) && Enabled(cfg, s, step)
  {
    hide AnswersInv, StoreInv, OrderInv;
    if s.consumer.Collecting? {
      step := Consuming(if |s.consumer.batch| < cfg.batchSize && s.chan != [] then Collect else Cut);
    } else if s.consumer.Work? {
      step := WorkProgress(cfg, s, base);
    } else if s.consumer.Receiving? && s.chan != [] {
      step := Consuming(Take);
    } else if s.consumer.Receiving? && s.chanClosed {
      step := Consuming(Exit);
    } else if s.gate.Held? {
      step := CloseProgress(cfg, s, base);
    } else {
      step := SubmitProgress(cfg, s, base);
    }
  }

  lemma WorkProgress(cfg: Config, s: State, base: KV) returns (step: Step)
    requires Inv(s, base) && s.consumer.Work?
    ensures Internal(step) && Enabled(cfg, s, step)
  {
    hide OwnersInv, AnswersInv, StoreInv, OrderInv, DoneInv, LifeInv;
    var c := s.consumer;
    if c.replied == |c.batch| {
      step := Consuming(Finish);
    } else if c.replied == c.applied {
      step := Consuming(ApplyNext(true));
    } else {
      step := Consuming(Reply);
      assert c.batch[c.replied] in Unreplied(c);
      assert Pending(s, c.batch[c.replied]);
    }
  }

  lemma CloseProgress(cfg: Config, s: State, base: KV) returns (step: Step)
    requires Inv(s, base) && s.gate.Held? && s.chan == []
    requires if s.chanClosed then s.consumer.Exited? else s.consumer.Receiving?
    ensures Internal(step) && Enabled(cfg, s, step)
  {
    hide OwnersInv, AnswersInv, StoreInv, OrderInv, DoneInv, ConsumerInv;
    match s.gate.stage
    case Enter => step := Stopping(Swap);
    case WantQueueLock =>
      if QueueReadLocked(s) {
        var i :| 0 <= i < |s.callers| && (s.callers[i].Locked? || s.callers[i].Checked?);
        step := Submitting(i, if s.callers[i].Locked? then Check(false) else Send);
      } else {
        step := Stopping(LockQueue);
      }
    case Draining(held) =>
      if held.Some? {
        step := Stopping(DrainReply);
        assert held.value in HeldByStop(s.gate);
        assert Pending(s, held.value);
      } else {
        step := Stopping(CloseQueue);
      }
    case QueueClosed => step := Stopping(UnlockQueue);
    case Joining => step := Stopping(Join);
    case CloseEngine => step := Stopping(ShutEngine);
    case Leave(_) => step := Stopping(EndClose);
  }

  lemma SubmitProgress(cfg: Config, s: State, base: KV) returns (step: Step)
    requires Inv(s, base) && s.gate.Free? && s.chan == [] && !AtRest(s)
    requires if s.chanClosed then s.consumer.Exited? else s.consumer.Receiving?
    ensures Internal(step) && Enabled(cfg, s, step)
  {
    hide AnswersInv, StoreInv, OrderInv, ConsumerInv;
    assert forall it :: !Pending(s, it);
    var i :| 0 <= i < |s.callers| && !s.callers[i].Idle?;
    match s.callers[i]
    case Filled(_, _) => step := Submitting(i, ReadLock);
    case Locked(_, _) => step := Submitting(i, Check(false));
    case Checked(_, _) => step := Submitting(i, Send);
    case Waiting(_, _, _) =>
      step := Submitting(i, Receive);
      Owned(s, i);
      assert DoneOk(s, i);
    case Rejected(_) => step := Submitting(i, Release);
    case Answered(_, _, _, _) => step := Submitting(i, Release);
    case Direct(_) => step := Directly(i, CommitDirect(true));
    case DirectDone => step := Directly(i, LeaveDirect);
  }

  function CallerRank(c: Caller): nat {
    match c
    case Filled(_, _) => 60
    case Locked(_, _) => 59
    case Checked(_, _) => 58
    case Waiting(_, _, _) => 2
    case Direct(_) => 2
    case Rejected(_) => 1
    case Answered(_, _, _, _) => 1
    case DirectDone => 1
    case _ => 0
  }

  function CallersRank(cs: seq<Caller>): nat {
    if |cs| == 0 then 0 else CallersRank(cs[..|cs| - 1]) + CallerRank(cs[|cs| - 1])
  }

  lemma {:induction false} RankOfMove(cs: seq<Caller>, i: nat, c: Caller)
    requires i < |cs|
    ensures CallersRank(cs[i := c]) == CallersRank(cs) - CallerRank(cs[i]) + CallerRank(c)
  {
    var n := |cs| - 1;
    if i == n {
      assert cs[i := c][..n] == cs[..n];
    } else {
      assert cs[i := c][..n] == cs[..n][i := c];
      RankOfMove(cs[..n], i, c);
    }
  }

  function ConsumerRank(c: Consumer): int {
    match c
    case Receiving => 1
    case Collecting(batch) => 25 + 15 * |batch|
    case Work(batch, _, applied, replied, _, _) => 2 + 10 * (|batch| - replied) + 3 * (|batch| - applied)
    case Exited => 0
  }

  function GateRank(g: Gate): nat {
    match g
    case Free => 0
    case Held(_, Enter) => 8
    case Held(_, WantQueueLock) => 7
    case Held(_, Draining(held)) => if held.Some? then 6 else 5
    case Held(_, QueueClosed) => 4
    case Held(_, Joining) => 3
    case Held(_, CloseEngine) => 2
    case Held(_, Leave(_)) => 1
  }

  /** How much is left to do for the calls under way. */
  function Remaining(s: State): int {
    CallersRank(s.callers) + 50 * |s.chan| + ConsumerRank(s.consumer) + GateRank(s.gate)
  }

  lemma RemainingIsNat(s: State)
    requires ConsumerInv(s)
    ensures Remaining(s) >= 0
  {
  }

  lemma SubmitDescends(cfg: Config, s: State, i: nat, step: SubmitStep)
    requires CanSubmit(s, i, step) && !step.Acquire?
    ensures Remaining(NextSubmit(cfg, s, i, step)) < Remaining(s)
  {
    hide CallersRank;
    var c := NextSubmit(cfg, s, i, step).callers[i];
    assert NextSubmit(cfg, s, i, step).callers == s.callers[i := c];
    RankOfMove(s.callers, i, c);
  }

  lemma DirectDescends(s: State, i: nat, step: DirectStep)
    requires CanDirect(s, i, step) && !step.EnterDirect?
    ensures Remaining(NextDirect(s, i, step)) < Remaining(s)
  {
    hide CallersRank, Apply;
    var c := NextDirect(s, i, step).callers[i];
    assert NextDirect(s, i, step).callers == s.callers[i := c];
    RankOfMove(s.callers, i, c);
  }

  lemma CloseDescends(s: State, step: CloseStep)
    requires LifeInv(s) && CanClose(s, step) && !step.StartClose?
    ensures Remaining(NextClose(s, step)) < Remaining(s)
  {
    hide CallersRank, LifeInv;
    if step.EndClose? {
      CloserRank(s);
      RankOfMove(s.callers, s.gate.caller, Idle);
    }
  }

  /** Every internal step brings the calls under way closer to their end. */
  lemma InternalStepDescends(cfg: Config, s: State, step: Step)
    requires ConsumerInv(s) && LifeInv(s) && Enabled(cfg, s, step) && Internal(step)
    ensures Remaining(Next(cfg, s, step)) < Remaining(s)
  {
    hide CallersRank, ConsumerRank, LifeInv, ConsumerInv, CanSubmit, CanDirect, CanClose, CanConsume,
      NextSubmit, NextDirect, NextClose, NextConsume;
    match step
    case Submitting(i, submit) => SubmitDescends(cfg, s, i, submit);
    case Directly(i, direct) => DirectDescends(s, i, direct);
    case Stopping(close) => CloseDescends(s, close);
    case Consuming(consume) => ConsumerDescends(cfg, s, consume);
  }

  lemma CloserRank(s: State)
    requires LifeInv(s) && s.gate.Held?
    ensures s.gate.caller < |s.callers| && s.callers[s.gate.caller] == Closing
  {
  }

  lemma ConsumerDescends(cfg: Config, s: State, step: ConsumerStep)
    requires ConsumerInv(s) && CanConsume(cfg, s, step)
    ensures var s' := NextConsume(cfg, s, step);
      ConsumerRank(s'.consumer) + 50 * |s'.chan| < ConsumerRank(s.consumer) + 50 * |s.chan|
  {
    hide Apply, Ops, Entries, NextConsume;
    NextConsumer(cfg, s, step);
  }

  /** The consumer after a step, and how many items it took from the channel. */
  lemma NextConsumer(cfg: Config, s: State, step: ConsumerStep)
    requires CanConsume(cfg, s, step)
    ensures var s' := NextConsume(cfg, s, step);
      var c := s.consumer;
      && |s'.chan| == |s.chan| - (if step.Take? || step.Collect? then 1 else 0)
      && match step
         case Take => s'.consumer in [Work([s.chan[0]], false, 0, 0, Failed, false), Collecting([s.chan[0]])]
         case Collect => s'.consumer.Collecting? && |s'.consumer.batch| == |c.batch| + 1
         case Cut => s'.consumer.Work? && s'.consumer.batch == c.batch && s'.consumer.applied == 0 == s'.consumer.replied
         case ApplyNext(ok) => s'.consumer == c.(applied := Reach(c), outcome := if ok then Committed else Failed)
         case Reply => s'.consumer == c.(replied := c.replied + 1)
         case Finish => s'.consumer == if c.last then Exited else Receiving
         case Exit => s'.consumer == Exited
  {
    hide Apply, Ops, Entries;
  }

  /** Without new calls every run ends: it cannot be longer than what is left to do. */
  lemma {:induction false} InternalRunsEnd(cfg: Config, s: State, steps: seq<Step>, base: KV)
    requires Inv(s, base) && IsRun(cfg, s, steps) && forall j :: 0 <= j < |steps| ==> Internal(steps[j])
    ensures |steps| <= Remaining(s)
    decreases |steps|
  {
    hide Enabled, Next, Internal, Remaining, OwnersInv, PendingInv, OrderInv, DoneInv, AnswersInv, StoreInv, ConsumerInv, LifeInv;
    RemainingIsNat(s);
    if |steps| > 0 {
      StepKeepsInv(cfg, s, steps[0], base);
      InternalStepDescends(cfg, s, steps[0]);
      InternalRunsEnd(cfg, Next(cfg, s, steps[0]), steps[1..], base);
    }
  }

  /** And it can only end at rest: every call returns, every accepted operation has been answered. */
  lemma {:induction false} EndsAtRest(cfg: Config, s: State, base: KV) returns (steps: seq<Step>)
    requires Inv(s, base)
    ensures IsRun(cfg, s, steps) && forall j :: 0 <= j < |steps| ==> Internal(steps[j])
    ensures AtRest(After(cfg, s, steps))
    decreases Remaining(s)
  {
    hide Enabled, Next, Internal, Remaining, OwnersInv, PendingInv, OrderInv, DoneInv, AnswersInv, StoreInv, ConsumerInv, LifeInv;
    if AtRest(s) { return []; }
    RemainingIsNat(s);
    var step := Progress(cfg, s, base);
    StepKeepsInv(cfg, s, step, base);
    InternalStepDescends(cfg, s, step);
    RemainingIsNat(Next(cfg, s, step));
    var rest := EndsAtRest(cfg, Next(cfg, s, step), base);
    steps := [step] + rest;
    assert steps[1..] == rest;
  }

  /** Any internal run that cannot be continued has ended there: all calls have returned. */
  lemma StuckIsAtRest(cfg: Config, s: State, steps: seq<Step>, base: KV)
    requires Inv(s, base) && IsRun(cfg, s, steps)
    requires forall step :: Enabled(cfg, After(cfg, s, steps), step) ==> !Internal(step)
    ensures AtRest(After(cfg, s, steps))
  {
    hide IsRun, After, Enabled, Internal, AtRest, Inv;
    RunKeepsInv(cfg, s, steps, base);
    if !AtRest(After(cfg, s, steps)) {
      var step := Progress(cfg, After(cfg, s, steps), base);
      assert false;
    }
  }

  lemma RestIsAnswered(cfg: Config, s0: State, steps: seq<Step>, s: State)
    requires Reachable(cfg, s0, steps, s) && AtRest(s)
    ensures forall t :: 0 <= t < |s.accepted| ==> t in s.sent
  {
    hide Reachable, OwnersInv, OrderInv, DoneInv, AnswersInv, StoreInv, LifeInv;
    ReachableInv(cfg, s0, steps, s);
    assert forall it :: !Pending(s, it);
  }
}
