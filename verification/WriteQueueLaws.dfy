/** What the steps of the write queue do, stated on the states before and after: who is admitted, who is
    told what, how large batches and the channel get, and where the pooled objects are
    (internal/writequeue/queue.go, db.go:314-334). */
module WriteQueueLaws {
  import opened Pebble
  import opened WriteQueue
  import opened WriteQueueTheorems

  // ---------------------------------------------------------------- admission

  /** A call of submit gets under way exactly on an open handle and with a key. */
  lemma CallBeginsIff(s: State, i: nat, op: Op)
    ensures (exists obj :: CanSubmit(s, i, Acquire(obj, op)))
       <==> i < |s.callers| && s.callers[i] == Idle && !s.closed && op.key != []
  {
    if i < |s.callers| && s.callers[i] == Idle && !s.closed && op.key != [] {
      assert CanSubmit(s, i, Acquire(|s.objs|, op));
    }
  }

  /** While others go on, a caller that has passed the checks stays where it is. */
  lemma CheckedStays(cfg: Config, s: State, step: Step, base: KV, i: nat)
    requires Inv(s, base) && Enabled(cfg, s, step) && i < |s.callers| && s.callers[i].Checked?
    requires !(step.Submitting? && step.i == i)
    ensures |Next(cfg, s, step).callers| == |s.callers| && Next(cfg, s, step).callers[i] == s.callers[i]
  {
    hide OwnersInv, PendingInv, OrderInv, DoneInv, AnswersInv, StoreInv, ConsumerInv, NextConsume, CanConsume, Apply;
    match step
    case Submitting(j, submit) => OthersUnmoved(cfg, s, j, submit, i);
    case Directly(_, _) =>
    case Stopping(_) =>
    case Consuming(_) =>
  }

  lemma OthersUnmoved(cfg: Config, s: State, j: nat, step: SubmitStep, i: nat)
    requires CanSubmit(s, j, step) && i < |s.callers| && i != j
    ensures |NextSubmit(cfg, s, j, step).callers| == |s.callers|
    ensures NextSubmit(cfg, s, j, step).callers[i] == s.callers[i]
  {
  }

  lemma {:induction false} CheckedStaysInRun(cfg: Config, s: State, steps: seq<Step>, base: KV, i: nat)
    requires Inv(s, base) && IsRun(cfg, s, steps) && i < |s.callers| && s.callers[i].Checked?
    requires forall j :: 0 <= j < |steps| ==> !(steps[j].Submitting? && steps[j].i == i)
    ensures |After(cfg, s, steps).callers| == |s.callers| && After(cfg, s, steps).callers[i] == s.callers[i]
    ensures Inv(After(cfg, s, steps), base)
    decreases |steps|
  {
    hide Inv, Enabled, Next;
    if |steps| > 0 {
      CheckedStays(cfg, s, steps[0], base, i);
      StepKeepsInv(cfg, s, steps[0], base);
      CheckedStaysInRun(cfg, Next(cfg, s, steps[0]), steps[1..], base, i);
    }
  }

  /** Admission. At its check a caller goes on exactly if the queue is not stopped and memory is within
      its limit, and is refused otherwise; nothing else changes. Whatever others do before it sends, its
      operation is then accepted exactly if the channel has room at that moment: one new item at the end,
      with its operation. If not it is refused, and the queue is as it was. */
  lemma AdmittedIff(cfg: Config, s0: State, steps: seq<Step>, s: State, i: nat, exceeded: bool, others: seq<Step>)
    requires Reachable(cfg, s0, steps, s) && i < |s.callers| && s.callers[i].Locked?
    requires IsRun(cfg, Next(cfg, s, Submitting(i, Check(exceeded))), others)
    requires forall j :: 0 <= j < |others| ==> !(others[j].Submitting? && others[j].i == i)
    ensures var Locked(obj, op) := s.callers[i];
      Next(cfg, s, Submitting(i, Check(exceeded)))
        == s.(callers := s.callers[i := if !s.stopped && !exceeded then Checked(obj, op) else Rejected(obj)])
    ensures !s.stopped && !exceeded ==>
      var Locked(obj, op) := s.callers[i];
      var s2 := After(cfg, Next(cfg, s, Submitting(i, Check(exceeded))), others);
      && Enabled(cfg, s2, Submitting(i, Send))
      && var s3 := Next(cfg, s2, Submitting(i, Send));
         && (|s2.chan| < cfg.capacity ==>
               && s3.callers == s2.callers[i := Waiting(obj, op, |s2.accepted|)]
               && s3.chan == s2.chan + [Item(obj, |s2.accepted|)]
               && s3.accepted == s2.accepted + [Acceptance(op, obj, i)]
               && obj < |s3.objs| && s3.objs[obj].op == op)
         && (|s2.chan| >= cfg.capacity ==>
               s3.callers == s2.callers[i := Rejected(obj)] && s3.chan == s2.chan && s3.accepted == s2.accepted)
  {
    hide Reachable, Inv;
    ReachableInv(cfg, s0, steps, s);
    var s1 := Next(cfg, s, Submitting(i, Check(exceeded)));
    StepKeepsInv(cfg, s, Submitting(i, Check(exceeded)), s0.store);
    if !s.stopped && !exceeded {
      CheckedStaysInRun(cfg, s1, others, s0.store, i);
      CheckedHolds(After(cfg, s1, others), s0.store, i);
    }
  }

  lemma CheckedHolds(s: State, base: KV, i: nat)
    requires Inv(s, base) && i < |s.callers| && s.callers[i].Checked?
    ensures s.callers[i].obj < |s.objs| && s.objs[s.callers[i].obj].op == s.callers[i].op
  {
    hide PendingInv, OrderInv, AnswersInv, StoreInv, ConsumerInv, LifeInv;
    Owned(s, i);
    assert DoneOk(s, i);
  }

  /** Get, PutSync and WriteBatch get through to the engine exactly on an open handle; what they commit is
      in the store, in the log and nowhere else, and nothing if the engine fails. */
  lemma DirectInFull(s: State, i: nat, ops: seq<Op>, ok: bool)
    requires i < |s.callers|
    ensures CanDirect(s, i, EnterDirect(ops)) ==>
      NextDirect(s, i, EnterDirect(ops)) == if s.closed then s else s.(callers := s.callers[i := Direct(ops)])
    ensures CanDirect(s, i, EnterDirect(ops)) <==> s.callers[i] == Idle && s.gate == Free
    ensures s.callers[i] == Direct(ops) ==>
      && CanDirect(s, i, CommitDirect(ok))
      && var s' := NextDirect(s, i, CommitDirect(ok));
         && s'.store == (if ok then Apply(s.store, ops) else s.store)
         && s'.log == (if ok then s.log + [Wrote(ops)] else s.log)
         && s'.callers == s.callers[i := DirectDone]
  {
  }

  // ---------------------------------------------------------------- answers

  /** Nobody is told anything but by the consumer, who passes on how its last engine call ended, or by
      Stop, who says ErrStopped to what it has drained. */
  lemma AnswersComeFrom(cfg: Config, s: State, step: Step, t: nat)
    requires Enabled(cfg, s, step) && t in Next(cfg, s, step).sent && t !in s.sent
    ensures var outcome := Next(cfg, s, step).sent[t];
      || (&& step == Stopping(DrainReply) && outcome == Stopped
          && s.gate.Held? && s.gate.stage.Draining? && s.gate.stage.held.Some? && s.gate.stage.held.value.ticket == t)
      || (&& step == Consuming(Reply) && s.consumer.Work? && s.consumer.replied < |s.consumer.batch|
          && s.consumer.batch[s.consumer.replied].ticket == t && outcome == s.consumer.outcome)
  {
    hide Apply, Ops, Entries;
    match step
    case Submitting(_, _) => hide NextSubmit;
    case Directly(_, _) => hide NextDirect;
    case Stopping(_) =>
    case Consuming(consume) => if !consume.Reply? { hide NextConsume; }
  }

  /** How the last engine call ended, and what it did: nil for a commit, with the operations' present
      contents in log and store; the engine's error otherwise, with neither changed. */
  lemma EngineCallInFull(cfg: Config, s: State, ok: bool)
    requires CanConsume(cfg, s, ApplyNext(ok)) && ConsumerInv(s)
    ensures var c, s' := s.consumer, NextConsume(cfg, s, ApplyNext(ok));
      var reach := if c.grouped then |c.batch| else c.applied + 1;
      && c.applied < reach <= |c.batch|
      && s'.consumer == Work(c.batch, c.grouped, reach, c.replied, if ok then Committed else Failed, c.last)
      && (!ok ==> s'.log == s.log && s'.store == s.store)
      && (ok ==>
            && s.log <= s'.log
            && var items, more := c.batch[c.applied..reach], s'.log[|s.log|..];
               && |more| == |items|
               && forall j :: 0 <= j < |items| ==>
                    more[j].Queued? && more[j].ticket == items[j].ticket
                    && (items[j].obj < |s.objs| ==> more[j].op == s.objs[items[j].obj].op))
  {
    hide Apply, Ops;
  }

  // ---------------------------------------------------------------- sizes and places, in every run

  /** The channel never holds more than its capacity, a batch never more than the batch size (one, when
      operations are consumed one by one), and a batch is handed over as one exactly when the engine takes
      batches and there is more than one operation in it. */
  predicate SizesInv(cfg: Config, s: State) {
    && |s.chan| <= cfg.capacity
    && match s.consumer
       case Collecting(batch) => 0 < |batch| <= cfg.batchSize
       case Work(batch, grouped, _, _, _, _) =>
         0 < |batch| <= (if cfg.batchSize == 0 then 1 else cfg.batchSize) && (grouped <==> cfg.batches && |batch| > 1)
       case _ => true
  }

  lemma ConsumeKeepsSizes(cfg: Config, s: State, step: ConsumerStep)
    requires CanConsume(cfg, s, step) && SizesInv(cfg, s)
    ensures SizesInv(cfg, NextConsume(cfg, s, step))
  {
    hide Apply, Ops, Entries;
    match step
    case Take => hide Applying, Replying, Turned;
    case Collect => hide Applying, Replying, Turned;
    case ApplyNext(_) => hide Taking, Replying, Turned;
    case Reply => hide Taking, Applying, Turned;
    case _ => hide Taking, Applying, Replying;
  }

  lemma CloseKeepsSizes(cfg: Config, s: State, step: CloseStep)
    requires CanClose(s, step) && SizesInv(cfg, s)
    ensures SizesInv(cfg, NextClose(s, step))
  {
  }

  lemma SubmitKeepsSizes(cfg: Config, s: State, i: nat, step: SubmitStep)
    requires CanSubmit(s, i, step) && SizesInv(cfg, s)
    ensures SizesInv(cfg, NextSubmit(cfg, s, i, step))
  {
  }

  lemma StepKeepsSizes(cfg: Config, s: State, step: Step)
    requires Enabled(cfg, s, step) && SizesInv(cfg, s)
    ensures SizesInv(cfg, Next(cfg, s, step))
  {
    hide NextSubmit, NextDirect, NextClose, NextConsume, CanSubmit, CanDirect, CanClose, CanConsume;
    match step
    case Submitting(i, submit) => SubmitKeepsSizes(cfg, s, i, submit);
    case Directly(_, _) =>
    case Stopping(close) => CloseKeepsSizes(cfg, s, close);
    case Consuming(consume) => ConsumeKeepsSizes(cfg, s, consume);
  }

  lemma {:induction false} RunKeepsSizes(cfg: Config, s: State, steps: seq<Step>)
    requires IsRun(cfg, s, steps) && SizesInv(cfg, s)
    ensures SizesInv(cfg, After(cfg, s, steps))
    decreases |steps|
  {
    hide Enabled, Next, SizesInv;
    if |steps| > 0 {
      StepKeepsSizes(cfg, s, steps[0]);
      RunKeepsSizes(cfg, Next(cfg, s, steps[0]), steps[1..]);
    }
  }

  lemma SizesHold(cfg: Config, s0: State, steps: seq<Step>, s: State)
    requires Reachable(cfg, s0, steps, s)
    ensures |s.chan| <= cfg.capacity
    ensures s.consumer.Collecting? ==> 0 < |s.consumer.batch| <= cfg.batchSize
    ensures s.consumer.Work? ==>
      && 0 < |s.consumer.batch| <= (if cfg.batchSize == 0 then 1 else cfg.batchSize)
      && (s.consumer.grouped <==> cfg.batches && |s.consumer.batch| > 1)
  {
    hide IsRun, After;
    RunKeepsSizes(cfg, s0, steps);
  }

  /** The consumer stops collecting only when the batch is full or nothing is left to take. */
  lemma CutsWhenFullOrEmpty(cfg: Config, s: State)
    requires s.consumer.Collecting?
    ensures CanConsume(cfg, s, Cut) <==> |s.consumer.batch| >= cfg.batchSize || |s.chan| == 0
    ensures CanConsume(cfg, s, Cut) <==> !CanConsume(cfg, s, Collect)
  {
  }

  /** The order of shutting down: the channel is closed only once Stop has begun on a closed handle and
      has left nothing in it, the consumer ends only after that, and the engine is closed only when the
      consumer has ended. */
  lemma ShutDownInOrder(cfg: Config, s0: State, steps: seq<Step>, s: State)
    requires Reachable(cfg, s0, steps, s)
    ensures s.chanClosed ==> s.chan == [] && s.stopped && s.closed
    ensures s.consumer.Exited? ==> s.chanClosed
    ensures s.engineClosed ==> s.consumer.Exited?
  {
    hide Reachable, OwnersInv, PendingInv, OrderInv, DoneInv, AnswersInv, StoreInv, ConsumerInv;
    ReachableInv(cfg, s0, steps, s);
  }

  /** No object is lost: each is in the pool or in some caller's hands. */
  ghost predicate NoneLost(s: State) {
    forall o :: 0 <= o < |s.objs| ==> o in s.pool || exists i :: 0 <= i < |s.callers| && Owns(s.callers[i]) == Some(o)
  }

  lemma SubmitLosesNone(cfg: Config, s: State, i: nat, step: SubmitStep)
    requires CanSubmit(s, i, step) && OwnersInv(s) && NoneLost(s)
    ensures NoneLost(NextSubmit(cfg, s, i, step))
  {
    hide Owns;
    SubmitMovesObjects(cfg, s, i, step);
    SubmitAddsOne(cfg, s, i, step);
    hide NextSubmit, CanSubmit;
    var s' := NextSubmit(cfg, s, i, step);
    forall o | 0 <= o < |s'.objs| && o !in s'.pool ensures exists j :: 0 <= j < |s'.callers| && Owns(s'.callers[j]) == Some(o) {
      if o < |s.objs| && o !in s.pool {
        var j :| 0 <= j < |s.callers| && Owns(s.callers[j]) == Some(o);
        assert Owns(s'.callers[j]) == Some(o);
      } else {
        assert Owns(s'.callers[i]) == Some(o);
      }
    }
  }

  lemma SubmitAddsOne(cfg: Config, s: State, i: nat, step: SubmitStep)
    requires CanSubmit(s, i, step)
    ensures var s' := NextSubmit(cfg, s, i, step);
      if step.Acquire? && step.obj == |s.objs| then |s'.objs| == |s.objs| + 1 else |s'.objs| == |s.objs|
    ensures step.Acquire? ==> step.obj <= |s.objs|
  {
  }

  lemma OthersLoseNone(cfg: Config, s: State, step: Step)
    requires Enabled(cfg, s, step) && !step.Submitting? && NoneLost(s) && LifeInv(s)
    ensures NoneLost(Next(cfg, s, step))
  {
    var s' := Next(cfg, s, step);
    OwnersStay(cfg, s, step);
    hide Next, Enabled, Owns, LifeInv;
    forall o | 0 <= o < |s'.objs| && o !in s'.pool ensures exists j :: 0 <= j < |s'.callers| && Owns(s'.callers[j]) == Some(o) {
      var j :| 0 <= j < |s.callers| && Owns(s.callers[j]) == Some(o);
      assert Owns(s'.callers[j]) == Some(o);
    }
  }

  lemma OwnersStay(cfg: Config, s: State, step: Step)
    requires Enabled(cfg, s, step) && !step.Submitting? && LifeInv(s)
    ensures var s' := Next(cfg, s, step);
      && |s'.objs| == |s.objs| && s'.pool == s.pool && |s'.callers| == |s.callers|
      && forall j :: 0 <= j < |s.callers| ==> Owns(s'.callers[j]) == Owns(s.callers[j])
  {
    match step
    case Directly(i, direct) => DirectOwnersStay(s, i, direct);
    case Stopping(close) => CloseOwnersStay(s, close);
    case Consuming(consume) => ConsumeOwnersStay(cfg, s, consume);
  }

  lemma DirectOwnersStay(s: State, i: nat, step: DirectStep)
    requires CanDirect(s, i, step)
    ensures var s' := NextDirect(s, i, step);
      |s'.callers| == |s.callers| && forall j :: 0 <= j < |s.callers| ==> Owns(s'.callers[j]) == Owns(s.callers[j])
  {
    hide Apply;
  }

  lemma CloseOwnersStay(s: State, step: CloseStep)
    requires CanClose(s, step) && LifeInv(s)
    ensures var s' := NextClose(s, step);
      && |s'.objs| == |s.objs| && |s'.callers| == |s.callers|
      && forall j :: 0 <= j < |s.callers| ==> Owns(s'.callers[j]) == Owns(s.callers[j])
  {
  }

  lemma ConsumeOwnersStay(cfg: Config, s: State, step: ConsumerStep)
    requires CanConsume(cfg, s, step)
    ensures |NextConsume(cfg, s, step).objs| == |s.objs|
  {
    if !step.Reply? { hide NextConsume; }
  }

  lemma {:induction false} RunLosesNone(cfg: Config, s: State, steps: seq<Step>, base: KV)
    requires IsRun(cfg, s, steps) && Inv(s, base) && NoneLost(s)
    ensures NoneLost(After(cfg, s, steps))
    decreases |steps|
  {
    hide OwnersInv, PendingInv, OrderInv, DoneInv, AnswersInv, StoreInv, ConsumerInv, LifeInv, Enabled, Next, NoneLost;
    if |steps| > 0 {
      StepKeepsInv(cfg, s, steps[0], base);
      StepLosesNone(cfg, s, steps[0], base);
      RunLosesNone(cfg, Next(cfg, s, steps[0]), steps[1..], base);
    }
  }

  lemma StepLosesNone(cfg: Config, s: State, step: Step, base: KV)
    requires Enabled(cfg, s, step) && Inv(s, base) && NoneLost(s)
    ensures NoneLost(Next(cfg, s, step))
  {
    hide OwnersInv, PendingInv, OrderInv, DoneInv, AnswersInv, StoreInv, ConsumerInv, LifeInv, NextSubmit, CanSubmit, NoneLost;
    if step.Submitting? { SubmitLosesNone(cfg, s, step.i, step.submit); } else { OthersLoseNone(cfg, s, step); }
  }

  /** In every reachable state each object is in exactly one place: the pool or one caller's hands. */
  lemma ObjectsConserved(cfg: Config, s0: State, steps: seq<Step>, s: State, o: nat)
    requires Reachable(cfg, s0, steps, s) && o < |s.objs|
    ensures o in s.pool <==> forall i :: 0 <= i < |s.callers| ==> Owns(s.callers[i]) != Some(o)
    ensures forall i, j :: 0 <= i < j < |s.callers| && Owns(s.callers[i]) == Some(o) ==> Owns(s.callers[j]) != Some(o)
  {
    hide PendingInv, OrderInv, DoneInv, AnswersInv, StoreInv, ConsumerInv, LifeInv, IsRun, After;
    ReachableInv(cfg, s0, steps, s);
    InitInv(s0);
    RunLosesNone(cfg, s0, steps, s0.store);
  }
}
