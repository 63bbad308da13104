/** What the lease protocol guarantees over whole runs: no lost wake-up and no lost
    channel in any reachable state, no deadlock, and completion of every batch. */
module LeaseTheorems {
  import opened PoolOrder
  import opened ChannelPool
  import opened LeaseProtocol

  /** steps leads from s to s'. */
  predicate Run(s: State, steps: seq<Step>, s': State)
    decreases |steps|
  {
    if steps == [] then s == s'
    else Enabled(s, steps[0]) && Run(After(s, steps[0]), steps[1..], s')
  }

  /** Conservation, mutual exclusion of leases and no lost wake-up hold in every
      reachable state, spurious wake-ups included. */
  lemma {:induction false} ReachableInv(s: State, steps: seq<Step>, s': State)
    requires Inv(s) && Run(s, steps, s')
    ensures Inv(s')
    decreases |steps|
  {
    if steps != [] {
      StepKeepsInv(s, steps[0]);
      ReachableInv(After(s, steps[0]), steps[1..], s');
    }
  }

  predicate Finished(s: State) {
    forall t | 0 <= t < |s.threads| :: s.threads[t].ops == []
  }

  /** Some thread can move without the help of a spurious wake-up. */
  ghost predicate CanProgress(s: State) {
    exists step :: Enabled(s, step) && !step.Spurious?
  }

  /** A thread that is neither finished nor asleep can take a step. */
  lemma AwakeCanProgress(s: State, t: nat)
    requires Inv(s) && t < |s.threads| && s.threads[t].ops != [] && !s.threads[t].pc.Waiting?
    ensures CanProgress(s)
  {
    var th := s.threads[t];
    var p := th.ops[0].pool;
    assert ThreadOk(th);
    CountPositive(s.threads, Waiting, p);
    var wake: nat := if w: nat :| w < |s.threads| && At(s.threads[w], Waiting, p) then w else 0;
    match th.pc
    case Connecting => assert Enabled(s, ConnectFailed(t, wake));
    case Notified => assert Enabled(s, TryLease(t));
    case Running =>
      if th.ops[0].Acquire? {
        assert Enabled(s, TryLease(t));
      } else if p in th.held {
        assert Enabled(s, Release(t, wake));
      } else {
        assert Enabled(s, Skip(t));
      }
    case Waiting =>
  }

  /** Somebody unfinished is awake: the sleepers on the highest wanted pool are waiting
      for channels whose holders could only be asleep on a higher pool still. */
  lemma SomeoneAwake(s: State) returns (t: nat)
    requires Inv(s) && !Finished(s)
    ensures t < |s.threads| && s.threads[t].ops != [] && !s.threads[t].pc.Waiting?
  {
    t :| t < |s.threads| && s.threads[t].ops != [];
    if s.threads[t].pc.Waiting? {
      var wanted := set i | 0 <= i < |s.threads| && s.threads[i].ops != [] && s.threads[i].pc.Waiting?
                        :: s.threads[i].ops[0].pool;
      assert s.threads[t].ops[0].pool in wanted;
      var p := Highest(wanted);
      t := SomeoneAwakeAround(s, p, wanted);
    }
  }

  lemma SomeoneAwakeAround(s: State, p: PoolId, wanted: set<PoolId>) returns (t: nat)
    requires Inv(s)
    requires wanted == set i | 0 <= i < |s.threads| && s.threads[i].ops != [] && s.threads[i].pc.Waiting?
                           :: s.threads[i].ops[0].pool
    requires p in wanted && forall q | q in wanted :: !Less(p, q)
    ensures t < |s.threads| && s.threads[t].ops != [] && !s.threads[t].pc.Waiting?
  {
    CountPositive(s.threads, Waiting, p);
    CountPositive(s.threads, Notified, p);
    CountPositive(s.threads, Connecting, p);
    assert PoolOk(s, p) && WakeOk(s, p) && LeasesOk(s, p);
    var sleeper :| 0 <= sleeper < |s.threads| && At(s.threads[sleeper], Waiting, p);
    if i :| 0 <= i < |s.threads| && At(s.threads[i], Notified, p) {
      t := i;
    } else if i :| 0 <= i < |s.threads| && At(s.threads[i], Connecting, p) {
      t := i;
    } else {
      var pool := PoolOf(s, p);
      assert pool.free == [] && |pool.owned| == s.max;
      assert pool.owned[0] in Leased(pool);
      var u :| Holds(s, u, p, pool.owned[0]);
      t := u;
      assert ThreadOk(s.threads[t]);
      assert p in s.threads[t].held.Keys;
    }
  }

  /** Deadlock freedom: whenever some thread is unfinished, some thread can step. */
  lemma NoDeadlock(s: State)
    requires Inv(s)
    ensures Finished(s) || CanProgress(s)
  {
    if !Finished(s) {
      var t := SomeoneAwake(s);
      AwakeCanProgress(s, t);
    }
  }

  // ---------------------------------------------------------------- completion

  function PcWork(pc: Pc): nat {
    match pc
    case Running => 2
    case Notified => 1
    case Waiting => 0
    case Connecting => 0
  }

  /** Work left in thread th: a full operation outweighs any wake-up it can cause. */
  function ThreadWork(th: Thread): nat {
    4 * |th.ops| + PcWork(th.pc)
  }

  function Work(ts: seq<Thread>): nat {
    if ts == [] then 0 else Work(ts[..|ts| - 1]) + ThreadWork(ts[|ts| - 1])
  }

  lemma {:induction false} WorkUpdate(ts: seq<Thread>, i: nat, th: Thread)
    requires i < |ts|
    ensures Work(ts[i := th]) == Work(ts) - ThreadWork(ts[i]) + ThreadWork(th)
  {
    var n := |ts| - 1;
    if i == n {
      assert ts[i := th][..n] == ts[..n];
    } else {
      assert ts[i := th][..n] == ts[..n][i := th];
      WorkUpdate(ts[..n], i, th);
    }
  }

  /** The stepping thread gives up more work than a wake-up can add. */
  lemma StepThreadWork(s: State, step: Step)
    requires Enabled(s, step) && ThreadOk(s.threads[step.t])
    ensures
      var before, after := ThreadWork(s.threads[step.t]), ThreadWork(After(s, step).threads[step.t]);
      if step.Spurious? then after == before + 1
      else if Notifies(step) then after + 2 <= before
      else after < before
  {
  }

  lemma StepWork(s: State, step: Step)
    requires Enabled(s, step) && ThreadOk(s.threads[step.t])
    ensures step.Spurious? ==> Work(After(s, step).threads) == Work(s.threads) + 1
    ensures !step.Spurious? ==> Work(After(s, step).threads) < Work(s.threads)
  {
    var p := s.threads[step.t].ops[0].pool;
    var th' := After(s, step).threads[step.t];
    StepThreadWork(s, step);
    WorkUpdate(s.threads, step.t, th');
    var wake := StepNotify(s, step);
    NotifyWork(s.threads[step.t := th'], p, wake);
  }

  lemma StepNotify(s: State, step: Step) returns (wake: nat)
    requires Enabled(s, step)
    ensures var th' := After(s, step).threads[step.t];
            After(s, step).threads == Notify(s.threads[step.t := th'], s.threads[step.t].ops[0].pool, wake)
    ensures Notifies(step) || wake == |s.threads|
  {
    StepThread(s, step);
    wake := Picked(s, step);
  }

  lemma NotifyWork(ts: seq<Thread>, p: PoolId, wake: nat)
    ensures Work(Notify(ts, p, wake)) <= Work(ts) + 1
    ensures wake >= |ts| ==> Work(Notify(ts, p, wake)) == Work(ts)
  {
    if wake < |ts| && At(ts[wake], Waiting, p) {
      WorkUpdate(ts, wake, ts[wake].(pc := Notified));
    }
  }

  function SpuriousIn(steps: seq<Step>): nat {
    if steps == [] then 0 else Bit(steps[0].Spurious?) + SpuriousIn(steps[1..])
  }

  /** No run is longer than the work it started with allows, but for two more steps per
      spurious wake-up. */
  lemma {:induction false} RunsAreBounded(s: State, steps: seq<Step>, s': State)
    requires Inv(s) && Run(s, steps, s')
    ensures |steps| + Work(s'.threads) <= Work(s.threads) + 2 * SpuriousIn(steps)
    decreases |steps|
  {
    if steps != [] {
      StepKeepsInv(s, steps[0]);
      assert ThreadOk(s.threads[steps[0].t]);
      StepWork(s, steps[0]);
      RunsAreBounded(After(s, steps[0]), steps[1..], s');
    }
  }

  /** A run that cannot be continued has finished every batch of every thread, and every
      channel still owned is back in its free list. */
  lemma MaximalRunsFinish(s: State, steps: seq<Step>, s': State)
    requires Initial(s) && Run(s, steps, s') && !CanProgress(s')
    ensures Finished(s')
    ensures forall p: PoolId :: Leased(PoolOf(s', p)) == {} && PoolOf(s', p).created == |PoolOf(s', p).owned|
  {
    InitialInv(s);
    ReachableInv(s, steps, s');
    NoDeadlock(s');
    assert forall t | 0 <= t < |s'.threads| :: ThreadOk(s'.threads[t]) && s'.threads[t].held.Keys == {};
    forall p: PoolId
      ensures Leased(PoolOf(s', p)) == {} && PoolOf(s', p).created == |PoolOf(s', p).owned|
    {
      assert PoolOk(s', p) && LeasesOk(s', p);
      CountPositive(s'.threads, Connecting, p);
      assert forall t, c :: !Holds(s', t, p, c);
    }
  }

  // ---------------------------------------------------------------- the batches themselves

  /** One (rail, endpoint) group of a batch: its pool and its request indices. */
  datatype Group = Group(pool: PoolId, idxs: set<nat>)

  function AcquireAll(batch: nat, groups: seq<Group>): seq<Op> {
    if groups == [] then []
    else [Acquire(groups[0].pool, batch, groups[0].idxs)] + AcquireAll(batch, groups[1..])
  }

  function FinishAll(groups: seq<Group>): seq<Op> {
    if groups == [] then [] else [Finish(groups[0].pool)] + FinishAll(groups[1..])
  }

  /** batch_read_multi and batch_write_multi: lease and post every group, then drain
      every group. */
  function MultiBatch(batch: nat, groups: seq<Group>): seq<Op> {
    AcquireAll(batch, groups) + FinishAll(groups)
  }

  /** batch_read_v and batch_write_v: one peer after the other. */
  function SingleRailBatch(batch: nat, groups: seq<Group>): seq<Op> {
    if groups == [] then []
    else [Acquire(groups[0].pool, batch, groups[0].idxs)] + ([Finish(groups[0].pool)] + SingleRailBatch(batch, groups[1..]))
  }

  predicate Ascending(groups: seq<Group>) {
    forall i, j | 0 <= i < j < |groups| :: Less(groups[i].pool, groups[j].pool)
  }

  function PoolsOf(groups: seq<Group>): set<PoolId> {
    if groups == [] then {} else {groups[0].pool} + PoolsOf(groups[1..])
  }

  lemma FinishFirst(p: PoolId, ops: seq<Op>, held: set<PoolId>)
    requires Disciplined(ops, held - {p})
    ensures Disciplined([Finish(p)] + ops, held)
  {
    assert ([Finish(p)] + ops)[1..] == ops;
  }

  lemma AcquireFirst(p: PoolId, batch: nat, idxs: set<nat>, ops: seq<Op>, held: set<PoolId>)
    requires Disciplined(ops, held + {p}) && forall q | q in held :: Less(q, p)
    ensures Disciplined([Acquire(p, batch, idxs)] + ops, held)
  {
    assert ([Acquire(p, batch, idxs)] + ops)[1..] == ops;
  }

  lemma Assoc(a: seq<Op>, b: seq<Op>, c: seq<Op>)
    ensures a + b + c == a + (b + c)
  {
  }

  lemma {:induction false} FinishAllDisciplined(groups: seq<Group>, held: set<PoolId>, rest: seq<Op>)
    requires Disciplined(rest, held - PoolsOf(groups))
    ensures Disciplined(FinishAll(groups) + rest, held)
  {
    if groups == [] {
      assert FinishAll(groups) + rest == rest;
      assert held - PoolsOf(groups) == held;
    } else {
      var p, tail := groups[0].pool, groups[1..];
      assert held - {p} - PoolsOf(tail) == held - PoolsOf(groups);
      FinishAllDisciplined(tail, held - {p}, rest);
      FinishFirst(p, FinishAll(tail) + rest, held);
      Assoc([Finish(p)], FinishAll(tail), rest);
    }
  }

  /** Every pool in held is below every group's. */
  predicate Below(held: set<PoolId>, groups: seq<Group>) {
    forall q, g | q in held && g in groups :: Less(q, g.pool)
  }

  lemma AscendingTail(groups: seq<Group>, held: set<PoolId>)
    requires groups != [] && Ascending(groups) && Below(held, groups)
    ensures Ascending(groups[1..]) && Below(held + {groups[0].pool}, groups[1..])
    ensures forall q | q in held :: Less(q, groups[0].pool)
    ensures held + {groups[0].pool} + PoolsOf(groups[1..]) == held + PoolsOf(groups)
  {
    var tail := groups[1..];
    assert forall i | 0 <= i < |tail| :: tail[i] == groups[i + 1];
    assert groups[0] in groups;
  }

  lemma {:induction false} AcquireAllDisciplined(batch: nat, groups: seq<Group>, held: set<PoolId>, rest: seq<Op>)
    requires Ascending(groups) && Below(held, groups)
    requires Disciplined(rest, held + PoolsOf(groups))
    ensures Disciplined(AcquireAll(batch, groups) + rest, held)
  {
    if groups == [] {
      assert AcquireAll(batch, groups) + rest == rest;
      assert held + PoolsOf(groups) == held;
    } else {
      var p, tail := groups[0].pool, groups[1..];
      AscendingTail(groups, held);
      AcquireAllDisciplined(batch, tail, held + {p}, rest);
      AcquireFirst(p, batch, groups[0].idxs, AcquireAll(batch, tail) + rest, held);
      Assoc([Acquire(p, batch, groups[0].idxs)], AcquireAll(batch, tail), rest);
    }
  }

  /** A multi-rail batch whose groups come in map order, followed by disciplined code. */
  lemma MultiBatchDisciplined(batch: nat, groups: seq<Group>, rest: seq<Op>)
    requires Ascending(groups) && Disciplined(rest, {})
    ensures Disciplined(MultiBatch(batch, groups) + rest, {})
  {
    assert PoolsOf(groups) - PoolsOf(groups) == {};
    FinishAllDisciplined(groups, PoolsOf(groups), rest);
    assert {} + PoolsOf(groups) == PoolsOf(groups);
    AcquireAllDisciplined(batch, groups, {}, FinishAll(groups) + rest);
    assert MultiBatch(batch, groups) + rest == AcquireAll(batch, groups) + (FinishAll(groups) + rest);
  }

  /** A single-rail batch may visit its peers in any order. */
  lemma {:induction false} SingleRailBatchDisciplined(batch: nat, groups: seq<Group>, rest: seq<Op>)
    requires Disciplined(rest, {})
    ensures Disciplined(SingleRailBatch(batch, groups) + rest, {})
  {
    if groups == [] {
      assert SingleRailBatch(batch, groups) + rest == rest;
    } else {
      SingleRailBatchDisciplined(batch, groups[1..], rest);
      var p, tail := groups[0].pool, SingleRailBatch(batch, groups[1..]);
      assert {} + {p} - {p} == {};
      FinishFirst(p, tail + rest, {} + {p});
      AcquireFirst(p, batch, groups[0].idxs, [Finish(p)] + (tail + rest), {});
      Assoc([Finish(p)], tail, rest);
      Assoc([Acquire(p, batch, groups[0].idxs)], [Finish(p)] + tail, rest);
    }
  }
}
