/** Any number of threads running batches over any number of channel pools, one step
    per critical section of cpp/src/connection_manager.cpp and per drained group of
    cpp/src/transfer_engine.cpp. */
module LeaseProtocol {
  import opened PoolOrder
  import opened ChannelPool

  /** A batch is straight-line code over its groups: lease a channel for each group,
      and later drain it and give it back. `batch` and `idxs` name the batch and the
      request indices of the group; they play no part in the locking. */
  datatype Op = Acquire(pool: PoolId, batch: nat, idxs: set<nat>) | Finish(pool: PoolId)

  /** Waiting: blocked in cv.wait. Notified: woken but not yet holding the mutex.
      Connecting: inside connect_new, with a capacity slot reserved. */
  datatype Pc = Running | Waiting | Notified | Connecting

  datatype Thread = Thread(pc: Pc, ops: seq<Op>, held: map<PoolId, Channel>)

  datatype State = State(max: nat, pools: map<PoolId, Pool>, threads: seq<Thread>)

  /** `wake` is the waiter that notify_one picks, or an index outside the threads when
      nobody waits. Spurious is a wake-up without a notification. */
  datatype Step =
    | TryLease(t: nat)
    | Connected(t: nat, channel: Channel)
    | ConnectFailed(t: nat, wake: nat)
    | Release(t: nat, wake: nat)
    | Discard(t: nat, wake: nat)
    | Skip(t: nat)
    | Spurious(t: nat)

  function PoolOf(s: State, p: PoolId): Pool {
    if p in s.pools then s.pools[p] else EMPTY
  }

  // ---------------------------------------------------------------- counting threads

  /** Thread th is at program counter pc on behalf of pool p. */
  predicate At(th: Thread, pc: Pc, p: PoolId) {
    th.pc == pc && th.ops != [] && th.ops[0].pool == p
  }

  function Bit(b: bool): nat { if b then 1 else 0 }

  function CountAt(ts: seq<Thread>, pc: Pc, p: PoolId): nat {
    if ts == [] then 0
    else CountAt(ts[..|ts| - 1], pc, p) + Bit(At(ts[|ts| - 1], pc, p))
  }

  lemma {:induction false} CountUpdate(ts: seq<Thread>, i: nat, th: Thread, pc: Pc, p: PoolId)
    requires i < |ts|
    ensures CountAt(ts[i := th], pc, p) == CountAt(ts, pc, p) - Bit(At(ts[i], pc, p)) + Bit(At(th, pc, p))
  {
    var n := |ts| - 1;
    if i == n {
      assert ts[i := th][..n] == ts[..n];
    } else {
      assert ts[i := th][..n] == ts[..n][i := th];
      CountUpdate(ts[..n], i, th, pc, p);
    }
  }

  lemma {:induction false} CountPositive(ts: seq<Thread>, pc: Pc, p: PoolId)
    ensures CountAt(ts, pc, p) > 0 <==> exists i | 0 <= i < |ts| :: At(ts[i], pc, p)
  {
    if ts != [] {
      var n := |ts| - 1;
      CountPositive(ts[..n], pc, p);
      assert forall i | 0 <= i < n :: ts[..n][i] == ts[i];
      if CountAt(ts, pc, p) > 0 && !At(ts[n], pc, p) {
        var i :| 0 <= i < n && At(ts[..n][i], pc, p);
        assert At(ts[i], pc, p);
      }
      if i :| 0 <= i < |ts| && At(ts[i], pc, p) {
        assert i < n ==> At(ts[..n][i], pc, p);
      }
    }
  }

  // ---------------------------------------------------------------- the step relation

  /** notify_one on pool p's condition variable. */
  function Notify(ts: seq<Thread>, p: PoolId, wake: nat): seq<Thread> {
    if wake < |ts| && At(ts[wake], Waiting, p) then ts[wake := ts[wake].(pc := Notified)] else ts
  }

  predicate WakeChoice(s: State, p: PoolId, wake: nat) {
    CountAt(s.threads, Waiting, p) > 0 ==> wake < |s.threads| && At(s.threads[wake], Waiting, p)
  }

  predicate Enabled(s: State, step: Step) {
    step.t < |s.threads| &&
    var th := s.threads[step.t];
    th.ops != [] &&
    var p := th.ops[0].pool;
    match step
    case TryLease(_) => th.ops[0].Acquire? && (th.pc.Running? || th.pc.Notified?)
    case Connected(_, c) => th.pc.Connecting? && forall q | q in s.pools :: c !in s.pools[q].owned
    case ConnectFailed(_, w) => th.pc.Connecting? && WakeChoice(s, p, w)
    case Release(_, w) => th.pc.Running? && th.ops[0].Finish? && p in th.held && WakeChoice(s, p, w)
    case Discard(_, w) => th.pc.Running? && th.ops[0].Finish? && p in th.held && WakeChoice(s, p, w)
    case Skip(_) => th.pc.Running? && th.ops[0].Finish? && p !in th.held
    case Spurious(_) => th.pc.Waiting?
  }

  /** The common shape of every step: thread t and the pool it works on change, and at
      most one waiter of that pool is woken. */
  function Changed(s: State, t: nat, th: Thread, pool: Pool, wake: nat): State
    requires t < |s.threads| && s.threads[t].ops != []
  {
    var p := s.threads[t].ops[0].pool;
    State(s.max, s.pools[p := pool], Notify(s.threads[t := th], p, wake))
  }

  /** Thread th moves past its first operation. */
  function Advanced(th: Thread, held: map<PoolId, Channel>): Thread
    requires th.ops != []
  {
    Thread(Running, th.ops[1..], held)
  }

  /** What a pass of the lease loop makes of the thread. */
  function Attempted(th: Thread, a: Attempt): Thread
    requires th.ops != []
  {
    match a
    case Took(c) => Advanced(th, th.held[th.ops[0].pool := c])
    case Reserved => th.(pc := Connecting)
    case MustWait => th.(pc := Waiting)
  }

  /** What a step makes of the stepping thread. */
  function NextThread(s: State, step: Step): Thread
    requires Enabled(s, step)
  {
    var th := s.threads[step.t];
    var p := th.ops[0].pool;
    match step
    case TryLease(_) => Attempted(th, Tried(PoolOf(s, p), s.max).1)
    case Connected(_, c) => Advanced(th, th.held[p := c])
    case ConnectFailed(_, _) => Advanced(th, th.held)
    case Release(_, _) => Advanced(th, th.held - {p})
    case Discard(_, _) => Advanced(th, th.held - {p})
    case Skip(_) => Advanced(th, th.held)
    case Spurious(_) => th.(pc := Notified)
  }

  /** What a step makes of the pool it works on. */
  function NextPool(s: State, step: Step): Pool
    requires Enabled(s, step)
  {
    var th := s.threads[step.t];
    var p := th.ops[0].pool;
    var pool := PoolOf(s, p);
    match step
    case TryLease(_) => Tried(pool, s.max).0
    case Connected(_, c) => Adopted(pool, c)
    case ConnectFailed(_, _) => Abandoned(pool)
    case Release(_, _) => Released(pool, th.held[p])
    case Discard(_, _) => Discarded(pool, th.held[p])
    case Skip(_) => pool
    case Spurious(_) => pool
  }

  predicate Notifies(step: Step) {
    step.ConnectFailed? || step.Release? || step.Discard?
  }

  /** The thread a notify_one of the step picks; no thread when it does not notify. */
  function Picked(s: State, step: Step): nat {
    if Notifies(step) then step.wake else |s.threads|
  }

  function After(s: State, step: Step): State
    requires Enabled(s, step)
  {
    Changed(s, step.t, NextThread(s, step), NextPool(s, step), Picked(s, step))
  }

  // ---------------------------------------------------------------- what every batch obeys

  /** Run from a state holding at most `held`, these operations lease a pool only above
      every pool already held, and end up holding nothing. */
  predicate Disciplined(ops: seq<Op>, held: set<PoolId>) {
    if ops == [] then held == {}
    else match ops[0]
      case Acquire(p, _, _) => (forall q | q in held :: Less(q, p)) && Disciplined(ops[1..], held + {p})
      case Finish(p) => Disciplined(ops[1..], held - {p})
  }

  /** A failed lease leaves the batch holding less, which never breaks the discipline. */
  lemma {:induction false} DisciplinedWithLess(ops: seq<Op>, held: set<PoolId>, less: set<PoolId>)
    requires Disciplined(ops, held) && less <= held
    ensures Disciplined(ops, less)
  {
    if ops != [] {
      match ops[0]
      case Acquire(p, _, _) => DisciplinedWithLess(ops[1..], held + {p}, less + {p});
      case Finish(p) => DisciplinedWithLess(ops[1..], held - {p}, less - {p});
    }
  }

  // ---------------------------------------------------------------- invariant

  predicate ThreadOk(th: Thread) {
    && (!th.pc.Running? ==> th.ops != [] && th.ops[0].Acquire?)
    && Disciplined(th.ops, th.held.Keys)
  }

  /** Channel conservation in pool p: created counts the owned channels and the
      connections under way, and never exceeds the cap. */
  predicate PoolOk(s: State, p: PoolId) {
    var pool := PoolOf(s, p);
    && Sound(pool)
    && pool.created == |pool.owned| + CountAt(s.threads, Connecting, p) <= s.max
  }

  /** No lost wake-up: while somebody still sleeps on p, every free channel and every
      unused capacity slot has a woken thread on its way to it. */
  predicate WakeOk(s: State, p: PoolId) {
    var pool := PoolOf(s, p);
    CountAt(s.threads, Waiting, p) > 0 ==>
      CountAt(s.threads, Notified, p) >= Available(pool, s.max)
  }

  predicate Holds(s: State, t: int, p: PoolId, c: Channel) {
    0 <= t < |s.threads| && p in s.threads[t].held && s.threads[t].held[p] == c
  }

  /** The channels of p out on lease are exactly those the threads hold, each of them
      held by one thread. */
  ghost predicate LeasesOk(s: State, p: PoolId) {
    && (forall t, c | Holds(s, t, p, c) :: c in Leased(PoolOf(s, p)))
    && (forall t, u, c | Holds(s, t, p, c) && Holds(s, u, p, c) :: t == u)
    && (forall c | c in Leased(PoolOf(s, p)) :: exists t :: Holds(s, t, p, c))
  }

  /** No channel belongs to two pools. */
  ghost predicate PoolsApart(s: State) {
    forall p, q, c | c in PoolOf(s, p).owned && c in PoolOf(s, q).owned :: p == q
  }

  ghost predicate Inv(s: State) {
    && s.max >= 1
    && (forall t | 0 <= t < |s.threads| :: ThreadOk(s.threads[t]))
    && (forall p: PoolId :: PoolOk(s, p))
    && (forall p: PoolId :: WakeOk(s, p))
    && (forall p: PoolId :: LeasesOk(s, p))
    && PoolsApart(s)
  }

  /** Every pool empty, every thread about to run disciplined batches. */
  predicate Initial(s: State) {
    && s.max >= 1
    && s.pools == map[]
    && forall t | 0 <= t < |s.threads| ::
         s.threads[t].pc == Running && s.threads[t].held == map[] && Disciplined(s.threads[t].ops, {})
  }

  lemma {:induction false} InitialInv(s: State)
    requires Initial(s)
    ensures Inv(s)
  {
    forall p: PoolId, pc: Pc | pc != Running ensures CountAt(s.threads, pc, p) == 0 {
      CountPositive(s.threads, pc, p);
    }
    assert forall p: PoolId :: PoolOf(s, p) == EMPTY;
    forall p: PoolId ensures PoolOk(s, p) && WakeOk(s, p) && LeasesOk(s, p) {
    }
    assert forall t | 0 <= t < |s.threads| :: s.threads[t].held.Keys == {};
  }

  /** How the counts move in one step. */
  lemma ChangedCounts(s: State, t: nat, th: Thread, pool: Pool, wake: nat, pc: Pc, q: PoolId)
    requires t < |s.threads| && s.threads[t].ops != []
    requires !th.pc.Running? ==> th.ops == s.threads[t].ops
    requires !pc.Running?
    ensures
      var s' := Changed(s, t, th, pool, wake);
      var p := s.threads[t].ops[0].pool;
      var woke := q == p && wake < |s.threads| && At(s.threads[t := th][wake], Waiting, p);
      CountAt(s'.threads, pc, q) ==
        CountAt(s.threads, pc, q) - Bit(At(s.threads[t], pc, q)) + Bit(At(th, pc, q))
        - Bit(woke && pc == Waiting) + Bit(woke && pc == Notified)
  {
    CountUpdate(s.threads, t, th, pc, q);
    var ts := s.threads[t := th];
    if wake < |ts| && At(ts[wake], Waiting, s.threads[t].ops[0].pool) {
      CountUpdate(ts, wake, ts[wake].(pc := Notified), pc, q);
    }
  }

  /** A notifying step wakes a thread exactly when one is waiting. */
  lemma WokeIff(s: State, step: Step)
    requires Enabled(s, step)
    ensures
      var p, wake := s.threads[step.t].ops[0].pool, Picked(s, step);
      wake < |s.threads| && At(s.threads[step.t := NextThread(s, step)][wake], Waiting, p)
      <==> Notifies(step) && CountAt(s.threads, Waiting, p) > 0
  {
    CountPositive(s.threads, Waiting, s.threads[step.t].ops[0].pool);
  }

  /** One step in terms of the counts: the stepping thread leaves its program counter for
      a new one, and a notifying step moves one waiter from Waiting to Notified. */
  lemma StepCounts(s: State, step: Step, pc: Pc, q: PoolId)
    requires Enabled(s, step) && !pc.Running? && ThreadOk(s.threads[step.t])
    ensures
      var s' := After(s, step);
      var woke := Notifies(step) && q == s.threads[step.t].ops[0].pool && CountAt(s.threads, Waiting, q) > 0;
      CountAt(s'.threads, pc, q) ==
        CountAt(s.threads, pc, q) - Bit(At(s.threads[step.t], pc, q)) + Bit(At(s'.threads[step.t], pc, q))
        - Bit(woke && pc == Waiting) + Bit(woke && pc == Notified)
  {
    WokeIff(s, step);
    ChangedCounts(s, step.t, NextThread(s, step), NextPool(s, step), Picked(s, step), pc, q);
    StepThread(s, step);
  }

  /** The stepping thread after the step; it is never the one woken. */
  lemma StepThread(s: State, step: Step)
    requires Enabled(s, step)
    ensures step.t < |After(s, step).threads| && After(s, step).threads[step.t] == NextThread(s, step)
    ensures !NextThread(s, step).pc.Running? ==> NextThread(s, step).ops == s.threads[step.t].ops
  {
  }

  /** The channel thread th holds for p, as a set. */
  function HeldFor(th: Thread, p: PoolId): set<Channel> {
    if p in th.held then {th.held[p]} else {}
  }

  /** What a step does to the pool it works on: it stays sound, and the leased channels
      change as the stepping thread's own holding does. */
  lemma StepOnPool(s: State, step: Step)
    requires Enabled(s, step) && ThreadOk(s.threads[step.t])
    requires
      var th := s.threads[step.t];
      var p := th.ops[0].pool;
      && Sound(PoolOf(s, p)) && PoolOf(s, p).created >= |PoolOf(s, p).owned|
      && (p in th.held ==> th.held[p] in Leased(PoolOf(s, p)))
    ensures
      var p := s.threads[step.t].ops[0].pool;
      var pool, pool' := PoolOf(s, p), NextPool(s, step);
      var before, after := HeldFor(s.threads[step.t], p), HeldFor(NextThread(s, step), p);
      && Sound(pool')
      && Leased(pool') == Leased(pool) - before + after
      && (after == before || (forall c | c in after :: c !in Leased(pool)))
      && (forall c | c in pool'.owned :: c in pool.owned || (step.Connected? && c == step.channel))
  {
    var th := s.threads[step.t];
    var p := th.ops[0].pool;
    var pool := PoolOf(s, p);
    LessTrichotomy(p, p);
    match step
    case TryLease(_) => TriedKeeps(pool, s.max);
    case Connected(_, c) => AdoptedKeeps(pool, c);
    case Release(_, _) => ReleasedKeeps(pool, th.held[p]);
    case Discard(_, _) => DiscardedKeeps(pool, th.held[p]);
    case _ =>
  }

  /** created moves with the owned channels and the connections under way. */
  lemma StepCreated(s: State, step: Step)
    requires Enabled(s, step)
    requires
      var th := s.threads[step.t];
      var p := th.ops[0].pool;
      && Sound(PoolOf(s, p)) && PoolOf(s, p).created >= |PoolOf(s, p).owned| + Bit(At(th, Connecting, p))
      && (p in th.held ==> th.held[p] in Leased(PoolOf(s, p)))
    ensures
      var th, th' := s.threads[step.t], NextThread(s, step);
      var p := th.ops[0].pool;
      var pool, pool' := PoolOf(s, p), NextPool(s, step);
      && pool'.created - |pool'.owned| == pool.created - |pool.owned| - Bit(At(th, Connecting, p)) + Bit(At(th', Connecting, p))
      && (pool.created <= s.max ==> pool'.created <= s.max)
  {
    var th := s.threads[step.t];
    var p := th.ops[0].pool;
    if step.Discard? {
      DiscardedKeeps(PoolOf(s, p), th.held[p]);
    }
  }

  /** Only the stepping thread's holdings change, and only for the pool it works on. */
  lemma StepFrame(s: State, step: Step)
    requires Enabled(s, step)
    ensures
      var s' := After(s, step);
      var t, p := step.t, s.threads[step.t].ops[0].pool;
      && |s'.threads| == |s.threads| && s'.max == s.max
      && (forall u | 0 <= u < |s.threads| && u != t :: s'.threads[u].held == s.threads[u].held)
      && (forall q | q != p :: PoolOf(s', q) == PoolOf(s, q))
      && (forall q | q != p :: HeldFor(s'.threads[t], q) == HeldFor(s.threads[t], q))
      && (forall q, u, c | q != p || u != t :: Holds(s', u, q, c) <==> Holds(s, u, q, c))
  {
    StepThread(s, step);
    var th, th' := s.threads[step.t], NextThread(s, step);
    assert forall q | q != th.ops[0].pool :: (q in th'.held <==> q in th.held) && (q in th.held ==> th'.held[q] == th.held[q]);
  }

  lemma StepKeepsPool(s: State, step: Step, q: PoolId)
    requires Enabled(s, step) && PoolOk(s, q) && ThreadOk(s.threads[step.t]) && LeasesOk(s, q)
    ensures PoolOk(After(s, step), q)
  {
    var th := s.threads[step.t];
    var p := th.ops[0].pool;
    StepCounts(s, step, Connecting, q);
    CountPositive(s.threads, Connecting, q);
    StepThread(s, step);
    if q == p {
      assert p in th.held ==> Holds(s, step.t, p, th.held[p]);
      StepOnPool(s, step);
      StepCreated(s, step);
    }
  }

  lemma StepKeepsWakeups(s: State, step: Step, q: PoolId)
    requires Enabled(s, step) && PoolOk(s, q) && WakeOk(s, q) && ThreadOk(s.threads[step.t]) && LeasesOk(s, q)
    ensures WakeOk(After(s, step), q)
  {
    StepCounts(s, step, Waiting, q);
    StepCounts(s, step, Notified, q);
    StepKeepsPool(s, step, q);
  }

  lemma StepKeepsThread(s: State, step: Step, u: nat)
    requires Enabled(s, step) && u < |s.threads| && ThreadOk(s.threads[u]) && ThreadOk(s.threads[step.t])
    ensures ThreadOk(After(s, step).threads[u])
  {
    var t := step.t;
    var th := s.threads[t];
    if u == t {
      var p := th.ops[0].pool;
      var th' := After(s, step).threads[t];
      if step.ConnectFailed? {
        DisciplinedWithLess(th.ops[1..], th.held.Keys + {p}, th.held.Keys);
      } else if step.Skip? {
        assert th.held.Keys - {p} == th.held.Keys;
      } else if th'.pc.Running? {
        assert th'.held.Keys == if th.ops[0].Acquire? then th.held.Keys + {p} else th.held.Keys - {p};
      }
    }
  }

  /** Leases stay exact when one thread's holding and the leased channels move together. */
  lemma LeasesMove(s: State, s': State, t: nat, p: PoolId)
    requires LeasesOk(s, p) && t < |s.threads| == |s'.threads|
    requires forall u, c | u != t :: Holds(s', u, p, c) <==> Holds(s, u, p, c)
    requires
      var before, after := HeldFor(s.threads[t], p), HeldFor(s'.threads[t], p);
      && Leased(PoolOf(s', p)) == Leased(PoolOf(s, p)) - before + after
      && (after == before || (forall c | c in after :: c !in Leased(PoolOf(s, p))))
    ensures LeasesOk(s', p)
  {
    assert forall c :: Holds(s, t, p, c) <==> c in HeldFor(s.threads[t], p);
    assert forall c :: Holds(s', t, p, c) <==> c in HeldFor(s'.threads[t], p);
    forall c | c in Leased(PoolOf(s', p)) ensures exists u :: Holds(s', u, p, c) {
      if !Holds(s', t, p, c) {
        var u :| Holds(s, u, p, c);
        assert Holds(s', u, p, c);
      }
    }
  }

  lemma StepKeepsLeases(s: State, step: Step, q: PoolId)
    requires Enabled(s, step) && ThreadOk(s.threads[step.t]) && PoolOk(s, q) && LeasesOk(s, q)
    ensures LeasesOk(After(s, step), q)
  {
    var th := s.threads[step.t];
    StepFrame(s, step);
    StepThread(s, step);
    assert q in th.held ==> Holds(s, step.t, q, th.held[q]);
    if q == th.ops[0].pool {
      StepOnPool(s, step);
    }
    LeasesMove(s, After(s, step), step.t, q);
  }

  lemma StepKeepsPoolsApart(s: State, step: Step)
    requires Enabled(s, step) && PoolsApart(s) && ThreadOk(s.threads[step.t])
    requires var p := s.threads[step.t].ops[0].pool; PoolOk(s, p) && LeasesOk(s, p)
    ensures PoolsApart(After(s, step))
  {
    var th := s.threads[step.t];
    var p := th.ops[0].pool;
    assert p in th.held ==> Holds(s, step.t, p, th.held[p]);
    StepFrame(s, step);
    StepOnPool(s, step);
    if step.Connected? {
      assert forall q :: step.channel !in PoolOf(s, q).owned;
    }
  }

  lemma StepKeepsInv(s: State, step: Step)
    requires Inv(s) && Enabled(s, step)
    ensures Inv(After(s, step))
  {
    var s' := After(s, step);
    assert ThreadOk(s.threads[step.t]);
    StepFrame(s, step);
    forall u | 0 <= u < |s'.threads| ensures ThreadOk(s'.threads[u]) {
      assert ThreadOk(s.threads[u]);
      StepKeepsThread(s, step, u);
    }
    forall q: PoolId ensures PoolOk(s', q) && WakeOk(s', q) && LeasesOk(s', q) {
      assert PoolOk(s, q) && WakeOk(s, q) && LeasesOk(s, q);
      StepKeepsPool(s, step, q);
      StepKeepsWakeups(s, step, q);
      StepKeepsLeases(s, step, q);
    }
    assert PoolOk(s, s.threads[step.t].ops[0].pool) && LeasesOk(s, s.threads[step.t].ops[0].pool);
    StepKeepsPoolsApart(s, step);
  }
}
