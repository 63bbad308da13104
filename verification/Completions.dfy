/** Work requests and completions on the leased channels, on top of the lease protocol:
    no completion of one batch is ever counted by another. */
module Completions {
  import opened PoolOrder
  import opened ChannelPool
  import opened LeaseProtocol

  /** A posted request. The source labels it with idx alone (wr_id); t and batch record
      which call of which thread posted it. */
  datatype Wr = Wr(t: nat, batch: nat, idx: nat)

  datatype Completion = Completion(wr: Wr, success: bool)

  /** A channel's private queue pair: requests on the wire, completions not yet polled. */
  datatype Queue = Queue(inflight: set<Wr>, cq: seq<Completion>)

  const CLEAN := Queue({}, [])

  /** One leased channel of one group: what it posted and how much it has reaped. */
  datatype Lease = Lease(batch: nat, idxs: set<nat>, posted: set<nat>, seen: nat, draining: bool)

  /** ok: the flags a batch has set. succeeded: the requests of a batch whose transfer
      really succeeded. timedOut: the batches that had to discard a channel. */
  datatype Sys = Sys(
    s: State,
    queues: map<Channel, Queue>,
    leases: map<(nat, PoolId), Lease>,
    ok: map<(nat, nat), set<nat>>,
    succeeded: map<(nat, nat), set<nat>>,
    timedOut: set<(nat, nat)>)

  datatype Event =
    | Lock(step: Step)
    | Post(t: nat, p: PoolId, idx: nat)
    | Complete(c: Channel, wr: Wr, success: bool)
    | Poll(t: nat, p: PoolId, n: nat)

  const POLL_BATCH: nat := 16

  function Flags(m: map<(nat, nat), set<nat>>, t: nat, batch: nat): set<nat> {
    if (t, batch) in m then m[(t, batch)] else {}
  }

  /** Request indices that a run of polled completions marks true. */
  function Marks(cs: seq<Completion>): set<nat> {
    set k | 0 <= k < |cs| && cs[k].success :: cs[k].wr.idx
  }

  /** Thread t holds c for p, with its lease and its queue on record. */
  predicate Leasing(y: Sys, t: nat, p: PoolId, c: Channel) {
    Holds(y.s, t, p, c) && (t, p) in y.leases && c in y.queues
  }

  /** Thread t is draining its channel for p. */
  predicate Draining(y: Sys, t: nat, p: PoolId, c: Channel) {
    && Leasing(y, t, p, c)
    && y.s.threads[t].pc.Running? && y.s.threads[t].ops != [] && y.s.threads[t].ops[0] == Finish(p)
  }

  predicate CanHappen(y: Sys, e: Event) {
    match e
    case Lock(step) =>
      && Enabled(y.s, step)
      && var p := y.s.threads[step.t].ops[0].pool;
      // drain returned: fully reaped channels are released, the others discarded
      && (step.Release? ==> (step.t, p) in y.leases && y.leases[(step.t, p)].seen >= |y.leases[(step.t, p)].posted|)
      && (step.Discard? ==> (step.t, p) in y.leases && y.leases[(step.t, p)].seen < |y.leases[(step.t, p)].posted|)
    case Post(t, p, idx) =>
      && t < |y.s.threads| && p in y.s.threads[t].held && Leasing(y, t, p, y.s.threads[t].held[p])
      && var l := y.leases[(t, p)];
      idx in l.idxs && idx !in l.posted && !l.draining
    case Complete(c, wr, _) => c in y.queues && wr in y.queues[c].inflight
    case Poll(t, p, n) =>
      && t < |y.s.threads| && p in y.s.threads[t].held && Draining(y, t, p, y.s.threads[t].held[p])
      && y.leases[(t, p)].seen < |y.leases[(t, p)].posted|
      && 1 <= n <= POLL_BATCH && n <= |y.queues[y.s.threads[t].held[p]].cq|
  }

  /** The queues after a lock step: a new channel starts clean, a discarded one is gone. */
  function LockQueues(y: Sys, step: Step): map<Channel, Queue>
    requires Enabled(y.s, step)
  {
    match step
    case Connected(_, c) => y.queues[c := CLEAN]
    case Discard(t, _) => y.queues - {y.s.threads[t].held[y.s.threads[t].ops[0].pool]}
    case _ => y.queues
  }

  function LockLeases(y: Sys, step: Step): map<(nat, PoolId), Lease>
    requires Enabled(y.s, step)
  {
    var th := y.s.threads[step.t];
    var p := th.ops[0].pool;
    if th.ops[0].Acquire? && p !in th.held && p in After(y.s, step).threads[step.t].held then
      y.leases[(step.t, p) := Lease(th.ops[0].batch, th.ops[0].idxs, {}, 0, false)]
    else y.leases
  }

  function Happened(y: Sys, e: Event): Sys
    requires CanHappen(y, e)
  {
    match e
    case Lock(step) =>
      var p := y.s.threads[step.t].ops[0].pool;
      y.(s := After(y.s, step),
         queues := LockQueues(y, step),
         leases := LockLeases(y, step),
         timedOut := if step.Discard? then y.timedOut + {(step.t, y.leases[(step.t, p)].batch)} else y.timedOut)
    case Post(t, p, idx) =>
      var c, l := y.s.threads[t].held[p], y.leases[(t, p)];
      y.(queues := y.queues[c := y.queues[c].(inflight := y.queues[c].inflight + {Wr(t, l.batch, idx)})],
         leases := y.leases[(t, p) := l.(posted := l.posted + {idx})])
    case Complete(c, wr, success) =>
      var q := y.queues[c];
      y.(queues := y.queues[c := Queue(q.inflight - {wr}, q.cq + [Completion(wr, success)])],
         succeeded := if !success then y.succeeded
                      else y.succeeded[(wr.t, wr.batch) := Flags(y.succeeded, wr.t, wr.batch) + {wr.idx}])
    case Poll(t, p, n) =>
      var c, l := y.s.threads[t].held[p], y.leases[(t, p)];
      var q := y.queues[c];
      y.(queues := y.queues[c := q.(cq := q.cq[n..])],
         leases := y.leases[(t, p) := l.(seen := l.seen + n, draining := true)],
         ok := y.ok[(t, l.batch) := Flags(y.ok, t, l.batch) + Marks(q.cq[..n])])
  }

  // ---------------------------------------------------------------- invariant

  /** Channels in a free list carry no outstanding work. */
  ghost predicate FreeIsClean(y: Sys) {
    forall p, c | c in PoolOf(y.s, p).free :: c in y.queues && y.queues[c] == CLEAN
  }

  predicate Mine(wr: Wr, t: nat, l: Lease) {
    wr.t == t && wr.batch == l.batch && wr.idx in l.posted
  }

  /** Everything on a leased channel was posted under this lease and is accounted for. */
  predicate LeaseOk(y: Sys, t: nat, p: PoolId, c: Channel) {
    && Leasing(y, t, p, c)
    && var l, q := y.leases[(t, p)], y.queues[c];
    && l.posted <= l.idxs
    && (forall wr | wr in q.inflight :: Mine(wr, t, l))
    && (forall k | 0 <= k < |q.cq| :: Mine(q.cq[k].wr, t, l) && (q.cq[k].success ==> q.cq[k].wr.idx in Flags(y.succeeded, t, l.batch)))
    && |q.inflight| + |q.cq| + l.seen == |l.posted|
  }

  /** Entry k of c's completion queue says that request i of t's batch b succeeded. */
  predicate UnpolledAt(y: Sys, t: nat, b: nat, i: nat, p: PoolId, c: Channel, k: nat) {
    && Leasing(y, t, p, c)
    && k < |y.queues[c].cq| && y.queues[c].cq[k] == Completion(Wr(t, b, i), true)
  }

  ghost predicate Unpolled(y: Sys, t: nat, b: nat, i: nat) {
    exists p, c, k :: UnpolledAt(y, t, b, i, p, c, k)
  }

  /** A true flag never outruns the transfers of its own batch. */
  ghost predicate FlagsSound(y: Sys) {
    forall t: nat, b: nat :: Flags(y.ok, t, b) <= Flags(y.succeeded, t, b)
  }

  /** Short of a timeout, a success is flagged or still waiting to be polled. */
  ghost predicate FlagsComplete(y: Sys) {
    forall t: nat, b: nat, i | i in Flags(y.succeeded, t, b) && (t, b) !in y.timedOut ::
      i in Flags(y.ok, t, b) || Unpolled(y, t, b, i)
  }

  ghost predicate LeasesClean(y: Sys) {
    forall t: nat, p, c | Holds(y.s, t, p, c) :: LeaseOk(y, t, p, c)
  }

  ghost predicate QueuesOwned(y: Sys) {
    forall c | c in y.queues :: exists p :: c in PoolOf(y.s, p).owned
  }

  ghost predicate SysInv(y: Sys) {
    && Inv(y.s)
    && FreeIsClean(y)
    && LeasesClean(y)
    && FlagsSound(y)
    && FlagsComplete(y)
    && QueuesOwned(y)
  }

  lemma OneHolder(s: State, t: nat, p: PoolId, u: nat, q: PoolId, c: Channel)
    requires Inv(s) && Holds(s, t, p, c) && Holds(s, u, q, c)
    ensures t == u && p == q
  {
    assert LeasesOk(s, p) && LeasesOk(s, q);
  }

  /** A channel with outstanding work is on lease. */
  lemma BusyIsLeased(y: Sys, c: Channel) returns (t: nat, p: PoolId)
    requires SysInv(y) && c in y.queues && y.queues[c] != CLEAN
    ensures LeaseOk(y, t, p, c)
  {
    p :| c in PoolOf(y.s, p).owned;
    assert LeasesOk(y.s, p);
    assert c in Leased(PoolOf(y.s, p));
    var h :| Holds(y.s, h, p, c);
    t := h;
  }

  /** A held channel is in no free list. */
  lemma HeldNotFree(s: State, t: nat, p: PoolId, c: Channel, q: PoolId)
    requires Inv(s) && Holds(s, t, p, c)
    ensures c !in PoolOf(s, q).free
  {
    assert LeasesOk(s, p) && c in Leased(PoolOf(s, p));
    assert PoolOk(s, q);
  }

  // ---------------------------------------------------------------- transfer events

  lemma PostKeepsLease(y: Sys, t: nat, p: PoolId, idx: nat, u: nat, q: PoolId, d: Channel)
    requires CanHappen(y, Post(t, p, idx)) && LeaseOk(y, u, q, d)
    requires d == y.s.threads[t].held[p] ==> u == t && q == p
    ensures LeaseOk(Happened(y, Post(t, p, idx)), u, q, d)
  {
    assert d == y.s.threads[t].held[p] ==> Wr(t, y.leases[(t, p)].batch, idx) !in y.queues[d].inflight;
  }

  lemma PostKeepsFlags(y: Sys, t: nat, p: PoolId, idx: nat)
    requires CanHappen(y, Post(t, p, idx)) && FlagsComplete(y)
    ensures FlagsComplete(Happened(y, Post(t, p, idx)))
  {
    var y' := Happened(y, Post(t, p, idx));
    forall u: nat, b: nat, i: nat | Unpolled(y, u, b, i) ensures Unpolled(y', u, b, i) {
      var q, d, k: nat :| UnpolledAt(y, u, b, i, q, d, k);
      assert UnpolledAt(y', u, b, i, q, d, k);
    }
  }

  lemma PostKeeps(y: Sys, t: nat, p: PoolId, idx: nat)
    requires SysInv(y) && CanHappen(y, Post(t, p, idx))
    ensures SysInv(Happened(y, Post(t, p, idx)))
  {
    var y' := Happened(y, Post(t, p, idx));
    var c := y.s.threads[t].held[p];
    assert Holds(y.s, t, p, c);
    forall u: nat, q, d | Holds(y'.s, u, q, d) ensures LeaseOk(y', u, q, d) {
      if d == c { OneHolder(y.s, t, p, u, q, c); }
      PostKeepsLease(y, t, p, idx, u, q, d);
    }
    forall q, d | d in PoolOf(y.s, q).free ensures d != c {
      HeldNotFree(y.s, t, p, c, q);
    }
    PostKeepsFlags(y, t, p, idx);
  }

  lemma CompleteKeepsLease(y: Sys, c: Channel, wr: Wr, success: bool, u: nat, q: PoolId, d: Channel)
    requires LeaseOk(y, u, q, d) && CanHappen(y, Complete(c, wr, success))
    ensures LeaseOk(Happened(y, Complete(c, wr, success)), u, q, d)
  {
  }

  lemma CompleteKeepsFlags(y: Sys, c: Channel, wr: Wr, success: bool, t: nat, p: PoolId)
    requires LeaseOk(y, t, p, c) && CanHappen(y, Complete(c, wr, success)) && FlagsSound(y) && FlagsComplete(y)
    ensures var y' := Happened(y, Complete(c, wr, success)); FlagsSound(y') && FlagsComplete(y')
  {
    var y' := Happened(y, Complete(c, wr, success));
    assert success ==> UnpolledAt(y', wr.t, wr.batch, wr.idx, p, c, |y.queues[c].cq|);
    forall u: nat, b: nat, i: nat | Unpolled(y, u, b, i) ensures Unpolled(y', u, b, i) {
      var q, d, k: nat :| UnpolledAt(y, u, b, i, q, d, k);
      assert UnpolledAt(y', u, b, i, q, d, k);
    }
  }

  lemma CompleteKeeps(y: Sys, c: Channel, wr: Wr, success: bool)
    requires SysInv(y) && CanHappen(y, Complete(c, wr, success))
    ensures SysInv(Happened(y, Complete(c, wr, success)))
  {
    var y' := Happened(y, Complete(c, wr, success));
    var t, p := BusyIsLeased(y, c);
    forall u: nat, q, d | Holds(y'.s, u, q, d) ensures LeaseOk(y', u, q, d) {
      CompleteKeepsLease(y, c, wr, success, u, q, d);
    }
    CompleteKeepsFlags(y, c, wr, success, t, p);
    assert forall q, d | d in PoolOf(y.s, q).free :: y.queues[d] == CLEAN;
  }

  lemma PollKeepsLease(y: Sys, t: nat, p: PoolId, n: nat, u: nat, q: PoolId, d: Channel)
    requires CanHappen(y, Poll(t, p, n)) && LeaseOk(y, u, q, d)
    requires d == y.s.threads[t].held[p] ==> u == t && q == p
    ensures LeaseOk(Happened(y, Poll(t, p, n)), u, q, d)
  {
  }

  lemma PollKeepsSound(y: Sys, t: nat, p: PoolId, n: nat)
    requires CanHappen(y, Poll(t, p, n)) && LeaseOk(y, t, p, y.s.threads[t].held[p]) && FlagsSound(y)
    ensures FlagsSound(Happened(y, Poll(t, p, n)))
  {
    var y' := Happened(y, Poll(t, p, n));
    var cq := y.queues[y.s.threads[t].held[p]].cq;
    assert forall k | 0 <= k < n :: cq[..n][k] == cq[k];
    assert Flags(y'.ok, t, y.leases[(t, p)].batch) <= Flags(y'.succeeded, t, y.leases[(t, p)].batch);
  }

  /** A waiting success is flagged by the poll or still waits. */
  lemma PollKeepsWaiting(y: Sys, t: nat, p: PoolId, n: nat, u: nat, b: nat, i: nat, q: PoolId, d: Channel, k: nat)
    requires CanHappen(y, Poll(t, p, n)) && LeaseOk(y, u, q, d) && UnpolledAt(y, u, b, i, q, d, k)
    requires d == y.s.threads[t].held[p] ==> u == t && q == p
    ensures var y' := Happened(y, Poll(t, p, n)); i in Flags(y'.ok, u, b) || Unpolled(y', u, b, i)
  {
    var y' := Happened(y, Poll(t, p, n));
    var c := y.s.threads[t].held[p];
    var cq := y.queues[c].cq;
    if d != c {
      assert UnpolledAt(y', u, b, i, q, d, k);
    } else if k < n {
      assert cq[..n][k] == cq[k];
      assert i in Marks(cq[..n]);
    } else {
      assert UnpolledAt(y', u, b, i, q, d, k - n);
    }
  }

  lemma PollKeepsComplete(y: Sys, t: nat, p: PoolId, n: nat)
    requires CanHappen(y, Poll(t, p, n)) && Inv(y.s) && LeasesClean(y) && FlagsComplete(y)
    ensures FlagsComplete(Happened(y, Poll(t, p, n)))
  {
    var y' := Happened(y, Poll(t, p, n));
    var c := y.s.threads[t].held[p];
    forall u: nat, b: nat, i: nat | Unpolled(y, u, b, i) ensures i in Flags(y'.ok, u, b) || Unpolled(y', u, b, i) {
      var q, d, k: nat :| UnpolledAt(y, u, b, i, q, d, k);
      assert Holds(y.s, t, p, c) && Holds(y.s, u, q, d);
      if d == c { OneHolder(y.s, t, p, u, q, c); }
      PollKeepsWaiting(y, t, p, n, u, b, i, q, d, k);
    }
    assert forall u: nat, b: nat :: Flags(y.ok, u, b) <= Flags(y'.ok, u, b);
  }

  lemma PollKeeps(y: Sys, t: nat, p: PoolId, n: nat)
    requires SysInv(y) && CanHappen(y, Poll(t, p, n))
    ensures SysInv(Happened(y, Poll(t, p, n)))
  {
    var y' := Happened(y, Poll(t, p, n));
    var c := y.s.threads[t].held[p];
    assert Holds(y.s, t, p, c);
    forall u: nat, q, d | Holds(y'.s, u, q, d) ensures LeaseOk(y', u, q, d) {
      if d == c { OneHolder(y.s, t, p, u, q, c); }
      PollKeepsLease(y, t, p, n, u, q, d);
    }
    forall q, d | d in PoolOf(y.s, q).free ensures d != c {
      HeldNotFree(y.s, t, p, c, q);
    }
    PollKeepsSound(y, t, p, n);
    PollKeepsComplete(y, t, p, n);
  }

  // ---------------------------------------------------------------- lock steps

  /** Owned and free channels after a lock step. */
  lemma StepChannels(s: State, step: Step)
    requires Inv(s) && Enabled(s, step)
    ensures
      var s' := After(s, step);
      var t, p := step.t, s.threads[step.t].ops[0].pool;
      && (forall q, c | c in PoolOf(s', q).free ::
            c in PoolOf(s, q).free || (step.Release? && q == p && c == s.threads[t].held[p]))
      && (forall q, c | c in PoolOf(s, q).owned ::
            c in PoolOf(s', q).owned || (step.Discard? && q == p && c == s.threads[t].held[p]))
      && (step.Connected? ==> step.channel in PoolOf(s', p).owned)
  {
    StepFrame(s, step);
    var p := s.threads[step.t].ops[0].pool;
    assert PoolOk(s, p);
    if step.Discard? {
      ErasedRemovesOne(PoolOf(s, p).owned, s.threads[step.t].held[p]);
    }
  }

  /** Whatever a lock step adds to the holdings was free or is brand new, and it is added
      by a thread that did not hold that pool before. */
  lemma StepHoldings(s: State, step: Step, u: nat, q: PoolId, d: Channel)
    requires Inv(s) && Enabled(s, step) && Holds(After(s, step), u, q, d)
    ensures
      var th := s.threads[step.t];
      var p := th.ops[0].pool;
      || (Holds(s, u, q, d) && !(u == step.t && q == p))
      || (u == step.t && q == p && th.ops[0].Acquire? && p !in th.held
          && (d in PoolOf(s, p).free || (step.Connected? && d == step.channel)))
  {
    StepFrame(s, step);
    var th := s.threads[step.t];
    var p := th.ops[0].pool;
    assert ThreadOk(th);
    LessTrichotomy(p, p);
    assert p in th.held ==> p in th.held.Keys;
  }

  /** A fully reaped channel is clean. */
  lemma DrainedIsClean(y: Sys, t: nat, p: PoolId, c: Channel)
    requires LeaseOk(y, t, p, c) && y.leases[(t, p)].seen >= |y.leases[(t, p)].posted|
    ensures y.queues[c] == CLEAN
  {
  }

  lemma LockKeepsFree(y: Sys, step: Step, q: PoolId, d: Channel)
    requires Inv(y.s) && FreeIsClean(y) && LeasesClean(y) && CanHappen(y, Lock(step))
    requires d in PoolOf(After(y.s, step), q).free
    ensures var y' := Happened(y, Lock(step)); d in y'.queues && y'.queues[d] == CLEAN
  {
    StepChannels(y.s, step);
    FreedIsClean(y, step, q, d);
  }

  /** A channel that was free, or that this step releases, is clean after the step. */
  lemma FreedIsClean(y: Sys, step: Step, q: PoolId, d: Channel)
    requires Inv(y.s) && FreeIsClean(y) && LeasesClean(y) && CanHappen(y, Lock(step))
    requires
      var p := y.s.threads[step.t].ops[0].pool;
      d in PoolOf(y.s, q).free || (step.Release? && q == p && d == y.s.threads[step.t].held[p])
    ensures var y' := Happened(y, Lock(step)); d in y'.queues && y'.queues[d] == CLEAN
  {
    var t, p := step.t, y.s.threads[step.t].ops[0].pool;
    if step.Release? || step.Discard? {
      var c := y.s.threads[t].held[p];
      assert Holds(y.s, t, p, c) && LeaseOk(y, t, p, c);
      HeldNotFree(y.s, t, p, c, q);
      if step.Release? { DrainedIsClean(y, t, p, c); }
    }
  }

  /** A channel held through a lock step keeps its queue and its lease. */
  lemma LockKeepsHeld(y: Sys, step: Step, u: nat, q: PoolId, d: Channel)
    requires Inv(y.s) && CanHappen(y, Lock(step)) && LeaseOk(y, u, q, d)
    requires !(u == step.t && q == y.s.threads[step.t].ops[0].pool)
    ensures var y' := Happened(y, Lock(step)); d in y'.queues && y'.queues[d] == y.queues[d]
    ensures var y' := Happened(y, Lock(step)); (u, q) in y'.leases && y'.leases[(u, q)] == y.leases[(u, q)]
  {
    var t, p := step.t, y.s.threads[step.t].ops[0].pool;
    assert LeasesOk(y.s, q) && d in PoolOf(y.s, q).owned;
    if step.Discard? && d == y.s.threads[t].held[p] {
      OneHolder(y.s, t, p, u, q, d);
    }
  }

  lemma LockKeepsLease(y: Sys, step: Step, u: nat, q: PoolId, d: Channel)
    requires Inv(y.s) && FreeIsClean(y) && LeasesClean(y) && CanHappen(y, Lock(step)) && Holds(After(y.s, step), u, q, d)
    ensures LeaseOk(Happened(y, Lock(step)), u, q, d)
  {
    var t, p := step.t, y.s.threads[step.t].ops[0].pool;
    StepHoldings(y.s, step, u, q, d);
    if !(u == t && q == p) {
      assert LeaseOk(y, u, q, d);
      LockKeepsHeld(y, step, u, q, d);
    }
  }

  /** A waiting success of a batch that has not timed out still waits after a lock step. */
  lemma LockKeepsWaiting(y: Sys, step: Step, u: nat, b: nat, i: nat, q: PoolId, d: Channel, k: nat)
    requires Inv(y.s) && LeasesClean(y) && CanHappen(y, Lock(step)) && UnpolledAt(y, u, b, i, q, d, k)
    requires (u, b) !in Happened(y, Lock(step)).timedOut
    ensures UnpolledAt(Happened(y, Lock(step)), u, b, i, q, d, k)
  {
    var t, p := step.t, y.s.threads[step.t].ops[0].pool;
    assert Holds(y.s, u, q, d) && LeaseOk(y, u, q, d);
    StepFrame(y.s, step);
    if u == t && q == p {
      assert ThreadOk(y.s.threads[t]) && p in y.s.threads[t].held.Keys;
      LessTrichotomy(p, p);
      if step.Release? { DrainedIsClean(y, t, p, d); }
    } else {
      LockKeepsHeld(y, step, u, q, d);
    }
  }

  lemma LockKeepsFlags(y: Sys, step: Step)
    requires Inv(y.s) && LeasesClean(y) && FlagsComplete(y) && CanHappen(y, Lock(step))
    ensures FlagsComplete(Happened(y, Lock(step)))
  {
    var y' := Happened(y, Lock(step));
    forall u: nat, b: nat, i: nat | Unpolled(y, u, b, i) && (u, b) !in y'.timedOut ensures Unpolled(y', u, b, i) {
      var q, d, k: nat :| UnpolledAt(y, u, b, i, q, d, k);
      LockKeepsWaiting(y, step, u, b, i, q, d, k);
    }
  }

  lemma LockKeepsOwned(y: Sys, step: Step)
    requires Inv(y.s) && QueuesOwned(y) && CanHappen(y, Lock(step))
    ensures QueuesOwned(Happened(y, Lock(step)))
  {
    var y' := Happened(y, Lock(step));
    StepChannels(y.s, step);
    forall c | c in y'.queues ensures exists p :: c in PoolOf(y'.s, p).owned {
      if c in y.queues {
        var q :| c in PoolOf(y.s, q).owned;
        assert c in PoolOf(y'.s, q).owned;
      }
    }
  }

  lemma LockKeepsQueues(y: Sys, step: Step)
    requires Inv(y.s) && FreeIsClean(y) && LeasesClean(y) && CanHappen(y, Lock(step))
    ensures FreeIsClean(Happened(y, Lock(step))) && LeasesClean(Happened(y, Lock(step)))
  {
    var y' := Happened(y, Lock(step));
    forall q, d | d in PoolOf(y'.s, q).free ensures d in y'.queues && y'.queues[d] == CLEAN {
      LockKeepsFree(y, step, q, d);
    }
    forall u: nat, q, d | Holds(y'.s, u, q, d) ensures LeaseOk(y', u, q, d) {
      LockKeepsLease(y, step, u, q, d);
    }
  }

  lemma LockKeeps(y: Sys, step: Step)
    requires SysInv(y) && CanHappen(y, Lock(step))
    ensures SysInv(Happened(y, Lock(step)))
  {
    StepKeepsInv(y.s, step);
    LockKeepsQueues(y, step);
    LockKeepsFlags(y, step);
    LockKeepsOwned(y, step);
  }

  // ---------------------------------------------------------------- whole runs

  predicate Trace(y: Sys, events: seq<Event>, y': Sys)
    decreases |events|
  {
    if events == [] then y == y'
    else CanHappen(y, events[0]) && Trace(Happened(y, events[0]), events[1..], y')
  }

  /** A fresh engine: nothing leased, nothing posted, nothing flagged. */
  predicate Fresh(y: Sys) {
    Initial(y.s) && y.queues == map[] && y.leases == map[] && y.ok == map[] && y.succeeded == map[] && y.timedOut == {}
  }

  lemma {:induction false} TraceKeeps(y: Sys, events: seq<Event>, y': Sys)
    requires SysInv(y) && Trace(y, events, y')
    ensures SysInv(y')
    decreases |events|
  {
    if events != [] {
      match events[0] {
        case Lock(step) => LockKeeps(y, step);
        case Post(t, p, idx) => PostKeeps(y, t, p, idx);
        case Complete(c, wr, success) => CompleteKeeps(y, c, wr, success);
        case Poll(t, p, n) => PollKeeps(y, t, p, n);
      }
      TraceKeeps(Happened(y, events[0]), events[1..], y');
    }
  }

  /** Batch isolation. In every reachable state a free channel has no outstanding work;
      a flag is true only if that very request of that very batch succeeded; and once a
      thread holds no channel, the flags of each of its batches without a timeout are
      exactly the requests that succeeded. */
  lemma BatchIsolation(y: Sys, events: seq<Event>, y': Sys)
    requires Fresh(y) && Trace(y, events, y')
    ensures FreeIsClean(y')
    ensures FlagsSound(y')
    ensures forall t, b: nat | 0 <= t < |y'.s.threads| && y'.s.threads[t].held == map[] && (t, b) !in y'.timedOut ::
              Flags(y'.ok, t, b) == Flags(y'.succeeded, t, b)
  {
    InitialInv(y.s);
    assert forall t, p, c :: !Holds(y.s, t, p, c);
    assert forall p :: PoolOf(y.s, p) == EMPTY;
    TraceKeeps(y, events, y');
    forall t, b: nat | 0 <= t < |y'.s.threads| && y'.s.threads[t].held == map[] && (t, b) !in y'.timedOut
      ensures Flags(y'.ok, t, b) == Flags(y'.succeeded, t, b)
    {
      assert forall i: nat, p, c, k: nat :: !UnpolledAt(y', t, b, i, p, c, k);
      assert forall i: nat :: !Unpolled(y', t, b, i);
    }
  }
}
