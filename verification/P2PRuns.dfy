/** Runs of everything that touches this node's pool and claims. */
module P2PRuns {
  import opened Bytes
  import opened PoolValue
  import T = PoolTiling
  import opened P2P
  import opened P2PPromote

  // ---------------------------------------------------------------- republish

  /** Every pooled page has a noted length. */
  predicate LengthsKnown(s: Store) {
    forall e | e in s.pool.entries :: e.key in s.keyLen
  }

  /** Re-publishing claims exactly the pooled pages, and truthfully. */
  lemma RepublishClaims(cfg: Config, s: Store)
    requires Inv(cfg, s)
    ensures PoolInv(cfg, Republish(cfg, s)) && Coherent(cfg, Republish(cfg, s))
    ensures forall k :: Claims(cfg, Republish(cfg, s), k) <==> Find(s.pool.entries, k) >= 0
  {
    var s' := Republish(cfg, s);
    forall k ensures Truthful(cfg, s', k) && (Claims(cfg, s', k) <==> Find(s.pool.entries, k) >= 0) {
      RepublishClaim(cfg, s, k);
    }
  }

  lemma RepublishClaim(cfg: Config, s: Store, k: string)
    requires Inv(cfg, s)
    ensures Truthful(cfg, Republish(cfg, s), k) && (Claims(cfg, Republish(cfg, s), k) <==> Find(s.pool.entries, k) >= 0)
  {
    assert Truthful(cfg, s, k);
    var i := Find(s.pool.entries, k);
    PageEntriesSpec(cfg, s.pool.entries, k);
    if i >= 0 {
      var e := s.pool.entries[i];
      assert e in s.pool.entries;
      assert Backs(cfg, s.mem, e, k, Resident(cfg, e.off, e.len));
    } else {
      assert !Claims(cfg, s, k);
    }
  }

  /** While every pooled page has a noted length, re-publishing keeps everything true. */
  lemma RepublishCoherent(cfg: Config, s: Store)
    requires Inv(cfg, s) && (cfg.disk ==> LengthsKnown(s))
    ensures Inv(cfg, Republish(cfg, s))
  {
    RepublishClaims(cfg, s);
    forall k | Claims(cfg, Republish(cfg, s), k) ensures cfg.disk ==> k in s.keyLen {
      assert s.pool.entries[Find(s.pool.entries, k)] in s.pool.entries;
    }
  }

  /** The pages a publish of key pushes out of the pool. */
  function PushedOut(cfg: Config, s: Store, key: string): set<string> {
    AsSet(Reserve(s.pool, key, |cfg.page(key)|).evicted)
  }

  /** A page pushed out is in the pool no more. */
  lemma PushedOutIsGone(p: Pool, key: string, len: nat, k: string)
    requires DistinctKeys(p.entries) && k in Reserve(p, key, len).evicted
    ensures forall e | e in Reserve(p, key, len).pool.entries :: e.key != k
  {
    ReserveEvictsPrefix(p, key, len);
    var a := Reserve(p, key, len);
    var n := |a.evicted|;
    var i :| 0 <= i < n && a.evicted[i] == k;
    assert p.entries[i].key == k;
    assert forall j | 0 <= j < |p.entries[n..]| :: p.entries[n..][j] == p.entries[n + j];
  }

  /** A publish keeps a truthful directory truthful exactly when it pushes out no claimed
      page whose length has been forgotten. */
  lemma PushingOutCoherentIff(cfg: Config, s: Store, key: string)
    requires PoolInv(cfg, s) && Coherent(cfg, s)
    ensures Coherent(cfg, Publish(cfg, s, key).0) <==>
            forall k | k in PushedOut(cfg, s, key) && Claims(cfg, s, k) :: cfg.disk ==> k in s.keyLen
  {
    var s' := Publish(cfg, s, key).0;
    if forall k | k in PushedOut(cfg, s, key) && Claims(cfg, s, k) :: cfg.disk ==> k in s.keyLen {
      forall k ensures Truthful(cfg, s', k) {
        StillTruthful(cfg, s, key, k);
      }
    }
    if k :| k in PushedOut(cfg, s, key) && Claims(cfg, s, k) && cfg.disk && k !in s.keyLen {
      PushedOutIsGone(s.pool, key, |cfg.page(key)|, k);
      assert Claims(cfg, s', k) && !Truthful(cfg, s', k);
    }
  }

  lemma StillTruthful(cfg: Config, s: Store, key: string, k: string)
    requires PoolInv(cfg, s) && Truthful(cfg, s, k)
    requires k in PushedOut(cfg, s, key) && Claims(cfg, s, k) && cfg.disk ==> k in s.keyLen
    ensures Truthful(cfg, Publish(cfg, s, key).0, k)
  {
    var s' := Publish(cfg, s, key).0;
    if Claims(cfg, s', k) {
      assert Claims(cfg, s, k);
      var e :| e in s.pool.entries && Backs(cfg, s.mem, e, k, s.dir[k]);
      LeaversAreEvicted(s.pool, key, |cfg.page(key)|, e);
      PublishKeepsPool(cfg, s, key);
      assert e in s'.pool.entries;
      assert Backs(cfg, s'.mem, e, k, s'.dir[k]);
    }
  }

  /** So a page that left the disk while pooled, was re-published and is then pushed out
      leaves a false claim behind. */
  lemma ForgottenLengthLies(cfg: Config, s: Store, key: string, k: string)
    requires Inv(cfg, s) && cfg.disk && k in s.onDisk && Find(s.pool.entries, k) >= 0 && k in PushedOut(cfg, s, key)
    ensures var t := OnDiskEvict(s, {k}); Inv(cfg, t) && !Coherent(cfg, Publish(cfg, Republish(cfg, t), key).0)
  {
    var t := OnDiskEvict(s, {k});
    DiskEvictCoherent(cfg, s, {k});
    RepublishClaims(cfg, t);
    assert Claims(cfg, Republish(cfg, t), k) && k in PushedOut(cfg, Republish(cfg, t), key);
    PushingOutCoherentIff(cfg, Republish(cfg, t), key);
  }

  /** A page leaving the disk takes its claim and its length along. */
  lemma DiskEvictCoherent(cfg: Config, s: Store, evicted: set<string>)
    requires Inv(cfg, s)
    ensures Inv(cfg, OnDiskEvict(s, evicted))
  {
    var t := OnDiskEvict(s, evicted);
    forall k ensures Truthful(cfg, t, k) && (cfg.disk && Claims(cfg, t, k) ==> k in t.keyLen) {
      assert Truthful(cfg, s, k);
      assert Claims(cfg, t, k) ==> Claims(cfg, s, k);
    }
  }

  // ---------------------------------------------------------------- clear

  lemma {:induction false} RemoveAllKeeps(p: Pool, keys: seq<string>, layout: seq<nat>)
    requires T.Tiled(p, layout)
    ensures T.Tiled(RemoveAll(p, keys), layout) && RemoveAll(p, keys).capacity == p.capacity
    ensures forall e | e in RemoveAll(p, keys).entries :: e in p.entries && e.key !in keys
  {
    if keys != [] {
      var before, k := keys[..|keys| - 1], keys[|keys| - 1];
      RemoveAllKeeps(p, before, layout);
      T.RemovedKeeps(RemoveAll(p, before), layout, k);
      T.EntriesNeverMove(RemoveAll(p, before), k, 0);
      assert keys == before + [k];
    }
  }

  /** clear empties the pool and leaves no resident claim of this node behind. */
  lemma ClearCoherent(cfg: Config, s: Store, keys: seq<string>)
    requires Inv(cfg, s) && IsKnown(s, keys)
    ensures Inv(cfg, Clear(s, keys))
    ensures Clear(s, keys).pool.entries == [] && forall k :: !Claims(cfg, Clear(s, keys), k)
  {
    var s' := Clear(s, keys);
    assert s'.pool.entries != [] ==> s'.pool.entries[0] in s'.pool.entries;
    var layout :| T.Tiled(s.pool, layout);
    RemoveAllKeeps(s.pool, keys, layout);
    forall e | e in s.pool.entries ensures e.key in AsSet(keys) {
      var i :| 0 <= i < |s.pool.entries| && s.pool.entries[i] == e;
      assert Keys(s.pool.entries)[i] == e.key;
    }
    assert forall e :: e !in s'.pool.entries;
    forall k ensures !Claims(cfg, s', k) {
      assert Truthful(cfg, s, k);
    }
  }

  // ---------------------------------------------------------------- runs

  /** OtherPut and OtherDelete are directory updates by other nodes. */
  datatype Event =
    | PublishEvent(keys: seq<string>)
    | PromoteEvent(keys: seq<string>)
    | RepublishEvent
    | ClearEvent(keys: seq<string>)
    | DiskEvictEvent(evicted: set<string>)
    | OtherPut(key: string, loc: Location)
    | OtherDelete(dropped: set<string>)

  /** Promotes are made under their guard, and a re-publish while every pooled page has a
      noted length. */
  ghost predicate Possible(cfg: Config, s: Store, e: Event) {
    match e
    case PublishEvent(_) => true
    case PromoteEvent(keys) => PromoteSafe(cfg, s, keys)
    case RepublishEvent => cfg.disk ==> LengthsKnown(s)
    case ClearEvent(keys) => IsKnown(s, keys)
    case DiskEvictEvent(evicted) => evicted <= s.onDisk
    case OtherPut(_, loc) => loc.node != cfg.me
    case OtherDelete(_) => true
  }

  function Step(cfg: Config, s: Store, e: Event): Store {
    match e
    case PublishEvent(keys) => PublishBatch(cfg, s, keys)
    case PromoteEvent(keys) => EnsureResident(cfg, s, keys)
    case RepublishEvent => Republish(cfg, s)
    case ClearEvent(keys) => Clear(s, keys)
    case DiskEvictEvent(evicted) => OnDiskEvict(s, evicted)
    case OtherPut(key, loc) => s.(dir := s.dir[key := loc])
    case OtherDelete(keys) => s.(dir := s.dir - keys)
  }

  /** Directory changes by other nodes claim nothing here. */
  lemma OthersCoherent(cfg: Config, s: Store, dir: map<string, Location>)
    requires Inv(cfg, s)
    requires forall k | k in dir && dir[k].node == cfg.me :: k in s.dir && s.dir[k] == dir[k]
    ensures Inv(cfg, s.(dir := dir))
  {
    var t := s.(dir := dir);
    forall k ensures Truthful(cfg, t, k) && (cfg.disk && Claims(cfg, t, k) ==> k in t.keyLen) {
      assert Truthful(cfg, s, k);
      assert Claims(cfg, t, k) ==> Claims(cfg, s, k);
    }
  }

  lemma StepCoherent(cfg: Config, s: Store, e: Event)
    requires Inv(cfg, s) && Possible(cfg, s, e)
    ensures Inv(cfg, Step(cfg, s, e))
  {
    match e
    case PublishEvent(keys) => PublishBatchCoherent(cfg, s, keys);
    case PromoteEvent(keys) => SafePromoteCoherent(cfg, s, keys);
    case RepublishEvent => RepublishCoherent(cfg, s);
    case ClearEvent(keys) => ClearCoherent(cfg, s, keys);
    case DiskEvictEvent(evicted) => DiskEvictCoherent(cfg, s, evicted);
    case OtherPut(key, loc) => OthersCoherent(cfg, s, s.dir[key := loc]);
    case OtherDelete(keys) => OthersCoherent(cfg, s, s.dir - keys);
  }

  ghost predicate Run(cfg: Config, s: Store, es: seq<Event>, s': Store)
    decreases |es|
  {
    if es == [] then s == s' else Possible(cfg, s, es[0]) && Run(cfg, Step(cfg, s, es[0]), es[1..], s')
  }

  /** Directory and pool stay coherent over every run: whatever the directory says is
      resident here can be read here, whole, at that address. */
  lemma {:induction false} RunsStayCoherent(cfg: Config, s: Store, es: seq<Event>, s': Store)
    requires Inv(cfg, s) && Run(cfg, s, es, s')
    ensures Inv(cfg, s')
    decreases |es|
  {
    if es != [] {
      StepCoherent(cfg, s, es[0]);
      RunsStayCoherent(cfg, Step(cfg, s, es[0]), es[1..], s');
    }
  }

  /** A node starts with an empty pool and an empty claim. */
  lemma StartCoherent(cfg: Config, mem: seq<Byte>, dir: map<string, Location>)
    requires forall k | k in dir :: dir[k].node != cfg.me
    ensures Inv(cfg, Store(Empty(|mem|), mem, dir, map[], {}))
  {
    assert T.Tiled(Empty(|mem|), []);
  }
}
