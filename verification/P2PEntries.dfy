/** What promotes, re-publishes, disk evictions and clears leave in the directory, key by
    key, and the order a publish batch leaves in the pool. */
module P2PEntries {
  import opened PoolValue
  import opened P2P
  import opened P2PPublish
  import M = P2PPromote
  import R = P2PRuns
  import L = PoolLru

  // ---------------------------------------------------------------- promotes

  /** The pool once each key in turn has been looked up, or loaded from disk. */
  function PoolPromoted(cfg: Config, p: Pool, onDisk: set<string>, keys: seq<string>): Pool {
    if keys == [] then p
    else
      var q, key := PoolPromoted(cfg, p, onDisk, keys[..|keys| - 1]), keys[|keys| - 1];
      if Pooled(q, key) then Looked(q, key)
      else if !cfg.disk || key !in onDisk then q
      else Reserve(q, key, |cfg.page(key)|).pool
  }

  /** Page k was loaded from disk at one of its turns. */
  predicate Loads(cfg: Config, p: Pool, onDisk: set<string>, keys: seq<string>, k: string) {
    keys != [] &&
    var before, key := keys[..|keys| - 1], keys[|keys| - 1];
    var q := PoolPromoted(cfg, p, onDisk, before);
    || Loads(cfg, p, onDisk, before, k)
    || (key == k && cfg.disk && k in onDisk && !Pooled(q, k) && Reserve(q, k, |cfg.page(k)|).off >= 0)
  }

  lemma {:induction false} PromotedPool(cfg: Config, s: Store, keys: seq<string>)
    ensures var t := PromoteLoop(cfg, s, keys).0;
            t.pool == PoolPromoted(cfg, s.pool, s.onDisk, keys) && t.onDisk == s.onDisk
  {
    if keys != [] {
      PromotedPool(cfg, s, keys[..|keys| - 1]);
    }
  }

  lemma {:induction false} LoadedIsPromoted(cfg: Config, s: Store, keys: seq<string>, k: string)
    ensures k in PromoteLoop(cfg, s, keys).1 <==> Loads(cfg, s.pool, s.onDisk, keys, k)
  {
    if keys != [] {
      LoadedIsPromoted(cfg, s, keys[..|keys| - 1], k);
      PromotedPool(cfg, s, keys[..|keys| - 1]);
    }
  }

  /** Every page loaded is put in the directory as resident, with its length and, while it is
      pooled, its address; and its length is noted. */
  lemma LoadedIsAdvertised(cfg: Config, s: Store, keys: seq<string>, k: string)
    requires Inv(cfg, s) && Loads(cfg, s.pool, s.onDisk, keys, k)
    ensures
      var t := EnsureResident(cfg, s, keys);
      && Claims(cfg, t, k) && t.dir[k].len == |cfg.page(k)| && k in t.keyLen
      && (Pooled(t.pool, k) ==> t.dir[k] == Resident(cfg, t.pool.entries[Find(t.pool.entries, k)].off, |cfg.page(k)|))
  {
    LoadedIsPromoted(cfg, s, keys, k);
    M.PromoteLoopKeeps(cfg, s, keys);
    var r := PromoteLoop(cfg, s, keys);
    if Pooled(r.0.pool, k) {
      assert r.0.pool.entries[Find(r.0.pool.entries, k)] in r.0.pool.entries;
    }
  }

  lemma LookedPooled(p: Pool, key: string, k: string)
    ensures Pooled(Looked(p, key), k) <==> Pooled(p, k)
  {
    LookedSame(p, key);
    FindIff(p.entries, k);
    FindIff(Looked(p, key).entries, k);
  }

  /** One turn, seen from a key it does not load. */
  lemma PromoteUnloaded(cfg: Config, s: Store, promoted: map<string, Location>, key: string, k: string)
    requires DistinctKeys(s.pool.entries) && k !in PromoteNext(cfg, s, promoted, key).1
    ensures UntakenOk(cfg, s, PromoteNext(cfg, s, promoted, key).0, k)
  {
    if Find(s.pool.entries, key) >= 0 {
      LookedPooled(s.pool, key, k);
    } else if cfg.disk && key in s.onDisk {
      PublishUntaken(cfg, s, key, k);
    }
  }

  lemma {:induction false} LoopUnloaded(cfg: Config, s: Store, keys: seq<string>, k: string)
    requires Inv(cfg, s) && k !in PromoteLoop(cfg, s, keys).1
    ensures UntakenOk(cfg, s, PromoteLoop(cfg, s, keys).0, k)
  {
    if keys != [] {
      var before, key := keys[..|keys| - 1], keys[|keys| - 1];
      var r := PromoteLoop(cfg, s, before);
      M.PromoteLoopKeeps(cfg, s, before);
      LoopUnloaded(cfg, s, before, k);
      PromoteUnloaded(cfg, r.0, r.1, key, k);
      UntakenTwice(cfg, s, r.0, PromoteNext(cfg, r.0, r.1, key).0, k);
    }
  }

  /** Any other key keeps its entry, its noted length and its disk copy, unless its page left
      the pool. */
  lemma UnloadedIsKept(cfg: Config, s: Store, keys: seq<string>, k: string)
    requires Inv(cfg, s) && !Loads(cfg, s.pool, s.onDisk, keys, k)
    ensures UntakenOk(cfg, s, EnsureResident(cfg, s, keys), k)
  {
    LoadedIsPromoted(cfg, s, keys, k);
    LoopUnloaded(cfg, s, keys, k);
  }

  // ---------------------------------------------------------------- the other operations

  /** A re-publish puts pooled pages at their addresses, with a disk every other noted key as
      non-resident with its length, and nothing else. */
  lemma RepublishPuts(cfg: Config, s: Store, k: string)
    ensures
      var t, i := Republish(cfg, s), Find(s.pool.entries, k);
      if i >= 0 then k in t.dir && t.dir[k] == Resident(cfg, s.pool.entries[i].off, s.pool.entries[i].len)
      else if cfg.disk && k in s.keyLen then k in t.dir && t.dir[k] == Spilled(cfg, s.keyLen[k])
      else SameAt(s.dir, t.dir, k)
    ensures var t := Republish(cfg, s); t.pool == s.pool && t.mem == s.mem && t.keyLen == s.keyLen && t.onDisk == s.onDisk
  {
    PageEntriesSpec(cfg, s.pool.entries, k);
  }

  /** A clear forgets every known key everywhere, and touches no other. */
  lemma ClearForgets(cfg: Config, s: Store, keys: seq<string>, k: string)
    requires Inv(cfg, s) && IsKnown(s, keys)
    ensures
      var t := Clear(s, keys);
      && !Pooled(t.pool, k) && k !in t.keyLen
      && if k in s.keyLen || Pooled(s.pool, k) then k !in t.dir && k !in t.onDisk
         else SameAt(s.dir, t.dir, k) && (k in t.onDisk <==> k in s.onDisk)
  {
    R.ClearCoherent(cfg, s, keys);
    L.FindIffKey(s.pool.entries, k);
    assert k in AsSet(keys) <==> k in s.keyLen || k in AsSet(Keys(s.pool.entries));
  }

  /** A disk eviction forgets the evicted keys but for their pooled pages. */
  lemma DiskEvictForgets(s: Store, evicted: set<string>, k: string)
    ensures
      var t := OnDiskEvict(s, evicted);
      && t.pool == s.pool && t.mem == s.mem
      && if k in evicted then k !in t.dir && k !in t.keyLen && k !in t.onDisk
         else SameAt(s.dir, t.dir, k) && SameAt(s.keyLen, t.keyLen, k) && (k in t.onDisk <==> k in s.onDisk)
  {
  }

  // ---------------------------------------------------------------- the order after a publish batch

  /** The keys the pool took, by their first time. */
  function TakenOrder(cfg: Config, p: Pool, existing: set<string>, keys: seq<string>): seq<string> {
    if keys == [] then []
    else
      var before, key := keys[..|keys| - 1], keys[|keys| - 1];
      var order := TakenOrder(cfg, p, existing, before);
      if key !in order && key !in existing && Reserve(PoolAfter(cfg, p, existing, before), key, |cfg.page(key)|).off >= 0
      then order + [key] else order
  }

  lemma {:induction false} LoopOrder(cfg: Config, s: Store, existing: set<string>, keys: seq<string>)
    ensures var b := PublishLoop(cfg, s, existing, keys);
            b.order == TakenOrder(cfg, s.pool, existing, keys) && forall k :: k in b.order <==> k in b.staged
  {
    if keys != [] {
      LoopOrder(cfg, s, existing, keys[..|keys| - 1]);
      LoopPool(cfg, s, existing, keys[..|keys| - 1]);
    }
  }

  function TouchAll(order: seq<string>, keys: seq<string>): seq<string> {
    if keys == [] then order else L.LruTouch(TouchAll(order, keys[..|keys| - 1]), keys[|keys| - 1])
  }

  lemma {:induction false} TouchOrder(p: Pool, keys: seq<string>)
    requires DistinctKeys(p.entries)
    ensures DistinctKeys(Touch(p, keys).entries) && Keys(Touch(p, keys).entries) == TouchAll(Keys(p.entries), keys)
  {
    if keys != [] {
      var q, key := Touch(p, keys[..|keys| - 1]), keys[|keys| - 1];
      TouchOrder(p, keys[..|keys| - 1]);
      L.LookedOrder(q, key);
      if Find(q.entries, key) >= 0 {
        L.TouchedKeys(q.entries, Find(q.entries, key));
      }
    }
  }

  /** After a batch the pool is what publishing the unknown keys in turn makes of it, with the
      pages taken moved to the end in the order they were first taken. */
  lemma BatchOrder(cfg: Config, s: Store, keys: seq<string>)
    requires Inv(cfg, s)
    ensures Keys(PublishBatch(cfg, s, keys).pool.entries) ==
            TouchAll(Keys(PoolAfter(cfg, s.pool, s.dir.Keys, keys).entries), TakenOrder(cfg, s.pool, s.dir.Keys, keys))
  {
    LoopOrder(cfg, s, s.dir.Keys, keys);
    LoopPool(cfg, s, s.dir.Keys, keys);
    LoopDistinct(cfg, s, s.dir.Keys, keys);
    TouchOrder(PublishLoop(cfg, s, s.dir.Keys, keys).store.pool, TakenOrder(cfg, s.pool, s.dir.Keys, keys));
  }
}
