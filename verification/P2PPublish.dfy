/** What a publish batch leaves in the directory, key by key: every page the pool took is
    advertised where it is now, and every other entry is as it was unless its page left. */
module P2PPublish {
  import opened Bytes
  import opened PoolValue
  import opened P2P
  import T = PoolTiling

  // ---------------------------------------------------------------- the pool alone

  predicate Pooled(p: Pool, k: string) {
    Find(p.entries, k) >= 0
  }

  /** The pool once the keys the directory did not know have been published in turn. */
  function PoolAfter(cfg: Config, p: Pool, existing: set<string>, keys: seq<string>): Pool {
    if keys == [] then p
    else
      var q, key := PoolAfter(cfg, p, existing, keys[..|keys| - 1]), keys[|keys| - 1];
      if key in existing then q else Reserve(q, key, |cfg.page(key)|).pool
  }

  /** The pool took page k at one of its turns. */
  predicate Took(cfg: Config, p: Pool, existing: set<string>, keys: seq<string>, k: string) {
    keys != [] &&
    var before, key := keys[..|keys| - 1], keys[|keys| - 1];
    || Took(cfg, p, existing, before, k)
    || (key == k && k !in existing && Reserve(PoolAfter(cfg, p, existing, before), k, |cfg.page(k)|).off >= 0)
  }

  /** That is, some turn of k's found it resident or found room. */
  lemma {:induction false} TookIff(cfg: Config, p: Pool, existing: set<string>, keys: seq<string>, k: string)
    ensures Took(cfg, p, existing, keys, k) <==>
            k !in existing && exists i | 0 <= i < |keys| :: TakenAt(cfg, p, existing, keys, i, k)
  {
    if keys != [] {
      var n := |keys| - 1;
      TookIff(cfg, p, existing, keys[..n], k);
      forall i: nat | i < n ensures TakenAt(cfg, p, existing, keys, i, k) <==> TakenAt(cfg, p, existing, keys[..n], i, k) {
        assert keys[..n][..i] == keys[..i];
      }
      assert Took(cfg, p, existing, keys, k) <==> Took(cfg, p, existing, keys[..n], k) || (k !in existing && TakenAt(cfg, p, existing, keys, n, k));
    }
  }

  predicate TakenAt(cfg: Config, p: Pool, existing: set<string>, keys: seq<string>, i: nat, k: string)
    requires i < |keys|
  {
    keys[i] == k && Reserve(PoolAfter(cfg, p, existing, keys[..i]), k, |cfg.page(k)|).off >= 0
  }

  lemma {:induction false} LoopPool(cfg: Config, s: Store, existing: set<string>, keys: seq<string>)
    ensures PublishLoop(cfg, s, existing, keys).store.pool == PoolAfter(cfg, s.pool, existing, keys)
  {
    if keys != [] {
      LoopPool(cfg, s, existing, keys[..|keys| - 1]);
    }
  }

  lemma FindIff(es: seq<Entry>, k: string)
    ensures Find(es, k) >= 0 <==> exists e | e in es :: e.key == k
  {
    if Find(es, k) >= 0 {
      assert es[Find(es, k)] in es;
    }
  }

  /** Who is in the pool after a reservation: the new page, and of the others those that
      were not evicted. */
  lemma ReservedPooled(p: Pool, key: string, len: nat, k: string)
    requires DistinctKeys(p.entries)
    ensures var a := Reserve(p, key, len);
            && (k == key ==> (Pooled(a.pool, k) <==> a.off >= 0) && k !in a.evicted && (Pooled(p, k) ==> a.off >= 0))
            && (k != key ==> (Pooled(a.pool, k) <==> Pooled(p, k) && k !in a.evicted) && (k in a.evicted ==> Pooled(p, k)))
  {
    if Find(p.entries, key) >= 0 {
      ResidentPooled(p, key, len, k);
    } else {
      NewPooled(p, key, len, k);
    }
  }

  lemma ResidentPooled(p: Pool, key: string, len: nat, k: string)
    requires Find(p.entries, key) >= 0
    ensures Pooled(Reserve(p, key, len).pool, k) <==> Pooled(p, k)
  {
    var j := Find(p.entries, key);
    assert p.entries == p.entries[..j] + [p.entries[j]] + p.entries[j + 1..];
    FindIff(p.entries, k);
    FindIff(Touched(p.entries, j), k);
  }

  lemma NewPooled(p: Pool, key: string, len: nat, k: string)
    requires Find(p.entries, key) < 0 && DistinctKeys(p.entries)
    ensures var a := Reserve(p, key, len);
            && (k == key ==> (Pooled(a.pool, k) <==> a.off >= 0) && k !in a.evicted)
            && (k != key ==> (Pooled(a.pool, k) <==> Pooled(p, k) && k !in a.evicted) && (k in a.evicted ==> Pooled(p, k)))
  {
    ReserveEvictsPrefix(p, key, len);
    var a := Reserve(p, key, len);
    SplitPooled(p.entries, |a.evicted|, k);
    FindIff(a.pool.entries, k);
    FindIff(p.entries[|a.evicted|..], k);
    assert a.off >= 0 ==> Entry(key, a.off, len) in a.pool.entries;
    assert k != key ==> forall e | e in a.pool.entries && e.key == k :: e in p.entries[|a.evicted|..];
  }

  /** A key is in the front of the order or in the rest of it, not in both. */
  lemma SplitPooled(es: seq<Entry>, n: nat, k: string)
    requires n <= |es| && DistinctKeys(es)
    ensures k in Keys(es)[..n] <==> Find(es, k) >= 0 && Find(es[n..], k) < 0
    ensures Find(es[n..], k) >= 0 ==> Find(es, k) >= 0
  {
    var front := Keys(es)[..n];
    if k in front {
      var i :| 0 <= i < n && front[i] == k;
      assert es[i].key == k;
      assert forall j | 0 <= j < |es[n..]| :: es[n..][j] == es[n + j];
    }
    var i := Find(es, k);
    if i >= 0 {
      if i < n {
        assert front[i] == k;
      } else {
        assert es[n..][i - n] == es[i];
      }
    }
    var m := Find(es[n..], k);
    if m >= 0 {
      assert es[n + m].key == k;
    }
  }

  // ---------------------------------------------------------------- the publishing loop

  lemma LoopDistinct(cfg: Config, s: Store, existing: set<string>, keys: seq<string>)
    requires Inv(cfg, s)
    ensures DistinctKeys(PoolAfter(cfg, s.pool, existing, keys).entries)
  {
    PublishLoopKeeps(cfg, s, existing, keys);
    LoopPool(cfg, s, existing, keys);
  }

  /** A page of the batch that is pooled in the end was taken. */
  lemma {:induction false} PooledWasTaken(cfg: Config, s: Store, existing: set<string>, keys: seq<string>, k: string)
    requires Inv(cfg, s) && k in keys && k !in existing && Pooled(PoolAfter(cfg, s.pool, existing, keys), k)
    ensures Took(cfg, s.pool, existing, keys, k)
  {
    var before, key := keys[..|keys| - 1], keys[|keys| - 1];
    var q := PoolAfter(cfg, s.pool, existing, before);
    LoopDistinct(cfg, s, existing, before);
    ReservedPooled(q, key, |cfg.page(key)|, k);
    if key != k {
      assert keys == before + [key];
      PooledWasTaken(cfg, s, existing, before, k);
    }
  }

  /** What the loop notes of a page the pool took. */
  predicate NotedOk(cfg: Config, b: Batch, k: string) {
    && k in b.staged && b.staged[k] == Location(cfg.me, b.staged[k].addr, |cfg.page(k)|, true)
    && k in b.store.keyLen && b.store.keyLen[k] == |cfg.page(k)|
    && (cfg.disk ==> k in b.store.onDisk)
  }

  lemma {:induction false} TakenIsNoted(cfg: Config, s: Store, existing: set<string>, keys: seq<string>, k: string)
    requires Took(cfg, s.pool, existing, keys, k)
    ensures NotedOk(cfg, PublishLoop(cfg, s, existing, keys), k)
  {
    var before, key := keys[..|keys| - 1], keys[|keys| - 1];
    LoopPool(cfg, s, existing, before);
    if Took(cfg, s.pool, existing, before, k) {
      TakenIsNoted(cfg, s, existing, before, k);
    }
  }

  predicate SameAt<V(==)>(m: map<string, V>, m': map<string, V>, k: string) {
    if k in m then k in m' && m'[k] == m[k] else k !in m'
  }

  /** What becomes of an entry whose page left the pool: it is dropped, or with a disk and a
      known length turned non-resident. */
  predicate DisclaimedAt(cfg: Config, s: Store, dir: map<string, Location>, k: string) {
    if !cfg.disk then k !in dir
    else if k in s.keyLen then k in dir && dir[k] == Spilled(cfg, s.keyLen[k])
    else SameAt(s.dir, dir, k)
  }

  /** A key the pool did not take: nothing is noted of it, and its entry changes only if its
      page leaves the pool. */
  predicate UntakenOk(cfg: Config, s: Store, t: Store, k: string) {
    && SameAt(s.keyLen, t.keyLen, k) && (k in s.onDisk <==> k in t.onDisk)
    && (Pooled(t.pool, k) ==> Pooled(s.pool, k))
    && if Pooled(s.pool, k) && !Pooled(t.pool, k) then DisclaimedAt(cfg, s, t.dir, k) else SameAt(s.dir, t.dir, k)
  }

  /** One publish, seen from a key it does not take. */
  lemma PublishUntaken(cfg: Config, s: Store, key: string, k: string)
    requires DistinctKeys(s.pool.entries)
    requires k == key ==> Reserve(s.pool, key, |cfg.page(key)|).off < 0
    ensures UntakenOk(cfg, s, Publish(cfg, s, key).0, k)
  {
    ReservedPooled(s.pool, key, |cfg.page(key)|, k);
  }

  lemma UntakenTwice(cfg: Config, s: Store, t: Store, u: Store, k: string)
    requires UntakenOk(cfg, s, t, k) && UntakenOk(cfg, t, u, k)
    ensures UntakenOk(cfg, s, u, k)
  {
  }

  lemma {:induction false} LoopUntaken(cfg: Config, s: Store, existing: set<string>, keys: seq<string>, k: string)
    requires Inv(cfg, s) && !Took(cfg, s.pool, existing, keys, k)
    ensures UntakenOk(cfg, s, PublishLoop(cfg, s, existing, keys).store, k)
    ensures k !in PublishLoop(cfg, s, existing, keys).staged
  {
    if keys != [] {
      var before, key := keys[..|keys| - 1], keys[|keys| - 1];
      var b := PublishLoop(cfg, s, existing, before);
      LoopUntaken(cfg, s, existing, before, k);
      LoopPool(cfg, s, existing, before);
      LoopDistinct(cfg, s, existing, before);
      if key !in existing {
        PublishUntaken(cfg, b.store, key, k);
        UntakenTwice(cfg, s, b.store, Publish(cfg, b.store, key).0, k);
      }
    }
  }

  // ---------------------------------------------------------------- the batch

  lemma BatchPooled(cfg: Config, s: Store, keys: seq<string>, k: string)
    ensures Pooled(PublishBatch(cfg, s, keys).pool, k) <==> Pooled(PoolAfter(cfg, s.pool, s.dir.Keys, keys), k)
  {
    var b := PublishLoop(cfg, s, s.dir.Keys, keys);
    LoopPool(cfg, s, s.dir.Keys, keys);
    TouchSame(b.store.pool, b.order);
    FindIff(b.store.pool.entries, k);
    FindIff(Touch(b.store.pool, b.order).entries, k);
  }

  /** Every page the pool took is noted, and advertised: at its address while it is pooled,
      as non-resident with its length if a later page of the batch pushed it out. */
  lemma TakenIsAdvertised(cfg: Config, s: Store, keys: seq<string>, k: string)
    requires Inv(cfg, s) && Took(cfg, s.pool, s.dir.Keys, keys, k)
    ensures
      var t, len := PublishBatch(cfg, s, keys), |cfg.page(k)|;
      && k in t.keyLen && t.keyLen[k] == len && (cfg.disk ==> k in t.onDisk)
      && k in t.dir
      && if Pooled(t.pool, k) then t.dir[k] == Resident(cfg, t.pool.entries[Find(t.pool.entries, k)].off, len)
         else t.dir[k] == Spilled(cfg, len)
  {
    var b, t := PublishLoop(cfg, s, s.dir.Keys, keys), PublishBatch(cfg, s, keys);
    TakenIsNoted(cfg, s, s.dir.Keys, keys, k);
    LoopPool(cfg, s, s.dir.Keys, keys);
    BatchPooled(cfg, s, keys, k);
    LoopDistinct(cfg, s, s.dir.Keys, keys);
    PutAdvertises(cfg, b, t, k);
  }

  lemma PutAdvertises(cfg: Config, b: Batch, t: Store, k: string)
    requires NotedOk(cfg, b, k) && DistinctKeys(b.store.pool.entries) && (Pooled(t.pool, k) <==> Pooled(b.store.pool, k))
    requires t == b.store.(pool := Touch(b.store.pool, b.order), dir := b.store.dir + Reconciled(cfg, b))
    ensures
      && k in t.dir
      && if Pooled(t.pool, k) then t.dir[k] == Resident(cfg, t.pool.entries[Find(t.pool.entries, k)].off, |cfg.page(k)|)
         else t.dir[k] == Spilled(cfg, |cfg.page(k)|)
  {
    if Pooled(t.pool, k) {
      SameEntry(b.store.pool, b.order, k);
    }
  }

  /** The reconcile pass moves pages in the order only. */
  lemma SameEntry(p: Pool, order: seq<string>, k: string)
    requires DistinctKeys(p.entries) && Pooled(p, k) && Pooled(Touch(p, order), k)
    ensures Touch(p, order).entries[Find(Touch(p, order).entries, k)] == p.entries[Find(p.entries, k)]
  {
    TouchSame(p, order);
    var e := Touch(p, order).entries[Find(Touch(p, order).entries, k)];
    assert e in Touch(p, order).entries;
    var i :| 0 <= i < |p.entries| && p.entries[i] == e;
    var j := Find(p.entries, k);
    assert p.entries[i].key == p.entries[j].key;
  }

  /** A published page that is pooled afterwards is claimed. */
  lemma PublishedIsClaimed(cfg: Config, s: Store, keys: seq<string>, k: string)
    requires Inv(cfg, s) && k in keys && k !in s.dir && Pooled(PublishBatch(cfg, s, keys).pool, k)
    ensures Claims(cfg, PublishBatch(cfg, s, keys), k) && Took(cfg, s.pool, s.dir.Keys, keys, k)
  {
    BatchPooled(cfg, s, keys, k);
    PooledWasTaken(cfg, s, s.dir.Keys, keys, k);
    TakenIsAdvertised(cfg, s, keys, k);
  }

  /** Any other key keeps its entry, its noted length and its disk copy; only if its page
      left the pool is the entry dropped or turned non-resident. */
  lemma UntakenIsKept(cfg: Config, s: Store, keys: seq<string>, k: string)
    requires Inv(cfg, s) && !Took(cfg, s.pool, s.dir.Keys, keys, k)
    ensures UntakenOk(cfg, s, PublishBatch(cfg, s, keys), k)
  {
    LoopUntaken(cfg, s, s.dir.Keys, keys, k);
    LoopPool(cfg, s, s.dir.Keys, keys);
    BatchPooled(cfg, s, keys, k);
  }

  /** A key the directory knew is not published again. */
  lemma {:induction false} KnownIsNotTaken(cfg: Config, p: Pool, existing: set<string>, keys: seq<string>, k: string)
    requires k in existing || k !in keys
    ensures !Took(cfg, p, existing, keys, k)
  {
    if keys != [] {
      KnownIsNotTaken(cfg, p, existing, keys[..|keys| - 1], k);
    }
  }
}
