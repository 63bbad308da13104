/** The publish path as the store object runs it, loop by loop, over the pool object. */
module P2PObject {
  import opened Bytes
  import opened PoolValue
  import opened PoolObject
  import T = PoolTiling
  import P2P

  type Location = P2P.Location

  /** Two orders of the same entries agree on where a key is. */
  lemma FindSame(es: seq<Entry>, fs: seq<Entry>, key: string)
    requires DistinctKeys(es) && forall e :: e in es <==> e in fs
    ensures Find(es, key) >= 0 <==> Find(fs, key) >= 0
    ensures Find(es, key) >= 0 ==> es[Find(es, key)] == fs[Find(fs, key)]
  {
    var i, j := Find(es, key), Find(fs, key);
    if i >= 0 {
      assert es[i] in fs;
    }
    if j >= 0 {
      assert fs[j] in es;
    }
  }

  class PeerStore {
    const cfg: P2P.Config
    const pool: PublishedPool
    var dir: map<string, Location>
    var keyLen: map<string, nat>
    var onDisk: set<string>

    ghost predicate Valid()
      reads this, pool, pool.mem
    {
      pool.Valid() && pool.base == cfg.base
    }

    ghost function Value(): P2P.Store
      reads this, pool, pool.mem
    {
      P2P.Store(pool.Value(), pool.mem[..], dir, keyLen, onDisk)
    }

    constructor (cfg: P2P.Config, pool: PublishedPool, dir: map<string, Location>)
      requires pool.Valid() && pool.base == cfg.base
      ensures Valid() && Value() == P2P.Store(pool.Value(), pool.mem[..], dir, map[], {}) && this.cfg == cfg
    {
      this.cfg, this.pool, this.dir := cfg, pool, dir;
      keyLen, onDisk := map[], {};
    }

    /** The pool's eviction callback. */
    method OnPoolEvict(evicted: seq<string>)
      modifies this`dir
      ensures Value() == P2P.OnPoolEvict(cfg, old(Value()), P2P.AsSet(evicted))
    {
      if !cfg.disk {
        dir := dir - P2P.AsSet(evicted);
        return;
      }
      var entries: map<string, Location> := map[];
      for i := 0 to |evicted|
        invariant entries == map k | k in P2P.AsSet(evicted[..i]) && k in keyLen :: P2P.Spilled(cfg, keyLen[k])
      {
        var k := evicted[i];
        assert evicted[..i + 1] == evicted[..i] + [k];
        assert P2P.AsSet(evicted[..i + 1]) == P2P.AsSet(evicted[..i]) + {k};
        if k in keyLen {
          entries := entries[k := P2P.Spilled(cfg, keyLen[k])];
        }
      }
      assert evicted[..|evicted|] == evicted;
      dir := dir + entries;
    }

    /** The disk tier's eviction callback. */
    method OnDiskEvict(evicted: seq<string>)
      modifies this`dir, this`keyLen, this`onDisk
      ensures Value() == P2P.OnDiskEvict(old(Value()), P2P.AsSet(evicted))
    {
      for i := 0 to |evicted|
        invariant keyLen == old(keyLen) - P2P.AsSet(evicted[..i]) && dir == old(dir) && onDisk == old(onDisk)
      {
        assert evicted[..i + 1] == evicted[..i] + [evicted[i]];
        assert P2P.AsSet(evicted[..i + 1]) == P2P.AsSet(evicted[..i]) + {evicted[i]};
        keyLen := keyLen - {evicted[i]};
      }
      assert evicted[..|evicted|] == evicted;
      onDisk := onDisk - P2P.AsSet(evicted);
      dir := dir - P2P.AsSet(evicted);
    }

    /** pool.publish with its callback. */
    method PublishPage(key: string, data: seq<Byte>) returns (addr: int)
      requires Valid() && data == cfg.page(key)
      modifies this`dir, pool, pool.mem
      ensures Valid()
      ensures var r := P2P.Publish(cfg, old(Value()), key);
              Value() == r.0 && addr == if r.1 < 0 then -1 else cfg.base + r.1
    {
      var evicted;
      addr, evicted := pool.Publish(key, data);
      OnPoolEvict(evicted);
    }

    /** The body of the publishing loop for a key the directory does not know yet. */
    method Stage(key: string, data: seq<Byte>, staged: map<string, Location>, order: seq<string>)
      returns (staged': map<string, Location>, order': seq<string>, ok: bool)
      requires Valid() && data == cfg.page(key)
      modifies this, pool, pool.mem
      ensures Valid()
      ensures P2P.Batch(Value(), staged', order') == P2P.PublishNext(cfg, P2P.Batch(old(Value()), staged, order), {}, key)
      ensures ok <==> P2P.Publish(cfg, old(Value()), key).1 >= 0
    {
      staged', order' := staged, order;
      var addr := PublishPage(key, data);
      ok := addr >= 0;
      if ok {
        if cfg.disk {
          onDisk := onDisk + {key};
        }
        keyLen := keyLen[key := |data|];
        order' := if key in staged then order else order + [key];
        staged' := staged[key := P2P.Location(cfg.me, addr, |data|, true)];
      }
    }

    /** One turn of the publishing loop. */
    method StageNext(key: string, data: seq<Byte>, existing: set<string>, staged: map<string, Location>, order: seq<string>)
      returns (staged': map<string, Location>, order': seq<string>, ok: bool)
      requires Valid() && data == cfg.page(key)
      modifies this, pool, pool.mem
      ensures Valid()
      ensures P2P.Batch(Value(), staged', order') == P2P.PublishNext(cfg, P2P.Batch(old(Value()), staged, order), existing, key)
      ensures ok <==> key in existing || P2P.Publish(cfg, old(Value()), key).1 >= 0
    {
      if key in existing {
        return staged, order, true;
      }
      staged', order', ok := Stage(key, data, staged, order);
    }

    /** The publishing loop. `existing` is the directory's answer from before it. */
    method StageAll(keys: seq<string>, datas: seq<seq<Byte>>, existing: set<string>)
      returns (staged: map<string, Location>, order: seq<string>, results: seq<bool>)
      requires Valid() && |datas| == |keys| && forall i | 0 <= i < |keys| :: datas[i] == cfg.page(keys[i])
      modifies this, pool, pool.mem
      ensures Valid() && P2P.Batch(Value(), staged, order) == P2P.PublishLoop(cfg, old(Value()), existing, keys)
      ensures |results| == |keys| && AllReported(cfg, old(Value()), existing, keys, results)
    {
      staged, order, results := map[], [], [];
      ghost var start := Value();
      for i := 0 to |keys|
        invariant Valid() && |results| == i
        invariant P2P.Batch(Value(), staged, order) == P2P.PublishLoop(cfg, start, existing, keys[..i])
        invariant AllReported(cfg, start, existing, keys, results)
      {
        LoopNext(cfg, start, existing, keys, i);
        var ok;
        staged, order, ok := StageNext(keys[i], datas[i], existing, staged, order);
        ReportNext(cfg, start, existing, keys, results, ok);
        results := results + [ok];
      }
      assert keys[..|keys|] == keys;
    }

    /** _publish_p2p. A key the directory already knows counts as published. */
    method PublishP2P(keys: seq<string>, datas: seq<seq<Byte>>) returns (results: seq<bool>)
      requires Valid() && |datas| == |keys| && forall i | 0 <= i < |keys| :: datas[i] == cfg.page(keys[i])
      modifies this, pool, pool.mem
      ensures Valid() && Value() == P2P.PublishBatch(cfg, old(Value()), keys)
      ensures |results| == |keys| && AllReported(cfg, old(Value()), old(dir.Keys), keys, results)
    {
      var staged, order;
      staged, order, results := StageAll(keys, datas, dir.Keys);
      LoopListed(cfg, old(Value()), old(dir.Keys), keys);
      Reconcile(staged, order, P2P.Batch(Value(), staged, order));
    }

    /** One entry of the reconcile pass. */
    method ReconcileEntry(key: string, loc: Location) returns (r: Location)
      requires Valid()
      modifies pool`entries
      ensures Valid() && Value() == old(Value()).(pool := Looked(old(pool.Value()), key))
      ensures r == P2P.ReconciledEntry(cfg, old(Value()), key, loc)
    {
      var addr, len := pool.AddressOf(key);
      if addr < 0 {
        r := P2P.Spilled(cfg, if key in keyLen then keyLen[key] else loc.len);
      } else {
        r := loc.(addr := addr);
      }
    }

    /** The reconcile pass and the final directory put. */
    method Reconcile(staged: map<string, Location>, order: seq<string>, ghost b: P2P.Batch)
      requires Valid() && b == P2P.Batch(Value(), staged, order) && ListedOnce(b)
      modifies this, pool
      ensures Valid()
      ensures Value() == b.store.(pool := P2P.Touch(b.store.pool, b.order), dir := b.store.dir + P2P.Reconciled(cfg, b))
    {
      var entries: map<string, Location> := map[];
      for i := 0 to |order|
        invariant Valid() && Value() == b.store.(pool := P2P.Touch(b.store.pool, order[..i]))
        invariant SoFar(cfg, b, order[..i], entries)
      {
        var key := order[i];
        assert order[..i + 1][..i] == order[..i] && order[..i + 1] == order[..i] + [key];
        assert key in staged;
        TouchReconciles(cfg, b.store, order[..i], key, staged[key]);
        SoFarNext(cfg, b, order[..i], entries, key);
        var loc := ReconcileEntry(key, staged[key]);
        entries := entries[key := loc];
      }
      assert order[..|order|] == order;
      ReconciledAll(cfg, b, entries);
      dir := dir + entries;
    }

    /** Look a page up in the pool, touching it. */
    method Lookup(key: string) returns (out: Hit)
      requires Valid()
      modifies pool`entries
      ensures Valid() && pool.Value() == Looked(old(pool.Value()), key)
      ensures out == HitAt(cfg, pool.entries, key) && (out.Hit? <==> Find(old(pool.entries), key) >= 0)
    {
      TouchedHit(cfg, pool.Value(), key);
      var addr, len := pool.AddressOf(key);
      out := if addr < 0 then Miss else Hit(P2P.Location(cfg.me, addr, len, true));
    }

    /** One key of _ensure_resident: the answer is where its page is in the pool by then. */
    method Promote(key: string, promoted: map<string, Location>) returns (out: Hit, promoted': map<string, Location>)
      requires Valid()
      modifies this, pool, pool.mem
      ensures Valid() && (Value(), promoted') == P2P.PromoteNext(cfg, old(Value()), promoted, key)
      ensures out == HitAt(cfg, pool.entries, key)
    {
      promoted' := promoted;
      out := Lookup(key);
      if out.Miss? && cfg.disk && key in onDisk {
        out, promoted' := LoadFromDisk(key, promoted);
      }
    }

    /** The promotion itself: read the page from disk and publish it. */
    method LoadFromDisk(key: string, promoted: map<string, Location>) returns (out: Hit, promoted': map<string, Location>)
      requires Valid() && Find(pool.entries, key) < 0 && cfg.disk && key in onDisk
      modifies this, pool, pool.mem
      ensures Valid() && (Value(), promoted') == P2P.PromoteNext(cfg, old(Value()), promoted, key)
      ensures out == HitAt(cfg, pool.entries, key)
    {
      var data := cfg.page(key);
      PublishHit(cfg, Value(), key);
      var addr := PublishPage(key, data);
      if addr < 0 {
        out, promoted' := Miss, promoted;
      } else {
        var loc := P2P.Location(cfg.me, addr, |data|, true);
        out, promoted' := Hit(loc), promoted[key := loc];
        keyLen := keyLen[key := |data|];
      }
    }

    /** One turn of the promoting loop. */
    method PromoteTurn(ghost start: P2P.Store, keys: seq<string>, i: nat, out: seq<Hit>, promoted: map<string, Location>)
      returns (out': seq<Hit>, promoted': map<string, Location>)
      requires Valid() && i < |keys| && (Value(), promoted) == P2P.PromoteLoop(cfg, start, keys[..i])
      requires out == Answers(cfg, start, keys[..i])
      modifies this, pool, pool.mem
      ensures Valid() && (Value(), promoted') == P2P.PromoteLoop(cfg, start, keys[..i + 1])
      ensures out' == Answers(cfg, start, keys[..i + 1])
    {
      PromoteLoopNext(cfg, start, keys, i);
      var hit;
      hit, promoted' := Promote(keys[i], promoted);
      out' := out + [hit];
    }

    /** The promoting loop. */
    method PromoteAll(keys: seq<string>) returns (out: seq<Hit>, promoted: map<string, Location>)
      requires Valid()
      modifies this, pool, pool.mem
      ensures Valid() && (Value(), promoted) == P2P.PromoteLoop(cfg, old(Value()), keys)
      ensures out == Answers(cfg, old(Value()), keys)
    {
      out, promoted := [], map[];
      ghost var start := Value();
      for i := 0 to |keys|
        invariant Valid()
        invariant (Value(), promoted) == P2P.PromoteLoop(cfg, start, keys[..i])
        invariant out == Answers(cfg, start, keys[..i])
      {
        out, promoted := PromoteTurn(start, keys, i, out, promoted);
      }
      assert keys[..|keys|] == keys;
    }

    method EnsureResident(keys: seq<string>) returns (out: seq<Hit>)
      requires Valid()
      modifies this, pool, pool.mem
      ensures Valid() && Value() == P2P.EnsureResident(cfg, old(Value()), keys)
      ensures out == Answers(cfg, old(Value()), keys)
    {
      var promoted;
      out, promoted := PromoteAll(keys);
      dir := dir + promoted;
    }

    /** Re-put this node's entries after a membership change. */
    method Republish()
      requires Valid()
      modifies this`dir
      ensures Valid() && Value() == P2P.Republish(cfg, old(Value()))
    {
      var es, pages := pool.entries, map[];
      for i := 0 to |es|
        invariant pages == P2P.PageEntries(cfg, es[..i])
      {
        assert es[..i + 1][..i] == es[..i];
        pages := pages[es[i].key := P2P.Resident(cfg, es[i].off, es[i].len)];
      }
      assert es[..|es|] == es;
      var spilled := map[];
      if cfg.disk {
        var todo := keyLen.Keys;
        while todo != {}
          invariant todo <= keyLen.Keys
          invariant spilled == map k | k in keyLen && k !in todo && k !in pages :: P2P.Spilled(cfg, keyLen[k])
        {
          var k :| k in todo;
          if k !in pages {
            spilled := spilled[k := P2P.Spilled(cfg, keyLen[k])];
          }
          todo := todo - {k};
        }
        assert spilled == P2P.DiskOnly(cfg, keyLen, pages);
      }
      dir := dir + spilled + pages;
    }

    /** Drop one key from the pool and the disk. */
    method ForgetOne(k: string, ghost p: Pool, ghost stored: set<string>, ghost keys: seq<string>)
      requires Valid() && pool.Value() == P2P.RemoveAll(p, keys) && onDisk == stored - P2P.AsSet(keys)
      modifies this`onDisk, pool
      ensures Valid() && pool.Value() == P2P.RemoveAll(p, keys + [k])
      ensures onDisk == stored - P2P.AsSet(keys + [k]) && P2P.AsSet(keys + [k]) == P2P.AsSet(keys) + {k}
    {
      assert (keys + [k])[..|keys|] == keys;
      pool.Remove(k);
      onDisk := onDisk - {k};
    }

    /** Drop every known key, returning them in the order taken. */
    method ForgetAll() returns (keys: seq<string>)
      requires Valid()
      modifies this`onDisk, pool
      ensures Valid() && P2P.AsSet(keys) == keyLen.Keys + P2P.AsSet(Keys(old(pool.entries)))
      ensures pool.Value() == P2P.RemoveAll(old(pool.Value()), keys) && onDisk == old(onDisk) - P2P.AsSet(keys)
    {
      var todo := keyLen.Keys + P2P.AsSet(Keys(pool.entries));
      ghost var all, p, stored := todo, pool.Value(), onDisk;
      keys := [];
      while todo != {}
        invariant Valid() && todo <= all && P2P.AsSet(keys) == all - todo
        invariant pool.Value() == P2P.RemoveAll(p, keys)
        invariant onDisk == stored - P2P.AsSet(keys)
      {
        var k :| k in todo;
        ForgetOne(k, p, stored, keys);
        keys := keys + [k];
        todo := todo - {k};
      }
    }

    /** clear(), returning the keys it forgot. */
    method Clear() returns (keys: seq<string>)
      requires Valid()
      modifies this, pool
      ensures Valid() && P2P.IsKnown(old(Value()), keys) && Value() == P2P.Clear(old(Value()), keys)
    {
      keys := ForgetAll();
      dir := dir - P2P.AsSet(keys);
      keyLen := map[];
    }
  }

  datatype Hit = Miss | Hit(loc: Location)

  /** Where a page is in the pool now, if it is there. */
  function HitAt(cfg: P2P.Config, es: seq<Entry>, key: string): Hit {
    var i := Find(es, key);
    if i < 0 then Miss else Hit(P2P.Resident(cfg, es[i].off, es[i].len))
  }

  /** The answers for keys in turn: where each page is once the keys up to it have been
      promoted. */
  function Answers(cfg: P2P.Config, s: P2P.Store, keys: seq<string>): seq<Hit> {
    if keys == [] then []
    else
      var n := |keys| - 1;
      Answers(cfg, s, keys[..n]) + [HitAt(cfg, P2P.PromoteLoop(cfg, s, keys).0.pool.entries, keys[n])]
  }

  lemma PromoteLoopNext(cfg: P2P.Config, s: P2P.Store, keys: seq<string>, i: nat)
    requires i < |keys|
    ensures var r := P2P.PromoteLoop(cfg, s, keys[..i]);
            P2P.PromoteLoop(cfg, s, keys[..i + 1]) == P2P.PromoteNext(cfg, r.0, r.1, keys[i])
    ensures Answers(cfg, s, keys[..i + 1]) ==
            Answers(cfg, s, keys[..i]) + [HitAt(cfg, P2P.PromoteLoop(cfg, s, keys[..i + 1]).0.pool.entries, keys[i])]
  {
    assert keys[..i + 1][..i] == keys[..i];
  }

  /** Whether the batch reports key j as published: the directory knew it beforehand, or
      the pool took the page when its turn came. */
  predicate Reported(cfg: P2P.Config, s: P2P.Store, existing: set<string>, keys: seq<string>, j: nat)
    requires j < |keys|
  {
    keys[j] in existing || P2P.Publish(cfg, P2P.PublishLoop(cfg, s, existing, keys[..j]).store, keys[j]).1 >= 0
  }

  predicate AllReported(cfg: P2P.Config, s: P2P.Store, existing: set<string>, keys: seq<string>, results: seq<bool>) {
    |results| <= |keys| && forall j | 0 <= j < |results| :: results[j] == Reported(cfg, s, existing, keys, j)
  }

  lemma ReportNext(cfg: P2P.Config, s: P2P.Store, existing: set<string>, keys: seq<string>, results: seq<bool>, ok: bool)
    requires AllReported(cfg, s, existing, keys, results) && |results| < |keys|
    requires ok == Reported(cfg, s, existing, keys, |results|)
    ensures AllReported(cfg, s, existing, keys, results + [ok])
  {
  }

  /** Looking a page up moves it in the order but not in memory. */
  lemma TouchedHit(cfg: P2P.Config, p: Pool, key: string)
    requires DistinctKeys(p.entries)
    ensures HitAt(cfg, Looked(p, key).entries, key) == HitAt(cfg, p.entries, key)
  {
    P2P.LookedSame(p, key);
    FindSame(p.entries, Looked(p, key).entries, key);
  }

  /** A page that was not resident is where it was placed, or nowhere. */
  lemma PlacedHit(cfg: P2P.Config, p: Pool, key: string, len: nat)
    requires Find(p.entries, key) < 0
    ensures var a := Reserve(p, key, len);
            HitAt(cfg, a.pool.entries, key) == if a.off < 0 then Miss else Hit(P2P.Resident(cfg, a.off, len))
  {
    T.AllocateEntries(p, len);
    var es := Reserve(p, key, len).pool.entries;
    assert forall i | 0 <= i < |es| :: es[i] in es;
  }

  lemma PublishHit(cfg: P2P.Config, s: P2P.Store, key: string)
    requires Find(s.pool.entries, key) < 0
    ensures var r := P2P.Publish(cfg, s, key);
            HitAt(cfg, r.0.pool.entries, key) == if r.1 < 0 then Miss else Hit(P2P.Resident(cfg, r.1, |cfg.page(key)|))
  {
    PlacedHit(cfg, s.pool, key, |cfg.page(key)|);
  }

  /** entries are the reconciled entries of the keys done so far. */
  ghost predicate SoFar(cfg: P2P.Config, b: P2P.Batch, done: seq<string>, entries: map<string, Location>) {
    && (forall k :: k in entries <==> k in done)
    && forall k | k in entries :: k in b.staged && entries[k] == P2P.ReconciledEntry(cfg, b.store, k, b.staged[k])
  }

  lemma SoFarNext(cfg: P2P.Config, b: P2P.Batch, done: seq<string>, entries: map<string, Location>, key: string)
    requires SoFar(cfg, b, done, entries) && key in b.staged
    ensures SoFar(cfg, b, done + [key], entries[key := P2P.ReconciledEntry(cfg, b.store, key, b.staged[key])])
  {
  }

  lemma ReconciledAll(cfg: P2P.Config, b: P2P.Batch, entries: map<string, Location>)
    requires SoFar(cfg, b, b.order, entries) && ListedOnce(b)
    ensures entries == P2P.Reconciled(cfg, b)
  {
  }

  /** Touching pages meanwhile does not change what an entry reconciles to. */
  lemma TouchReconciles(cfg: P2P.Config, s: P2P.Store, touched: seq<string>, key: string, loc: Location)
    requires DistinctKeys(s.pool.entries)
    ensures P2P.ReconciledEntry(cfg, s.(pool := P2P.Touch(s.pool, touched)), key, loc) == P2P.ReconciledEntry(cfg, s, key, loc)
  {
    P2P.TouchSame(s.pool, touched);
    FindSame(s.pool.entries, P2P.Touch(s.pool, touched).entries, key);
  }

  /** Every staged key is listed, and listed once. */
  ghost predicate ListedOnce(b: P2P.Batch) {
    && (forall k :: k in b.order <==> k in b.staged)
    && forall i, j | 0 <= i < j < |b.order| :: b.order[i] != b.order[j]
  }

  lemma LoopNext(cfg: P2P.Config, s: P2P.Store, existing: set<string>, keys: seq<string>, i: nat)
    requires i < |keys|
    ensures P2P.PublishLoop(cfg, s, existing, keys[..i + 1]) ==
            P2P.PublishNext(cfg, P2P.PublishLoop(cfg, s, existing, keys[..i]), existing, keys[i])
  {
    assert keys[..i + 1][..i] == keys[..i];
  }

  lemma NextListed(cfg: P2P.Config, b: P2P.Batch, existing: set<string>, key: string)
    requires ListedOnce(b)
    ensures ListedOnce(P2P.PublishNext(cfg, b, existing, key))
  {
    assert forall i | 0 <= i < |b.order| :: b.order[i] in b.order;
  }

  lemma {:induction false} LoopListed(cfg: P2P.Config, s: P2P.Store, existing: set<string>, keys: seq<string>)
    ensures ListedOnce(P2P.PublishLoop(cfg, s, existing, keys))
  {
    if keys != [] {
      LoopListed(cfg, s, existing, keys[..|keys| - 1]);
      NextListed(cfg, P2P.PublishLoop(cfg, s, existing, keys[..|keys| - 1]), existing, keys[|keys| - 1]);
    }
  }
}
