/** The peer-to-peer publish path of python/peercache/store.py: what publishing, promoting,
    republishing and clearing do to this node's pool and to the directory, and why every
    resident directory entry naming this node tells the truth. The directory is the one
    flat map that its shards stand for while the ring is fixed and calls succeed. */
module P2P {
  import opened Bytes
  import opened PoolValue
  import T = PoolTiling
  import L = PoolLru

  /** DataLocation, as far as a reader depends on it. */
  datatype Location = Location(node: string, addr: int, len: nat, resident: bool)

  /** This node's id, its pool's base address, whether it has a disk tier, and the page
      that each key stands for. */
  datatype Config = Config(me: string, base: nat, disk: bool, page: string -> seq<Byte>)

  datatype Store = Store(
    pool: Pool,
    mem: seq<Byte>,
    dir: map<string, Location>,
    keyLen: map<string, nat>,
    onDisk: set<string>)

  function Resident(cfg: Config, off: int, len: nat): Location {
    Location(cfg.me, cfg.base + off, len, true)
  }

  function Spilled(cfg: Config, len: nat): Location {
    Location(cfg.me, 0, len, false)
  }

  // ---------------------------------------------------------------- operations

  /** _on_pool_evict: drop the entries, or mark them non-resident when a disk copy and a
      known length remain. */
  function OnPoolEvict(cfg: Config, s: Store, evicted: set<string>): Store {
    if !cfg.disk then s.(dir := s.dir - evicted)
    else s.(dir := s.dir + map k | k in evicted && k in s.keyLen :: Spilled(cfg, s.keyLen[k]))
  }

  /** _on_disk_evict: forget the lengths and drop the entries. */
  function OnDiskEvict(s: Store, evicted: set<string>): Store {
    s.(keyLen := s.keyLen - evicted, dir := s.dir - evicted, onDisk := s.onDisk - evicted)
  }

  function AsSet(keys: seq<string>): set<string> {
    set k | k in keys
  }

  /** Publish one page into the pool, callback included; the offset is -1 when it cannot
      fit. */
  function Publish(cfg: Config, s: Store, key: string): (Store, int) {
    var a := Reserve(s.pool, key, |cfg.page(key)|);
    var s' := s.(pool := a.pool, mem := T.Published(s.pool, s.mem, key, cfg.page(key)));
    (OnPoolEvict(cfg, s', AsSet(a.evicted)), a.off)
  }

  /** Note the length and the write-through of a page just published. */
  function Noted(cfg: Config, s: Store, key: string): Store {
    s.(keyLen := s.keyLen[key := |cfg.page(key)|], onDisk := if cfg.disk then s.onDisk + {key} else s.onDisk)
  }

  /** The publishing loop of _publish_p2p. `existing` was answered by the directory before
      the loop; `staged` collects the entries to put, in insertion order. */
  datatype Batch = Batch(store: Store, staged: map<string, Location>, order: seq<string>)

  function PublishNext(cfg: Config, b: Batch, existing: set<string>, key: string): Batch {
    if key in existing then b
    else
      var r := Publish(cfg, b.store, key);
      if r.1 < 0 then b.(store := r.0)
      else Batch(Noted(cfg, r.0, key), b.staged[key := Resident(cfg, r.1, |cfg.page(key)|)],
                 if key in b.staged then b.order else b.order + [key])
  }

  function PublishLoop(cfg: Config, s: Store, existing: set<string>, keys: seq<string>): Batch {
    if keys == [] then Batch(s, map[], [])
    else PublishNext(cfg, PublishLoop(cfg, s, existing, keys[..|keys| - 1]), existing, keys[|keys| - 1])
  }

  /** The reconcile pass: address_of each staged key, in order. */
  function Touch(pool: Pool, keys: seq<string>): Pool {
    if keys == [] then pool else Looked(Touch(pool, keys[..|keys| - 1]), keys[|keys| - 1])
  }

  /** What the pass makes of one entry: the page's present address, or non-resident. */
  function ReconciledEntry(cfg: Config, s: Store, k: string, loc: Location): Location {
    var i := Find(s.pool.entries, k);
    if i >= 0 then loc.(addr := cfg.base + s.pool.entries[i].off)
    else Spilled(cfg, if k in s.keyLen then s.keyLen[k] else loc.len)
  }

  function Reconciled(cfg: Config, b: Batch): map<string, Location> {
    map k | k in b.staged :: ReconciledEntry(cfg, b.store, k, b.staged[k])
  }

  /** _publish_p2p with directory update. */
  function PublishBatch(cfg: Config, s: Store, keys: seq<string>): Store {
    var b := PublishLoop(cfg, s, s.dir.Keys, keys);
    b.store.(pool := Touch(b.store.pool, b.order), dir := b.store.dir + Reconciled(cfg, b))
  }

  /** One key of _ensure_resident: a resident page is touched, a page on disk is promoted. */
  function PromoteNext(cfg: Config, s: Store, promoted: map<string, Location>, key: string): (Store, map<string, Location>) {
    if Find(s.pool.entries, key) >= 0 then (s.(pool := Looked(s.pool, key)), promoted)
    else if !cfg.disk || key !in s.onDisk then (s, promoted)
    else
      var r := Publish(cfg, s, key);
      if r.1 < 0 then (r.0, promoted)
      else (r.0.(keyLen := r.0.keyLen[key := |cfg.page(key)|]), promoted[key := Resident(cfg, r.1, |cfg.page(key)|)])
  }

  function PromoteLoop(cfg: Config, s: Store, keys: seq<string>): (Store, map<string, Location>) {
    if keys == [] then (s, map[])
    else
      var r := PromoteLoop(cfg, s, keys[..|keys| - 1]);
      PromoteNext(cfg, r.0, r.1, keys[|keys| - 1])
  }

  /** _ensure_resident, which puts the promoted entries without a reconcile pass. */
  function EnsureResident(cfg: Config, s: Store, keys: seq<string>): Store {
    var r := PromoteLoop(cfg, s, keys);
    r.0.(dir := r.0.dir + r.1)
  }

  /** _republish_directory: every pool page as resident, every other known page as spilled. */
  function Republish(cfg: Config, s: Store): Store {
    var pages := PageEntries(cfg, s.pool.entries);
    s.(dir := s.dir + (if cfg.disk then DiskOnly(cfg, s.keyLen, pages) else map[]) + pages)
  }

  /** The pages of the pool as directory entries, in the order of the snapshot. */
  function PageEntries(cfg: Config, es: seq<Entry>): map<string, Location> {
    if es == [] then map[]
    else
      var e := es[|es| - 1];
      PageEntries(cfg, es[..|es| - 1])[e.key := Resident(cfg, e.off, e.len)]
  }

  /** The keys this node has put that are not in its pool: they are only on disk. */
  function DiskOnly(cfg: Config, keyLen: map<string, nat>, pages: map<string, Location>): map<string, Location> {
    map k | k in keyLen && k !in pages :: Spilled(cfg, keyLen[k])
  }

  lemma {:induction false} PageEntriesSpec(cfg: Config, es: seq<Entry>, k: string)
    ensures var i := Find(es, k);
            if i < 0 then k !in PageEntries(cfg, es)
            else k in PageEntries(cfg, es) && PageEntries(cfg, es)[k] == Resident(cfg, es[i].off, es[i].len)
  {
    if es != [] {
      PageEntriesSpec(cfg, es[..|es| - 1], k);
    }
  }

  /** Everything this node knows about: noted lengths and pooled pages. */
  ghost predicate IsKnown(s: Store, keys: seq<string>) {
    AsSet(keys) == s.keyLen.Keys + AsSet(Keys(s.pool.entries))
  }

  function RemoveAll(pool: Pool, keys: seq<string>): Pool {
    if keys == [] then pool else Removed(RemoveAll(pool, keys[..|keys| - 1]), keys[|keys| - 1])
  }

  /** clear(): forget every key known to this node. `keys` lists them in some order. */
  function Clear(s: Store, keys: seq<string>): Store {
    s.(pool := RemoveAll(s.pool, keys), dir := s.dir - AsSet(keys), keyLen := map[], onDisk := s.onDisk - AsSet(keys))
  }

  // ---------------------------------------------------------------- coherence

  /** Entry e is key k's page, whole, at the address and length that loc states. */
  predicate Backs(cfg: Config, mem: seq<Byte>, e: Entry, k: string, loc: Location) {
    && e.key == k && loc.addr == cfg.base + e.off && loc.len == e.len
    && e.off + e.len <= |mem| && T.PageBytes(mem, e) == cfg.page(k)
  }

  predicate Claims(cfg: Config, s: Store, k: string) {
    k in s.dir && s.dir[k].node == cfg.me && s.dir[k].resident
  }

  predicate Truthful(cfg: Config, s: Store, k: string) {
    Claims(cfg, s, k) ==> exists e | e in s.pool.entries :: Backs(cfg, s.mem, e, k, s.dir[k])
  }

  /** Every resident entry naming this node gives the address and length of a page that is
      now in its pool and holds that key's bytes. */
  ghost predicate Coherent(cfg: Config, s: Store) {
    forall k :: Truthful(cfg, s, k)
  }

  /** Every page in the pool is the page of its key. */
  predicate Faithful(cfg: Config, s: Store) {
    forall e | e in s.pool.entries ::
      e.len == |cfg.page(e.key)| && e.off + e.len <= |s.mem| && T.PageBytes(s.mem, e) == cfg.page(e.key)
  }

  /** The length of every page claimed here is known, as its eviction to disk needs. */
  predicate ClaimsKnown(cfg: Config, s: Store) {
    cfg.disk ==> forall k | k in s.dir && Claims(cfg, s, k) :: k in s.keyLen
  }

  ghost predicate PoolInv(cfg: Config, s: Store) {
    && (exists layout :: T.Tiled(s.pool, layout))
    && |s.mem| == s.pool.capacity
    && Faithful(cfg, s)
  }

  ghost predicate Inv(cfg: Config, s: Store) {
    PoolInv(cfg, s) && Coherent(cfg, s) && ClaimsKnown(cfg, s)
  }

  /** Publishing keeps every pooled page the page of its key. */
  lemma PublishKeepsPool(cfg: Config, s: Store, key: string)
    requires PoolInv(cfg, s)
    ensures var (s', off) := Publish(cfg, s, key);
            && PoolInv(cfg, s') && s'.pool.capacity == s.pool.capacity
            && (forall e | e in s'.pool.entries :: e in s.pool.entries || (e.key == key && off == e.off))
  {
    var data := cfg.page(key);
    var layout :| T.Tiled(s.pool, layout);
    var layout' := T.ReserveKeeps(s.pool, layout, key, |data|);
    var s' := Publish(cfg, s, key).0;
    assert T.Tiled(s'.pool, layout');
    T.AllocateEntries(s.pool, |data|);
    T.EntriesNeverMove(s.pool, key, |data|);
    forall e | e in s'.pool.entries
      ensures e.len == |cfg.page(e.key)| && e.off + e.len <= |s'.mem| && T.PageBytes(s'.mem, e) == cfg.page(e.key)
    {
      T.PublishIsStable(s.pool, layout, s.mem, key, data, e);
    }
  }

  /** Whoever leaves the pool during a publish is reported as evicted. */
  lemma LeaversAreEvicted(p: Pool, key: string, len: nat, e: Entry)
    requires e in p.entries
    ensures e in Reserve(p, key, len).pool.entries || e.key in AsSet(Reserve(p, key, len).evicted)
  {
    if Find(p.entries, key) >= 0 {
      var j := Find(p.entries, key);
      assert p.entries == p.entries[..j] + [p.entries[j]] + p.entries[j + 1..];
    } else {
      LeaversOfNewPage(p, key, len, e);
    }
  }

  lemma LeaversOfNewPage(p: Pool, key: string, len: nat, e: Entry)
    requires e in p.entries && Find(p.entries, key) < 0
    ensures e in Reserve(p, key, len).pool.entries || e.key in AsSet(Reserve(p, key, len).evicted)
  {
    ReserveEvictsPrefix(p, key, len);
    var a := Reserve(p, key, len);
    var n := |a.evicted|;
    assert p.entries == p.entries[..n] + p.entries[n..];
    if e in p.entries[..n] {
      var i :| 0 <= i < n && p.entries[i] == e;
      assert a.evicted[i] == e.key;
    }
  }

  /** Publishing keeps every claim truthful: a page either stays put or is disclaimed. */
  lemma PublishCoherent(cfg: Config, s: Store, key: string)
    requires Inv(cfg, s)
    ensures Inv(cfg, Publish(cfg, s, key).0)
  {
    var s' := Publish(cfg, s, key).0;
    PublishKeepsPool(cfg, s, key);
    forall k ensures Truthful(cfg, s', k) {
      if Claims(cfg, s', k) {
        assert Truthful(cfg, s, k);
        assert Claims(cfg, s, k);
        var e :| e in s.pool.entries && Backs(cfg, s.mem, e, k, s.dir[k]);
        LeaversAreEvicted(s.pool, key, |cfg.page(key)|, e);
        assert e in s'.pool.entries;
        assert Backs(cfg, s'.mem, e, k, s'.dir[k]);
      }
    }
  }

  // ---------------------------------------------------------------- publish batches

  /** Recording more lengths and disk copies does not touch what coherence is about. */
  lemma RecordKeeps(cfg: Config, s: Store, keyLen: map<string, nat>, onDisk: set<string>)
    requires Inv(cfg, s) && s.keyLen.Keys <= keyLen.Keys
    ensures Inv(cfg, s.(keyLen := keyLen, onDisk := onDisk))
  {
    var s' := s.(keyLen := keyLen, onDisk := onDisk);
    forall k ensures Truthful(cfg, s', k) {
      assert Truthful(cfg, s, k);
    }
    assert forall k | k in s'.dir && Claims(cfg, s', k) :: Claims(cfg, s, k);
  }

  ghost predicate BatchInv(cfg: Config, b: Batch) {
    && Inv(cfg, b.store)
    && StagedOk(cfg, b.store.keyLen, b.staged)
  }

  /** Entries about to be put carry this node, the key's length and residence, and their
      lengths have been noted. */
  predicate StagedOk(cfg: Config, keyLen: map<string, nat>, staged: map<string, Location>) {
    forall k | k in staged :: k in keyLen && staged[k] == Location(cfg.me, staged[k].addr, |cfg.page(k)|, true)
  }

  lemma {:induction false} PublishLoopKeeps(cfg: Config, s: Store, existing: set<string>, keys: seq<string>)
    requires Inv(cfg, s)
    ensures BatchInv(cfg, PublishLoop(cfg, s, existing, keys))
  {
    if keys != [] {
      var b, key := PublishLoop(cfg, s, existing, keys[..|keys| - 1]), keys[|keys| - 1];
      PublishLoopKeeps(cfg, s, existing, keys[..|keys| - 1]);
      PublishCoherent(cfg, b.store, key);
      var t := Publish(cfg, b.store, key).0;
      RecordKeeps(cfg, t, Noted(cfg, t, key).keyLen, Noted(cfg, t, key).onDisk);
    }
  }

  lemma LookedSame(p: Pool, key: string)
    ensures forall e :: e in Looked(p, key).entries <==> e in p.entries
    ensures Looked(p, key).capacity == p.capacity
  {
    var j := Find(p.entries, key);
    if j >= 0 {
      assert p.entries == p.entries[..j] + [p.entries[j]] + p.entries[j + 1..];
    }
  }

  lemma {:induction false} TouchSame(p: Pool, keys: seq<string>)
    ensures forall e :: e in Touch(p, keys).entries <==> e in p.entries
    ensures Touch(p, keys).capacity == p.capacity
  {
    if keys != [] {
      var before := keys[..|keys| - 1];
      TouchSame(p, before);
      LookedSame(Touch(p, before), keys[|keys| - 1]);
    }
  }

  lemma {:induction false} TouchKeepsTiled(p: Pool, keys: seq<string>, layout: seq<nat>)
    requires T.Tiled(p, layout)
    ensures T.Tiled(Touch(p, keys), layout)
  {
    if keys != [] {
      TouchKeepsTiled(p, keys[..|keys| - 1], layout);
      T.LookedKeeps(Touch(p, keys[..|keys| - 1]), layout, keys[|keys| - 1]);
    }
  }

  /** A reordering of the pool changes nothing that coherence depends on. */
  lemma ReorderKeeps(cfg: Config, s: Store, pool: Pool, layout: seq<nat>)
    requires Inv(cfg, s) && pool.capacity == s.pool.capacity && T.Tiled(pool, layout)
    requires forall e :: e in pool.entries <==> e in s.pool.entries
    ensures Inv(cfg, s.(pool := pool))
  {
    forall k ensures Truthful(cfg, s.(pool := pool), k) {
      assert Truthful(cfg, s, k);
    }
  }

  /** Adding entries that are truthful and of known length, or claim no residence, keeps the
      directory coherent. */
  lemma PutKeeps(cfg: Config, s: Store, entries: map<string, Location>)
    requires Inv(cfg, s)
    requires forall k | k in entries && entries[k].node == cfg.me && entries[k].resident ::
               (cfg.disk ==> k in s.keyLen) && exists e | e in s.pool.entries :: Backs(cfg, s.mem, e, k, entries[k])
    ensures Inv(cfg, s.(dir := s.dir + entries))
  {
    var s' := s.(dir := s.dir + entries);
    forall k ensures Truthful(cfg, s', k) && (cfg.disk && Claims(cfg, s', k) ==> k in s'.keyLen) {
      assert Truthful(cfg, s, k);
      assert Claims(cfg, s', k) && k !in entries ==> Claims(cfg, s, k);
    }
  }

  /** A publish batch keeps the directory truthful, even when it evicts its own pages. */
  lemma PublishBatchCoherent(cfg: Config, s: Store, keys: seq<string>)
    requires Inv(cfg, s)
    ensures Inv(cfg, PublishBatch(cfg, s, keys))
  {
    var b := PublishLoop(cfg, s, s.dir.Keys, keys);
    PublishLoopKeeps(cfg, s, s.dir.Keys, keys);
    var entries := Reconciled(cfg, b);
    forall k | k in entries && entries[k].resident
      ensures exists e | e in b.store.pool.entries :: Backs(cfg, b.store.mem, e, k, entries[k])
    {
      var e := b.store.pool.entries[Find(b.store.pool.entries, k)];
      assert e in b.store.pool.entries;
      assert Backs(cfg, b.store.mem, e, k, entries[k]);
    }
    PutKeeps(cfg, b.store, entries);
    var layout :| T.Tiled(b.store.pool, layout);
    TouchSame(b.store.pool, b.order);
    TouchKeepsTiled(b.store.pool, b.order, layout);
    ReorderKeeps(cfg, b.store.(dir := b.store.dir + entries), Touch(b.store.pool, b.order), layout);
  }
}
