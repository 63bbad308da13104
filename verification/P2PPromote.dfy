/** Promotes from disk without a reconcile pass: when they leave the directory truthful. */
module P2PPromote {
  import opened Sequences
  import opened PoolValue
  import T = PoolTiling
  import L = PoolLru
  import opened P2P

  // ---------------------------------------------------------------- what the loop keeps

  /** What the promote loop knows: promoted entries carry the key's length, and an address
      that is right as long as the page is still pooled. */
  ghost predicate PromoteInv(cfg: Config, s: Store, promoted: map<string, Location>) {
    Inv(cfg, s) && StagedOk(cfg, s.keyLen, promoted) && AddressesOk(cfg, s.pool.entries, promoted)
  }

  predicate AddressesOk(cfg: Config, es: seq<Entry>, promoted: map<string, Location>) {
    forall e | e in es && e.key in promoted :: promoted[e.key].addr == cfg.base + e.off
  }

  lemma PromoteNextKeeps(cfg: Config, s: Store, promoted: map<string, Location>, key: string)
    requires PromoteInv(cfg, s, promoted)
    ensures var r := PromoteNext(cfg, s, promoted, key); PromoteInv(cfg, r.0, r.1)
  {
    if Find(s.pool.entries, key) >= 0 {
      var layout :| T.Tiled(s.pool, layout);
      LookedSame(s.pool, key);
      T.LookedKeeps(s.pool, layout, key);
      ReorderKeeps(cfg, s, Looked(s.pool, key), layout);
    } else if cfg.disk && key in s.onDisk {
      PromoteKeepsInv(cfg, s, promoted, key);
      PromoteKeepsEntries(cfg, s, promoted, key);
    }
  }

  lemma PromoteKeepsInv(cfg: Config, s: Store, promoted: map<string, Location>, key: string)
    requires Inv(cfg, s) && Find(s.pool.entries, key) < 0 && cfg.disk && key in s.onDisk
    ensures Inv(cfg, PromoteNext(cfg, s, promoted, key).0)
  {
    PublishCoherent(cfg, s, key);
    var t := Publish(cfg, s, key).0;
    RecordKeeps(cfg, t, t.keyLen[key := |cfg.page(key)|], t.onDisk);
  }

  lemma PromoteKeepsEntries(cfg: Config, s: Store, promoted: map<string, Location>, key: string)
    requires StagedOk(cfg, s.keyLen, promoted) && AddressesOk(cfg, s.pool.entries, promoted)
    requires Find(s.pool.entries, key) < 0 && cfg.disk && key in s.onDisk
    ensures var r := PromoteNext(cfg, s, promoted, key); StagedOk(cfg, r.0.keyLen, r.1) && AddressesOk(cfg, r.0.pool.entries, r.1)
  {
    T.EntriesNeverMove(s.pool, key, |cfg.page(key)|);
  }

  lemma {:induction false} PromoteLoopKeeps(cfg: Config, s: Store, keys: seq<string>)
    requires Inv(cfg, s)
    ensures var r := PromoteLoop(cfg, s, keys); PromoteInv(cfg, r.0, r.1)
  {
    if keys != [] {
      PromoteLoopKeeps(cfg, s, keys[..|keys| - 1]);
      var r := PromoteLoop(cfg, s, keys[..|keys| - 1]);
      PromoteNextKeeps(cfg, r.0, r.1, keys[|keys| - 1]);
    }
  }

  /** The pages the loop promoted are still pooled when it ends. */
  predicate PromotesStay(cfg: Config, s: Store, keys: seq<string>) {
    var r := PromoteLoop(cfg, s, keys);
    forall k | k in r.1 :: Find(r.0.pool.entries, k) >= 0
  }

  lemma StayingIsCoherent(cfg: Config, s: Store, keys: seq<string>)
    requires Inv(cfg, s) && PromotesStay(cfg, s, keys)
    ensures Inv(cfg, EnsureResident(cfg, s, keys))
  {
    PromoteLoopKeeps(cfg, s, keys);
    var (s', promoted) := PromoteLoop(cfg, s, keys);
    forall k | k in promoted ensures exists e | e in s'.pool.entries :: Backs(cfg, s'.mem, e, k, promoted[k]) {
      var e := s'.pool.entries[Find(s'.pool.entries, k)];
      assert e in s'.pool.entries;
      assert Backs(cfg, s'.mem, e, k, promoted[k]);
    }
    PutKeeps(cfg, s', promoted);
  }

  lemma CoherentIsStaying(cfg: Config, s: Store, keys: seq<string>)
    requires Inv(cfg, s) && Coherent(cfg, EnsureResident(cfg, s, keys))
    ensures PromotesStay(cfg, s, keys)
  {
    PromoteLoopKeeps(cfg, s, keys);
    var (s', promoted) := PromoteLoop(cfg, s, keys);
    var after := EnsureResident(cfg, s, keys);
    forall k | k in promoted ensures Find(s'.pool.entries, k) >= 0 {
      assert Truthful(cfg, after, k) && Claims(cfg, after, k);
      var e :| e in s'.pool.entries && Backs(cfg, s'.mem, e, k, promoted[k]);
      var i :| 0 <= i < |s'.pool.entries| && s'.pool.entries[i] == e;
    }
  }

  /** A single-key promote is always safe. */
  lemma SinglePromoteCoherent(cfg: Config, s: Store, key: string)
    requires Inv(cfg, s)
    ensures Inv(cfg, EnsureResident(cfg, s, [key]))
  {
    var keys := [key];
    assert keys[..0] == [] && keys[0] == key;
    assert PromoteLoop(cfg, s, []) == (s, map[]);
    var r := PromoteLoop(cfg, s, keys);
    assert r == PromoteNext(cfg, s, map[], key);
    if key in r.1 {
      var a := Reserve(s.pool, key, |cfg.page(key)|);
      assert a.off >= 0 && r.0.pool == a.pool;
      assert a.pool.entries[|a.pool.entries| - 1].key == key;
    }
    StayingIsCoherent(cfg, s, keys);
  }

  // ---------------------------------------------------------------- one page length: the LRU view

  /** A promote call on the order of keys alone: hits are touched, keys on disk inserted.
      The second component collects the keys inserted. */
  function LruPromote(order: seq<string>, slots: nat, onDisk: set<string>, keys: seq<string>): (seq<string>, set<string>) {
    if keys == [] then (order, {})
    else
      var k := keys[|keys| - 1];
      var r := LruPromote(order, slots, onDisk, keys[..|keys| - 1]);
      if k in r.0 then (L.LruTouch(r.0, k), r.1)
      else if k !in onDisk || slots == 0 then r
      else (L.LruAdd(r.0, slots, k), r.1 + {k})
  }

  /** One page length throughout: the pool's pages and the pages to be promoted. */
  predicate OneLength(cfg: Config, s: Store, keys: seq<string>, len: nat, slots: nat) {
    && L.Uniform(s.pool, len) && L.IsSlots(s.pool.capacity, len, slots)
    && forall k | k in keys :: |cfg.page(k)| == len
  }

  /** The keys a promote can load. */
  function Loadable(cfg: Config, s: Store): set<string> {
    if cfg.disk then s.onDisk else {}
  }

  lemma PromoteNextIsLru(cfg: Config, s: Store, promoted: map<string, Location>, k: string, len: nat, slots: nat)
    requires L.Uniform(s.pool, len) && L.IsSlots(s.pool.capacity, len, slots) && |cfg.page(k)| == len
    ensures var r, order := PromoteNext(cfg, s, promoted, k), Keys(s.pool.entries);
            && L.Uniform(r.0.pool, len) && r.0.pool.capacity == s.pool.capacity && r.0.onDisk == s.onDisk
            && Keys(r.0.pool.entries) ==
               (if k in order then L.LruTouch(order, k)
                else if k !in Loadable(cfg, s) then order else L.LruAdd(order, slots, k))
            && r.1.Keys == promoted.Keys + if k in order || k !in Loadable(cfg, s) || slots == 0 then {} else {k}
  {
    L.FindIffKey(s.pool.entries, k);
    if Find(s.pool.entries, k) >= 0 {
      L.LookedIsLruTouch(s.pool, len, k);
    } else {
      L.ReserveIsLruAdd(s.pool, len, slots, k);
    }
  }

  /** The loop does to the pool's order what the abstract call does, and promotes the same
      keys. */
  lemma {:induction false} PromoteLoopIsLru(cfg: Config, s: Store, keys: seq<string>, len: nat, slots: nat)
    requires OneLength(cfg, s, keys, len, slots)
    ensures var r, q := PromoteLoop(cfg, s, keys), LruPromote(Keys(s.pool.entries), slots, Loadable(cfg, s), keys);
            && L.Uniform(r.0.pool, len) && r.0.pool.capacity == s.pool.capacity && r.0.onDisk == s.onDisk
            && Keys(r.0.pool.entries) == q.0 && r.1.Keys == q.1
  {
    if keys != [] {
      var front := keys[..|keys| - 1];
      PromoteLoopIsLru(cfg, s, front, len, slots);
      var r := PromoteLoop(cfg, s, front);
      PromoteNextIsLru(cfg, r.0, r.1, keys[|keys| - 1], len, slots);
    }
  }

  /** Whether the keys a call inserts are all there when it ends, decided on the order of
      keys in the pool, the number of slots and the keys on disk. */
  predicate LruKeeps(order: seq<string>, slots: nat, onDisk: set<string>, keys: seq<string>) {
    var q := LruPromote(order, slots, onDisk, keys);
    forall k | k in q.1 :: k in q.0
  }

  /** With one page length, a promote call of any keys leaves the directory truthful exactly
      when an LRU cache of that many slots, run on the keys alone, keeps what it inserts. */
  lemma PromoteCoherentIff(cfg: Config, s: Store, keys: seq<string>, len: nat, slots: nat)
    requires Inv(cfg, s) && OneLength(cfg, s, keys, len, slots)
    ensures Coherent(cfg, EnsureResident(cfg, s, keys)) <==> LruKeeps(Keys(s.pool.entries), slots, Loadable(cfg, s), keys)
  {
    PromoteLoopIsLru(cfg, s, keys, len, slots);
    var r := PromoteLoop(cfg, s, keys);
    forall k ensures Find(r.0.pool.entries, k) >= 0 <==> k in Keys(r.0.pool.entries) {
      L.FindIffKey(r.0.pool.entries, k);
    }
    assert PromotesStay(cfg, s, keys) <==> LruKeeps(Keys(s.pool.entries), slots, Loadable(cfg, s), keys);
    if PromotesStay(cfg, s, keys) {
      StayingIsCoherent(cfg, s, keys);
    }
    if Coherent(cfg, EnsureResident(cfg, s, keys)) {
      CoherentIsStaying(cfg, s, keys);
    }
  }

  // ---------------------------------------------------------------- closed forms

  /** From n on the order holds keys of the call only, among them everything it inserted. */
  ghost predicate RecentFrom(q: (seq<string>, set<string>), n: nat, keys: seq<string>) {
    && n <= |q.0|
    && (forall k | k in q.0[n..] :: k in keys)
    && (forall k | k in q.1 :: k in q.0[n..])
  }

  lemma Halves(a: seq<string>, b: seq<string>)
    requires NoRepeats(a + b)
    ensures NoRepeats(a) && NoRepeats(b) && forall x | x in a :: x !in b
  {
    var s := a + b;
    assert forall i | 0 <= i < |a| :: s[i] == a[i];
    assert forall i | 0 <= i < |b| :: s[|a| + i] == b[i];
  }

  lemma TouchLate(a: seq<string>, b: seq<string>, k: string)
    requires NoRepeats(a + b) && k in b
    ensures Without(a + b, k) + [k] == a + (Without(b, k) + [k])
  {
    Halves(a, b);
    WithoutConcat(a, b, k);
    WithoutAbsent(a, k);
  }

  lemma TouchEarly(a: seq<string>, b: seq<string>, k: string)
    requires NoRepeats(a + b) && k in a
    ensures Without(a + b, k) + [k] == Without(a, k) + (b + [k]) && |Without(a, k)| == |a| - 1
  {
    Halves(a, b);
    WithoutConcat(a, b, k);
    WithoutAbsent(b, k);
    WithoutKeepsDistinct(a, k);
  }

  lemma TouchDistinct(order: seq<string>, k: string)
    requires NoRepeats(order) && k in order
    ensures NoRepeats(Without(order, k) + [k]) && |Without(order, k)| == |order| - 1
  {
    WithoutKeepsDistinct(order, k);
    WithoutSpec(order, k);
    var t := Without(order, k);
    assert forall i | 0 <= i < |t| :: t[i] in t;
  }

  /** Making k the most recent of an order. */
  lemma TouchRecent(order: seq<string>, n: nat, k: string)
    requires NoRepeats(order) && n <= |order| && k in order
    ensures var t, m := L.LruTouch(order, k), if k in order[n..] then n else n - 1;
            && NoRepeats(t) && |t| == |order| && 0 <= m <= |t|
            && forall x :: x in t[m..] <==> x in order[n..] || x == k
  {
    var a, b := order[..n], order[n..];
    assert order == a + b;
    TouchDistinct(order, k);
    if k in b {
      TouchLate(a, b, k);
      WithoutSpec(b, k);
      assert (a + (Without(b, k) + [k]))[n..] == Without(b, k) + [k];
    } else {
      TouchEarly(a, b, k);
      assert (Without(a, k) + (b + [k]))[n - 1..] == b + [k];
    }
  }

  /** Inserting k at the end of an order, pushing out the front when full. */
  lemma InsertRecent(order: seq<string>, slots: nat, n: nat, k: string)
    requires NoRepeats(order) && k !in order && |order| <= slots && slots > 0
    requires n <= |order| && (|order| == slots ==> n > 0)
    ensures var t, m := L.LruAdd(order, slots, k), if |order| < slots then n else n - 1;
            NoRepeats(t) && |t| <= slots && m <= |t| && t[m..] == order[n..] + [k]
  {
    assert forall i | 0 <= i < |order| :: order[i] != k;
  }

  lemma SubsetSize<T>(a: set<T>, b: set<T>)
    requires a <= b
    ensures |a| <= |b|
  {
    assert b == a + (b - a);
  }

  /** A full order that does not hold one of the call's keys holds a key of no interest to it. */
  lemma SomeOther(order: seq<string>, n: nat, keys: seq<string>, k: string)
    requires NoRepeats(order) && |order| >= |AsSet(keys)| && k in keys && k !in order && n <= |order|
    requires forall x | x in order[n..] :: x in keys
    ensures n > 0
  {
    if n == 0 {
      assert order[n..] == order;
      DistinctFits(order, AsSet(keys) - {k});
    }
  }

  /** A call of no more distinct keys than slots keeps what it inserts. */
  lemma {:induction false} FewKeysStay(order: seq<string>, slots: nat, onDisk: set<string>, keys: seq<string>) returns (n: nat)
    requires NoRepeats(order) && |order| <= slots && |AsSet(keys)| <= slots
    ensures var q := LruPromote(order, slots, onDisk, keys);
            NoRepeats(q.0) && |q.0| <= slots && RecentFrom(q, n, keys)
  {
    if keys == [] {
      n := |order|;
    } else {
      var front, k := keys[..|keys| - 1], keys[|keys| - 1];
      assert keys == front + [k];
      SubsetSize(AsSet(front), AsSet(keys));
      n := FewKeysStay(order, slots, onDisk, front);
      var q := LruPromote(order, slots, onDisk, front);
      if k in q.0 {
        TouchRecent(q.0, n, k);
        n := if k in q.0[n..] then n else n - 1;
      } else if k in onDisk && slots > 0 {
        if |q.0| == slots {
          SomeOther(q.0, n, keys, k);
        }
        InsertRecent(q.0, slots, n, k);
        n := if |q.0| < slots then n else n - 1;
      }
    }
  }

  /** When none of the keys is pooled and all are on disk, the call inserts them all. */
  lemma {:induction false} AllInserted(order: seq<string>, slots: nat, onDisk: set<string>, keys: seq<string>)
    requires slots > 0 && |order| <= slots && forall k | k in keys :: k in onDisk && k !in order
    ensures var q := LruPromote(order, slots, onDisk, keys);
            q.1 == AsSet(keys) && |q.0| <= slots && forall x | x in q.0 :: x in order || x in q.1
  {
    if keys != [] {
      var front, k := keys[..|keys| - 1], keys[|keys| - 1];
      assert keys == front + [k];
      AllInserted(order, slots, onDisk, front);
      var q := LruPromote(order, slots, onDisk, front);
      WithoutSpec(q.0, k);
      WithoutShorter(q.0, k);
    }
  }

  /** What a pool of one page length looks like as an order of keys. */
  lemma UniformOrder(p: Pool, len: nat, slots: nat)
    requires L.Uniform(p, len) && L.IsSlots(p.capacity, len, slots)
    ensures NoRepeats(Keys(p.entries)) && |p.entries| <= slots
  {
    L.RoomIff(p.capacity, len, slots, |p.entries| + |FreeList(p.free, len)|);
  }

  /** With one page length, promoting no more distinct keys than the pool has slots leaves
      the directory truthful, whatever is pooled or missing. */
  lemma FewPromotesCoherent(cfg: Config, s: Store, keys: seq<string>, len: nat, slots: nat)
    requires Inv(cfg, s) && OneLength(cfg, s, keys, len, slots) && |AsSet(keys)| <= slots
    ensures Inv(cfg, EnsureResident(cfg, s, keys))
  {
    UniformOrder(s.pool, len, slots);
    var n := FewKeysStay(Keys(s.pool.entries), slots, Loadable(cfg, s), keys);
    var q := LruPromote(Keys(s.pool.entries), slots, Loadable(cfg, s), keys);
    assert forall k | k in q.1 :: k in q.0[n..] && k in q.0;
    PromoteLoopIsLru(cfg, s, keys, len, slots);
    var r := PromoteLoop(cfg, s, keys);
    forall k | k in r.1 ensures Find(r.0.pool.entries, k) >= 0 {
      L.FindIffKey(r.0.pool.entries, k);
    }
    StayingIsCoherent(cfg, s, keys);
  }

  /** With one page length, promoting keys that are on disk and not pooled leaves the
      directory truthful exactly when the distinct ones among them fit into the pool
      together, or no page fits at all. */
  lemma FreshPromoteIff(cfg: Config, s: Store, keys: seq<string>, len: nat, slots: nat)
    requires Inv(cfg, s) && OneLength(cfg, s, keys, len, slots)
    requires forall k | k in keys :: k in Loadable(cfg, s) && Find(s.pool.entries, k) < 0
    ensures Coherent(cfg, EnsureResident(cfg, s, keys)) <==> slots == 0 || |AsSet(keys)| <= slots
  {
    var order := Keys(s.pool.entries);
    UniformOrder(s.pool, len, slots);
    PromoteCoherentIff(cfg, s, keys, len, slots);
    if |AsSet(keys)| <= slots {
      FewPromotesCoherent(cfg, s, keys, len, slots);
    } else if slots == 0 {
      NoSlots(order, Loadable(cfg, s), keys);
    } else {
      forall k | k in keys ensures k !in order {
        L.FindIffKey(s.pool.entries, k);
      }
      AllInserted(order, slots, Loadable(cfg, s), keys);
      var q := LruPromote(order, slots, Loadable(cfg, s), keys);
      if LruKeeps(order, slots, Loadable(cfg, s), keys) {
        SetFits(AsSet(keys), q.0);
      }
    }
  }

  lemma {:induction false} NoSlots(order: seq<string>, onDisk: set<string>, keys: seq<string>)
    ensures LruPromote(order, 0, onDisk, keys).1 == {}
  {
    if keys != [] {
      NoSlots(order, onDisk, keys[..|keys| - 1]);
    }
  }

  /** For example, two pages promoted into a pool of one slot leave a false claim. */
  lemma DoublePromoteLies(cfg: Config, s: Store, x: string, y: string, len: nat)
    requires Inv(cfg, s) && x != y && x in Loadable(cfg, s) && y in Loadable(cfg, s)
    requires OneLength(cfg, s, [x, y], len, 1) && Find(s.pool.entries, x) < 0 && Find(s.pool.entries, y) < 0
    ensures !Coherent(cfg, EnsureResident(cfg, s, [x, y]))
  {
    assert AsSet([x, y]) == {x, y};
    FreshPromoteIff(cfg, s, [x, y], len, 1);
  }

  // ---------------------------------------------------------------- any lengths

  function SumPages(cfg: Config, keys: seq<string>): nat {
    if keys == [] then 0 else SumPages(cfg, keys[..|keys| - 1]) + |cfg.page(keys[|keys| - 1])|
  }

  /** While there is room to carve, no promote evicts anything. */
  lemma {:induction false} RoomyPromotesStay(cfg: Config, s: Store, keys: seq<string>)
    requires s.pool.next + SumPages(cfg, keys) <= s.pool.capacity
    ensures var r := PromoteLoop(cfg, s, keys);
            && r.0.pool.capacity == s.pool.capacity && r.0.pool.next <= s.pool.next + SumPages(cfg, keys)
            && PromotesStay(cfg, s, keys)
  {
    if keys != [] {
      var front, k := keys[..|keys| - 1], keys[|keys| - 1];
      RoomyPromotesStay(cfg, s, front);
      var r := PromoteLoop(cfg, s, front);
      RoomyNext(cfg, r.0, r.1, k);
    }
  }

  lemma RoomyNext(cfg: Config, s: Store, promoted: map<string, Location>, k: string)
    requires s.pool.next + |cfg.page(k)| <= s.pool.capacity
    requires forall x | x in promoted :: Find(s.pool.entries, x) >= 0
    ensures var r := PromoteNext(cfg, s, promoted, k);
            && r.0.pool.capacity == s.pool.capacity && r.0.pool.next <= s.pool.next + |cfg.page(k)|
            && forall x | x in r.1 :: Find(r.0.pool.entries, x) >= 0
  {
    var r := PromoteNext(cfg, s, promoted, k);
    L.RoomAllocate(s.pool, |cfg.page(k)|);
    LookedSame(s.pool, k);
    forall x | x in r.1 ensures Find(r.0.pool.entries, x) >= 0 {
      if x in promoted {
        var e := s.pool.entries[Find(s.pool.entries, x)];
        assert e in s.pool.entries && e in r.0.pool.entries;
      } else {
        assert r.0.pool.entries[|r.0.pool.entries| - 1].key == x;
      }
    }
  }

  /** Whatever the lengths, promoting pages that together fit into the space not yet carved
      leaves the directory truthful. */
  lemma RoomyPromotesCoherent(cfg: Config, s: Store, keys: seq<string>)
    requires Inv(cfg, s) && s.pool.next + SumPages(cfg, keys) <= s.pool.capacity
    ensures Inv(cfg, EnsureResident(cfg, s, keys))
  {
    RoomyPromotesStay(cfg, s, keys);
    StayingIsCoherent(cfg, s, keys);
  }

  // ---------------------------------------------------------------- the guard

  /** What a caller can check before a promote call: one key; or one page length and no more
      distinct keys than slots; or room for all the pages in the space not yet carved. */
  ghost predicate PromoteSafe(cfg: Config, s: Store, keys: seq<string>) {
    || |keys| <= 1
    || (exists len, slots :: OneLength(cfg, s, keys, len, slots) && |AsSet(keys)| <= slots)
    || s.pool.next + SumPages(cfg, keys) <= s.pool.capacity
  }

  lemma SafePromoteCoherent(cfg: Config, s: Store, keys: seq<string>)
    requires Inv(cfg, s) && PromoteSafe(cfg, s, keys)
    ensures Inv(cfg, EnsureResident(cfg, s, keys))
  {
    if keys == [] {
      StayingIsCoherent(cfg, s, keys);
    } else if |keys| == 1 {
      assert keys == [keys[0]];
      SinglePromoteCoherent(cfg, s, keys[0]);
    } else if len, slots :| OneLength(cfg, s, keys, len, slots) && |AsSet(keys)| <= slots {
      FewPromotesCoherent(cfg, s, keys, len, slots);
    } else {
      RoomyPromotesCoherent(cfg, s, keys);
    }
  }
}
