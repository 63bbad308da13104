/** What the pool object needs of its own state: every block it knows lies within the
    memory, and no key is entered twice. */
module PoolBounds {
  import opened PoolValue

  predicate Within(off: int, len: nat, capacity: nat) {
    0 <= off && off + len <= capacity
  }

  ghost predicate FreeWithin(free: map<nat, seq<nat>>, capacity: nat) {
    forall len: nat, off | off in FreeList(free, len) :: Within(off, len, capacity)
  }

  ghost predicate Bounded(p: Pool) {
    && p.next <= p.capacity
    && FreeWithin(p.free, p.capacity)
    && (forall e | e in p.entries :: Within(e.off, e.len, p.capacity))
    && DistinctKeys(p.entries)
  }

  lemma FreedWithin(free: map<nat, seq<nat>>, off: nat, len: nat, capacity: nat)
    requires FreeWithin(free, capacity) && Within(off, len, capacity)
    ensures FreeWithin(Freed(free, off, len), capacity)
  {
    forall n: nat, x | x in FreeList(Freed(free, off, len), n) ensures Within(x, n, capacity) {
      assert x in FreeList(free, n) || (x == off && n == len);
    }
  }

  lemma PoppedBounded(p: Pool, len: nat)
    requires Bounded(p) && FreeList(p.free, len) != []
    ensures var l := FreeList(p.free, len); Bounded(Popped(p, len)) && Within(l[|l| - 1], len, p.capacity)
  {
    var l := FreeList(p.free, len);
    assert l[|l| - 1] in l;
    forall n: nat, x | x in FreeList(Popped(p, len).free, n) ensures Within(x, n, p.capacity) {
      assert x in FreeList(p.free, n);
    }
  }

  lemma EvictedBounded(p: Pool)
    requires Bounded(p) && p.entries != []
    ensures Bounded(Evicted(p)) && FreeList(Evicted(p).free, p.entries[0].len) != []
  {
    var e, rest := p.entries[0], p.entries[1..];
    assert e in p.entries;
    FreedWithin(p.free, e.off, e.len, p.capacity);
    assert forall i | 0 <= i < |rest| :: rest[i] == p.entries[i + 1];
  }

  lemma {:induction false} EvictForBounded(p: Pool, len: nat)
    requires Bounded(p)
    ensures var a := EvictFor(p, len);
            Bounded(a.pool) && a.pool.capacity == p.capacity && (a.off >= 0 ==> Within(a.off, len, p.capacity))
    decreases |p.entries|
  {
    if p.entries != [] {
      assert p.entries[0] in p.entries;
      EvictedBounded(p);
      if p.entries[0].len == len {
        PoppedBounded(Evicted(p), len);
      } else {
        EvictForBounded(Evicted(p), len);
      }
    }
  }

  lemma AllocateBounded(p: Pool, len: nat)
    requires Bounded(p)
    ensures var a := Allocate(p, len);
            Bounded(a.pool) && a.pool.capacity == p.capacity && (a.off >= 0 ==> Within(a.off, len, p.capacity))
  {
    if len <= p.capacity {
      if FreeList(p.free, len) != [] {
        PoppedBounded(p, len);
      } else if p.next + len > p.capacity {
        EvictForBounded(p, len);
      }
    }
  }

  lemma PlacedBounded(a: Alloc, key: string, len: nat)
    requires Bounded(a.pool) && (a.off >= 0 ==> Within(a.off, len, a.pool.capacity)) && forall e | e in a.pool.entries :: e.key != key
    ensures Bounded(Placed(a, key, len).pool)
  {
    assert forall i | 0 <= i < |a.pool.entries| :: a.pool.entries[i] in a.pool.entries;
  }

  lemma TouchedDistinct(es: seq<Entry>, i: nat)
    requires i < |es| && DistinctKeys(es)
    ensures DistinctKeys(Touched(es, i)) && forall e | e in Touched(es, i) :: e in es
  {
    var t := Touched(es, i);
    assert forall j | 0 <= j < |es| :: t[j] == es[if j < i then j else if j < |es| - 1 then j + 1 else i];
  }

  lemma LookedBounded(p: Pool, key: string)
    requires Bounded(p)
    ensures Bounded(Looked(p, key))
  {
    if Find(p.entries, key) >= 0 {
      TouchedDistinct(p.entries, Find(p.entries, key));
    }
  }

  lemma RemovedBounded(p: Pool, key: string)
    requires Bounded(p)
    ensures Bounded(Removed(p, key))
  {
    var i := Find(p.entries, key);
    if i >= 0 {
      var e, cut := p.entries[i], p.entries[..i] + p.entries[i + 1..];
      assert e in p.entries;
      FreedWithin(p.free, e.off, e.len, p.capacity);
      assert forall j | 0 <= j < |cut| :: cut[j] == p.entries[if j < i then j else j + 1];
    }
  }

  /** Reserving keeps the bounds, and a new page's block lies within the memory. */
  lemma ReserveBounded(p: Pool, key: string, len: nat)
    requires Bounded(p)
    ensures Bounded(Reserve(p, key, len).pool)
    ensures Find(p.entries, key) < 0 && Reserve(p, key, len).off >= 0 ==> Within(Reserve(p, key, len).off, len, p.capacity)
  {
    if Find(p.entries, key) >= 0 {
      TouchedDistinct(p.entries, Find(p.entries, key));
    } else {
      AllocateBounded(p, len);
      EvictForPrefix(p, len);
      assert forall e | e in Allocate(p, len).pool.entries :: e in p.entries;
      PlacedBounded(Allocate(p, len), key, len);
    }
  }
}
