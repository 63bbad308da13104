/** With one page length the pool is a textbook LRU cache of floor(capacity / length)
    entries. */
module PoolLru {
  import opened Sequences
  import opened PoolValue
  import T = PoolTiling

  // ---------------------------------------------------------------- the abstract cache

  /** Keys from least to most recently used; insert or refresh key among `slots`. */
  function LruAdd(order: seq<string>, slots: nat, key: string): seq<string> {
    if key in order then Without(order, key) + [key]
    else if slots == 0 then order
    else if |order| < slots then order + [key]
    else order[1..] + [key]
  }

  function LruEvicted(order: seq<string>, slots: nat, key: string): seq<string> {
    if key in order || slots == 0 || |order| < slots then [] else order[..1]
  }

  function LruTouch(order: seq<string>, key: string): seq<string> {
    if key in order then Without(order, key) + [key] else order
  }

  // ---------------------------------------------------------------- counting pages

  /** n pages of this length, in bytes. */
  function Pages(len: nat, n: nat): nat {
    if n == 0 then 0 else Pages(len, n - 1) + len
  }

  lemma {:induction false} PagesIsProduct(len: nat, n: nat)
    ensures Pages(len, n) == len * n
  {
    if n > 0 {
      PagesIsProduct(len, n - 1);
      assert len * n == len * (n - 1) + len;
    }
  }

  /** slots is floor(capacity / len). */
  predicate IsSlots(capacity: nat, len: nat, slots: nat) {
    len > 0 && Pages(len, slots) <= capacity < Pages(len, slots) + len
  }

  lemma FloorIsSlots(capacity: nat, len: nat)
    requires len > 0
    ensures IsSlots(capacity, len, capacity / len)
  {
    PagesIsProduct(len, capacity / len);
  }

  lemma {:induction false} PagesMono(len: nat, a: nat, b: nat)
    requires a < b
    ensures Pages(len, a) + len <= Pages(len, b)
  {
    if a < b - 1 {
      PagesMono(len, a, b - 1);
    }
  }

  /** There is room for one more page exactly while fewer than `slots` exist. */
  lemma RoomIff(capacity: nat, len: nat, slots: nat, n: nat)
    requires IsSlots(capacity, len, slots) && Pages(len, n) <= capacity
    ensures Pages(len, n) + len <= capacity <==> n < slots
    ensures n <= slots
  {
    if n < slots {
      PagesMono(len, n, slots);
    } else if n > slots {
      PagesMono(len, slots, n);
    }
  }

  /** Every page has length len, and the bump pointer counts the pages ever carved. */
  predicate Uniform(p: Pool, len: nat) {
    && len > 0
    && (forall i | 0 <= i < |p.entries| :: p.entries[i].len == len)
    && p.next == Pages(len, |p.entries| + |FreeList(p.free, len)|)
    && p.next <= p.capacity
    && DistinctKeys(p.entries)
  }

  // ---------------------------------------------------------------- each operation

  lemma FindIffKey(es: seq<Entry>, key: string)
    ensures Find(es, key) >= 0 <==> key in Keys(es)
  {
    if key in Keys(es) {
      var j :| 0 <= j < |es| && Keys(es)[j] == key;
      assert es[j].key == key;
    }
    if Find(es, key) >= 0 {
      assert Keys(es)[Find(es, key)] == key;
    }
  }

  /** Cutting the key's entry out deletes the key from the order. */
  lemma CutKeys(es: seq<Entry>, i: nat)
    requires i < |es| && DistinctKeys(es)
    ensures Keys(es[..i] + es[i + 1..]) == Without(Keys(es), es[i].key)
    ensures DistinctKeys(es[..i] + es[i + 1..]) && forall e | e in es[..i] + es[i + 1..] :: e in es && e.key != es[i].key
  {
    var ks := Keys(es);
    assert forall j | 0 <= j < |es| && j != i :: ks[j] != ks[i];
    WithoutAt(ks, i);
    assert Keys(es[..i] + es[i + 1..]) == ks[..i] + ks[i + 1..];
    T.CutEntry(es, i);
  }

  lemma TouchedKeys(es: seq<Entry>, i: nat)
    requires i < |es| && DistinctKeys(es)
    ensures Keys(Touched(es, i)) == Without(Keys(es), es[i].key) + [es[i].key]
    ensures DistinctKeys(Touched(es, i)) && |Touched(es, i)| == |es| && forall e | e in Touched(es, i) :: e in es
  {
    CutKeys(es, i);
    var cut := es[..i] + es[i + 1..];
    T.PushEntry(cut, es[i]);
    assert Keys(cut + [es[i]]) == Keys(cut) + [es[i].key];
    assert forall j | 0 <= j < |cut| :: cut[j] in cut;
  }

  lemma TouchIsUniform(p: Pool, len: nat, i: nat)
    requires Uniform(p, len) && i < |p.entries|
    ensures Uniform(p.(entries := Touched(p.entries, i)), len)
  {
    TouchedKeys(p.entries, i);
    var es := Touched(p.entries, i);
    forall j | 0 <= j < |es| ensures es[j].len == len {
      assert es[j] in es;
    }
  }

  lemma PushKeys(es: seq<Entry>, e: Entry)
    ensures Keys(es + [e]) == Keys(es) + [e.key]
  {
  }

  /** A new page entered in an allocated block goes to the end of the order. */
  lemma PlacedIsLast(a: Alloc, key: string, len: nat)
    requires a.off >= 0 && len > 0 && DistinctKeys(a.pool.entries)
    requires forall i | 0 <= i < |a.pool.entries| :: a.pool.entries[i].len == len && a.pool.entries[i].key != key
    requires a.pool.next == Pages(len, |a.pool.entries| + 1 + |FreeList(a.pool.free, len)|) <= a.pool.capacity
    ensures Uniform(Placed(a, key, len).pool, len) && Keys(Placed(a, key, len).pool.entries) == Keys(a.pool.entries) + [key]
  {
    T.PushEntry(a.pool.entries, Entry(key, a.off, len));
    PushKeys(a.pool.entries, Entry(key, a.off, len));
  }

  /** Allocation from the free list or the bump pointer leaves the pages alone. */
  lemma RoomAllocate(p: Pool, len: nat)
    requires len <= p.capacity && (FreeList(p.free, len) != [] || p.next + len <= p.capacity)
    ensures var a := Allocate(p, len);
            && a.off >= 0 && a.evicted == [] && a.pool.entries == p.entries && a.pool.capacity == p.capacity
            && (FreeList(p.free, len) != [] ==> a.pool.next == p.next && |FreeList(a.pool.free, len)| == |FreeList(p.free, len)| - 1)
            && (FreeList(p.free, len) == [] ==> a.pool.next == p.next + len && a.pool.free == p.free)
  {
  }

  /** A new key with a slot to spare is appended. */
  lemma AddWithRoom(p: Pool, len: nat, slots: nat, key: string)
    requires Uniform(p, len) && IsSlots(p.capacity, len, slots) && Find(p.entries, key) < 0 && |p.entries| < slots
    ensures var a := Reserve(p, key, len);
            && a.off >= 0 && a.evicted == [] && a.pool.capacity == p.capacity
            && Keys(a.pool.entries) == Keys(p.entries) + [key] && Uniform(a.pool, len)
  {
    RoomIff(p.capacity, len, slots, 0);
    RoomIff(p.capacity, len, slots, |p.entries| + |FreeList(p.free, len)|);
    RoomAllocate(p, len);
    PlacedIsLast(Allocate(p, len), key, len);
  }

  /** A new key in a full cache displaces the least recently used one. */
  lemma AddWhenFull(p: Pool, len: nat, slots: nat, key: string)
    requires Uniform(p, len) && IsSlots(p.capacity, len, slots) && Find(p.entries, key) < 0 && |p.entries| >= slots > 0
    ensures var a := Reserve(p, key, len);
            && a.off >= 0 && a.evicted == Keys(p.entries)[..1] && a.pool.capacity == p.capacity
            && Keys(a.pool.entries) == Keys(p.entries)[1..] + [key] && Uniform(a.pool, len)
  {
    RoomIff(p.capacity, len, slots, 0);
    RoomIff(p.capacity, len, slots, |p.entries| + |FreeList(p.free, len)|);
    FullAllocate(p, len);
    var rest := p.entries[1..];
    assert forall i | 0 <= i < |rest| :: rest[i] == p.entries[i + 1];
    FrontKeys(p.entries);
    PlacedIsLast(Allocate(p, len), key, len);
  }

  lemma FrontKeys(es: seq<Entry>)
    requires es != []
    ensures Keys(es)[..1] == [es[0].key] && Keys(es[1..]) == Keys(es)[1..]
  {
  }

  /** With no free block and no room to carve, the front page makes way. */
  lemma FullAllocate(p: Pool, len: nat)
    requires p.entries != [] && p.entries[0].len == len <= p.capacity && FreeList(p.free, len) == [] && p.next + len > p.capacity
    ensures var a := Allocate(p, len);
            && a.off == p.entries[0].off && a.evicted == [p.entries[0].key]
            && a.pool.entries == p.entries[1..] && FreeList(a.pool.free, len) == []
            && a.pool.next == p.next && a.pool.capacity == p.capacity
  {
    var list := FreeList(Evicted(p).free, len);
    assert list == [p.entries[0].off] && list[..0] == [];
  }

  lemma AddResident(p: Pool, len: nat, slots: nat, key: string)
    requires Uniform(p, len) && IsSlots(p.capacity, len, slots) && Find(p.entries, key) >= 0
    ensures var a := Reserve(p, key, len);
            && Uniform(a.pool, len) && a.pool.capacity == p.capacity && a.off >= 0 && a.evicted == [] && slots > 0
            && Keys(a.pool.entries) == LruTouch(Keys(p.entries), key)
  {
    FindIffKey(p.entries, key);
    TouchedKeys(p.entries, Find(p.entries, key));
    TouchIsUniform(p, len, Find(p.entries, key));
    RoomIff(p.capacity, len, slots, |p.entries| + |FreeList(p.free, len)|);
  }

  /** publish and reserve are the cache's insert: same order, same evictions, refused
      only when no page fits at all. */
  lemma ReserveIsLruAdd(p: Pool, len: nat, slots: nat, key: string)
    requires Uniform(p, len) && IsSlots(p.capacity, len, slots)
    ensures var a := Reserve(p, key, len);
            && Uniform(a.pool, len) && a.pool.capacity == p.capacity
            && Keys(a.pool.entries) == LruAdd(Keys(p.entries), slots, key)
            && a.evicted == LruEvicted(Keys(p.entries), slots, key)
            && (a.off < 0 <==> slots == 0)
  {
    FindIffKey(p.entries, key);
    if Find(p.entries, key) >= 0 {
      AddResident(p, len, slots, key);
    } else if |p.entries| < slots {
      AddWithRoom(p, len, slots, key);
    } else if slots > 0 {
      AddWhenFull(p, len, slots, key);
    } else {
      RoomIff(p.capacity, len, slots, 0);
      RoomIff(p.capacity, len, slots, |p.entries| + |FreeList(p.free, len)|);
    }
  }

  lemma LookedIsLruTouch(p: Pool, len: nat, key: string)
    requires Uniform(p, len)
    ensures Uniform(Looked(p, key), len) && Keys(Looked(p, key).entries) == LruTouch(Keys(p.entries), key)
    ensures Looked(p, key).capacity == p.capacity
  {
    FindIffKey(p.entries, key);
    if Find(p.entries, key) >= 0 {
      TouchedKeys(p.entries, Find(p.entries, key));
      TouchIsUniform(p, len, Find(p.entries, key));
    }
  }

  /** Whatever the lengths, a lookup moves its page to the end of the order. */
  lemma LookedOrder(p: Pool, key: string)
    requires DistinctKeys(p.entries)
    ensures Keys(Looked(p, key).entries) == LruTouch(Keys(p.entries), key)
  {
    FindIffKey(p.entries, key);
    if Find(p.entries, key) >= 0 {
      TouchedKeys(p.entries, Find(p.entries, key));
    }
  }

  /** Whatever the lengths, a removal takes its page out of the order. */
  lemma RemovedOrder(p: Pool, key: string)
    requires DistinctKeys(p.entries)
    ensures Keys(Removed(p, key).entries) == Without(Keys(p.entries), key)
  {
    FindIffKey(p.entries, key);
    if Find(p.entries, key) >= 0 {
      CutKeys(p.entries, Find(p.entries, key));
    } else {
      WithoutAbsent(Keys(p.entries), key);
    }
  }

  /** Whatever the lengths, a publish moves a resident page to the end; a new page comes last
      behind those not evicted. */
  lemma ReserveOrder(p: Pool, key: string, len: nat)
    requires DistinctKeys(p.entries)
    ensures
      var a := Reserve(p, key, len);
      && |a.evicted| <= |p.entries|
      && Keys(a.pool.entries) == if Find(p.entries, key) >= 0 then LruTouch(Keys(p.entries), key)
                                 else Keys(p.entries)[|a.evicted|..] + if a.off >= 0 then [key] else []
  {
    if Find(p.entries, key) >= 0 {
      FindIffKey(p.entries, key);
      TouchedKeys(p.entries, Find(p.entries, key));
    } else {
      ReserveEvictsPrefix(p, key, len);
      KeysOfRest(p.entries, |Reserve(p, key, len).evicted|);
      KeysWithLast(p.entries[|Reserve(p, key, len).evicted|..], Entry(key, Nat(Reserve(p, key, len).off), len));
    }
  }

  function Nat(n: int): nat {
    if n < 0 then 0 else n
  }

  lemma KeysOfRest(es: seq<Entry>, n: nat)
    requires n <= |es|
    ensures Keys(es[n..]) == Keys(es)[n..] && es[n..] + [] == es[n..] && Keys(es)[n..] + [] == Keys(es)[n..]
  {
  }

  lemma KeysWithLast(es: seq<Entry>, e: Entry)
    ensures Keys(es + [e]) == Keys(es) + [e.key]
  {
  }

  lemma CutUniform(p: Pool, len: nat, i: nat)
    requires Uniform(p, len) && i < |p.entries|
    ensures var e := p.entries[i];
            Uniform(p.(entries := p.entries[..i] + p.entries[i + 1..], used := p.used - e.len, free := Freed(p.free, e.off, e.len)), len)
  {
    CutKeys(p.entries, i);
    var cut := p.entries[..i] + p.entries[i + 1..];
    forall j | 0 <= j < |cut| ensures cut[j].len == len {
      assert cut[j] in cut;
    }
  }

  lemma RemovedIsLruRemove(p: Pool, len: nat, key: string)
    requires Uniform(p, len)
    ensures Uniform(Removed(p, key), len) && Keys(Removed(p, key).entries) == Without(Keys(p.entries), key)
    ensures Removed(p, key).capacity == p.capacity
  {
    RemovedOrder(p, key);
    RemovedUniform(p, len, key);
  }

  lemma RemovedUniform(p: Pool, len: nat, key: string)
    requires Uniform(p, len)
    ensures Uniform(Removed(p, key), len) && Removed(p, key).capacity == p.capacity
  {
    if Find(p.entries, key) >= 0 {
      CutUniform(p, len, Find(p.entries, key));
    }
  }

  // ---------------------------------------------------------------- runs

  function LruStep(order: seq<string>, slots: nat, op: T.Op): seq<string> {
    match op
    case ReserveOp(key, _) => LruAdd(order, slots, key)
    case LookOp(key) => LruTouch(order, key)
    case RemoveOp(key) => Without(order, key)
  }

  function LruRun(slots: nat, ops: seq<T.Op>): seq<string> {
    if ops == [] then [] else LruStep(LruRun(slots, ops[..|ops| - 1]), slots, ops[|ops| - 1])
  }

  /** The keys a run evicts from the pool, in order. */
  function RanEvicted(p: Pool, ops: seq<T.Op>): seq<string> {
    if ops == [] then []
    else
      var before, op := ops[..|ops| - 1], ops[|ops| - 1];
      RanEvicted(p, before) + if op.ReserveOp? then Reserve(T.Ran(p, before), op.key, op.len).evicted else []
  }

  /** The keys the abstract cache evicts in the same run. */
  function LruRunEvicted(slots: nat, ops: seq<T.Op>): seq<string> {
    if ops == [] then []
    else
      var before, op := ops[..|ops| - 1], ops[|ops| - 1];
      LruRunEvicted(slots, before) + if op.ReserveOp? then LruEvicted(LruRun(slots, before), slots, op.key) else []
  }

  /** Every page published or reserved has this length. */
  predicate OneLength(ops: seq<T.Op>, len: nat) {
    forall i | 0 <= i < |ops| && ops[i].ReserveOp? :: ops[i].len == len
  }

  lemma StepRefines(p: Pool, len: nat, slots: nat, op: T.Op)
    requires Uniform(p, len) && IsSlots(p.capacity, len, slots) && (op.ReserveOp? ==> op.len == len)
    ensures var q := T.Did(p, op);
            && Uniform(q, len) && q.capacity == p.capacity
            && Keys(q.entries) == LruStep(Keys(p.entries), slots, op)
  {
    match op
    case ReserveOp(key, _) => ReserveIsLruAdd(p, len, slots, key);
    case LookOp(key) => LookedIsLruTouch(p, len, key);
    case RemoveOp(key) => RemovedIsLruRemove(p, len, key);
  }

  lemma {:induction false} RunRefines(capacity: nat, len: nat, slots: nat, ops: seq<T.Op>)
    requires IsSlots(capacity, len, slots) && OneLength(ops, len)
    ensures var p := T.Ran(Empty(capacity), ops);
            && Uniform(p, len) && p.capacity == capacity
            && Keys(p.entries) == LruRun(slots, ops) && RanEvicted(Empty(capacity), ops) == LruRunEvicted(slots, ops)
  {
    if ops != [] {
      var before, op := ops[..|ops| - 1], ops[|ops| - 1];
      RunRefines(capacity, len, slots, before);
      StepRefines(T.Ran(Empty(capacity), before), len, slots, op);
      if op.ReserveOp? {
        ReserveIsLruAdd(T.Ran(Empty(capacity), before), len, slots, op.key);
      }
    }
  }

  /** Over any run from empty, the pool holds the keys of the LRU cache in its order and has
      evicted the same keys in the same order. */
  lemma PoolRefinesLru(capacity: nat, len: nat, ops: seq<T.Op>)
    requires len > 0 && OneLength(ops, len)
    ensures Keys(T.Ran(Empty(capacity), ops).entries) == LruRun(capacity / len, ops)
    ensures RanEvicted(Empty(capacity), ops) == LruRunEvicted(capacity / len, ops)
  {
    FloorIsSlots(capacity, len);
    RunRefines(capacity, len, capacity / len, ops);
  }
}
