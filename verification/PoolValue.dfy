/** The published pool of python/peercache/pool.py as a value: an allocator with exact-size
    free lists, a bump pointer and least-recently-used eviction. */
module PoolValue {

  /** One resident page; `entries` of a pool run from least to most recently used. */
  datatype Entry = Entry(key: string, off: nat, len: nat)

  datatype Pool = Pool(capacity: nat, next: nat, free: map<nat, seq<nat>>, entries: seq<Entry>, used: int)

  function Empty(capacity: nat): Pool {
    Pool(capacity, 0, map[], [], 0)
  }

  function Keys(es: seq<Entry>): (r: seq<string>)
    ensures |r| == |es|
  {
    seq(|es|, i requires 0 <= i < |es| => es[i].key)
  }

  /** The position of key, or -1. */
  function Find(es: seq<Entry>, key: string): (i: int)
    ensures -1 <= i < |es|
    ensures i >= 0 ==> es[i].key == key
    ensures i < 0 ==> forall j | 0 <= j < |es| :: es[j].key != key
  {
    if es == [] then -1
    else if es[|es| - 1].key == key then |es| - 1
    else Find(es[..|es| - 1], key)
  }

  /** OrderedDict.move_to_end for position i. */
  function Touched(es: seq<Entry>, i: nat): seq<Entry>
    requires i < |es|
  {
    es[..i] + es[i + 1..] + [es[i]]
  }

  function FreeList(free: map<nat, seq<nat>>, len: nat): seq<nat> {
    if len in free then free[len] else []
  }

  /** self._free.setdefault(len, []).append(off). */
  function Freed(free: map<nat, seq<nat>>, off: nat, len: nat): map<nat, seq<nat>> {
    free[len := FreeList(free, len) + [off]]
  }

  /** The outcome of an allocation: the offset, or -1, and the keys evicted for it. */
  datatype Alloc = Alloc(pool: Pool, off: int, evicted: seq<string>)

  /** The pool after popitem(last=False). */
  function Evicted(p: Pool): Pool
    requires p.entries != []
  {
    var e := p.entries[0];
    p.(entries := p.entries[1..], used := p.used - e.len, free := Freed(p.free, e.off, e.len))
  }

  /** Pop the last free offset of this length. */
  function Popped(p: Pool, len: nat): Pool
    requires FreeList(p.free, len) != []
  {
    var l := FreeList(p.free, len);
    p.(free := p.free[len := l[..|l| - 1]])
  }

  /** Evict from the front until a page of this length has gone. */
  function EvictFor(p: Pool, len: nat): (a: Alloc)
    decreases |p.entries|
  {
    if p.entries == [] then Alloc(p, -1, [])
    else
      var e, p' := p.entries[0], Evicted(p);
      if e.len == len then Alloc(Popped(p', len), e.off, [e.key])
      else
        var a := EvictFor(p', len);
        a.(evicted := [e.key] + a.evicted)
  }

  function Allocate(p: Pool, len: nat): Alloc {
    if len > p.capacity then Alloc(p, -1, [])
    else if FreeList(p.free, len) != [] then
      var l := FreeList(p.free, len);
      Alloc(Popped(p, len), l[|l| - 1], [])
    else if p.next + len <= p.capacity then Alloc(p.(next := p.next + len), p.next, [])
    else EvictFor(p, len)
  }

  /** publish and reserve agree but for the copy: a resident key is only touched, a new
      one is allocated and becomes the most recent. */
  function Reserve(p: Pool, key: string, len: nat): Alloc {
    var i := Find(p.entries, key);
    if i >= 0 then Alloc(p.(entries := Touched(p.entries, i)), p.entries[i].off, [])
    else Placed(Allocate(p, len), key, len)
  }

  /** The allocated block, if there is one, entered under key as the most recent page. */
  function Placed(a: Alloc, key: string, len: nat): Alloc {
    if a.off < 0 then a
    else a.(pool := a.pool.(entries := a.pool.entries + [Entry(key, a.off, len)], used := a.pool.used + len))
  }

  /** address_of: a hit also touches the page. */
  function Looked(p: Pool, key: string): Pool {
    var i := Find(p.entries, key);
    if i < 0 then p else p.(entries := Touched(p.entries, i))
  }

  function Removed(p: Pool, key: string): Pool {
    var i := Find(p.entries, key);
    if i < 0 then p
    else
      var e := p.entries[i];
      p.(entries := p.entries[..i] + p.entries[i + 1..], used := p.used - e.len, free := Freed(p.free, e.off, e.len))
  }

  // ---------------------------------------------------------------- eviction order

  /** evicted are the keys of the front of the order, and left is the rest of it. */
  predicate Splits(es: seq<Entry>, evicted: seq<string>, left: seq<Entry>) {
    && |evicted| <= |es|
    && evicted == Keys(es)[..|evicted|]
    && left == es[|evicted|..]
  }

  lemma SplitsOneMore(es: seq<Entry>, evicted: seq<string>, left: seq<Entry>)
    requires es != [] && Splits(es[1..], evicted, left)
    ensures Splits(es, [es[0].key] + evicted, left)
  {
    assert Keys(es) == [es[0].key] + Keys(es[1..]);
  }

  /** Evicted keys are the least recently used ones, in order, and nobody else leaves. */
  lemma {:induction false} EvictForPrefix(p: Pool, len: nat)
    ensures var a := EvictFor(p, len);
            && Splits(p.entries, a.evicted, a.pool.entries)
            && a.pool.next == p.next && a.pool.capacity == p.capacity
            && (a.off < 0 ==> a.pool.entries == [])
    decreases |p.entries|
  {
    if p.entries != [] {
      if p.entries[0].len == len {
        SplitsOneMore(p.entries, [], p.entries[1..]);
      } else {
        var b := EvictFor(Evicted(p), len);
        EvictForPrefix(Evicted(p), len);
        SplitsOneMore(p.entries, b.evicted, b.pool.entries);
      }
    }
  }

  /** Eviction stops at the first page of the wanted length: the last one evicted. */
  lemma {:induction false} EvictForStops(p: Pool, len: nat)
    ensures var a := EvictFor(p, len);
            && |a.evicted| <= |p.entries|
            && (a.off >= 0 ==> a.evicted != [] && p.entries[|a.evicted| - 1].len == len)
            && (forall i | 0 <= i < |a.evicted| - 1 :: p.entries[i].len != len)
    decreases |p.entries|
  {
    if p.entries != [] && p.entries[0].len != len {
      var rest := p.entries[1..];
      EvictForStops(Evicted(p), len);
      assert forall i | 0 < i < |p.entries| :: p.entries[i] == rest[i - 1];
    }
  }

  /** It finds one exactly when there is one, and hands out that page's block. */
  lemma {:induction false} EvictForFinds(p: Pool, len: nat)
    ensures var a := EvictFor(p, len);
            && |a.evicted| <= |p.entries|
            && (a.off >= 0 <==> exists e | e in p.entries :: e.len == len)
            && (a.off >= 0 ==> a.evicted != [] && a.off == p.entries[|a.evicted| - 1].off)
            && (a.off < 0 ==> |a.evicted| == |p.entries|)
    decreases |p.entries|
  {
    if p.entries != [] {
      var rest := p.entries[1..];
      assert p.entries == [p.entries[0]] + rest;
      if p.entries[0].len != len {
        EvictForFinds(Evicted(p), len);
      }
    }
  }

  /** No free block of this length is left, and no room to carve one. */
  predicate Full(p: Pool, len: nat) {
    FreeList(p.free, len) == [] && p.next + len > p.capacity
  }

  /** Whatever the lengths, a page is refused exactly when it is not resident and is larger
      than the pool, or no free block, no room to carve and no page of its length is left. */
  lemma ReserveRefusedIff(p: Pool, key: string, len: nat)
    ensures Reserve(p, key, len).off < 0 <==>
            && Find(p.entries, key) < 0
            && (len > p.capacity || (Full(p, len) && forall e | e in p.entries :: e.len != len))
  {
    EvictForFinds(p, len);
  }

  /** Exactly what is evicted: nothing, unless a new page that is no larger than the pool
      meets a full one; then the front of the order up to and including the first page of
      its length, or all of it if there is none. */
  lemma ReserveEvictsExactly(p: Pool, key: string, len: nat)
    ensures
      var evicted := Reserve(p, key, len).evicted;
      var n := |evicted|;
      if Find(p.entries, key) >= 0 || len > p.capacity || !Full(p, len) then evicted == []
      else
        && n <= |p.entries| && evicted == Keys(p.entries)[..n]
        && (forall i | 0 <= i < n - 1 :: p.entries[i].len != len)
        && (if exists e | e in p.entries :: e.len == len then n > 0 && p.entries[n - 1].len == len else n == |p.entries|)
  {
    EvictForPrefix(p, len);
    EvictForStops(p, len);
    EvictForFinds(p, len);
  }

  /** And the block handed out: the resident page's own, else the free one given back last,
      else the next to carve, else that of the last page evicted. */
  lemma ReserveBlock(p: Pool, key: string, len: nat)
    requires Reserve(p, key, len).off >= 0
    ensures
      var a, i, l := Reserve(p, key, len), Find(p.entries, key), FreeList(p.free, len);
      && |a.evicted| <= |p.entries|
      && a.off == if i >= 0 then p.entries[i].off
                  else if l != [] then l[|l| - 1]
                  else if p.next + len <= p.capacity then p.next
                  else if a.evicted != [] then p.entries[|a.evicted| - 1].off else -1
  {
    EvictForFinds(p, len);
  }

  predicate DistinctKeys(es: seq<Entry>) {
    forall i, j | 0 <= i < j < |es| :: es[i].key != es[j].key
  }

  /** Reserving evicts a prefix of the recency order, and only to make room. */
  lemma ReserveEvictsPrefix(p: Pool, key: string, len: nat)
    ensures var a := Reserve(p, key, len);
            && |a.evicted| <= |p.entries|
            && a.evicted == Keys(p.entries)[..|a.evicted|]
            && (a.evicted != [] ==> Find(p.entries, key) < 0 && FreeList(p.free, len) == [] && p.next + len > p.capacity)
            && (Find(p.entries, key) < 0 ==>
                  a.pool.entries == p.entries[|a.evicted|..] + if a.off >= 0 then [Entry(key, a.off, len)] else [])
  {
    EvictForPrefix(p, len);
    assert p.entries[0..] == p.entries;
  }
}
