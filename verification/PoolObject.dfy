/** PublishedPool as the mutable object it is. */
module PoolObject {
  import opened Bytes
  import opened PoolValue
  import B = PoolBounds
  import T = PoolTiling

  /** An allocation that comes after these evictions. */
  function After(evicted: seq<string>, a: Alloc): Alloc {
    a.(evicted := evicted + a.evicted)
  }

  /** One turn of the eviction loop. */
  lemma EvictForStep(p: Pool, len: nat, evicted: seq<string>)
    requires p.entries != []
    ensures var e, q := p.entries[0], Evicted(p);
            After(evicted, EvictFor(p, len)) ==
            if e.len == len then Alloc(Popped(q, len), e.off, evicted + [e.key])
            else After(evicted + [e.key], EvictFor(q, len))
  {
    var rest := EvictFor(Evicted(p), len).evicted;
    assert evicted + ([p.entries[0].key] + rest) == evicted + [p.entries[0].key] + rest;
  }

  class PublishedPool {
    const base: nat
    const capacity: nat
    const mem: array<Byte>
    var nextOffset: nat
    var free: map<nat, seq<nat>>
    var entries: seq<Entry>
    var used: int

    ghost predicate Valid()
      reads this
    {
      mem.Length == capacity && B.Bounded(Value())
    }

    function Value(): Pool
      reads this
    {
      Pool(capacity, nextOffset, free, entries, used)
    }

    constructor (base: nat, mem: array<Byte>)
      ensures Valid() && Value() == Empty(mem.Length) && this.base == base && this.mem == mem
    {
      this.base, this.capacity, this.mem := base, mem.Length, mem;
      nextOffset, free, entries, used := 0, map[], [], 0;
    }

    /** (remote address, length) of a resident page, which becomes the most recent; the
        address is -1 for None. */
    method AddressOf(key: string) returns (addr: int, len: nat)
      requires Valid()
      modifies this`entries
      ensures Valid() && Value() == Looked(old(Value()), key)
      ensures var i := Find(old(entries), key);
              if i < 0 then addr == -1 else addr == base + old(entries)[i].off && len == old(entries)[i].len
    {
      B.LookedBounded(Value(), key);
      var i := Find(entries, key);
      if i < 0 {
        return -1, 0;
      }
      addr, len := base + entries[i].off, entries[i].len;
      entries := Touched(entries, i);
    }

    /** _allocate: the offset, or -1. Evicted keys are appended to `evicted`. */
    method Allocate(len: nat) returns (off: int, evicted: seq<string>)
      modifies this`nextOffset, this`free, this`entries, this`used
      ensures PoolValue.Allocate(old(Value()), len) == Alloc(Value(), off, evicted)
    {
      if len > capacity {
        return -1, [];
      }
      var list := FreeList(free, len);
      if list != [] {
        free := free[len := list[..|list| - 1]];
        return list[|list| - 1], [];
      }
      if nextOffset + len <= capacity {
        off := nextOffset;
        nextOffset := nextOffset + len;
        return off, [];
      }
      off, evicted := EvictUntil(len);
    }

    /** Evict from the front until a page of this length has gone, and take its place. */
    method EvictUntil(len: nat) returns (off: int, evicted: seq<string>)
      modifies this`free, this`entries, this`used
      ensures EvictFor(old(Value()), len) == Alloc(Value(), off, evicted)
    {
      evicted := [];
      ghost var start := Value();
      while entries != []
        invariant EvictFor(start, len) == After(evicted, EvictFor(Value(), len))
        decreases |entries|
      {
        EvictForStep(Value(), len, evicted);
        var e := entries[0];
        entries := entries[1..];
        used := used - e.len;
        evicted := evicted + [e.key];
        free := Freed(free, e.off, e.len);
        if e.len == len {
          var l := FreeList(free, len);
          free := free[len := l[..|l| - 1]];
          return e.off, evicted;
        }
      }
      off := -1;
    }

    /** The part publish and reserve share: touch a resident page, or allocate a block and
        enter it under the key. */
    method Enter(key: string, len: nat) returns (off: int, evicted: seq<string>)
      modifies this`nextOffset, this`free, this`entries, this`used
      ensures PoolValue.Reserve(old(Value()), key, len) == Alloc(Value(), off, evicted)
    {
      var i := Find(entries, key);
      if i >= 0 {
        off := entries[i].off;
        entries := Touched(entries, i);
        return off, [];
      }
      off, evicted := Allocate(len);
      if off >= 0 {
        entries := entries + [Entry(key, off, len)];
        used := used + len;
      }
    }

    /** Copy the page into the pool unless its key is resident; -1 if it cannot fit. The
        caller passes `evicted` on to the eviction callback. */
    method Publish(key: string, data: seq<Byte>) returns (addr: int, evicted: seq<string>)
      requires Valid()
      modifies this, mem
      ensures Valid()
      ensures var a := PoolValue.Reserve(old(Value()), key, |data|);
              && Value() == a.pool && evicted == a.evicted
              && addr == (if a.off < 0 then -1 else base + a.off)
      ensures mem[..] == T.Published(old(Value()), old(mem[..]), key, data)
    {
      B.ReserveBounded(Value(), key, |data|);
      T.PublishedIs(Value(), mem[..], key, data);
      var resident := Find(entries, key) >= 0;
      var off;
      off, evicted := Enter(key, |data|);
      if !resident && off >= 0 {
        Move(off, data);
      }
      addr := if off < 0 then -1 else base + off;
    }

    /** The same without the copy: a remote peer writes the bytes later. */
    method Reserve(key: string, len: nat) returns (addr: int, evicted: seq<string>)
      requires Valid()
      modifies this
      ensures Valid()
      ensures var a := PoolValue.Reserve(old(Value()), key, len);
              && Value() == a.pool && evicted == a.evicted
              && addr == (if a.off < 0 then -1 else base + a.off)
    {
      B.ReserveBounded(Value(), key, len);
      var off;
      off, evicted := Enter(key, len);
      addr := if off < 0 then -1 else base + off;
    }

    method Remove(key: string)
      requires Valid()
      modifies this
      ensures Valid() && Value() == Removed(old(Value()), key)
    {
      B.RemovedBounded(Value(), key);
      var i := Find(entries, key);
      if i < 0 {
        return;
      }
      var e := entries[i];
      entries := entries[..i] + entries[i + 1..];
      used := used - e.len;
      free := Freed(free, e.off, e.len);
    }

    /** ctypes.memmove into the pool. */
    method Move(off: nat, src: seq<Byte>)
      requires off + |src| <= mem.Length
      modifies mem
      ensures mem[..] == Stored(old(mem[..]), off, src)
    {
      ghost var before := mem[..];
      for i := 0 to |src|
        invariant forall j | 0 <= j < mem.Length ::
                    mem[j] == if off <= j < off + i then src[j - off] else before[j]
      {
        mem[off + i] := src[i];
      }
    }
  }
}
