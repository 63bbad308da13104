/** The pool's blocks, live and free, always tile the space below the bump pointer, so no
    page is moved or overwritten while its key stays resident. */
module PoolTiling {
  import opened PoolValue
  import opened Bytes

  type Block = (nat, nat)

  function Sum(layout: seq<nat>): nat {
    if layout == [] then 0 else Sum(layout[..|layout| - 1]) + layout[|layout| - 1]
  }

  /** Blocks of these lengths laid end to end from offset 0. */
  function Blocks(layout: seq<nat>): (r: seq<Block>)
    ensures |r| == |layout|
  {
    if layout == [] then []
    else
      var init := layout[..|layout| - 1];
      Blocks(init) + [(Sum(init), layout[|layout| - 1])]
  }

  function BlocksOf(es: seq<Entry>): (r: seq<Block>)
    ensures |r| == |es|
  {
    seq(|es|, i requires 0 <= i < |es| => (es[i].off, es[i].len))
  }

  /** How many times the pool accounts for block b, as free or as live. */
  ghost function Count(p: Pool, b: Block): nat {
    multiset(FreeList(p.free, b.1))[b.0] + multiset(BlocksOf(p.entries))[b]
  }

  function SumLens(es: seq<Entry>): nat {
    if es == [] then 0 else SumLens(es[..|es| - 1]) + es[|es| - 1].len
  }

  ghost predicate Accounts(p: Pool, layout: seq<nat>, out: multiset<Block>) {
    && Sum(layout) == p.next <= p.capacity
    && forall b: Block {:trigger Count(p, b)} :: multiset(Blocks(layout))[b] == Count(p, b) + out[b]
  }

  /** Live and free blocks together are exactly the blocks of `layout`, which fill
      [0, next) end to end; `used` adds up the live ones. */
  ghost predicate Tiled(p: Pool, layout: seq<nat>) {
    && Accounts(p, layout, multiset{})
    && p.used == SumLens(p.entries)
    && DistinctKeys(p.entries)
  }

  // ---------------------------------------------------------------- what tiling means

  predicate Disjoint(a: Block, b: Block) {
    a.0 + a.1 <= b.0 || b.0 + b.1 <= a.0
  }

  lemma {:induction false} BlocksInside(layout: seq<nat>, i: nat)
    requires i < |layout|
    ensures Blocks(layout)[i].0 + Blocks(layout)[i].1 <= Sum(layout)
  {
    if i < |layout| - 1 {
      BlocksInside(layout[..|layout| - 1], i);
    }
  }

  lemma {:induction false} BlocksDisjoint(layout: seq<nat>, i: nat, j: nat)
    requires i < j < |layout|
    ensures Disjoint(Blocks(layout)[i], Blocks(layout)[j])
  {
    var n := |layout| - 1;
    if j < n {
      BlocksDisjoint(layout[..n], i, j);
    } else {
      BlocksInside(layout[..n], i);
    }
  }

  /** Every byte below the bump pointer lies in some block. */
  lemma {:induction false} BlocksCover(layout: seq<nat>, x: nat) returns (i: nat)
    requires x < Sum(layout)
    ensures i < |layout| && Blocks(layout)[i].0 <= x < Blocks(layout)[i].0 + Blocks(layout)[i].1
  {
    var n := |layout| - 1;
    if x < Sum(layout[..n]) {
      i := BlocksCover(layout[..n], x);
    } else {
      i := n;
    }
  }

  lemma {:induction false} IndexOf(s: seq<Block>, b: Block) returns (i: nat)
    requires multiset(s)[b] >= 1
    ensures i < |s| && s[i] == b && multiset(s[..i] + s[i + 1..]) == multiset(s) - multiset{b}
  {
    assert b in s;
    i :| i < |s| && s[i] == b;
    assert s == s[..i] + [s[i]] + s[i + 1..];
  }

  /** Two occurrences among the blocks never overlap. */
  lemma PairDisjoint(layout: seq<nat>, a: Block, b: Block)
    requires multiset{a, b} <= multiset(Blocks(layout))
    ensures Disjoint(a, b)
  {
    var s := Blocks(layout);
    assert multiset{a, b}[a] >= 1;
    var i := IndexOf(s, a);
    var rest := s[..i] + s[i + 1..];
    assert multiset(rest)[b] >= 1 by {
      assert multiset{a, b}[b] == if a == b then 2 else 1;
    }
    var j := IndexOf(rest, b);
    var k := if j < i then j else j + 1;
    assert s[k] == b && k != i;
    BlocksDisjoint(layout, if i < k then i else k, if i < k then k else i);
  }

  lemma TwoOf(s: seq<Block>, i: nat, j: nat)
    requires i < j < |s|
    ensures multiset{s[i], s[j]} <= multiset(s)
  {
    assert s == s[..i] + [s[i]] + s[i + 1..j] + [s[j]] + s[j + 1..];
  }

  /** Live pages lie within the bumped space, do not overlap one another, and do not
      overlap any free block. */
  lemma LiveApart(p: Pool, layout: seq<nat>, out: multiset<Block>, i: nat)
    requires Accounts(p, layout, out) && i < |p.entries|
    ensures var b := BlocksOf(p.entries)[i];
            && b.0 + b.1 <= p.next <= p.capacity
            && (forall j | 0 <= j < |p.entries| && j != i :: Disjoint(b, BlocksOf(p.entries)[j]))
            && (forall off: nat, len | off in FreeList(p.free, len) :: Disjoint(b, (off, len)))
            && (forall o: Block | o in out :: Disjoint(b, o))
  {
    var live := BlocksOf(p.entries);
    assert live[i] in live;
    LiveInside(p, layout, out, live[i]);
    forall j | 0 <= j < |p.entries| && j != i ensures Disjoint(live[i], live[j]) {
      TwoOf(live, if i < j then i else j, if i < j then j else i);
      LivePair(p, layout, out, live[i], live[j]);
    }
    forall off: nat, len | off in FreeList(p.free, len) ensures Disjoint(live[i], (off, len)) {
      FreeAndLive(p, layout, out, live[i], (off, len));
    }
    forall o: Block | o in out ensures Disjoint(live[i], o) {
      OutAndLive(p, layout, out, live[i], o);
    }
  }

  lemma LiveInside(p: Pool, layout: seq<nat>, out: multiset<Block>, b: Block)
    requires Accounts(p, layout, out) && b in BlocksOf(p.entries)
    ensures b.0 + b.1 <= p.next <= p.capacity
  {
    assert multiset(BlocksOf(p.entries))[b] >= 1;
    assert multiset(Blocks(layout))[b] == Count(p, b) + out[b];
    var at := IndexOf(Blocks(layout), b);
    BlocksInside(layout, at);
  }

  lemma OutAndLive(p: Pool, layout: seq<nat>, out: multiset<Block>, live: Block, o: Block)
    requires Accounts(p, layout, out) && live in BlocksOf(p.entries) && o in out
    ensures Disjoint(live, o)
  {
    assert multiset(BlocksOf(p.entries))[live] >= 1;
    assert multiset(Blocks(layout))[live] == Count(p, live) + out[live];
    assert multiset(Blocks(layout))[o] == Count(p, o) + out[o];
    assert multiset{live, o} <= multiset(Blocks(layout));
    PairDisjoint(layout, live, o);
  }

  lemma LivePair(p: Pool, layout: seq<nat>, out: multiset<Block>, a: Block, b: Block)
    requires Accounts(p, layout, out) && multiset{a, b} <= multiset(BlocksOf(p.entries))
    ensures Disjoint(a, b)
  {
    assert multiset(Blocks(layout))[a] == Count(p, a) + out[a];
    assert multiset(Blocks(layout))[b] == Count(p, b) + out[b];
    assert multiset{a, b}[a] == if a == b then 2 else 1;
    assert multiset{a, b} <= multiset(Blocks(layout));
    PairDisjoint(layout, a, b);
  }

  lemma FreeAndLive(p: Pool, layout: seq<nat>, out: multiset<Block>, live: Block, free: Block)
    requires Accounts(p, layout, out) && live in BlocksOf(p.entries) && free.0 in FreeList(p.free, free.1)
    ensures Disjoint(live, free)
  {
    assert multiset(BlocksOf(p.entries))[live] >= 1 && multiset(FreeList(p.free, free.1))[free.0] >= 1;
    assert multiset(Blocks(layout))[live] == Count(p, live) + out[live];
    assert multiset(Blocks(layout))[free] == Count(p, free) + out[free];
    assert multiset{live, free} <= multiset(Blocks(layout));
    PairDisjoint(layout, live, free);
  }

  /** Every byte below the bump pointer is in a live page or in a free block. */
  lemma NothingLeaks(p: Pool, layout: seq<nat>, x: nat) returns (b: Block)
    requires Tiled(p, layout) && x < p.next
    ensures b.0 <= x < b.0 + b.1
    ensures b in BlocksOf(p.entries) || b.0 in FreeList(p.free, b.1)
  {
    var i := BlocksCover(layout, x);
    b := Blocks(layout)[i];
    assert b in Blocks(layout);
    assert multiset(Blocks(layout))[b] == Count(p, b) + multiset{}[b];
  }

  // ---------------------------------------------------------------- every operation keeps it

  lemma {:induction false} SumLensConcat(a: seq<Entry>, b: seq<Entry>)
    ensures SumLens(a + b) == SumLens(a) + SumLens(b)
  {
    if b == [] {
      assert a + b == a;
    } else {
      SumLensConcat(a, b[..|b| - 1]);
      assert (a + b)[..|a + b| - 1] == a + b[..|b| - 1];
    }
  }

  lemma CutSum(a: seq<Entry>, e: Entry, b: seq<Entry>)
    ensures SumLens(a + ([e] + b)) == SumLens(a + b) + e.len
  {
    SumLensConcat(a, [e] + b);
    SumLensConcat([e], b);
    SumLensConcat(a, b);
    assert [e][..0] == [];
  }

  lemma CutBlocks(es: seq<Entry>, i: nat)
    requires i < |es|
    ensures multiset(BlocksOf(es)) == multiset(BlocksOf(es[..i] + es[i + 1..])) + multiset{(es[i].off, es[i].len)}
  {
    var bs := BlocksOf(es);
    assert bs == bs[..i] + [bs[i]] + bs[i + 1..];
    assert BlocksOf(es[..i] + es[i + 1..]) == bs[..i] + bs[i + 1..];
  }

  lemma CutDistinct(es: seq<Entry>, i: nat)
    requires i < |es| && DistinctKeys(es)
    ensures var cut := es[..i] + es[i + 1..]; DistinctKeys(cut) && forall j | 0 <= j < |cut| :: cut[j].key != es[i].key
  {
    var cut := es[..i] + es[i + 1..];
    assert forall j | 0 <= j < |cut| :: cut[j] == es[if j < i then j else j + 1];
  }

  /** Taking the entry at i out of the order. */
  lemma CutEntry(es: seq<Entry>, i: nat)
    requires i < |es|
    ensures var cut := es[..i] + es[i + 1..];
            && multiset(BlocksOf(es)) == multiset(BlocksOf(cut)) + multiset{(es[i].off, es[i].len)}
            && SumLens(es) == SumLens(cut) + es[i].len
            && (DistinctKeys(es) ==> DistinctKeys(cut) && forall j | 0 <= j < |cut| :: cut[j].key != es[i].key)
  {
    CutBlocks(es, i);
    assert es == es[..i] + ([es[i]] + es[i + 1..]);
    CutSum(es[..i], es[i], es[i + 1..]);
    if DistinctKeys(es) {
      CutDistinct(es, i);
    }
  }

  lemma PushEntry(es: seq<Entry>, e: Entry)
    ensures multiset(BlocksOf(es + [e])) == multiset(BlocksOf(es)) + multiset{(e.off, e.len)}
    ensures SumLens(es + [e]) == SumLens(es) + e.len
    ensures DistinctKeys(es) && (forall j | 0 <= j < |es| :: es[j].key != e.key) ==> DistinctKeys(es + [e])
  {
    assert BlocksOf(es + [e]) == BlocksOf(es) + [(e.off, e.len)];
    assert (es + [e])[..|es|] == es;
  }

  lemma TouchKeeps(p: Pool, layout: seq<nat>, i: nat)
    requires Tiled(p, layout) && i < |p.entries|
    ensures Tiled(p.(entries := Touched(p.entries, i)), layout)
  {
    var cut := p.entries[..i] + p.entries[i + 1..];
    CutEntry(p.entries, i);
    PushEntry(cut, p.entries[i]);
    var p' := p.(entries := Touched(p.entries, i));
    forall b: Block ensures multiset(Blocks(layout))[b] == Count(p', b) + multiset{}[b] {
      assert Count(p, b) == Count(p', b);
    }
  }

  lemma FreedCount(free: map<nat, seq<nat>>, off: nat, len: nat, b: Block)
    ensures multiset(FreeList(Freed(free, off, len), b.1))[b.0] ==
            multiset(FreeList(free, b.1))[b.0] + multiset{(off, len)}[b]
  {
  }

  /** The pool once the page at i has been freed, by removal or by eviction. */
  function FreedAt(p: Pool, i: nat): Pool
    requires i < |p.entries|
  {
    var e := p.entries[i];
    p.(entries := p.entries[..i] + p.entries[i + 1..], used := p.used - e.len, free := Freed(p.free, e.off, e.len))
  }

  /** Freeing a page only moves its block from the live to the free side. */
  lemma FreeMovesBlock(p: Pool, i: nat, b: Block)
    requires i < |p.entries|
    ensures Count(FreedAt(p, i), b) == Count(p, b)
  {
    var e := p.entries[i];
    CutBlocks(p.entries, i);
    FreedCount(p.free, e.off, e.len, b);
  }

  lemma FreeKeeps(p: Pool, layout: seq<nat>, i: nat)
    requires Tiled(p, layout) && i < |p.entries|
    ensures Tiled(FreedAt(p, i), layout)
  {
    CutEntry(p.entries, i);
    forall b: Block ensures multiset(Blocks(layout))[b] == Count(FreedAt(p, i), b) + multiset{}[b] {
      FreeMovesBlock(p, i, b);
    }
  }

  lemma EvictKeeps(p: Pool, layout: seq<nat>)
    requires Tiled(p, layout) && p.entries != []
    ensures Tiled(Evicted(p), layout)
    ensures FreeList(Evicted(p).free, p.entries[0].len) != []
  {
    FreeKeeps(p, layout, 0);
    assert FreedAt(p, 0) == Evicted(p);
  }

  /** Tiled but for the one block that has just been allocated. */
  ghost predicate TiledBut(p: Pool, layout: seq<nat>, b: Block) {
    && Accounts(p, layout, multiset{b})
    && p.used == SumLens(p.entries)
    && DistinctKeys(p.entries)
  }

  lemma PopKeeps(p: Pool, layout: seq<nat>, len: nat)
    requires Tiled(p, layout) && FreeList(p.free, len) != []
    ensures var l := FreeList(p.free, len); TiledBut(Popped(p, len), layout, (l[|l| - 1], len))
  {
    var l := FreeList(p.free, len);
    var n := |l| - 1;
    assert l == l[..n] + [l[n]];
    var p' := Popped(p, len);
    forall b: Block ensures multiset(Blocks(layout))[b] == Count(p', b) + multiset{(l[n], len)}[b] {
      assert Count(p, b) == Count(p', b) + multiset{(l[n], len)}[b];
    }
  }

  lemma {:induction false} EvictForKeeps(p: Pool, layout: seq<nat>, len: nat)
    requires Tiled(p, layout)
    ensures var a := EvictFor(p, len);
            if a.off < 0 then Tiled(a.pool, layout) else TiledBut(a.pool, layout, (a.off, len))
    decreases |p.entries|
  {
    if p.entries != [] {
      EvictKeeps(p, layout);
      if p.entries[0].len == len {
        PopKeeps(Evicted(p), layout, len);
      } else {
        EvictForKeeps(Evicted(p), layout, len);
      }
    }
  }

  lemma CarveKeeps(p: Pool, layout: seq<nat>, len: nat)
    requires Tiled(p, layout) && p.next + len <= p.capacity
    ensures TiledBut(p.(next := p.next + len), layout + [len], (p.next, len))
  {
    var longer := layout + [len];
    assert longer[..|layout|] == layout;
    var p' := p.(next := p.next + len);
    forall b: Block ensures multiset(Blocks(longer))[b] == Count(p', b) + multiset{(p.next, len)}[b] {
      assert multiset(Blocks(layout))[b] == Count(p, b) + multiset{}[b];
      assert Count(p', b) == Count(p, b);
      assert Blocks(longer) == Blocks(layout) + [(p.next, len)];
    }
  }

  lemma AllocateKeeps(p: Pool, layout: seq<nat>, len: nat) returns (layout': seq<nat>)
    requires Tiled(p, layout)
    ensures var a := Allocate(p, len);
            if a.off < 0 then Tiled(a.pool, layout') else TiledBut(a.pool, layout', (a.off, len))
  {
    layout' := layout;
    if len <= p.capacity {
      if FreeList(p.free, len) != [] {
        PopKeeps(p, layout, len);
      } else if p.next + len <= p.capacity {
        layout' := layout + [len];
        CarveKeeps(p, layout, len);
      } else {
        EvictForKeeps(p, layout, len);
      }
    }
  }

  lemma AllocateEntries(p: Pool, len: nat)
    ensures forall e | e in Allocate(p, len).pool.entries :: e in p.entries
    ensures Allocate(p, len).pool.capacity == p.capacity
  {
    EvictForPrefix(p, len);
  }

  lemma ReserveKeeps(p: Pool, layout: seq<nat>, key: string, len: nat) returns (layout': seq<nat>)
    requires Tiled(p, layout)
    ensures Tiled(Reserve(p, key, len).pool, layout')
  {
    var i := Find(p.entries, key);
    if i >= 0 {
      layout' := layout;
      TouchKeeps(p, layout, i);
    } else {
      layout' := AllocateKeeps(p, layout, len);
      AllocateEntries(p, len);
      PlaceKeeps(Allocate(p, len), layout', key, len);
    }
  }

  /** Entering the allocated block, if there is one, under a key that is not resident. */
  lemma PlaceKeeps(a: Alloc, layout: seq<nat>, key: string, len: nat)
    requires if a.off < 0 then Tiled(a.pool, layout) else TiledBut(a.pool, layout, (a.off, len))
    requires forall x | x in a.pool.entries :: x.key != key
    ensures Tiled(Placed(a, key, len).pool, layout)
  {
    if a.off >= 0 {
      CommitKeeps(a.pool, layout, Entry(key, a.off, len));
    }
  }

  lemma CommitKeeps(p: Pool, layout: seq<nat>, e: Entry)
    requires TiledBut(p, layout, (e.off, e.len)) && forall x | x in p.entries :: x.key != e.key
    ensures Tiled(p.(entries := p.entries + [e], used := p.used + e.len), layout)
  {
    PushEntry(p.entries, e);
    CommitAccounts(p, layout, e);
  }

  lemma CommitAccounts(p: Pool, layout: seq<nat>, e: Entry)
    requires Accounts(p, layout, multiset{(e.off, e.len)})
    ensures Accounts(p.(entries := p.entries + [e], used := p.used + e.len), layout, multiset{})
  {
    var p' := p.(entries := p.entries + [e], used := p.used + e.len);
    forall b: Block ensures Count(p', b) == Count(p, b) + multiset{(e.off, e.len)}[b] {
      CommitCount(p, p', e, b);
    }
  }

  lemma CommitCount(p: Pool, p': Pool, e: Entry, b: Block)
    requires p'.entries == p.entries + [e] && p'.free == p.free
    ensures Count(p', b) == Count(p, b) + multiset{(e.off, e.len)}[b]
  {
    PushEntry(p.entries, e);
  }

  lemma LookedKeeps(p: Pool, layout: seq<nat>, key: string)
    requires Tiled(p, layout)
    ensures Tiled(Looked(p, key), layout)
  {
    if Find(p.entries, key) >= 0 {
      TouchKeeps(p, layout, Find(p.entries, key));
    }
  }

  lemma RemovedKeeps(p: Pool, layout: seq<nat>, key: string)
    requires Tiled(p, layout)
    ensures Tiled(Removed(p, key), layout)
  {
    if Find(p.entries, key) >= 0 {
      FreeKeeps(p, layout, Find(p.entries, key));
    }
  }

  // ---------------------------------------------------------------- pages stay where they are

  function PageBytes(mem: seq<Byte>, e: Entry): seq<Byte>
    requires e.off + e.len <= |mem|
  {
    Loaded(mem, e.off, e.len)
  }

  /** The pool's memory after publish(key, data). */
  function Published(p: Pool, mem: seq<Byte>, key: string, data: seq<Byte>): seq<Byte> {
    var a := Allocate(p, |data|);
    if Find(p.entries, key) >= 0 || a.off < 0 || a.off + |data| > |mem| then mem else Stored(mem, a.off, data)
  }

  /** No operation moves a page: an entry afterwards is an entry from before, or the newly
      published one. */
  lemma EntriesNeverMove(p: Pool, key: string, len: nat)
    ensures forall e | e in Reserve(p, key, len).pool.entries ::
              e in p.entries || (e.key == key && Find(p.entries, key) < 0 && e.len == len && e.off == Reserve(p, key, len).off)
    ensures forall e | e in Looked(p, key).entries :: e in p.entries
    ensures forall e | e in Removed(p, key).entries :: e in p.entries && (DistinctKeys(p.entries) ==> e.key != key)
  {
    AllocateEntries(p, len);
  }

  /** The freshly allocated block lies inside the memory and touches no live page. */
  lemma AllocateApart(p: Pool, layout: seq<nat>, len: nat, e: Entry)
    requires Tiled(p, layout)
    ensures var a := Allocate(p, len);
            a.off >= 0 ==> a.off + len <= p.capacity
                           && (e in a.pool.entries ==> Disjoint((e.off, e.len), (a.off, len)) && e.off + e.len <= p.capacity)
  {
    var a := Allocate(p, len);
    if a.off >= 0 {
      var layout' := AllocateKeeps(p, layout, len);
      AllocateEntries(p, len);
      var b: Block := (a.off, len);
      assert multiset(Blocks(layout'))[b] == Count(a.pool, b) + multiset{b}[b];
      var at := IndexOf(Blocks(layout'), b);
      BlocksInside(layout', at);
      if e in a.pool.entries {
        var i :| 0 <= i < |a.pool.entries| && a.pool.entries[i] == e;
        LiveApart(a.pool, layout', multiset{b}, i);
      }
    }
  }

  /** Any live page lies within the memory. */
  lemma LiveWithin(p: Pool, layout: seq<nat>, e: Entry)
    requires Tiled(p, layout) && e in p.entries
    ensures e.off + e.len <= p.capacity
  {
    var i :| 0 <= i < |p.entries| && p.entries[i] == e;
    assert BlocksOf(p.entries)[i] == (e.off, e.len);
    LiveInside(p, layout, multiset{}, (e.off, e.len));
  }

  lemma CopyApart(mem: seq<Byte>, off: nat, data: seq<Byte>, e: Entry)
    requires off + |data| <= |mem| && e.off + e.len <= |mem| && Disjoint((e.off, e.len), (off, |data|))
    ensures PageBytes(Stored(mem, off, data), e) == PageBytes(mem, e)
  {
    LoadStored(mem, off, data, e.off, e.len);
  }

  lemma CopyOwn(mem: seq<Byte>, data: seq<Byte>, e: Entry)
    requires e.off + e.len <= |mem| && e.len == |data|
    ensures PageBytes(Stored(mem, e.off, data), e) == data
  {
    LoadStored(mem, e.off, data, e.off, e.len);
    assert data[0..|data|] == data;
  }

  /** What a publish does to the memory, in terms of what it answers. */
  lemma PublishedIs(p: Pool, mem: seq<Byte>, key: string, data: seq<Byte>)
    requires Find(p.entries, key) < 0 && Reserve(p, key, |data|).off >= 0 ==> Reserve(p, key, |data|).off + |data| <= |mem|
    ensures Published(p, mem, key, data) ==
            if Find(p.entries, key) < 0 && Reserve(p, key, |data|).off >= 0 then Stored(mem, Reserve(p, key, |data|).off, data) else mem
  {
  }

  /** A publish overwrites no page whose key stays resident, and lays its own page down
      whole. */
  lemma PublishIsStable(p: Pool, layout: seq<nat>, mem: seq<Byte>, key: string, data: seq<Byte>, e: Entry)
    requires Tiled(p, layout) && |mem| == p.capacity && e in Reserve(p, key, |data|).pool.entries
    ensures e.off + e.len <= |mem| && |Published(p, mem, key, data)| == |mem|
    ensures PageBytes(Published(p, mem, key, data), e) ==
            if e in p.entries then PageBytes(mem, e) else data
  {
    EntriesNeverMove(p, key, |data|);
    if e in p.entries {
      LiveWithin(p, layout, e);
    }
    if Find(p.entries, key) < 0 && Allocate(p, |data|).off >= 0 {
      FreshCopy(p, layout, mem, key, data, e);
    }
  }

  lemma FreshCopy(p: Pool, layout: seq<nat>, mem: seq<Byte>, key: string, data: seq<Byte>, e: Entry)
    requires Tiled(p, layout) && |mem| == p.capacity && Allocate(p, |data|).off >= 0 && Find(p.entries, key) < 0
    requires e in Reserve(p, key, |data|).pool.entries
    ensures var off := Allocate(p, |data|).off;
            && off + |data| <= |mem| && e.off + e.len <= |mem|
            && PageBytes(Stored(mem, off, data), e) == if e in p.entries then PageBytes(mem, e) else data
  {
    var a := Allocate(p, |data|);
    AllocateEntries(p, |data|);
    AllocateApart(p, layout, |data|, e);
    if e in a.pool.entries {
      LiveWithin(p, layout, e);
      CopyApart(mem, a.off, data, e);
    } else {
      CopyOwn(mem, data, e);
    }
  }

  // ---------------------------------------------------------------- runs

  datatype Op = ReserveOp(key: string, len: nat) | LookOp(key: string) | RemoveOp(key: string)

  function Did(p: Pool, op: Op): Pool {
    match op
    case ReserveOp(key, len) => Reserve(p, key, len).pool
    case LookOp(key) => Looked(p, key)
    case RemoveOp(key) => Removed(p, key)
  }

  function Ran(p: Pool, ops: seq<Op>): Pool {
    if ops == [] then p else Did(Ran(p, ops[..|ops| - 1]), ops[|ops| - 1])
  }

  /** From an empty pool, any run of operations leaves live and free blocks tiling
      [0, next), within capacity, with `used` the sum of the live lengths. */
  lemma {:induction false} RunsStayTiled(capacity: nat, ops: seq<Op>) returns (layout: seq<nat>)
    ensures Tiled(Ran(Empty(capacity), ops), layout) && Ran(Empty(capacity), ops).capacity == capacity
  {
    if ops == [] {
      layout := [];
    } else {
      var before := ops[..|ops| - 1];
      var p := Ran(Empty(capacity), before);
      layout := RunsStayTiled(capacity, before);
      match ops[|ops| - 1] {
        case ReserveOp(key, len) =>
          AllocateEntries(p, len);
          layout := ReserveKeeps(p, layout, key, len);
        case LookOp(key) => LookedKeeps(p, layout, key);
        case RemoveOp(key) => RemovedKeeps(p, layout, key);
      }
    }
  }
}
