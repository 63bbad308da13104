/** A lookup that misses an entry a live replica holds, because the group it travels in
    falls back to another key's replicas. */
module DirectoryFallback {
  import opened Sequences
  import opened HashRing
  import opened RingObject
  import opened Directory

  lemma PairGroups(cfg: Config, ring: Ring, x: string, y: string, p: string)
    requires Owners(cfg, ring, x) != [] && Owners(cfg, ring, x)[0] == p
    requires Owners(cfg, ring, y) != [] && Owners(cfg, ring, y)[0] == p
    ensures GroupOf(cfg, ring, [x, y], p) == [x, y] && GroupOf(cfg, ring, [y], p) == [y]
  {
    assert [x, y][..1] == [x] && [x][..0] == [] && [y][..0] == [];
    assert GroupOf(cfg, ring, [x], p) == [x];
  }

  /** With the primary p down, a key is answered by the second owner of its group's leader. */
  lemma AnsweredBySecond(cfg: Config, d: Dir<nat>, keys: seq<string>, key: string, lead: string, p: string, r: string)
    requires cfg.replicas > 1 && p !in d.shards && r in d.shards
    requires Owners(cfg, d.ring, key) != [] && Owners(cfg, d.ring, key)[0] == p && Owners(cfg, d.ring, lead) == [p, r]
    requires GroupOf(cfg, d.ring, keys, p) != [] && GroupOf(cfg, d.ring, keys, p)[0] == lead
    ensures Lookup(cfg, d, keys, key) == Stored(d, r, key)
  {
    FirstLiveAt(d, [p, r], 1);
  }

  lemma PairLookups(cfg: Config, t: Dir<nat>, x: string, y: string, p: string, a: string, b: string)
    requires cfg.replicas > 1 && p !in t.shards && a in t.shards && b in t.shards
    requires Owners(cfg, t.ring, x) == [p, a] && Owners(cfg, t.ring, y) == [p, b]
    ensures Lookup(cfg, t, [x, y], y) == Stored(t, a, y) && Lookup(cfg, t, [y], y) == Stored(t, b, y)
  {
    PairGroups(cfg, t.ring, x, y, p);
    AnsweredBySecond(cfg, t, [x, y], y, x, p, a);
    AnsweredBySecond(cfg, t, [y], y, y, p, b);
  }

  /** x and y share the primary p but not the second replica, y was put with those owners,
      and only p is down. */
  predicate Divided(cfg: Config, t: Dir<nat>, x: string, y: string, p: string, a: string, b: string) {
    && cfg.replicas > 1 && p !in t.shards && a in t.shards && b in t.shards && a != b && a != p
    && Owners(cfg, t.ring, x) == [p, a] && Owners(cfg, t.ring, y) == [p, b] && y in t.flat && y in t.placed && t.placed[y] == [p, b]
  }

  /** Then a lookup of x and y together is answered by x's replica, which does not hold y,
      although y's own replica does and a lookup of y alone finds it there. */
  lemma SecondKeyMisses(cfg: Config, t: Dir<nat>, x: string, y: string, p: string, a: string, b: string)
    requires DirInv(cfg, t) && Divided(cfg, t, x, y, p, a, b)
    ensures Lookup(cfg, t, [x, y], y) == Nothing
    ensures Stored(t, b, y) == Found(t.flat[y]) && Lookup(cfg, t, [y], y) == Found(t.flat[y])
  {
    PairLookups(cfg, t, x, y, p, a, b);
    assert y in t.shards[a] <==> a in t.placed[y];
    assert y in t.shards[b] <==> b in t.placed[y];
  }

  // ---------------------------------------------------------------- such a ring

  /** Three nodes with two points each: p at 10 and 30, a at 20 and 21, b at 40 and 41. The
      key x hashes to 5, every other key to 25. */
  function Sample(p: string, a: string, x: string): Config {
    Config(Hash((n: string, i: nat) => Point(p, a, n, i), (k: string) => if k == x then 5 else 25), 2, 2)
  }

  function Point(p: string, a: string, n: string, i: nat): nat {
    (if n == p then 10 else if n == a then 20 else 40) + if i == 0 then 0 else if n == p then 20 else 1
  }

  const POINTS: seq<nat> := [10, 20, 21, 30, 40, 41]

  function SampleRing(p: string, a: string, b: string): Ring {
    Ring(map[10 := p, 20 := a, 21 := a, 30 := p, 40 := b, 41 := b], POINTS, {p, a, b})
  }

  function SampleDir(p: string, a: string, b: string): Dir<nat> {
    Dir(SampleRing(p, a, b), map[p := map[], a := map[], b := map[]], map[], map[], map[])
  }

  lemma SamplePoints(p: string, a: string, x: string, n: string)
    ensures PointsOf(Sample(p, a, x).hash, 2, n) == {Point(p, a, n, 0), Point(p, a, n, 1)}
  {
    var h := Sample(p, a, x).hash;
    assert h.point(n, 0) == Point(p, a, n, 0) && h.point(n, 1) == Point(p, a, n, 1);
  }

  lemma SampleStarts(p: string, a: string, b: string, x: string)
    requires p != a && p != b && a != b
    ensures Start(Sample(p, a, x), SampleDir(p, a, b))
  {
    SampleRingOk(p, a, b, x);
    SampleApart(p, a, b, x);
    assert Ascending(POINTS);
  }

  lemma SampleRingOk(p: string, a: string, b: string, x: string)
    requires p != a && p != b && a != b
    ensures IsRingOf(SampleRing(p, a, b).m, Sample(p, a, x).hash, 2, {p, a, b})
  {
    SamplePoints(p, a, x, p);
    SamplePoints(p, a, x, a);
    SamplePoints(p, a, x, b);
  }

  lemma SampleApart(p: string, a: string, b: string, x: string)
    requires p != a && p != b && a != b
    ensures NoCollisions(Sample(p, a, x).hash, 2, {p, a, b})
  {
    forall m, n | m in {p, a, b} && n in {p, a, b} && m != n ensures Apart(Sample(p, a, x).hash, 2, m, n) {
      SamplePoints(p, a, x, m);
      SamplePoints(p, a, x, n);
    }
  }

  /** The first two nodes of a walk, when the first two points are different nodes'. */
  lemma FirstTwo(names: seq<string>, u: string, v: string)
    requires |names| >= 2 && names[0] == u && names[1] == v && u != v
    ensures Take(Distinct(names), 2) == [u, v]
  {
    DistinctPrefix(names, 2);
    assert names[..2] == [u, v] && [u, v][..1] == [u] && [u][..0] == [];
    assert Distinct([u]) == [u];
  }

  lemma OwnersAt(cfg: Config, ring: Ring, key: string, u: string, v: string)
    requires cfg.replicas == 2 && AllIn(ring.ks, ring.m) && |ring.ks| >= 2 && u != v
    requires var names := NodesOn(ring.m, Clockwise(ring.ks, cfg.hash.place(key))); names[0] == u && names[1] == v
    ensures Owners(cfg, ring, key) == [u, v]
  {
    FirstTwo(NodesOn(ring.m, Clockwise(ring.ks, cfg.hash.place(key))), u, v);
  }

  lemma ClockwiseFrom(h: nat, i: nat)
    requires (h == 5 && i == 0) || (h == 25 && i == 3)
    ensures Clockwise(POINTS, h)[0] == POINTS[i] && Clockwise(POINTS, h)[1] == POINTS[i + 1]
  {
    BisectSpec(POINTS, h);
    assert POINTS[0] == 10 && POINTS[2] == 21 && POINTS[3] == 30;
    assert Bisect(POINTS, h) == i;
  }

  lemma OwnersOfX(p: string, a: string, b: string, x: string)
    requires p != a
    ensures Owners(Sample(p, a, x), SampleRing(p, a, b), x) == [p, a]
  {
    ClockwiseFrom(5, 0);
    OwnersAt(Sample(p, a, x), SampleRing(p, a, b), x, p, a);
  }

  lemma OwnersOfY(p: string, a: string, b: string, x: string, y: string)
    requires p != b && x != y
    ensures Owners(Sample(p, a, x), SampleRing(p, a, b), y) == [p, b]
  {
    ClockwiseFrom(25, 3);
    OwnersAt(Sample(p, a, x), SampleRing(p, a, b), y, p, b);
  }

  /** Putting y and crashing the shared primary divides them. */
  lemma CrashDivides(cfg: Config, d: Dir<nat>, t: Dir<nat>, x: string, y: string, p: string, a: string, b: string)
    requires cfg.replicas > 1 && a in d.shards && b in d.shards && a != b && a != p && b != p
    requires Owners(cfg, d.ring, x) == [p, a] && Owners(cfg, d.ring, y) == [p, b]
    requires t.ring == d.ring && t.shards.Keys == d.shards.Keys - {p}
    requires y in t.flat && y in t.placed && t.placed[y] == Owners(cfg, d.ring, y)
    ensures Divided(cfg, t, x, y, p, a, b)
  {
  }

  lemma StartThenCrash(cfg: Config, d: Dir<nat>, entries: map<string, nat>, p: string)
    requires Start(cfg, d)
    ensures DirInv(cfg, Crash(Put(cfg, d, entries), p))
  {
    PutKeeps(cfg, d, entries);
    CrashKeeps(cfg, Put(cfg, d, entries), p);
  }

  lemma PutFields(cfg: Config, d: Dir<nat>, entries: map<string, nat>, y: string, p: string)
    requires y in entries
    ensures var t := Crash(Put(cfg, d, entries), p);
            && t.ring == d.ring && t.shards.Keys == d.shards.Keys - {p}
            && y in t.flat && t.flat[y] == entries[y] && y in t.placed && t.placed[y] == Owners(cfg, d.ring, y)
  {
  }

  /** The input: on that ring, put x and y, crash p, and look both up in one call. */
  lemma FallbackMisses(p: string, a: string, b: string, x: string, y: string)
    requires p != a && p != b && a != b && x != y
    ensures var cfg, d := Sample(p, a, x), SampleDir(p, a, b);
            var t := Crash(Put(cfg, d, map[x := 1, y := 2]), p);
            && Start(cfg, d) && Lookup(cfg, t, [x, y], y) == Nothing
            && Stored(t, b, y) == Found(2) && Lookup(cfg, t, [y], y) == Found(2)
  {
    SampleStarts(p, a, b, x);
    OwnersOfX(p, a, b, x);
    OwnersOfY(p, a, b, x, y);
    var cfg, d, entries := Sample(p, a, x), SampleDir(p, a, b), map[x := 1, y := 2];
    StartThenCrash(cfg, d, entries, p);
    PutFields(cfg, d, entries, y, p);
    CrashDivides(cfg, d, Crash(Put(cfg, d, entries), p), x, y, p, a, b);
    SecondKeyMisses(cfg, Crash(Put(cfg, d, entries), p), x, y, p, a, b);
  }
}
