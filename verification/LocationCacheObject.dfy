/** The location caches as the fields and batch methods of the store object
    (python/peercache/store.py). */
module LocationCacheObject {
  import opened LocationCache

  /** The keys of a lookup that the read cache does not answer, in order. */
  function Misses(c: Caches, keys: seq<Key>, now: real): seq<Key> {
    if keys == [] then []
    else
      var n := |keys| - 1;
      var m := Misses(c, keys[..n], now);
      if DirHit(c, keys[n], now) then m else m + [keys[n]]
  }

  lemma {:induction false} DirAfterMisses(c: Caches, keys: seq<Key>, now: real, ask: Answers)
    ensures DirAfter(c, Misses(c, keys, now), now, ask) == DirAfter(c, keys, now, ask)
  {
    if keys != [] {
      var n := |keys| - 1;
      DirAfterMisses(c, keys[..n], now, ask);
      var m := Misses(c, keys[..n], now);
      assert (m + [keys[n]])[..|m|] == m;
    }
  }

  /** The directory's reply to a batch. */
  function Asked(keys: seq<Key>, ask: Answers): (r: seq<Option<Location>>)
    ensures |r| == |keys| && forall i | 0 <= i < |keys| :: r[i] == ask(keys[i])
  {
    seq(|keys|, i requires 0 <= i < |keys| => ask(keys[i]))
  }

  class LocationCaches {
    const dirTtl: real
    const primedTtl: real
    const cap: nat
    var dir: map<Key, Cached>
    var primed: map<Key, Cached>

    ghost function Value(): Caches
      reads this
    {
      Caches(dirTtl, primedTtl, cap, dir, primed)
    }

    constructor (dirTtl: real)
      ensures Value() == Empty(dirTtl, 1.0, 65536)
    {
      this.dirTtl, primedTtl, cap := dirTtl, 1.0, 65536;
      dir, primed := map[], map[];
    }

    /** First pass of the lookup: fill in the hits, collect the misses and their places. */
    method SplitHits(keys: seq<Key>, now: real) returns (out: seq<Option<Location>>, missKeys: seq<Key>, missAt: seq<nat>)
      requires dirTtl > 0.0
      ensures |out| == |keys| && |missKeys| == |missAt|
      ensures missKeys == Misses(Value(), keys, now)
      ensures forall j | 0 <= j < |missAt| :: missAt[j] < |keys| && keys[missAt[j]] == missKeys[j] && !DirHit(Value(), missKeys[j], now)
      ensures forall i: nat | i < |keys| && i !in missAt :: DirHit(Value(), keys[i], now) && out[i] == Some(dir[keys[i]].loc)
    {
      out, missKeys, missAt := seq(|keys|, _ => None), [], [];
      for n := 0 to |keys|
        invariant |out| == |keys| && |missKeys| == |missAt|
        invariant missKeys == Misses(Value(), keys[..n], now)
        invariant forall j | 0 <= j < |missAt| :: missAt[j] < n && keys[missAt[j]] == missKeys[j] && !DirHit(Value(), missKeys[j], now)
        invariant forall i: nat | i < n && i !in missAt :: DirHit(Value(), keys[i], now) && out[i] == Some(dir[keys[i]].loc)
      {
        var k := keys[n];
        assert keys[..n + 1][..n] == keys[..n];
        if k in dir && dir[k].expires > now {
          out := out[n := Some(dir[k].loc)];
        } else {
          missKeys := missKeys + [k];
          missAt := missAt + [n];
        }
      }
      assert keys[..|keys|] == keys;
    }

    /** Second pass: ask the directory for the misses, put each reply in its place and keep
        the resident ones. */
    method FillMisses(keys: seq<Key>, out: seq<Option<Location>>, missKeys: seq<Key>, missAt: seq<nat>, now: real, ask: Answers)
      returns (filled: seq<Option<Location>>)
      requires dirTtl > 0.0 && |missKeys| == |missAt| && |out| == |keys|
      requires forall j | 0 <= j < |missAt| :: missAt[j] < |keys| && keys[missAt[j]] == missKeys[j] && !DirHit(Value(), missKeys[j], now)
      modifies this`dir
      ensures |filled| == |out|
      ensures forall i: nat | i < |out| :: filled[i] == if i in missAt then ask(keys[i]) else out[i]
      ensures dir == DirAfter(old(Value()), missKeys, now, ask)
    {
      filled := out;
      var reply := Asked(missKeys, ask);
      for j := 0 to |reply|
        invariant |filled| == |out|
        invariant forall i: nat | i < |out| :: filled[i] == if i in missAt[..j] then ask(keys[i]) else out[i]
        invariant dir == DirAfter(old(Value()), missKeys[..j], now, ask)
      {
        var loc := reply[j];
        assert missKeys[..j + 1][..j] == missKeys[..j];
        assert missAt[..j + 1] == missAt[..j] + [missAt[j]];
        filled := filled[missAt[j] := loc];
        if loc.Some? && loc.value.resident {
          dir := dir[missKeys[j] := Cached(loc.value, now + dirTtl)];
        }
      }
      assert missKeys[..|reply|] == missKeys && missAt[..|reply|] == missAt;
    }

    method DirGet(keys: seq<Key>, now: real, ask: Answers) returns (out: seq<Option<Location>>)
      modifies this`dir
      ensures dir == DirAfter(old(Value()), keys, now, ask)
      ensures out == Found(old(Value()), keys, now, ask)
    {
      ghost var c := Value();
      if dirTtl <= 0.0 {
        return Asked(keys, ask);
      }
      var first, missKeys, missAt := SplitHits(keys, now);
      DirAfterMisses(c, keys, now, ask);
      out := FillMisses(keys, first, missKeys, missAt, now, ask);
      forall i: nat | i < |keys| ensures out[i] == DirAnswer(c, keys[i], now, ask) {
        if i in missAt {
          var j :| 0 <= j < |missAt| && missAt[j] == i;
          assert keys[missAt[j]] == missKeys[j];
        }
      }
    }

    method Invalidate(keys: seq<Key>)
      modifies this`dir
      ensures Value() == Forgot(old(Value()), keys)
    {
      if dirTtl <= 0.0 || keys == [] {
        assert dir - (set k | k in keys) == dir || dirTtl <= 0.0;
        return;
      }
      for j := 0 to |keys|
        invariant dir == old(dir) - (set k | k in keys[..j])
      {
        assert keys[..j + 1] == keys[..j] + [keys[j]];
        dir := dir - {keys[j]};
      }
      assert keys[..|keys|] == keys;
    }

    method Prime(keys: seq<Key>, locs: seq<Option<Location>>, now: real)
      requires |keys| == |locs|
      modifies this`primed
      ensures primed == Primed(primedTtl, Swept(old(primed), cap, now), keys, locs, now)
    {
      if |primed| > cap {
        primed := map k | k in primed && primed[k].expires > now :: primed[k];
      }
      for j := 0 to |keys|
        invariant primed == Primed(primedTtl, Swept(old(primed), cap, now), keys[..j], locs[..j], now)
      {
        assert keys[..j + 1][..j] == keys[..j] && locs[..j + 1][..j] == locs[..j];
        if locs[j].Some? && locs[j].value.resident {
          primed := primed[keys[j] := Cached(locs[j].value, now + primedTtl)];
        }
      }
      assert keys[..|keys|] == keys && locs[..|keys|] == locs;
    }

    /** First pass of a fetch: pop every named prime, use the live ones. */
    method PopPrimes(keys: seq<Key>, now: real) returns (out: seq<Option<Location>>, missKeys: seq<Key>, missAt: seq<nat>)
      modifies this`primed
      ensures primed == old(primed) - (set k | k in keys)
      ensures |out| == |keys| && |missKeys| == |missAt|
      ensures missKeys == Unprimed(old(Value()), keys, now)
      ensures forall j | 0 <= j < |missAt| :: missAt[j] < |keys| && keys[missAt[j]] == missKeys[j] && !PrimedHit(old(Value()), keys, missAt[j], now)
      ensures forall i: nat | i < |keys| && i !in missAt :: PrimedHit(old(Value()), keys, i, now) && out[i] == Some(old(primed)[keys[i]].loc)
    {
      ghost var c := Value();
      out, missKeys, missAt := seq(|keys|, _ => None), [], [];
      for n := 0 to |keys|
        invariant primed == old(primed) - (set k | k in keys[..n])
        invariant Popped(c, keys, now, n, out, missKeys, missAt)
      {
        var k := keys[n];
        assert keys[..n + 1] == keys[..n] + [k];
        assert k in primed && primed[k].expires > now <==> PrimedHit(c, keys, n, now);
        if k in primed && primed[k].expires > now {
          PopHit(c, keys, now, n, out, missKeys, missAt);
          out := out[n := Some(primed[k].loc)];
        } else {
          PopMiss(c, keys, now, n, out, missKeys, missAt);
          missKeys := missKeys + [k];
          missAt := missAt + [n];
        }
        primed := primed - {k};
      }
      assert keys[..|keys|] == keys;
    }

    /** Each reply goes to the place of its key. */
    static method PlaceReplies(ghost c: Caches, ghost keys: seq<Key>, ghost now: real, ghost ask: Answers,
                               hits: seq<Option<Location>>, missAt: seq<nat>, rest: seq<Option<Location>>)
      returns (out: seq<Option<Location>>)
      requires |hits| == |keys| && |rest| == |missAt|
      requires forall j | 0 <= j < |missAt| :: missAt[j] < |keys| && rest[j] == DirAnswer(c, keys[missAt[j]], now, ask)
      ensures Replied(c, keys, now, ask, hits, missAt, out)
    {
      out := hits;
      for j := 0 to |rest|
        invariant Replied(c, keys, now, ask, hits, missAt[..j], out)
      {
        assert missAt[..j + 1] == missAt[..j] + [missAt[j]];
        ReplyNext(c, keys, now, ask, hits, missAt[..j], out, missAt[j]);
        out := out[missAt[j] := rest[j]];
      }
      assert missAt[..|rest|] == missAt;
    }

    method TakePrimed(keys: seq<Key>, now: real, ask: Answers) returns (out: seq<Option<Location>>)
      modifies this
      ensures Value() == Taken(old(Value()), keys, now, ask)
      ensures |out| == |keys| && forall i: nat | i < |keys| :: out[i] == TakenAt(old(Value()), keys, i, now, ask)
    {
      ghost var c := Value();
      var missKeys, missAt;
      out, missKeys, missAt := PopPrimes(keys, now);
      var hits := out;
      var rest := DirGet(missKeys, now, ask);
      SameDir(c, c.(primed := primed), missKeys, now, ask);
      assert Value() == Taken(c, keys, now, ask);
      out := PlaceReplies(c, keys, now, ask, hits, missAt, rest);
      RepliedIsTaken(c, keys, now, ask, hits, missAt, out);
    }

    /** The tail of a probe: look the keys up, prime the first hit of them. */
    method Probe(keys: seq<Key>, hit: nat, now: real, ask: Answers) returns (locs: seq<Option<Location>>)
      requires hit <= |keys|
      modifies this
      ensures Value() == Probed(old(Value()), keys, hit, now, ask)
      ensures locs == Found(old(Value()), keys, now, ask)
    {
      locs := DirGet(keys, now, ask);
      if hit > 0 {
        Prime(keys[..hit], locs[..hit], now);
      }
    }
  }

  /** The first n keys have been popped: hits are in their places, misses are listed. */
  ghost predicate Popped(c: Caches, keys: seq<Key>, now: real, n: nat,
                         out: seq<Option<Location>>, missKeys: seq<Key>, missAt: seq<nat>) {
    && n <= |keys| == |out| && |missKeys| == |missAt| && missKeys == Unprimed(c, keys[..n], now)
    && (forall j | 0 <= j < |missAt| :: missAt[j] < n && keys[missAt[j]] == missKeys[j] && !PrimedHit(c, keys, missAt[j], now))
    && (forall i: nat | i < n && i !in missAt :: PrimedHit(c, keys, i, now) && out[i] == Some(c.primed[keys[i]].loc))
  }

  lemma PopHit(c: Caches, keys: seq<Key>, now: real, n: nat, out: seq<Option<Location>>, missKeys: seq<Key>, missAt: seq<nat>)
    requires Popped(c, keys, now, n, out, missKeys, missAt) && n < |keys| && PrimedHit(c, keys, n, now)
    ensures Popped(c, keys, now, n + 1, out[n := Some(c.primed[keys[n]].loc)], missKeys, missAt)
  {
    assert keys[..n + 1][..n] == keys[..n];
  }

  lemma PopMiss(c: Caches, keys: seq<Key>, now: real, n: nat, out: seq<Option<Location>>, missKeys: seq<Key>, missAt: seq<nat>)
    requires Popped(c, keys, now, n, out, missKeys, missAt) && n < |keys| && !PrimedHit(c, keys, n, now)
    ensures Popped(c, keys, now, n + 1, out, missKeys + [keys[n]], missAt + [n])
  {
    assert keys[..n + 1][..n] == keys[..n];
  }

  /** out is hits with the lookup's answers in the places `at`. */
  ghost predicate Replied(c: Caches, keys: seq<Key>, now: real, ask: Answers,
                          hits: seq<Option<Location>>, at: seq<nat>, out: seq<Option<Location>>) {
    && |out| == |hits| == |keys|
    && forall i: nat | i < |keys| :: out[i] == if i in at then DirAnswer(c, keys[i], now, ask) else hits[i]
  }

  lemma RepliedIsTaken(c: Caches, keys: seq<Key>, now: real, ask: Answers,
                       hits: seq<Option<Location>>, missAt: seq<nat>, out: seq<Option<Location>>)
    requires Replied(c, keys, now, ask, hits, missAt, out)
    requires forall j | 0 <= j < |missAt| :: missAt[j] < |keys| && !PrimedHit(c, keys, missAt[j], now)
    requires forall i: nat | i < |keys| && i !in missAt :: PrimedHit(c, keys, i, now) && hits[i] == Some(c.primed[keys[i]].loc)
    ensures forall i: nat | i < |keys| :: out[i] == TakenAt(c, keys, i, now, ask)
  {
    forall i: nat | i < |keys| ensures out[i] == TakenAt(c, keys, i, now, ask) {
      if i in missAt {
        var j :| 0 <= j < |missAt| && missAt[j] == i;
      }
    }
  }

  lemma ReplyNext(c: Caches, keys: seq<Key>, now: real, ask: Answers,
                  hits: seq<Option<Location>>, at: seq<nat>, out: seq<Option<Location>>, i: nat)
    requires Replied(c, keys, now, ask, hits, at, out) && i < |keys|
    ensures Replied(c, keys, now, ask, hits, at + [i], out[i := DirAnswer(c, keys[i], now, ask)])
  {
  }

  /** The read cache's behaviour does not depend on the primes. */
  lemma {:induction false} SameDir(c: Caches, d: Caches, keys: seq<Key>, now: real, ask: Answers)
    requires d == c.(primed := d.primed)
    ensures DirAfter(d, keys, now, ask) == DirAfter(c, keys, now, ask)
  {
    if keys != [] {
      SameDir(c, d, keys[..|keys| - 1], now, ask);
    }
  }
}
