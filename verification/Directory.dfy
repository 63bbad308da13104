/** The sharded, replicated directory of python/peercache/directory.py: what the shards
    hold and what a lookup answers, over any run of puts, deletes, crashes and ring
    shrinks. */
module Directory {
  import opened Sequences
  import opened HashRing
  import opened RingObject

  /** A lookup answer; Nothing is the source's None. */
  datatype Answer<L> = Nothing | Found(value: L)

  /** The shared configuration: the ring hash, the virtual node count, the replica count. */
  datatype Config = Config(hash: Hash, vnodes: nat, replicas: nat) {
    /** The client clamps the replica count to at least one. */
    predicate Valid() { vnodes >= 1 && replicas >= 1 }
  }

  /** The nodes a key's entry is written to, primary first. */
  function Owners(cfg: Config, ring: Ring, key: string): seq<string> {
    if AllIn(ring.ks, ring.m) then Take(WalkFrom(ring, cfg.hash, key), cfg.replicas) else []
  }

  /** ring and shards are the real state (a crashed node has no shard any more). flat is
      the single map the directory stands for; lost[k] counts the nodes taken off the ring
      since k was last put, and placed[k] are the owners k had then. */
  datatype Dir<L> = Dir(
    ring: Ring,
    shards: map<string, map<string, L>>,
    flat: map<string, L>,
    lost: map<string, nat>,
    placed: map<string, seq<string>>)

  // ---------------------------------------------------------------- operations

  /** The entries that go to node n's shard. */
  function ShareOf<L>(cfg: Config, ring: Ring, entries: map<string, L>, n: string): map<string, L> {
    map k | k in entries && n in Owners(cfg, ring, k) :: entries[k]
  }

  function Put<L>(cfg: Config, d: Dir<L>, entries: map<string, L>): Dir<L> {
    d.(shards := map n | n in d.shards :: d.shards[n] + ShareOf(cfg, d.ring, entries, n),
       flat := d.flat + entries,
       lost := d.lost + (map k | k in entries :: 0),
       placed := d.placed + map k | k in entries :: Owners(cfg, d.ring, k))
  }

  function DroppedAt(cfg: Config, ring: Ring, keys: set<string>, n: string): set<string> {
    set k | k in keys && n in Owners(cfg, ring, k)
  }

  function Delete<L>(cfg: Config, d: Dir<L>, keys: set<string>): Dir<L> {
    d.(shards := map n | n in d.shards :: d.shards[n] - DroppedAt(cfg, d.ring, keys, n),
       flat := d.flat - keys)
  }

  /** Node x stops: its shard is gone. */
  function Crash<L>(d: Dir<L>, x: string): Dir<L> {
    d.(shards := d.shards - {x})
  }

  /** A crashed node leaves the ring. */
  function Shrink<L>(cfg: Config, d: Dir<L>, x: string): Dir<L>
    requires AllIn(d.ring.ks, d.ring.m)
  {
    d.(ring := Left(d.ring, cfg.hash, cfg.vnodes, x),
       lost := map k | k in d.lost :: d.lost[k] + 1)
  }

  // ---------------------------------------------------------------- lookups

  /** The keys of one request that share a primary owner, in request order. */
  function GroupOf(cfg: Config, ring: Ring, keys: seq<string>, primary: string): seq<string> {
    if keys == [] then []
    else
      var k := keys[|keys| - 1];
      var o := Owners(cfg, ring, k);
      var g := GroupOf(cfg, ring, keys[..|keys| - 1], primary);
      if o != [] && o[0] == primary then g + [k] else g
  }

  /** The first candidate that answers, if any. */
  function FirstLive<L>(d: Dir<L>, candidates: seq<string>): Answer<string> {
    if candidates == [] then Nothing
    else if candidates[0] in d.shards then Found(candidates[0])
    else FirstLive(d, candidates[1..])
  }

  /** The node that serves a group: the primary, or a replica of the group's first key. */
  function Responder<L>(cfg: Config, d: Dir<L>, group: seq<string>, primary: string): Answer<string> {
    FirstLive(d, if cfg.replicas > 1 && group != [] then Owners(cfg, d.ring, group[0]) else [primary])
  }

  function Stored<L>(d: Dir<L>, n: string, key: string): Answer<L> {
    if n in d.shards && key in d.shards[n] then Found(d.shards[n][key]) else Nothing
  }

  /** What get(keys) reports for one of its keys. */
  function Lookup<L>(cfg: Config, d: Dir<L>, keys: seq<string>, key: string): Answer<L> {
    var o := Owners(cfg, d.ring, key);
    if o == [] then Nothing
    else
      match Responder(cfg, d, GroupOf(cfg, d.ring, keys, o[0]), o[0])
      case Nothing => Nothing
      case Found(n) => Stored(d, n, key)
  }

  function FlatValue<L>(d: Dir<L>, key: string): Answer<L> {
    if key in d.flat then Found(d.flat[key]) else Nothing
  }

  // ---------------------------------------------------------------- invariant

  /** No live shard holds anything but current values of keys it currently owns. */
  ghost predicate Truthful<L(!new)>(cfg: Config, d: Dir<L>) {
    forall n, k | n in d.shards && k in d.shards[n] ::
      n in Owners(cfg, d.ring, k) && k in d.flat && d.shards[n][k] == d.flat[k]
  }

  /** Node n is the i-th stop of the key's walk. */
  ghost predicate Stop(cfg: Config, ring: Ring, key: string, i: nat, n: string) {
    AllIn(ring.ks, ring.m) && i < |WalkFrom(ring, cfg.hash, key)| && WalkFrom(ring, cfg.hash, key)[i] == n
  }

  /** A live shard holds a key exactly when the key is current and the node was among its
      owners at its last put. */
  ghost predicate Placed<L(!new)>(d: Dir<L>) {
    && d.flat.Keys <= d.placed.Keys
    && forall n, k | n in d.shards && k in d.flat :: k in d.shards[n] <==> n in d.placed[k]
  }

  /** Those owners include every node whose present stop, moved back by the departures since,
      is below the replica count. */
  ghost predicate Remembered(cfg: Config, ring: Ring, lost: map<string, nat>, placed: map<string, seq<string>>) {
    && placed.Keys <= lost.Keys
    && forall k, i: nat, n | k in placed && Stop(cfg, ring, k, i, n) && i + lost[k] < cfg.replicas :: n in placed[k]
  }

  ghost predicate DirInv<L(!new)>(cfg: Config, d: Dir<L>) {
    && cfg.Valid() && ValidRing(d.ring, cfg.hash, cfg.vnodes)
    && Truthful(cfg, d)
    && Placed(d)
    && Remembered(cfg, d.ring, d.lost, d.placed)
  }

  lemma OwnerIsStop(cfg: Config, ring: Ring, key: string, n: string)
    requires AllIn(ring.ks, ring.m)
    ensures n in Owners(cfg, ring, key) <==> exists i: nat :: i < cfg.replicas && Stop(cfg, ring, key, i, n)
  {
    var walk, owners := WalkFrom(ring, cfg.hash, key), Owners(cfg, ring, key);
    if n in owners {
      var i :| 0 <= i < |owners| && owners[i] == n;
      assert walk[i] == n;
      assert Stop(cfg, ring, key, i, n);
    }
    if i: nat :| i < cfg.replicas && Stop(cfg, ring, key, i, n) {
      assert owners[i] == n;
    }
  }

  /** The stop of a survivor after x leaves: one earlier if x was passed, else the same. */
  lemma {:induction false} StopShifts(walk: seq<string>, x: string, i: nat)
    requires i < |walk| && walk[i] != x
    requires forall a, b | 0 <= a < b < |walk| :: walk[a] != walk[b]
    ensures var j := if x in walk[..i] then i - 1 else i;
            0 <= j < |Without(walk, x)| && Without(walk, x)[j] == walk[i]
  {
    var n := |walk| - 1;
    if i < n {
      StopShifts(walk[..n], x, i);
      assert walk[..n][..i] == walk[..i];
    } else {
      WithoutLength(walk[..n], x);
      assert walk[..i] == walk[..n];
    }
  }

  lemma {:induction false} WithoutLength(walk: seq<string>, x: string)
    requires forall a, b | 0 <= a < b < |walk| :: walk[a] != walk[b]
    ensures |Without(walk, x)| == if x in walk then |walk| - 1 else |walk|
  {
    if walk != [] {
      var n := |walk| - 1;
      WithoutLength(walk[..n], x);
      assert walk == walk[..n] + [walk[n]];
      assert forall a | 0 <= a < n :: walk[..n][a] == walk[a];
    }
  }

  /** Conversely, every stop of the new walk was a stop of the old one, at most one later. */
  lemma {:induction false} StopWas(walk: seq<string>, x: string, j: nat)
    requires j < |Without(walk, x)|
    requires forall a, b | 0 <= a < b < |walk| :: walk[a] != walk[b]
    ensures exists i: nat :: j <= i <= j + 1 && i < |walk| && walk[i] == Without(walk, x)[j]
  {
    var n := |walk| - 1;
    var short := Without(walk[..n], x);
    if j < |short| {
      StopWas(walk[..n], x, j);
      var i: nat :| j <= i <= j + 1 && i < n && walk[..n][i] == short[j];
      assert walk[i] == Without(walk, x)[j];
    } else {
      WithoutLength(walk[..n], x);
      assert walk[n] == Without(walk, x)[j];
    }
  }

  // ---------------------------------------------------------------- every operation keeps it

  /** Which entries a live shard has after a put. */
  lemma PutShard<L>(cfg: Config, d: Dir<L>, entries: map<string, L>, n: string, k: string)
    requires n in d.shards
    ensures
      var d' := Put(cfg, d, entries);
      && (k in d'.shards[n] <==> (k in entries && n in Owners(cfg, d.ring, k)) || k in d.shards[n])
      && (k in d'.shards[n] ==>
            d'.shards[n][k] == if k in entries && n in Owners(cfg, d.ring, k) then entries[k] else d.shards[n][k])
  {
    assert k in ShareOf(cfg, d.ring, entries, n) <==> k in entries && n in Owners(cfg, d.ring, k);
  }

  lemma PutTruthful<L(!new)>(cfg: Config, d: Dir<L>, entries: map<string, L>)
    requires Truthful(cfg, d)
    ensures Truthful(cfg, Put(cfg, d, entries))
  {
    var d' := Put(cfg, d, entries);
    forall n, k | n in d'.shards && k in d'.shards[n]
      ensures n in Owners(cfg, d'.ring, k) && k in d'.flat && d'.shards[n][k] == d'.flat[k]
    {
      PutShard(cfg, d, entries, n, k);
    }
  }

  lemma PutPlaced<L(!new)>(cfg: Config, d: Dir<L>, entries: map<string, L>)
    requires Truthful(cfg, d) && Placed(d)
    ensures Placed(Put(cfg, d, entries))
  {
    var d' := Put(cfg, d, entries);
    PutDomains(cfg, d, entries);
    forall n, k | n in d'.shards && k in d'.flat ensures k in d'.placed && (k in d'.shards[n] <==> n in d'.placed[k]) {
      PutPlacedAt(cfg, d, entries, n, k);
    }
  }

  lemma PutDomains<L>(cfg: Config, d: Dir<L>, entries: map<string, L>)
    ensures
      var d' := Put(cfg, d, entries);
      && d'.shards.Keys == d.shards.Keys && d'.flat.Keys == d.flat.Keys + entries.Keys
      && d'.placed.Keys == d.placed.Keys + entries.Keys
  {
  }

  lemma PutPlacedAt<L(!new)>(cfg: Config, d: Dir<L>, entries: map<string, L>, n: string, k: string)
    requires Truthful(cfg, d) && Placed(d) && n in d.shards && (k in d.flat || k in entries)
    ensures var d' := Put(cfg, d, entries);
            n in d'.shards && k in d'.placed && (k in d'.shards[n] <==> n in d'.placed[k])
  {
    assert k in d.shards[n] ==> n in Owners(cfg, d.ring, k);
    assert k in d.flat ==> (k in d.shards[n] <==> n in d.placed[k]);
    PutPair(cfg, d, entries, n, k);
  }

  lemma PutPair<L>(cfg: Config, d: Dir<L>, entries: map<string, L>, n: string, k: string)
    requires n in d.shards && (k in d.shards[n] ==> n in Owners(cfg, d.ring, k))
    requires k in entries || (k in d.placed && (k in d.shards[n] <==> n in d.placed[k]))
    ensures var d' := Put(cfg, d, entries);
            n in d'.shards && k in d'.placed && (k in d'.shards[n] <==> n in d'.placed[k])
  {
    PutShard(cfg, d, entries, n, k);
  }

  lemma PutRemembered<L(!new)>(cfg: Config, d: Dir<L>, entries: map<string, L>)
    requires Remembered(cfg, d.ring, d.lost, d.placed) && AllIn(d.ring.ks, d.ring.m)
    ensures var d' := Put(cfg, d, entries); Remembered(cfg, d'.ring, d'.lost, d'.placed)
  {
    var d' := Put(cfg, d, entries);
    forall k, i: nat, n | k in d'.placed && Stop(cfg, d.ring, k, i, n) && i + d'.lost[k] < cfg.replicas ensures n in d'.placed[k] {
      if k in entries {
        OwnerIsStop(cfg, d.ring, k, n);
      }
    }
  }

  lemma PutKeeps<L(!new)>(cfg: Config, d: Dir<L>, entries: map<string, L>)
    requires DirInv(cfg, d)
    ensures DirInv(cfg, Put(cfg, d, entries))
  {
    RingListed(d.ring, cfg);
    PutTruthful(cfg, d, entries);
    PutPlaced(cfg, d, entries);
    PutRemembered(cfg, d, entries);
  }

  lemma RingListed(ring: Ring, cfg: Config)
    requires ValidRing(ring, cfg.hash, cfg.vnodes)
    ensures AllIn(ring.ks, ring.m)
  {
    WalkMeetsAll(ring, cfg.hash, cfg.vnodes, "");
  }

  /** A deleted key leaves every live shard that held it. */
  lemma DeleteKeeps<L(!new)>(cfg: Config, d: Dir<L>, keys: set<string>)
    requires DirInv(cfg, d)
    ensures DirInv(cfg, Delete(cfg, d, keys))
    ensures forall n, k | n in d.shards && k in keys :: k !in Delete(cfg, d, keys).shards[n]
  {
    var d' := Delete(cfg, d, keys);
    forall n, k | n in d.shards ensures k in d'.shards[n] <==> k in d.shards[n] && k !in keys {
      DeleteShard(cfg, d, keys, n, k);
    }
  }

  lemma DeleteShard<L(!new)>(cfg: Config, d: Dir<L>, keys: set<string>, n: string, k: string)
    requires Truthful(cfg, d) && n in d.shards
    ensures k in Delete(cfg, d, keys).shards[n] <==> k in d.shards[n] && k !in keys
  {
    assert k in d.shards[n] ==> n in Owners(cfg, d.ring, k);
  }

  lemma CrashKeeps<L(!new)>(cfg: Config, d: Dir<L>, x: string)
    requires DirInv(cfg, d)
    ensures DirInv(cfg, Crash(d, x))
  {
    var d' := Crash(d, x);
    assert forall n | n in d'.shards :: n in d.shards && d'.shards[n] == d.shards[n];
  }

  /** A surviving owner stays an owner when x leaves. */
  lemma OwnerStays(cfg: Config, ring: Ring, x: string, key: string, n: string)
    requires ValidRing(ring, cfg.hash, cfg.vnodes) && x in ring.nodes && n != x && n in Owners(cfg, ring, key)
    ensures AllIn(ring.ks, ring.m) && n in Owners(cfg, Left(ring, cfg.hash, cfg.vnodes, x), key)
  {
    LeftWalk(ring, cfg.hash, cfg.vnodes, x, key);
    WalkMeetsAll(ring, cfg.hash, cfg.vnodes, key);
    OwnerIsStop(cfg, ring, key, n);
    OwnerIsStop(cfg, Left(ring, cfg.hash, cfg.vnodes, x), key, n);
    var walk := WalkFrom(ring, cfg.hash, key);
    var i: nat :| i < cfg.replicas && Stop(cfg, ring, key, i, n);
    StopShifts(walk, x, i);
    assert Stop(cfg, Left(ring, cfg.hash, cfg.vnodes, x), key, if x in walk[..i] then i - 1 else i, n);
  }

  /** A stop of the shrunk ring was a stop before, at most one further on. */
  lemma StopBefore(cfg: Config, ring: Ring, x: string, key: string, j: nat, n: string) returns (i: nat)
    requires ValidRing(ring, cfg.hash, cfg.vnodes) && x in ring.nodes && AllIn(ring.ks, ring.m)
    requires Stop(cfg, Left(ring, cfg.hash, cfg.vnodes, x), key, j, n)
    ensures i <= j + 1 && Stop(cfg, ring, key, i, n)
  {
    LeftWalk(ring, cfg.hash, cfg.vnodes, x, key);
    WalkMeetsAll(ring, cfg.hash, cfg.vnodes, key);
    StopWas(WalkFrom(ring, cfg.hash, key), x, j);
    i :| j <= i <= j + 1 && i < |WalkFrom(ring, cfg.hash, key)| && WalkFrom(ring, cfg.hash, key)[i] == n;
  }

  lemma ShrinkKeeps<L(!new)>(cfg: Config, d: Dir<L>, x: string)
    requires DirInv(cfg, d) && x in d.ring.nodes && x !in d.shards
    ensures AllIn(d.ring.ks, d.ring.m) && DirInv(cfg, Shrink(cfg, d, x))
  {
    LeftWalk(d.ring, cfg.hash, cfg.vnodes, x, "");
    ShrinkTruthful(cfg, d, x);
    ShrinkRemembered(cfg, d, x);
  }

  lemma ShrinkTruthful<L(!new)>(cfg: Config, d: Dir<L>, x: string)
    requires ValidRing(d.ring, cfg.hash, cfg.vnodes) && Truthful(cfg, d) && x in d.ring.nodes && x !in d.shards
    ensures AllIn(d.ring.ks, d.ring.m) && Truthful(cfg, Shrink(cfg, d, x))
  {
    RingListed(d.ring, cfg);
    forall n, k | n in d.shards && k in d.shards[n] ensures n in Owners(cfg, Left(d.ring, cfg.hash, cfg.vnodes, x), k) {
      HolderStaysOwner(cfg, d, x, n, k);
    }
    TruthfulOn(cfg, d, Shrink(cfg, d, x));
  }

  lemma HolderStaysOwner<L(!new)>(cfg: Config, d: Dir<L>, x: string, n: string, k: string)
    requires ValidRing(d.ring, cfg.hash, cfg.vnodes) && Truthful(cfg, d) && x in d.ring.nodes && x !in d.shards
    requires n in d.shards && k in d.shards[n]
    ensures AllIn(d.ring.ks, d.ring.m) && n in Owners(cfg, Left(d.ring, cfg.hash, cfg.vnodes, x), k)
  {
    assert n in Owners(cfg, d.ring, k);
    OwnerStays(cfg, d.ring, x, k, n);
  }

  /** The same shards are truthful on any ring that makes the holders owners. */
  lemma TruthfulOn<L(!new)>(cfg: Config, d: Dir<L>, t: Dir<L>)
    requires Truthful(cfg, d) && t.shards == d.shards && t.flat == d.flat
    requires forall n, k | n in d.shards && k in d.shards[n] :: n in Owners(cfg, t.ring, k)
    ensures Truthful(cfg, t)
  {
  }

  lemma ShrinkRemembered<L(!new)>(cfg: Config, d: Dir<L>, x: string)
    requires ValidRing(d.ring, cfg.hash, cfg.vnodes) && Remembered(cfg, d.ring, d.lost, d.placed) && x in d.ring.nodes
    ensures AllIn(d.ring.ks, d.ring.m)
    ensures var d' := Shrink(cfg, d, x); Remembered(cfg, d'.ring, d'.lost, d'.placed)
  {
    RingListed(d.ring, cfg);
    var d' := Shrink(cfg, d, x);
    forall k, j: nat, n | k in d'.placed && Stop(cfg, d'.ring, k, j, n) && j + d'.lost[k] < cfg.replicas ensures n in d'.placed[k] {
      var i := StopBefore(cfg, d.ring, x, k, j, n);
      assert Stop(cfg, d.ring, k, i, n);
    }
  }

  // ---------------------------------------------------------------- runs

  datatype Event<L> =
    | PutEvent(entries: map<string, L>)
    | DeleteEvent(keys: set<string>)
    | CrashEvent(node: string)
    | ShrinkEvent(node: string)

  predicate Possible<L>(d: Dir<L>, e: Event<L>) {
    e.ShrinkEvent? ==> e.node in d.ring.nodes && e.node !in d.shards && AllIn(d.ring.ks, d.ring.m)
  }

  function Step<L>(cfg: Config, d: Dir<L>, e: Event<L>): Dir<L>
    requires Possible(d, e)
  {
    match e
    case PutEvent(entries) => Put(cfg, d, entries)
    case DeleteEvent(keys) => Delete(cfg, d, keys)
    case CrashEvent(x) => Crash(d, x)
    case ShrinkEvent(x) => Shrink(cfg, d, x)
  }

  ghost predicate Run<L>(cfg: Config, d: Dir<L>, es: seq<Event<L>>, d': Dir<L>)
    decreases |es|
  {
    if es == [] then d == d'
    else Possible(d, es[0]) && Run(cfg, Step(cfg, d, es[0]), es[1..], d')
  }

  /** A cluster at start: every member up with an empty shard. */
  ghost predicate Start<L(!new)>(cfg: Config, d: Dir<L>) {
    && cfg.Valid() && ValidRing(d.ring, cfg.hash, cfg.vnodes)
    && d.flat == map[] && d.placed == map[] && forall n | n in d.shards :: d.shards[n] == map[]
  }

  lemma {:induction false} RunKeeps<L(!new)>(cfg: Config, d: Dir<L>, es: seq<Event<L>>, d': Dir<L>)
    requires DirInv(cfg, d) && Run(cfg, d, es, d')
    ensures DirInv(cfg, d')
    decreases |es|
  {
    if es != [] {
      match es[0] {
        case PutEvent(entries) => PutKeeps(cfg, d, entries);
        case DeleteEvent(keys) => DeleteKeeps(cfg, d, keys);
        case CrashEvent(x) => CrashKeeps(cfg, d, x);
        case ShrinkEvent(x) => ShrinkKeeps(cfg, d, x);
      }
      RunKeeps(cfg, Step(cfg, d, es[0]), es[1..], d');
    }
  }

  /** What one event says of a key whose value was `was`. */
  function Said<L>(was: Answer<L>, e: Event<L>, k: string): Answer<L> {
    if e.PutEvent? && k in e.entries then Found(e.entries[k])
    else if e.DeleteEvent? && k in e.keys then Nothing
    else was
  }

  /** The value of a key by the events alone: its last put, unless a later delete. */
  function LastSaid<L>(was: Answer<L>, es: seq<Event<L>>, k: string): Answer<L>
    decreases |es|
  {
    if es == [] then was else LastSaid(Said(was, es[0], k), es[1..], k)
  }

  /** That is the value the flat map has after any run. */
  lemma {:induction false} FlatIsLastSaid<L>(cfg: Config, d: Dir<L>, es: seq<Event<L>>, d': Dir<L>, k: string)
    requires Run(cfg, d, es, d')
    ensures FlatValue(d', k) == LastSaid(FlatValue(d, k), es, k)
    decreases |es|
  {
    if es != [] {
      var t := Step(cfg, d, es[0]);
      assert FlatValue(t, k) == Said(FlatValue(d, k), es[0], k);
      FlatIsLastSaid(cfg, t, es[1..], d', k);
    }
  }

  /** The directory never serves a stale location: after any run, whatever batch a key is
      looked up in, the answer is its current value or nothing, and nothing for a key
      that is not in the flat map. */
  lemma NeverStale<L(!new)>(cfg: Config, d: Dir<L>, es: seq<Event<L>>, d': Dir<L>, keys: seq<string>, key: string)
    requires Start(cfg, d) && Run(cfg, d, es, d')
    ensures Lookup(cfg, d', keys, key) == Nothing || Lookup(cfg, d', keys, key) == FlatValue(d', key)
    ensures FlatValue(d', key) == LastSaid(Nothing, es, key)
  {
    RunKeeps(cfg, d, es, d');
    FlatIsLastSaid(cfg, d, es, d', key);
  }

  /** Node losses do not lose entries: while k's primary is up and fewer nodes than the
      replica count have left the ring since k was last put, a lookup of k returns its
      current value, with no re-publish. */
  lemma SurvivesLosses<L(!new)>(cfg: Config, d: Dir<L>, es: seq<Event<L>>, d': Dir<L>, keys: seq<string>, key: string)
    requires Start(cfg, d) && Run(cfg, d, es, d')
    requires key in keys && key in d'.flat && key in d'.lost && d'.lost[key] < cfg.replicas
    requires Owners(cfg, d'.ring, key) != [] && Owners(cfg, d'.ring, key)[0] in d'.shards
    ensures Lookup(cfg, d', keys, key) == Found(d'.flat[key])
  {
    RunKeeps(cfg, d, es, d');
    var primary := Owners(cfg, d'.ring, key)[0];
    assert Stop(cfg, d'.ring, key, 0, primary);
    PrimaryResponds(cfg, d', keys, key);
  }

  /** A live primary serves its whole group. */
  lemma PrimaryResponds<L>(cfg: Config, d: Dir<L>, keys: seq<string>, key: string)
    requires key in keys && Owners(cfg, d.ring, key) != [] && Owners(cfg, d.ring, key)[0] in d.shards
    ensures var primary := Owners(cfg, d.ring, key)[0];
            Responder(cfg, d, GroupOf(cfg, d.ring, keys, primary), primary) == Found(primary)
  {
    var primary := Owners(cfg, d.ring, key)[0];
    var group := GroupOf(cfg, d.ring, keys, primary);
    GroupSpec(cfg, d.ring, keys, primary);
    assert key in group;
    assert group[0] in group;
  }

  lemma GroupSpec(cfg: Config, ring: Ring, keys: seq<string>, primary: string)
    ensures forall k :: k in GroupOf(cfg, ring, keys, primary) <==>
              k in keys && Owners(cfg, ring, k) != [] && Owners(cfg, ring, k)[0] == primary
  {
    forall k ensures k in GroupOf(cfg, ring, keys, primary) <==>
                     k in keys && Owners(cfg, ring, k) != [] && Owners(cfg, ring, k)[0] == primary {
      GroupHas(cfg, ring, keys, primary, k);
    }
  }

  lemma {:induction false} GroupHas(cfg: Config, ring: Ring, keys: seq<string>, primary: string, k: string)
    ensures k in GroupOf(cfg, ring, keys, primary) <==>
            k in keys && Owners(cfg, ring, k) != [] && Owners(cfg, ring, k)[0] == primary
  {
    if keys != [] {
      GroupHas(cfg, ring, keys[..|keys| - 1], primary, k);
      assert keys == keys[..|keys| - 1] + [keys[|keys| - 1]];
    }
  }

  lemma {:induction false} FirstLiveAt<L>(d: Dir<L>, candidates: seq<string>, i: nat)
    requires i < |candidates| && candidates[i] in d.shards && forall j | 0 <= j < i :: candidates[j] !in d.shards
    ensures FirstLive(d, candidates) == Found(candidates[i])
  {
    if i > 0 {
      FirstLiveAt(d, candidates[1..], i - 1);
    }
  }

  lemma {:induction false} ResponderIsLive<L>(d: Dir<L>, candidates: seq<string>)
    ensures FirstLive(d, candidates).Found? ==> FirstLive(d, candidates).value in d.shards
  {
    if candidates != [] {
      ResponderIsLive(d, candidates[1..]);
    }
  }

  /** The node that answers for key when it is looked up with `keys`. */
  function AnsweredBy<L>(cfg: Config, d: Dir<L>, keys: seq<string>, key: string): Answer<string> {
    var o := Owners(cfg, d.ring, key);
    if o == [] then Nothing else Responder(cfg, d, GroupOf(cfg, d.ring, keys, o[0]), o[0])
  }

  /** Fallback follows the first key of the group only: a current key is found exactly when
      the node answering for its group was among the key's own owners at its last put. */
  lemma FoundIffResponderOwned<L(!new)>(cfg: Config, d: Dir<L>, keys: seq<string>, key: string)
    requires DirInv(cfg, d) && key in d.flat
    ensures Lookup(cfg, d, keys, key) == Found(d.flat[key]) <==>
            AnsweredBy(cfg, d, keys, key).Found? && AnsweredBy(cfg, d, keys, key).value in d.placed[key]
  {
    var a := AnsweredBy(cfg, d, keys, key);
    if a.Found? {
      var o := Owners(cfg, d.ring, key);
      ResponderIsLive(d, if cfg.replicas > 1 && GroupOf(cfg, d.ring, keys, o[0]) != []
                         then Owners(cfg, d.ring, GroupOf(cfg, d.ring, keys, o[0])[0]) else [o[0]]);
      assert key in d.shards[a.value] <==> a.value in d.placed[key];
    }
  }

  /** So any key of a group is found when the node answering for the group is a stop of the
      key's own walk that, moved back by the departures since its last put, is below the
      replica count. */
  lemma GroupFallsBack<L(!new)>(cfg: Config, d: Dir<L>, keys: seq<string>, key: string, i: nat, n: string)
    requires DirInv(cfg, d) && key in d.flat && AnsweredBy(cfg, d, keys, key) == Found(n)
    requires Stop(cfg, d.ring, key, i, n) && i + d.lost[key] < cfg.replicas
    ensures Lookup(cfg, d, keys, key) == Found(d.flat[key])
  {
    FoundIffResponderOwned(cfg, d, keys, key);
  }

  /** A key that leads its group falls back to its own replicas. */
  lemma LeaderFallsBack<L(!new)>(cfg: Config, d: Dir<L>, keys: seq<string>, key: string, i: nat)
    requires DirInv(cfg, d) && key in d.flat && cfg.replicas > 1
    requires var o := Owners(cfg, d.ring, key);
             && i < |o| && o[i] in d.shards && (forall j | 0 <= j < i :: o[j] !in d.shards)
             && GroupOf(cfg, d.ring, keys, o[0]) != [] && GroupOf(cfg, d.ring, keys, o[0])[0] == key
    requires i + d.lost[key] < cfg.replicas
    ensures Lookup(cfg, d, keys, key) == Found(d.flat[key])
  {
    var o := Owners(cfg, d.ring, key);
    FirstLiveAt(d, o, i);
    RingListed(d.ring, cfg);
    GroupFallsBack(cfg, d, keys, key, i, o[i]);
  }
}
