/** The two location caches in front of the directory (python/peercache/store.py): the
    optional read cache with a time to live, and the one-shot hand-off from an existence
    probe to the fetch that follows it. Each operation happens at one time, and asks the
    directory through a function that gives its answers at that time. */
module LocationCache {

  type Key = string

  datatype Location = Location(node: string, address: nat, length: nat, resident: bool)

  datatype Option<T> = None | Some(value: T)

  datatype Cached = Cached(loc: Location, expires: real)

  type Answers = Key -> Option<Location>

  datatype Caches = Caches(dirTtl: real, primedTtl: real, cap: nat, dir: map<Key, Cached>, primed: map<Key, Cached>)

  predicate Cacheable(a: Option<Location>) {
    a.Some? && a.value.resident
  }

  predicate Live(m: map<Key, Cached>, k: Key, now: real) {
    k in m && m[k].expires > now
  }

  // ---------------------------------------------------------------- _dir_get

  /** Whether k is answered from the read cache. */
  predicate DirHit(c: Caches, k: Key, now: real) {
    c.dirTtl > 0.0 && Live(c.dir, k, now)
  }

  function DirAnswer(c: Caches, k: Key, now: real, ask: Answers): Option<Location> {
    if DirHit(c, k, now) then Some(c.dir[k].loc) else ask(k)
  }

  /** The read cache after a lookup of keys: resident answers to the misses are kept. */
  function DirAfter(c: Caches, keys: seq<Key>, now: real, ask: Answers): map<Key, Cached> {
    if c.dirTtl <= 0.0 || keys == [] then c.dir
    else
      var k := keys[|keys| - 1];
      var d := DirAfter(c, keys[..|keys| - 1], now, ask);
      if !DirHit(c, k, now) && Cacheable(ask(k)) then d[k := Cached(ask(k).value, now + c.dirTtl)] else d
  }

  // ---------------------------------------------------------------- _prime

  function Swept(m: map<Key, Cached>, cap: nat, now: real): map<Key, Cached> {
    if |m| > cap then map k | k in m && m[k].expires > now :: m[k] else m
  }

  function Primed(ttl: real, m: map<Key, Cached>, keys: seq<Key>, locs: seq<Option<Location>>, now: real): map<Key, Cached>
    requires |keys| == |locs|
  {
    if keys == [] then m
    else
      var n := |keys| - 1;
      var r := Primed(ttl, m, keys[..n], locs[..n], now);
      if Cacheable(locs[n]) then r[keys[n] := Cached(locs[n].value, now + ttl)] else r
  }

  // ---------------------------------------------------------------- _take_primed

  predicate PrimedHit(c: Caches, keys: seq<Key>, i: nat, now: real)
    requires i < |keys|
  {
    Live(c.primed, keys[i], now) && keys[i] !in keys[..i]
  }

  /** The keys of a fetch that no prime answers, in order. */
  function Unprimed(c: Caches, keys: seq<Key>, now: real): seq<Key> {
    if keys == [] then []
    else
      var n := |keys| - 1;
      var m := Unprimed(c, keys[..n], now);
      if PrimedHit(c, keys, n, now) then m else m + [keys[n]]
  }

  function TakenAt(c: Caches, keys: seq<Key>, i: nat, now: real, ask: Answers): Option<Location>
    requires i < |keys|
  {
    if PrimedHit(c, keys, i, now) then Some(c.primed[keys[i]].loc) else DirAnswer(c, keys[i], now, ask)
  }

  function Taken(c: Caches, keys: seq<Key>, now: real, ask: Answers): Caches {
    c.(primed := c.primed - (set k | k in keys), dir := DirAfter(c, Unprimed(c, keys, now), now, ask))
  }

  // ---------------------------------------------------------------- operations and runs

  /** Probe: a batch_exists that primes the first hit keys. Fetch: a batch_get.
      Forget: the invalidation after failed reads. */
  datatype Op =
    | Probe(keys: seq<Key>, hit: nat)
    | Fetch(keys: seq<Key>)
    | Forget(keys: seq<Key>)

  datatype Event = Event(at: real, op: Op, ask: Answers)

  predicate EventOk(e: Event) {
    e.op.Probe? ==> e.op.hit <= |e.op.keys|
  }

  function Found(c: Caches, keys: seq<Key>, now: real, ask: Answers): (r: seq<Option<Location>>)
    ensures |r| == |keys|
  {
    seq(|keys|, i requires 0 <= i < |keys| => DirAnswer(c, keys[i], now, ask))
  }

  function Probed(c: Caches, keys: seq<Key>, hit: nat, now: real, ask: Answers): Caches
    requires hit <= |keys|
  {
    c.(dir := DirAfter(c, keys, now, ask),
       primed := if hit == 0 then c.primed
                 else Primed(c.primedTtl, Swept(c.primed, c.cap, now), keys[..hit], Found(c, keys, now, ask)[..hit], now))
  }

  function Forgot(c: Caches, keys: seq<Key>): Caches {
    if c.dirTtl <= 0.0 then c else c.(dir := c.dir - (set k | k in keys))
  }

  function Next(c: Caches, e: Event): Caches
    requires EventOk(e)
  {
    match e.op
    case Probe(keys, hit) => Probed(c, keys, hit, e.at, e.ask)
    case Fetch(keys) => Taken(c, keys, e.at, e.ask)
    case Forget(keys) => Forgot(c, keys)
  }

  ghost predicate Ordered(es: seq<Event>) {
    && (forall e | e in es :: EventOk(e))
    && forall i, j | 0 <= i < j < |es| :: es[i].at <= es[j].at
  }

  /** The caches after the events, starting empty. */
  ghost function After(c: Caches, es: seq<Event>): Caches
    requires forall e | e in es :: EventOk(e)
  {
    if es == [] then c else Next(After(c, es[..|es| - 1]), es[|es| - 1])
  }

  function Empty(dirTtl: real, primedTtl: real, cap: nat): Caches {
    Caches(dirTtl, primedTtl, cap, map[], map[])
  }

  /** The directory gave loc for k at time t, during one of the events. */
  ghost predicate Told(es: seq<Event>, t: real, k: Key, loc: Location) {
    exists e | e in es :: e.at == t && e.ask(k) == Some(loc)
  }

  // ---------------------------------------------------------------- what one operation does to one key

  lemma {:induction false} DirAfterSpec(c: Caches, keys: seq<Key>, now: real, ask: Answers, k: Key)
    ensures var d := DirAfter(c, keys, now, ask);
            if c.dirTtl > 0.0 && k in keys && !DirHit(c, k, now) && Cacheable(ask(k))
            then k in d && d[k] == Cached(ask(k).value, now + c.dirTtl)
            else (k in d <==> k in c.dir) && (k in d ==> d[k] == c.dir[k])
  {
    if c.dirTtl > 0.0 && keys != [] {
      var n := |keys| - 1;
      DirAfterSpec(c, keys[..n], now, ask, k);
      assert keys == keys[..n] + [keys[n]];
    }
  }

  lemma {:induction false} PrimedSpec(ttl: real, m: map<Key, Cached>, keys: seq<Key>, locs: seq<Option<Location>>, now: real, k: Key, loc: Option<Location>)
    requires |keys| == |locs| && forall i | 0 <= i < |keys| && keys[i] == k :: locs[i] == loc
    ensures var r := Primed(ttl, m, keys, locs, now);
            if k in keys && Cacheable(loc) then k in r && r[k] == Cached(loc.value, now + ttl)
            else (k in r <==> k in m) && (k in r ==> r[k] == m[k])
  {
    if keys != [] {
      var n := |keys| - 1;
      PrimedSpec(ttl, m, keys[..n], locs[..n], now, k, loc);
      assert keys == keys[..n] + [keys[n]];
    }
  }

  /** A probe primes exactly the resident locations of its hit prefix; over the cap it drops
      exactly the expired primes, and otherwise none. */
  lemma ProbedPrimed(c: Caches, keys: seq<Key>, hit: nat, now: real, ask: Answers, k: Key)
    requires hit <= |keys|
    ensures var r := Probed(c, keys, hit, now, ask).primed;
            var loc := DirAnswer(c, k, now, ask);
            if k in keys[..hit] && Cacheable(loc) then k in r && r[k] == Cached(loc.value, now + c.primedTtl)
            else (k in r ==> k in c.primed && r[k] == c.primed[k])
                 && (k in r <==> k in c.primed && (Live(c.primed, k, now) || hit == 0 || |c.primed| <= c.cap))
  {
    if hit > 0 {
      var front, locs := keys[..hit], Found(c, keys, now, ask)[..hit];
      assert forall i | 0 <= i < hit :: locs[i] == DirAnswer(c, front[i], now, ask);
      PrimedSpec(c.primedTtl, Swept(c.primed, c.cap, now), front, locs, now, k, DirAnswer(c, k, now, ask));
    }
  }

  /** An invalidated key is answered by the directory at the next lookup, and no other key
      is affected. */
  lemma ForgottenIsAsked(c: Caches, keys: seq<Key>, now: real, ask: Answers, k: Key)
    ensures DirAnswer(Forgot(c, keys), k, now, ask) == if k in keys then ask(k) else DirAnswer(c, k, now, ask)
    ensures Forgot(c, keys).primed == c.primed
  {
  }

  /** How many positions of a fetch are answered from the prime of k. */
  function Takes(c: Caches, keys: seq<Key>, now: real, k: Key): nat {
    if keys == [] then 0
    else
      var n := |keys| - 1;
      Takes(c, keys[..n], now, k) + if keys[n] == k && PrimedHit(c, keys, n, now) then 1 else 0
  }

  /** However often a fetch names k, it uses a live prime of k exactly once. */
  lemma {:induction false} TakesOnce(c: Caches, keys: seq<Key>, now: real, k: Key)
    ensures Takes(c, keys, now, k) == if k in keys && Live(c.primed, k, now) then 1 else 0
  {
    if keys != [] {
      var n := |keys| - 1;
      TakesOnce(c, keys[..n], now, k);
      assert keys == keys[..n] + [keys[n]];
    }
  }

  // ---------------------------------------------------------------- bounded staleness

  /** Every entry of the read cache was the directory's answer when its time to live began. */
  ghost predicate DirOk(c: Caches, es: seq<Event>, k: Key) {
    k in c.dir ==> c.dir[k].loc.resident && Told(es, c.dir[k].expires - c.dirTtl, k, c.dir[k].loc)
  }

  /** loc was the directory's answer for k at time p, or less than the read cache's time to
      live before p. */
  ghost predicate Recent(es: seq<Event>, k: Key, loc: Location, p: real, ttl: real) {
    exists t: real :: Told(es, t, k, loc) && (t == p || p - t < ttl)
  }

  ghost predicate PrimeOk(c: Caches, es: seq<Event>, k: Key) {
    k in c.primed ==> c.primed[k].loc.resident && Recent(es, k, c.primed[k].loc, c.primed[k].expires - c.primedTtl, c.dirTtl)
  }

  ghost predicate Inv(c: Caches, es: seq<Event>) {
    forall k :: DirOk(c, es, k) && PrimeOk(c, es, k)
  }

  lemma ToldMore(es: seq<Event>, e: Event, t: real, k: Key, loc: Location)
    ensures Told(es, t, k, loc) ==> Told(es + [e], t, k, loc)
    ensures e.ask(k) == Some(loc) ==> Told(es + [e], e.at, k, loc)
  {
    assert e in es + [e];
    assert forall x | x in es :: x in es + [e];
  }

  lemma RecentMore(es: seq<Event>, e: Event, k: Key, loc: Location, p: real, ttl: real)
    requires Recent(es, k, loc, p, ttl)
    ensures Recent(es + [e], k, loc, p, ttl)
  {
    var t :| Told(es, t, k, loc) && (t == p || p - t < ttl);
    ToldMore(es, e, t, k, loc);
  }

  /** A resident answer of the lookup is recent. */
  lemma AnswerRecent(c: Caches, es: seq<Event>, e: Event, k: Key)
    requires DirOk(c, es, k)
    ensures var a := DirAnswer(c, k, e.at, e.ask);
            a.Some? ==> Recent(es + [e], k, a.value, e.at, c.dirTtl)
  {
    var a := DirAnswer(c, k, e.at, e.ask);
    if a.Some? {
      var t := if DirHit(c, k, e.at) then c.dir[k].expires - c.dirTtl else e.at;
      ToldMore(es, e, t, k, a.value);
      assert Told(es + [e], t, k, a.value);
    }
  }

  lemma LookupKeepsDir(c: Caches, es: seq<Event>, e: Event, keys: seq<Key>, d: Caches, k: Key)
    requires DirOk(c, es, k) && d.dirTtl == c.dirTtl && d.dir == DirAfter(c, keys, e.at, e.ask)
    ensures DirOk(d, es + [e], k)
  {
    DirAfterSpec(c, keys, e.at, e.ask, k);
    if k in d.dir {
      ToldMore(es, e, d.dir[k].expires - d.dirTtl, k, d.dir[k].loc);
    }
  }

  lemma NextKeepsDir(c: Caches, es: seq<Event>, e: Event, k: Key)
    requires EventOk(e) && DirOk(c, es, k)
    ensures DirOk(Next(c, e), es + [e], k)
  {
    match e.op
    case Probe(keys, hit) => LookupKeepsDir(c, es, e, keys, Next(c, e), k);
    case Fetch(keys) => LookupKeepsDir(c, es, e, Unprimed(c, keys, e.at), Next(c, e), k);
    case Forget(keys) =>
      if k in c.dir {
        ToldMore(es, e, c.dir[k].expires - c.dirTtl, k, c.dir[k].loc);
      }
  }

  lemma NextKeepsPrime(c: Caches, es: seq<Event>, e: Event, k: Key)
    requires EventOk(e) && DirOk(c, es, k) && PrimeOk(c, es, k)
    ensures PrimeOk(Next(c, e), es + [e], k)
  {
    var d := Next(c, e);
    if k in c.primed {
      RecentMore(es, e, k, c.primed[k].loc, c.primed[k].expires - c.primedTtl, c.dirTtl);
    }
    if e.op.Probe? {
      AnswerRecent(c, es, e, k);
      ProbedPrimed(c, e.op.keys, e.op.hit, e.at, e.ask, k);
    }
  }

  lemma {:induction false} RunKeeps(c: Caches, es: seq<Event>)
    requires c.dir == map[] && c.primed == map[] && forall e | e in es :: EventOk(e)
    ensures Inv(After(c, es), es)
    ensures After(c, es).dirTtl == c.dirTtl && After(c, es).primedTtl == c.primedTtl && After(c, es).cap == c.cap
  {
    if es != [] {
      var front, e := es[..|es| - 1], es[|es| - 1];
      RunKeeps(c, front);
      assert es == front + [e];
      forall k ensures DirOk(After(c, es), es, k) && PrimeOk(After(c, es), es, k) {
        assert DirOk(After(c, front), front, k);
        NextKeepsDir(After(c, front), front, e, k);
        NextKeepsPrime(After(c, front), front, e, k);
      }
    }
  }

  /** The longest a location can have been out of date when it is handed to a fetch. */
  function Bound(c: Caches): real {
    (if c.dirTtl > 0.0 then c.dirTtl else 0.0) + c.primedTtl
  }

  /** Position i of the fetch e, after the events es, is given the directory's answer at
      that time, or a resident location that was its answer less than bound ago. */
  ghost predicate Within(c: Caches, es: seq<Event>, e: Event, i: nat, bound: real)
    requires e.op.Fetch? && i < |e.op.keys|
  {
    var k := e.op.keys[i];
    var got := TakenAt(c, e.op.keys, i, e.at, e.ask);
    || got == e.ask(k)
    || (Cacheable(got) && exists t: real :: Told(es, t, k, got.value) && t <= e.at && e.at - t < bound)
  }

  /** In every run, what a fetch is given for a key is the directory's answer right now, or
      is resident and was its answer less than the two times to live ago. */
  lemma BoundedStaleness(dirTtl: real, primedTtl: real, cap: nat, es: seq<Event>, e: Event, i: nat)
    requires Ordered(es + [e]) && e.op.Fetch? && i < |e.op.keys|
    requires primedTtl > 0.0 && forall x | x in es :: EventOk(x)
    ensures var c := After(Empty(dirTtl, primedTtl, cap), es); Within(c, es, e, i, Bound(c))
  {
    var c := After(Empty(dirTtl, primedTtl, cap), es);
    RunKeeps(Empty(dirTtl, primedTtl, cap), es);
    var k := e.op.keys[i];
    assert DirOk(c, es, k) && PrimeOk(c, es, k);
    var got := TakenAt(c, e.op.keys, i, e.at, e.ask);
    if got != e.ask(k) {
      ghost var t: real;
      if PrimedHit(c, e.op.keys, i, e.at) {
        var p := c.primed[k].expires - c.primedTtl;
        t :| Told(es, t, k, got.value) && (t == p || p - t < c.dirTtl);
      } else {
        t := c.dir[k].expires - c.dirTtl;
      }
      ToldBefore(es, e, t, k, got.value);
    }
  }

  lemma ToldBefore(es: seq<Event>, e: Event, t: real, k: Key, loc: Location)
    requires Ordered(es + [e]) && Told(es, t, k, loc)
    ensures t <= e.at
  {
    var x :| x in es && x.at == t && x.ask(k) == Some(loc);
    var i :| 0 <= i < |es| && es[i] == x;
    assert (es + [e])[i] == x && (es + [e])[|es|] == e;
  }

  // ---------------------------------------------------------------- one use per prime

  function Primes(c: Caches, e: Event, k: Key): nat
    requires EventOk(e)
  {
    if e.op.Probe? && k in e.op.keys[..e.op.hit] && Cacheable(DirAnswer(c, k, e.at, e.ask)) then 1 else 0
  }

  function Uses(c: Caches, e: Event, k: Key): nat {
    if e.op.Fetch? then Takes(c, e.op.keys, e.at, k) else 0
  }

  ghost function AllPrimes(c: Caches, es: seq<Event>, k: Key): nat
    requires forall e | e in es :: EventOk(e)
  {
    if es == [] then 0
    else AllPrimes(c, es[..|es| - 1], k) + Primes(After(c, es[..|es| - 1]), es[|es| - 1], k)
  }

  ghost function AllUses(c: Caches, es: seq<Event>, k: Key): nat
    requires forall e | e in es :: EventOk(e)
  {
    if es == [] then 0
    else AllUses(c, es[..|es| - 1], k) + Uses(After(c, es[..|es| - 1]), es[|es| - 1], k)
  }

  /** A use takes the prime away; only a priming probe puts one back. */
  lemma NextPays(c: Caches, e: Event, k: Key)
    requires EventOk(e)
    ensures Uses(c, e, k) + (if k in Next(c, e).primed then 1 else 0) <= Primes(c, e, k) + (if k in c.primed then 1 else 0)
  {
    match e.op
    case Probe(keys, hit) => ProbedPrimed(c, keys, hit, e.at, e.ask, k);
    case Fetch(keys) => TakesOnce(c, keys, e.at, k);
    case Forget(keys) =>
  }

  /** Over any run, the primes of k used by fetches are no more than the primes made. */
  lemma {:induction false} EachPrimeUsedOnce(c: Caches, es: seq<Event>, k: Key)
    requires c.primed == map[] && forall e | e in es :: EventOk(e)
    ensures AllUses(c, es, k) + (if k in After(c, es).primed then 1 else 0) <= AllPrimes(c, es, k)
  {
    if es != [] {
      EachPrimeUsedOnce(c, es[..|es| - 1], k);
      NextPays(After(c, es[..|es| - 1]), es[|es| - 1], k);
    }
  }

  // ---------------------------------------------------------------- the bound is exact

  /** When the second of two probes falls inside the read cache's time to live, it primes
      the first one's answer again. */
  lemma SecondProbe(dirTtl: real, primedTtl: real, cap: nat, k: Key, stale: Location, p: real, first: Answers, later: Answers)
    requires 0.0 <= p < dirTtl && primedTtl > 0.0 && stale.resident && first(k) == Some(stale)
    ensures var c := Next(Next(Empty(dirTtl, primedTtl, cap), Event(0.0, Probe([k], 1), first)), Event(p, Probe([k], 1), later));
            k in c.primed && c.primed[k] == Cached(stale, p + primedTtl)
  {
    var c := Empty(dirTtl, primedTtl, cap);
    var d := Next(c, Event(0.0, Probe([k], 1), first));
    DirAfterSpec(c, [k], 0.0, first, k);
    ProbedPrimed(d, [k], 1, p, later, k);
  }

  /** The probe time that leaves a location age old when it is fetched. */
  function ProbeAt(dirTtl: real, primedTtl: real, age: real): real {
    if age < dirTtl then age else if age < primedTtl then 0.0 else (age - primedTtl + dirTtl) / 2.0
  }

  /** With the read cache on, a fetch can be given a location of any age below the sum of
      the two times to live, although the directory has long answered otherwise. */
  lemma StalenessReached(dirTtl: real, primedTtl: real, cap: nat, k: Key, stale: Location, age: real, first: Answers, later: Answers)
    requires dirTtl > 0.0 && primedTtl > 0.0 && 0.0 <= age < dirTtl + primedTtl
    requires stale.resident && first(k) == Some(stale)
    ensures var p := ProbeAt(dirTtl, primedTtl, age);
            var c := Next(Next(Empty(dirTtl, primedTtl, cap), Event(0.0, Probe([k], 1), first)), Event(p, Probe([k], 1), later));
            0.0 <= p <= age && TakenAt(c, [k], 0, age, later) == Some(stale)
  {
    var p := ProbeAt(dirTtl, primedTtl, age);
    SecondProbe(dirTtl, primedTtl, cap, k, stale, p, first, later);
  }

  /** No run hands a fetch a location that was last right longer ago than one hand-off. */
  ghost predicate HandoffBound(dirTtl: real, primedTtl: real, cap: nat) {
    forall es: seq<Event>, e: Event, i: nat | Ordered(es + [e]) && Ordered(es) && e.op.Fetch? && i < |e.op.keys| ::
      Within(After(Empty(dirTtl, primedTtl, cap), es), es, e, i, primedTtl)
  }

  /** "Never older than one prefetch handoff" holds exactly when the read cache is off. */
  lemma HandoffBoundIff(dirTtl: real, primedTtl: real, cap: nat)
    requires primedTtl > 0.0
    ensures HandoffBound(dirTtl, primedTtl, cap) <==> dirTtl <= 0.0
  {
    if dirTtl <= 0.0 {
      forall es: seq<Event>, e: Event, i: nat | Ordered(es + [e]) && Ordered(es) && e.op.Fetch? && i < |e.op.keys|
        ensures Within(After(Empty(dirTtl, primedTtl, cap), es), es, e, i, primedTtl)
      {
        RunKeeps(Empty(dirTtl, primedTtl, cap), es);
        BoundedStaleness(dirTtl, primedTtl, cap, es, e, i);
      }
    } else {
      var e0, e1, e := StaleRun(dirTtl, primedTtl, cap, "k", Location("n", 0, 0, true));
      var es := [e0, e1];
      assert !Within(After(Empty(dirTtl, primedTtl, cap), es), es, e, 0, primedTtl);
    }
  }

  /** Two probes and a fetch that break the hand-off bound when the read cache is on. */
  lemma StaleRun(dirTtl: real, primedTtl: real, cap: nat, k: Key, stale: Location) returns (e0: Event, e1: Event, e: Event)
    requires dirTtl > 0.0 && primedTtl > 0.0 && stale.resident
    ensures Ordered([e0, e1]) && Ordered([e0, e1] + [e]) && e.op == Fetch([k])
    ensures !Within(After(Empty(dirTtl, primedTtl, cap), [e0, e1]), [e0, e1], e, 0, primedTtl)
  {
    var age := primedTtl + dirTtl / 2.0;
    var first: Answers := _ => Some(stale);
    var later: Answers := _ => None;
    StalenessReached(dirTtl, primedTtl, cap, k, stale, age, first, later);
    e0 := Event(0.0, Probe([k], 1), first);
    e1 := Event(ProbeAt(dirTtl, primedTtl, age), Probe([k], 1), later);
    e := Event(age, Fetch([k]), later);
    ThreeOrdered(e0, e1, e);
    AfterTwo(Empty(dirTtl, primedTtl, cap), e0, e1);
    StaleIsOutside(Next(Next(Empty(dirTtl, primedTtl, cap), e0), e1), e0, e1, e, stale, primedTtl);
  }

  lemma AfterTwo(c: Caches, e0: Event, e1: Event)
    requires EventOk(e0) && EventOk(e1)
    ensures After(c, [e0, e1]) == Next(Next(c, e0), e1)
  {
    assert [e0, e1][..1] == [e0] && [e0][..0] == [];
    assert After(c, [e0]) == Next(c, e0);
  }

  lemma ThreeOrdered(e0: Event, e1: Event, e: Event)
    requires EventOk(e0) && EventOk(e1) && EventOk(e) && e0.at <= e1.at <= e.at
    ensures Ordered([e0, e1]) && Ordered([e0, e1] + [e])
  {
    assert [e0, e1] + [e] == [e0, e1, e];
  }

  /** An answer given only at the start of a run is outside any bound up to its age. */
  lemma StaleIsOutside(c: Caches, e0: Event, e1: Event, e: Event, stale: Location, bound: real)
    requires e.op.Fetch? && e.op.keys != [] && e.at >= e0.at + bound
    requires e.ask(e.op.keys[0]) != Some(stale) && e1.ask(e.op.keys[0]) != Some(stale)
    requires TakenAt(c, e.op.keys, 0, e.at, e.ask) == Some(stale)
    ensures !Within(c, [e0, e1], e, 0, bound)
  {
    assert forall t: real :: Told([e0, e1], t, e.op.keys[0], stale) ==> t == e0.at;
  }
}
