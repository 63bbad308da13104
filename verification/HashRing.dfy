/** The consistent-hash ring of python/peercache/hashring.py: its contents as a function of
    the membership, and the clockwise walk that picks owners and replicas. */
module HashRing {
  import opened Sequences

  /** The ring hash, of the label of virtual node i of a node, and of a key. */
  datatype Hash = Hash(point: (string, nat) -> nat, place: string -> nat)

  function PointsOf(hash: Hash, vnodes: nat, node: string): set<nat> {
    set i | 0 <= i < vnodes :: hash.point(node, i)
  }

  /** Nodes a and b put no virtual node on the same point. */
  predicate Apart(hash: Hash, vnodes: nat, a: string, b: string) {
    PointsOf(hash, vnodes, a) !! PointsOf(hash, vnodes, b)
  }

  /** No two of these nodes collide. */
  predicate NoCollisions(hash: Hash, vnodes: nat, nodes: set<string>) {
    forall a, b | a in nodes && b in nodes && a != b :: Apart(hash, vnodes, a, b)
  }

  /** m is the ring of exactly these nodes: each point leads to the node it belongs to. */
  ghost predicate IsRingOf(m: map<nat, string>, hash: Hash, vnodes: nat, nodes: set<string>) {
    && (forall n, p | n in nodes && p in PointsOf(hash, vnodes, n) :: p in m && m[p] == n)
    && (forall p | p in m :: m[p] in nodes && p in PointsOf(hash, vnodes, m[p]))
  }

  /** m with node at every one of the points. */
  function AllAt(m: map<nat, string>, points: set<nat>, node: string): map<nat, string> {
    m + map p | p in points :: node
  }

  lemma OneMoreAt(m: map<nat, string>, points: set<nat>, p: nat, node: string)
    ensures AllAt(m, points, node)[p := node] == AllAt(m, points + {p}, node)
  {
  }

  function Added(m: map<nat, string>, hash: Hash, vnodes: nat, node: string): map<nat, string> {
    AllAt(m, PointsOf(hash, vnodes, node), node)
  }

  function Removed(m: map<nat, string>, hash: Hash, vnodes: nat, node: string): map<nat, string> {
    m - PointsOf(hash, vnodes, node)
  }

  /** The ring depends on the membership alone, not on how it came about. */
  lemma RingIsUnique(m: map<nat, string>, m': map<nat, string>, hash: Hash, vnodes: nat, nodes: set<string>)
    requires IsRingOf(m, hash, vnodes, nodes) && IsRingOf(m', hash, vnodes, nodes)
    ensures m == m'
  {
    forall p | p in m ensures p in m' && m'[p] == m[p] {
      assert m[p] in nodes && p in PointsOf(hash, vnodes, m[p]);
    }
    forall p | p in m' ensures p in m {
      assert m'[p] in nodes && p in PointsOf(hash, vnodes, m'[p]);
    }
  }

  lemma AddedKeeps(m: map<nat, string>, hash: Hash, vnodes: nat, nodes: set<string>, node: string)
    requires IsRingOf(m, hash, vnodes, nodes) && NoCollisions(hash, vnodes, nodes + {node})
    ensures IsRingOf(Added(m, hash, vnodes, node), hash, vnodes, nodes + {node})
  {
    forall n, p | n in nodes && n != node && p in PointsOf(hash, vnodes, n)
      ensures p !in PointsOf(hash, vnodes, node)
    {
      assert Apart(hash, vnodes, n, node);
    }
  }

  lemma RemovedKeeps(m: map<nat, string>, hash: Hash, vnodes: nat, nodes: set<string>, node: string)
    requires IsRingOf(m, hash, vnodes, nodes) && NoCollisions(hash, vnodes, nodes) && node in nodes
    ensures IsRingOf(Removed(m, hash, vnodes, node), hash, vnodes, nodes - {node})
  {
    forall n, p | n in nodes && n != node && p in PointsOf(hash, vnodes, n)
      ensures p !in PointsOf(hash, vnodes, node)
    {
      assert Apart(hash, vnodes, n, node);
    }
  }

  /** Adding a node and removing it again restores the ring exactly when the node shares no
      point with any member: without that premise the membership does not determine the
      ring. */
  lemma AddRemoveRestoresIff(m: map<nat, string>, hash: Hash, vnodes: nat, nodes: set<string>, b: string)
    requires IsRingOf(m, hash, vnodes, nodes) && b !in nodes
    ensures IsRingOf(Removed(Added(m, hash, vnodes, b), hash, vnodes, b), hash, vnodes, nodes) <==>
            forall a | a in nodes :: Apart(hash, vnodes, a, b)
  {
    AddRemoveIs(m, PointsOf(hash, vnodes, b), b);
    if IsRingOf(m - PointsOf(hash, vnodes, b), hash, vnodes, nodes) {
      forall a | a in nodes ensures Apart(hash, vnodes, a, b) {
        KeptMeansApart(m, hash, vnodes, nodes, a, b);
      }
    }
    if forall a | a in nodes :: Apart(hash, vnodes, a, b) {
      ApartMeansKept(m, hash, vnodes, nodes, b);
    }
  }

  lemma AddRemoveIs(m: map<nat, string>, points: set<nat>, b: string)
    ensures AllAt(m, points, b) - points == m - points
  {
  }

  lemma KeptMeansApart(m: map<nat, string>, hash: Hash, vnodes: nat, nodes: set<string>, a: string, b: string)
    requires IsRingOf(m - PointsOf(hash, vnodes, b), hash, vnodes, nodes) && a in nodes
    ensures Apart(hash, vnodes, a, b)
  {
    forall p | p in PointsOf(hash, vnodes, a) ensures p !in PointsOf(hash, vnodes, b) {
      assert p in m - PointsOf(hash, vnodes, b);
    }
  }

  lemma ApartMeansKept(m: map<nat, string>, hash: Hash, vnodes: nat, nodes: set<string>, b: string)
    requires IsRingOf(m, hash, vnodes, nodes) && forall a | a in nodes :: Apart(hash, vnodes, a, b)
    ensures m - PointsOf(hash, vnodes, b) == m
  {
    forall p | p in m ensures p !in PointsOf(hash, vnodes, b) {
      assert m[p] in nodes && p in PointsOf(hash, vnodes, m[p]);
      assert Apart(hash, vnodes, m[p], b);
    }
  }

  // ---------------------------------------------------------------- the sorted points

  predicate Ascending(ks: seq<nat>) {
    forall i, j | 0 <= i < j < |ks| :: ks[i] < ks[j]
  }

  /** ks is sorted(m.keys()). */
  ghost predicate IsSortedRing(m: map<nat, string>, ks: seq<nat>) {
    Ascending(ks) && forall p :: p in ks <==> p in m
  }

  /** The last of the sorted points is the largest, and dropping it drops only it. */
  lemma LastPoint(ks: seq<nat>, k: nat)
    requires Ascending(ks) && ks != []
    ensures var n := |ks| - 1;
            && Ascending(ks[..n]) && (k in ks ==> k <= ks[n])
            && (k in ks[..n] <==> k in ks && k != ks[n])
  {
    var n := |ks| - 1;
    assert ks == ks[..n] + [ks[n]];
    if k in ks[..n] {
      var i :| 0 <= i < n && ks[..n][i] == k;
      assert ks[i] < ks[n];
    }
  }

  ghost predicate SamePoints(ks: seq<nat>, ks': seq<nat>) {
    forall k :: k in ks <==> k in ks'
  }

  lemma SameLast(ks: seq<nat>, ks': seq<nat>)
    requires Ascending(ks) && Ascending(ks') && SamePoints(ks, ks') && ks != [] && ks' != []
    ensures ks[|ks| - 1] == ks'[|ks'| - 1] && SamePoints(ks[..|ks| - 1], ks'[..|ks'| - 1])
  {
    var n, n' := |ks| - 1, |ks'| - 1;
    assert ks[n] in ks' && ks'[n'] in ks;
    LastPoint(ks, ks'[n']);
    LastPoint(ks', ks[n]);
    forall k ensures k in ks[..n] <==> k in ks'[..n'] {
      LastPoint(ks, k);
      LastPoint(ks', k);
    }
  }

  lemma {:induction false} SortedIsUnique(ks: seq<nat>, ks': seq<nat>)
    requires Ascending(ks) && Ascending(ks') && SamePoints(ks, ks')
    ensures ks == ks'
  {
    assert ks != [] ==> ks[0] in ks';
    assert ks' != [] ==> ks'[0] in ks;
    if ks != [] {
      var n, n' := |ks| - 1, |ks'| - 1;
      SameLast(ks, ks');
      SortedIsUnique(ks[..n], ks'[..n']);
      assert ks == ks[..n] + [ks[n]] && ks' == ks'[..n'] + [ks'[n']];
    }
  }

  /** bisect.bisect: how many points are at or below h. */
  function Bisect(ks: seq<nat>, h: nat): (r: nat)
    ensures r <= |ks|
  {
    if ks == [] then 0 else Bisect(ks[..|ks| - 1], h) + if ks[|ks| - 1] <= h then 1 else 0
  }

  lemma {:induction false} BisectSpec(ks: seq<nat>, h: nat)
    requires Ascending(ks)
    ensures forall i | 0 <= i < |ks| :: ks[i] <= h <==> i < Bisect(ks, h)
  {
    if ks != [] {
      var n := |ks| - 1;
      BisectSpec(ks[..n], h);
      assert forall i | 0 <= i < n :: ks[..n][i] == ks[i];
    }
  }

  /** The points met walking clockwise from h once around. */
  function Clockwise(ks: seq<nat>, h: nat): (r: seq<nat>)
    ensures |r| == |ks|
    ensures forall i | 0 <= i < |r| :: r[i] in ks
  {
    ks[Bisect(ks, h)..] + ks[..Bisect(ks, h)]
  }

  /** a is met before b on a clockwise walk from h: the points above h come first, each part
      in ascending order. */
  predicate MetBefore(h: nat, a: nat, b: nat) {
    if (a > h) == (b > h) then a < b else a > h
  }

  /** Position i of the walk is this position of the sorted points. */
  lemma ClockwiseAt(ks: seq<nat>, h: nat, i: nat)
    requires i < |ks|
    ensures var b := Bisect(ks, h);
            Clockwise(ks, h)[i] == if b + i < |ks| then ks[b + i] else ks[b + i - |ks|]
  {
  }

  lemma ClockwisePair(ks: seq<nat>, h: nat, i: nat, j: nat)
    requires Ascending(ks) && i < j < |ks|
    ensures MetBefore(h, Clockwise(ks, h)[i], Clockwise(ks, h)[j])
  {
    BisectSpec(ks, h);
    ClockwiseAt(ks, h, i);
    ClockwiseAt(ks, h, j);
  }

  /** The walk meets every point once, in clockwise order. */
  lemma ClockwiseSpec(ks: seq<nat>, h: nat)
    requires Ascending(ks)
    ensures forall p :: p in Clockwise(ks, h) <==> p in ks
    ensures forall i, j | 0 <= i < j < |ks| :: MetBefore(h, Clockwise(ks, h)[i], Clockwise(ks, h)[j])
  {
    forall p ensures p in Clockwise(ks, h) <==> p in ks {
      assert ks == ks[..Bisect(ks, h)] + ks[Bisect(ks, h)..];
    }
    forall i, j | 0 <= i < j < |ks| ensures MetBefore(h, Clockwise(ks, h)[i], Clockwise(ks, h)[j]) {
      ClockwisePair(ks, h, i, j);
    }
  }

  // ---------------------------------------------------------------- the walk

  function NodesOn(m: map<nat, string>, ks: seq<nat>): (r: seq<string>)
    requires AllIn(ks, m)
    ensures |r| == |ks|
  {
    seq(|ks|, i requires 0 <= i < |ks| => m[ks[i]])
  }

  predicate AllIn(ks: seq<nat>, m: map<nat, string>) {
    forall i | 0 <= i < |ks| :: ks[i] in m
  }

  /** All nodes in the order a clockwise walk from h meets them. */
  function Walk(m: map<nat, string>, ks: seq<nat>, h: nat): seq<string>
    requires AllIn(ks, m)
  {
    Distinct(NodesOn(m, Clockwise(ks, h)))
  }

  /** Node walk[i] is met at some point whose predecessors on the way all belong to nodes
      met before it. */
  ghost predicate MetAt(m: map<nat, string>, ks: seq<nat>, h: nat, i: nat, p: nat)
    requires AllIn(ks, m) && p in m
  {
    && i < |Walk(m, ks, h)| && p in ks && m[p] == Walk(m, ks, h)[i]
    && forall q | q in ks && MetBefore(h, q, p) :: m[q] in Walk(m, ks, h)[..i]
  }

  /** Nodes come in the order in which a clockwise walk meets their first points. */
  lemma WalkSpec(m: map<nat, string>, ks: seq<nat>, h: nat, i: nat)
    requires AllIn(ks, m) && Ascending(ks) && i < |Walk(m, ks, h)|
    ensures exists p | p in m :: MetAt(m, ks, h, i, p)
  {
    var names := NodesOn(m, Clockwise(ks, h));
    DistinctOrder(names, i);
    var at: nat :| FirstMet(names, i, at);
    forall q | q in ks && MetBefore(h, q, Clockwise(ks, h)[at]) ensures m[q] in Walk(m, ks, h)[..i] {
      EarlierIsMet(m, ks, h, i, at, q);
    }
    assert MetAt(m, ks, h, i, Clockwise(ks, h)[at]);
  }

  lemma EarlierIsMet(m: map<nat, string>, ks: seq<nat>, h: nat, i: nat, at: nat, q: nat)
    requires AllIn(ks, m) && Ascending(ks) && FirstMet(NodesOn(m, Clockwise(ks, h)), i, at)
    requires q in ks && MetBefore(h, q, Clockwise(ks, h)[at])
    ensures m[q] in Walk(m, ks, h)[..i]
  {
    var cw := Clockwise(ks, h);
    assert q in cw by {
      assert ks == ks[..Bisect(ks, h)] + ks[Bisect(ks, h)..];
    }
    var j :| 0 <= j < |cw| && cw[j] == q;
    if j > at {
      ClockwisePair(ks, h, at, j);
    }
    assert NodesOn(m, cw)[j] == m[q];
  }

  // ---------------------------------------------------------------- removing a node

  /** The points that survive the removal of x, in order. */
  function Survivors(m: map<nat, string>, ks: seq<nat>, x: string): (r: seq<nat>)
    requires AllIn(ks, m)
  {
    if ks == [] then []
    else Survivors(m, ks[..|ks| - 1], x) + if m[ks[|ks| - 1]] == x then [] else [ks[|ks| - 1]]
  }

  lemma {:induction false} SurvivorsSpec(m: map<nat, string>, ks: seq<nat>, x: string, p: nat)
    requires AllIn(ks, m)
    ensures p in Survivors(m, ks, x) <==> p in ks && m[p] != x
  {
    if ks != [] {
      SurvivorsSpec(m, ks[..|ks| - 1], x, p);
      assert ks == ks[..|ks| - 1] + [ks[|ks| - 1]];
    }
  }

  lemma {:induction false} SurvivorsAscend(m: map<nat, string>, ks: seq<nat>, x: string)
    requires Ascending(ks) && AllIn(ks, m)
    ensures Ascending(Survivors(m, ks, x))
  {
    if ks != [] {
      var n := |ks| - 1;
      var short := Survivors(m, ks[..n], x);
      SurvivorsAscend(m, ks[..n], x);
      forall i | 0 <= i < |short| ensures short[i] < ks[n] {
        assert short[i] in short;
        SurvivorsSpec(m, ks[..n], x, short[i]);
        LastPoint(ks, short[i]);
      }
    }
  }

  lemma {:induction false} SurvivorsConcat(m: map<nat, string>, a: seq<nat>, b: seq<nat>, x: string)
    requires AllIn(a, m) && AllIn(b, m)
    ensures AllIn(a + b, m) && Survivors(m, a + b, x) == Survivors(m, a, x) + Survivors(m, b, x)
  {
    if b == [] {
      assert a + b == a;
    } else {
      SurvivorsConcat(m, a, b[..|b| - 1], x);
      assert (a + b)[..|a + b| - 1] == a + b[..|b| - 1];
    }
  }

  lemma {:induction false} BisectConcat(a: seq<nat>, b: seq<nat>, h: nat)
    ensures Bisect(a + b, h) == Bisect(a, h) + Bisect(b, h)
  {
    if b == [] {
      assert a + b == a;
    } else {
      BisectConcat(a, b[..|b| - 1], h);
      assert (a + b)[..|a + b| - 1] == a + b[..|b| - 1];
    }
  }

  /** Points all on one side of h count fully or not at all. */
  lemma {:induction false} BisectExtremes(ks: seq<nat>, h: nat)
    ensures (forall p | p in ks :: p <= h) ==> Bisect(ks, h) == |ks|
    ensures (forall p | p in ks :: p > h) ==> Bisect(ks, h) == 0
  {
    if ks != [] {
      var front := ks[..|ks| - 1];
      BisectExtremes(front, h);
      assert forall p | p in front :: p in ks;
      assert ks[|ks| - 1] in ks;
    }
  }

  /** The starting index moves back by the removed points below it. */
  lemma SurvivorsBisect(m: map<nat, string>, ks: seq<nat>, x: string, h: nat)
    requires Ascending(ks) && AllIn(ks, m)
    ensures Bisect(Survivors(m, ks, x), h) == |Survivors(m, ks[..Bisect(ks, h)], x)|
  {
    var low, high := ks[..Bisect(ks, h)], ks[Bisect(ks, h)..];
    assert ks == low + high;
    BisectSpec(ks, h);
    SurvivorsConcat(m, low, high, x);
    var a, b := Survivors(m, low, x), Survivors(m, high, x);
    forall p | p in a ensures p <= h { SurvivorsSpec(m, low, x, p); }
    forall p | p in b ensures p > h { SurvivorsSpec(m, high, x, p); }
    BisectConcat(a, b, h);
    BisectExtremes(a, h);
    BisectExtremes(b, h);
  }

  /** m' is m without the points of x. */
  ghost predicate Dropped(m: map<nat, string>, m': map<nat, string>, x: string) {
    && (forall p | p in m && m[p] != x :: p in m' && m'[p] == m[p])
    && (forall p | p in m' :: p in m && m[p] != x)
  }

  /** Walking the surviving points meets the same nodes, x left out. */
  lemma {:induction false} NodesOnSurvivors(m: map<nat, string>, m': map<nat, string>, ks: seq<nat>, x: string)
    requires AllIn(ks, m) && Dropped(m, m', x)
    ensures AllIn(Survivors(m, ks, x), m') && NodesOn(m', Survivors(m, ks, x)) == Without(NodesOn(m, ks), x)
  {
    if ks != [] {
      var n := |ks| - 1;
      NodesOnSurvivors(m, m', ks[..n], x);
      var names := NodesOn(m, ks);
      assert names[..n] == NodesOn(m, ks[..n]) && names[n] == m[ks[n]];
    }
  }

  lemma SurvivorsAreSorted(m: map<nat, string>, ks: seq<nat>, m': map<nat, string>, ks': seq<nat>, x: string)
    requires IsSortedRing(m, ks) && IsSortedRing(m', ks') && Dropped(m, m', x)
    ensures AllIn(ks, m) && ks' == Survivors(m, ks, x)
  {
    SurvivorsAscend(m, ks, x);
    forall p ensures p in ks' <==> p in Survivors(m, ks, x) {
      SurvivorsSpec(m, ks, x, p);
    }
    SortedIsUnique(ks', Survivors(m, ks, x));
  }

  lemma ClockwiseSurvivors(m: map<nat, string>, ks: seq<nat>, x: string, h: nat)
    requires Ascending(ks) && AllIn(ks, m)
    ensures AllIn(Clockwise(ks, h), m) && Clockwise(Survivors(m, ks, x), h) == Survivors(m, Clockwise(ks, h), x)
  {
    SurvivorsBisect(m, ks, x, h);
    var b := Bisect(ks, h);
    SurvivorsConcat(m, ks[b..], ks[..b], x);
    SurvivorsConcat(m, ks[..b], ks[b..], x);
    assert ks[..b] + ks[b..] == ks;
  }

  /** The walk after a removal is the walk before it with that node deleted. */
  lemma WalkAfterRemoval(m: map<nat, string>, ks: seq<nat>, m': map<nat, string>, ks': seq<nat>, x: string, h: nat)
    requires IsSortedRing(m, ks) && IsSortedRing(m', ks') && Dropped(m, m', x)
    ensures AllIn(ks, m) && AllIn(ks', m') && Walk(m', ks', h) == Without(Walk(m, ks, h), x)
  {
    SurvivorsAreSorted(m, ks, m', ks', x);
    ClockwiseSurvivors(m, ks, x, h);
    NodesOnSurvivors(m, m', Clockwise(ks, h), x);
    WithoutDistinct(NodesOn(m, Clockwise(ks, h)), x);
  }
}
