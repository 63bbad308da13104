/** ConsistentHashRing as the mutable object it is, and the ring as a value for the
    directory model. */
module RingObject {
  import opened Sequences
  import opened HashRing

  /** A ring value: points to nodes, the sorted points, the members. */
  datatype Ring = Ring(m: map<nat, string>, ks: seq<nat>, nodes: set<string>)

  ghost predicate ValidRing(r: Ring, hash: Hash, vnodes: nat) {
    && vnodes >= 1
    && NoCollisions(hash, vnodes, r.nodes)
    && IsRingOf(r.m, hash, vnodes, r.nodes)
    && IsSortedRing(r.m, r.ks)
  }

  /** The nodes a clockwise walk from the key meets, nearest first. */
  function WalkFrom(r: Ring, hash: Hash, key: string): seq<string>
    requires AllIn(r.ks, r.m)
  {
    Walk(r.m, r.ks, hash.place(key))
  }

  lemma MemberIsMet(r: Ring, hash: Hash, vnodes: nat, key: string, n: string)
    requires ValidRing(r, hash, vnodes) && n in r.nodes
    ensures AllIn(r.ks, r.m) && n in NodesOn(r.m, Clockwise(r.ks, hash.place(key)))
  {
    var cw := Clockwise(r.ks, hash.place(key));
    var p := hash.point(n, 0);
    assert p in PointsOf(hash, vnodes, n);
    assert p in r.m && r.m[p] == n;
    ClockwiseCovers(r.ks, hash.place(key), p);
    var i :| 0 <= i < |cw| && cw[i] == p;
    assert NodesOn(r.m, cw)[i] == n;
  }

  lemma MetIsMember(r: Ring, hash: Hash, vnodes: nat, key: string, n: string)
    requires ValidRing(r, hash, vnodes) && AllIn(r.ks, r.m) && n in NodesOn(r.m, Clockwise(r.ks, hash.place(key)))
    ensures n in r.nodes
  {
    var cw := Clockwise(r.ks, hash.place(key));
    var names := NodesOn(r.m, cw);
    var i :| 0 <= i < |names| && names[i] == n;
    assert cw[i] in r.m;
  }

  /** The walk meets every member once and nobody else. */
  lemma WalkMeetsAll(r: Ring, hash: Hash, vnodes: nat, key: string)
    requires ValidRing(r, hash, vnodes)
    ensures AllIn(r.ks, r.m)
    ensures forall n :: n in WalkFrom(r, hash, key) <==> n in r.nodes
    ensures forall i, j | 0 <= i < j < |WalkFrom(r, hash, key)| :: WalkFrom(r, hash, key)[i] != WalkFrom(r, hash, key)[j]
  {
    var names := NodesOn(r.m, Clockwise(r.ks, hash.place(key)));
    DistinctSpec(names);
    forall n | n in r.nodes ensures n in names { MemberIsMet(r, hash, vnodes, key, n); }
    forall n | n in names ensures n in r.nodes { MetIsMember(r, hash, vnodes, key, n); }
  }

  lemma ClockwiseCovers(ks: seq<nat>, h: nat, p: nat)
    requires p in ks
    ensures p in Clockwise(ks, h)
  {
    assert ks == ks[..Bisect(ks, h)] + ks[Bisect(ks, h)..];
  }

  /** The ring value once x has left. */
  function Left(r: Ring, hash: Hash, vnodes: nat, x: string): Ring
    requires AllIn(r.ks, r.m)
  {
    Ring(Removed(r.m, hash, vnodes, x), Survivors(r.m, r.ks, x), r.nodes - {x})
  }

  /** A departure deletes the node from every key's walk and changes nothing else. */
  lemma LeftWalk(r: Ring, hash: Hash, vnodes: nat, x: string, key: string)
    requires ValidRing(r, hash, vnodes) && x in r.nodes
    ensures AllIn(r.ks, r.m)
    ensures var r' := Left(r, hash, vnodes, x);
            ValidRing(r', hash, vnodes) && AllIn(r'.ks, r'.m)
            && WalkFrom(r', hash, key) == Without(WalkFrom(r, hash, key), x)
  {
    RemovedKeeps(r.m, hash, vnodes, r.nodes, x);
    var r' := Left(r, hash, vnodes, x);
    forall p | p in r.m ensures r.m[p] != x <==> p in r'.m {
      assert r.m[p] in r.nodes && p in PointsOf(hash, vnodes, r.m[p]);
      assert r.m[p] != x ==> Apart(hash, vnodes, r.m[p], x);
    }
    assert Dropped(r.m, r'.m, x);
    SurvivorsAscend(r.m, r.ks, x);
    forall p ensures p in r'.ks <==> p in r'.m {
      SurvivorsSpec(r.m, r.ks, x, p);
    }
    WalkAfterRemoval(r.m, r.ks, r'.m, r'.ks, x, hash.place(key));
  }

  /** Two valid rings of the same members are the same ring. */
  lemma MembershipDeterminesRing(r: Ring, r': Ring, hash: Hash, vnodes: nat)
    requires ValidRing(r, hash, vnodes) && ValidRing(r', hash, vnodes) && r.nodes == r'.nodes
    ensures r == r'
  {
    RingIsUnique(r.m, r'.m, hash, vnodes, r.nodes);
    SortedIsUnique(r.ks, r'.ks);
  }

  /** Only the departed node's keys move: any other primary stays, and a departed
      primary is succeeded by the key's second replica. */
  lemma OnlyItsKeysMove(r: Ring, hash: Hash, vnodes: nat, x: string, key: string)
    requires ValidRing(r, hash, vnodes) && x in r.nodes && r.nodes != {x}
    ensures AllIn(r.ks, r.m)
    ensures var w := WalkFrom(r, hash, key);
            var r' := Left(r, hash, vnodes, x);
            && |w| >= 2 && AllIn(r'.ks, r'.m) && WalkFrom(r', hash, key) != []
            && WalkFrom(r', hash, key)[0] == if w[0] != x then w[0] else w[1]
  {
    LeftWalk(r, hash, vnodes, x, key);
    WalkMeetsAll(r, hash, vnodes, key);
    var w := WalkFrom(r, hash, key);
    var other :| other in r.nodes - {x};
    assert other in w && x in w;
    WithoutHead(w, x);
  }

  lemma {:induction false} WithoutHead(w: seq<string>, x: string)
    requires |w| >= 2 && forall i, j | 0 <= i < j < |w| :: w[i] != w[j]
    ensures Without(w, x) != [] && Without(w, x)[0] == if w[0] != x then w[0] else w[1]
  {
    var head, tail := w[..2], w[2..];
    assert w == head + tail;
    WithoutConcat(head, tail, x);
    assert head == [w[0]] + [w[1]];
    WithoutConcat([w[0]], [w[1]], x);
    assert w[0] != w[1];
  }

  lemma PointsMore(hash: Hash, i: nat, node: string)
    ensures PointsOf(hash, i + 1, node) == PointsOf(hash, i, node) + {hash.point(node, i)}
  {
  }

  class ConsistentHashRing {
    const hash: Hash
    const vnodes: nat
    var ring: map<nat, string>
    var sortedKeys: seq<nat>
    var nodes: set<string>

    function Value(): Ring
      reads this
    {
      Ring(ring, sortedKeys, nodes)
    }

    constructor (hash: Hash, vnodes: nat)
      requires vnodes >= 1
      ensures ValidRing(Value(), hash, vnodes) && nodes == {} && this.hash == hash && this.vnodes == vnodes
    {
      this.hash, this.vnodes := hash, vnodes;
      ring, sortedKeys, nodes := map[], [], {};
    }

    /** self._sorted_keys = sorted(self._ring.keys()). */
    method Rebuild()
      modifies this`sortedKeys
      ensures IsSortedRing(ring, sortedKeys)
    {
      sortedKeys := [];
      var todo := ring.Keys;
      while todo != {}
        invariant todo <= ring.Keys
        invariant Ascending(sortedKeys)
        invariant forall p :: p in sortedKeys <==> p in ring && p !in todo
      {
        var p :| p in todo;
        var i := Bisect(sortedKeys, p);
        InsertKeepsOrder(sortedKeys, p);
        sortedKeys := sortedKeys[..i] + [p] + sortedKeys[i..];
        todo := todo - {p};
      }
    }

    /** Write (or drop) the node's virtual points one by one. */
    method PutPoints(node: string)
      modifies this`ring
      ensures ring == Added(old(ring), hash, vnodes, node)
    {
      ghost var before := ring;
      for i := 0 to vnodes
        invariant ring == Added(before, hash, i, node)
      {
        PointsMore(hash, i, node);
        OneMoreAt(before, PointsOf(hash, i, node), hash.point(node, i), node);
        ring := ring[hash.point(node, i) := node];
      }
    }

    method DropPoints(node: string)
      modifies this`ring
      ensures ring == Removed(old(ring), hash, vnodes, node)
    {
      ghost var before := ring;
      for i := 0 to vnodes
        invariant ring == Removed(before, hash, i, node)
      {
        PointsMore(hash, i, node);
        ring := ring - {hash.point(node, i)};
      }
    }

    method AddNode(node: string)
      requires ValidRing(Value(), hash, vnodes) && NoCollisions(hash, vnodes, nodes + {node})
      modifies this
      ensures ValidRing(Value(), hash, vnodes) && nodes == old(nodes) + {node}
      ensures forall i | 0 <= i < vnodes :: hash.point(node, i) in ring && ring[hash.point(node, i)] == node
    {
      if node in nodes {
        assert nodes + {node} == nodes;
        OwnPoints(ring, hash, vnodes, nodes, node);
        return;
      }
      AddedKeeps(ring, hash, vnodes, nodes, node);
      nodes := nodes + {node};
      PutPoints(node);
      Rebuild();
      OwnPoints(ring, hash, vnodes, nodes, node);
    }

    method RemoveNode(node: string)
      requires ValidRing(Value(), hash, vnodes)
      modifies this
      ensures ValidRing(Value(), hash, vnodes) && nodes == old(nodes) - {node}
    {
      if node !in nodes {
        assert nodes - {node} == nodes;
        return;
      }
      RemovedKeeps(ring, hash, vnodes, nodes, node);
      nodes := nodes - {node};
      DropPoints(node);
      Rebuild();
    }

    method SetNodes(target: set<string>)
      requires ValidRing(Value(), hash, vnodes) && NoCollisions(hash, vnodes, target)
      modifies this
      ensures ValidRing(Value(), hash, vnodes) && nodes == target
    {
      if target == nodes {
        return;
      }
      ring := map[];
      nodes := target;
      var todo := target;
      ghost var done: set<string> := {};
      while todo != {}
        invariant todo <= target && done == target - todo && nodes == target
        invariant IsRingOf(ring, hash, vnodes, done)
      {
        var node :| node in todo;
        AddedKeeps(ring, hash, vnodes, done, node);
        PutPoints(node);
        todo := todo - {node};
        done := done + {node};
      }
      assert done == target;
      Rebuild();
    }

    /** The first point strictly past the key's place, wrapping round. */
    method GetNode(key: string) returns (owner: seq<string>)
      requires ValidRing(Value(), hash, vnodes)
      ensures AllIn(sortedKeys, ring) && owner == Take(WalkFrom(Value(), hash, key), 1)
      ensures owner == [] <==> ring == map[]
      ensures owner != [] ==> |owner| == 1 && exists p | p in ring :: ring[p] == owner[0] && forall q | q in ring && q != p :: MetBefore(hash.place(key), p, q)
    {
      if sortedKeys == [] {
        return [];
      }
      var idx := Bisect(sortedKeys, hash.place(key));
      if idx == |sortedKeys| {
        idx := 0;
      }
      ghost var names := NodesOn(ring, Clockwise(sortedKeys, hash.place(key)));
      DistinctSpec(names);
      owner := [ring[sortedKeys[idx]]];
      NearestIsFirst(ring, sortedKeys, hash.place(key));
    }

    /** Up to n distinct nodes clockwise from the key. */
    method GetNodes(key: string, n: int) returns (result: seq<string>)
      requires ValidRing(Value(), hash, vnodes)
      ensures AllIn(sortedKeys, ring)
      ensures result == if n <= 0 then [] else Take(WalkFrom(Value(), hash, key), n)
    {
      WalkIsShort(Value(), hash, vnodes, key);
      if sortedKeys == [] || n <= 0 {
        return [];
      }
      var wanted := if n < |nodes| then n else |nodes|;
      result := Collect(ring, sortedKeys, hash.place(key), wanted);
    }
  }

  /** Every virtual node of a member leads to it. */
  lemma OwnPoints(m: map<nat, string>, hash: Hash, vnodes: nat, nodes: set<string>, node: string)
    requires IsRingOf(m, hash, vnodes, nodes) && node in nodes
    ensures forall i | 0 <= i < vnodes :: hash.point(node, i) in m && m[hash.point(node, i)] == node
  {
    assert forall i | 0 <= i < vnodes :: hash.point(node, i) in PointsOf(hash, vnodes, node);
  }

  /** The point a walk meets first is met before every other. */
  lemma NearestIsFirst(m: map<nat, string>, ks: seq<nat>, h: nat)
    requires IsSortedRing(m, ks) && ks != []
    ensures var p := Clockwise(ks, h)[0];
            p in m && forall q | q in m && q != p :: MetBefore(h, p, q)
  {
    ClockwiseSpec(ks, h);
    var cw := Clockwise(ks, h);
    assert cw[0] in ks;
    forall q | q in m && q != cw[0] ensures MetBefore(h, cw[0], q) {
      assert q in ks && q in cw;
      var j :| 0 <= j < |cw| && cw[j] == q;
    }
  }

  /** A walk is no longer than the membership, so taking more changes nothing. */
  lemma WalkIsShort(r: Ring, hash: Hash, vnodes: nat, key: string)
    requires ValidRing(r, hash, vnodes)
    ensures AllIn(r.ks, r.m) && |WalkFrom(r, hash, key)| <= |r.nodes|
  {
    WalkMeetsAll(r, hash, vnodes, key);
    DistinctFits(WalkFrom(r, hash, key), r.nodes);
  }

  /** The collecting loop of get_nodes, safety stop included. */
  method Collect(m: map<nat, string>, ks: seq<nat>, h: nat, wanted: nat) returns (result: seq<string>)
    requires AllIn(ks, m) && ks != []
    ensures result == Take(Walk(m, ks, h), wanted)
  {
    var idx, count := Bisect(ks, h), |ks|;
    ghost var names := NodesOn(m, Clockwise(ks, h));
    ghost var upto := 0;
    result := [];
    var i := idx;
    while |result| < wanted
      invariant idx <= i <= idx + count && upto == i - idx
      invariant result == Distinct(names[..upto]) && |result| <= wanted
      decreases count + 1 - (i - idx)
    {
      var node := m[ks[i % count]];
      StepAround(ks, h, upto);
      assert node == names[if upto < count then upto else 0];
      MeetNext(names, upto);
      if node !in result {
        result := result + [node];
      }
      upto := if upto < count then upto + 1 else upto;
      i := i + 1;
      if i - idx > count {
        break;
      }
    }
    WalkCut(names, result, upto, wanted);
  }

  /** A walk stopped at the wanted length, or after a full round, is the walk cut there. */
  lemma WalkCut(names: seq<string>, result: seq<string>, upto: nat, wanted: nat)
    requires upto <= |names| && result == Distinct(names[..upto])
    requires |result| == wanted || (upto == |names| && |result| <= wanted)
    ensures result == Take(Distinct(names), wanted)
  {
    DistinctPrefix(names, upto);
    assert upto == |names| ==> names[..upto] == names;
  }

  /** Meeting one more node on the walk; after a full round it is the first one again. */
  lemma MeetNext(names: seq<string>, steps: nat)
    requires names != [] && steps <= |names|
    ensures var d, node := Distinct(names[..steps]), names[if steps < |names| then steps else 0];
            (if node in d then d else d + [node]) == Distinct(names[..if steps < |names| then steps + 1 else steps])
  {
    if steps < |names| {
      assert names[..steps + 1][..steps] == names[..steps];
    } else {
      assert names[..steps] == names;
      DistinctSpec(names);
    }
  }

  lemma InsertMembers(ks: seq<nat>, i: nat, p: nat, q: nat)
    requires i <= |ks|
    ensures q in ks[..i] + [p] + ks[i..] <==> q in ks || q == p
  {
    assert ks == ks[..i] + ks[i..];
  }

  lemma InsertKeepsOrder(ks: seq<nat>, p: nat)
    requires Ascending(ks) && p !in ks
    ensures var i := Bisect(ks, p);
            var after := ks[..i] + [p] + ks[i..];
            Ascending(after) && forall q :: q in after <==> q in ks || q == p
  {
    var i := Bisect(ks, p);
    BisectSpec(ks, p);
    forall q ensures q in ks[..i] + [p] + ks[i..] <==> q in ks || q == p {
      InsertMembers(ks, i, p, q);
    }
    InsertAscends(ks, p, i);
  }

  lemma InsertAscends(ks: seq<nat>, p: nat, i: nat)
    requires Ascending(ks) && p !in ks && i <= |ks| && forall j | 0 <= j < |ks| :: ks[j] <= p <==> j < i
    ensures Ascending(ks[..i] + [p] + ks[i..])
  {
    var after := ks[..i] + [p] + ks[i..];
    forall a, b | 0 <= a < b < |after| ensures after[a] < after[b] {
      assert a < i ==> after[a] == ks[a] && ks[a] in ks;
      assert b > i ==> after[b] == ks[b - 1];
      assert b < i ==> after[b] == ks[b];
      assert a > i ==> after[a] == ks[a - 1];
    }
  }

  lemma Wrap(at: nat, count: nat)
    requires 0 < count && at <= 2 * count
    ensures at % count == if at < count then at else if at < 2 * count then at - count else 0
  {
    if count <= at < 2 * count {
      assert at == count * 1 + (at - count);
    }
  }

  lemma StepAround(ks: seq<nat>, h: nat, steps: nat)
    requires ks != [] && steps <= |ks|
    ensures 0 <= (Bisect(ks, h) + steps) % |ks| < |ks|
    ensures ks[(Bisect(ks, h) + steps) % |ks|] == Clockwise(ks, h)[if steps < |ks| then steps else 0]
  {
    Wrap(Bisect(ks, h) + steps, |ks|);
  }

  /** Distinct of a prefix is a prefix of Distinct. */
  lemma {:induction false} DistinctPrefix(s: seq<string>, n: nat)
    requires n <= |s|
    ensures Distinct(s[..n]) <= Distinct(s)
    decreases |s| - n
  {
    if n < |s| {
      DistinctPrefix(s, n + 1);
      assert s[..n + 1][..n] == s[..n];
    } else {
      assert s[..n] == s;
    }
  }
}
