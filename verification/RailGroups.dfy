/** How batch_read_multi and batch_write_multi spread requests over rails and group them
    by (rail, endpoint). */
module RailGroups {
  import opened PoolOrder
  import opened LeaseTheorems

  /** The per-node rail tables a caller passes in. */
  datatype Tables = Tables(endpoints: map<string, seq<string>>, rkeys: map<string, seq<nat>>)

  datatype Route = NoRoute | Routed(pool: PoolId, rkey: nat)

  /** Where request i, addressed to `node`, goes on an engine with `rails` rails. */
  function RouteOf(node: string, i: nat, rails: nat, tb: Tables): Route
    requires rails > 0
  {
    if node !in tb.endpoints || node !in tb.rkeys then NoRoute
    else
      var eps, rks := tb.endpoints[node], tb.rkeys[node];
      var rail := i % rails;
      if rail < |eps| && rail < |rks| then Routed(PoolId(rail, eps[rail]), rks[rail])
      else if eps == [] || rks == [] then NoRoute
      else Routed(PoolId(0, eps[0]), rks[0])
  }

  datatype RailGroup = RailGroup(pool: PoolId, rkey: nat, idxs: seq<nat>)

  /** groups[key].idxs.push_back(i) on a std::map kept in key order. */
  function Pushed(groups: seq<RailGroup>, pool: PoolId, rkey: nat, i: nat): seq<RailGroup> {
    if groups == [] || Less(pool, groups[0].pool) then [RailGroup(pool, rkey, [i])] + groups
    else if groups[0].pool == pool then [groups[0].(idxs := groups[0].idxs + [i])] + groups[1..]
    else [groups[0]] + Pushed(groups[1..], pool, rkey, i)
  }

  predicate Sorted(groups: seq<RailGroup>) {
    forall a, b | 0 <= a < b < |groups| :: Less(groups[a].pool, groups[b].pool)
  }

  /** The routes of a whole batch. */
  function Routes(nodes: seq<string>, rails: nat, tb: Tables): seq<Route>
    requires rails > 0
  {
    seq(|nodes|, i requires 0 <= i < |nodes| => RouteOf(nodes[i], i, rails, tb))
  }

  predicate RoutesTo(routes: seq<Route>, i: nat, pool: PoolId) {
    i < |routes| && routes[i].Routed? && routes[i].pool == pool
  }

  /** g lists, in ascending order, requests that route to its pool, and carries the rkey
      of the first of them. */
  predicate GroupOk(g: RailGroup, routes: seq<Route>) {
    && g.idxs != []
    && (forall a, b | 0 <= a < b < |g.idxs| :: g.idxs[a] < g.idxs[b])
    && (forall i | i in g.idxs :: RoutesTo(routes, i, g.pool))
    && RoutesTo(routes, g.idxs[0], g.pool) && g.rkey == routes[g.idxs[0]].rkey
  }

  predicate AllOk(groups: seq<RailGroup>, routes: seq<Route>) {
    forall a | 0 <= a < |groups| :: GroupOk(groups[a], routes)
  }

  /** Request i is in the group of the pool it routes to. */
  predicate Listed(groups: seq<RailGroup>, pool: PoolId, i: nat) {
    exists a | 0 <= a < |groups| :: groups[a].pool == pool && i in groups[a].idxs
  }

  predicate AllListed(groups: seq<RailGroup>, routes: seq<Route>) {
    forall i | 0 <= i < |routes| && routes[i].Routed? :: Listed(groups, routes[i].pool, i)
  }

  lemma {:induction false} PushedKeepsSorted(groups: seq<RailGroup>, pool: PoolId, rkey: nat, i: nat)
    requires Sorted(groups)
    ensures Sorted(Pushed(groups, pool, rkey, i))
    ensures forall g | g in Pushed(groups, pool, rkey, i) :: g.pool == pool || g in groups
  {
    if groups == [] {
    } else if Less(pool, groups[0].pool) {
      forall b | 0 <= b < |groups| ensures Less(pool, groups[b].pool) {
        if b > 0 { LessTransitive(pool, groups[0].pool, groups[b].pool); }
      }
    } else if groups[0].pool != pool {
      LessTrichotomy(pool, groups[0].pool);
      PushedKeepsSorted(groups[1..], pool, rkey, i);
      var rest := Pushed(groups[1..], pool, rkey, i);
      forall b | 0 <= b < |rest| ensures Less(groups[0].pool, rest[b].pool) {
        assert rest[b] in rest;
        if rest[b] in groups[1..] {
          var a :| 0 <= a < |groups[1..]| && groups[1..][a] == rest[b];
          assert groups[a + 1] == rest[b];
        }
      }
    }
  }

  lemma GroupGrows(g: RailGroup, routes: seq<Route>, r: Route)
    requires GroupOk(g, routes)
    ensures GroupOk(g, routes + [r])
    ensures r.Routed? && r.pool == g.pool ==> GroupOk(g.(idxs := g.idxs + [|routes|]), routes + [r])
  {
    forall i | i in g.idxs ensures RoutesTo(routes + [r], i, g.pool) && i < |routes| {
      assert RoutesTo(routes, i, g.pool);
    }
    assert g.idxs[0] in g.idxs;
    var longer := g.idxs + [|routes|];
    assert forall a | 0 <= a < |g.idxs| :: longer[a] == g.idxs[a] && g.idxs[a] in g.idxs;
    assert RoutesTo(routes + [r], longer[0], g.pool);
  }

  lemma {:induction false} PushedKeepsGroups(groups: seq<RailGroup>, routes: seq<Route>, r: Route)
    requires AllOk(groups, routes) && r.Routed?
    ensures AllOk(Pushed(groups, r.pool, r.rkey, |routes|), routes + [r])
  {
    forall a | 0 <= a < |groups| ensures GroupOk(groups[a], routes + [r]) {
      GroupGrows(groups[a], routes, r);
    }
    if groups == [] || Less(r.pool, groups[0].pool) {
      assert RoutesTo(routes + [r], |routes|, r.pool);
      assert GroupOk(RailGroup(r.pool, r.rkey, [|routes|]), routes + [r]);
    } else if groups[0].pool == r.pool {
      GroupGrows(groups[0], routes, r);
    } else {
      PushedKeepsGroups(groups[1..], routes, r);
    }
  }

  lemma {:induction false} PushedLists(groups: seq<RailGroup>, pool: PoolId, rkey: nat, k: nat, p: PoolId, i: nat)
    requires (p == pool && i == k) || Listed(groups, p, i)
    ensures Listed(Pushed(groups, pool, rkey, k), p, i)
  {
    var after := Pushed(groups, pool, rkey, k);
    if groups == [] || Less(pool, groups[0].pool) {
      assert after[0] == RailGroup(pool, rkey, [k]) && after[1..] == groups;
      if Listed(groups, p, i) {
        var a :| 0 <= a < |groups| && groups[a].pool == p && i in groups[a].idxs;
        assert after[a + 1] == groups[a];
      }
    } else if groups[0].pool == pool {
      assert k in after[0].idxs;
      if Listed(groups, p, i) {
        var a :| 0 <= a < |groups| && groups[a].pool == p && i in groups[a].idxs;
        assert after[a].pool == p && i in after[a].idxs;
      }
    } else {
      assert after[0] == groups[0];
      if groups[0].pool == p && i in groups[0].idxs {
      } else {
        if Listed(groups, p, i) {
          var a :| 0 <= a < |groups| && groups[a].pool == p && i in groups[a].idxs;
          assert groups[1..][a - 1] == groups[a];
        }
        PushedLists(groups[1..], pool, rkey, k, p, i);
        var a :| 0 <= a < |after[1..]| && after[1..][a].pool == p && i in after[1..][a].idxs;
        assert after[a + 1] == after[1..][a];
      }
    }
  }

  // ---------------------------------------------------------------- in terms of the tables

  /** The node advertises at least one rail in both tables. */
  predicate Routable(node: string, tb: Tables) {
    node in tb.endpoints && node in tb.rkeys && tb.endpoints[node] != [] && tb.rkeys[node] != []
  }

  /** Request i of `rails` round robin, or rail 0 when the node advertises fewer. */
  function RailFor(i: nat, rails: nat, endpoints: nat, rkeys: nat): nat
    requires rails > 0
  {
    if i % rails < endpoints && i % rails < rkeys then i % rails else 0
  }

  /** Request i belongs to group g: its node is routable, and the group's rail and endpoint
      are the ones that node advertises for it. */
  predicate Belongs(nodes: seq<string>, rails: nat, tb: Tables, g: RailGroup, i: nat)
    requires rails > 0
  {
    && i < |nodes| && Routable(nodes[i], tb)
    && g.pool.rail == RailFor(i, rails, |tb.endpoints[nodes[i]]|, |tb.rkeys[nodes[i]]|)
    && g.pool.endpoint == tb.endpoints[nodes[i]][g.pool.rail]
  }

  /** The groups hold every routable request, each where it belongs, and a group's rkey is
      the one the node of its first request advertises for the group's rail. */
  ghost predicate Spread(nodes: seq<string>, rails: nat, tb: Tables, groups: seq<RailGroup>)
    requires rails > 0
  {
    && (forall i: nat | i < |nodes| :: (exists g | g in groups :: i in g.idxs) <==> Routable(nodes[i], tb))
    && (forall g, i | g in groups && i in g.idxs :: Belongs(nodes, rails, tb, g, i))
    && (forall g | g in groups :: g.idxs != [] && Belongs(nodes, rails, tb, g, g.idxs[0]) && g.rkey == tb.rkeys[nodes[g.idxs[0]]][g.pool.rail])
  }

  lemma RouteSpec(node: string, i: nat, rails: nat, tb: Tables)
    requires rails > 0
    ensures RouteOf(node, i, rails, tb).Routed? <==> Routable(node, tb)
    ensures
      var r := RouteOf(node, i, rails, tb);
      r.Routed? ==>
        && r.pool.rail == RailFor(i, rails, |tb.endpoints[node]|, |tb.rkeys[node]|)
        && r.pool.endpoint == tb.endpoints[node][r.pool.rail] && r.rkey == tb.rkeys[node][r.pool.rail]
  {
  }

  lemma MemberBelongs(nodes: seq<string>, rails: nat, tb: Tables, g: RailGroup, i: nat)
    requires rails > 0 && RoutesTo(Routes(nodes, rails, tb), i, g.pool)
    ensures Belongs(nodes, rails, tb, g, i) && Routes(nodes, rails, tb)[i].rkey == tb.rkeys[nodes[i]][g.pool.rail]
  {
    RouteSpec(nodes[i], i, rails, tb);
  }

  lemma InSomeGroupIff(nodes: seq<string>, rails: nat, tb: Tables, groups: seq<RailGroup>, i: nat)
    requires rails > 0 && AllOk(groups, Routes(nodes, rails, tb)) && AllListed(groups, Routes(nodes, rails, tb)) && i < |nodes|
    ensures (exists g | g in groups :: i in g.idxs) <==> Routable(nodes[i], tb)
  {
    var routes := Routes(nodes, rails, tb);
    RouteSpec(nodes[i], i, rails, tb);
    if routes[i].Routed? {
      var a :| 0 <= a < |groups| && groups[a].pool == routes[i].pool && i in groups[a].idxs;
      assert groups[a] in groups;
    }
    if g :| g in groups && i in g.idxs {
      assert GroupOk(g, routes) && RoutesTo(routes, i, g.pool);
    }
  }

  lemma GroupsSpread(nodes: seq<string>, rails: nat, tb: Tables, groups: seq<RailGroup>)
    requires rails > 0 && AllOk(groups, Routes(nodes, rails, tb)) && AllListed(groups, Routes(nodes, rails, tb))
    ensures Spread(nodes, rails, tb, groups)
  {
    var routes := Routes(nodes, rails, tb);
    forall i: nat | i < |nodes| ensures (exists g | g in groups :: i in g.idxs) <==> Routable(nodes[i], tb) {
      InSomeGroupIff(nodes, rails, tb, groups, i);
    }
    forall g | g in groups
      ensures g.idxs != [] && Belongs(nodes, rails, tb, g, g.idxs[0]) && g.rkey == tb.rkeys[nodes[g.idxs[0]]][g.pool.rail]
      ensures forall i | i in g.idxs :: Belongs(nodes, rails, tb, g, i)
    {
      assert GroupOk(g, routes);
      MemberBelongs(nodes, rails, tb, g, g.idxs[0]);
      forall i | i in g.idxs ensures Belongs(nodes, rails, tb, g, i) {
        assert RoutesTo(routes, i, g.pool);
        MemberBelongs(nodes, rails, tb, g, i);
      }
    }
  }

  /** The grouping loop. Every routable request lands in exactly one group, that of its
      own (rail, endpoint); the groups come out in strictly ascending pool order. */
  method GroupRequests(nodes: seq<string>, rails: nat, tb: Tables) returns (groups: seq<RailGroup>)
    requires rails > 0
    ensures Sorted(groups)
    ensures AllOk(groups, Routes(nodes, rails, tb))
    ensures AllListed(groups, Routes(nodes, rails, tb))
    ensures Spread(nodes, rails, tb, groups)
  {
    groups := [];
    ghost var routes := Routes(nodes, rails, tb);
    for k := 0 to |nodes|
      invariant Sorted(groups)
      invariant AllOk(groups, routes[..k])
      invariant AllListed(groups, routes[..k])
    {
      var r := RouteOf(nodes[k], k, rails, tb);
      assert routes[..k + 1] == routes[..k] + [r];
      if r.Routed? {
        PushedKeepsSorted(groups, r.pool, r.rkey, k);
        PushedKeepsGroups(groups, routes[..k], r);
        forall i | 0 <= i < k + 1 && routes[i].Routed?
          ensures Listed(Pushed(groups, r.pool, r.rkey, k), routes[i].pool, i)
        {
          assert i < k ==> routes[..k][i] == routes[i];
          PushedLists(groups, r.pool, r.rkey, k, routes[i].pool, i);
        }
        groups := Pushed(groups, r.pool, r.rkey, k);
      } else {
        forall a | 0 <= a < |groups| ensures GroupOk(groups[a], routes[..k + 1]) {
          GroupGrows(groups[a], routes[..k], r);
        }
        ghost var longer := routes[..k + 1];
        forall i | 0 <= i < |longer| && longer[i].Routed? ensures Listed(groups, longer[i].pool, i) {
          assert routes[..k][i] == routes[i];
        }
      }
    }
    assert routes[..|nodes|] == routes;
    GroupsSpread(nodes, rails, tb, groups);
  }

  function Idxs(g: RailGroup): set<nat> {
    set i | i in g.idxs
  }

  function ToGroups(groups: seq<RailGroup>): seq<Group> {
    seq(|groups|, a requires 0 <= a < |groups| => Group(groups[a].pool, Idxs(groups[a])))
  }

  /** So the batch built from them obeys the lease discipline, and no request index sits
      in two groups. */
  lemma GroupsMakeDisciplinedBatch(groups: seq<RailGroup>, routes: seq<Route>, batch: nat, rest: seq<LeaseProtocol.Op>)
    requires Sorted(groups) && AllOk(groups, routes) && LeaseProtocol.Disciplined(rest, {})
    ensures LeaseProtocol.Disciplined(MultiBatch(batch, ToGroups(groups)) + rest, {})
    ensures forall a, b | 0 <= a < b < |groups| :: Idxs(groups[a]) !! Idxs(groups[b])
  {
    MultiBatchDisciplined(batch, ToGroups(groups), rest);
    forall a, b | 0 <= a < b < |groups| ensures Idxs(groups[a]) !! Idxs(groups[b]) {
      LessTrichotomy(groups[a].pool, groups[b].pool);
      assert forall i | i in groups[a].idxs :: RoutesTo(routes, i, groups[a].pool);
      assert forall i | i in groups[b].idxs :: RoutesTo(routes, i, groups[b].pool);
    }
  }

  /** Requests sharing a (rail, endpoint) advertise one rkey for it. */
  predicate RkeysAgree(routes: seq<Route>) {
    forall i, j | 0 <= i < |routes| && 0 <= j < |routes| && routes[i].Routed? && routes[j].Routed? ::
      routes[i].pool == routes[j].pool ==> routes[i].rkey == routes[j].rkey
  }

  /** Group g posts each of its requests with the rkey that request's node advertises. */
  predicate PostsOwnRkeys(g: RailGroup, routes: seq<Route>) {
    forall i | i in g.idxs :: RoutesTo(routes, i, g.pool) && g.rkey == routes[i].rkey
  }

  /** A group posts every request with its first request's rkey. That is each request's
      own rkey exactly when the tables never pair one endpoint with two rkeys. */
  lemma GroupRkeysRightIff(groups: seq<RailGroup>, routes: seq<Route>)
    requires Sorted(groups) && AllOk(groups, routes) && AllListed(groups, routes)
    ensures RkeysAgree(routes) <==> forall a | 0 <= a < |groups| :: PostsOwnRkeys(groups[a], routes)
  {
    if RkeysAgree(routes) {
      forall a | 0 <= a < |groups| ensures PostsOwnRkeys(groups[a], routes) {
        assert GroupOk(groups[a], routes);
      }
    }
    if forall a | 0 <= a < |groups| :: PostsOwnRkeys(groups[a], routes) {
      forall i, j | 0 <= i < |routes| && 0 <= j < |routes| && routes[i].Routed? && routes[j].Routed?
                    && routes[i].pool == routes[j].pool
        ensures routes[i].rkey == routes[j].rkey
      {
        assert Listed(groups, routes[i].pool, i) && Listed(groups, routes[j].pool, j);
        var a :| 0 <= a < |groups| && groups[a].pool == routes[i].pool && i in groups[a].idxs;
        var b :| 0 <= b < |groups| && groups[b].pool == routes[j].pool && j in groups[b].idxs;
        LessTrichotomy(groups[a].pool, groups[b].pool);
        assert a == b;
        assert PostsOwnRkeys(groups[a], routes);
      }
    }
  }

  /** The input: two nodes sharing endpoint e with rkeys 1 and 2. */
  lemma RkeysMayDisagree(m: string, n: string, e: string)
    requires m != n
    ensures var tb := Tables(map[m := [e], n := [e]], map[m := [1], n := [2]]);
            !RkeysAgree(Routes([m, n], 1, tb))
  {
    var tb := Tables(map[m := [e], n := [e]], map[m := [1], n := [2]]);
    var routes := Routes([m, n], 1, tb);
    assert routes[0] == Routed(PoolId(0, e), 1) && routes[1] == Routed(PoolId(0, e), 2);
  }
}
