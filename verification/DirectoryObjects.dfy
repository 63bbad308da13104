/** The directory shard and the routing client as the mutable objects they are. */
module DirectoryObjects {
  import opened HashRing
  import opened RingObject
  import D = Directory

  type Answer<L> = D.Answer<L>

  class DirectoryServer<L> {
    var store: map<string, L>

    constructor ()
      ensures store == map[]
    {
      store := map[];
    }

    function Value(key: string): Answer<L>
      reads this
    {
      if key in store then D.Found(store[key]) else D.Nothing
    }

    method OnPut(entries: map<string, L>)
      modifies this
      ensures store == old(store) + entries
    {
      store := store + entries;
    }

    method OnGet(keys: seq<string>) returns (locations: seq<Answer<L>>)
      ensures |locations| == |keys|
      ensures forall i | 0 <= i < |keys| :: locations[i] == Value(keys[i])
    {
      locations := [];
      for i := 0 to |keys|
        invariant |locations| == i
        invariant forall j | 0 <= j < i :: locations[j] == Value(keys[j])
      {
        locations := locations + [Value(keys[i])];
      }
    }

    method OnDelete(keys: seq<string>)
      modifies this
      ensures store == old(store) - (set k | k in keys)
    {
      ghost var before := store;
      ghost var gone: set<string> := {};
      for i := 0 to |keys|
        invariant store == before - gone
        invariant forall k :: k in gone <==> k in keys[..i]
      {
        store := store - {keys[i]};
        gone := gone + {keys[i]};
        assert keys[..i + 1] == keys[..i] + [keys[i]];
      }
      assert keys[..|keys|] == keys;
      assert gone == set k | k in keys;
    }
  }

  /** d.get(n, {}) on a dictionary of dictionaries. */
  function At<L>(d: map<string, map<string, L>>, n: string): map<string, L> {
    if n in d then d[n] else map[]
  }

  /** The keys listed for n in a dictionary of lists. */
  function KeysAt(d: map<string, seq<string>>, n: string): set<string> {
    if n in d then set k | k in d[n] else {}
  }

  function GroupAt(d: map<string, seq<string>>, n: string): seq<string> {
    if n in d then d[n] else []
  }

  predicate HasOwner(cfg: D.Config, ring: Ring, key: string) {
    D.Owners(cfg, ring, key) != []
  }

  predicate HasPrimary(cfg: D.Config, ring: Ring, key: string, node: string) {
    D.Owners(cfg, ring, key) != [] && D.Owners(cfg, ring, key)[0] == node
  }

  /** Part way through a get: keys whose primary is still to be asked read None. */
  ghost predicate Progress<L>(cfg: D.Config, d: D.Dir<L>, keys: seq<string>, open: set<string>, result: map<string, Answer<L>>) {
    && (forall k :: k in result <==> k in keys)
    && forall k | k in result ::
         result[k] == if HasOwner(cfg, d.ring, k) && D.Owners(cfg, d.ring, k)[0] in open then D.Nothing
                      else D.Lookup(cfg, d, keys, k)
  }

  lemma ProgressStart<L>(cfg: D.Config, d: D.Dir<L>, keys: seq<string>, groups: map<string, seq<string>>, result: map<string, Answer<L>>)
    requires forall p :: GroupAt(groups, p) == D.GroupOf(cfg, d.ring, keys, p)
    requires (forall k :: k in result <==> k in keys) && forall k | k in result :: result[k] == D.Nothing
    ensures Progress(cfg, d, keys, groups.Keys, result)
  {
    forall k | k in keys && HasOwner(cfg, d.ring, k) ensures D.Owners(cfg, d.ring, k)[0] in groups {
      D.GroupSpec(cfg, d.ring, keys, D.Owners(cfg, d.ring, k)[0]);
    }
  }

  lemma ProgressDone<L>(cfg: D.Config, d: D.Dir<L>, keys: seq<string>, result: map<string, Answer<L>>)
    requires Progress(cfg, d, keys, {}, result)
    ensures forall k | k in keys :: k in result
    ensures forall i | 0 <= i < |keys| :: Listing(result, keys)[i] == D.Lookup(cfg, d, keys, keys[i])
  {
    assert forall i | 0 <= i < |keys| :: keys[i] in keys;
  }

  /** [result[k] for k in keys]. */
  function Listing<L>(result: map<string, Answer<L>>, keys: seq<string>): (r: seq<Answer<L>>)
    requires forall k | k in keys :: k in result
    ensures |r| == |keys|
  {
    seq(|keys|, i requires 0 <= i < |keys| => result[keys[i]])
  }

  lemma ProgressStep<L>(cfg: D.Config, d: D.Dir<L>, keys: seq<string>, open: set<string>, owner: string,
                        result: map<string, Answer<L>>, r: map<string, Answer<L>>)
    requires Progress(cfg, d, keys, open, result) && r.Keys == result.Keys
    requires forall k | k in r :: r[k] == if HasPrimary(cfg, d.ring, k, owner) then D.Lookup(cfg, d, keys, k) else result[k]
    ensures Progress(cfg, d, keys, open - {owner}, r)
  {
  }

  lemma ShareGrows<L>(cfg: D.Config, ring: Ring, done: map<string, L>, key: string, loc: L, n: string)
    requires key !in done
    ensures D.ShareOf(cfg, ring, done[key := loc], n) ==
            if n in D.Owners(cfg, ring, key) then D.ShareOf(cfg, ring, done, n)[key := loc] else D.ShareOf(cfg, ring, done, n)
  {
    var owned := set k | k in done[key := loc] && n in D.Owners(cfg, ring, k);
    ShareIs(cfg, ring, done[key := loc], n, owned);
    ShareIs(cfg, ring, done, n, owned);
    PickedGrows(done, key, loc, owned);
  }

  /** The entries of m whose keys are in ks. */
  function Picked<L>(m: map<string, L>, ks: set<string>): map<string, L> {
    map k | k in m && k in ks :: m[k]
  }

  lemma ShareIs<L>(cfg: D.Config, ring: Ring, m: map<string, L>, n: string, owned: set<string>)
    requires forall k | k in m :: k in owned <==> n in D.Owners(cfg, ring, k)
    ensures D.ShareOf(cfg, ring, m, n) == Picked(m, owned)
  {
  }

  lemma PickedGrows<L>(m: map<string, L>, key: string, loc: L, ks: set<string>)
    requires key !in m
    ensures Picked(m[key := loc], ks) == if key in ks then Picked(m, ks)[key := loc] else Picked(m, ks)
  {
  }

  /** groups are the keys by primary owner, in request order, with no empty group. */
  ghost predicate Grouped(cfg: D.Config, ring: Ring, keys: seq<string>, groups: map<string, seq<string>>) {
    && (forall p :: GroupAt(groups, p) == D.GroupOf(cfg, ring, keys, p))
    && forall p | p in groups :: groups[p] != []
  }

  /** One more key listed under its primary. */
  lemma GroupGrows(cfg: D.Config, ring: Ring, keys: seq<string>, key: string, groups: map<string, seq<string>>, next: map<string, seq<string>>)
    requires Grouped(cfg, ring, keys, groups)
    requires var owners := D.Owners(cfg, ring, key);
             next == if owners == [] then groups else groups[owners[0] := GroupAt(groups, owners[0]) + [key]]
    ensures Grouped(cfg, ring, keys + [key], next)
  {
    assert (keys + [key])[..|keys|] == keys;
  }

  /** perNode lists every one of the keys under each of its owners, and nothing else. */
  ghost predicate ListedAt(cfg: D.Config, ring: Ring, keys: seq<string>, perNode: map<string, seq<string>>) {
    forall n, k :: k in KeysAt(perNode, n) <==> k in keys && n in D.Owners(cfg, ring, k)
  }

  lemma ListedGrows(cfg: D.Config, ring: Ring, keys: seq<string>, key: string, perNode: map<string, seq<string>>, next: map<string, seq<string>>)
    requires ListedAt(cfg, ring, keys, perNode)
    requires forall n, k :: k in KeysAt(next, n) <==> k in KeysAt(perNode, n) || (k == key && n in D.Owners(cfg, ring, key))
    ensures ListedAt(cfg, ring, keys + [key], next)
  {
    assert forall k :: k in keys + [key] <==> k in keys || k == key;
  }

  /** Shards that each gained their share are the shards after the put. */
  lemma SharesArePut<L>(cfg: D.Config, d: D.Dir<L>, entries: map<string, L>, shards: map<string, map<string, L>>)
    requires shards.Keys == d.shards.Keys
    requires forall n | n in shards :: shards[n] == d.shards[n] + D.ShareOf(cfg, d.ring, entries, n)
    ensures shards == D.Put(cfg, d, entries).shards
  {
  }

  lemma DropsAreDelete<L>(cfg: D.Config, d: D.Dir<L>, keys: set<string>, shards: map<string, map<string, L>>)
    requires shards.Keys == d.shards.Keys
    requires forall n | n in shards :: shards[n] == d.shards[n] - D.DroppedAt(cfg, d.ring, keys, n)
    ensures shards == D.Delete(cfg, d, keys).shards
  {
  }

  /** servers are the shards that resolve and answer; any other node is down. */
  class DirectoryClient<L> {
    const cfg: D.Config
    const ring: ConsistentHashRing
    const servers: map<string, DirectoryServer<L>>

    ghost predicate Valid()
      reads this, ring
    {
      && cfg.Valid() && ring.hash == cfg.hash && ring.vnodes == cfg.vnodes
      && ValidRing(ring.Value(), cfg.hash, cfg.vnodes)
      && forall a, b | a in servers && b in servers && a != b :: servers[a] != servers[b]
    }

    ghost function Shards(): map<string, map<string, L>>
      reads set n | n in servers :: servers[n]
    {
      map n | n in servers :: servers[n].store
    }

    /** The directory as the client sees it. */
    ghost function State(): D.Dir<L>
      reads ring, set n | n in servers :: servers[n]
    {
      D.Dir(ring.Value(), Shards(), map[], map[], map[])
    }

    constructor (cfg: D.Config, ring: ConsistentHashRing, servers: map<string, DirectoryServer<L>>)
      requires cfg.Valid() && ring.hash == cfg.hash && ring.vnodes == cfg.vnodes
      requires ValidRing(ring.Value(), cfg.hash, cfg.vnodes)
      requires forall a, b | a in servers && b in servers && a != b :: servers[a] != servers[b]
      ensures Valid() && this.cfg == cfg && this.ring == ring && this.servers == servers
    {
      this.cfg, this.ring, this.servers := cfg, ring, servers;
    }

    method Owners(key: string) returns (owners: seq<string>)
      requires Valid()
      ensures owners == D.Owners(cfg, ring.Value(), key)
    {
      if cfg.replicas == 1 {
        owners := ring.GetNode(key);
      } else {
        owners := ring.GetNodes(key, cfg.replicas);
      }
    }

    /** Write each entry to every reachable owner, one call per node. */
    method Put(entries: map<string, L>)
      requires Valid()
      modifies set n | n in servers :: servers[n]
      ensures Valid() && Shards() == D.Put(cfg, old(State()), entries).shards
    {
      var perNode := Split(entries);
      Send(perNode, entries);
    }

    /** The per-node dictionaries of one put. */
    method Split(entries: map<string, L>) returns (perNode: map<string, map<string, L>>)
      requires Valid()
      ensures forall n :: At(perNode, n) == D.ShareOf(cfg, ring.Value(), entries, n)
    {
      ghost var r := ring.Value();
      ghost var done: map<string, L> := map[];
      perNode := map[];
      var todo := entries.Keys;
      while todo != {}
        invariant todo <= entries.Keys && done.Keys == entries.Keys - todo
        invariant forall k | k in done :: done[k] == entries[k]
        invariant forall n :: At(perNode, n) == D.ShareOf(cfg, r, done, n)
      {
        var key :| key in todo;
        var owners := Owners(key);
        perNode := AddTo(perNode, owners, key, entries[key]);
        forall n ensures At(perNode, n) == D.ShareOf(cfg, r, done[key := entries[key]], n) {
          ShareGrows(cfg, r, done, key, entries[key], n);
        }
        done := done[key := entries[key]];
        todo := todo - {key};
      }
      assert done == entries;
    }

    /** per_node.setdefault(owner, {})[key] = loc for every owner of one key. */
    static method AddTo(perNode: map<string, map<string, L>>, owners: seq<string>, key: string, loc: L)
      returns (r: map<string, map<string, L>>)
      ensures forall n :: At(r, n) == if n in owners then At(perNode, n)[key := loc] else At(perNode, n)
    {
      r := perNode;
      for i := 0 to |owners|
        invariant forall n :: At(r, n) == if n in owners[..i] then At(perNode, n)[key := loc] else At(perNode, n)
      {
        assert owners[..i + 1] == owners[..i] + [owners[i]];
        r := r[owners[i] := At(r, owners[i])[key := loc]];
      }
      assert owners[..|owners|] == owners;
    }

    method Send(perNode: map<string, map<string, L>>, ghost entries: map<string, L>)
      requires Valid()
      requires forall n :: At(perNode, n) == D.ShareOf(cfg, ring.Value(), entries, n)
      modifies set n | n in servers :: servers[n]
      ensures Valid() && Shards() == D.Put(cfg, old(State()), entries).shards
    {
      ghost var before := Shards();
      var nodes := perNode.Keys;
      while nodes != {}
        invariant nodes <= perNode.Keys && Valid()
        invariant forall n | n in servers ::
                    servers[n].store == if n in nodes then before[n] else before[n] + At(perNode, n)
      {
        var n :| n in nodes;
        if n in servers {
          servers[n].OnPut(perNode[n]);
        }
        nodes := nodes - {n};
      }
      SharesArePut(cfg, old(State()), entries, Shards());
    }

    /** Drop keys from every reachable owner, one call per node. */
    method Delete(keys: seq<string>)
      requires Valid()
      modifies set n | n in servers :: servers[n]
      ensures Valid() && Shards() == D.Delete(cfg, old(State()), set k | k in keys).shards
    {
      var perNode := SplitKeys(keys);
      SendDrops(perNode, keys);
    }

    method SendDrops(perNode: map<string, seq<string>>, ghost keys: seq<string>)
      requires Valid()
      requires forall n :: KeysAt(perNode, n) == D.DroppedAt(cfg, ring.Value(), (set k | k in keys), n)
      modifies set n | n in servers :: servers[n]
      ensures Valid() && Shards() == D.Delete(cfg, old(State()), set k | k in keys).shards
    {
      ghost var before := Shards();
      var nodes := perNode.Keys;
      while nodes != {}
        invariant nodes <= perNode.Keys && Valid()
        invariant forall n | n in servers ::
                    servers[n].store == if n in nodes then before[n] else before[n] - KeysAt(perNode, n)
      {
        var n :| n in nodes;
        if n in servers {
          servers[n].OnDelete(perNode[n]);
        }
        nodes := nodes - {n};
      }
      DropsAreDelete(cfg, old(State()), (set k | k in keys), Shards());
    }

    method SplitKeys(keys: seq<string>) returns (perNode: map<string, seq<string>>)
      requires Valid()
      ensures forall n :: KeysAt(perNode, n) == D.DroppedAt(cfg, ring.Value(), (set k | k in keys), n)
    {
      ghost var r := ring.Value();
      perNode := map[];
      for i := 0 to |keys|
        invariant ListedAt(cfg, r, keys[..i], perNode)
      {
        var owners := Owners(keys[i]);
        ghost var was := perNode;
        perNode := ListAt(perNode, owners, keys[i]);
        ListedGrows(cfg, r, keys[..i], keys[i], was, perNode);
        assert keys[..i + 1] == keys[..i] + [keys[i]];
      }
      assert keys[..|keys|] == keys;
    }

    /** per_node.setdefault(owner, []).append(key) for every owner of one key. */
    static method ListAt(perNode: map<string, seq<string>>, owners: seq<string>, key: string)
      returns (r: map<string, seq<string>>)
      ensures forall n, k :: k in KeysAt(r, n) <==> k in KeysAt(perNode, n) || (k == key && n in owners)
    {
      r := perNode;
      for i := 0 to |owners|
        invariant forall n, k :: k in KeysAt(r, n) <==> k in KeysAt(perNode, n) || (k == key && n in owners[..i])
      {
        assert owners[..i + 1] == owners[..i] + [owners[i]];
        r := r[owners[i] := GroupAt(r, owners[i]) + [key]];
      }
      assert owners[..|owners|] == owners;
    }

    // -------------------------------------------------------------- lookups

    /** One key joins the group of its primary owner. */
    method GroupNext(key: string, groups: map<string, seq<string>>, ghost before: seq<string>) returns (r: map<string, seq<string>>)
      requires Valid() && Grouped(cfg, ring.Value(), before, groups)
      ensures Grouped(cfg, ring.Value(), before + [key], r)
    {
      var owners := Owners(key);
      r := groups;
      if owners != [] {
        r := groups[owners[0] := GroupAt(groups, owners[0]) + [key]];
      }
      GroupGrows(cfg, ring.Value(), before, key, groups, r);
    }

    /** Group keys by primary owner, keeping request order inside each group. */
    method GroupByOwner(keys: seq<string>) returns (groups: map<string, seq<string>>)
      requires Valid()
      ensures Grouped(cfg, ring.Value(), keys, groups)
    {
      ghost var r := ring.Value();
      groups := map[];
      for i := 0 to |keys|
        invariant Grouped(cfg, r, keys[..i], groups)
      {
        groups := GroupNext(keys[i], groups, keys[..i]);
        assert keys[..i + 1] == keys[..i] + [keys[i]];
      }
      assert keys[..|keys|] == keys;
    }

    /** Ask the primary, or in turn the replicas of the group's first key. */
    method GetFromOwner(group: seq<string>, primary: string) returns (locations: seq<Answer<L>>)
      requires Valid() && group != []
      ensures |locations| == |group|
      ensures var who := D.Responder(cfg, State(), group, primary);
              forall i | 0 <= i < |group| ::
                locations[i] == match who case Nothing => D.Nothing case Found(n) => D.Stored(State(), n, group[i])
    {
      var candidates := [primary];
      if cfg.replicas > 1 {
        candidates := Owners(group[0]);
      }
      ghost var all := candidates;
      for c := 0 to |candidates|
        invariant D.FirstLive(State(), candidates) == D.FirstLive(State(), candidates[c..])
      {
        assert candidates[c..][1..] == candidates[c + 1..];
        if candidates[c] in servers {
          locations := servers[candidates[c]].OnGet(group);
          return;
        }
      }
      locations := seq(|group|, _ => D.Nothing);
    }

    /** for k, loc in zip(group, locs): result[k] = loc. */
    static method Fill(result: map<string, Answer<L>>, group: seq<string>, locations: seq<Answer<L>>)
      returns (r: map<string, Answer<L>>)
      requires |locations| == |group| && forall i | 0 <= i < |group| :: group[i] in result
      ensures r.Keys == result.Keys
      ensures forall k | k in r && k !in group :: r[k] == result[k]
      ensures forall k | k in r && k in group :: exists i | 0 <= i < |group| :: group[i] == k && r[k] == locations[i]
    {
      r := result;
      for i := 0 to |group|
        invariant r.Keys == result.Keys
        invariant forall k | k in r && k !in group[..i] :: r[k] == result[k]
        invariant forall k | k in r && k in group[..i] :: exists j | 0 <= j < i :: group[j] == k && r[k] == locations[j]
      {
        assert group[..i + 1] == group[..i] + [group[i]];
        r := r[group[i] := locations[i]];
      }
      assert group[..|group|] == group;
    }

    /** Serve one group of a request into the result dictionary. */
    method GetGroup(keys: seq<string>, group: seq<string>, owner: string, result: map<string, Answer<L>>)
      returns (r: map<string, Answer<L>>)
      requires Valid() && group != [] && group == D.GroupOf(cfg, ring.Value(), keys, owner)
      requires forall k :: k in result <==> k in keys
      ensures r.Keys == result.Keys
      ensures forall k | k in r ::
                r[k] == if HasPrimary(cfg, ring.Value(), k, owner) then D.Lookup(cfg, State(), keys, k) else result[k]
    {
      D.GroupSpec(cfg, ring.Value(), keys, owner);
      assert forall i | 0 <= i < |group| :: group[i] in group;
      var locations := GetFromOwner(group, owner);
      r := Fill(result, group, locations);
    }

    /** Locations in request order. */
    method Get(keys: seq<string>) returns (answers: seq<Answer<L>>)
      requires Valid()
      ensures |answers| == |keys|
      ensures forall i | 0 <= i < |keys| :: answers[i] == D.Lookup(cfg, State(), keys, keys[i])
    {
      ghost var d := State();
      var result: map<string, Answer<L>> := map k | k in keys :: D.Nothing;
      var groups := GroupByOwner(keys);
      ProgressStart(cfg, d, keys, groups, result);
      var owners := groups.Keys;
      while owners != {}
        invariant owners <= groups.Keys
        invariant Progress(cfg, d, keys, owners, result)
      {
        var owner :| owner in owners;
        assert groups[owner] == GroupAt(groups, owner);
        ghost var was := result;
        result := GetGroup(keys, groups[owner], owner, result);
        ProgressStep(cfg, d, keys, owners, owner, was, result);
        owners := owners - {owner};
      }
      ProgressDone(cfg, d, keys, result);
      assert State() == d;
      answers := Listing(result, keys);
    }
  }
}
