/** The bounded per-peer channel pool of cpp/src/connection_manager.cpp: the value it
    holds between two critical sections, what each critical section does to that
    value, and the class that does it in place. */
module ChannelPool {

  /** Identity of one live RdmaEndpoint (its address in the source). */
  type Channel = nat

  datatype Pool = Pool(owned: seq<Channel>, free: seq<Channel>, created: nat)

  const EMPTY := Pool([], [], 0)

  /** What one pass of the lease loop decides while it holds the mutex. */
  datatype Attempt = Took(channel: Channel) | Reserved | MustWait

  predicate Distinct(s: seq<Channel>) {
    forall i, j | 0 <= i < j < |s| :: s[i] != s[j]
  }

  function Tried(p: Pool, max: nat): (Pool, Attempt) {
    if p.free != [] then
      (p.(free := p.free[..|p.free| - 1]), Took(p.free[|p.free| - 1]))
    else if p.created < max then
      (p.(created := p.created + 1), Reserved)
    else
      (p, MustWait)
  }

  function Adopted(p: Pool, c: Channel): Pool {
    p.(owned := p.owned + [c])
  }

  function Abandoned(p: Pool): Pool {
    p.(created := if p.created > 0 then p.created - 1 else 0)
  }

  function Released(p: Pool, c: Channel): Pool {
    p.(free := p.free + [c])
  }

  /** `owned` with the first occurrence of c erased. */
  function Erased(s: seq<Channel>, c: Channel): seq<Channel> {
    if s == [] then [] else if s[0] == c then s[1..] else [s[0]] + Erased(s[1..], c)
  }

  function Discarded(p: Pool, c: Channel): Pool {
    Abandoned(p.(owned := Erased(p.owned, c)))
  }

  /** Erasing an owned channel removes that channel and nothing else. */
  lemma {:induction false} ErasedRemovesOne(s: seq<Channel>, c: Channel)
    requires Distinct(s)
    ensures Distinct(Erased(s, c))
    ensures forall x :: x in Erased(s, c) <==> x in s && x != c
    ensures |Erased(s, c)| == if c in s then |s| - 1 else |s|
  {
    if s != [] {
      assert s == [s[0]] + s[1..];
      assert s[0] !in s[1..];
      ErasedRemovesOne(s[1..], c);
      var rest := Erased(s[1..], c);
      assert s[0] != c ==> forall j | 1 <= j < |rest| + 1 :: Erased(s, c)[j] == rest[j - 1] && rest[j - 1] in rest;
    }
  }

  lemma {:induction false} ErasedAt(s: seq<Channel>, c: Channel, i: nat)
    requires i < |s| && s[i] == c && forall j | 0 <= j < i :: s[j] != c
    ensures Erased(s, c) == s[..i] + s[i + 1..]
  {
    if i > 0 {
      ErasedAt(s[1..], c, i - 1);
      assert s[..i] + s[i + 1..] == [s[0]] + (s[1..][..i - 1] + s[1..][i..]);
    }
  }

  lemma {:induction false} ErasedAbsent(s: seq<Channel>, c: Channel)
    requires c !in s
    ensures Erased(s, c) == s
  {
    if s != [] {
      ErasedAbsent(s[1..], c);
      assert s == [s[0]] + s[1..];
    }
  }

  /** A pool that lists no channel twice and frees only what it owns. */
  predicate Sound(p: Pool) {
    Distinct(p.owned) && Distinct(p.free) && forall c | c in p.free :: c in p.owned
  }

  /** Channels and capacity slots that a lease could still be given at once. */
  function Available(p: Pool, max: nat): int {
    |p.free| + max - p.created
  }

  /** The channels that are out on lease. */
  function Leased(p: Pool): set<Channel> {
    set c | c in p.owned && c !in p.free
  }

  lemma TriedKeeps(p: Pool, max: nat)
    requires Sound(p)
    ensures Sound(Tried(p, max).0) && Tried(p, max).0.owned == p.owned
    ensures Tried(p, max).1.Took? ==>
              && Tried(p, max).1.channel !in Leased(p)
              && Leased(Tried(p, max).0) == Leased(p) + {Tried(p, max).1.channel}
    ensures !Tried(p, max).1.Took? ==> Leased(Tried(p, max).0) == Leased(p)
  {
    if p.free != [] {
      var n := |p.free| - 1;
      assert p.free == p.free[..n] + [p.free[n]];
    }
  }

  /** A free channel is taken before a new one is made, and a caller waits only when the
      cap is reached. */
  lemma TriedDecides(p: Pool, max: nat)
    ensures Tried(p, max).1.Took? <==> p.free != []
    ensures Tried(p, max).1.MustWait? <==> p.free == [] && p.created >= max
    ensures Tried(p, max).0.created == p.created + if p.free == [] && p.created < max then 1 else 0
    ensures Tried(p, max).1.MustWait? ==> Tried(p, max).0 == p
  {
  }

  /** The channel released last is the next one handed out, and the two undo each other. */
  lemma ReleaseThenLease(p: Pool, c: Channel, max: nat)
    ensures Tried(Released(p, c), max) == (p, Took(c))
  {
    assert (p.free + [c])[..|p.free|] == p.free;
  }

  lemma AdoptedKeeps(p: Pool, c: Channel)
    requires Sound(p) && c !in p.owned
    ensures Sound(Adopted(p, c)) && |Adopted(p, c).owned| == |p.owned| + 1
    ensures Leased(Adopted(p, c)) == Leased(p) + {c}
  {
  }

  lemma ReleasedKeeps(p: Pool, c: Channel)
    requires Sound(p) && c in Leased(p)
    ensures Sound(Released(p, c))
    ensures Leased(Released(p, c)) == Leased(p) - {c}
  {
  }

  lemma DiscardedKeeps(p: Pool, c: Channel)
    requires Sound(p) && c in Leased(p) && p.created >= |p.owned|
    ensures Sound(Discarded(p, c)) && |Discarded(p, c).owned| == |p.owned| - 1
    ensures Discarded(p, c).created == p.created - 1
    ensures Leased(Discarded(p, c)) == Leased(p) - {c}
    ensures forall x | x in Discarded(p, c).owned :: x in p.owned
  {
    ErasedRemovesOne(p.owned, c);
  }

  class PeerPool {
    var owned: seq<Channel>
    var free: seq<Channel>
    var created: nat
    const max: nat

    function Value(): Pool
      reads this
    {
      Pool(owned, free, created)
    }

    /** The manager clamps a configured cap of zero to one. */
    constructor (maxChannelsPerPeer: nat)
      ensures Value() == EMPTY
      ensures max == if maxChannelsPerPeer == 0 then 1 else maxChannelsPerPeer
    {
      owned, free, created := [], [], 0;
      max := if maxChannelsPerPeer == 0 then 1 else maxChannelsPerPeer;
    }

    /** One pass of the lease loop under the mutex. */
    method TryLease() returns (a: Attempt)
      modifies this
      ensures (Value(), a) == Tried(old(Value()), max)
    {
      if free != [] {
        a := Took(free[|free| - 1]);
        free := free[..|free| - 1];
      } else if created < max {
        created := created + 1;
        a := Reserved;
      } else {
        a := MustWait;
      }
    }

    /** The end of lease after connect_new: a null endpoint gives the slot back. */
    method FinishConnect(ep: Channel, connected: bool)
      modifies this
      ensures Value() == if connected then Adopted(old(Value()), ep) else Abandoned(old(Value()))
    {
      if connected {
        owned := owned + [ep];
      } else if created > 0 {
        created := created - 1;
      }
    }

    method Release(ep: Channel)
      modifies this
      ensures Value() == Released(old(Value()), ep)
    {
      free := free + [ep];
    }

    method Discard(ep: Channel)
      modifies this
      ensures Value() == Discarded(old(Value()), ep)
    {
      var i := 0;
      while i < |owned| && owned[i] != ep
        invariant 0 <= i <= |owned|
        invariant forall j | 0 <= j < i :: owned[j] != ep
        invariant Value() == old(Value())
      {
        i := i + 1;
      }
      if i < |owned| {
        ErasedAt(owned, ep, i);
        owned := owned[..i] + owned[i + 1..];
      } else {
        ErasedAbsent(owned, ep);
      }
      if created > 0 {
        created := created - 1;
      }
    }
  }
}
