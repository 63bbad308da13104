/** What a failed bucket READ does to the batched remote writer: it goes by the pages of its
    own batch alone, and may put a key into a second way of its bucket. */
module SlotFailedRead {
  import opened Bytes
  import opened SlotHeader
  import opened SlotGeometry
  import opened WayChoice
  import opened SlotMemory
  import opened SlotWrites
  import opened SlotBatch

  /** The slots of item's bucket. */
  function BucketView(world: World, gs: map<string, Geometry>, h: Hashing, item: Item): (r: seq<Slot>)
    requires IsWorld(world, gs) && item.owner in gs
    ensures |r| == gs[item.owner].ways
  {
    ViewOf(world[item.owner], gs[item.owner], Bucket(item, gs, h))
  }

  lemma ViewAfterPut(world: World, gs: map<string, Geometry>, h: Hashing, item: Item, pick: (nat, nat))
    requires IsWorld(world, gs) && Fits(item, gs) && pick.0 < gs[item.owner].ways && Packable(|item.page|, pick.1)
    ensures BucketView(Put(world, gs, h, item, pick), gs, h, item) ==
            BucketView(world, gs, h, item)[pick.0 := Page(h.id(item.key), |item.page|, pick.1)]
  {
    var g, mem, b := gs[item.owner], world[item.owner], Bucket(item, gs, h);
    var header := Encode(h.id(item.key), |item.page|, pick.1);
    var after := BucketView(Put(world, gs, h, item, pick), gs, h, item);
    OwnSlotRead(mem, g, b, pick.0, header, item.page);
    HeaderRoundTrip(h.id(item.key), |item.page|, pick.1);
    forall v | 0 <= v < g.ways && v != pick.0 ensures after[v] == BucketView(world, gs, h, item)[v] {
      OtherSlotKept(mem, g, b, pick.0, header + item.page, b, v, 0);
    }
  }

  /** An item, its READ served or not, leaves its key in one way exactly when no way other
      than the one it takes held the key; a served READ always does. */
  lemma DuplicatesIff(t: Twin, gs: map<string, Geometry>, h: Hashing, item: Item)
    requires IsTwin(t, gs) && Fits(item, gs) && Packable(|item.page|, Pick(t, gs, h, item).1)
    requires OneWayPerKey(BucketView(t.there, gs, h, item))
    ensures OneWayPerKey(BucketView(Step(t, gs, h, item).there, gs, h, item)) <==>
            MayTake(BucketView(t.there, gs, h, item), h.id(item.key), Pick(t, gs, h, item).0)
    ensures item.served ==> OneWayPerKey(BucketView(Step(t, gs, h, item).there, gs, h, item))
  {
    var pick := Pick(t, gs, h, item);
    ViewAfterPut(t.there, gs, h, item, pick);
    TakingIff(BucketView(t.there, gs, h, item), h.id(item.key), |item.page|, pick.0, pick.1);
  }

  lemma TakingIff(view: seq<Slot>, id: Digest, length: nat, way: nat, stamp: nat)
    requires OneWayPerKey(view) && way < |view|
    ensures OneWayPerKey(view[way := Page(id, length, stamp)]) <==> MayTake(view, id, way)
  {
    var after := view[way := Page(id, length, stamp)];
    assert forall v | 0 <= v < |view| && v != way :: after[v] == view[v];
    if OneWayPerKey(after) {
      forall v | 0 <= v < |view| && v != way ensures !HoldsKey(view[v], id) {
        assert after[v] == view[v] && after[way].id == id;
      }
    }
  }

  /** The item is bound for bucket b of peer o. */
  predicate BoundFor(item: Item, gs: map<string, Geometry>, h: Hashing, o: string, b: nat)
    requires item.owner in gs && gs[item.owner].Valid()
  {
    item.owner == o && Bucket(item, gs, h) == b
  }

  /** No item of the batch so far is bound for this one's bucket. */
  predicate FirstInBucket(items: seq<Item>, gs: map<string, Geometry>, h: Hashing, item: Item)
    requires (forall o | o in gs :: gs[o].Valid()) && AllFit(items, gs) && item.owner in gs
  {
    forall i | 0 <= i < |items| :: !BoundFor(items[i], gs, h, item.owner, Bucket(item, gs, h))
  }

  lemma OtherBucketKept(world: World, gs: map<string, Geometry>, h: Hashing, other: Item, pick: (nat, nat), item: Item)
    requires IsWorld(world, gs) && Fits(other, gs) && pick.0 < gs[other.owner].ways && item.owner in gs
    requires !BoundFor(other, gs, h, item.owner, Bucket(item, gs, h))
    ensures BucketView(Put(world, gs, h, other, pick), gs, h, item) == BucketView(world, gs, h, item)
  {
    var g, mem, b := gs[other.owner], world[other.owner], Bucket(other, gs, h);
    var bytes := Encode(h.id(other.key), |other.page|, pick.1) + other.page;
    if other.owner == item.owner {
      var after := BucketView(Put(world, gs, h, other, pick), gs, h, item);
      forall v | 0 <= v < g.ways ensures after[v] == BucketView(world, gs, h, item)[v] {
        OtherSlotKept(mem, g, b, pick.0, bytes, Bucket(item, gs, h), v, 0);
      }
    }
  }

  lemma {:induction false} UntouchedBucket(t: Twin, gs: map<string, Geometry>, h: Hashing, items: seq<Item>, item: Item)
    requires IsTwin(t, gs) && AllFit(items, gs) && item.owner in gs && FirstInBucket(items, gs, h, item)
    ensures BucketView(Run(t, gs, h, items).there, gs, h, item) == BucketView(t.there, gs, h, item)
    ensures BucketView(Run(t, gs, h, items).blind, gs, h, item) == BucketView(t.blind, gs, h, item)
    decreases |items|
  {
    if items != [] {
      OtherBucketKept(t.there, gs, h, items[0], Pick(t, gs, h, items[0]), item);
      OtherBucketKept(t.blind, gs, h, items[0], Pick(t, gs, h, items[0]), item);
      UntouchedBucket(Step(t, gs, h, items[0]), gs, h, items[1..], item);
    }
  }

  lemma BlankedView(world: World, gs: map<string, Geometry>, h: Hashing, item: Item)
    requires IsWorld(world, gs) && item.owner in gs
    ensures IsWorld(Blanked(world), gs)
    ensures BucketView(Blanked(world), gs, h, item) == BlankBucket(gs[item.owner].ways)
  {
    var g, mem, b := gs[item.owner], Blanked(world)[item.owner], Bucket(item, gs, h);
    forall w | 0 <= w < g.ways ensures SlotAt(mem, g, b, w) == Blank {
      SlotInside(g, b, w); StrideHoldsSlot(g);
      ZeroIsBlank(HeaderAt(mem, g, b, w));
    }
  }

  lemma BlankChoice(ways: nat, id: Digest)
    requires ways > 0
    ensures RemoteChoice(BlankBucket(ways), id) == (0, 2)
  {
    var blank := BlankBucket(ways);
    HolderSpec(blank, id);
    BlankSpec(blank);
    assert blank[0].Blank?;
    assert Seqnos(blank)[FirstSmallest(Seqnos(blank))] == 0;
  }

  /** The first item of a batch bound for its bucket takes way 0 with stamp 2 when its READ
      fails, whatever the bucket holds. The key then ends in one way only exactly when ways
      1 and up of the peer's bucket did not hold it before the batch. */
  lemma FailedReadDuplicatesIff(world: World, gs: map<string, Geometry>, h: Hashing, before: seq<Item>, item: Item)
    requires IsWorld(world, gs) && AllFit(before, gs) && Fits(item, gs) && !item.served
    requires FirstInBucket(before, gs, h, item) && |item.page| < U32
    requires OneWayPerKey(BucketView(world, gs, h, item))
    ensures IsTwin(Start(world), gs)
    ensures
      var t := Run(Start(world), gs, h, before);
      && Pick(t, gs, h, item) == (0, 2)
      && (OneWayPerKey(BucketView(Step(t, gs, h, item).there, gs, h, item)) <==>
            forall w | 1 <= w < gs[item.owner].ways :: !HoldsKey(BucketView(world, gs, h, item)[w], h.id(item.key)))
  {
    BlankedView(world, gs, h, item);
    UntouchedBucket(Start(world), gs, h, before, item);
    BlankChoice(gs[item.owner].ways, h.id(item.key));
    DuplicatesIff(Run(Start(world), gs, h, before), gs, h, item);
  }

  lemma SecondChoice(ways: nat, first: Digest, length: nat, id: Digest)
    requires ways >= 2 && first != id
    ensures RemoteChoice(BlankBucket(ways)[0 := Page(first, length, 2)], id) == (1, 2)
  {
    var view := BlankBucket(ways)[0 := Page(first, length, 2)];
    HolderSpec(view, id);
    BlankSpec(view);
    assert view[1].Blank?;
    assert Seqnos(view)[FirstSmallest(Seqnos(view))] <= Seqnos(view)[1] == 0;
  }

  /** One key's write, when its pick is known. */
  lemma OneIsPut(world: World, gs: map<string, Geometry>, h: Hashing, item: Item, pick: (nat, nat))
    requires IsWorld(world, gs) && Fits(item, gs) && pick.0 < gs[item.owner].ways && Packable(|item.page|, pick.1)
    requires RemotePick(world[item.owner], gs[item.owner], h, item.key) == pick
    ensures One(world, gs, h, item) == Put(world, gs, h, item, pick)
  {
  }

  /** The input: another key of the bucket, then this one, then this one again behind a
      failed READ. It ends in ways 0 and 1. */
  lemma FailedReadRepeatsKey(blank: World, gs: map<string, Geometry>, h: Hashing, first: Item, item: Item)
    requires IsWorld(blank, gs) && Fits(first, gs) && Fits(item, gs) && |first.page| < U32 && |item.page| < U32
    requires BoundFor(first, gs, h, item.owner, Bucket(item, gs, h)) && h.id(first.key) != h.id(item.key)
    requires gs[item.owner].ways >= 2 && !item.served
    requires BucketView(blank, gs, h, item) == BlankBucket(gs[item.owner].ways)
    ensures
      var full := One(One(blank, gs, h, first), gs, h, item);
      && IsTwin(Start(full), gs)
      && var after := BucketView(Run(Start(full), gs, h, [item]).there, gs, h, item);
         HoldsKey(after[0], h.id(item.key)) && HoldsKey(after[1], h.id(item.key))
  {
    var ways, id := gs[item.owner].ways, h.id(item.key);
    BlankChoice(ways, h.id(first.key));
    OneIsPut(blank, gs, h, first, (0, 2));
    ViewAfterPut(blank, gs, h, first, (0, 2));
    var one := One(blank, gs, h, first);
    SecondChoice(ways, h.id(first.key), |first.page|, id);
    OneIsPut(one, gs, h, item, (1, 2));
    ViewAfterPut(one, gs, h, item, (1, 2));
    FailedReadAgain(One(one, gs, h, item), gs, h, item);
  }

  lemma FailedReadAgain(full: World, gs: map<string, Geometry>, h: Hashing, item: Item)
    requires IsWorld(full, gs) && Fits(item, gs) && |item.page| < U32 && !item.served
    ensures IsTwin(Start(full), gs)
    ensures BucketView(Run(Start(full), gs, h, [item]).there, gs, h, item) ==
            BucketView(full, gs, h, item)[0 := Page(h.id(item.key), |item.page|, 2)]
  {
    BlankedView(full, gs, h, item);
    BlankChoice(gs[item.owner].ways, h.id(item.key));
    ViewAfterPut(full, gs, h, item, (0, 2));
    var t := Start(full);
    assert Pick(t, gs, h, item) == (0, 2);
    assert [item][1..] == [];
    assert Run(t, gs, h, [item]) == Step(t, gs, h, item);
  }
}
