/** The batched remote writer: one READ of every target bucket, way selection against
    those stale snapshots with the batch's own earlier headers folded in, then one batch
    of WRITEs. With every READ served it has the effect of writing the keys one at a time. */
module SlotBatch {
  import opened Bytes
  import opened SlotHeader
  import opened SlotGeometry
  import opened WayChoice
  import opened SlotMemory
  import opened SlotWrites
  import opened SlotRegion

  /** A page bound for a peer whose layout is known and whose slots are large enough, and
      whether the READ of its bucket is served. */
  datatype Item = Item(owner: string, key: string, page: seq<Byte>, served: bool)

  /** The slot regions of the peers. */
  type World = map<string, seq<Byte>>

  predicate IsWorld(world: World, gs: map<string, Geometry>) {
    gs.Keys == world.Keys && forall o | o in world :: IsRegion(world[o], gs[o])
  }

  predicate Fits(item: Item, gs: map<string, Geometry>) {
    item.owner in gs && |item.page| <= gs[item.owner].maxPayload
  }

  predicate AllFit(items: seq<Item>, gs: map<string, Geometry>) {
    forall i {:trigger items[i]} | 0 <= i < |items| :: Fits(items[i], gs)
  }

  function Bucket(item: Item, gs: map<string, Geometry>, h: Hashing): nat
    requires item.owner in gs && gs[item.owner].Valid()
  {
    gs[item.owner].BucketIndex(h.bucket(item.key))
  }

  // ---------------------------------------------------------------- one key at a time

  function Result(world: World, gs: map<string, Geometry>, h: Hashing, item: Item): Outcome
    requires IsWorld(world, gs) && Fits(item, gs)
  {
    RemoteWrite(world[item.owner], gs[item.owner], h, item.key, item.page).1
  }

  function One(world: World, gs: map<string, Geometry>, h: Hashing, item: Item): (r: World)
    requires IsWorld(world, gs) && Fits(item, gs)
    ensures IsWorld(r, gs)
  {
    world[item.owner := RemoteWrite(world[item.owner], gs[item.owner], h, item.key, item.page).0]
  }

  function OneByOne(world: World, gs: map<string, Geometry>, h: Hashing, items: seq<Item>): (r: World)
    requires IsWorld(world, gs) && AllFit(items, gs)
    ensures IsWorld(r, gs)
    decreases |items|
  {
    if items == [] then world else OneByOne(One(world, gs, h, items[0]), gs, h, items[1..])
  }

  /** None of its headers is unpackable. */
  predicate AllWrote(world: World, gs: map<string, Geometry>, h: Hashing, items: seq<Item>)
    requires IsWorld(world, gs) && AllFit(items, gs)
    decreases |items|
  {
    items == [] || (Result(world, gs, h, items[0]).Wrote? && AllWrote(One(world, gs, h, items[0]), gs, h, items[1..]))
  }

  // ---------------------------------------------------------------- what the batch chooses

  /** The same regions with no page in them: what a writer whose READ failed goes by. */
  function Blanked(world: World): World {
    map o | o in world :: Zeros(|world[o]|)
  }

  /** The peers' memory, and what it would be had it been blank before the batch. */
  datatype Twin = Twin(there: World, blind: World)

  predicate IsTwin(t: Twin, gs: map<string, Geometry>) {
    IsWorld(t.there, gs) && IsWorld(t.blind, gs)
  }

  function Start(world: World): Twin {
    Twin(world, Blanked(world))
  }

  /** The way and stamp an item gets: by the peer's memory if its READ is served, else by
      what this batch alone has put there. */
  function Pick(t: Twin, gs: map<string, Geometry>, h: Hashing, item: Item): (r: (nat, nat))
    requires IsTwin(t, gs) && Fits(item, gs)
    ensures r.0 < gs[item.owner].ways
  {
    RemotePick((if item.served then t.there else t.blind)[item.owner], gs[item.owner], h, item.key)
  }

  function Put(world: World, gs: map<string, Geometry>, h: Hashing, item: Item, pick: (nat, nat)): (r: World)
    requires IsWorld(world, gs) && Fits(item, gs) && pick.0 < gs[item.owner].ways
    ensures IsWorld(r, gs)
  {
    world[item.owner := PageStored(world[item.owner], gs[item.owner], h, item.key, item.page, pick.0, pick.1)]
  }

  function Step(t: Twin, gs: map<string, Geometry>, h: Hashing, item: Item): (r: Twin)
    requires IsTwin(t, gs) && Fits(item, gs)
    ensures IsTwin(r, gs)
  {
    var pick := Pick(t, gs, h, item);
    if !Packable(|item.page|, pick.1) then t
    else Twin(Put(t.there, gs, h, item, pick), Put(t.blind, gs, h, item, pick))
  }

  function Run(t: Twin, gs: map<string, Geometry>, h: Hashing, items: seq<Item>): (r: Twin)
    requires IsTwin(t, gs) && AllFit(items, gs)
    ensures IsTwin(r, gs)
    decreases |items|
  {
    if items == [] then t else Run(Step(t, gs, h, items[0]), gs, h, items[1..])
  }

  /** Every header of the batch can be packed. */
  predicate Clean(t: Twin, gs: map<string, Geometry>, h: Hashing, items: seq<Item>)
    requires IsTwin(t, gs) && AllFit(items, gs)
    decreases |items|
  {
    items == [] || (Packable(|items[0].page|, Pick(t, gs, h, items[0]).1) && Clean(Step(t, gs, h, items[0]), gs, h, items[1..]))
  }

  /** One RDMA WRITE. */
  datatype WriteReq = WriteReq(owner: string, offset: nat, bytes: seq<Byte>)

  predicate WriteFits(wr: WriteReq, gs: map<string, Geometry>) {
    wr.owner in gs && wr.offset + |wr.bytes| <= gs[wr.owner].Capacity()
  }

  predicate AllWriteFit(ws: seq<WriteReq>, gs: map<string, Geometry>) {
    forall i {:trigger ws[i]} | 0 <= i < |ws| :: WriteFits(ws[i], gs)
  }

  function LandedOne(world: World, gs: map<string, Geometry>, wr: WriteReq): (r: World)
    requires IsWorld(world, gs) && WriteFits(wr, gs)
    ensures IsWorld(r, gs)
  {
    world[wr.owner := Stored(world[wr.owner], wr.offset, wr.bytes)]
  }

  /** The peers' memory once the WRITEs have landed in order. */
  function Landed(world: World, gs: map<string, Geometry>, ws: seq<WriteReq>): (r: World)
    requires IsWorld(world, gs) && AllWriteFit(ws, gs)
    ensures IsWorld(r, gs)
    decreases |ws|
  {
    if ws == [] then world else Landed(LandedOne(world, gs, ws[0]), gs, ws[1..])
  }

  /** The WRITE that puts an item's page into way w. */
  function Request(item: Item, gs: map<string, Geometry>, h: Hashing, w: nat, stamp: nat): (r: WriteReq)
    requires Fits(item, gs) && gs[item.owner].Valid() && w < gs[item.owner].ways
    ensures WriteFits(r, gs)
  {
    var g := gs[item.owner];
    var b := Bucket(item, gs, h);
    SlotInside(g, b, w); StrideHoldsSlot(g);
    WriteReq(item.owner, g.SlotOffset(b, w), Encode(h.id(item.key), |item.page|, stamp) + item.page)
  }

  function NextWrite(t: Twin, gs: map<string, Geometry>, h: Hashing, item: Item): (r: WriteReq)
    requires IsTwin(t, gs) && Fits(item, gs)
    ensures WriteFits(r, gs)
  {
    var pick := Pick(t, gs, h, item);
    Request(item, gs, h, pick.0, pick.1)
  }

  /** The WRITEs of a batch, in order. */
  function Writes(t: Twin, gs: map<string, Geometry>, h: Hashing, items: seq<Item>): (r: seq<WriteReq>)
    requires IsTwin(t, gs) && AllFit(items, gs)
    ensures AllWriteFit(r, gs)
    decreases |items|
  {
    if items == [] then []
    else [NextWrite(t, gs, h, items[0])] + Writes(Step(t, gs, h, items[0]), gs, h, items[1..])
  }

  lemma WritesStep(t: Twin, gs: map<string, Geometry>, h: Hashing, items: seq<Item>)
    requires IsTwin(t, gs) && AllFit(items, gs) && items != []
    ensures Writes(t, gs, h, items) == [NextWrite(t, gs, h, items[0])] + Writes(Step(t, gs, h, items[0]), gs, h, items[1..])
  {
  }

  lemma OneLands(t: Twin, gs: map<string, Geometry>, h: Hashing, item: Item)
    requires IsTwin(t, gs) && Fits(item, gs) && Packable(|item.page|, Pick(t, gs, h, item).1)
    ensures LandedOne(t.there, gs, NextWrite(t, gs, h, item)) == Step(t, gs, h, item).there
  {
  }

  lemma LandedStep(world: World, gs: map<string, Geometry>, wr: WriteReq, ws: seq<WriteReq>)
    requires IsWorld(world, gs) && WriteFits(wr, gs) && AllWriteFit(ws, gs)
    ensures AllWriteFit([wr] + ws, gs)
    ensures Landed(world, gs, [wr] + ws) == Landed(LandedOne(world, gs, wr), gs, ws)
  {
    assert ([wr] + ws)[1..] == ws;
  }

  /** The WRITEs, landing in order, leave byte for byte the memory of the run. */
  lemma {:induction false} BatchLands(t: Twin, gs: map<string, Geometry>, h: Hashing, items: seq<Item>)
    requires IsTwin(t, gs) && AllFit(items, gs) && Clean(t, gs, h, items)
    ensures Landed(t.there, gs, Writes(t, gs, h, items)) == Run(t, gs, h, items).there
    decreases |items|
  {
    if items != [] {
      var next := Step(t, gs, h, items[0]);
      BatchLands(next, gs, h, items[1..]);
      OneLands(t, gs, h, items[0]);
      LandedStep(t.there, gs, NextWrite(t, gs, h, items[0]), Writes(next, gs, h, items[1..]));
    }
  }

  // ---------------------------------------------------------------- against one key at a time

  predicate AllServed(items: seq<Item>) {
    forall i {:trigger items[i]} | 0 <= i < |items| :: items[i].served
  }

  lemma ServedStep(t: Twin, gs: map<string, Geometry>, h: Hashing, item: Item)
    requires IsTwin(t, gs) && Fits(item, gs) && item.served
    ensures Step(t, gs, h, item).there == One(t.there, gs, h, item)
    ensures Packable(|item.page|, Pick(t, gs, h, item).1) <==> Result(t.there, gs, h, item).Wrote?
  {
  }

  /** With every READ served the batch chooses as the one-at-a-time writer does, and meets an
      unpackable header exactly when that writer does. */
  lemma {:induction false} ServedIsOneByOne(t: Twin, gs: map<string, Geometry>, h: Hashing, items: seq<Item>)
    requires IsTwin(t, gs) && AllFit(items, gs) && AllServed(items)
    ensures Run(t, gs, h, items).there == OneByOne(t.there, gs, h, items)
    ensures Clean(t, gs, h, items) <==> AllWrote(t.there, gs, h, items)
    decreases |items|
  {
    if items != [] {
      ServedStep(t, gs, h, items[0]);
      ServedIsOneByOne(Step(t, gs, h, items[0]), gs, h, items[1..]);
    }
  }

  /** So, every READ served and every header packable, the WRITEs of the batch leave byte
      for byte the memory that writing the keys one at a time leaves. */
  lemma BatchEqualsOneByOne(world: World, gs: map<string, Geometry>, h: Hashing, items: seq<Item>)
    requires IsWorld(world, gs) && AllFit(items, gs) && AllServed(items) && AllWrote(world, gs, h, items)
    ensures Landed(world, gs, Writes(Start(world), gs, h, items)) == OneByOne(world, gs, h, items)
  {
    ServedIsOneByOne(Start(world), gs, h, items);
    BatchLands(Start(world), gs, h, items);
  }

  // ---------------------------------------------------------------- the batch itself

  /** Headers this batch has claimed, per (owner, bucket) and way. */
  type Claims = map<(string, nat), map<nat, seq<Byte>>>

  function ClaimedIn(claims: Claims, owner: string, b: nat): map<nat, seq<Byte>> {
    if (owner, b) in claims then claims[(owner, b)] else map[]
  }

  /** The header a folded snapshot shows for a slot. */
  function FoldedHeader(world: World, gs: map<string, Geometry>, claims: Claims, o: string, b: nat, w: nat): seq<Byte>
    requires IsWorld(world, gs) && o in gs && b < gs[o].buckets && w < gs[o].ways
  {
    var c := ClaimedIn(claims, o, b);
    if w in c then c[w] else HeaderAt(world[o], gs[o], b, w)
  }

  ghost predicate ClaimsWellFormed(claims: Claims, gs: map<string, Geometry>) {
    forall o, b | (o, b) in claims :: o in gs && forall w | w in claims[(o, b)] :: w < gs[o].ways && |claims[(o, b)][w]| == HEADER_SIZE
  }

  /** Stale snapshots plus claims show exactly the headers that `now` has. */
  ghost predicate InStep(before: World, now: World, gs: map<string, Geometry>, claims: Claims) {
    && IsWorld(before, gs) && IsWorld(now, gs) && ClaimsWellFormed(claims, gs)
    && forall o, b: nat, w: nat | o in gs && b < gs[o].buckets && w < gs[o].ways ::
         FoldedHeader(before, gs, claims, o, b, w) == HeaderAt(now[o], gs[o], b, w)
  }

  function Claim(claims: Claims, owner: string, b: nat, w: nat, header: seq<Byte>): Claims {
    claims[(owner, b) := ClaimedIn(claims, owner, b)[w := header]]
  }

  /** Claiming a written header keeps the two in step. */
  lemma ClaimStaysInStep(before: World, now: World, gs: map<string, Geometry>, claims: Claims,
                         h: Hashing, item: Item, w: nat, stamp: nat)
    requires InStep(before, now, gs, claims) && Fits(item, gs) && w < gs[item.owner].ways
    ensures
      var g := gs[item.owner];
      var b := Bucket(item, gs, h);
      var header := Encode(h.id(item.key), |item.page|, stamp);
      InStep(before, now[item.owner := PageStored(now[item.owner], g, h, item.key, item.page, w, stamp)], gs,
             Claim(claims, item.owner, b, w, header))
  {
    var g := gs[item.owner];
    var b := Bucket(item, gs, h);
    var header := Encode(h.id(item.key), |item.page|, stamp);
    var mem := now[item.owner];
    var mem' := PageStored(mem, g, h, item.key, item.page, w, stamp);
    var now', claims' := now[item.owner := mem'], Claim(claims, item.owner, b, w, header);
    OwnSlotRead(mem, g, b, w, header, item.page);
    forall o, c: nat, v: nat | o in gs && c < gs[o].buckets && v < gs[o].ways
      ensures FoldedHeader(before, gs, claims', o, c, v) == HeaderAt(now'[o], gs[o], c, v)
    {
      assert FoldedHeader(before, gs, claims, o, c, v) == HeaderAt(now[o], gs[o], c, v);
      if o == item.owner && (c != b || v != w) {
        OtherSlotKept(mem, g, b, w, header + item.page, c, v, 0);
      }
    }
  }

  /** Item's bucket as a READ shows it: all zeros when the READ fails. */
  function Snapshot(world: World, gs: map<string, Geometry>, h: Hashing, item: Item): (r: seq<Byte>)
    requires IsWorld(world, gs) && Fits(item, gs)
    ensures |r| == gs[item.owner].BucketStride()
  {
    if item.served then BucketBytes(world[item.owner], gs[item.owner], Bucket(item, gs, h))
    else Zeros(gs[item.owner].BucketStride())
  }

  lemma FailedReadIsBlanked(world: World, gs: map<string, Geometry>, h: Hashing, item: Item)
    requires IsWorld(world, gs) && Fits(item, gs) && !item.served
    ensures Snapshot(world, gs, h, item) == BucketBytes(Blanked(world)[item.owner], gs[item.owner], Bucket(item, gs, h))
  {
    SlotInside(gs[item.owner], Bucket(item, gs, h), 0);
  }

  function HeaderIn(bucket: seq<Byte>, g: Geometry, w: nat): seq<Byte>
    requires |bucket| == g.BucketStride() && w < g.ways
  {
    MulStep(w, g.ways, g.SlotStride()); StrideHoldsSlot(g);
    Loaded(bucket, w * g.SlotStride(), HEADER_SIZE)
  }

  lemma HeaderInBucket(mem: seq<Byte>, g: Geometry, b: nat, w: nat)
    requires IsRegion(mem, g) && b < g.buckets && w < g.ways
    ensures HeaderIn(BucketBytes(mem, g, b), g, w) == HeaderAt(mem, g, b, w)
  {
    SlotInside(g, b, w); StrideHoldsSlot(g);
    SliceOfSlice(mem, b * g.BucketStride(), g.BucketStride(), w * g.SlotStride(), HEADER_SIZE);
  }

  /** Storing one claimed header replaces that way's header only. */
  lemma FoldOne(was: seq<Byte>, g: Geometry, w: nat, header: seq<Byte>, v: nat)
    requires |was| == g.BucketStride() && w < g.ways && |header| == HEADER_SIZE && v < g.ways
    ensures w * g.SlotStride() + HEADER_SIZE <= |was|
    ensures HeaderIn(Stored(was, w * g.SlotStride(), header), g, v) == if v == w then header else HeaderIn(was, g, v)
  {
    StrideHoldsSlot(g);
    var stride := g.SlotStride();
    MulStep(w, g.ways, stride); MulStep(v, g.ways, stride);
    if v < w {
      MulStep(v, w, stride);
    } else if w < v {
      MulStep(w, v, stride);
    }
    LoadStored(was, w * stride, header, v * stride, HEADER_SIZE);
  }

  /** The header a folded snapshot shows in way w while the claims in `todo` are to come. */
  ghost predicate FoldedBut(folded: seq<Byte>, snapshot: seq<Byte>, g: Geometry, claimed: map<nat, seq<Byte>>, todo: set<nat>)
    requires |folded| == |snapshot| == g.BucketStride()
  {
    forall w: nat | w < g.ways :: HeaderIn(folded, g, w) == if w in claimed && w !in todo then claimed[w] else HeaderIn(snapshot, g, w)
  }

  lemma FoldStep(folded: seq<Byte>, snapshot: seq<Byte>, g: Geometry, claimed: map<nat, seq<Byte>>, todo: set<nat>, w: nat)
    requires |folded| == |snapshot| == g.BucketStride() && FoldedBut(folded, snapshot, g, claimed, todo)
    requires w in claimed && w < g.ways && |claimed[w]| == HEADER_SIZE
    ensures w * g.SlotStride() + HEADER_SIZE <= |folded|
    ensures FoldedBut(Stored(folded, w * g.SlotStride(), claimed[w]), snapshot, g, claimed, todo - {w})
  {
    FoldOne(folded, g, w, claimed[w], w);
    var next := Stored(folded, w * g.SlotStride(), claimed[w]);
    forall v: nat | v < g.ways
      ensures HeaderIn(next, g, v) == if v in claimed && v !in todo - {w} then claimed[v] else HeaderIn(snapshot, g, v)
    {
      FoldOne(folded, g, w, claimed[w], v);
    }
  }

  /** bytearray slice assignment of each claimed header over the snapshot. */
  method Fold(snapshot: seq<Byte>, g: Geometry, claimed: map<nat, seq<Byte>>) returns (folded: seq<Byte>)
    requires |snapshot| == g.BucketStride()
    requires forall w | w in claimed :: w < g.ways && |claimed[w]| == HEADER_SIZE
    ensures |folded| == |snapshot|
    ensures forall w: nat | w < g.ways ::
              HeaderIn(folded, g, w) == if w in claimed then claimed[w] else HeaderIn(snapshot, g, w)
  {
    folded := snapshot;
    var todo := claimed.Keys;
    while todo != {}
      invariant todo <= claimed.Keys && |folded| == |snapshot|
      invariant FoldedBut(folded, snapshot, g, claimed, todo)
    {
      var w :| w in todo;
      FoldStep(folded, snapshot, g, claimed, todo, w);
      folded := Stored(folded, w * g.SlotStride(), claimed[w]);
      todo := todo - {w};
    }
  }

  /** A folded snapshot of item's bucket makes the chooser decide as it would on `now`. */
  lemma FoldedShows(before: World, now: World, gs: map<string, Geometry>, claims: Claims, h: Hashing, item: Item, folded: seq<Byte>)
    requires InStep(before, now, gs, claims) && Fits(item, gs)
    requires
      var g := gs[item.owner];
      var b := Bucket(item, gs, h);
      var c := ClaimedIn(claims, item.owner, b);
      && |folded| == g.BucketStride()
      && forall w: nat | w < g.ways ::
           HeaderIn(folded, g, w) == if w in c then c[w] else HeaderIn(BucketBytes(before[item.owner], g, b), g, w)
    ensures SnapshotView(folded, gs[item.owner]) == ViewOf(now[item.owner], gs[item.owner], Bucket(item, gs, h))
  {
    var g := gs[item.owner];
    var b := Bucket(item, gs, h);
    forall w | 0 <= w < g.ways ensures SlotIn(folded, g, w) == SlotAt(now[item.owner], g, b, w) {
      HeaderInBucket(before[item.owner], g, b, w);
      assert FoldedHeader(before, gs, claims, item.owner, b, w) == HeaderAt(now[item.owner], g, b, w);
    }
  }

  /** The claims bring both the snapshots and blank buckets up to date. */
  ghost predicate UpToDate(world: World, t: Twin, gs: map<string, Geometry>, claims: Claims) {
    InStep(world, t.there, gs, claims) && InStep(Blanked(world), t.blind, gs, claims)
  }

  /** Take the snapshot, fold, pick. */
  method PickFolded(world: World, ghost t: Twin, gs: map<string, Geometry>, h: Hashing, item: Item, claims: Claims)
    returns (way: nat, stamp: nat)
    requires UpToDate(world, t, gs, claims) && Fits(item, gs)
    ensures (way, stamp) == Pick(t, gs, h, item)
  {
    var g := gs[item.owner];
    var folded := Fold(Snapshot(world, gs, h, item), g, ClaimedIn(claims, item.owner, Bucket(item, gs, h)));
    if item.served {
      FoldedShows(world, t.there, gs, claims, h, item, folded);
    } else {
      FailedReadIsBlanked(world, gs, h, item);
      FoldedShows(Blanked(world), t.blind, gs, claims, h, item, folded);
    }
    var w;
    w, stamp := PickWayFromBucket(folded, g, h.id(item.key));
    RemoteChoiceSpec(SnapshotView(folded, g), h.id(item.key));
    way := w;
  }

  function Claimed(claims: Claims, gs: map<string, Geometry>, h: Hashing, item: Item, pick: (nat, nat)): Claims
    requires item.owner in gs && gs[item.owner].Valid()
  {
    Claim(claims, item.owner, Bucket(item, gs, h), pick.0, Encode(h.id(item.key), |item.page|, pick.1))
  }

  lemma ClaimKeepsUpToDate(world: World, t: Twin, gs: map<string, Geometry>, h: Hashing, item: Item, claims: Claims)
    requires UpToDate(world, t, gs, claims) && Fits(item, gs) && Packable(|item.page|, Pick(t, gs, h, item).1)
    ensures UpToDate(world, Step(t, gs, h, item), gs, Claimed(claims, gs, h, item, Pick(t, gs, h, item)))
  {
    var pick := Pick(t, gs, h, item);
    ClaimStaysInStep(world, t.there, gs, claims, h, item, pick.0, pick.1);
    ClaimStaysInStep(Blanked(world), t.blind, gs, claims, h, item, pick.0, pick.1);
  }

  /** One turn of the publish loop: pick, and unless the header cannot be packed, claim the
      way and queue the WRITE. */
  method QueueOne(world: World, ghost t: Twin, gs: map<string, Geometry>, h: Hashing, item: Item, claims: Claims, ws: seq<WriteReq>)
    returns (raised: bool, claims': Claims, ws': seq<WriteReq>)
    requires UpToDate(world, t, gs, claims) && Fits(item, gs)
    ensures raised <==> !Packable(|item.page|, Pick(t, gs, h, item).1)
    ensures !raised ==> UpToDate(world, Step(t, gs, h, item), gs, claims') && ws' == ws + [NextWrite(t, gs, h, item)]
  {
    var way, stamp := PickFolded(world, t, gs, h, item, claims);
    if !Packable(|item.page|, stamp) {
      return true, claims, ws;
    }
    ClaimKeepsUpToDate(world, t, gs, h, item, claims);
    return false, Claimed(claims, gs, h, item, (way, stamp)), ws + [Request(item, gs, h, way, stamp)];
  }

  /** The batch is done up to `rest`, having reached t and queued ws. */
  ghost predicate Halfway(t0: Twin, gs: map<string, Geometry>, h: Hashing, items: seq<Item>, t: Twin, rest: seq<Item>, ws: seq<WriteReq>) {
    && IsTwin(t0, gs) && AllFit(items, gs) && IsTwin(t, gs) && AllFit(rest, gs)
    && (Clean(t0, gs, h, items) <==> Clean(t, gs, h, rest))
    && Writes(t0, gs, h, items) == ws + Writes(t, gs, h, rest)
  }

  lemma HalfwayStep(t0: Twin, gs: map<string, Geometry>, h: Hashing, items: seq<Item>, t: Twin, rest: seq<Item>, ws: seq<WriteReq>)
    requires Halfway(t0, gs, h, items, t, rest, ws) && rest != []
    ensures Packable(|rest[0].page|, Pick(t, gs, h, rest[0]).1) ==>
              Halfway(t0, gs, h, items, Step(t, gs, h, rest[0]), rest[1..], ws + [NextWrite(t, gs, h, rest[0])])
    ensures !Packable(|rest[0].page|, Pick(t, gs, h, rest[0]).1) ==> !Clean(t0, gs, h, items)
  {
    WritesStep(t, gs, h, rest);
    Requeued(ws, NextWrite(t, gs, h, rest[0]), Writes(Step(t, gs, h, rest[0]), gs, h, rest[1..]));
  }

  lemma Requeued(ws: seq<WriteReq>, wr: WriteReq, tail: seq<WriteReq>)
    ensures ws + ([wr] + tail) == (ws + [wr]) + tail
  {
  }

  /** Phase B of the batched publish. `raised` is the struct.error of an unpackable header,
      before any WRITE is issued. The WRITEs are those the batch's specification lists,
      whichever READs are served. */
  method PublishRemote(world: World, gs: map<string, Geometry>, h: Hashing, items: seq<Item>)
    returns (raised: bool, ws: seq<WriteReq>)
    requires IsWorld(world, gs) && AllFit(items, gs)
    ensures raised <==> !Clean(Start(world), gs, h, items)
    ensures ws == if raised then [] else Writes(Start(world), gs, h, items)
  {
    ws := [];
    var claims: Claims := map[];
    ghost var t := Start(world);
    for j := 0 to |items|
      invariant UpToDate(world, t, gs, claims) && Halfway(Start(world), gs, h, items, t, items[j..], ws)
    {
      HalfwayStep(Start(world), gs, h, items, t, items[j..], ws);
      assert items[j..][1..] == items[j + 1..];
      raised, claims, ws := QueueOne(world, t, gs, h, items[j], claims, ws);
      if raised {
        return true, [];
      }
      t := Step(t, gs, h, items[j]);
    }
    raised := false;
  }
}
