/** Local and remote writers of a slot region, one write at a time: every run of them
    refines a lossy map, and no instant of a local write exposes half a page. */
module SlotWrites {
  import opened Bytes
  import opened SlotHeader
  import opened SlotGeometry
  import opened WayChoice
  import opened SlotMemory

  // ---------------------------------------------------------------- reading

  /** A hit returns the page last written for exactly this key and length. */
  lemma HitIsLast(mem: seq<Byte>, g: Geometry, h: Hashing, keys: set<string>, last: map<string, seq<Byte>>,
                  key: string, w: nat, n: nat)
    requires Refines(mem, g, h, last) && InjectiveOn(h, keys) && last.Keys <= keys && key in keys && w < g.ways
    requires Matches(SlotAt(mem, g, g.BucketIndex(h.bucket(key)), w), h.id(key), n)
    ensures key in last && n == |last[key]| <= g.maxPayload
    ensures PayloadAt(mem, g, g.BucketIndex(h.bucket(key)), w, n) == last[key]
  {
    var b := g.BucketIndex(h.bucket(key));
    assert SlotHonest(mem, g, h, last, b, w);
    var k :| k in last && Carries(mem, g, h, last, b, w, k);
    assert k == key;
  }

  predicate Readable(view: seq<Slot>, id: Digest, n: nat) {
    exists w | 0 <= w < |view| :: Matches(view[w], id, n)
  }

  /** What exists_local answers: the length in the first present way, or -1. */
  function Probe(view: seq<Slot>, id: Digest): int {
    if view == [] then -1
    else if Present(view[0], id) >= 0 then Present(view[0], id)
    else Probe(view[1..], id)
  }

  /** exists_local reports length n exactly when read_local with n hits. */
  lemma {:induction false} ProbeIffReadable(view: seq<Slot>, id: Digest, n: nat)
    requires OneWayPerKey(view)
    ensures Probe(view, id) == n <==> Readable(view, id, n)
  {
    if view != [] {
      assert OneWayPerKey(view[1..]) by {
        assert forall w | 0 <= w < |view| - 1 :: view[1..][w] == view[w + 1];
      }
      ProbeIffReadable(view[1..], id, n);
      if Present(view[0], id) >= 0 {
        assert Matches(view[0], id, view[0].length);
        assert forall w | 0 < w < |view| :: !HoldsKey(view[w], id);
      } else if Readable(view, id, n) {
        var w :| 0 <= w < |view| && Matches(view[w], id, n);
        assert w > 0 && view[1..][w - 1] == view[w];
      }
    }
  }

  // ---------------------------------------------------------------- writing

  /** PackError is the struct.error that packing an oversized field raises. */
  datatype Outcome = TooBig | PackError | Wrote(way: nat)

  datatype Region = Region(mem: seq<Byte>, table: map<(nat, nat), nat>)

  function TableAt(table: map<(nat, nat), nat>, b: nat, w: nat): nat {
    if (b, w) in table then table[(b, w)] else 0
  }

  function Row(table: map<(nat, nat), nat>, g: Geometry, b: nat): (r: seq<nat>)
    ensures |r| == g.ways
  {
    seq(g.ways, w requires 0 <= w < g.ways => TableAt(table, b, w))
  }

  /** The next even number of the owner's own table. */
  function LocalStamp(seqno: nat): (r: nat)
    ensures r % 2 == 0 && seqno < r <= seqno + 2
  {
    if seqno % 2 == 0 then seqno + 2 else seqno + 1
  }

  /** The way write_local takes. */
  function LocalWay(r: Region, g: Geometry, h: Hashing, key: string): (w: nat)
    requires IsRegion(r.mem, g)
    ensures w < g.ways
    ensures OneWayPerKey(ViewOf(r.mem, g, g.BucketIndex(h.bucket(key)))) ==>
              MayTake(ViewOf(r.mem, g, g.BucketIndex(h.bucket(key))), h.id(key), w)
  {
    var b := g.BucketIndex(h.bucket(key));
    var view := ViewOf(r.mem, g, b);
    LocalChoiceSpec(view, Row(r.table, g, b), h.id(key));
    HolderSpec(view, h.id(key));
    LocalChoice(view, Row(r.table, g, b), h.id(key))
  }

  function LocalStampFor(r: Region, g: Geometry, h: Hashing, key: string): (stamp: nat)
    requires IsRegion(r.mem, g)
    ensures stamp % 2 == 0
  {
    LocalStamp(TableAt(r.table, g.BucketIndex(h.bucket(key)), LocalWay(r, g, h, key)))
  }

  /** The way and stamp a remote writer derives from a READ of the bucket. */
  function RemotePick(mem: seq<Byte>, g: Geometry, h: Hashing, key: string): (r: (nat, nat))
    requires IsRegion(mem, g)
    ensures r.0 < g.ways && r.1 % 2 == 0
    ensures OneWayPerKey(ViewOf(mem, g, g.BucketIndex(h.bucket(key)))) ==>
              MayTake(ViewOf(mem, g, g.BucketIndex(h.bucket(key))), h.id(key), r.0)
  {
    var view := ViewOf(mem, g, g.BucketIndex(h.bucket(key)));
    RemoteChoiceSpec(view, h.id(key));
    HolderSpec(view, h.id(key));
    var c := RemoteChoice(view, h.id(key));
    (c.0, c.1)
  }

  /** The region once key's page lies in way w of its bucket, stamped. */
  function PageStored(mem: seq<Byte>, g: Geometry, h: Hashing, key: string, page: seq<Byte>, w: nat, stamp: nat): (r: seq<Byte>)
    requires IsRegion(mem, g) && w < g.ways && |page| <= g.maxPayload
    ensures |r| == |mem|
  {
    SlotStored(mem, g, g.BucketIndex(h.bucket(key)), w, Encode(h.id(key), |page|, stamp) + page)
  }

  /** write_local, from before to after. */
  function LocalWrite(r: Region, g: Geometry, h: Hashing, key: string, page: seq<Byte>): (o: (Region, Outcome))
    requires IsRegion(r.mem, g)
    ensures |o.0.mem| == |r.mem|
  {
    var w, stamp := LocalWay(r, g, h, key), LocalStampFor(r, g, h, key);
    if |page| > g.maxPayload then (r, TooBig)
    else if !Packable(|page|, stamp + 1) then (r, PackError)
    else (Region(PageStored(r.mem, g, h, key, page, w, stamp),
                 r.table[(g.BucketIndex(h.bucket(key)), w) := stamp]), Wrote(w))
  }

  /** The read-modify-write of one remote key: read its bucket, pick, write the slot. */
  function RemoteWrite(mem: seq<Byte>, g: Geometry, h: Hashing, key: string, page: seq<Byte>): (o: (seq<Byte>, Outcome))
    requires IsRegion(mem, g)
    ensures |o.0| == |mem|
  {
    var pick := RemotePick(mem, g, h, key);
    if |page| > g.maxPayload then (mem, TooBig)
    else if !Packable(|page|, pick.1) then (mem, PackError)
    else (PageStored(mem, g, h, key, page, pick.0, pick.1), Wrote(pick.0))
  }

  // ---------------------------------------------------------------- runs of writes

  datatype Write = Local(key: string, page: seq<Byte>) | Remote(key: string, page: seq<Byte>)

  function Applied(r: Region, g: Geometry, h: Hashing, wr: Write): (Region, Outcome)
    requires IsRegion(r.mem, g)
  {
    match wr
    case Local(key, page) => LocalWrite(r, g, h, key, page)
    case Remote(key, page) =>
      var m := RemoteWrite(r.mem, g, h, key, page);
      (r.(mem := m.0), m.1)
  }

  /** The lossy map after a write: a completed page replaces the key's former one. */
  function Remembered(last: map<string, seq<Byte>>, wr: Write, outcome: Outcome): map<string, seq<Byte>> {
    if outcome.Wrote? then last[wr.key := wr.page] else last
  }

  lemma WriteRefines(r: Region, g: Geometry, h: Hashing, keys: set<string>, last: map<string, seq<Byte>>, wr: Write)
    requires Refines(r.mem, g, h, last) && InjectiveOn(h, keys) && last.Keys <= keys && wr.key in keys
    ensures var (r', outcome) := Applied(r, g, h, wr);
            Refines(r'.mem, g, h, Remembered(last, wr, outcome))
  {
    if Applied(r, g, h, wr).1.Wrote? {
      assert OneWayPerKey(ViewOf(r.mem, g, g.BucketIndex(h.bucket(wr.key))));
      match wr
      case Local(key, page) =>
        PageStoreRefines(r.mem, g, h, keys, last, key, LocalWay(r, g, h, key), LocalStampFor(r, g, h, key), page);
      case Remote(key, page) =>
        var pick := RemotePick(r.mem, g, h, key);
        PageStoreRefines(r.mem, g, h, keys, last, key, pick.0, pick.1, page);
    }
  }

  function Ran(r: Region, g: Geometry, h: Hashing, ws: seq<Write>): (r': Region)
    requires IsRegion(r.mem, g)
    ensures IsRegion(r'.mem, g)
    decreases |ws|
  {
    if ws == [] then r else Ran(Applied(r, g, h, ws[0]).0, g, h, ws[1..])
  }

  /** The lossy map that a run of writes builds from `last`. */
  function Told(r: Region, g: Geometry, h: Hashing, last: map<string, seq<Byte>>, ws: seq<Write>): map<string, seq<Byte>>
    requires IsRegion(r.mem, g)
    decreases |ws|
  {
    if ws == [] then last
    else
      var a := Applied(r, g, h, ws[0]);
      Told(a.0, g, h, Remembered(last, ws[0], a.1), ws[1..])
  }

  /** Memory without a valid header means the empty map. */
  lemma BlankRefines(mem: seq<Byte>, g: Geometry, h: Hashing)
    requires IsRegion(mem, g)
    requires forall b, w | 0 <= b < g.buckets && 0 <= w < g.ways :: SlotAt(mem, g, b, w) == Blank
    ensures Refines(mem, g, h, map[])
  {
  }

  /** Any serialised run of local and remote writes refines the lossy map. */
  lemma {:induction false} RunRefines(r: Region, g: Geometry, h: Hashing, keys: set<string>,
                                      last: map<string, seq<Byte>>, ws: seq<Write>)
    requires Refines(r.mem, g, h, last) && InjectiveOn(h, keys) && last.Keys <= keys
    requires forall i | 0 <= i < |ws| :: ws[i].key in keys
    ensures Refines(Ran(r, g, h, ws).mem, g, h, Told(r, g, h, last, ws))
    ensures Told(r, g, h, last, ws).Keys <= keys
    decreases |ws|
  {
    if ws != [] {
      var a := Applied(r, g, h, ws[0]);
      WriteRefines(r, g, h, keys, last, ws[0]);
      RunRefines(a.0, g, h, keys, Remembered(last, ws[0], a.1), ws[1..]);
    }
  }

  /** Lossy-map refinement: after any run from blank memory, reading a key either misses
      or returns exactly the bytes of the last completed write of that key. */
  lemma NeverADirtyHit(r: Region, g: Geometry, h: Hashing, keys: set<string>, ws: seq<Write>, key: string, w: nat, n: nat)
    requires IsRegion(r.mem, g) && InjectiveOn(h, keys) && key in keys && w < g.ways
    requires forall b, v | 0 <= b < g.buckets && 0 <= v < g.ways :: SlotAt(r.mem, g, b, v) == Blank
    requires forall i | 0 <= i < |ws| :: ws[i].key in keys
    requires Matches(SlotAt(Ran(r, g, h, ws).mem, g, g.BucketIndex(h.bucket(key)), w), h.id(key), n)
    ensures var told := Told(r, g, h, map[], ws);
            key in told && n == |told[key]| <= g.maxPayload &&
            PayloadAt(Ran(r, g, h, ws).mem, g, g.BucketIndex(h.bucket(key)), w, n) == told[key]
  {
    BlankRefines(r.mem, g, h);
    RunRefines(r, g, h, keys, map[], ws);
    HitIsLast(Ran(r, g, h, ws).mem, g, h, keys, Told(r, g, h, map[], ws), key, w, n);
  }

  /** A completed write is readable at once. */
  lemma WriteThenRead(r: Region, g: Geometry, h: Hashing, wr: Write)
    requires IsRegion(r.mem, g) && Applied(r, g, h, wr).1.Wrote?
    ensures var (r', outcome) := Applied(r, g, h, wr);
            var b := g.BucketIndex(h.bucket(wr.key));
            outcome.way < g.ways && |wr.page| <= g.maxPayload
            && Matches(SlotAt(r'.mem, g, b, outcome.way), h.id(wr.key), |wr.page|)
            && PayloadAt(r'.mem, g, b, outcome.way, |wr.page|) == wr.page
  {
    match wr
    case Local(key, page) =>
      PageReadsBack(r.mem, g, h, key, page, LocalWay(r, g, h, key), LocalStampFor(r, g, h, key));
    case Remote(key, page) =>
      var pick := RemotePick(r.mem, g, h, key);
      PageReadsBack(r.mem, g, h, key, page, pick.0, pick.1);
  }

  lemma PageReadsBack(mem: seq<Byte>, g: Geometry, h: Hashing, key: string, page: seq<Byte>, w: nat, stamp: nat)
    requires IsRegion(mem, g) && w < g.ways && |page| <= g.maxPayload && Packable(|page|, stamp) && stamp % 2 == 0
    ensures var b := g.BucketIndex(h.bucket(key));
            var mem' := PageStored(mem, g, h, key, page, w, stamp);
            Matches(SlotAt(mem', g, b, w), h.id(key), |page|) && PayloadAt(mem', g, b, w, |page|) == page
  {
    OwnSlotRead(mem, g, g.BucketIndex(h.bucket(key)), w, Encode(h.id(key), |page|, stamp), page);
    HeaderRoundTrip(h.id(key), |page|, stamp);
  }

  // ---------------------------------------------------------------- inside one local write

  /** Memory j micro-steps into storing a page: the odd header, then one payload byte at
      a time, then the even header. */
  function InstantAt(mem: seq<Byte>, g: Geometry, h: Hashing, key: string, page: seq<Byte>, w: nat, stamp: nat, j: nat): (m: seq<Byte>)
    requires IsRegion(mem, g) && w < g.ways && |page| <= g.maxPayload && j <= |page| + 2
    ensures |m| == |mem|
  {
    if j == 0 then mem
    else if j == |page| + 2 then PageStored(mem, g, h, key, page, w, stamp)
    else SlotStored(mem, g, g.BucketIndex(h.bucket(key)), w, Encode(h.id(key), |page|, stamp + 1) + page[..j - 1])
  }

  /** Memory j micro-steps into write_local. */
  function Instant(r: Region, g: Geometry, h: Hashing, key: string, page: seq<Byte>, j: nat): (m: seq<Byte>)
    requires IsRegion(r.mem, g) && |page| <= g.maxPayload && j <= |page| + 2
    ensures |m| == |r.mem|
  {
    InstantAt(r.mem, g, h, key, page, LocalWay(r, g, h, key), LocalStampFor(r, g, h, key), j)
  }

  /** The pages completed by that instant. */
  function Completed(last: map<string, seq<Byte>>, key: string, page: seq<Byte>, j: nat): map<string, seq<Byte>> {
    if j == |page| + 2 then last[key := page] else last
  }

  /** At every instant the region refines the map of completed pages: the new page
      appears with the last store and not before. */
  lemma EveryInstantRefines(r: Region, g: Geometry, h: Hashing, keys: set<string>, last: map<string, seq<Byte>>,
                            key: string, page: seq<Byte>, j: nat)
    requires Refines(r.mem, g, h, last) && InjectiveOn(h, keys) && last.Keys <= keys && key in keys
    requires LocalWrite(r, g, h, key, page).1.Wrote? && j <= |page| + 2
    ensures Refines(Instant(r, g, h, key, page, j), g, h, Completed(last, key, page, j))
  {
    assert OneWayPerKey(ViewOf(r.mem, g, g.BucketIndex(h.bucket(key))));
    InstantAtRefines(r.mem, g, h, keys, last, key, page, LocalWay(r, g, h, key), LocalStampFor(r, g, h, key), j);
  }

  lemma InstantAtRefines(mem: seq<Byte>, g: Geometry, h: Hashing, keys: set<string>, last: map<string, seq<Byte>>,
                         key: string, page: seq<Byte>, w: nat, stamp: nat, j: nat)
    requires Refines(mem, g, h, last) && InjectiveOn(h, keys) && last.Keys <= keys && key in keys
    requires |page| <= g.maxPayload && j <= |page| + 2 && Packable(|page|, stamp + 1) && stamp % 2 == 0
    requires w < g.ways && MayTake(ViewOf(mem, g, g.BucketIndex(h.bucket(key))), h.id(key), w)
    ensures Refines(InstantAt(mem, g, h, key, page, w, stamp, j), g, h, Completed(last, key, page, j))
  {
    if j == |page| + 2 {
      PageStoreRefines(mem, g, h, keys, last, key, w, stamp, page);
    } else if j > 0 {
      OddStoreRefines(mem, g, h, last, key, w, |page|, stamp + 1, page[..j - 1]);
    }
  }

  /** So whatever a bucket snapshot taken at any instant accepts is a whole page of
      exactly that key, the last one completed by then. */
  lemma CleanSnapshots(r: Region, g: Geometry, h: Hashing, keys: set<string>, last: map<string, seq<Byte>>,
                       key: string, page: seq<Byte>, j: nat, reader: string, v: nat, n: nat)
    requires Refines(r.mem, g, h, last) && InjectiveOn(h, keys) && last.Keys <= keys && key in keys && reader in keys
    requires LocalWrite(r, g, h, key, page).1.Wrote? && j <= |page| + 2 && v < g.ways
    requires
      var s := SlotAt(Instant(r, g, h, key, page, j), g, g.BucketIndex(h.bucket(reader)), v);
      Matches(s, h.id(reader), n) || Present(s, h.id(reader)) == n
    ensures
      var done := Completed(last, key, page, j);
      reader in done && n == |done[reader]| <= g.maxPayload
      && PayloadAt(Instant(r, g, h, key, page, j), g, g.BucketIndex(h.bucket(reader)), v, n) == done[reader]
  {
    EveryInstantRefines(r, g, h, keys, last, key, page, j);
    HitIsLast(Instant(r, g, h, key, page, j), g, h, keys, Completed(last, key, page, j), reader, v, n);
  }
}
