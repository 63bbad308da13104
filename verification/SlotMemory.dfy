/** The bytes of a slot region, read as slots and pages, and the meaning they carry: a
    lossy map from keys to the page last written for them. */
module SlotMemory {
  import opened Bytes
  import opened SlotHeader
  import opened SlotGeometry
  import opened WayChoice

  /** key_hash128 and bucket_hash. */
  datatype Hashing = Hashing(id: string -> Digest, bucket: string -> nat)

  /** No two of the keys in use share an identity. */
  ghost predicate InjectiveOn(h: Hashing, keys: set<string>) {
    forall a, b | a in keys && b in keys && h.id(a) == h.id(b) :: a == b
  }

  predicate IsRegion(mem: seq<Byte>, g: Geometry) {
    g.Valid() && |mem| == g.Capacity()
  }

  function HeaderAt(mem: seq<Byte>, g: Geometry, b: nat, w: nat): (r: seq<Byte>)
    requires IsRegion(mem, g) && b < g.buckets && w < g.ways
    ensures |r| == HEADER_SIZE
  {
    SlotInside(g, b, w); StrideHoldsSlot(g);
    Loaded(mem, g.SlotOffset(b, w), HEADER_SIZE)
  }

  function SlotAt(mem: seq<Byte>, g: Geometry, b: nat, w: nat): Slot
    requires IsRegion(mem, g) && b < g.buckets && w < g.ways
  {
    Decode(HeaderAt(mem, g, b, w))
  }

  function PayloadAt(mem: seq<Byte>, g: Geometry, b: nat, w: nat, n: nat): (r: seq<Byte>)
    requires IsRegion(mem, g) && b < g.buckets && w < g.ways && n <= g.maxPayload
    ensures |r| == n
  {
    SlotInside(g, b, w); StrideHoldsSlot(g);
    Loaded(mem, g.SlotOffset(b, w) + HEADER_SIZE, n)
  }

  function ViewOf(mem: seq<Byte>, g: Geometry, b: nat): (r: seq<Slot>)
    requires IsRegion(mem, g) && b < g.buckets
    ensures |r| == g.ways
  {
    seq(g.ways, w requires 0 <= w < g.ways => SlotAt(mem, g, b, w))
  }

  /** A store of `bytes` at the start of slot (b, w). */
  function SlotStored(mem: seq<Byte>, g: Geometry, b: nat, w: nat, bytes: seq<Byte>): (r: seq<Byte>)
    requires IsRegion(mem, g) && b < g.buckets && w < g.ways && |bytes| <= HEADER_SIZE + g.maxPayload
    ensures |r| == |mem|
  {
    SlotInside(g, b, w); StrideHoldsSlot(g);
    Stored(mem, g.SlotOffset(b, w), bytes)
  }

  /** It leaves every other slot as it was, header and payload. */
  lemma OtherSlotKept(mem: seq<Byte>, g: Geometry, b: nat, w: nat, bytes: seq<Byte>, c: nat, v: nat, n: nat)
    requires IsRegion(mem, g) && b < g.buckets && w < g.ways && |bytes| <= HEADER_SIZE + g.maxPayload
    requires c < g.buckets && v < g.ways && n <= g.maxPayload && (b != c || w != v)
    ensures HeaderAt(SlotStored(mem, g, b, w, bytes), g, c, v) == HeaderAt(mem, g, c, v)
    ensures PayloadAt(SlotStored(mem, g, b, w, bytes), g, c, v, n) == PayloadAt(mem, g, c, v, n)
  {
    SlotInside(g, b, w); SlotInside(g, c, v); StrideHoldsSlot(g); SlotsApart(g, b, w, c, v);
    LoadStored(mem, g.SlotOffset(b, w), bytes, g.SlotOffset(c, v), HEADER_SIZE);
    LoadStored(mem, g.SlotOffset(b, w), bytes, g.SlotOffset(c, v) + HEADER_SIZE, n);
  }

  /** And slot (b, w) then reads back what was stored. */
  lemma OwnSlotRead(mem: seq<Byte>, g: Geometry, b: nat, w: nat, header: seq<Byte>, page: seq<Byte>)
    requires IsRegion(mem, g) && b < g.buckets && w < g.ways && |header| == HEADER_SIZE && |page| <= g.maxPayload
    ensures HeaderAt(SlotStored(mem, g, b, w, header + page), g, b, w) == header
    ensures PayloadAt(SlotStored(mem, g, b, w, header + page), g, b, w, |page|) == page
  {
    SlotInside(g, b, w); StrideHoldsSlot(g);
    LoadStored(mem, g.SlotOffset(b, w), header + page, g.SlotOffset(b, w), HEADER_SIZE);
    LoadStored(mem, g.SlotOffset(b, w), header + page, g.SlotOffset(b, w) + HEADER_SIZE, |page|);
    assert (header + page)[0..HEADER_SIZE] == header;
    assert (header + page)[HEADER_SIZE..HEADER_SIZE + |page|] == page;
  }

  // ---------------------------------------------------------------- meaning

  /** Slot (b, w) holds the page last written for key k. */
  predicate Carries(mem: seq<Byte>, g: Geometry, h: Hashing, last: map<string, seq<Byte>>, b: nat, w: nat, k: string)
    requires IsRegion(mem, g) && b < g.buckets && w < g.ways
  {
    var s := SlotAt(mem, g, b, w);
    && s.Page? && k in last && h.id(k) == s.id && g.BucketIndex(h.bucket(k)) == b
    && |last[k]| == s.length <= g.maxPayload
    && PayloadAt(mem, g, b, w, s.length) == last[k]
  }

  /** A stable header never lies: its slot carries the last page of the key it names. */
  predicate SlotHonest(mem: seq<Byte>, g: Geometry, h: Hashing, last: map<string, seq<Byte>>, b: nat, w: nat)
    requires IsRegion(mem, g) && b < g.buckets && w < g.ways
  {
    var s := SlotAt(mem, g, b, w);
    s.Page? && s.seqno % 2 == 0 ==> exists k | k in last :: Carries(mem, g, h, last, b, w, k)
  }

  /** The region refines the lossy map `last`: every stable slot is honest, and each key
      sits in at most one way of its bucket. */
  predicate Refines(mem: seq<Byte>, g: Geometry, h: Hashing, last: map<string, seq<Byte>>) {
    && IsRegion(mem, g)
    && (forall b, w | 0 <= b < g.buckets && 0 <= w < g.ways :: SlotHonest(mem, g, h, last, b, w))
    && (forall b | 0 <= b < g.buckets :: OneWayPerKey(ViewOf(mem, g, b)))
  }

  /** Way w may be given to this key: if the key is in the bucket already, it is there. */
  predicate MayTake(view: seq<Slot>, id: Digest, w: nat) {
    w < |view| && forall v | 0 <= v < |view| && v != w :: !HoldsKey(view[v], id)
  }

  lemma {:induction false} OneWayAfterStore(mem: seq<Byte>, g: Geometry, b: nat, w: nat, bytes: seq<Byte>, c: nat)
    requires IsRegion(mem, g) && b < g.buckets && w < g.ways && |bytes| <= HEADER_SIZE + g.maxPayload && c < g.buckets
    requires OneWayPerKey(ViewOf(mem, g, c))
    requires c == b ==> var s := SlotAt(SlotStored(mem, g, b, w, bytes), g, b, w); s.Page? ==> MayTake(ViewOf(mem, g, b), s.id, w)
    ensures OneWayPerKey(ViewOf(SlotStored(mem, g, b, w, bytes), g, c))
  {
    var mem' := SlotStored(mem, g, b, w, bytes);
    var view, view' := ViewOf(mem, g, c), ViewOf(mem', g, c);
    forall v | 0 <= v < g.ways && (c != b || v != w) ensures view'[v] == view[v] {
      OtherSlotKept(mem, g, b, w, bytes, c, v, 0);
    }
  }

  /** Writing half a page behind an odd stamp changes no key's meaning. */
  lemma OddStoreRefines(mem: seq<Byte>, g: Geometry, h: Hashing, last: map<string, seq<Byte>>, key: string,
                        w: nat, length: nat, stamp: nat, part: seq<Byte>)
    requires Refines(mem, g, h, last) && |part| <= length <= g.maxPayload
    requires Packable(length, stamp) && stamp % 2 == 1
    requires var b := g.BucketIndex(h.bucket(key)); MayTake(ViewOf(mem, g, b), h.id(key), w)
    ensures var b := g.BucketIndex(h.bucket(key));
            Refines(SlotStored(mem, g, b, w, Encode(h.id(key), length, stamp) + part), g, h, last)
  {
    var b := g.BucketIndex(h.bucket(key));
    var header := Encode(h.id(key), length, stamp);
    var mem' := SlotStored(mem, g, b, w, header + part);
    OwnSlotRead(mem, g, b, w, header, part);
    HeaderRoundTrip(h.id(key), length, stamp);
    forall c, v | 0 <= c < g.buckets && 0 <= v < g.ways ensures SlotHonest(mem', g, h, last, c, v) {
      if c != b || v != w {
        HonestKept(mem, g, h, last, last, b, w, header + part, c, v);
      }
    }
    forall c | 0 <= c < g.buckets ensures OneWayPerKey(ViewOf(mem', g, c)) {
      OneWayAfterStore(mem, g, b, w, header + part, c);
    }
  }

  /** An honest slot stays honest under a store elsewhere, if the key it carries keeps
      its page. */
  lemma HonestKept(mem: seq<Byte>, g: Geometry, h: Hashing, last: map<string, seq<Byte>>, last': map<string, seq<Byte>>,
                   b: nat, w: nat, bytes: seq<Byte>, c: nat, v: nat)
    requires IsRegion(mem, g) && b < g.buckets && w < g.ways && |bytes| <= HEADER_SIZE + g.maxPayload
    requires c < g.buckets && v < g.ways && (b != c || w != v) && SlotHonest(mem, g, h, last, c, v)
    requires forall k | k in last && Carries(mem, g, h, last, c, v, k) :: k in last' && last'[k] == last[k]
    ensures SlotHonest(SlotStored(mem, g, b, w, bytes), g, h, last', c, v)
  {
    var mem' := SlotStored(mem, g, b, w, bytes);
    var s := SlotAt(mem, g, c, v);
    OtherSlotKept(mem, g, b, w, bytes, c, v, if s.Page? && s.length <= g.maxPayload then s.length else 0);
    if s.Page? && s.seqno % 2 == 0 {
      var k :| k in last && Carries(mem, g, h, last, c, v, k);
      assert Carries(mem', g, h, last', c, v, k);
    }
  }

  /** Completing the page behind an even stamp makes it the key's current page. */
  lemma PageStoreRefines(mem: seq<Byte>, g: Geometry, h: Hashing, keys: set<string>, last: map<string, seq<Byte>>,
                         key: string, w: nat, stamp: nat, page: seq<Byte>)
    requires Refines(mem, g, h, last) && |page| <= g.maxPayload
    requires InjectiveOn(h, keys) && key in keys && last.Keys <= keys
    requires Packable(|page|, stamp) && stamp % 2 == 0
    requires var b := g.BucketIndex(h.bucket(key)); MayTake(ViewOf(mem, g, b), h.id(key), w)
    ensures var b := g.BucketIndex(h.bucket(key));
            Refines(SlotStored(mem, g, b, w, Encode(h.id(key), |page|, stamp) + page), g, h, last[key := page])
  {
    var b := g.BucketIndex(h.bucket(key));
    var header, last' := Encode(h.id(key), |page|, stamp), last[key := page];
    var mem' := SlotStored(mem, g, b, w, header + page);
    OwnSlotRead(mem, g, b, w, header, page);
    HeaderRoundTrip(h.id(key), |page|, stamp);
    forall c, v | 0 <= c < g.buckets && 0 <= v < g.ways ensures SlotHonest(mem', g, h, last', c, v) {
      if c == b && v == w {
        assert Carries(mem', g, h, last', b, w, key);
      } else {
        forall k | k in last && Carries(mem, g, h, last, c, v, k) ensures k != key {
          assert ViewOf(mem, g, c)[v] == SlotAt(mem, g, c, v);
        }
        HonestKept(mem, g, h, last, last', b, w, header + page, c, v);
      }
    }
    forall c | 0 <= c < g.buckets ensures OneWayPerKey(ViewOf(mem', g, c)) {
      OneWayAfterStore(mem, g, b, w, header + page, c);
    }
  }
}
