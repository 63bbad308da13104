/** The fixed layout of a slot region: buckets x ways x stride. */
module SlotGeometry {
  import opened SlotHeader
  import opened WayChoice

  function Align(n: nat): nat {
    (n + 63) / 64 * 64
  }

  datatype Geometry = Geometry(maxPayload: nat, buckets: nat, ways: nat) {
    /** The store clamps both counts to at least one. */
    predicate Valid() { buckets >= 1 && ways >= 1 }

    function SlotStride(): nat { Align(HEADER_SIZE + maxPayload) }

    function BucketStride(): nat { SlotStride() * ways }

    function Capacity(): nat { BucketStride() * buckets }

    function BucketIndex(hash: nat): nat
      requires Valid()
    {
      hash % buckets
    }

    function SlotOffset(b: nat, w: nat): nat { b * BucketStride() + w * SlotStride() }
  }

  /** The bucket of a hash is its remainder: it exists, hashes that differ by whole rounds
      share it, and every bucket is some hash's. */
  lemma BucketSpec(g: Geometry, hash: nat)
    requires g.Valid()
    ensures g.BucketIndex(hash) < g.buckets
    ensures hash < g.buckets ==> g.BucketIndex(hash) == hash
    ensures g.BucketIndex(hash + g.buckets) == g.BucketIndex(hash)
  {
    OneMoreRound(hash, g.buckets);
    if hash < g.buckets {
      SmallMod(hash, g.buckets);
    }
  }

  lemma StrideHoldsSlot(g: Geometry)
    ensures HEADER_SIZE + g.maxPayload <= g.SlotStride() < HEADER_SIZE + g.maxPayload + 64
    ensures g.SlotStride() % 64 == 0
  {
  }

  lemma {:induction false} MulStep(a: nat, b: nat, m: nat)
    requires a < b
    ensures a * m + m <= b * m
  {
    if a + 1 < b {
      MulStep(a, b - 1, m);
    }
    assert b * m == (b - 1) * m + m;
  }

  /** A slot lies inside its bucket and its bucket inside the region. */
  lemma SlotInside(g: Geometry, b: nat, w: nat)
    requires b < g.buckets && w < g.ways
    ensures w * g.SlotStride() + g.SlotStride() <= g.BucketStride()
    ensures b * g.BucketStride() + g.BucketStride() <= g.Capacity()
    ensures g.SlotOffset(b, w) + g.SlotStride() <= b * g.BucketStride() + g.BucketStride() <= g.Capacity()
  {
    MulStep(w, g.ways, g.SlotStride());
    MulStep(b, g.buckets, g.BucketStride());
  }

  /** Different slots never overlap. */
  lemma SlotsApart(g: Geometry, b: nat, w: nat, c: nat, v: nat)
    requires b < g.buckets && c < g.buckets && w < g.ways && v < g.ways
    requires b != c || w != v
    ensures g.SlotOffset(b, w) + g.SlotStride() <= g.SlotOffset(c, v)
         || g.SlotOffset(c, v) + g.SlotStride() <= g.SlotOffset(b, w)
  {
    var stride, bucket := g.SlotStride(), g.BucketStride();
    if b < c {
      SlotInside(g, b, w);
      MulStep(b, c, bucket);
    } else if c < b {
      SlotInside(g, c, v);
      MulStep(c, b, bucket);
    } else if w < v {
      MulStep(w, v, stride);
    } else {
      MulStep(v, w, stride);
    }
  }
}
