/** The owner-side region object, updating its memory in place, and the remote writer's
    way chooser as the loop over a bucket snapshot that it is. */
module SlotRegion {
  import opened Bytes
  import opened SlotHeader
  import opened SlotGeometry
  import opened WayChoice
  import opened SlotMemory
  import opened SlotWrites

  /** Way w of a bucket snapshot. */
  function SlotIn(bucket: seq<Byte>, g: Geometry, w: nat): Slot
    requires |bucket| == g.BucketStride() && w < g.ways
  {
    MulStep(w, g.ways, g.SlotStride()); StrideHoldsSlot(g);
    Decode(bucket[w * g.SlotStride()..w * g.SlotStride() + HEADER_SIZE])
  }

  function SnapshotView(bucket: seq<Byte>, g: Geometry): (r: seq<Slot>)
    requires |bucket| == g.BucketStride()
    ensures |r| == g.ways
  {
    seq(g.ways, w requires 0 <= w < g.ways => SlotIn(bucket, g, w))
  }

  /** decode_header of way w. */
  method ReadSlot(bucket: seq<Byte>, g: Geometry, w: nat) returns (s: Slot)
    requires |bucket| == g.BucketStride() && w < g.ways
    ensures s == SnapshotView(bucket, g)[w]
  {
    s := SlotIn(bucket, g, w);
  }

  /** One turn of the scan. */
  method NoteSlot(slot: Slot, id: Digest, w: nat, chosen: int, emptyWay: int, oldestWay: nat, oldestSeqno: nat)
    returns (chosen': int, emptyWay': int, oldestWay': nat, oldestSeqno': nat)
    ensures chosen' == if HoldsKey(slot, id) then w else chosen
    ensures emptyWay' == if slot.Blank? && emptyWay < 0 then w else emptyWay
    ensures (oldestWay', oldestSeqno') ==
            if w == 0 || SeqnoOf(slot) < oldestSeqno then (w, SeqnoOf(slot)) else (oldestWay, oldestSeqno)
  {
    chosen', emptyWay', oldestWay', oldestSeqno' := chosen, emptyWay, oldestWay, oldestSeqno;
    var seqno := 0;
    if slot.Blank? {
      if emptyWay < 0 {
        emptyWay' := w;
      }
    } else {
      seqno := slot.seqno;
      if slot.id == id {
        chosen' := w;
      }
    }
    if w == 0 || seqno < oldestSeqno {
      oldestSeqno', oldestWay' := seqno, w;
    }
  }

  /** The scan over all ways. */
  method ScanBucket(bucket: seq<Byte>, g: Geometry, id: Digest, ghost view: seq<Slot>)
    returns (chosen: int, emptyWay: int, oldestWay: nat, oldestSeqno: nat)
    requires |bucket| == g.BucketStride() && view == SnapshotView(bucket, g)
    ensures Scanned(view, Seqnos(view), id, |view|, chosen, emptyWay, oldestWay, oldestSeqno)
  {
    chosen, emptyWay, oldestWay, oldestSeqno := -1, -1, 0, 0;
    var w: nat := 0;
    while w < g.ways
      invariant w <= g.ways && Scanned(view, Seqnos(view), id, w, chosen, emptyWay, oldestWay, oldestSeqno)
    {
      ScanStep(view, Seqnos(view), id, w, chosen, emptyWay, oldestWay, oldestSeqno);
      var slot := ReadSlot(bucket, g, w);
      chosen, emptyWay, oldestWay, oldestSeqno := NoteSlot(slot, id, w, chosen, emptyWay, oldestWay, oldestSeqno);
      w := w + 1;
    }
  }

  /** pick_way_from_bucket. */
  method PickWayFromBucket(bucket: seq<Byte>, g: Geometry, id: Digest) returns (way: int, newSeqno: nat)
    requires g.Valid() && |bucket| == g.BucketStride()
    ensures (way, newSeqno) == RemoteChoice(SnapshotView(bucket, g), id)
  {
    ghost var view := SnapshotView(bucket, g);
    var chosen, emptyWay, oldestWay, oldestSeqno := ScanBucket(bucket, g, id, view);
    ScanDone(view, Seqnos(view), id, chosen, emptyWay, oldestWay, oldestSeqno);
    way := if chosen >= 0 then chosen else if emptyWay >= 0 then emptyWay else oldestWay;
    newSeqno := (oldestSeqno + 2) / 2 * 2;
  }

  function BucketBytes(mem: seq<Byte>, g: Geometry, b: nat): (r: seq<Byte>)
    requires IsRegion(mem, g) && b < g.buckets
    ensures |r| == g.BucketStride()
  {
    SlotInside(g, b, 0);
    Loaded(mem, b * g.BucketStride(), g.BucketStride())
  }

  lemma SlotInBucket(mem: seq<Byte>, g: Geometry, b: nat, w: nat)
    requires IsRegion(mem, g) && b < g.buckets && w < g.ways
    ensures SlotIn(BucketBytes(mem, g, b), g, w) == SlotAt(mem, g, b, w)
  {
    SlotInside(g, b, w); StrideHoldsSlot(g);
    SliceOfSlice(mem, b * g.BucketStride(), g.BucketStride(), w * g.SlotStride(), HEADER_SIZE);
  }

  /** A READ of a whole bucket shows the same slots as the region itself. */
  lemma SnapshotShowsBucket(mem: seq<Byte>, g: Geometry, b: nat)
    requires IsRegion(mem, g) && b < g.buckets
    ensures SnapshotView(BucketBytes(mem, g, b), g) == ViewOf(mem, g, b)
  {
    var bucket := BucketBytes(mem, g, b);
    forall w | 0 <= w < g.ways ensures SlotIn(bucket, g, w) == SlotAt(mem, g, b, w) {
      SlotInBucket(mem, g, b, w);
    }
  }

  lemma SliceOfSlice(mem: seq<Byte>, from: nat, len: nat, at: nat, n: nat)
    requires from + len <= |mem| && at + n <= len
    ensures Loaded(mem, from, len)[at..at + n] == Loaded(mem, from + at, n)
  {
    var part := Loaded(mem, from, len);
    assert forall i | 0 <= i < len :: part[i] == mem[from + i];
  }

  class SlotStore {
    const g: Geometry
    const h: Hashing
    const mem: array<Byte>
    var table: map<(nat, nat), nat>

    ghost predicate Valid()
      reads this, mem
    {
      IsRegion(mem[..], g)
    }

    ghost function Value(): Region
      reads this, mem
    {
      Region(mem[..], table)
    }

    constructor (g: Geometry, h: Hashing, mem: array<Byte>)
      requires g.Valid() && mem.Length == g.Capacity()
      ensures Valid() && this.g == g && this.h == h && this.mem == mem && table == map[]
    {
      this.g, this.h, this.mem, this.table := g, h, mem, map[];
    }

    /** ctypes.memmove into the region. */
    method Move(off: nat, src: seq<Byte>)
      requires off + |src| <= mem.Length
      modifies mem
      ensures mem[..] == Stored(old(mem[..]), off, src)
    {
      ghost var before := mem[..];
      for i := 0 to |src|
        invariant forall j | 0 <= j < mem.Length ::
                    mem[j] == if off <= j < off + i then src[j - off] else before[j]
      {
        mem[off + i] := src[i];
      }
    }

    method SlotHeaderAt(b: nat, w: nat) returns (s: Slot)
      requires Valid() && b < g.buckets && w < g.ways
      ensures s == SlotAt(mem[..], g, b, w)
    {
      SlotInside(g, b, w); StrideHoldsSlot(g);
      var off := g.SlotOffset(b, w);
      s := Decode(mem[off..off + HEADER_SIZE]);
      assert mem[off..off + HEADER_SIZE] == mem[..][off..off + HEADER_SIZE];
    }

    method PickWay(key: string) returns (b: nat, way: nat)
      requires Valid()
      ensures b == g.BucketIndex(h.bucket(key)) && way == LocalWay(Value(), g, h, key)
    {
      b := g.BucketIndex(h.bucket(key));
      ghost var view, row := ViewOf(mem[..], g, b), Row(table, g, b);
      var emptyWay := -1;
      var oldestWay, oldestSeqno := 0, 0;
      var w := 0;
      while w < g.ways
        invariant 0 <= w <= g.ways
        invariant Scanned(view, row, h.id(key), w, -1, emptyWay, oldestWay, oldestSeqno)
      {
        ScanStep(view, row, h.id(key), w, -1, emptyWay, oldestWay, oldestSeqno);
        var slot := SlotHeaderAt(b, w);
        assert slot == view[w];
        if slot.Page? && slot.id == h.id(key) {
          ScanFound(view, row, h.id(key), w, emptyWay, oldestWay, oldestSeqno);
          return b, w;
        }
        if slot.Blank? && emptyWay < 0 {
          emptyWay := w;
        }
        var seqno := if (b, w) in table then table[(b, w)] else 0;
        assert seqno == row[w];
        if w == 0 || seqno < oldestSeqno {
          oldestSeqno, oldestWay := seqno, w;
        }
        w := w + 1;
      }
      ScanDone(view, row, h.id(key), -1, emptyWay, oldestWay, oldestSeqno);
      way := if emptyWay >= 0 then emptyWay else oldestWay;
    }

    /** Odd header, payload, even header. */
    method StoreSlot(b: nat, w: nat, id: Digest, page: seq<Byte>, stamp: nat)
      requires Valid() && b < g.buckets && w < g.ways && |page| <= g.maxPayload
      modifies mem
      ensures Valid() && mem[..] == SlotStored(old(mem[..]), g, b, w, Encode(id, |page|, stamp) + page)
    {
      ghost var before := mem[..];
      SlotInside(g, b, w); StrideHoldsSlot(g);
      var off := g.SlotOffset(b, w);
      Move(off, Encode(id, |page|, stamp + 1));
      Move(off + HEADER_SIZE, page);
      Move(off, Encode(id, |page|, stamp));
      StoresCompose(before, off, Encode(id, |page|, stamp + 1), page, Encode(id, |page|, stamp));
    }

    method PickStamp(key: string) returns (b: nat, way: nat, stamp: nat)
      requires Valid()
      ensures b == g.BucketIndex(h.bucket(key)) && way == LocalWay(Value(), g, h, key)
      ensures stamp == LocalStampFor(Value(), g, h, key)
    {
      b, way := PickWay(key);
      var seqno := if (b, way) in table then table[(b, way)] else 0;
      stamp := if seqno % 2 == 0 then seqno + 2 else seqno + 1;
    }

    /** The seqlock write of a page, then the table. */
    method WriteLocal(key: string, page: seq<Byte>) returns (o: Outcome)
      requires Valid()
      modifies this, mem
      ensures Valid() && (Value(), o) == LocalWrite(old(Value()), g, h, key, page)
    {
      if |page| > g.maxPayload {
        return TooBig;
      }
      var b, w, stamp := PickStamp(key);
      if !Packable(|page|, stamp + 1) {
        return PackError;
      }
      StoreSlot(b, w, h.id(key), page, stamp);
      table := table[(b, w) := stamp];
      o := Wrote(w);
    }

    /** A hit copies the page last completed for this key and length. */
    method ReadLocal(key: string, length: nat, ghost keys: set<string>, ghost last: map<string, seq<Byte>>)
      returns (hit: bool, data: seq<Byte>)
      requires Valid() && Refines(mem[..], g, h, last) && InjectiveOn(h, keys) && last.Keys <= keys && key in keys
      ensures hit <==> Readable(ViewOf(mem[..], g, g.BucketIndex(h.bucket(key))), h.id(key), length)
      ensures hit ==> key in last && data == last[key] && length == |last[key]|
    {
      var b := g.BucketIndex(h.bucket(key));
      ghost var view := ViewOf(mem[..], g, b);
      for w := 0 to g.ways
        invariant forall v | 0 <= v < w :: !Matches(view[v], h.id(key), length)
      {
        var slot := SlotHeaderAt(b, w);
        if Matches(slot, h.id(key), length) {
          HitIsLast(mem[..], g, h, keys, last, key, w, length);
          SlotInside(g, b, w); StrideHoldsSlot(g);
          var off := g.SlotOffset(b, w) + HEADER_SIZE;
          assert Matches(view[w], h.id(key), length);
          assert mem[off..off + length] == PayloadAt(mem[..], g, b, w, length);
          return true, mem[off..off + length];
        }
      }
      return false, [];
    }

    /** The stored length of a readable page of this key, or -1. */
    method ExistsLocal(key: string) returns (length: int)
      requires Valid()
      ensures length == Probe(ViewOf(mem[..], g, g.BucketIndex(h.bucket(key))), h.id(key))
    {
      var b := g.BucketIndex(h.bucket(key));
      ghost var view := ViewOf(mem[..], g, b);
      var w := 0;
      while w < g.ways
        invariant 0 <= w <= g.ways
        invariant Probe(view, h.id(key)) == Probe(view[w..], h.id(key))
      {
        var slot := SlotHeaderAt(b, w);
        var n := Present(slot, h.id(key));
        assert view[w..][1..] == view[w + 1..];
        if n >= 0 {
          return n;
        }
        w := w + 1;
      }
      return -1;
    }
  }

  lemma StoresCompose(mem: seq<Byte>, off: nat, odd: seq<Byte>, page: seq<Byte>, even: seq<Byte>)
    requires |odd| == |even| == HEADER_SIZE && off + HEADER_SIZE + |page| <= |mem|
    ensures Stored(Stored(Stored(mem, off, odd), off + HEADER_SIZE, page), off, even) == Stored(mem, off, even + page)
  {
  }
}
