/** Runs of local writes: the owner's sequence table mirrors the headers, so its chooser
    replaces pages first in, first out, as the remote one does. */
module SlotLocalRuns {
  import opened Bytes
  import opened SlotHeader
  import opened SlotGeometry
  import opened WayChoice
  import opened SlotMemory
  import opened SlotWrites

  // ---------------------------------------------------------------- the table mirrors the headers

  /** The owner's table has the number of every slot's header, and none for a blank slot. */
  predicate Mirrors(r: Region, g: Geometry) {
    IsRegion(r.mem, g) && forall b, w | 0 <= b < g.buckets && 0 <= w < g.ways :: MirrorsAt(r, g, b, w)
  }

  predicate MirrorsAt(r: Region, g: Geometry, b: nat, w: nat)
    requires IsRegion(r.mem, g) && b < g.buckets && w < g.ways
  {
    TableAt(r.table, b, w) == SeqnoOf(SlotAt(r.mem, g, b, w))
  }

  lemma MirrorsRow(r: Region, g: Geometry, b: nat)
    requires Mirrors(r, g) && b < g.buckets
    ensures Row(r.table, g, b) == Seqnos(ViewOf(r.mem, g, b))
  {
    forall w | 0 <= w < g.ways ensures Row(r.table, g, b)[w] == Seqnos(ViewOf(r.mem, g, b))[w] {
      assert MirrorsAt(r, g, b, w);
    }
  }

  /** A new region over blank memory starts that way. */
  lemma BlankMirrors(mem: seq<Byte>, g: Geometry)
    requires IsRegion(mem, g)
    requires forall b, w | 0 <= b < g.buckets && 0 <= w < g.ways :: SlotAt(mem, g, b, w) == Blank
    ensures Mirrors(Region(mem, map[]), g)
  {
  }

  /** A slot after a page store: the stored header, or what was there. */
  lemma SlotAfterStore(mem: seq<Byte>, g: Geometry, h: Hashing, key: string, page: seq<Byte>, way: nat, stamp: nat, c: nat, v: nat)
    requires IsRegion(mem, g) && way < g.ways && |page| <= g.maxPayload && Packable(|page|, stamp) && c < g.buckets && v < g.ways
    ensures
      var b := g.BucketIndex(h.bucket(key));
      SlotAt(PageStored(mem, g, h, key, page, way, stamp), g, c, v) ==
        if c == b && v == way then Page(h.id(key), |page|, stamp) else SlotAt(mem, g, c, v)
  {
    var b, header := g.BucketIndex(h.bucket(key)), Encode(h.id(key), |page|, stamp);
    if c == b && v == way {
      OwnSlotRead(mem, g, b, way, header, page);
      HeaderRoundTrip(h.id(key), |page|, stamp);
    } else {
      OtherSlotKept(mem, g, b, way, header + page, c, v, 0);
    }
  }

  /** Every local write, completed or refused, leaves it that way. */
  lemma LocalWriteMirrors(r: Region, g: Geometry, h: Hashing, key: string, page: seq<Byte>)
    requires Mirrors(r, g)
    ensures Mirrors(LocalWrite(r, g, h, key, page).0, g)
  {
    var o := LocalWrite(r, g, h, key, page);
    if o.1.Wrote? {
      forall c, v | 0 <= c < g.buckets && 0 <= v < g.ways ensures MirrorsAt(o.0, g, c, v) {
        assert MirrorsAt(r, g, c, v);
        SlotAfterStore(r.mem, g, h, key, page, LocalWay(r, g, h, key), LocalStampFor(r, g, h, key), c, v);
      }
    }
  }

  // ---------------------------------------------------------------- one write, seen in a bucket

  /** A key that is not in the bucket gets from the owner the way and the stamp that a
      remote writer would give it. */
  lemma LocalIsRemote(view: seq<Slot>, id: Digest)
    requires view != [] && forall w | 0 <= w < |view| :: !HoldsKey(view[w], id)
    ensures
      var way := LocalChoice(view, Seqnos(view), id);
      0 <= way < |view| && RemoteChoice(view, id) == (way, LocalStamp(SeqnoOf(view[way])))
  {
    HolderSpec(view, id);
    BlankSpec(view);
    var nums := Seqnos(view);
    assert forall w | 0 <= w < |view| :: nums[w] == SeqnoOf(view[w]);
    var way := LocalChoice(view, nums, id);
    assert nums[way] == nums[FirstSmallest(nums)];
  }

  /** The entry a completed write makes. */
  function EntryOf(h: Hashing, wr: Write): Entry {
    Entry(h.id(wr.key), |wr.page|)
  }

  lemma LocalPickIs(r: Region, g: Geometry, h: Hashing, key: string)
    requires Mirrors(r, g)
    ensures
      var view := ViewOf(r.mem, g, g.BucketIndex(h.bucket(key)));
      && LocalWay(r, g, h, key) == LocalChoice(view, Seqnos(view), h.id(key))
      && LocalStampFor(r, g, h, key) == LocalStamp(SeqnoOf(view[LocalWay(r, g, h, key)]))
  {
    var b := g.BucketIndex(h.bucket(key));
    MirrorsRow(r, g, b);
    assert MirrorsAt(r, g, b, LocalWay(r, g, h, key));
  }

  /** A completed local write of a new key does to its bucket what a remote one does. */
  lemma NewKeyWritten(r: Region, g: Geometry, h: Hashing, key: string, page: seq<Byte>)
    requires Mirrors(r, g) && LocalWrite(r, g, h, key, page).1.Wrote?
    requires forall s | s in ViewOf(r.mem, g, g.BucketIndex(h.bucket(key))) :: !HoldsKey(s, h.id(key))
    ensures
      var b := g.BucketIndex(h.bucket(key));
      ViewOf(LocalWrite(r, g, h, key, page).0.mem, g, b) == Written(ViewOf(r.mem, g, b), Entry(h.id(key), |page|))
  {
    var b := g.BucketIndex(h.bucket(key));
    var view, after := ViewOf(r.mem, g, b), ViewOf(LocalWrite(r, g, h, key, page).0.mem, g, b);
    assert forall w | 0 <= w < |view| :: view[w] in view;
    LocalPickIs(r, g, h, key);
    LocalIsRemote(view, h.id(key));
    forall v | 0 <= v < g.ways ensures after[v] == Written(view, Entry(h.id(key), |page|))[v] {
      SlotAfterStore(r.mem, g, h, key, page, LocalWay(r, g, h, key), LocalStampFor(r, g, h, key), b, v);
    }
  }

  /** A write to another bucket, or one that is refused, leaves this one alone. */
  lemma OtherBucketKept(r: Region, g: Geometry, h: Hashing, key: string, page: seq<Byte>, b: nat)
    requires IsRegion(r.mem, g) && b < g.buckets
    requires !LocalWrite(r, g, h, key, page).1.Wrote? || g.BucketIndex(h.bucket(key)) != b
    ensures ViewOf(LocalWrite(r, g, h, key, page).0.mem, g, b) == ViewOf(r.mem, g, b)
  {
    var o := LocalWrite(r, g, h, key, page);
    if o.1.Wrote? {
      forall v | 0 <= v < g.ways ensures SlotAt(o.0.mem, g, b, v) == SlotAt(r.mem, g, b, v) {
        SlotAfterStore(r.mem, g, h, key, page, LocalWay(r, g, h, key), LocalStampFor(r, g, h, key), b, v);
      }
    }
  }

  // ---------------------------------------------------------------- runs

  predicate AllLocal(ws: seq<Write>) {
    forall i {:trigger ws[i]} | 0 <= i < |ws| :: ws[i].Local?
  }

  /** The completed writes of a run that fall into bucket b, in order. */
  function DoneIn(r: Region, g: Geometry, h: Hashing, b: nat, ws: seq<Write>): seq<Write>
    requires IsRegion(r.mem, g)
    decreases |ws|
  {
    if ws == [] then []
    else
      var a := Applied(r, g, h, ws[0]);
      (if a.1.Wrote? && g.BucketIndex(h.bucket(ws[0].key)) == b then [ws[0]] else []) + DoneIn(a.0, g, h, b, ws[1..])
  }

  function Entries(h: Hashing, ws: seq<Write>): (es: seq<Entry>)
    ensures |es| == |ws|
  {
    seq(|ws|, i requires 0 <= i < |ws| => EntryOf(h, ws[i]))
  }

  /** None of the entries' keys is in the bucket. */
  predicate NoneHeld(view: seq<Slot>, es: seq<Entry>) {
    forall s, e | s in view && e in es :: !HoldsKey(s, e.id)
  }

  lemma {:induction false} WriteFirst(view: seq<Slot>, e: Entry, es: seq<Entry>)
    requires view != []
    ensures AllWritten(view, [e] + es) == AllWritten(Written(view, e), es)
  {
    if es == [] {
      assert ([e] + es)[..0] == [] && [e] + es == [e];
    } else {
      var n := |es| - 1;
      WriteFirst(view, e, es[..n]);
      assert ([e] + es)[..|es|] == [e] + es[..n];
    }
  }

  lemma WrittenSlot(view: seq<Slot>, e: Entry, s: Slot)
    requires view != [] && s in Written(view, e)
    ensures s in view || HoldsKey(s, e.id)
  {
    RemoteChoiceSpec(view, e.id);
  }

  lemma DistinctRest(e: Entry, es: seq<Entry>)
    requires DistinctKeys([e] + es)
    ensures DistinctKeys(es) && forall x | x in es :: x.id != e.id
  {
    var all := [e] + es;
    assert forall i | 0 <= i < |es| :: all[i + 1] == es[i];
    assert all[0] == e;
  }

  lemma NoneHeldAfter(view: seq<Slot>, e: Entry, es: seq<Entry>)
    requires view != [] && NoneHeld(view, [e] + es) && DistinctKeys([e] + es)
    ensures NoneHeld(Written(view, e), es)
  {
    DistinctRest(e, es);
    forall s, x | s in Written(view, e) && x in es ensures !HoldsKey(s, x.id) {
      assert x in [e] + es;
      WrittenSlot(view, e, s);
    }
  }

  /** However writes to other buckets and refused writes are mixed in, the bucket is what
      writing the completed entries one after another makes of it. */
  lemma {:induction false} LocalRunView(r: Region, g: Geometry, h: Hashing, b: nat, ws: seq<Write>)
    requires Mirrors(r, g) && b < g.buckets && AllLocal(ws)
    requires DistinctKeys(Entries(h, DoneIn(r, g, h, b, ws)))
    requires NoneHeld(ViewOf(r.mem, g, b), Entries(h, DoneIn(r, g, h, b, ws)))
    ensures Mirrors(Ran(r, g, h, ws), g)
    ensures ViewOf(Ran(r, g, h, ws).mem, g, b) == AllWritten(ViewOf(r.mem, g, b), Entries(h, DoneIn(r, g, h, b, ws)))
    decreases |ws|
  {
    if ws != [] {
      var wr, a := ws[0], Applied(r, g, h, ws[0]);
      var rest := DoneIn(a.0, g, h, b, ws[1..]);
      LocalWriteMirrors(r, g, h, wr.key, wr.page);
      if a.1.Wrote? && g.BucketIndex(h.bucket(wr.key)) == b {
        assert DoneIn(r, g, h, b, ws) == [wr] + rest;
        FirstInBucket(r, g, h, b, wr, rest);
      } else {
        assert DoneIn(r, g, h, b, ws) == rest;
        OtherBucketKept(r, g, h, wr.key, wr.page, b);
      }
      LocalRunView(a.0, g, h, b, ws[1..]);
    }
  }

  lemma FirstInBucket(r: Region, g: Geometry, h: Hashing, b: nat, wr: Write, rest: seq<Write>)
    requires Mirrors(r, g) && b < g.buckets && wr.Local? && g.BucketIndex(h.bucket(wr.key)) == b
    requires LocalWrite(r, g, h, wr.key, wr.page).1.Wrote?
    requires DistinctKeys(Entries(h, [wr] + rest)) && NoneHeld(ViewOf(r.mem, g, b), Entries(h, [wr] + rest))
    ensures var view := ViewOf(LocalWrite(r, g, h, wr.key, wr.page).0.mem, g, b);
            && DistinctKeys(Entries(h, rest)) && NoneHeld(view, Entries(h, rest))
            && AllWritten(ViewOf(r.mem, g, b), Entries(h, [wr] + rest)) == AllWritten(view, Entries(h, rest))
  {
    EntriesFirst(h, wr, rest);
    NewKeyWritten(r, g, h, wr.key, wr.page);
    FirstEntry(ViewOf(r.mem, g, b), ViewOf(LocalWrite(r, g, h, wr.key, wr.page).0.mem, g, b), EntryOf(h, wr), Entries(h, rest));
  }

  lemma EntriesFirst(h: Hashing, wr: Write, rest: seq<Write>)
    ensures Entries(h, [wr] + rest) == [EntryOf(h, wr)] + Entries(h, rest)
    ensures EntryOf(h, wr) in Entries(h, [wr] + rest)
  {
    var all := Entries(h, [wr] + rest);
    assert all == [EntryOf(h, wr)] + Entries(h, rest);
    assert all[0] == EntryOf(h, wr);
  }

  lemma FirstEntry(view: seq<Slot>, after: seq<Slot>, e: Entry, es: seq<Entry>)
    requires view != [] && NoneHeld(view, [e] + es) && DistinctKeys([e] + es) && after == Written(view, e)
    ensures DistinctKeys(es) && NoneHeld(after, es) && AllWritten(view, [e] + es) == AllWritten(after, es)
  {
    DistinctRest(e, es);
    NoneHeldAfter(view, e, es);
    WriteFirst(view, e, es);
  }

  /** FIFO replacement by the owner: after any run of local writes on a blank region, with no
      key completed twice in bucket b, the bucket holds exactly the last `ways` pages
      completed in it, the j-th in way j % ways, ready to be read. */
  lemma LocalFifo(r: Region, g: Geometry, h: Hashing, b: nat, ws: seq<Write>, j: nat)
    requires IsRegion(r.mem, g) && r.table == map[] && b < g.buckets && AllLocal(ws)
    requires forall c, v | 0 <= c < g.buckets && 0 <= v < g.ways :: SlotAt(r.mem, g, c, v) == Blank
    requires DistinctKeys(Entries(h, DoneIn(r, g, h, b, ws))) && j < |DoneIn(r, g, h, b, ws)|
    ensures
      var view, done := ViewOf(Ran(r, g, h, ws).mem, g, b), DoneIn(r, g, h, b, ws);
      && (Contains(view, h.id(done[j].key)) <==> j + g.ways >= |done|)
      && (j + g.ways >= |done| ==> Matches(view[j % g.ways], h.id(done[j].key), |done[j].page|))
  {
    BlankMirrors(r.mem, g);
    assert ViewOf(r.mem, g, b) == BlankBucket(g.ways);
    LocalRunView(r, g, h, b, ws);
    FifoReplacement(g.ways, Entries(h, DoneIn(r, g, h, b, ws)), j);
  }

  /** So with room for n pages, what was completed last can still be read back. */
  lemma LastOnesReadable(r: Region, g: Geometry, h: Hashing, keys: set<string>, b: nat, ws: seq<Write>, j: nat)
    requires IsRegion(r.mem, g) && r.table == map[] && b < g.buckets && AllLocal(ws) && InjectiveOn(h, keys)
    requires forall c, v | 0 <= c < g.buckets && 0 <= v < g.ways :: SlotAt(r.mem, g, c, v) == Blank
    requires forall i | 0 <= i < |ws| :: ws[i].key in keys
    requires DistinctKeys(Entries(h, DoneIn(r, g, h, b, ws)))
    requires j < |DoneIn(r, g, h, b, ws)| <= j + g.ways
    ensures
      var wr, told := DoneIn(r, g, h, b, ws)[j], Told(r, g, h, map[], ws);
      && Readable(ViewOf(Ran(r, g, h, ws).mem, g, b), h.id(wr.key), |wr.page|)
      && wr.key in told && |told[wr.key]| == |wr.page| <= g.maxPayload
      && PayloadAt(Ran(r, g, h, ws).mem, g, b, j % g.ways, |wr.page|) == told[wr.key]
  {
    LocalFifo(r, g, h, b, ws, j);
    var wr := DoneIn(r, g, h, b, ws)[j];
    CompletedIsOf(r, g, h, b, ws, wr);
    NeverADirtyHit(r, g, h, keys, ws, wr.key, j % g.ways, |wr.page|);
  }

  lemma {:induction false} CompletedIsOf(r: Region, g: Geometry, h: Hashing, b: nat, ws: seq<Write>, wr: Write)
    requires IsRegion(r.mem, g) && wr in DoneIn(r, g, h, b, ws)
    ensures wr in ws && g.BucketIndex(h.bucket(wr.key)) == b
    decreases |ws|
  {
    var rest := DoneIn(Applied(r, g, h, ws[0]).0, g, h, b, ws[1..]);
    if wr in rest {
      CompletedIsOf(Applied(r, g, h, ws[0]).0, g, h, b, ws[1..], wr);
    }
  }
}
