/** Which way of an N-way bucket a write takes, and what any run of writes makes of the
    bucket. A bucket is seen as the sequence of its decoded slot headers. */
module WayChoice {
  import opened SlotHeader

  function SeqnoOf(s: Slot): nat {
    if s.Page? then s.seqno else 0
  }

  predicate HoldsKey(s: Slot, id: Digest) {
    s.Page? && s.id == id
  }

  // ---------------------------------------------------------------- the two choosers

  function LastHolder(view: seq<Slot>, id: Digest): int {
    if view == [] then -1
    else if HoldsKey(view[|view| - 1], id) then |view| - 1
    else LastHolder(view[..|view| - 1], id)
  }

  function FirstHolder(view: seq<Slot>, id: Digest): int {
    if view == [] then -1
    else
      var w := FirstHolder(view[..|view| - 1], id);
      if w >= 0 then w else if HoldsKey(view[|view| - 1], id) then |view| - 1 else -1
  }

  function FirstBlank(view: seq<Slot>): int {
    if view == [] then -1
    else
      var w := FirstBlank(view[..|view| - 1]);
      if w >= 0 then w else if view[|view| - 1].Blank? then |view| - 1 else -1
  }

  /** The first way whose number is smallest. */
  function FirstSmallest(nums: seq<nat>): (w: nat)
    requires nums != []
    ensures w < |nums|
    ensures forall v | 0 <= v < |nums| :: nums[w] <= nums[v]
    ensures forall v | 0 <= v < w :: nums[w] < nums[v]
  {
    if |nums| == 1 then 0
    else
      var n := |nums| - 1;
      var w := FirstSmallest(nums[..n]);
      if nums[n] < nums[w] then n else w
  }

  function Seqnos(view: seq<Slot>): seq<nat> {
    seq(|view|, w requires 0 <= w < |view| => SeqnoOf(view[w]))
  }

  /** (base + 2) & ~1, which is never zero. */
  function NextSeqno(base: nat): nat {
    (base + 2) / 2 * 2
  }

  /** pick_way_from_bucket: the way and the sequence number to stamp. */
  function RemoteChoice(view: seq<Slot>, id: Digest): (r: (int, nat))
    requires view != []
  {
    var oldest := FirstSmallest(Seqnos(view));
    var way := if LastHolder(view, id) >= 0 then LastHolder(view, id)
               else if FirstBlank(view) >= 0 then FirstBlank(view) else oldest;
    (way, NextSeqno(SeqnoOf(view[oldest])))
  }

  /** SlotRegion.pick_way, which ranks by the owner's own sequence table. */
  function LocalChoice(view: seq<Slot>, seqnos: seq<nat>, id: Digest): int
    requires view != [] && |seqnos| == |view|
  {
    if FirstHolder(view, id) >= 0 then FirstHolder(view, id)
    else if FirstBlank(view) >= 0 then FirstBlank(view) else FirstSmallest(seqnos)
  }

  lemma {:induction false} HolderSpec(view: seq<Slot>, id: Digest)
    ensures
      var l, f := LastHolder(view, id), FirstHolder(view, id);
      && -1 <= l < |view| && -1 <= f < |view|
      && (l >= 0 ==> HoldsKey(view[l], id)) && (f >= 0 ==> HoldsKey(view[f], id))
      && (forall w | 0 <= w < |view| && HoldsKey(view[w], id) :: 0 <= f <= w <= l)
  {
    if view != [] {
      HolderSpec(view[..|view| - 1], id);
      assert forall w | 0 <= w < |view| - 1 :: view[..|view| - 1][w] == view[w];
    }
  }

  lemma {:induction false} BlankSpec(view: seq<Slot>)
    ensures
      var f := FirstBlank(view);
      && -1 <= f < |view|
      && (f >= 0 ==> view[f].Blank?)
      && (forall w | 0 <= w < |view| && view[w].Blank? :: 0 <= f <= w)
  {
    if view != [] {
      BlankSpec(view[..|view| - 1]);
      assert forall w | 0 <= w < |view| - 1 :: view[..|view| - 1][w] == view[w];
    }
  }

  /** What the scanning loops know after the first w ways; nums are the numbers they rank
      the ways by. */
  ghost predicate Scanned(view: seq<Slot>, nums: seq<nat>, id: Digest, w: nat,
                          chosen: int, emptyWay: int, oldestWay: nat, oldestSeqno: nat)
    requires |nums| == |view| && w <= |view|
  {
    && chosen == LastHolder(view[..w], id)
    && emptyWay == FirstBlank(view[..w])
    && (w > 0 ==> oldestWay == FirstSmallest(nums[..w]) && oldestSeqno == nums[oldestWay])
  }

  lemma ScanStep(view: seq<Slot>, nums: seq<nat>, id: Digest, w: nat,
                 chosen: int, emptyWay: int, oldestWay: nat, oldestSeqno: nat)
    requires |nums| == |view| && w < |view| && Scanned(view, nums, id, w, chosen, emptyWay, oldestWay, oldestSeqno)
    ensures
      var older := w == 0 || nums[w] < oldestSeqno;
      Scanned(view, nums, id, w + 1,
              if HoldsKey(view[w], id) then w else chosen,
              if view[w].Blank? && emptyWay < 0 then w else emptyWay,
              if older then w else oldestWay, if older then nums[w] else oldestSeqno)
  {
    assert view[..w + 1][..w] == view[..w];
    assert nums[..w + 1][..w] == nums[..w];
    BlankSpec(view[..w]);
  }

  lemma ScanDone(view: seq<Slot>, nums: seq<nat>, id: Digest, chosen: int, emptyWay: int, oldestWay: nat, oldestSeqno: nat)
    requires view != [] && |nums| == |view| && Scanned(view, nums, id, |view|, chosen, emptyWay, oldestWay, oldestSeqno)
    ensures
      var way := if chosen >= 0 then chosen else if emptyWay >= 0 then emptyWay else oldestWay;
      && (nums == Seqnos(view) ==> RemoteChoice(view, id) == (way, NextSeqno(oldestSeqno)))
      && (chosen < 0 ==> LocalChoice(view, nums, id) == way)
  {
    assert view[..|view|] == view && nums[..|nums|] == nums;
    HolderSpec(view, id);
  }

  /** The first way found to hold the key ends the local scan. */
  lemma ScanFound(view: seq<Slot>, nums: seq<nat>, id: Digest, w: nat, emptyWay: int, oldestWay: nat, oldestSeqno: nat)
    requires |nums| == |view| && w < |view| && Scanned(view, nums, id, w, -1, emptyWay, oldestWay, oldestSeqno)
    requires HoldsKey(view[w], id)
    ensures LocalChoice(view, nums, id) == w
  {
    HolderSpec(view, id);
    HolderSpec(view[..w], id);
    assert forall v | 0 <= v < w :: view[..w][v] == view[v];
  }

  /** The policy: refresh the key's own way, else take the first blank way, else evict
      the first way with the smallest sequence number. The stamp is even and fresher
      than the smallest number in the bucket. */
  lemma RemoteChoiceSpec(view: seq<Slot>, id: Digest)
    requires view != []
    ensures
      var (way, stamp) := RemoteChoice(view, id);
      && 0 <= way < |view|
      && ((exists w | 0 <= w < |view| :: HoldsKey(view[w], id)) ==> HoldsKey(view[way], id))
      && ((forall w | 0 <= w < |view| :: !HoldsKey(view[w], id)) ==>
            if exists w | 0 <= w < |view| :: view[w].Blank?
            then view[way].Blank? && forall w | 0 <= w < way :: view[w].Page?
            else (forall w | 0 <= w < |view| :: SeqnoOf(view[way]) <= SeqnoOf(view[w]))
                 && forall w | 0 <= w < way :: SeqnoOf(view[way]) < SeqnoOf(view[w]))
      && stamp % 2 == 0 && stamp > 0
      && (exists w | 0 <= w < |view| :: SeqnoOf(view[w]) < stamp <= SeqnoOf(view[w]) + 2)
      && (forall w | 0 <= w < |view| :: stamp <= SeqnoOf(view[w]) + 2)
  {
    HolderSpec(view, id);
    BlankSpec(view);
    var oldest := FirstSmallest(Seqnos(view));
    assert SeqnoOf(view[oldest]) < NextSeqno(SeqnoOf(view[oldest])) <= SeqnoOf(view[oldest]) + 2;
    assert forall w | 0 <= w < |view| :: Seqnos(view)[w] == SeqnoOf(view[w]);
  }

  lemma LocalChoiceSpec(view: seq<Slot>, seqnos: seq<nat>, id: Digest)
    requires view != [] && |seqnos| == |view|
    ensures
      var way := LocalChoice(view, seqnos, id);
      && 0 <= way < |view|
      && ((exists w | 0 <= w < |view| :: HoldsKey(view[w], id)) ==> HoldsKey(view[way], id))
      && ((forall w | 0 <= w < |view| :: !HoldsKey(view[w], id)) ==>
            if exists w | 0 <= w < |view| :: view[w].Blank?
            then view[way].Blank? && forall w | 0 <= w < way :: view[w].Page?
            else (forall w | 0 <= w < |view| :: seqnos[way] <= seqnos[w])
                 && forall w | 0 <= w < way :: seqnos[way] < seqnos[w])
  {
    HolderSpec(view, id);
    BlankSpec(view);
  }

  /** No key sits in two ways. */
  predicate OneWayPerKey(view: seq<Slot>) {
    forall v, w | 0 <= v < w < |view| && view[v].Page? && view[w].Page? :: view[v].id != view[w].id
  }

  /** The local and the remote chooser take the same way when the owner's table mirrors
      the headers. */
  lemma ChoosersAgree(view: seq<Slot>, seqnos: seq<nat>, id: Digest)
    requires view != [] && OneWayPerKey(view) && seqnos == Seqnos(view)
    ensures LocalChoice(view, seqnos, id) == RemoteChoice(view, id).0
  {
    HolderSpec(view, id);
  }

  /** The smallest number in a bucket. */
  function Smallest(view: seq<Slot>): nat
    requires view != []
  {
    SeqnoOf(view[FirstSmallest(Seqnos(view))])
  }

  /** Whatever a READ of the bucket shows, the stamp is strictly fresher than what the chosen
      slot held exactly when the key is in no way yet, or its own way's number is still below
      the stamp that follows the bucket's smallest number. */
  lemma StampFresherIff(view: seq<Slot>, id: Digest)
    requires view != []
    ensures
      var (way, stamp) := RemoteChoice(view, id);
      && 0 <= way < |view|
      && (stamp > SeqnoOf(view[way]) <==>
            forall w | 0 <= w < |view| && w == LastHolder(view, id) :: SeqnoOf(view[w]) < NextSeqno(Smallest(view)))
  {
    RemoteChoiceSpec(view, id);
    HolderSpec(view, id);
    var nums := Seqnos(view);
    assert forall w | 0 <= w < |view| :: nums[w] == SeqnoOf(view[w]);
  }

  /** When all numbers are even, that is when the key's own way has the smallest number. */
  lemma EvenStampFresherIff(view: seq<Slot>, id: Digest)
    requires view != [] && forall w | 0 <= w < |view| :: SeqnoOf(view[w]) % 2 == 0
    ensures
      var (way, stamp) := RemoteChoice(view, id);
      && 0 <= way < |view|
      && (stamp > SeqnoOf(view[way]) <==> SeqnoOf(view[way]) == Smallest(view))
  {
    RemoteChoiceSpec(view, id);
    var nums := Seqnos(view);
    assert forall w | 0 <= w < |view| :: nums[w] == SeqnoOf(view[w]);
    EvenGap(nums[RemoteChoice(view, id).0], nums[FirstSmallest(nums)]);
  }

  lemma EvenGap(v: nat, smallest: nat)
    requires v % 2 == 0 && smallest % 2 == 0
    ensures NextSeqno(smallest) == smallest + 2 && (NextSeqno(smallest) > v <==> v <= smallest)
  {
  }

  /** Refreshing the newest page of a bucket stamps it with the number it already had. */
  lemma RefreshMayRepeatStamp(a: Digest, b: Digest)
    requires a != b
    ensures RemoteChoice([Page(a, 1, 4), Page(b, 1, 2)], a) == (0, 4)
  {
    var view := [Page(a, 1, 4), Page(b, 1, 2)];
    HolderSpec(view, a);
    assert HoldsKey(view[0], a) && !HoldsKey(view[1], a);
    assert Seqnos(view) == [4, 2];
    assert Seqnos(view)[FirstSmallest(Seqnos(view))] <= Seqnos(view)[1];
  }

  // ---------------------------------------------------------------- runs of remote writes

  datatype Entry = Entry(id: Digest, length: nat)

  /** The bucket after a remote write of e. */
  function Written(view: seq<Slot>, e: Entry): (r: seq<Slot>)
    requires view != []
    ensures |r| == |view|
  {
    RemoteChoiceSpec(view, e.id);
    var (way, stamp) := RemoteChoice(view, e.id);
    view[way := Page(e.id, e.length, stamp)]
  }

  function AllWritten(view: seq<Slot>, es: seq<Entry>): (r: seq<Slot>)
    requires view != []
    ensures |r| == |view|
  {
    if es == [] then view else Written(AllWritten(view, es[..|es| - 1]), es[|es| - 1])
  }

  function BlankBucket(ways: nat): seq<Slot> {
    seq(ways, _ => Blank)
  }

  /** Stamps are even and positive; while a way is blank all stamps are 2; in a full
      bucket no two stamps differ by more than 2. */
  predicate Leveled(view: seq<Slot>) {
    && (forall w | 0 <= w < |view| && view[w].Page? :: view[w].seqno % 2 == 0 && view[w].seqno > 0)
    && ((exists w | 0 <= w < |view| :: view[w].Blank?) ==>
          forall w | 0 <= w < |view| && view[w].Page? :: view[w].seqno == 2)
    && (forall v, w | 0 <= v < |view| && 0 <= w < |view| && view[v].Page? && view[w].Page? ::
          view[v].seqno <= view[w].seqno + 2)
  }

  lemma WrittenKeepsLeveled(view: seq<Slot>, e: Entry)
    requires view != [] && Leveled(view)
    ensures Leveled(Written(view, e))
  {
    RemoteChoiceSpec(view, e.id);
    BlankSpec(view);
  }

  lemma WrittenKeepsOneWay(view: seq<Slot>, e: Entry)
    requires view != [] && OneWayPerKey(view)
    ensures OneWayPerKey(Written(view, e))
  {
    RemoteChoiceSpec(view, e.id);
    var (way, stamp) := RemoteChoice(view, e.id);
    assert forall w | 0 <= w < |view| && w != way :: !HoldsKey(view[w], e.id);
  }

  /** Over any run of remote writes to a fresh bucket. */
  lemma {:induction false} RunsStayLeveled(ways: nat, es: seq<Entry>)
    requires ways > 0
    ensures Leveled(AllWritten(BlankBucket(ways), es)) && OneWayPerKey(AllWritten(BlankBucket(ways), es))
  {
    if es != [] {
      RunsStayLeveled(ways, es[..|es| - 1]);
      WrittenKeepsLeveled(AllWritten(BlankBucket(ways), es[..|es| - 1]), es[|es| - 1]);
      WrittenKeepsOneWay(AllWritten(BlankBucket(ways), es[..|es| - 1]), es[|es| - 1]);
    }
  }

  predicate DistinctKeys(es: seq<Entry>) {
    forall i, j | 0 <= i < j < |es| :: es[i].id != es[j].id
  }

  /** Entries that fill this many whole rounds. */
  function Rounds(ways: nat, level: nat): nat {
    if level == 0 then 0 else Rounds(ways, level - 1) + ways
  }

  lemma {:induction false} RoundsIsProduct(ways: nat, level: nat)
    ensures Rounds(ways, level) == ways * level
  {
    if level > 0 {
      RoundsIsProduct(ways, level - 1);
      assert ways * level == ways * (level - 1) + ways;
    }
  }

  lemma {:induction false} RoundsMod(ways: nat, level: nat, w: nat)
    requires w < ways
    ensures (Rounds(ways, level) + w) % ways == w
  {
    if level == 0 {
      SmallMod(w, ways);
    } else {
      RoundsMod(ways, level - 1, w);
      OneMoreRound(Rounds(ways, level - 1) + w, ways);
    }
  }

  lemma SmallMod(w: nat, ways: nat)
    requires w < ways
    ensures w % ways == w
  {
  }

  lemma OneMoreRound(x: nat, ways: nat)
    requires ways > 0
    ensures (x + ways) % ways == x % ways
  {
    var q, r := x / ways, x % ways;
    assert x + ways == ways * (q + 1) + r;
    EuclidUnique(x + ways, ways, q + 1, r);
  }

  lemma EuclidUnique(x: nat, m: nat, q: nat, r: nat)
    requires m > 0 && r < m && x == m * q + r
    ensures x % m == r
  {
    var d := x / m - q;
    assert x == m * (x / m) + x % m;
    assert m * d == r - x % m by {
      assert m * (x / m) == m * q + m * d;
    }
    FarProduct(m, d);
  }

  lemma FarProduct(m: int, d: int)
    requires m >= 0
    ensures d >= 1 ==> m * d >= m
    ensures d <= -1 ==> m * d <= -m
  {
  }

  /** Way w once `start` entries filled whole rounds (`level` of them) and r more were
      written: this round's entry below r, last round's from r on. */
  predicate RoundRobinAt(slot: Slot, es: seq<Entry>, ways: nat, start: nat, level: nat, r: nat, w: nat) {
    if w < r then
      start + w < |es| && slot == Page(es[start + w].id, es[start + w].length, 2 * (level + 1))
    else if level > 0 then
      0 <= start - ways + w < |es|
      && slot == Page(es[start - ways + w].id, es[start - ways + w].length, 2 * level)
    else slot == Blank
  }

  predicate RoundRobin(view: seq<Slot>, es: seq<Entry>, ways: nat, start: nat, level: nat, r: nat) {
    && |view| == ways && r < ways && start + r == |es| && start == Rounds(ways, level)
    && (if level == 0 then start == 0 else start >= ways)
    && forall w | 0 <= w < ways :: RoundRobinAt(view[w], es, ways, start, level, r, w)
  }

  lemma RoundRobinNoHolder(view: seq<Slot>, es: seq<Entry>, ways: nat, start: nat, level: nat, r: nat, e: Entry, w: nat)
    requires RoundRobin(view, es, ways, start, level, r) && DistinctKeys(es + [e]) && w < ways
    ensures !HoldsKey(view[w], e.id)
    ensures SeqnoOf(view[w]) == if w < r then 2 * (level + 1) else 2 * level
    ensures view[w].Blank? <==> w >= r && level == 0
  {
    assert RoundRobinAt(view[w], es, ways, start, level, r, w);
    if w < r || level > 0 {
      var at := if w < r then start + w else start - ways + w;
      assert (es + [e])[at] == es[at] && (es + [e])[|es|] == e;
    }
  }

  lemma RoundRobinChoice(view: seq<Slot>, es: seq<Entry>, ways: nat, start: nat, level: nat, r: nat, e: Entry)
    requires RoundRobin(view, es, ways, start, level, r) && DistinctKeys(es + [e])
    ensures RemoteChoice(view, e.id) == (r, 2 * (level + 1))
  {
    HolderSpec(view, e.id);
    BlankSpec(view);
    var nums := Seqnos(view);
    forall w | 0 <= w < ways
      ensures !HoldsKey(view[w], e.id) && (view[w].Blank? <==> w >= r && level == 0)
      ensures nums[w] == if w < r then 2 * (level + 1) else 2 * level
    {
      RoundRobinNoHolder(view, es, ways, start, level, r, e, w);
    }
    assert nums[FirstSmallest(nums)] <= nums[r];
    assert FirstSmallest(nums) == r;
  }

  lemma RoundRobinStep(view: seq<Slot>, es: seq<Entry>, ways: nat, start: nat, level: nat, r: nat, e: Entry)
    requires RoundRobin(view, es, ways, start, level, r)
    ensures
      var after := view[r := Page(e.id, e.length, 2 * (level + 1))];
      if r + 1 < ways then RoundRobin(after, es + [e], ways, start, level, r + 1)
      else RoundRobin(after, es + [e], ways, start + ways, level + 1, 0)
  {
    var all := es + [e];
    var after := view[r := Page(e.id, e.length, 2 * (level + 1))];
    assert forall i | 0 <= i < |es| :: all[i] == es[i];
    assert all[|es|] == e;
    forall w | 0 <= w < ways
      ensures if r + 1 < ways then RoundRobinAt(after[w], all, ways, start, level, r + 1, w)
              else RoundRobinAt(after[w], all, ways, start + ways, level + 1, 0, w)
    {
      assert RoundRobinAt(view[w], es, ways, start, level, r, w);
    }
  }

  lemma RoundRobinNext(view: seq<Slot>, es: seq<Entry>, ways: nat, start: nat, level: nat, r: nat, e: Entry)
    returns (start': nat, level': nat, r': nat)
    requires RoundRobin(view, es, ways, start, level, r) && DistinctKeys(es + [e])
    ensures RoundRobin(Written(view, e), es + [e], ways, start', level', r')
  {
    RoundRobinChoice(view, es, ways, start, level, r, e);
    RoundRobinStep(view, es, ways, start, level, r, e);
    if r + 1 < ways {
      start', level', r' := start, level, r + 1;
    } else {
      start', level', r' := start + ways, level + 1, 0;
    }
  }

  /** A run of distinct keys fills the ways round robin. */
  lemma {:induction false} RoundRobinHolds(ways: nat, es: seq<Entry>) returns (start: nat, level: nat, r: nat)
    requires ways > 0 && DistinctKeys(es)
    ensures RoundRobin(AllWritten(BlankBucket(ways), es), es, ways, start, level, r)
    ensures start == ways * level && |es| == ways * level + r
  {
    if es == [] {
      start, level, r := 0, 0, 0;
    } else {
      var before, e := es[..|es| - 1], es[|es| - 1];
      start, level, r := RoundRobinHolds(ways, before);
      assert es == before + [e];
      start, level, r := RoundRobinNext(AllWritten(BlankBucket(ways), before), before, ways, start, level, r, e);
    }
    RoundsIsProduct(ways, level);
  }

  predicate Contains(view: seq<Slot>, id: Digest) {
    exists w | 0 <= w < |view| :: HoldsKey(view[w], id)
  }

  /** Entry j, one of the last `ways`, is in way j % ways. */
  lemma RecentHeld(view: seq<Slot>, es: seq<Entry>, ways: nat, start: nat, level: nat, r: nat, j: nat)
    requires RoundRobin(view, es, ways, start, level, r) && j < |es| <= j + ways
    ensures HoldsKey(view[j % ways], es[j].id) && view[j % ways].length == es[j].length && view[j % ways].seqno % 2 == 0
  {
    var w: nat := if j >= start then j - start else j + ways - start;
    assert RoundRobinAt(view[w], es, ways, start, level, r, w);
    RoundsMod(ways, if j >= start then level else level - 1, w);
  }

  lemma OldGone(view: seq<Slot>, es: seq<Entry>, ways: nat, start: nat, level: nat, r: nat, j: nat, w: nat)
    requires RoundRobin(view, es, ways, start, level, r) && DistinctKeys(es) && j + ways < |es| && w < ways
    ensures !HoldsKey(view[w], es[j].id)
  {
    assert RoundRobinAt(view[w], es, ways, start, level, r, w);
    var at := if w < r then start + w else start - ways + w;
    assert view[w].Page? ==> es[at].id == view[w].id && at > j;
  }

  /** FIFO replacement: writing pairwise distinct keys into a fresh bucket leaves exactly
      the last `ways` of them (all of them while they fit), entry j in way j % ways. */
  lemma FifoReplacement(ways: nat, es: seq<Entry>, j: nat)
    requires ways > 0 && DistinctKeys(es) && j < |es|
    ensures Contains(AllWritten(BlankBucket(ways), es), es[j].id) <==> j + ways >= |es|
    ensures j + ways >= |es| ==>
              var s := AllWritten(BlankBucket(ways), es)[j % ways];
              HoldsKey(s, es[j].id) && s.length == es[j].length && s.seqno % 2 == 0
  {
    var view := AllWritten(BlankBucket(ways), es);
    var start, level, r := RoundRobinHolds(ways, es);
    if j + ways >= |es| {
      RecentHeld(view, es, ways, start, level, r, j);
    } else {
      forall w: nat | w < ways ensures !HoldsKey(view[w], es[j].id) {
        OldGone(view, es, ways, start, level, r, j, w);
      }
    }
  }
}
