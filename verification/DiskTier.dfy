/** The disk tier of python/peercache/diskstore.py as an interleaving of callers of put,
    remove and get with the single writer thread: its queue, its accounting and cap, and
    the files it leaves for a restart to find. */
module DiskTier {
  import opened Bytes

  /** A key as its UTF-8 bytes. */
  type Key = seq<Byte>

  datatype Item = Item(key: Key, data: seq<Byte>)

  /** One index entry; the index runs from least to most recently used. */
  datatype Entry = Entry(key: Key, len: nat)

  /** The writer thread: idle, holding a dequeued item, past os.replace, or done with the
      item but for inflight.discard. */
  datatype Worker = Idle | Holding(item: Item) | Renamed(item: Item) | Ending(key: Key)

  /** admitted: puts that have passed the check but not yet reached the queue.
      unlinking: names that a remove has popped from the index but not yet deleted.
      written: the data last laid down for each key. */
  datatype Disk = Disk(
    max: nat,
    index: seq<Entry>,
    used: int,
    inflight: set<Key>,
    admitted: seq<Item>,
    queue: seq<Item>,
    worker: Worker,
    files: map<string, seq<Byte>>,
    unlinking: multiset<string>,
    written: map<Key, seq<Byte>>)

  /** _safe_name: the file name of a key. */
  type Naming = Key -> string

  function Find(index: seq<Entry>, key: Key): (i: int)
    ensures -1 <= i < |index|
    ensures i >= 0 ==> index[i].key == key
    ensures i < 0 ==> forall j | 0 <= j < |index| :: index[j].key != key
  {
    if index == [] then -1
    else if index[|index| - 1].key == key then |index| - 1
    else Find(index[..|index| - 1], key)
  }

  function Sum(index: seq<Entry>): nat {
    if index == [] then 0 else Sum(index[..|index| - 1]) + index[|index| - 1].len
  }

  /** [4-byte big-endian key length][key][page]. */
  function FileBytes(key: Key, data: seq<Byte>): seq<Byte> {
    BigEndian(|key|, 4) + key + data
  }

  // ---------------------------------------------------------------- the index section of a write

  /** Drop from the front while over the cap and more than one page is left. */
  function Trim(max: nat, index: seq<Entry>, used: int): (seq<Entry>, int)
    decreases |index|
  {
    if used > max && |index| > 1 then Trim(max, index[1..], used - index[0].len) else (index, used)
  }

  /** Entries the trim drops, oldest first. */
  function Trimmed(max: nat, index: seq<Entry>, used: int): seq<Entry>
    decreases |index|
  {
    if used > max && |index| > 1 then [index[0]] + Trimmed(max, index[1..], used - index[0].len) else []
  }

  function Names(name: Naming, es: seq<Entry>): set<string> {
    set e | e in es :: name(e.key)
  }

  /** self._index[key] = ...; move_to_end(key); used grows only for a new key. */
  function Listed(index: seq<Entry>, item: Item): seq<Entry> {
    var i := Find(index, item.key);
    (if i < 0 then index else index[..i] + index[i + 1..]) + [Entry(item.key, |item.data|)]
  }

  function Charged(d: Disk, item: Item): int {
    d.used + if Find(d.index, item.key) < 0 then |item.data| else 0
  }

  // ---------------------------------------------------------------- steps

  datatype Step =
    | Admit(item: Item)
    | Enqueue(i: nat)
    | Dequeue
    | WriteFile
    | WriteFail
    | Index
    | Finish
    | Pop(key: Key)
    | Unlink(file: string)
    | Touch(key: Key)
    | OtherFile(file: string, bytes: seq<Byte>)

  predicate IsPage(n: string) {
    |n| >= 4 && n[|n| - 4..] == ".bin"
  }

  predicate Enabled(d: Disk, s: Step) {
    match s
    case Admit(item) => |item.data| <= d.max && Find(d.index, item.key) < 0 && item.key !in d.inflight
    case Enqueue(i) => i < |d.admitted|
    case Dequeue => d.worker.Idle? && d.queue != []
    case WriteFile => d.worker.Holding?
    case WriteFail => d.worker.Holding?
    case Index => d.worker.Renamed?
    case Finish => d.worker.Ending?
    case Pop(key) => Find(d.index, key) >= 0
    case Unlink(n) => n in d.unlinking
    case Touch(key) => Find(d.index, key) >= 0
    case OtherFile(n, _) => !IsPage(n)
  }

  function After(name: Naming, d: Disk, s: Step): Disk
    requires Enabled(d, s)
  {
    match s
    case Admit(item) => d.(inflight := d.inflight + {item.key}, admitted := d.admitted + [item])
    case Enqueue(i) => d.(admitted := d.admitted[..i] + d.admitted[i + 1..], queue := d.queue + [d.admitted[i]])
    case Dequeue => d.(worker := Holding(d.queue[0]), queue := d.queue[1..])
    case WriteFile =>
      var it := d.worker.item;
      d.(worker := Renamed(it), files := d.files[name(it.key) := FileBytes(it.key, it.data)], written := d.written[it.key := it.data])
    case WriteFail => d.(worker := Ending(d.worker.item.key))
    case Index =>
      var it := d.worker.item;
      var index, used := Listed(d.index, it), Charged(d, it);
      var r := Trim(d.max, index, used);
      d.(index := r.0, used := r.1, files := d.files - Names(name, Trimmed(d.max, index, used)), worker := Ending(it.key))
    case Finish => d.(worker := Idle, inflight := d.inflight - {d.worker.key})
    case Pop(key) =>
      var i := Find(d.index, key);
      d.(index := d.index[..i] + d.index[i + 1..], used := d.used - d.index[i].len, unlinking := d.unlinking + multiset{name(key)})
    case Unlink(n) => d.(files := d.files - {n}, unlinking := d.unlinking - multiset{n})
    case Touch(key) =>
      var i := Find(d.index, key);
      d.(index := d.index[..i] + d.index[i + 1..] + [d.index[i]])
    case OtherFile(n, bytes) => d.(files := d.files[n := bytes])
  }

  // ---------------------------------------------------------------- queue and accounting

  /** The item in the writer's hands, as a list. */
  function InHand(w: Worker): seq<Item> {
    if w.Holding? || w.Renamed? then [w.item] else []
  }

  /** Every item on its way to the index, at any stage. */
  function OnTheWay(d: Disk): seq<Item> {
    InHand(d.worker) + d.queue + d.admitted
  }

  predicate DistinctItems(s: seq<Item>) {
    forall i, j | 0 <= i < j < |s| :: s[i].key != s[j].key
  }

  predicate DistinctEntries(s: seq<Entry>) {
    forall i, j | 0 <= i < j < |s| :: s[i].key != s[j].key
  }

  predicate Absent(index: seq<Entry>, key: Key) {
    forall e | e in index :: e.key != key
  }

  /** Items on the way are for distinct keys, none of them indexed, none over the cap, and
      all of them in flight. */
  predicate WayOk(way: seq<Item>, index: seq<Entry>, inflight: set<Key>, max: nat) {
    && DistinctItems(way)
    && forall it | it in way :: Absent(index, it.key) && |it.data| <= max && it.key in inflight
  }

  /** Nothing is in flight but items on the way and the key the writer is finishing. */
  predicate FlightOk(way: seq<Item>, w: Worker, inflight: set<Key>) {
    && (w.Ending? ==> w.key in inflight && forall it | it in way :: it.key != w.key)
    && forall k | k in inflight :: (exists it | it in way :: it.key == k) || w == Ending(k)
  }

  /** Every key is indexed once and used is the sum of the indexed lengths. */
  predicate Accounted(d: Disk) {
    DistinctEntries(d.index) && d.used == Sum(d.index)
  }

  predicate Inv(d: Disk) {
    && WayOk(OnTheWay(d), d.index, d.inflight, d.max)
    && FlightOk(OnTheWay(d), d.worker, d.inflight)
    && Accounted(d)
  }

  lemma FindAbsent(index: seq<Entry>, key: Key)
    ensures Find(index, key) < 0 <==> Absent(index, key)
  {
    var i := Find(index, key);
    assert i >= 0 ==> index[i] in index;
  }

  lemma {:induction false} SumConcat(a: seq<Entry>, b: seq<Entry>)
    ensures Sum(a + b) == Sum(a) + Sum(b)
    decreases |b|
  {
    if b == [] {
      assert a + b == a;
    } else {
      assert (a + b)[..|a + b| - 1] == a + b[..|b| - 1];
      SumConcat(a, b[..|b| - 1]);
    }
  }

  /** Taking one entry out takes exactly its length out of the sum. */
  lemma SumWithout(index: seq<Entry>, i: nat)
    requires i < |index|
    ensures Sum(index[..i] + index[i + 1..]) == Sum(index) - index[i].len
  {
    Rejoined(index, i);
    SumParts(index[..i], index[i], index[i + 1..]);
  }

  lemma Rejoined(index: seq<Entry>, i: nat)
    requires i < |index|
    ensures (index[..i] + [index[i]]) + index[i + 1..] == index
  {
  }

  lemma SumParts(a: seq<Entry>, e: Entry, b: seq<Entry>)
    ensures Sum((a + [e]) + b) == Sum(a + b) + e.len
  {
    SumConcat(a + [e], b);
    SumConcat(a, b);
    SumLast(a, e);
  }

  lemma SumLast(a: seq<Entry>, e: Entry)
    ensures Sum(a + [e]) == Sum(a) + e.len
  {
    assert (a + [e])[..|a|] == a;
  }

  lemma SumTail(index: seq<Entry>)
    requires index != []
    ensures Sum(index[1..]) == Sum(index) - index[0].len
  {
    SumWithout(index, 0);
    assert index[..0] + index[1..] == index[1..];
  }

  /** The trim only drops from the front, and never the newest page. */
  lemma {:induction false} TrimSplits(max: nat, index: seq<Entry>, used: int)
    ensures var r := Trim(max, index, used);
            Trimmed(max, index, used) + r.0 == index && (index != [] ==> r.0 != [])
    decreases |index|
  {
    if used > max && |index| > 1 {
      TrimSplits(max, index[1..], used - index[0].len);
      assert index == [index[0]] + index[1..];
    }
  }

  /** Moving an admitted item to the end of the queue only reorders what is on the way. */
  function Rotated(a: seq<Item>, b: seq<Item>, i: nat): seq<Item>
    requires i < |b|
  {
    a + [b[i]] + (b[..i] + b[i + 1..])
  }

  lemma RotateDistinct(a: seq<Item>, b: seq<Item>, i: nat)
    requires i < |b| && DistinctItems(a + b)
    ensures DistinctItems(Rotated(a, b, i))
  {
    var s, t := a + b, Rotated(a, b, i);
    var n := |a|;
    assert forall j | 0 <= j < |t| ::
      t[j] == s[if j < n then j else if j == n then n + i else if j <= n + i then j - 1 else j];
  }

  lemma RotateSame(a: seq<Item>, b: seq<Item>, i: nat, it: Item)
    requires i < |b|
    ensures it in a + b <==> it in Rotated(a, b, i)
  {
    assert b == b[..i] + [b[i]] + b[i + 1..];
  }

  // ---------------------------------------------------------------- every step keeps the invariant

  /** What a step may put in the index: what was there, and the page being written. */
  lemma StepIndex(name: Naming, d: Disk, s: Step)
    requires Enabled(d, s)
    ensures forall e | e in After(name, d, s).index :: e in d.index || (s.Index? && e.key == d.worker.item.key)
  {
    if s.Index? {
      var index := Listed(d.index, d.worker.item);
      TrimSplits(d.max, index, Charged(d, d.worker.item));
      assert forall e | e in Trim(d.max, index, Charged(d, d.worker.item)).0 :: e in index;
    }
  }

  /** The items on the way after a step other than Admit and Enqueue: all of them, or all
      but the one in the writer's hands. */
  lemma StepWay(name: Naming, d: Disk, s: Step)
    requires Enabled(d, s) && !s.Admit? && !s.Enqueue?
    ensures var way := OnTheWay(d);
            if s.WriteFail? || s.Index? then way != [] && way[0] == d.worker.item && OnTheWay(After(name, d, s)) == way[1..]
            else OnTheWay(After(name, d, s)) == way
  {
    var t, way := After(name, d, s), OnTheWay(d);
    if s.WriteFail? || s.Index? {
      assert OnTheWay(t) == way[1..];
    } else {
      assert OnTheWay(t) == way;
    }
  }

  lemma EnqueueWay(name: Naming, d: Disk, i: nat)
    requires i < |d.admitted|
    ensures OnTheWay(After(name, d, Enqueue(i))) == Rotated(InHand(d.worker) + d.queue, d.admitted, i)
    ensures forall it :: it in OnTheWay(d) <==> it in OnTheWay(After(name, d, Enqueue(i)))
  {
    var a := InHand(d.worker) + d.queue;
    assert OnTheWay(After(name, d, Enqueue(i))) == Rotated(a, d.admitted, i);
    forall it: Item ensures it in OnTheWay(d) <==> it in Rotated(a, d.admitted, i) {
      RotateSame(a, d.admitted, i, it);
    }
  }

  lemma StepKeepsWay(name: Naming, d: Disk, s: Step)
    requires Enabled(d, s) && WayOk(OnTheWay(d), d.index, d.inflight, d.max)
    requires FlightOk(OnTheWay(d), d.worker, d.inflight)
    ensures var t := After(name, d, s); WayOk(OnTheWay(t), t.index, t.inflight, t.max)
  {
    var t := After(name, d, s);
    var way := OnTheWay(d);
    if s.Admit? {
      AdmitKeepsWay(name, d, s);
    } else if s.Enqueue? {
      EnqueueWay(name, d, s.i);
      RotateDistinct(InHand(d.worker) + d.queue, d.admitted, s.i);
    } else {
      StepIndex(name, d, s);
      StepWay(name, d, s);
      WayKept(way, OnTheWay(t), d, t);
    }
  }

  lemma AdmitKeepsWay(name: Naming, d: Disk, s: Step)
    requires Enabled(d, s) && s.Admit? && WayOk(OnTheWay(d), d.index, d.inflight, d.max)
    ensures var t := After(name, d, s); WayOk(OnTheWay(t), t.index, t.inflight, t.max)
  {
    FindAbsent(d.index, s.item.key);
    assert OnTheWay(After(name, d, s)) == OnTheWay(d) + [s.item];
  }

  lemma WayKept(way: seq<Item>, left: seq<Item>, d: Disk, t: Disk)
    requires WayOk(way, d.index, d.inflight, d.max) && FlightOk(way, d.worker, d.inflight) && t.max == d.max
    requires left == way || (way != [] && left == way[1..])
    requires forall e | e in t.index :: e in d.index || (way != [] && left == way[1..] && e.key == way[0].key)
    requires t.inflight == d.inflight || (d.worker.Ending? && t.inflight == d.inflight - {d.worker.key})
    ensures WayOk(left, t.index, t.inflight, t.max)
  {
    assert forall it | it in left :: it in way;
    assert left != way ==> forall it | it in left :: it.key != way[0].key;
  }

  lemma StepKeepsFlight(name: Naming, d: Disk, s: Step)
    requires Enabled(d, s) && WayOk(OnTheWay(d), d.index, d.inflight, d.max)
    requires FlightOk(OnTheWay(d), d.worker, d.inflight)
    ensures var t := After(name, d, s); FlightOk(OnTheWay(t), t.worker, t.inflight)
  {
    if s.Admit? {
      AdmitKeepsFlight(name, d, s);
    } else if s.Enqueue? {
      EnqueueKeepsFlight(name, d, s.i);
    } else {
      var t := After(name, d, s);
      FlightMoves(name, d, s, t);
      FlightKept(OnTheWay(d), OnTheWay(t), d, t);
    }
  }

  lemma FlightMoves(name: Naming, d: Disk, s: Step, t: Disk)
    requires Enabled(d, s) && !s.Admit? && !s.Enqueue? && t == After(name, d, s)
    ensures FlightMove(OnTheWay(d), OnTheWay(t), d, t)
  {
    StepWay(name, d, s);
  }

  /** How items on the way, the flight and the writer move together in such a step. */
  predicate FlightMove(way: seq<Item>, left: seq<Item>, d: Disk, t: Disk) {
    || (left == way && t.inflight == d.inflight && (d.worker.Ending? || t.worker.Ending? ==> t.worker == d.worker))
    || (left == way && d.worker.Ending? && t.worker == Idle && t.inflight == d.inflight - {d.worker.key})
    || (way != [] && left == way[1..] && !d.worker.Ending? && t.worker == Ending(way[0].key) && t.inflight == d.inflight)
  }

  lemma AdmitKeepsFlight(name: Naming, d: Disk, s: Step)
    requires Enabled(d, s) && s.Admit? && FlightOk(OnTheWay(d), d.worker, d.inflight)
    ensures var t := After(name, d, s); FlightOk(OnTheWay(t), t.worker, t.inflight)
  {
    var t, way := After(name, d, s), OnTheWay(d);
    assert OnTheWay(t) == way + [s.item];
    forall k | k in t.inflight ensures (exists it | it in OnTheWay(t) :: it.key == k) || t.worker == Ending(k) {
      if k == s.item.key {
        assert s.item in OnTheWay(t);
      } else if it :| it in way && it.key == k {
        assert it in OnTheWay(t);
      }
    }
  }

  lemma EnqueueKeepsFlight(name: Naming, d: Disk, i: nat)
    requires i < |d.admitted| && FlightOk(OnTheWay(d), d.worker, d.inflight)
    ensures var t := After(name, d, Enqueue(i)); FlightOk(OnTheWay(t), t.worker, t.inflight)
  {
    EnqueueWay(name, d, i);
  }

  lemma FlightKept(way: seq<Item>, left: seq<Item>, d: Disk, t: Disk)
    requires WayOk(way, d.index, d.inflight, d.max) && FlightOk(way, d.worker, d.inflight)
    requires FlightMove(way, left, d, t)
    ensures FlightOk(left, t.worker, t.inflight)
  {
    if left != way {
      assert way == [way[0]] + left;
    }
  }

  lemma DistinctWithout(index: seq<Entry>, i: nat)
    requires i < |index| && DistinctEntries(index)
    ensures DistinctEntries(index[..i] + index[i + 1..])
    ensures Absent(index[..i] + index[i + 1..], index[i].key)
  {
    var t := index[..i] + index[i + 1..];
    assert forall j | 0 <= j < |t| :: t[j] == index[if j < i then j else j + 1];
  }

  lemma DistinctAppend(index: seq<Entry>, e: Entry)
    requires DistinctEntries(index) && Absent(index, e.key)
    ensures DistinctEntries(index + [e]) && Sum(index + [e]) == Sum(index) + e.len
  {
    assert (index + [e])[..|index|] == index;
    assert forall i | 0 <= i < |index| :: index[i] in index;
  }

  lemma DistinctParts(a: seq<Entry>, b: seq<Entry>)
    requires DistinctEntries(a + b)
    ensures DistinctEntries(b)
    ensures forall e | e in a :: Absent(b, e.key)
  {
    var s := a + b;
    assert forall i | 0 <= i < |a| :: s[i] == a[i];
    assert forall i | 0 <= i < |b| :: s[|a| + i] == b[i];
  }

  /** The entries from i onwards add up to more than the cap. */
  predicate Over(max: nat, index: seq<Entry>, i: nat) {
    i <= |index| && Sum(index[i..]) > max
  }

  /** The trim drops exactly the first n entries: each while the entries from it onwards
      added up to more than the cap, and no more than that takes. */
  predicate CutAt(max: nat, index: seq<Entry>, n: nat) {
    && n <= |index| && (index != [] ==> n < |index|)
    && (forall i: nat | i < n :: Over(max, index, i))
    && (!Over(max, index, n) || n + 1 == |index|)
  }

  lemma OverTail(max: nat, index: seq<Entry>, i: nat)
    requires index != []
    ensures Over(max, index[1..], i) <==> Over(max, index, i + 1)
  {
    if i < |index| {
      assert index[i + 1..] == index[1..][i..];
    }
  }

  lemma CutOneMore(max: nat, index: seq<Entry>, n: nat)
    requires |index| > 1 && Over(max, index, 0) && CutAt(max, index[1..], n)
    ensures CutAt(max, index, n + 1)
  {
    OverTail(max, index, n);
    forall i: nat | i < n + 1 ensures Over(max, index, i) {
      if i > 0 {
        OverTail(max, index, i - 1);
      }
    }
  }

  /** The first n entries are dropped and the rest is left. */
  predicate Drops(max: nat, index: seq<Entry>, used: int, n: nat) {
    n <= |index| && Trimmed(max, index, used) == index[..n] && Trim(max, index, used).0 == index[n..]
  }

  lemma DropsOneMore(max: nat, index: seq<Entry>, used: int, n: nat)
    requires used > max && |index| > 1 && Drops(max, index[1..], used - index[0].len, n)
    ensures Drops(max, index, used, n + 1)
  {
    assert index[1..][n..] == index[n + 1..];
    assert [index[0]] + index[1..][..n] == index[..n + 1];
  }

  lemma {:induction false} TrimCuts(max: nat, index: seq<Entry>, used: int) returns (n: nat)
    requires used == Sum(index)
    ensures CutAt(max, index, n) && Drops(max, index, used, n)
    decreases |index|
  {
    assert Over(max, index, 0) <==> used > max by {
      assert index[0..] == index;
    }
    if used > max && |index| > 1 {
      SumTail(index);
      n := TrimCuts(max, index[1..], used - index[0].len);
      CutOneMore(max, index, n);
      DropsOneMore(max, index, used, n);
      n := n + 1;
    } else {
      n := 0;
      CutNone(max, index, used);
    }
  }

  lemma CutNone(max: nat, index: seq<Entry>, used: int)
    requires used <= max || |index| <= 1
    requires Over(max, index, 0) <==> used > max
    requires used == Sum(index)
    ensures CutAt(max, index, 0) && Drops(max, index, used, 0)
  {
  }

  /** There is only one such place to cut. */
  lemma CutIsUnique(max: nat, index: seq<Entry>, n: nat, m: nat)
    requires CutAt(max, index, n) && CutAt(max, index, m)
    ensures n == m
  {
  }

  /** What a write leaves in the index: every key once, an exact total, the new page as the
      newest, and a total within the cap when that page is. */
  predicate WellTrimmed(max: nat, e: Entry, kept: seq<Entry>, used: int) {
    && DistinctEntries(kept) && used == Sum(kept)
    && kept != [] && kept[|kept| - 1] == e
    && (e.len <= max ==> used <= max)
  }

  lemma TrimStops(max: nat, e: Entry, index: seq<Entry>, used: int)
    requires index != [] && index[|index| - 1] == e && DistinctEntries(index) && used == Sum(index)
    requires used <= max || |index| <= 1
    ensures WellTrimmed(max, e, index, used)
  {
    if |index| == 1 {
      assert index[..0] == [];
    }
  }

  /** The trim keeps the accounts exact and the newest page in place. */
  lemma {:induction false} TrimEnds(max: nat, e: Entry, index: seq<Entry>, used: int)
    requires index != [] && index[|index| - 1] == e && DistinctEntries(index) && used == Sum(index)
    ensures var r := Trim(max, index, used); WellTrimmed(max, e, r.0, r.1)
    decreases |index|
  {
    if used > max && |index| > 1 {
      var tail := index[1..];
      SumTail(index);
      assert forall i | 0 <= i < |tail| :: tail[i] == index[i + 1];
      TrimEnds(max, e, tail, used - index[0].len);
    } else {
      TrimStops(max, e, index, used);
    }
  }

  lemma IndexKeepsAccounts(max: nat, index: seq<Entry>, e: Entry, all: seq<Entry>)
    requires DistinctEntries(index) && Absent(index, e.key) && all == index + [e]
    ensures var r := Trim(max, all, Sum(index) + e.len); WellTrimmed(max, e, r.0, r.1)
  {
    DistinctAppend(index, e);
    TrimEnds(max, e, all, Sum(index) + e.len);
  }

  /** The index section of a write, on the whole state. */
  lemma IndexStepAccounts(name: Naming, d: Disk)
    requires d.worker.Renamed? && Absent(d.index, d.worker.item.key) && Accounted(d)
    ensures var t, it := After(name, d, Index), d.worker.item;
            WellTrimmed(d.max, Entry(it.key, |it.data|), t.index, t.used)
  {
    var it := d.worker.item;
    FindAbsent(d.index, it.key);
    IndexKeepsAccounts(d.max, d.index, Entry(it.key, |it.data|), Listed(d.index, it));
  }

  /** From d to t the first n of `all` and their files are gone, and the rest is indexed. */
  predicate Leaves(name: Naming, d: Disk, t: Disk, all: seq<Entry>, n: nat) {
    n <= |all| && t.index == all[n..] && t.files == d.files - Names(name, all[..n])
  }

  /** Exactly which pages and files a write pushes out. */
  lemma IndexStepCuts(name: Naming, d: Disk) returns (n: nat)
    requires d.worker.Renamed? && Absent(d.index, d.worker.item.key) && Accounted(d)
    ensures
      var t, all := After(name, d, Index), d.index + [Entry(d.worker.item.key, |d.worker.item.data|)];
      CutAt(d.max, all, n) && Leaves(name, d, t, all, n)
  {
    var e := Entry(d.worker.item.key, |d.worker.item.data|);
    DistinctAppend(d.index, e);
    var all := d.index + [e];
    n := TrimCuts(d.max, all, d.used + e.len);
    IndexStepIs(name, d, all);
  }

  lemma IndexStepIs(name: Naming, d: Disk, all: seq<Entry>)
    requires d.worker.Renamed? && Absent(d.index, d.worker.item.key)
    requires all == d.index + [Entry(d.worker.item.key, |d.worker.item.data|)]
    ensures
      var t, used := After(name, d, Index), d.used + |d.worker.item.data|;
      t.index == Trim(d.max, all, used).0 && t.files == d.files - Names(name, Trimmed(d.max, all, used))
  {
    FindAbsent(d.index, d.worker.item.key);
  }

  /** So a page that fits below the cap pushes nothing out. */
  lemma FittingWriteKeepsAll(name: Naming, d: Disk)
    requires d.worker.Renamed? && Absent(d.index, d.worker.item.key) && Accounted(d)
    requires d.used + |d.worker.item.data| <= d.max
    ensures
      var t, it := After(name, d, Index), d.worker.item;
      t.index == d.index + [Entry(it.key, |it.data|)] && t.files == d.files
  {
    var n := IndexStepCuts(name, d);
    FittingLeavesAll(name, d, After(name, d, Index), Entry(d.worker.item.key, |d.worker.item.data|), n);
  }

  lemma FittingLeavesAll(name: Naming, d: Disk, t: Disk, e: Entry, n: nat)
    requires Accounted(d) && Absent(d.index, e.key) && d.used + e.len <= d.max
    requires CutAt(d.max, d.index + [e], n) && Leaves(name, d, t, d.index + [e], n)
    ensures t.index == d.index + [e] && t.files == d.files
  {
    DistinctAppend(d.index, e);
    NothingOver(d.max, d.index + [e], n);
    assert d.files - {} == d.files;
  }

  lemma NothingOver(max: nat, index: seq<Entry>, n: nat)
    requires Sum(index) <= max && CutAt(max, index, n)
    ensures n == 0 && index[n..] == index && index[..n] == []
  {
    assert index[0..] == index;
    assert !Over(max, index, 0);
  }

  lemma StepKeepsAccounts(name: Naming, d: Disk, s: Step)
    requires Enabled(d, s) && WayOk(OnTheWay(d), d.index, d.inflight, d.max) && Accounted(d)
    ensures Accounted(After(name, d, s))
    ensures d.used <= d.max || s.Index? ==> After(name, d, s).used <= d.max
  {
    if s.Index? {
      assert d.worker.item == OnTheWay(d)[0];
      IndexStepAccounts(name, d);
    } else if s.Pop? {
      PopStepAccounts(name, d, s.key);
    } else if s.Touch? {
      TouchStepAccounts(name, d, s.key);
    } else {
      OtherStepAccounts(name, d, s);
    }
  }

  lemma PopStepAccounts(name: Naming, d: Disk, key: Key)
    requires Enabled(d, Pop(key)) && Accounted(d)
    ensures Accounted(After(name, d, Pop(key))) && After(name, d, Pop(key)).used <= d.used
  {
    PopAccounts(d, After(name, d, Pop(key)), Find(d.index, key));
  }

  lemma PopAccounts(d: Disk, t: Disk, i: nat)
    requires Accounted(d) && i < |d.index| && t.used == d.used - d.index[i].len
    requires t.index == d.index[..i] + d.index[i + 1..]
    ensures Accounted(t) && t.used <= d.used
  {
    SumWithout(d.index, i);
    DistinctWithout(d.index, i);
  }

  lemma TouchStepAccounts(name: Naming, d: Disk, key: Key)
    requires Enabled(d, Touch(key)) && Accounted(d)
    ensures Accounted(After(name, d, Touch(key))) && After(name, d, Touch(key)).used == d.used
  {
    TouchAccounts(d, After(name, d, Touch(key)), Find(d.index, key));
  }

  lemma TouchAccounts(d: Disk, t: Disk, i: nat)
    requires Accounted(d) && i < |d.index| && t.used == d.used
    requires t.index == d.index[..i] + d.index[i + 1..] + [d.index[i]]
    ensures Accounted(t)
  {
    SumWithout(d.index, i);
    DistinctWithout(d.index, i);
    DistinctAppend(d.index[..i] + d.index[i + 1..], d.index[i]);
  }

  lemma OtherStepAccounts(name: Naming, d: Disk, s: Step)
    requires Enabled(d, s) && !s.Index? && !s.Pop? && !s.Touch?
    ensures var t := After(name, d, s); t.index == d.index && t.used == d.used
  {
  }

  lemma StepKeepsInv(name: Naming, d: Disk, s: Step)
    requires Enabled(d, s) && Inv(d)
    ensures Inv(After(name, d, s))
  {
    StepKeepsWay(name, d, s);
    StepKeepsFlight(name, d, s);
    StepKeepsAccounts(name, d, s);
  }

  // ---------------------------------------------------------------- runs

  ghost predicate Runs(name: Naming, d: Disk, steps: seq<Step>)
    decreases |steps|
  {
    steps == [] || (Enabled(d, steps[0]) && Runs(name, After(name, d, steps[0]), steps[1..]))
  }

  ghost function End(name: Naming, d: Disk, steps: seq<Step>): Disk
    requires Runs(name, d, steps)
    decreases |steps|
  {
    if steps == [] then d else End(name, After(name, d, steps[0]), steps[1..])
  }

  /** A store opened on an empty directory. */
  function Fresh(max: nat): Disk {
    Disk(max, [], 0, {}, [], [], Idle, map[], multiset{}, map[])
  }

  lemma {:induction false} RunKeepsInv(name: Naming, d: Disk, steps: seq<Step>)
    requires Inv(d) && d.used <= d.max && Runs(name, d, steps)
    ensures var t := End(name, d, steps); Inv(t) && t.used <= t.max && t.max == d.max
    decreases |steps|
  {
    if steps != [] {
      StepKeepsInv(name, d, steps[0]);
      StepKeepsAccounts(name, d, steps[0]);
      RunKeepsInv(name, After(name, d, steps[0]), steps[1..]);
    }
  }

  /** However callers and the writer interleave, the pages indexed never add up to more than
      the cap, the running total is exact, and no key is written while it is indexed or
      while another write of it is on the way. */
  lemma CapHolds(name: Naming, max: nat, steps: seq<Step>)
    requires Runs(name, Fresh(max), steps)
    ensures var t := End(name, Fresh(max), steps);
            Inv(t) && Sum(t.index) == t.used <= max
  {
    RunKeepsInv(name, Fresh(max), steps);
  }
}
