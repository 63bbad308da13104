/** Opening the disk tier on a directory left by an earlier process: the scan of
    python/peercache/diskstore.py that rebuilds the index from the files alone. */
module DiskRestart {
  import opened Bytes
  import opened Sequences
  import opened DiskTier
  import opened DiskFiles

  /** self._index[key] = (name, length): a known key keeps its place. */
  function Assigned(index: seq<Entry>, e: Entry): seq<Entry> {
    var i := Find(index, e.key);
    if i < 0 then index + [e] else index[i := e]
  }

  /** One directory entry of the scan. */
  function ScanOne(index: seq<Entry>, used: int, n: string, bytes: seq<Byte>): (seq<Entry>, int) {
    var p := Parse(bytes);
    if IsPage(n) && p.Parsed? then (Assigned(index, Entry(p.key, p.len)), used + p.len) else (index, used)
  }

  /** The scan over the directory's names in order. */
  function Scan(files: map<string, seq<Byte>>, names: seq<string>): (seq<Entry>, int)
    requires forall n | n in names :: n in files
  {
    if names == [] then ([], 0)
    else
      var last := names[|names| - 1];
      var r := Scan(files, names[..|names| - 1]);
      ScanOne(r.0, r.1, last, files[last])
  }

  /** names lists the directory. */
  ghost predicate Lists(names: seq<string>, files: map<string, seq<Byte>>) {
    NoRepeats(names) && forall n :: n in names <==> n in files
  }

  /** e is the entry of a page whose file is among names. */
  predicate Listable(name: Naming, keys: set<Key>, d: Disk, names: seq<string>, e: Entry) {
    e.key in keys && name(e.key) in names && e.key in d.written && e.len == |d.written[e.key]|
  }

  ghost predicate ScanOk(name: Naming, keys: set<Key>, d: Disk, names: seq<string>, index: seq<Entry>, used: int) {
    && DistinctEntries(index) && used == Sum(index)
    && forall e :: e in index <==> Listable(name, keys, d, names, e)
  }

  lemma ScanStep(name: Naming, keys: set<Key>, d: Disk, names: seq<string>, n: string, index: seq<Entry>, used: int)
    requires Named(name, keys) && FilesOk(name, keys, d) && n in d.files && n !in names
    requires ScanOk(name, keys, d, names, index, used)
    ensures var r := ScanOne(index, used, n, d.files[n]); ScanOk(name, keys, d, names + [n], r.0, r.1)
  {
    if IsPage(n) {
      var k :| k in keys && n == name(k);
      assert KeyOk(name, d, k);
      FileRoundTrip(k, d.written[k]);
      ScanPage(name, keys, d, names, k, index, used);
    } else {
      forall e ensures e in index <==> Listable(name, keys, d, names + [n], e) {
        assert e.key in keys ==> name(e.key) != n;
      }
    }
  }

  lemma ScanPage(name: Naming, keys: set<Key>, d: Disk, names: seq<string>, k: Key, index: seq<Entry>, used: int)
    requires Named(name, keys) && k in keys && k in d.written && name(k) !in names
    requires ScanOk(name, keys, d, names, index, used)
    ensures var e := Entry(k, |d.written[k]|);
            Assigned(index, e) == index + [e] && ScanOk(name, keys, d, names + [name(k)], index + [e], used + e.len)
  {
    var e := Entry(k, |d.written[k]|);
    FindAbsent(index, k);
    DistinctAppend(index, e);
    forall x ensures x in index + [e] <==> Listable(name, keys, d, names + [name(k)], x) {
      OneMoreListed(name, keys, d, names, k, x);
    }
  }

  lemma OneMoreListed(name: Naming, keys: set<Key>, d: Disk, names: seq<string>, k: Key, x: Entry)
    requires Named(name, keys) && k in keys && k in d.written
    ensures Listable(name, keys, d, names + [name(k)], x) <==>
            Listable(name, keys, d, names, x) || x == Entry(k, |d.written[k]|)
  {
    assert x.key in keys && name(x.key) == name(k) ==> x.key == k;
  }

  lemma {:induction false} ScanFinds(name: Naming, keys: set<Key>, d: Disk, names: seq<string>)
    requires Named(name, keys) && FilesOk(name, keys, d) && NoRepeats(names)
    requires forall n | n in names :: n in d.files
    ensures var r := Scan(d.files, names); ScanOk(name, keys, d, names, r.0, r.1)
  {
    if names != [] {
      var front, n := names[..|names| - 1], names[|names| - 1];
      ScanFinds(name, keys, d, front);
      var r := Scan(d.files, front);
      ScanStep(name, keys, d, front, n, r.0, r.1);
      assert names == front + [n];
    }
  }

  /** The page files among the names, in order. */
  function PageNames(names: seq<string>): seq<string> {
    if names == [] then []
    else PageNames(names[..|names| - 1]) + if IsPage(names[|names| - 1]) then [names[|names| - 1]] else []
  }

  function NamesOf(name: Naming, index: seq<Entry>): seq<string> {
    seq(|index|, i requires 0 <= i < |index| => name(index[i].key))
  }

  lemma PageIsAppended(name: Naming, keys: set<Key>, d: Disk, names: seq<string>, n: string, index: seq<Entry>, used: int)
    requires Named(name, keys) && FilesOk(name, keys, d) && n in d.files && n !in names && IsPage(n)
    requires ScanOk(name, keys, d, names, index, used)
    ensures NamesOf(name, ScanOne(index, used, n, d.files[n]).0) == NamesOf(name, index) + [n]
  {
    var k :| k in keys && n == name(k);
    assert KeyOk(name, d, k);
    FileRoundTrip(k, d.written[k]);
    ScanPage(name, keys, d, names, k, index, used);
  }

  /** The scan lists the pages in the order of the directory listing. */
  lemma {:induction false} ScanOrder(name: Naming, keys: set<Key>, d: Disk, names: seq<string>)
    requires Named(name, keys) && FilesOk(name, keys, d) && NoRepeats(names)
    requires forall n | n in names :: n in d.files
    ensures NamesOf(name, Scan(d.files, names).0) == PageNames(names)
  {
    if names != [] {
      var front, n := names[..|names| - 1], names[|names| - 1];
      var r := Scan(d.files, front);
      ScanOrder(name, keys, d, front);
      ScanFinds(name, keys, d, front);
      if IsPage(n) {
        PageIsAppended(name, keys, d, front, n, r.0, r.1);
      }
    }
  }

  /** The store a new process opens on the same directory: only the files are left. */
  function Restarted(d: Disk, names: seq<string>): Disk
    requires forall n | n in names :: n in d.files
  {
    var r := Scan(d.files, names);
    Disk(d.max, r.0, r.1, {}, [], [], Idle, d.files, multiset{}, d.written)
  }

  /** Killed at any instant of any run without an overlap, the store comes back with every
      page that was indexed, with its length; beyond those only the page being written,
      or pages being removed, can come back. */
  lemma RestartFinds(name: Naming, keys: set<Key>, d: Disk, names: seq<string>, e: Entry)
    requires Named(name, keys) && FilesOk(name, keys, d) && Lists(names, d.files)
    ensures e in d.index ==> e in Restarted(d, names).index
    ensures e in Restarted(d, names).index ==> e in d.index || Renaming(d, e.key) || name(e.key) in d.unlinking
  {
    ScanFinds(name, keys, d, names);
    assert Listable(name, keys, d, names, e) ==> KeyOk(name, d, e.key);
    assert e in d.index ==> KeyOk(name, d, e.key);
  }

  /** The reopened store satisfies every invariant again, so runs may go on from it. */
  lemma RestartKeeps(name: Naming, keys: set<Key>, d: Disk, names: seq<string>)
    requires Named(name, keys) && FilesOk(name, keys, d) && Lists(names, d.files)
    ensures Inv(Restarted(d, names)) && FilesOk(name, keys, Restarted(d, names))
  {
    ScanFinds(name, keys, d, names);
    var t := Restarted(d, names);
    forall k | k in keys ensures KeyOk(name, t, k) {
      assert KeyOk(name, d, k);
      assert Laid(name, d, k) ==> Laid(name, t, k);
      if Laid(name, d, k) {
        assert Entry(k, |d.written[k]|) in t.index;
      }
    }
  }

  /** Equal contents, equal totals. */
  lemma {:induction false} SumSame(a: seq<Entry>, b: seq<Entry>)
    requires DistinctEntries(a) && DistinctEntries(b)
    requires forall e | e in a :: e in b
    requires forall i | 0 <= i < |b| :: b[i] in a
    ensures Sum(a) == Sum(b)
    decreases |a|
  {
    if a != [] {
      var front, e := a[..|a| - 1], a[|a| - 1];
      assert e in a;
      var i :| 0 <= i < |b| && b[i] == e;
      var rest := b[..i] + b[i + 1..];
      SumWithout(b, i);
      DistinctWithout(b, i);
      SameWithout(a, front, b, rest, i);
      SumSame(front, rest);
    }
  }

  lemma SameWithout(a: seq<Entry>, front: seq<Entry>, b: seq<Entry>, rest: seq<Entry>, i: nat)
    requires i < |b| && a == front + [b[i]] && rest == b[..i] + b[i + 1..]
    requires DistinctEntries(a) && DistinctEntries(b)
    requires forall e | e in a :: e in b
    requires forall i | 0 <= i < |b| :: b[i] in a
    ensures DistinctEntries(front)
    ensures forall e | e in front :: e in rest
    ensures forall j | 0 <= j < |rest| :: rest[j] in front
  {
    assert forall j | 0 <= j < |front| :: a[j] == front[j];
    assert a[|front|] == b[i];
    forall e | e in front ensures e in rest {
      var j :| 0 <= j < |front| && front[j] == e;
      assert e == a[j] && e in a && a[j].key != a[|front|].key;
      OtherStays(b, rest, i, e);
    }
    forall j | 0 <= j < |rest| ensures rest[j] in front {
      var m := if j < i then j else j + 1;
      assert rest[j] == b[m] && b[m] in a && b[m].key != b[i].key;
    }
  }

  lemma OtherStays(b: seq<Entry>, rest: seq<Entry>, i: nat, e: Entry)
    requires i < |b| && rest == b[..i] + b[i + 1..] && e in b && e != b[i]
    ensures e in rest
  {
    assert b == b[..i] + [b[i]] + b[i + 1..];
  }

  /** Between writes and removals, a restart loses nothing and adds nothing: the same pages
      with the same lengths, the same total, and the same bytes under each key. */
  lemma QuietRestart(name: Naming, keys: set<Key>, d: Disk, names: seq<string>)
    requires Inv(d) && Named(name, keys) && FilesOk(name, keys, d) && Lists(names, d.files)
    requires !d.worker.Renamed? && d.unlinking == multiset{}
    ensures var t := Restarted(d, names);
            && (forall e :: e in t.index <==> e in d.index) && t.used == d.used
            && forall e | e in t.index :: name(e.key) in t.files && ReadPage(t.files[name(e.key)], e.len) == Page(d.written[e.key])
  {
    var t := Restarted(d, names);
    forall e: Entry ensures e in t.index <==> e in d.index {
      RestartFinds(name, keys, d, names, e);
    }
    RestartKeeps(name, keys, d, names);
    SumSame(t.index, d.index);
    forall e | e in t.index
      ensures name(e.key) in t.files && e.key in d.written && ReadPage(t.files[name(e.key)], e.len) == Page(d.written[e.key])
    {
      IndexedReadsBack(name, keys, t, e);
    }
  }

  lemma IndexedReadsBack(name: Naming, keys: set<Key>, d: Disk, e: Entry)
    requires Named(name, keys) && FilesOk(name, keys, d) && e in d.index
    ensures name(e.key) in d.files && e.key in d.written && ReadPage(d.files[name(e.key)], e.len) == Page(d.written[e.key])
  {
    assert KeyOk(name, d, e.key);
    FileRoundTrip(e.key, d.written[e.key]);
  }

  /** Killed at any instant of any run without an overlap and reopened, every page the scan
      indexes reads back whole, as the page last laid down for its key; and that page was
      handed to some put. */
  lemma RestartGivesLastLaid(name: Naming, keys: set<Key>, puts: set<Item>, max: nat, steps: seq<Step>, names: seq<string>, e: Entry)
    requires Named(name, keys) && Runs(name, Fresh(max), steps) && RunsApart(name, keys, Fresh(max), steps)
    requires forall s | s in steps && s.Admit? :: s.item in puts
    requires Lists(names, End(name, Fresh(max), steps).files) && e in Restarted(End(name, Fresh(max), steps), names).index
    ensures var d := End(name, Fresh(max), steps);
            && name(e.key) in d.files && e.key in d.written && |d.written[e.key]| == e.len
            && ReadPage(d.files[name(e.key)], e.len) == Page(d.written[e.key])
            && Item(e.key, d.written[e.key]) in puts
  {
    RunKeepsFiles(name, keys, Fresh(max), steps);
    RunFromPuts(name, puts, Fresh(max), steps);
    var d := End(name, Fresh(max), steps);
    RestartKeeps(name, keys, d, names);
    assert KeyOk(name, Restarted(d, names), e.key);
    FileRoundTrip(e.key, d.written[e.key]);
  }
}
