/** The files of the disk tier: what they hold at every instant, what get reads from them
    and what a restart finds by scanning them. */
module DiskFiles {
  import opened Bytes
  import opened DiskTier

  // ---------------------------------------------------------------- one file

  datatype Parsed = Unreadable | Parsed(key: Key, len: nat)

  /** What the scan takes from a file; a short read yields a short key, as f.read does. */
  function Parse(bytes: seq<Byte>): Parsed {
    if |bytes| < 4 then Unreadable
    else
      var klen := FromBigEndian(bytes[..4]);
      if |bytes| - 4 - klen >= 0 then Parsed(bytes[4..4 + klen], |bytes| - 4 - klen) else Unreadable
  }

  datatype Got = Missing | Page(data: seq<Byte>)

  /** get's read: skip the header and the key, then at most len bytes. */
  function ReadPage(bytes: seq<Byte>, len: nat): Got {
    if |bytes| < 4 then Missing
    else
      var from := 4 + FromBigEndian(bytes[..4]);
      if from >= |bytes| then Page([])
      else if from + len <= |bytes| then Page(bytes[from..from + len])
      else Page(bytes[from..])
  }

  lemma FileHeader(key: Key, data: seq<Byte>)
    requires |key| < Pow256(4)
    ensures var f := FileBytes(key, data);
            |f| == 4 + |key| + |data| && FromBigEndian(f[..4]) == |key| && f[4..4 + |key|] == key && f[4 + |key|..] == data
  {
    BigEndianRoundTrip(|key|, 4);
    assert FileBytes(key, data)[..4] == BigEndian(|key|, 4);
  }

  /** A file gives back its key and length to the scan, and its page to get. */
  lemma FileRoundTrip(key: Key, data: seq<Byte>)
    requires |key| < Pow256(4)
    ensures Parse(FileBytes(key, data)) == Parsed(key, |data|)
    ensures ReadPage(FileBytes(key, data), |data|) == Page(data)
  {
    FileHeader(key, data);
  }

  // ---------------------------------------------------------------- all files

  /** File names tell these keys apart (they are a hash of the key), end in ".bin", and the
      key lengths fit the 4-byte header. */
  predicate Named(name: Naming, keys: set<Key>) {
    && (forall k, l | k in keys && l in keys :: name(k) == name(l) ==> k == l)
    && (forall k | k in keys :: IsPage(name(k)) && |k| < Pow256(4))
  }

  /** The file of k is there and is exactly the last one laid down for k. */
  predicate Laid(name: Naming, d: Disk, k: Key) {
    && k in d.written && name(k) in d.files
    && d.files[name(k)] == FileBytes(k, d.written[k])
  }

  predicate Renaming(d: Disk, k: Key) {
    d.worker.Renamed? && d.worker.item.key == k
  }

  /** An indexed page has its file, of the indexed length, and no pending removal; so has a
      page between its rename and the index; and a file is never there for another reason
      than these or a removal that is under way. */
  predicate KeyOk(name: Naming, d: Disk, k: Key) {
    && (forall e | e in d.index && e.key == k :: Laid(name, d, k) && e.len == |d.written[k]| && name(k) !in d.unlinking)
    && (Renaming(d, k) ==> Laid(name, d, k) && d.written[k] == d.worker.item.data && name(k) !in d.unlinking)
    && (name(k) in d.files ==> Laid(name, d, k) && (!Absent(d.index, k) || Renaming(d, k) || name(k) in d.unlinking))
  }

  /** All keys and file names in play come from keys. */
  predicate Confined(name: Naming, keys: set<Key>, d: Disk) {
    && (forall e | e in d.index :: e.key in keys)
    && (forall it | it in OnTheWay(d) :: it.key in keys)
    && (forall n | n in d.files && IsPage(n) :: exists k | k in keys :: n == name(k))
  }

  predicate FilesOk(name: Naming, keys: set<Key>, d: Disk) {
    Confined(name, keys, d) && forall k | k in keys :: KeyOk(name, d, k)
  }

  /** No write of a page overlaps an earlier removal of the same page that has popped the
      index but not yet deleted the file. */
  predicate Apart(name: Naming, keys: set<Key>, d: Disk, s: Step) {
    && (s.Admit? ==> s.item.key in keys)
    && (s.WriteFile? && d.worker.Holding? ==> name(d.worker.item.key) !in d.unlinking)
  }

  lemma StepConfined(name: Naming, keys: set<Key>, d: Disk, s: Step)
    requires Enabled(d, s) && Confined(name, keys, d) && (s.Admit? ==> s.item.key in keys)
    ensures Confined(name, keys, After(name, d, s))
  {
    var t := After(name, d, s);
    if s.Admit? {
      assert OnTheWay(t) == OnTheWay(d) + [s.item];
    } else if s.Enqueue? {
      EnqueueWay(name, d, s.i);
    } else {
      StepWay(name, d, s);
      StepIndex(name, d, s);
      assert d.worker.Holding? || d.worker.Renamed? ==> OnTheWay(d)[0] == d.worker.item;
      assert OnTheWay(d) != [] ==> OnTheWay(d)[0] in OnTheWay(d);
    }
  }

  /** Steps that leave the index's entries, the files and the removals alone. */
  lemma QuietKeepsKey(name: Naming, d: Disk, t: Disk, k: Key)
    requires KeyOk(name, d, k)
    requires t.files == d.files && t.written == d.written && t.unlinking == d.unlinking
    requires forall e :: e in t.index <==> e in d.index
    requires Renaming(t, k) <==> Renaming(d, k)
    requires Renaming(t, k) ==> t.worker.item == d.worker.item
    ensures KeyOk(name, t, k)
  {
  }

  lemma WriteKeepsKey(name: Naming, keys: set<Key>, d: Disk, k: Key)
    requires d.worker.Holding? && Named(name, keys) && k in keys && d.worker.item.key in keys
    requires Absent(d.index, d.worker.item.key) && name(d.worker.item.key) !in d.unlinking
    requires KeyOk(name, d, k)
    ensures KeyOk(name, After(name, d, WriteFile), k)
  {
    var t := After(name, d, WriteFile);
    if k != d.worker.item.key {
      assert name(k) != name(d.worker.item.key);
      assert Laid(name, d, k) ==> Laid(name, t, k);
    }
  }

  /** The index after a pop: every other entry, and none of the popped key. */
  lemma PoppedIndex(name: Naming, d: Disk, key: Key, e: Entry)
    requires Find(d.index, key) >= 0 && DistinctEntries(d.index)
    ensures e in After(name, d, Pop(key)).index <==> e in d.index && e.key != key
  {
    var i := Find(d.index, key);
    DistinctWithout(d.index, i);
    assert d.index == d.index[..i] + [d.index[i]] + d.index[i + 1..];
  }

  lemma PopKeepsKey(name: Naming, keys: set<Key>, d: Disk, key: Key, k: Key)
    requires Find(d.index, key) >= 0 && Named(name, keys) && k in keys && key in keys
    requires DistinctEntries(d.index) && !Renaming(d, key) && KeyOk(name, d, k)
    ensures KeyOk(name, After(name, d, Pop(key)), k)
  {
    var t := After(name, d, Pop(key));
    forall e: Entry ensures e in t.index <==> e in d.index && e.key != key {
      PoppedIndex(name, d, key, e);
    }
    PopSide(name, d, t, key, k);
  }

  lemma PopSide(name: Naming, d: Disk, t: Disk, key: Key, k: Key)
    requires forall e :: e in t.index <==> e in d.index && e.key != key
    requires t.files == d.files && t.written == d.written && t.worker == d.worker
    requires t.unlinking == d.unlinking + multiset{name(key)}
    requires (k != key ==> name(k) != name(key)) && !Renaming(d, key) && KeyOk(name, d, k)
    ensures KeyOk(name, t, k)
  {
    assert Laid(name, d, k) ==> Laid(name, t, k);
  }

  lemma UnlinkKeepsKey(name: Naming, d: Disk, n: string, k: Key)
    requires n in d.unlinking && KeyOk(name, d, k)
    ensures KeyOk(name, After(name, d, Unlink(n)), k)
  {
    var t := After(name, d, Unlink(n));
    assert name(k) != n && Laid(name, d, k) ==> Laid(name, t, k);
  }

  lemma IndexKeepsKey(name: Naming, keys: set<Key>, d: Disk, k: Key)
    requires d.worker.Renamed? && Named(name, keys) && k in keys && d.worker.item.key in keys
    requires Absent(d.index, d.worker.item.key) && DistinctEntries(d.index)
    requires forall e | e in d.index :: e.key in keys
    requires KeyOk(name, d, k)
    ensures KeyOk(name, After(name, d, Index), k)
  {
    var it := d.worker.item;
    var all, used := Listed(d.index, it), Charged(d, it);
    FindAbsent(d.index, it.key);
    DistinctAppend(d.index, Entry(it.key, |it.data|));
    TrimSplits(d.max, all, used);
    SplitKeepsKey(name, keys, d, After(name, d, Index), Trimmed(d.max, all, used), k);
  }

  lemma SplitKeepsKey(name: Naming, keys: set<Key>, d: Disk, t: Disk, gone: seq<Entry>, k: Key)
    requires d.worker.Renamed? && Named(name, keys) && k in keys && d.worker.item.key in keys
    requires forall e | e in d.index :: e.key in keys
    requires gone + t.index == d.index + [Entry(d.worker.item.key, |d.worker.item.data|)]
    requires DistinctEntries(gone + t.index) && KeyOk(name, d, k)
    requires t.files == d.files - Names(name, gone) && t.written == d.written && t.unlinking == d.unlinking && t.worker.Ending?
    ensures KeyOk(name, t, k)
  {
    DistinctParts(gone, t.index);
    var newest := Entry(d.worker.item.key, |d.worker.item.data|);
    assert forall e | e in gone + t.index :: e in d.index || e == newest;
    assert forall e | e in d.index + [newest] :: e in gone || e in t.index;
    assert forall e | e in gone :: e in gone + t.index && e.key in keys;
    assert newest in d.index + [newest];
    if e :| e in gone && e.key == k {
      assert name(k) in Names(name, gone);
    } else {
      assert name(k) !in Names(name, gone);
      assert Laid(name, d, k) ==> Laid(name, t, k);
    }
  }

  lemma TouchKeepsKey(name: Naming, d: Disk, key: Key, k: Key)
    requires Find(d.index, key) >= 0 && KeyOk(name, d, k)
    ensures KeyOk(name, After(name, d, Touch(key)), k)
  {
    var i := Find(d.index, key);
    assert d.index == d.index[..i] + [d.index[i]] + d.index[i + 1..];
    QuietKeepsKey(name, d, After(name, d, Touch(key)), k);
  }

  lemma OtherKeepsKey(name: Naming, d: Disk, n: string, bytes: seq<Byte>, k: Key)
    requires !IsPage(n) && IsPage(name(k)) && KeyOk(name, d, k)
    ensures KeyOk(name, After(name, d, OtherFile(n, bytes)), k)
  {
    assert Laid(name, d, k) ==> Laid(name, After(name, d, OtherFile(n, bytes)), k);
  }

  lemma StepKeepsKey(name: Naming, keys: set<Key>, d: Disk, s: Step, k: Key)
    requires Enabled(d, s) && WayOk(OnTheWay(d), d.index, d.inflight, d.max) && DistinctEntries(d.index)
    requires Named(name, keys) && Confined(name, keys, d) && Apart(name, keys, d, s)
    requires k in keys && KeyOk(name, d, k)
    ensures KeyOk(name, After(name, d, s), k)
  {
    assert d.worker.Holding? || d.worker.Renamed? ==> d.worker.item == OnTheWay(d)[0] && d.worker.item in OnTheWay(d);
    match s
    case WriteFile => WriteKeepsKey(name, keys, d, k);
    case Index => IndexKeepsKey(name, keys, d, k);
    case Pop(key) =>
      assert d.index[Find(d.index, key)] in d.index;
      PopKeepsKey(name, keys, d, key, k);
    case Unlink(n) => UnlinkKeepsKey(name, d, n, k);
    case Touch(key) => TouchKeepsKey(name, d, key, k);
    case OtherFile(n, bytes) => OtherKeepsKey(name, d, n, bytes, k);
    case _ => QuietKeepsKey(name, d, After(name, d, s), k);
  }

  lemma StepKeepsFiles(name: Naming, keys: set<Key>, d: Disk, s: Step)
    requires Enabled(d, s) && Inv(d) && Named(name, keys) && FilesOk(name, keys, d) && Apart(name, keys, d, s)
    ensures FilesOk(name, keys, After(name, d, s))
  {
    StepConfined(name, keys, d, s);
    forall k | k in keys ensures KeyOk(name, After(name, d, s), k) {
      StepKeepsKey(name, keys, d, s, k);
    }
  }

  // ---------------------------------------------------------------- runs

  ghost predicate RunsApart(name: Naming, keys: set<Key>, d: Disk, steps: seq<Step>)
    requires Runs(name, d, steps)
    decreases |steps|
  {
    steps == [] || (Apart(name, keys, d, steps[0]) && RunsApart(name, keys, After(name, d, steps[0]), steps[1..]))
  }

  lemma {:induction false} RunKeepsFiles(name: Naming, keys: set<Key>, d: Disk, steps: seq<Step>)
    requires Inv(d) && Named(name, keys) && FilesOk(name, keys, d)
    requires Runs(name, d, steps) && RunsApart(name, keys, d, steps)
    ensures Inv(End(name, d, steps)) && FilesOk(name, keys, End(name, d, steps))
    decreases |steps|
  {
    if steps != [] {
      StepKeepsInv(name, d, steps[0]);
      StepKeepsFiles(name, keys, d, steps[0]);
      RunKeepsFiles(name, keys, After(name, d, steps[0]), steps[1..]);
    }
  }

  /** Everything on the way and everything laid down was handed to some put. */
  predicate FromPuts(puts: set<Item>, d: Disk) {
    && (forall it | it in OnTheWay(d) :: it in puts)
    && (forall k | k in d.written :: Item(k, d.written[k]) in puts)
  }

  lemma StepFromPuts(name: Naming, puts: set<Item>, d: Disk, s: Step)
    requires Enabled(d, s) && FromPuts(puts, d) && (s.Admit? ==> s.item in puts)
    ensures FromPuts(puts, After(name, d, s))
  {
    if s.Admit? {
      assert OnTheWay(After(name, d, s)) == OnTheWay(d) + [s.item];
    } else if s.Enqueue? {
      EnqueueWay(name, d, s.i);
    } else {
      StepWay(name, d, s);
      assert d.worker.Holding? ==> OnTheWay(d)[0] == d.worker.item;
    }
  }

  lemma {:induction false} RunFromPuts(name: Naming, puts: set<Item>, d: Disk, steps: seq<Step>)
    requires Runs(name, d, steps) && FromPuts(puts, d) && forall s | s in steps && s.Admit? :: s.item in puts
    ensures FromPuts(puts, End(name, d, steps))
    decreases |steps|
  {
    if steps != [] {
      StepFromPuts(name, puts, d, steps[0]);
      RunFromPuts(name, puts, After(name, d, steps[0]), steps[1..]);
    }
  }

  /** The data of the latest accepted put of each key, steps coming after earlier puts. */
  ghost function Latest(earlier: map<Key, seq<Byte>>, steps: seq<Step>): map<Key, seq<Byte>>
    decreases |steps|
  {
    if steps == [] then earlier
    else Latest(if steps[0].Admit? then earlier[steps[0].item.key := steps[0].item.data] else earlier, steps[1..])
  }

  /** Step i puts data under k, and no later step puts anything under k. */
  predicate LastPut(steps: seq<Step>, k: Key, data: seq<Byte>, i: nat) {
    && i < |steps| && steps[i] == Admit(Item(k, data))
    && forall j | i < j < |steps| && steps[j].Admit? :: steps[j].item.key != k
  }

  lemma {:induction false} LatestIsLast(earlier: map<Key, seq<Byte>>, steps: seq<Step>, k: Key)
    requires k in Latest(earlier, steps)
    ensures var data := Latest(earlier, steps)[k];
            || (exists i: nat :: LastPut(steps, k, data, i))
            || (k in earlier && data == earlier[k] && forall j | 0 <= j < |steps| && steps[j].Admit? :: steps[j].item.key != k)
    decreases |steps|
  {
    if steps != [] {
      var rest := steps[1..];
      var now := if steps[0].Admit? then earlier[steps[0].item.key := steps[0].item.data] else earlier;
      LatestIsLast(now, rest, k);
      var data := Latest(earlier, steps)[k];
      assert forall j | 0 < j < |steps| :: steps[j] == rest[j - 1];
      if i: nat :| LastPut(rest, k, data, i) {
        assert LastPut(steps, k, data, i + 1);
      } else if steps[0].Admit? && steps[0].item.key == k {
        assert LastPut(steps, k, data, 0);
      }
    }
  }

  /** What is on the way is the latest put of its key, and an indexed page was laid down with
      the data of the latest put of its key. */
  predicate LatestOk(puts: map<Key, seq<Byte>>, d: Disk) {
    && (forall it | it in OnTheWay(d) :: it.key in puts && puts[it.key] == it.data)
    && (forall e | e in d.index :: e.key in puts && e.key in d.written && d.written[e.key] == puts[e.key])
    && (d.worker.Renamed? ==> d.worker.item.key in d.written && d.written[d.worker.item.key] == d.worker.item.data)
  }

  lemma AdmitLatest(name: Naming, puts: map<Key, seq<Byte>>, d: Disk, item: Item)
    requires Enabled(d, Admit(item)) && WayOk(OnTheWay(d), d.index, d.inflight, d.max) && LatestOk(puts, d)
    ensures LatestOk(puts[item.key := item.data], After(name, d, Admit(item)))
  {
    FindAbsent(d.index, item.key);
    assert OnTheWay(After(name, d, Admit(item))) == OnTheWay(d) + [item];
    assert forall it | it in OnTheWay(d) :: it.key != item.key;
  }

  /** Steps that put nothing new on the way. */
  lemma LatestKept(puts: map<Key, seq<Byte>>, d: Disk, t: Disk)
    requires LatestOk(puts, d)
    requires forall it | it in OnTheWay(t) :: it in OnTheWay(d)
    requires forall e | e in t.index :: e in d.index || (d.worker.Renamed? && e.key == d.worker.item.key)
    requires d.worker.Renamed? ==> d.worker.item in OnTheWay(d)
    requires
      || (t.written == d.written && (t.worker.Renamed? ==> t.worker == d.worker))
      || (d.worker.Holding? && t.worker == Renamed(d.worker.item) && Absent(d.index, d.worker.item.key) && t.index == d.index
          && t.written == d.written[d.worker.item.key := d.worker.item.data])
    ensures LatestOk(puts, t)
  {
  }

  lemma StepLatest(name: Naming, puts: map<Key, seq<Byte>>, d: Disk, s: Step)
    requires Enabled(d, s) && WayOk(OnTheWay(d), d.index, d.inflight, d.max) && LatestOk(puts, d)
    ensures LatestOk(if s.Admit? then puts[s.item.key := s.item.data] else puts, After(name, d, s))
  {
    if s.Admit? {
      AdmitLatest(name, puts, d, s.item);
    } else {
      var way := OnTheWay(d);
      assert d.worker.Holding? || d.worker.Renamed? ==> way[0] == d.worker.item && way[0] in way;
      StepIndex(name, d, s);
      if s.Enqueue? {
        EnqueueWay(name, d, s.i);
      } else {
        StepWay(name, d, s);
      }
      LatestKept(puts, d, After(name, d, s));
    }
  }

  lemma {:induction false} RunLatest(name: Naming, puts: map<Key, seq<Byte>>, d: Disk, steps: seq<Step>)
    requires Inv(d) && Runs(name, d, steps) && LatestOk(puts, d)
    ensures LatestOk(Latest(puts, steps), End(name, d, steps))
    decreases |steps|
  {
    if steps != [] {
      StepKeepsInv(name, d, steps[0]);
      StepLatest(name, puts, d, steps[0]);
      RunLatest(name, if steps[0].Admit? then puts[steps[0].item.key := steps[0].item.data] else puts,
                After(name, d, steps[0]), steps[1..]);
    }
  }

  /** After any run without an overlap, get of an indexed key gives exactly the bytes of the
      last accepted put of that key. */
  lemma GetGivesLastPut(name: Naming, keys: set<Key>, max: nat, steps: seq<Step>, e: Entry)
    requires Named(name, keys) && Runs(name, Fresh(max), steps) && RunsApart(name, keys, Fresh(max), steps)
    requires e in End(name, Fresh(max), steps).index
    ensures var t := End(name, Fresh(max), steps);
            && name(e.key) in t.files
            && var got := ReadPage(t.files[name(e.key)], e.len);
               got.Page? && exists i: nat :: LastPut(steps, e.key, got.data, i)
  {
    var t := End(name, Fresh(max), steps);
    RunKeepsFiles(name, keys, Fresh(max), steps);
    assert KeyOk(name, t, e.key);
    FileRoundTrip(e.key, t.written[e.key]);
    RunLatest(name, map[], Fresh(max), steps);
    LatestIsLast(map[], steps, e.key);
  }

  // ---------------------------------------------------------------- the overlap

  /** Whenever a page is renamed into place while an earlier removal of it is still due, the
      index section and then that removal leave the key indexed with no file. */
  lemma OverlapLosesPage(name: Naming, d: Disk)
    requires d.worker.Renamed? && name(d.worker.item.key) in d.unlinking && Inv(d)
    ensures var t := After(name, After(name, d, Index), Unlink(name(d.worker.item.key)));
            !Absent(t.index, d.worker.item.key) && name(d.worker.item.key) !in t.files
  {
    assert d.worker.item == OnTheWay(d)[0];
    IndexStepAccounts(name, d);
    var t := After(name, d, Index);
    assert t.index[|t.index| - 1] in t.index;
  }

  /** Every indexed page is there and reads back as the page last laid down for its key. */
  predicate Served(name: Naming, d: Disk) {
    forall e | e in d.index ::
      e.key in d.written && name(e.key) in d.files && ReadPage(d.files[name(e.key)], e.len) == Page(d.written[e.key])
  }

  /** Whatever happens next, short of a further overlap, every indexed page keeps reading
      back. */
  ghost predicate AlwaysServed(name: Naming, keys: set<Key>, d: Disk) {
    forall steps | Runs(name, d, steps) && RunsApart(name, keys, d, steps) :: Served(name, End(name, d, steps))
  }

  lemma FilesAreServed(name: Naming, keys: set<Key>, d: Disk)
    requires Named(name, keys) && FilesOk(name, keys, d)
    ensures Served(name, d)
  {
    forall e | e in d.index
      ensures e.key in d.written && name(e.key) in d.files && ReadPage(d.files[name(e.key)], e.len) == Page(d.written[e.key])
    {
      assert KeyOk(name, d, e.key);
      FileRoundTrip(e.key, d.written[e.key]);
    }
  }

  /** The two steps after an overlapping write that take the page away. */
  lemma OverlapRun(name: Naming, keys: set<Key>, d: Disk)
    requires d.worker.Renamed? && name(d.worker.item.key) in d.unlinking && Inv(d)
    ensures !AlwaysServed(name, keys, d)
  {
    var n := name(d.worker.item.key);
    var steps, one := [Index, Unlink(n)], [Unlink(n)];
    var t := After(name, d, Index);
    OverlapLosesPage(name, d);
    assert steps[1..] == one && one[1..] == [];
    assert Runs(name, After(name, t, Unlink(n)), []);
    assert Runs(name, t, one) && End(name, t, one) == After(name, t, Unlink(n));
    assert Runs(name, d, steps) && End(name, d, steps) == After(name, t, Unlink(n));
    assert RunsApart(name, keys, t, one) && RunsApart(name, keys, d, steps);
    assert !Served(name, End(name, d, steps));
  }

  /** A write leaves a store in which every indexed page can be read back from then on
      exactly when no earlier removal of the same page is still due. */
  lemma WriteServesIff(name: Naming, keys: set<Key>, d: Disk)
    requires d.worker.Holding? && Inv(d) && Named(name, keys) && FilesOk(name, keys, d)
    ensures AlwaysServed(name, keys, After(name, d, WriteFile)) <==> name(d.worker.item.key) !in d.unlinking
  {
    var t := After(name, d, WriteFile);
    StepKeepsInv(name, d, WriteFile);
    if name(d.worker.item.key) !in d.unlinking {
      StepKeepsFiles(name, keys, d, WriteFile);
      forall steps | Runs(name, t, steps) && RunsApart(name, keys, t, steps) ensures Served(name, End(name, t, steps)) {
        RunKeepsFiles(name, keys, t, steps);
        FilesAreServed(name, keys, End(name, t, steps));
      }
    } else {
      OverlapRun(name, keys, t);
    }
  }

  lemma {:induction false} RunOneMore(name: Naming, d: Disk, steps: seq<Step>, s: Step)
    requires Runs(name, d, steps) && Enabled(End(name, d, steps), s)
    ensures Runs(name, d, steps + [s]) && End(name, d, steps + [s]) == After(name, End(name, d, steps), s)
    decreases |steps|
  {
    if steps != [] {
      RunOneMore(name, After(name, d, steps[0]), steps[1..], s);
      assert (steps + [s])[1..] == steps[1..] + [s];
    }
  }

  /** A put reaching os.replace, from an idle writer with nothing else queued. */
  lemma PutReachesRename(name: Naming, d: Disk, steps: seq<Step>, item: Item) returns (more: seq<Step>)
    requires Runs(name, d, steps)
    requires var t := End(name, d, steps); t.worker == Idle && t.queue == [] && t.admitted == [] && Enabled(t, Admit(item))
    ensures Runs(name, d, more)
    ensures var t := End(name, d, steps);
            End(name, d, more) == t.(inflight := t.inflight + {item.key}, worker := Renamed(item),
                                     files := t.files[name(item.key) := FileBytes(item.key, item.data)],
                                     written := t.written[item.key := item.data])
  {
    RunOneMore(name, d, steps, Admit(item));
    RunOneMore(name, d, steps + [Admit(item)], Enqueue(0));
    RunOneMore(name, d, steps + [Admit(item)] + [Enqueue(0)], Dequeue);
    RunOneMore(name, d, steps + [Admit(item)] + [Enqueue(0)] + [Dequeue], WriteFile);
    more := steps + [Admit(item)] + [Enqueue(0)] + [Dequeue] + [WriteFile];
  }

  /** From an empty store: put a page, let it be indexed, and pop it again, with the
      removal of its file still due. */
  lemma PopBeforeUnlink(name: Naming, item: Item, max: nat) returns (steps: seq<Step>)
    requires |item.data| <= max
    ensures Runs(name, Fresh(max), steps)
    ensures var t := End(name, Fresh(max), steps);
            && t.worker == Idle && t.queue == [] && t.admitted == [] && t.index == [] && t.inflight == {} && t.max == max
            && name(item.key) in t.unlinking
  {
    var d := Fresh(max);
    steps := PutReachesRename(name, d, [], item);
    var e := Entry(item.key, |item.data|);
    assert Listed([], item) == [e];
    RunOneMore(name, d, steps, Index);
    steps := steps + [Index];
    RunOneMore(name, d, steps, Finish);
    steps := steps + [Finish];
    assert End(name, d, steps).index == [e];
    FindAbsent([e], item.key);
    RunOneMore(name, d, steps, Pop(item.key));
    steps := steps + [Pop(item.key)];
  }

  /** The overlap does happen: some run from an empty store ends with a key indexed and its
      file gone. */
  lemma OverlapHappens(name: Naming, item: Item, max: nat) returns (steps: seq<Step>)
    requires |item.data| <= max
    ensures Runs(name, Fresh(max), steps)
    ensures var t := End(name, Fresh(max), steps); !Absent(t.index, item.key) && name(item.key) !in t.files
  {
    var d := Fresh(max);
    steps := PopBeforeUnlink(name, item, max);
    steps := PutReachesRename(name, d, steps, item);
    RunKeepsInv(name, d, steps);
    OverlapLosesPage(name, End(name, d, steps));
    RunOneMore(name, d, steps, Index);
    steps := steps + [Index];
    RunOneMore(name, d, steps, Unlink(name(item.key)));
    steps := steps + [Unlink(name(item.key))];
  }
}
