/** The disk store as the object of python/peercache/diskstore.py. */
module DiskObject {
  import opened Bytes
  import opened DiskTier
  import opened DiskFiles
  import opened DiskRestart

  predicate IsKeysOf(keys: seq<Key>, es: seq<Entry>) {
    |keys| == |es| && forall i | 0 <= i < |keys| :: keys[i] == es[i].key
  }

  /** The entries that writing this item pushes out of the index. */
  function PushedOut(d: Disk, item: Item): seq<Entry> {
    Trimmed(d.max, Listed(d.index, item), Charged(d, item))
  }

  /** A turn of the writer that succeeds. */
  function Turned(name: Naming, d: Disk): Disk
    requires d.worker == Idle && d.queue != []
  {
    After(name, After(name, After(name, After(name, d, Dequeue), WriteFile), Index), Finish)
  }

  /** A turn of the writer whose write raises. */
  function Failed(name: Naming, d: Disk): Disk
    requires d.worker == Idle && d.queue != []
  {
    After(name, After(name, After(name, d, Dequeue), WriteFail), Finish)
  }

  class DiskStore {
    const max: nat
    const name: Naming
    var running: bool
    var index: seq<Entry>
    var used: int
    var inflight: set<Key>
    var queue: seq<Item>
    var worker: Worker
    var files: map<string, seq<Byte>>
    ghost var written: map<Key, seq<Byte>>

    ghost function Value(): Disk
      reads this
    {
      Disk(max, index, used, inflight, [], queue, worker, files, multiset{}, written)
    }

    constructor (max: nat, name: Naming)
      ensures this.max == max && this.name == name && running && Value() == Fresh(max)
    {
      this.max, this.name, running := max, name, true;
      index, used, inflight, queue, worker, files, written := [], 0, {}, [], Idle, map[], map[];
    }

    method Put(key: Key, data: seq<Byte>)
      modifies this`inflight, this`queue
      ensures
        var takes := running && |data| <= max && Absent(index, key) && key !in old(inflight);
        && queue == old(queue) + (if takes then [Item(key, data)] else [])
        && inflight == old(inflight) + if takes then {key} else {}
      ensures !running || !Enabled(old(Value()), Admit(Item(key, data))) ==> Value() == old(Value())
      ensures running && Enabled(old(Value()), Admit(Item(key, data))) ==>
                Value() == After(name, After(name, old(Value()), Admit(Item(key, data))), Enqueue(0))
    {
      if !running || |data| > max {
        return;
      }
      if Find(index, key) >= 0 || key in inflight {
        return;
      }
      inflight := inflight + {key};
      queue := queue + [Item(key, data)];
    }

    /** The eviction loop of a write, with the index already holding the new page. */
    method EnforceCap() returns (evicted: seq<Key>)
      modifies this`index, this`used, this`files
      ensures index == Trim(max, old(index), old(used)).0 && used == Trim(max, old(index), old(used)).1
      ensures files == old(files) - Names(name, Trimmed(max, old(index), old(used)))
      ensures IsKeysOf(evicted, Trimmed(max, old(index), old(used)))
    {
      evicted := [];
      ghost var gone: seq<Entry> := [];
      while used > max && |index| > 1
        invariant Trim(max, index, used) == Trim(max, old(index), old(used))
        invariant gone + Trimmed(max, index, used) == Trimmed(max, old(index), old(used))
        invariant files == old(files) - Names(name, gone)
        invariant IsKeysOf(evicted, gone)
        decreases |index|
      {
        var oldest := index[0];
        assert gone + Trimmed(max, index, used) == gone + [oldest] + Trimmed(max, index[1..], used - oldest.len);
        NamesMore(name, gone, oldest);
        index, used := index[1..], used - oldest.len;
        evicted := evicted + [oldest.key];
        files := files - {name(oldest.key)};
        gone := gone + [oldest];
      }
      assert gone + [] == gone;
    }

    /** Temporary file, then os.replace. */
    method LayFile(key: Key, data: seq<Byte>)
      requires worker == Holding(Item(key, data))
      modifies this`files, this`written, this`worker
      ensures Value() == After(name, old(Value()), WriteFile)
    {
      files := files[name(key) := FileBytes(key, data)];
      written := written[key := data];
      worker := Renamed(Item(key, data));
    }

    method ListPage(key: Key, data: seq<Byte>)
      modifies this`index, this`used
      ensures index == Listed(old(index), Item(key, data))
      ensures used == Charged(old(Value()), Item(key, data))
    {
      var i := Find(index, key);
      if i < 0 {
        used := used + |data|;
        index := index + [Entry(key, |data|)];
      } else {
        index := index[..i] + index[i + 1..] + [Entry(key, |data|)];
      }
    }

    /** The section of a write under the lock. */
    method IndexPage(key: Key, data: seq<Byte>) returns (evicted: seq<Key>)
      requires worker == Renamed(Item(key, data))
      modifies this`index, this`used, this`files, this`worker
      ensures Value() == After(name, old(Value()), Index)
      ensures IsKeysOf(evicted, PushedOut(old(Value()), Item(key, data)))
    {
      ListPage(key, data);
      evicted := EnforceCap();
      worker := Ending(key);
    }

    /** evicted are the keys the cap pushed out, for the eviction callback. */
    method Write(key: Key, data: seq<Byte>) returns (evicted: seq<Key>)
      requires worker == Holding(Item(key, data))
      modifies this`index, this`used, this`files, this`worker, this`written
      ensures Value() == After(name, After(name, old(Value()), WriteFile), Index)
      ensures IsKeysOf(evicted, PushedOut(old(Value()), Item(key, data)))
    {
      LayFile(key, data);
      evicted := IndexPage(key, data);
    }

    /** self._q.get(). */
    method Take() returns (item: Item)
      requires worker == Idle && queue != []
      modifies this`queue, this`worker
      ensures Value() == After(name, old(Value()), Dequeue) && item == old(queue[0]) && worker == Holding(item)
    {
      item := queue[0];
      queue := queue[1..];
      worker := Holding(item);
    }

    /** The finally clause of the writer. */
    method Done(key: Key)
      requires worker == Ending(key)
      modifies this`inflight, this`worker
      ensures Value() == After(name, old(Value()), Finish)
    {
      inflight := inflight - {key};
      worker := Idle;
    }

    method Turn() returns (evicted: seq<Key>)
      requires worker == Idle && queue != []
      modifies this`index, this`used, this`inflight, this`queue, this`files, this`worker, this`written
      ensures Value() == Turned(name, old(Value()))
      ensures IsKeysOf(evicted, PushedOut(old(Value()), old(queue[0])))
    {
      var item := Take();
      evicted := Write(item.key, item.data);
      Done(item.key);
    }

    /** One turn of the writer thread; fails says whether the write raises. */
    method RunOnce(fails: bool) returns (evicted: seq<Key>)
      requires worker == Idle && queue != []
      modifies this`index, this`used, this`inflight, this`queue, this`files, this`worker, this`written
      ensures Value() == if fails then Failed(name, old(Value())) else Turned(name, old(Value()))
      ensures IsKeysOf(evicted, if fails then [] else PushedOut(old(Value()), old(queue[0])))
    {
      if fails {
        inflight := inflight - {queue[0].key};
        queue := queue[1..];
        return [];
      }
      evicted := Turn();
    }

    method Get(key: Key) returns (got: Got)
      modifies this`index
      ensures Find(old(index), key) < 0 ==> got == Missing && Value() == old(Value())
      ensures Find(old(index), key) >= 0 ==>
                && Value() == After(name, old(Value()), Touch(key))
                && got == if name(key) in files then ReadPage(files[name(key)], old(index)[Find(old(index), key)].len) else Missing
    {
      var i := Find(index, key);
      if i < 0 {
        return Missing;
      }
      var length := index[i].len;
      index := index[..i] + index[i + 1..] + [index[i]];
      if name(key) in files {
        got := ReadPage(files[name(key)], length);
      } else {
        got := Missing;
      }
    }

    method Remove(key: Key)
      modifies this`index, this`used, this`files
      ensures Find(old(index), key) < 0 ==> Value() == old(Value())
      ensures Find(old(index), key) >= 0 ==> Value() == After(name, After(name, old(Value()), Pop(key)), Unlink(name(key)))
    {
      var i := Find(index, key);
      if i < 0 {
        return;
      }
      used := used - index[i].len;
      index := index[..i] + index[i + 1..];
      files := files - {name(key)};
    }

    /** The rebuild of a store just opened on the files of d. */
    method RebuildFromScan(names: seq<string>, ghost d: Disk)
      requires forall n | n in names :: n in files
      requires index == [] && used == 0
      requires max == d.max && files == d.files && written == d.written
      requires inflight == {} && queue == [] && worker == Idle
      modifies this`index, this`used
      ensures Value() == Restarted(d, names)
    {
      for j := 0 to |names|
        invariant forall n | n in names[..j] :: n in files
        invariant (index, used) == Scan(files, names[..j])
      {
        ghost var front := names[..j + 1];
        assert front[..j] == names[..j] && front[j] == names[j];
        var n := names[j];
        var p := Parse(files[n]);
        if IsPage(n) && p.Parsed? {
          var e := Entry(p.key, p.len);
          var i := Find(index, p.key);
          if i < 0 {
            index := index + [e];
          } else {
            index := index[i := e];
          }
          used := used + p.len;
        }
      }
      assert names[..|names|] == names;
    }
  }

  lemma NamesMore(name: Naming, gone: seq<Entry>, e: Entry)
    ensures Names(name, gone + [e]) == Names(name, gone) + {name(e.key)}
  {
    assert forall x | x in gone + [e] :: x in gone || x == e;
    assert e in gone + [e];
    assert forall x | x in gone :: x in gone + [e];
  }
}
