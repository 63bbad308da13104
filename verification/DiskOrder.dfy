/** The order the disk tier keeps: pages from least to most recently used, written in the
    order they were queued. */
module DiskOrder {
  import opened Sequences
  import opened DiskTier
  import opened DiskObject

  /** The entry of an indexed key, once in the index. */
  predicate IsEntryOf(index: seq<Entry>, key: Key, e: Entry) {
    e in index && e.key == key
  }

  lemma OnlyOnce(index: seq<Entry>, i: nat)
    requires DistinctEntries(index) && i < |index|
    ensures Without(index, index[i]) == index[..i] + index[i + 1..]
  {
    assert forall j | 0 <= j < i :: index[..i][j] == index[j];
    var rest := index[i + 1..];
    assert forall j | 0 <= j < |rest| :: rest[j] == index[i + 1 + j];
    WithoutAt(index, i);
  }

  /** A get makes its page the most recent one and moves no other. */
  lemma TouchOrder(name: Naming, d: Disk, key: Key, e: Entry)
    requires DistinctEntries(d.index) && IsEntryOf(d.index, key, e)
    ensures Enabled(d, Touch(key)) && After(name, d, Touch(key)).index == Without(d.index, e) + [e]
  {
    var i := Find(d.index, key);
    EntryIsFound(d.index, key, e);
    OnlyOnce(d.index, i);
  }

  /** A removal takes out its page and moves no other. */
  lemma PopOrder(name: Naming, d: Disk, key: Key, e: Entry)
    requires DistinctEntries(d.index) && IsEntryOf(d.index, key, e)
    ensures Enabled(d, Pop(key)) && After(name, d, Pop(key)).index == Without(d.index, e)
  {
    var i := Find(d.index, key);
    EntryIsFound(d.index, key, e);
    OnlyOnce(d.index, i);
  }

  lemma EntryIsFound(index: seq<Entry>, key: Key, e: Entry)
    requires DistinctEntries(index) && IsEntryOf(index, key, e)
    ensures Find(index, key) >= 0 && index[Find(index, key)] == e
  {
    var j :| 0 <= j < |index| && index[j] == e;
    assert index[Find(index, key)].key == index[j].key;
  }

  // ---------------------------------------------------------------- draining the queue

  function EntryOf(item: Item): Entry {
    Entry(item.key, |item.data|)
  }

  function EntriesOf(items: seq<Item>): seq<Entry> {
    seq(|items|, i requires 0 <= i < |items| => EntryOf(items[i]))
  }

  function SumData(items: seq<Item>): nat {
    if items == [] then 0 else |items[0].data| + SumData(items[1..])
  }

  /** The store after the writer has turned n times. */
  function Turns(name: Naming, d: Disk, n: nat): (t: Disk)
    requires d.worker == Idle && n <= |d.queue|
    ensures t.worker == Idle
    decreases n
  {
    if n == 0 then d
    else
      TurnedIdle(name, d);
      Turns(name, Turned(name, d), n - 1)
  }

  lemma TurnedIdle(name: Naming, d: Disk)
    requires d.worker == Idle && d.queue != []
    ensures Turned(name, d).worker == Idle && Turned(name, d).queue == d.queue[1..] && Turned(name, d).max == d.max
  {
  }

  /** A turn whose page fits appends it and drops nothing. */
  lemma TurnAppends(name: Naming, d: Disk)
    requires Inv(d) && d.worker == Idle && d.queue != [] && d.used + |d.queue[0].data| <= d.max
    ensures
      var t := Turned(name, d);
      && Inv(t) && t.index == d.index + [EntryOf(d.queue[0])] && t.used == d.used + |d.queue[0].data|
      && t.files == d.files[name(d.queue[0].key) := FileBytes(d.queue[0].key, d.queue[0].data)]
  {
    var a := After(name, d, Dequeue);
    StepKeepsInv(name, d, Dequeue);
    var b := After(name, a, WriteFile);
    StepKeepsInv(name, a, WriteFile);
    var c := After(name, b, Index);
    StepKeepsInv(name, b, Index);
    StepKeepsInv(name, c, Finish);
    assert b.worker.item == OnTheWay(b)[0];
    FittingWriteKeepsAll(name, b);
    UsedIsSum(c, d.index, EntryOf(d.queue[0]));
  }

  lemma UsedIsSum(t: Disk, index: seq<Entry>, e: Entry)
    requires Accounted(t) && t.index == index + [e]
    ensures t.used == Sum(index) + e.len
  {
    SumLast(index, e);
  }

  /** From d to t the first n queued items were indexed in order, and nothing was dropped. */
  predicate Drained(d: Disk, t: Disk, n: nat) {
    && n <= |d.queue|
    && t.index == d.index + EntriesOf(d.queue[..n]) && t.queue == d.queue[n..] && d.files.Keys <= t.files.Keys
  }

  lemma DrainedOneMore(d: Disk, t: Disk, u: Disk, n: nat)
    requires d.queue != [] && t.queue == d.queue[1..] && t.index == d.index + [EntryOf(d.queue[0])]
    requires d.files.Keys <= t.files.Keys && Drained(t, u, n)
    ensures Drained(d, u, n + 1)
  {
    assert EntriesOf(d.queue[..n + 1]) == [EntryOf(d.queue[0])] + EntriesOf(t.queue[..n]);
    assert t.queue[n..] == d.queue[n + 1..];
  }

  lemma SumDataFirst(items: seq<Item>, n: nat)
    requires 0 < n <= |items|
    ensures SumData(items[..n]) == |items[0].data| + SumData(items[1..][..n - 1])
  {
    assert items[..n][1..] == items[1..][..n - 1];
  }

  /** While the pages fit below the cap, the writer indexes them in the order they were
      queued, behind everything indexed before, and drops nothing. */
  lemma {:induction false} DrainInOrder(name: Naming, d: Disk, n: nat)
    requires Inv(d) && d.worker == Idle && n <= |d.queue| && d.used + SumData(d.queue[..n]) <= d.max
    ensures Drained(d, Turns(name, d, n), n)
    decreases n
  {
    if n > 0 {
      SumDataFirst(d.queue, n);
      TurnedIdle(name, d);
      TurnAppends(name, d);
      DrainInOrder(name, Turned(name, d), n - 1);
      DrainedOneMore(d, Turned(name, d), Turns(name, d, n), n - 1);
    } else {
      assert EntriesOf(d.queue[..0]) == [];
    }
  }
}
