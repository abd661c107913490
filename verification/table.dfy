// The table of branch counts (branch_hits of c_monitor/main.c): string keys and counter cells.

module HitTables {
  import opened Base
  import opened Memory
  import opened Counting
  import opened HitCounting

  ghost predicate IsText(cells: map<Ptr, Cell>, p: Ptr, s: string) {
    p in cells && cells[p] == Text(s)
  }

  ghost predicate EntryOk(cells: map<Ptr, Cell>, k: string, entry: Entry) {
    IsText(cells, entry.key, k) && IsWord(cells, entry.value)
  }

  /** Keys hold their own text, and no two keys share a counter. */
  ghost predicate TableOk(cells: map<Ptr, Cell>, entries: map<string, Entry>) {
    && (forall k :: k in entries ==> EntryOk(cells, k, entries[k]))
    && forall k, k' :: k in entries && k' in entries && k != k' ==> entries[k].value != entries[k'].value
  }

  ghost function CountsOf(cells: map<Ptr, Cell>, entries: map<string, Entry>): (h: Hits)
    ensures Fits(h)
  {
    map k | k in entries :: WordAt(cells, entries[k].value)
  }

  lemma TableSame(c: map<Ptr, Cell>, c': map<Ptr, Cell>, entries: map<string, Entry>)
    requires TableOk(c, entries)
    requires forall p :: p in CellsOf(entries) ==> p in c' && c'[p] == c[p]
    ensures TableOk(c', entries) && CountsOf(c', entries) == CountsOf(c, entries)
  {
    forall k | k in entries
      ensures EntryOk(c', k, entries[k]) && WordAt(c', entries[k].value) == WordAt(c, entries[k].value)
    {
      assert entries[k].key in CellsOf(entries) && entries[k].value in CellsOf(entries);
    }
  }

  /** The table owns live cells only. */
  lemma CellsAreLive(c: map<Ptr, Cell>, entries: map<string, Entry>)
    requires TableOk(c, entries)
    ensures CellsOf(entries) <= c.Keys
  {
  }

  lemma CountedKeys(c: map<Ptr, Cell>, entries: map<string, Entry>)
    ensures CountsOf(c, entries).Keys == entries.Keys
  {
  }

  class HitTable {
    var entries: map<string, Entry>

    ghost function Owned(): set<Ptr>
      reads this
    {
      CellsOf(entries)
    }

    ghost function View(mem: Heap): Hits
      reads this, mem
    {
      CountsOf(mem.cells, entries)
    }

    ghost predicate Valid(mem: Heap)
      reads this, mem
    {
      TableOk(mem.cells, entries)
    }

    constructor ()
      ensures entries == map[]
    {
      entries := map[];
    }

    /** hashtable_get: the counter cell of a key, compared by text. */
    method Get(mem: Heap, key: Ptr) returns (value: Option<Ptr>)
      requires key in mem.cells && mem.cells[key].Text?
      ensures value.None? <==> mem.cells[key].chars !in entries
      ensures value.Some? ==> value.value == entries[mem.cells[key].chars].value
    {
      var chars := mem.Load(key).chars;
      if chars in entries {
        value := Some(entries[chars].value);
      } else {
        value := None;
      }
    }

    /** hashtable_add: the table keeps the key and the counter. */
    method Add(mem: Heap, key: Ptr, value: Ptr)
      requires Valid(mem)
      requires key in mem.cells && mem.cells[key].Text? && mem.cells[key].chars !in entries
      requires IsWord(mem.cells, value) && value !in Owned()
      modifies this
      ensures Valid(mem)
      ensures Owned() == old(Owned()) + {key, value}
      ensures entries == old(entries)[mem.cells[key].chars := Entry(key, value)]
      ensures View(mem) == old(View(mem))[mem.cells[key].chars := WordAt(mem.cells, value)]
    {
      var chars := mem.Load(key).chars;
      CellsOfUpdate(entries, chars, Entry(key, value));
      forall k | k in entries ensures entries[k].value != value {
        assert entries[k].value in Owned();
      }
      entries := entries[chars := Entry(key, value)];
    }

    /** The counting step of process_branches: increment the counter of a known key and release the
        new key cell, or keep it with a counter of 1. */
    method CountKey(mem: Heap, key: Ptr) returns (isNew: bool)
      requires mem.Valid() && Valid(mem)
      requires key in mem.cells && mem.cells[key].Text? && key !in Owned()
      modifies mem, this
      ensures mem.Valid() && Valid(mem) && old(mem.next) <= mem.next
      ensures View(mem) == Bump(old(View(mem)), old(mem.cells[key].chars), UINT64_LIMIT)
      ensures isNew <==> old(mem.cells[key].chars) !in old(entries)
      ensures old(Owned()) <= Owned()
      ensures if isNew then Owned() == old(Owned()) + {key, old(mem.next)}
          && mem.cells.Keys == old(mem.cells.Keys) + {old(mem.next)}
              else Owned() == old(Owned()) && mem.cells.Keys == old(mem.cells.Keys) - {key}
      ensures forall p :: p in old(mem.cells) && p !in old(Owned()) && p != key ==>
          p in mem.cells && mem.cells[p] == old(mem.cells[p])
    {
      var chars := mem.Load(key).chars;
      var found := Get(mem, key);
      ghost var c, h := mem.cells, View(mem);
      match found
      case Some(value) =>
        assert EntryOk(mem.cells, chars, entries[chars]);
        assert value in Owned();
        mem.Store(value, Word(Increment(mem.Load(value).value, UINT64_LIMIT)));
        mem.Free(key);
        IncrementedTable(c, mem.cells, entries, chars, key);
        isNew := false;
      case None =>
        CellsAreLive(c, entries);
        var value := mem.Malloc(Word(1));
        TableSame(c, mem.cells, entries);
        Add(mem, key, value);
        isNew := true;
    }
  }

  lemma IncrementedTable(c: map<Ptr, Cell>, c': map<Ptr, Cell>, entries: map<string, Entry>, k: string, key: Ptr)
    requires TableOk(c, entries) && k in entries && key !in CellsOf(entries)
    requires c' == c[entries[k].value := Word(Increment(WordAt(c, entries[k].value), UINT64_LIMIT))] - {key}
    ensures TableOk(c', entries)
    ensures CountsOf(c', entries) == Bump(CountsOf(c, entries), k, UINT64_LIMIT)
  {
    forall j | j in entries
      ensures EntryOk(c', j, entries[j])
      ensures WordAt(c', entries[j].value) ==
              if j == k then Increment(WordAt(c, entries[k].value), UINT64_LIMIT) else WordAt(c, entries[j].value)
    {
      assert EntryOk(c, j, entries[j]) && EntryOk(c, k, entries[k]);
      assert entries[j].key in CellsOf(entries) && entries[j].value in CellsOf(entries);
    }
  }
}
