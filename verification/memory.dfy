// The C allocator, as far as the monitor relies on it.

/** Cells live in a heap from their allocation to their release.  Reading, writing or releasing a
    cell demands that it is live, so a double release or a use after release cannot be written. */
module Memory {
  import opened Base

  /** The identity of one allocation; identities are not reused. */
  type Ptr = nat

  datatype Cell =
    | Word(value: uint64)
    | Text(chars: string)
    | Count(n: uint32)

  class Heap {
    var cells: map<Ptr, Cell>
    var next: Ptr

    ghost predicate Valid()
      reads this
    {
      forall p :: p in cells ==> p < next
    }

    constructor ()
      ensures Valid() && cells == map[]
    {
      cells, next := map[], 0;
    }

    method Malloc(c: Cell) returns (p: Ptr)
      requires Valid()
      modifies this
      ensures Valid()
      ensures p == old(next) && p !in old(cells)
      ensures next == old(next) + 1
      ensures cells == old(cells)[p := c]
    {
      p := next;
      cells := cells[p := c];
      next := next + 1;
    }

    function Load(p: Ptr): Cell
      requires p in cells
      reads this
    {
      cells[p]
    }

    method Store(p: Ptr, c: Cell)
      requires Valid() && p in cells
      modifies `cells
      ensures Valid()
      ensures cells == old(cells)[p := c]
    {
      cells := cells[p := c];
    }

    method Free(p: Ptr)
      requires Valid() && p in cells
      modifies `cells
      ensures Valid()
      ensures cells == old(cells) - {p}
    {
      cells := cells - {p};
    }
  }

  ghost predicate IsWord(cells: map<Ptr, Cell>, p: Ptr) {
    p in cells && cells[p].Word?
  }

  /** The address stored in a cell. */
  ghost function WordAt(cells: map<Ptr, Cell>, p: Ptr): uint64 {
    if IsWord(cells, p) then cells[p].value else 0
  }

  ghost function Words(cells: map<Ptr, Cell>, ps: seq<Ptr>): (r: seq<uint64>)
    ensures |r| == |ps|
  {
    seq(|ps|, i requires 0 <= i < |ps| => WordAt(cells, ps[i]))
  }

  ghost function WordRows(cells: map<Ptr, Cell>, rows: seq<seq<Ptr>>): (r: seq<seq<uint64>>)
    ensures |r| == |rows|
  {
    seq(|rows|, i requires 0 <= i < |rows| => Words(cells, rows[i]))
  }

  /** An entry of a hash table: the cell of its key and the cell of its counter. */
  datatype Entry = Entry(key: Ptr, value: Ptr)

  /** The cells that a table owns. */
  ghost function CellsOf<K>(entries: map<K, Entry>): set<Ptr> {
    (set k | k in entries :: entries[k].key) + (set k | k in entries :: entries[k].value)
  }

  lemma CellsOfUpdate<K>(entries: map<K, Entry>, k: K, entry: Entry)
    requires k !in entries
    ensures CellsOf(entries[k := entry]) == CellsOf(entries) + {entry.key, entry.value}
  {
    var e' := entries[k := entry];
    forall p | p in CellsOf(entries) + {entry.key, entry.value} ensures p in CellsOf(e') {
      if p == entry.key || p == entry.value {
        assert e'[k] == entry;
      } else {
        var j :| j in entries && (entries[j].key == p || entries[j].value == p);
        assert e'[j] == entries[j];
      }
    }
  }
}
