// The seen-input table of monitor_loop (c_monitor/main.c) and its cells.

module SeenTables {
  import opened Base
  import opened Memory
  import opened Counting
  import opened SeenMachine
  import Crc64

  ghost predicate SeenEntryOk(cells: map<Ptr, Cell>, h: uint64, entry: Entry) {
    && entry.key in cells && cells[entry.key] == Word(h)
    && entry.value in cells && cells[entry.value].Count?
  }

  /** Keys hold their own hash, and no two hashes share a counter. */
  ghost predicate SeenOk(cells: map<Ptr, Cell>, entries: map<uint64, Entry>) {
    && (forall h :: h in entries ==> SeenEntryOk(cells, h, entries[h]))
    && forall h, g :: h in entries && g in entries && h != g ==> entries[h].value != entries[g].value
  }

  ghost function CountIn(cells: map<Ptr, Cell>, p: Ptr): uint32 {
    if p in cells && cells[p].Count? then cells[p].n else 0
  }

  ghost function SeenView(cells: map<Ptr, Cell>, entries: map<uint64, Entry>): (h: map<uint64, nat>)
    ensures h.Keys == entries.Keys
    ensures forall k :: k in h ==> h[k] < UINT32_LIMIT
  {
    map h | h in entries :: CountIn(cells, entries[h].value)
  }

  lemma SeenSame(c: map<Ptr, Cell>, c': map<Ptr, Cell>, entries: map<uint64, Entry>)
    requires SeenOk(c, entries)
    requires forall p :: p in CellsOf(entries) ==> p in c' && p in c && c'[p] == c[p]
    ensures SeenOk(c', entries) && SeenView(c', entries) == SeenView(c, entries)
  {
    forall h | h in entries
      ensures SeenEntryOk(c', h, entries[h]) && CountIn(c', entries[h].value) == CountIn(c, entries[h].value)
    {
      assert entries[h].key in CellsOf(entries) && entries[h].value in CellsOf(entries);
    }
  }

  lemma SeenCellsLive(c: map<Ptr, Cell>, entries: map<uint64, Entry>)
    requires SeenOk(c, entries)
    ensures CellsOf(entries) <= c.Keys
  {
  }

  /** Incrementing the counter of a known hash. */
  lemma SeenIncremented(c: map<Ptr, Cell>, c': map<Ptr, Cell>, entries: map<uint64, Entry>, h: uint64)
    requires SeenOk(c, entries) && h in entries
    requires c' == c[entries[h].value := Count(Increment(CountIn(c, entries[h].value), UINT32_LIMIT))]
    ensures SeenOk(c', entries) && SeenView(c', entries) == Bump(SeenView(c, entries), h, UINT32_LIMIT)
  {
    forall g | g in entries
      ensures SeenEntryOk(c', g, entries[g])
      ensures CountIn(c', entries[g].value) ==
              if g == h then Increment(CountIn(c, entries[h].value), UINT32_LIMIT) else CountIn(c, entries[g].value)
    {
      assert SeenEntryOk(c, g, entries[g]) && SeenEntryOk(c, h, entries[h]);
    }
  }

  /** Adding a new hash with a fresh counter of 1. */
  lemma SeenAdded(c: map<Ptr, Cell>, entries: map<uint64, Entry>, h: uint64, key: Ptr, value: Ptr)
    requires SeenOk(c, entries) && h !in entries
    requires key in c && c[key] == Word(h) && value in c && c[value] == Count(1) && value !in CellsOf(entries)
    ensures SeenOk(c, entries[h := Entry(key, value)])
    ensures SeenView(c, entries[h := Entry(key, value)]) == Bump(SeenView(c, entries), h, UINT32_LIMIT)
  {
    forall g | g in entries ensures entries[g].value != value {
      assert entries[g].value in CellsOf(entries);
    }
  }

  lemma RatioOverTwo(a: real, b: real)
    requires b > 0.0
    ensures a / b > 2.0 <==> a > 2.0 * b
  {
    var q := a / b;
    assert a == q * b;
    if q > 2.0 {
      assert (q - 2.0) * b > 0.0;
    } else {
      assert (2.0 - q) * b >= 0.0;
    }
  }

  lemma AverageOverTwo(total: nat, n: nat)
    requires n > 0
    ensures total as real / n as real > 2.0 <==> total > 2 * n
  {
    RatioOverTwo(total as real, n as real);
  }

  class SeenTable {
    var entries: map<uint64, Entry>
    var seenTotal: nat
    var maxSeenInput: nat
    var maxSeenInputK: uint64

    ghost function Owned(): set<Ptr>
      reads this
    {
      CellsOf(entries)
    }

    ghost function View(mem: Heap): Seen<uint64>
      reads this, mem
    {
      Seen(SeenView(mem.cells, entries), seenTotal, maxSeenInput, maxSeenInputK)
    }

    ghost predicate Valid(mem: Heap)
      reads this, mem
    {
      SeenOk(mem.cells, entries)
    }

    constructor ()
      ensures entries == map[] && seenTotal == 0 && maxSeenInput == 0 && maxSeenInputK == 0
    {
      entries, seenTotal, maxSeenInput, maxSeenInputK := map[], 0, 0, 0;
    }

    /** Look the hash up and count it; a new hash keeps its cell in the table. */
    method CountHash(mem: Heap, bufHash: Ptr) returns (v: uint32, ghost isNew: bool)
      requires mem.Valid() && Valid(mem)
      requires bufHash in mem.cells && mem.cells[bufHash].Word? && bufHash !in Owned()
      modifies mem, this`entries
      ensures mem.Valid() && Valid(mem) && old(mem.next) <= mem.next
      ensures SeenView(mem.cells, entries)
          == Bump(old(SeenView(mem.cells, entries)), old(mem.cells[bufHash].value), UINT32_LIMIT)
      ensures v == SeenView(mem.cells, entries)[old(mem.cells[bufHash].value)]
      ensures isNew <==> old(mem.cells[bufHash].value) !in old(entries)
      ensures isNew ==> v == 1
      ensures |entries| > 0
      ensures old(Owned()) <= Owned()
      ensures if isNew then Owned() == old(Owned()) + {bufHash, old(mem.next)}
          && mem.cells.Keys == old(mem.cells.Keys) + {old(mem.next)}
              else Owned() == old(Owned()) && mem.cells.Keys == old(mem.cells.Keys)
      ensures bufHash in mem.cells && mem.cells[bufHash] == old(mem.cells[bufHash])
      ensures forall p :: p in old(mem.cells) && p !in old(Owned()) ==>
          p in mem.cells && mem.cells[p] == old(mem.cells[p])
    {
      hide CellsOf, SeenOk;
      ghost var c := mem.cells;
      var h := mem.Load(bufHash).value;
      isNew := h !in entries;
      if h in entries {
        var value := entries[h].value;
        KnownEntry(c, entries, h);
        mem.Store(value, Count(Increment(mem.Load(value).n, UINT32_LIMIT)));
        SeenIncremented(c, mem.cells, entries, h);
        v := mem.Load(value).n;
      } else {
        SeenCellsLive(c, entries);
        var value := mem.Malloc(Count(1));
        SeenSame(c, mem.cells, entries);
        SeenAdded(mem.cells, entries, h, bufHash, value);
        CellsOfUpdate(entries, h, Entry(bufHash, value));
        entries := entries[h := Entry(bufHash, value)];
        v := 1;
      }
      assert h in entries.Keys;
    }

    /** The accounting of one input.  The cell of its hash is kept as a key if the hash is new, and is
        released otherwise, except that it is lost when the hash is known and its counter was 2^32 - 1 or 0. */
    method Account(mem: Heap, buf: array<bv8>) returns (v: uint32, ghost leaked: set<Ptr>)
      requires mem.Valid() && Valid(mem)
      modifies mem, this
      ensures mem.Valid() && Valid(mem) && old(mem.next) <= mem.next
      ensures View(mem) == Step(old(View(mem)), Crc64.Remainder(buf[..]) as int)
      ensures v == View(mem).counts[Crc64.Remainder(buf[..]) as int]
      ensures old(Owned()) <= Owned() && (Owned() - old(Owned())) !! old(mem.cells.Keys)
      ensures mem.cells.Keys == old(mem.cells.Keys) + Owned() + leaked
      ensures leaked == if Loses(old(View(mem)), Crc64.Remainder(buf[..]) as int) then {old(mem.next)} else {}
      ensures leaked !! old(mem.cells.Keys) && leaked !! Owned()
      ensures forall p :: p in old(mem.cells) && p !in old(Owned()) ==>
          p in mem.cells && mem.cells[p] == old(mem.cells[p])
    {
      hide CellsOf, SeenOk, Bump, HashOf, SeenView, Loses, Crc64.Remainder;
      ghost var c0, h := mem.cells, HashOf(buf[..]);
      HashIsChecksum(buf[..]);
      SeenCellsLive(c0, entries);
      seenTotal := seenTotal + 1;
      var bufHash := HashCell(mem, buf);
      SeenSame(c0, mem.cells, entries);
      v, leaked := SettleHash(mem, bufHash);
      SizeOfView(mem.cells, entries);
      ResetTotal();
      LosesByCount(old(View(mem)), View(mem), h);
    }

    /** Count the hash, keep the largest count, and store or release the hash cell. */
    method SettleHash(mem: Heap, bufHash: Ptr) returns (v: uint32, ghost leaked: set<Ptr>)
      requires mem.Valid() && Valid(mem)
      requires IsWord(mem.cells, bufHash) && bufHash !in Owned() && mem.next == bufHash + 1
      modifies mem, `entries, `maxSeenInput, `maxSeenInputK
      ensures mem.Valid() && Valid(mem) && old(mem.next) <= mem.next && |entries| > 0
      ensures var h := old(WordAt(mem.cells, bufHash));
              && SeenView(mem.cells, entries) == Bump(old(SeenView(mem.cells, entries)), h, UINT32_LIMIT)
              && v == SeenView(mem.cells, entries)[h]
              && maxSeenInput == (if v > old(maxSeenInput) then v else old(maxSeenInput))
              && maxSeenInputK == (if v > old(maxSeenInput) then h else old(maxSeenInputK))
              && leaked == if h in old(entries) && v <= 1 then {bufHash} else {}
      ensures mem.cells.Keys == old(mem.cells.Keys) - {bufHash} + Owned() + leaked && leaked !! Owned()
      ensures old(Owned()) <= Owned() && (Owned() - old(Owned())) !! (old(mem.cells.Keys) - {bufHash})
      ensures forall p :: p in old(mem.cells) && p !in old(Owned()) && p != bufHash ==>
          p in mem.cells && mem.cells[p] == old(mem.cells[p])
    {
      hide CellsOf, SeenOk, Bump, SeenView;
      ghost var live0, owned0 := mem.cells.Keys - {bufHash}, Owned();
      SeenCellsLive(mem.cells, entries);
      ghost var isNew;
      v, isNew := CountHash(mem, bufHash);
      leaked := if isNew || v > 1 then {} else {bufHash};
      ghost var c1 := mem.cells;
      SeenCellsLive(c1, entries);
      RecordMax(mem, bufHash, v);
      SeenSame(c1, mem.cells, entries);
      LiveAfterInput(live0, owned0, Owned(), bufHash, isNew, v > 1, c1.Keys, mem.cells.Keys);
    }

    /** Keep the largest count and its hash; release the hash cell unless it was just stored. */
    method RecordMax(mem: Heap, bufHash: Ptr, v: uint32)
      requires mem.Valid() && IsWord(mem.cells, bufHash)
      modifies mem, `maxSeenInput, `maxSeenInputK
      ensures mem.Valid() && mem.next == old(mem.next)
      ensures maxSeenInput == (if v > old(maxSeenInput) then v else old(maxSeenInput))
      ensures maxSeenInputK == (if v > old(maxSeenInput) then old(WordAt(mem.cells, bufHash)) else old(maxSeenInputK))
      ensures mem.cells == if v > 1 then old(mem.cells) - {bufHash} else old(mem.cells)
    {
      if v > maxSeenInput {
        maxSeenInput := v;
        maxSeenInputK := mem.Load(bufHash).value;
        if v > 1 {
          mem.Free(bufHash);
        }
      } else if v > 1 {
        mem.Free(bufHash);
      }
    }

    /** The reset of the running total when the average count exceeds 2. */
    method ResetTotal()
      requires |entries| > 0
      modifies `seenTotal
      ensures seenTotal == if old(seenTotal) > 2 * |entries| then |entries| else old(seenTotal)
    {
      AverageOverTwo(seenTotal, |entries|);
      var seenAvg := seenTotal as real / |entries| as real;
      if seenAvg > 2.0 {
        seenTotal := |entries|;
      }
    }

    /** The end of monitor_loop: every key and counter of the table is released. */
    method FreeAll(mem: Heap)
      requires mem.Valid() && Valid(mem)
      modifies mem
      ensures mem.Valid() && mem.next == old(mem.next)
      ensures mem.cells == old(mem.cells) - Owned()
    {
      ghost var before := mem.cells;
      var remaining := entries.Keys;
      assert entries - entries.Keys == map[] && CellsOf<uint64>(map[]) == {};
      hide CellsOf, SeenOk;
      while remaining != {}
        invariant mem.Valid() && mem.next == old(mem.next)
        invariant remaining <= entries.Keys
        invariant mem.cells == before - CellsOf(entries - remaining)
        decreases remaining
      {
        var h :| h in remaining;
        SeenEntryAlone(before, entries, remaining, h);
        FreePair(mem, entries[h].key, entries[h].value);
        remaining := remaining - {h};
      }
      assert entries - {} == entries;
    }
  }

  method FreePair(mem: Heap, key: Ptr, value: Ptr)
    requires mem.Valid() && key in mem.cells && value in mem.cells && key != value
    modifies mem
    ensures mem.Valid() && mem.next == old(mem.next)
    ensures mem.cells == old(mem.cells) - {key, value}
  {
    mem.Free(key);
    mem.Free(value);
  }

  /** The 64 bits of a checksum as a number. */
  function ToWord(x: bv64): uint64 {
    x as uint64
  }

  function HashOf(buf: seq<bv8>): uint64 {
    ToWord(Crc64.Remainder(buf))
  }

  /** The hash of an input is the checksum itself. */
  lemma HashIsChecksum(buf: seq<bv8>)
    ensures HashOf(buf) == Crc64.Remainder(buf) as int
  {
    hide Crc64.Remainder;
  }

  /** Where the cell of a hash goes: into the table, back to the allocator, or nowhere. */
  lemma LiveAfterInput(live0: set<Ptr>, owned0: set<Ptr>, owned: set<Ptr>, bufHash: Ptr, isNew: bool, freed: bool,
                       live1: set<Ptr>, live: set<Ptr>)
    requires owned0 <= live0 && bufHash !in live0 && (isNew ==> !freed)
    requires if isNew then owned == owned0 + {bufHash, bufHash + 1} && live1 == live0 + {bufHash, bufHash + 1}
             else owned == owned0 && live1 == live0 + {bufHash}
    requires live == if freed then live1 - {bufHash} else live1
    requires bufHash + 1 !in live0
    ensures live == live0 + owned + if isNew || freed then {} else {bufHash}
    ensures (owned - owned0) !! live0 && owned0 <= owned
    ensures !isNew ==> bufHash !in owned
  {
  }

  lemma ToWordInjective(x: bv64, y: bv64)
    requires ToWord(x) == ToWord(y)
    ensures x == y
  {
    assert (x as int) as bv64 == (y as int) as bv64;
  }

  /** The accounting tells inputs apart that differ only within 64 consecutive bits, and only those
      among them that are equal share an entry. */
  lemma BurstsCountedApart(a: seq<bv8>, b: seq<bv8>, i: nat, j: nat)
    requires |a| == |b| && i <= j <= 8 * |a| && j - i <= 64
    requires Crc64.Bits(a)[..i] == Crc64.Bits(b)[..i] && Crc64.Bits(a)[j..] == Crc64.Bits(b)[j..]
    ensures HashOf(a) == HashOf(b) <==> a == b
  {
    hide Crc64.Remainder, Crc64.Bits, ToWord;
    if HashOf(a) == HashOf(b) {
      ToWordInjective(Crc64.Remainder(a), Crc64.Remainder(b));
    }
    Crc64.BurstDistinct(a, b, i, j);
  }

  /** The accounting takes an input and the same input after any number of zero bytes for one. */
  lemma PaddingCountedTogether(n: nat, buf: seq<bv8>)
    ensures HashOf(seq(n, _ => 0) + buf) == HashOf(buf)
  {
    hide Crc64.Remainder;
    Crc64.LeadingZerosInvisible(n, buf);
  }

  method HashCell(mem: Heap, buf: array<bv8>) returns (bufHash: Ptr)
    requires mem.Valid()
    modifies mem
    ensures mem.Valid() && bufHash == old(mem.next) && mem.next == old(mem.next) + 1
    ensures mem.cells == old(mem.cells)[bufHash := Word(HashOf(buf[..]))]
    ensures mem.cells[bufHash] == Word(Crc64.Remainder(buf[..]) as int)
  {
    hide Crc64.Remainder;
    bufHash := mem.Malloc(Word(0));
    var crc := Crc64.Crc64(buf);
    mem.Store(bufHash, Word(ToWord(crc)));
  }

  lemma SizeOfView(c: map<Ptr, Cell>, entries: map<uint64, Entry>)
    ensures |SeenView(c, entries)| == |entries|
  {
    assert SeenView(c, entries).Keys == entries.Keys;
  }

  lemma SeenEntryAlone(before: map<Ptr, Cell>, entries: map<uint64, Entry>, remaining: set<uint64>, h: uint64)
    requires SeenOk(before, entries) && h in remaining && remaining <= entries.Keys
    ensures var gone := CellsOf(entries - remaining);
            && entries[h].key in before && entries[h].value in before && entries[h].key != entries[h].value
            && entries[h].key !in gone && entries[h].value !in gone
            && CellsOf(entries - (remaining - {h})) == gone + {entries[h].key, entries[h].value}
  {
    assert SeenEntryOk(before, h, entries[h]);
    forall g | g in entries - remaining
      ensures entries[g].key !in {entries[h].key, entries[h].value}
          && entries[g].value !in {entries[h].key, entries[h].value}
    {
      assert g in entries && g != h;
      assert SeenEntryOk(before, g, entries[g]);
    }
    var done := entries - remaining;
    assert entries - (remaining - {h}) == done[h := entries[h]];
    CellsOfUpdate(done, h, entries[h]);
  }

  lemma KnownEntry(c: map<Ptr, Cell>, entries: map<uint64, Entry>, h: uint64)
    requires SeenOk(c, entries) && h in entries
    ensures entries[h].value in c && c[entries[h].value].Count? && entries[h].value in CellsOf(entries)
    ensures entries[h].key in c && c[entries[h].key] == Word(h) && entries[h].key in CellsOf(entries)
  {
    assert SeenEntryOk(c, h, entries[h]);
  }
}
