// monitor_loop of c_monitor/main.c: every input is accounted for, traced, and its trace processed.

module MonitorLoop {
  import opened Base
  import opened Memory
  import opened Counting
  import opened Walks
  import opened HitCounting
  import opened HitTables
  import opened TraceProcessing
  import opened Sessions
  import opened SeenMachine
  import opened SeenTables
  import Crc64

  /** An input that arrived, and the branch trace of its run; None when the run failed. */
  datatype Event = Event(buf: seq<bv8>, trace: Option<seq<Branch>>)

  ghost function Hashes(events: seq<Event>): (hs: seq<uint64>)
    ensures |hs| == |events|
  {
    seq(|events|, i requires 0 <= i < |events| => HashOf(events[i].buf))
  }

  ghost predicate AllTraced(events: seq<Event>) {
    forall i :: 0 <= i < |events| ==> events[i].trace.Some?
  }

  ghost function Traces(events: seq<Event>): (traces: seq<seq<Branch>>)
    requires AllTraced(events)
    ensures |traces| == |events|
  {
    seq(|events|, i requires 0 <= i < |events| => events[i].trace.value)
  }

  /** The largest of some numbers, 0 when there are none. */
  ghost function MaxOf(s: seq<nat>): (m: nat)
    ensures forall i :: 0 <= i < |s| ==> s[i] <= m
    ensures m == 0 || m in s
  {
    if s == [] then 0
    else
      var n := |s| - 1;
      var m := MaxOf(s[..n]);
      assert m in s[..n] ==> m in s;
      if s[n] > m then s[n] else m
  }

  /** The graph depths of a session's traces. */
  ghost function Depths(cfg: Config, traces: seq<seq<Branch>>): (ds: seq<nat>)
    ensures |ds| == |traces|
  {
    seq(|traces|, i requires 0 <= i < |traces| => ConnDepth(EdgesOf(Pairs(cfg, traces[i]))))
  }

  /** Who holds the live cells: what was live before the loop, the two tables, and what has been lost. */
  ghost predicate Ledger(base: set<Ptr>, cells: map<Ptr, Cell>, table: set<Ptr>, seen: set<Ptr>, leaked: set<Ptr>) {
    && cells.Keys == base + table + seen + leaked
    && seen !! base && seen !! table && seen !! leaked
    && table !! base && table !! leaked && leaked !! base
  }

  /** The cells lost to wrapped counters: how many there are, and when there is none. */
  ghost predicate Losses(hs: seq<uint64>, leaked: set<Ptr>) {
    |leaked| == Lost(0, hs) && (leaked == {} <==> NoWrap(hs, UINT32_LIMIT))
  }

  lemma LossesNext(hs: seq<uint64>, h: uint64, leaked: set<Ptr>, lost: set<Ptr>, p: Ptr)
    requires Losses(hs, leaked) && lost !! leaked
    requires lost == if Loses(After(0, hs), h) then {p} else {}
    ensures Losses(hs + [h], leaked + lost)
  {
    hide NoWrap, Loses, Lost;
    LostNext(0, hs, h);
    LostExactly(0, hs + [h]);
    assert |leaked + lost| == |leaked| + |lost|;
  }

  /** First half of a turn: account for the input. */
  method SeeInput(mem: Heap, table: HitTable, seen: SeenTable, bytes: seq<bv8>, ghost base: set<Ptr>,
                  ghost leaked: set<Ptr>, ghost hs: seq<uint64>)
    returns (ghost leaked': set<Ptr>)
    requires mem.Valid() && table.Valid(mem) && seen.Valid(mem)
    requires Ledger(base, mem.cells, table.Owned(), seen.Owned(), leaked)
    requires seen.View(mem) == After(0, hs) && Losses(hs, leaked)
    modifies mem, seen
    ensures mem.Valid() && table.Valid(mem) && seen.Valid(mem)
    ensures Ledger(base, mem.cells, table.Owned(), seen.Owned(), leaked')
    ensures seen.View(mem) == After(0, hs + [HashOf(bytes)])
    ensures table.View(mem) == old(table.View(mem))
    ensures Losses(hs + [HashOf(bytes)], leaked')
  {
    hide TableOk, CellsOf, CountsOf, SeenOk, HashOf, After, Step, SeenView, Losses, Loses,
         Crc64.Remainder;
    ghost var c, p := mem.cells, mem.next;
    CellsAreLive(c, table.entries);
    var buf := new bv8[|bytes|](i requires 0 <= i < |bytes| => bytes[i]);
    assert buf[..] == bytes;
    HashIsChecksum(bytes);
    var v, lost := seen.Account(mem, buf);
    leaked' := leaked + lost;
    TableSame(c, mem.cells, table.entries);
    AfterNext(0, hs, HashOf(bytes));
    LossesNext(hs, HashOf(bytes), leaked, lost, p);
  }

  /** Second half of a turn: process the trace and raise the depth high-water mark. */
  method SeeTrace(mem: Heap, table: HitTable, seen: SeenTable, cfg: Config, trace: seq<Branch>, depthSoFar: nat,
                  ghost base: set<Ptr>, ghost leaked: set<Ptr>, ghost traces: seq<seq<Branch>>)
    returns (maxDepth: nat)
    requires mem.Valid() && table.Valid(mem) && seen.Valid(mem)
    requires Ledger(base, mem.cells, table.Owned(), seen.Owned(), leaked)
    requires table.View(mem) == HitsAfter(cfg, traces) && depthSoFar == MaxOf(Depths(cfg, traces))
    modifies mem, table
    ensures mem.Valid() && table.Valid(mem) && seen.Valid(mem)
    ensures Ledger(base, mem.cells, table.Owned(), seen.Owned(), leaked)
    ensures seen.View(mem) == old(seen.View(mem))
    ensures table.View(mem) == HitsAfter(cfg, traces + [trace]) && maxDepth == MaxOf(Depths(cfg, traces + [trace]))
  {
    hide TableOk, CellsOf, CountsOf, SeenOk, SeenView, Process, HitsAfter, MaxOf, Depths;
    ghost var c := mem.cells;
    SeenCellsLive(c, seen.entries);
    CellsAreLive(c, table.entries);
    HitsAfterNext(cfg, traces, trace);
    DepthsNext(cfg, traces, trace);
    maxDepth := depthSoFar;
    var newBranches, filtered, depth, printed := ProcessBranches(mem, table, cfg, trace);
    if depth > maxDepth {
      maxDepth := depth;
    }
    SeenSame(c, mem.cells, seen.entries);
  }

  lemma HitsAfterNext(cfg: Config, traces: seq<seq<Branch>>, trace: seq<Branch>)
    ensures HitsAfter(cfg, traces + [trace]) == Process(cfg, HitsAfter(cfg, traces), trace).hits
  {
    hide Process;
    assert (traces + [trace])[..|traces|] == traces;
  }

  lemma DepthsNext(cfg: Config, traces: seq<seq<Branch>>, trace: seq<Branch>)
    ensures var m := MaxOf(Depths(cfg, traces));
            var d := Process(cfg, HitsAfter(cfg, traces), trace).depth;
            MaxOf(Depths(cfg, traces + [trace])) == if d > m then d else m
  {
    hide ConnDepth, Pairs, EdgesOf, HitsAfter, Tally, KeysOf;
    assert Depths(cfg, traces + [trace])[..|traces|] == Depths(cfg, traces);
  }

  /** The inputs accounted for: all that were traced and, if the loop stopped early, the one after. */
  ghost function Accounted(events: seq<Event>, n: nat): seq<Event>
    requires n <= |events|
  {
    if n < |events| then events[..n + 1] else events
  }

  lemma HashesAre(events: seq<Event>, i: nat)
    requires i < |events|
    ensures Hashes(events)[i] == Crc64.Remainder(events[i].buf) as int
  {
    hide Crc64.Remainder;
    HashIsChecksum(events[i].buf);
  }

  /** When the loop stops at a failed run, the input of that run has been counted like those before. */
  lemma FailedInputCounts(cfg: Config, events: seq<Event>, n: nat, hits: Hits, maxDepth: nat, seen: Seen<uint64>,
                          leaked: set<Ptr>)
    requires Stopped(cfg, events, n, hits, maxDepth, seen, leaked) && n < |events|
    ensures events[n].trace.None?
    ensures var h := Crc64.Remainder(events[n].buf) as int;
            h in seen.counts
            && seen.counts[h] == (multiset(Hashes(events[..n]))[h] + 1) % UINT32_LIMIT
  {
    hide Lost, NoWrap, HitsAfter, MaxOf, Depths, After, Crc64.Remainder, HashOf, Traces, SumCounts;
    var h := HashOf(events[n].buf);
    HashIsChecksum(events[n].buf);
    EventsHashed(events, n);
    SeenCounts(0, Hashes(events[..n]) + [h], h);
    assert multiset(Hashes(events[..n]) + [h])[h] == multiset(Hashes(events[..n]))[h] + 1;
  }

  lemma EventsHashed(events: seq<Event>, n: nat)
    requires n < |events|
    ensures Hashes(Accounted(events, n)) == Hashes(events[..n]) + [HashOf(events[n].buf)]
  {
    hide HashOf;
  }

  /** What a whole number n of turns has brought about. */
  ghost predicate Turned(cfg: Config, events: seq<Event>, n: nat, hits: Hits, maxDepth: nat,
                         seen: Seen<uint64>, leaked: set<Ptr>)
  {
    && n <= |events| && AllTraced(events[..n])
    && hits == HitsAfter(cfg, Traces(events[..n]))
    && maxDepth == MaxOf(Depths(cfg, Traces(events[..n])))
    && seen == After(0, Hashes(events[..n]))
    && Losses(Hashes(events[..n]), leaked)
  }

  /** How the loop ends: stopped after n turns, the input after them accounted for if there was one. */
  ghost predicate Stopped(cfg: Config, events: seq<Event>, n: nat, hits: Hits, maxDepth: nat,
                         seen: Seen<uint64>, leaked: set<Ptr>)
  {
    && n <= |events| && AllTraced(events[..n])
    && (n < |events| ==> events[n].trace.None?)
    && hits == HitsAfter(cfg, Traces(events[..n]))
    && maxDepth == MaxOf(Depths(cfg, Traces(events[..n])))
    && seen == After(0, Hashes(Accounted(events, n)))
    && Losses(Hashes(Accounted(events, n)), leaked)
  }

  /** One turn of the loop. */
  method Turn(mem: Heap, table: HitTable, seen: SeenTable, cfg: Config, events: seq<Event>, n: nat, depthSoFar: nat,
              ghost base: set<Ptr>, ghost leaked: set<Ptr>)
    returns (ok: bool, maxDepth: nat, ghost leaked': set<Ptr>)
    requires mem.Valid() && table.Valid(mem) && seen.Valid(mem) && n < |events|
    requires Ledger(base, mem.cells, table.Owned(), seen.Owned(), leaked)
    requires Turned(cfg, events, n, table.View(mem), depthSoFar, seen.View(mem), leaked)
    modifies mem, table, seen
    ensures mem.Valid() && table.Valid(mem) && seen.Valid(mem)
    ensures Ledger(base, mem.cells, table.Owned(), seen.Owned(), leaked')
    ensures ok <==> events[n].trace.Some?
    ensures if ok then Turned(cfg, events, n + 1, table.View(mem), maxDepth, seen.View(mem), leaked')
            else Stopped(cfg, events, n, table.View(mem), maxDepth, seen.View(mem), leaked')
  {
    hide TableOk, CellsOf, CountsOf, SeenOk, SeenView, HitsAfter, MaxOf, Depths, After, Losses, Hashes, Traces, Ledger;
    var event := events[n];
    EventsNext(events, n);
    maxDepth := depthSoFar;
    leaked' := SeeInput(mem, table, seen, event.buf, base, leaked, Hashes(events[..n]));
    ok := event.trace.Some?;
    if ok {
      maxDepth := SeeTrace(mem, table, seen, cfg, event.trace.value, maxDepth, base, leaked', Traces(events[..n]));
    }
  }

  method Loop(mem: Heap, table: HitTable, seen: SeenTable, cfg: Config, events: seq<Event>, ghost base: set<Ptr>)
    returns (ok: bool, inputN: nat, maxDepth: nat, ghost leaked: set<Ptr>)
    requires mem.Valid() && table.Valid(mem) && seen.Valid(mem)
    requires Ledger(base, mem.cells, table.Owned(), seen.Owned(), {})
    requires Turned(cfg, events, 0, table.View(mem), 0, seen.View(mem), {})
    modifies mem, table, seen
    ensures mem.Valid() && table.Valid(mem) && seen.Valid(mem)
    ensures Ledger(base, mem.cells, table.Owned(), seen.Owned(), leaked)
    ensures Stopped(cfg, events, inputN, table.View(mem), maxDepth, seen.View(mem), leaked)
    ensures ok <==> inputN == |events|
  {
    hide TableOk, CellsOf, CountsOf, SeenOk, SeenView, Turned, Stopped, Ledger;
    ok, inputN, maxDepth, leaked := true, 0, 0, {};
    while inputN < |events|
      invariant mem.Valid() && table.Valid(mem) && seen.Valid(mem)
      invariant inputN <= |events|
      invariant Ledger(base, mem.cells, table.Owned(), seen.Owned(), leaked)
      invariant Turned(cfg, events, inputN, table.View(mem), maxDepth, seen.View(mem), leaked)
    {
      ok, maxDepth, leaked := Turn(mem, table, seen, cfg, events, inputN, maxDepth, base, leaked);
      if !ok {
        return;
      }
      inputN := inputN + 1;
    }
    ok := true;
    AllTurned(cfg, events, table.View(mem), maxDepth, seen.View(mem), leaked);
  }

  lemma AllTurned(cfg: Config, events: seq<Event>, hits: Hits, maxDepth: nat, seen: Seen<uint64>, leaked: set<Ptr>)
    requires Turned(cfg, events, |events|, hits, maxDepth, seen, leaked)
    ensures Stopped(cfg, events, |events|, hits, maxDepth, seen, leaked)
  {
    assert events[..|events|] == events;
  }

  /** A run over one input that arrives 2^32 times, and is traced each time, gets through all of them and
      loses one cell; no shorter run loses any. */
  lemma SameInputLosesACell(cfg: Config, event: Event, n: nat, hits: Hits, maxDepth: nat, seen: Seen<uint64>,
                            leaked: set<Ptr>)
    requires event.trace.Some?
    requires Stopped(cfg, seq(UINT32_LIMIT, _ => event), n, hits, maxDepth, seen, leaked)
    ensures n == UINT32_LIMIT && |leaked| == 1
  {
    hide Lost, NoWrap, HashOf, HitsAfter, MaxOf, Depths, After;
    LostOfOne(0, HashOf(event.buf), Hashes(seq(UINT32_LIMIT, _ => event)));
  }

  lemma ShortRunLosesNothing(cfg: Config, events: seq<Event>, n: nat, hits: Hits, maxDepth: nat, seen: Seen<uint64>,
                             leaked: set<Ptr>)
    requires |events| < UINT32_LIMIT && Stopped(cfg, events, n, hits, maxDepth, seen, leaked)
    ensures leaked == {}
  {
    hide Lost, NoWrap, HashOf, HitsAfter, MaxOf, Depths, After;
    ShortRunsLoseNothing(0, Hashes(Accounted(events, n)));
  }

  /** monitor_loop, from empty tables, over the inputs that arrive until a run fails or none is left.
      final is the accounting at the end, before the seen table is released. */
  method Run(mem: Heap, table: HitTable, cfg: Config, events: seq<Event>)
    returns (ok: bool, inputN: nat, maxDepth: nat, ghost final: Seen<uint64>, ghost leaked: set<Ptr>)
    requires mem.Valid() && table.entries == map[]
    modifies mem, table
    ensures mem.Valid() && table.Valid(mem)
    ensures Stopped(cfg, events, inputN, table.View(mem), maxDepth, final, leaked)
    ensures ok <==> inputN == |events|
    ensures mem.cells.Keys == old(mem.cells.Keys) + table.Owned() + leaked
    ensures table.Owned() !! old(mem.cells.Keys) && table.Owned() !! leaked && leaked !! old(mem.cells.Keys)
  {
    hide TableOk, CellsOf, CountsOf, SeenOk, SeenView, Turned, Stopped;
    ghost var base := mem.cells.Keys;
    var seen := new SeenTable();
    EmptyTables(mem.cells, cfg, events);
    ok, inputN, maxDepth, leaked := Loop(mem, table, seen, cfg, events, base);
    final := seen.View(mem);
    ghost var c := mem.cells;
    seen.FreeAll(mem);
    CellsAreLive(c, table.entries);
    TableSame(c, mem.cells, table.entries);
  }

  lemma EmptyTables(c: map<Ptr, Cell>, cfg: Config, events: seq<Event>)
    ensures TableOk(c, map[]) && SeenOk(c, map[])
    ensures CellsOf<string>(map[]) == {} && CellsOf<uint64>(map[]) == {}
    ensures Turned(cfg, events, 0, CountsOf(c, map[]), 0, Seen(SeenView(c, map[]), 0, 0, 0), {})
  {
    assert events[..0] == [];
    assert Traces([]) == [] && Depths(cfg, []) == [] && Hashes([]) == [];
    assert CountsOf(c, map[]) == map[] && SeenView(c, map[]) == map[];
  }

  lemma EventsNext(events: seq<Event>, n: nat)
    requires n < |events| && AllTraced(events[..n])
    ensures Hashes(events[..n + 1]) == Hashes(events[..n]) + [HashOf(events[n].buf)]
    ensures events[n].trace.Some? ==> AllTraced(events[..n + 1])
                                      && Traces(events[..n + 1]) == Traces(events[..n]) + [events[n].trace.value]
  {
    hide HashOf;
  }
}
