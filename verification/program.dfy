// The life of the monitor process in c_monitor/main.c: monitor_loop, then free_hashtable.

module Program {
  import opened Base
  import opened Memory
  import opened Counting
  import opened Walks
  import opened KeyCodec
  import opened HitCounting
  import opened BranchGraph
  import opened HitTables
  import opened Sessions
  import opened Teardown
  import opened MonitorLoop
  import opened SeenMachine

  /** The edges kept over all the traces that were processed. */
  ghost function KeptEdges(cfg: Config, events: seq<Event>, n: nat): Edges
    requires n <= |events| && AllTraced(events[..n])
  {
    EdgesOf(AllPairs(cfg, Traces(events[..n])))
  }

  /** The loop, with its outcome told by the counts it leaves in the table. */
  method RunLoop(mem: Heap, table: HitTable, cfg: Config, events: seq<Event>)
    returns (ok: bool, inputN: nat, ghost leaked: set<Ptr>)
    requires mem.Valid() && table.entries == map[]
    modifies mem, table
    ensures mem.Valid() && table.Valid(mem)
    ensures inputN <= |events| && AllTraced(events[..inputN]) && (ok <==> inputN == |events|)
    ensures mem.cells.Keys == old(mem.cells.Keys) + table.Owned() + leaked
    ensures table.Owned() !! old(mem.cells.Keys) && table.Owned() !! leaked && leaked !! old(mem.cells.Keys)
    ensures Losses(Hashes(Accounted(events, inputN)), leaked)
    ensures table.View(mem) == HitsAfter(cfg, Traces(events[..inputN]))
  {
    hide TableOk, CellsOf, CountsOf, Stopped, Losses, Hashes, AllTraced, Accounted, HitsAfter;
    EmptyTables(mem.cells, cfg, events);
    var maxDepth;
    ghost var final;
    ok, inputN, maxDepth, final, leaked := Run(mem, table, cfg, events);
    WhatIsKept(cfg, events, inputN, table.View(mem), maxDepth, final, leaked);
  }

  lemma WhatIsKept(cfg: Config, events: seq<Event>, n: nat, hits: Hits, maxDepth: nat, final: Seen<uint64>,
                   leaked: set<Ptr>)
    requires Stopped(cfg, events, n, hits, maxDepth, final, leaked)
    ensures n <= |events| && AllTraced(events[..n])
    ensures Losses(Hashes(Accounted(events, n)), leaked) && hits == HitsAfter(cfg, Traces(events[..n]))
  {
    hide HitsAfter, Losses, Hashes, MaxOf, Depths, After;
  }

  lemma LiveAtEnd(base: set<Ptr>, owned: set<Ptr>, leaked: set<Ptr>, cells: map<Ptr, Cell>, cells': map<Ptr, Cell>)
    requires cells.Keys == base + owned + leaked && owned !! base && owned !! leaked
    requires cells' == cells - owned
    ensures cells'.Keys == base + leaked
  {
  }

  /** What a run over the first n inputs says at its end.  With a graph file there is one line for each
      edge kept: what its addresses are read back as, and its count.  The size logged, if an edge was
      kept, is that of the edges written; and graph_add answers that both ends exist exactly for an edge
      of an earlier line. */
  ghost predicate Reports(cfg: Config, events: seq<Event>, n: nat, makeGraph: bool, overflow: string -> uint64,
                          edges: seq<Edge>, lines: seq<(Edge, uint64)>, answers: seq<AddResult>,
                          logged: Option<(nat, nat)>)
    requires n <= |events| && AllTraced(events[..n])
  {
    && (makeGraph ==> LinesOfEdges(AllPairs(cfg, Traces(events[..n])), edges, lines, overflow))
    && (!makeGraph ==> lines == [])
    && AnswersOfLines(lines, answers)
    && logged == if makeGraph && KeptEdges(cfg, events, n) != {} then LoggedFor(Drawn(lines)) else None
  }

  /** When the kept addresses fit a signed long, the lines are those of the kept edges, each with its
      count, the logged size is theirs, and graph_add met no edge twice. */
  lemma ReportsOfReadable(cfg: Config, events: seq<Event>, n: nat, overflow: string -> uint64,
                          edges: seq<Edge>, lines: seq<(Edge, uint64)>, answers: seq<AddResult>,
                          logged: Option<(nat, nat)>)
    requires n <= |events| && AllTraced(events[..n])
    requires Reports(cfg, events, n, true, overflow, edges, lines, answers, logged)
    requires forall e :: e in KeptEdges(cfg, events, n) ==> e.0 < 0x8000_0000_0000_0000 && e.1 < 0x8000_0000_0000_0000
    ensures WritesOut(AllPairs(cfg, Traces(events[..n])), lines)
    ensures BothExist !in answers
    ensures var E := KeptEdges(cfg, events, n);
            logged == if E == {} then None else Some((|Sources(E)| + |E|, |E|))
  {
    hide AllPairs, Readable, Sources, Drawn;
    var pairs := AllPairs(cfg, Traces(events[..n]));
    forall e | e in pairs ensures Readable(e) {
      assert e in KeptEdges(cfg, events, n);
      ReadableIs(e);
    }
    ReadableWritesOut(pairs, edges, lines, answers, overflow);
  }

  /** For any inputs processed, the edges written are sure to be those kept exactly when all addresses
      kept fit a signed long. */
  lemma RunRebuilds(cfg: Config, events: seq<Event>, n: nat)
    requires n <= |events| && AllTraced(events[..n])
    ensures SureToWrite(AllPairs(cfg, Traces(events[..n])))
            <==> forall e :: e in KeptEdges(cfg, events, n) ==>
                   e.0 < 0x8000_0000_0000_0000 && e.1 < 0x8000_0000_0000_0000
  {
    hide AllPairs, SureToWrite, EdgesOf;
    FileIsExact(AllPairs(cfg, Traces(events[..n])));
  }

  /** After the loop: release the table and report. */
  method ShutDown(mem: Heap, table: HitTable, cfg: Config, ghost events: seq<Event>, ghost n: nat, makeGraph: bool,
                  overflow: string -> uint64)
    returns (lines: seq<(Edge, uint64)>, answers: seq<AddResult>, logged: Option<(nat, nat)>, ghost edges: seq<Edge>)
    requires mem.Valid() && table.Valid(mem)
    requires n <= |events| && AllTraced(events[..n])
    requires table.View(mem) == HitsAfter(cfg, Traces(events[..n]))
    modifies mem
    ensures mem.cells == old(mem.cells) - table.Owned()
    ensures Reports(cfg, events, n, makeGraph, overflow, edges, lines, answers, logged)
  {
    hide TableOk, CellsOf, CountsOf, DecodedKeys, IsKey, Sources, AllTraced, HitsAfter, AllPairs, EdgesOf,
         LinesOfKeys, LinesOfEdges, AnswersOfLines, Drawn, KeySet;
    ghost var traces, counts := Traces(events[..n]), table.View(mem);
    CountedKeys(mem.cells, table.entries);
    SessionRebuilds(cfg, traces);
    NoKeyNoEdge(cfg, traces);
    ghost var order;
    lines, answers, logged, order := FreeHashtable(mem, table, makeGraph, overflow);
    edges := [];
    if makeGraph {
      edges := SessionFile(cfg, traces, overflow, order, lines);
      DrawnAll(counts, order, lines, overflow);
    }
  }

  lemma NoKeyNoEdge(cfg: Config, traces: seq<seq<Branch>>)
    ensures HitsAfter(cfg, traces).Keys == {} <==> EdgesOf(AllPairs(cfg, traces)) == {}
  {
    hide HitsAfter, AllPairs, EdgesOf;
    SessionRebuilds(cfg, traces);
    assert |HitsAfter(cfg, traces)| == |HitsAfter(cfg, traces).Keys|;
  }

  /** A whole run.  At its end every cell that was allocated has been released exactly once, but for
      the hash cells lost to wrapped counters: as many as Lost says, and none exactly when no hash came
      2^32 times. */
  method RunAndShutDown(mem: Heap, cfg: Config, events: seq<Event>, makeGraph: bool, overflow: string -> uint64)
    returns (ok: bool, inputN: nat, lines: seq<(Edge, uint64)>, answers: seq<AddResult>, logged: Option<(nat, nat)>,
             ghost edges: seq<Edge>, ghost leaked: set<Ptr>)
    requires mem.Valid()
    modifies mem
    ensures inputN <= |events| && AllTraced(events[..inputN]) && (ok <==> inputN == |events|)
    ensures mem.cells.Keys == old(mem.cells.Keys) + leaked && leaked !! old(mem.cells.Keys)
    ensures var hs := Hashes(Accounted(events, inputN));
            |leaked| == Lost(0, hs) && (leaked == {} <==> NoWrap(hs, UINT32_LIMIT))
    ensures Reports(cfg, events, inputN, makeGraph, overflow, edges, lines, answers, logged)
    ensures makeGraph && (forall e :: e in KeptEdges(cfg, events, inputN) ==>
                            e.0 < 0x8000_0000_0000_0000 && e.1 < 0x8000_0000_0000_0000) ==>
        WritesOut(AllPairs(cfg, Traces(events[..inputN])), lines) && BothExist !in answers
        && (logged.Some? ==> logged == LoggedFor(KeptEdges(cfg, events, inputN)))
  {
    hide TableOk, CellsOf, CountsOf, NoWrap, Hashes, AllTraced, Accounted, HitsAfter, Lost, Reports, KeptEdges,
         WritesOut;
    var table := new HitTable();
    ok, inputN, leaked := RunLoop(mem, table, cfg, events);
    ghost var c := mem.cells;
    lines, answers, logged, edges := ShutDown(mem, table, cfg, events, inputN, makeGraph, overflow);
    LiveAtEnd(old(mem.cells.Keys), table.Owned(), leaked, c, mem.cells);
    if makeGraph && forall e :: e in KeptEdges(cfg, events, inputN) ==>
         e.0 < 0x8000_0000_0000_0000 && e.1 < 0x8000_0000_0000_0000 {
      ReportsOfReadable(cfg, events, inputN, overflow, edges, lines, answers, logged);
    }
  }
}
