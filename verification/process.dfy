// process_branches of c_monitor/main.c.

module TraceProcessing {
  import opened Base
  import opened Memory
  import opened Counting
  import opened Walks
  import opened KeyCodec
  import opened BlockMap
  import opened Adjacency
  import opened BranchGraph
  import opened HitCounting
  import opened HitTables

  /** Add an edge and release the cells that the graph did not keep. */
  method AddAndRelease(mem: Heap, graph: Graph, from: Ptr, to: Ptr) returns (result: AddResult)
    requires mem.Valid() && graph.Valid(mem)
    requires IsWord(mem.cells, from) && IsWord(mem.cells, to)
    requires from != to && from !in graph.Owned() && to !in graph.Owned()
    modifies mem, graph
    ensures mem.Valid() && graph.Valid(mem) && mem.next == old(mem.next)
    ensures graph.EdgesIn(mem) == old(graph.EdgesIn(mem) + {(WordAt(mem.cells, from), WordAt(mem.cells, to))})
    ensures result == BothExist <==> old((WordAt(mem.cells, from), WordAt(mem.cells, to)) in graph.EdgesIn(mem))
    ensures Members(graph.Owned()) == Members(old(graph.Owned())) + Members(Adopted(result, from, to))
    ensures mem.cells == old(mem.cells) - ({from, to} - Members(Adopted(result, from, to)))
  {
    hide EdgeSet, OwnedBy, ViewOf, ValidParts, Members;
    ghost var c, owned0 := mem.cells, graph.Owned();
    result := graph.Add(mem, from, to);
    MembersKept(owned0, result, from, to);
    match result {
      case BothExist =>
        mem.Free(to);
        mem.Free(from);
      case FromExists =>
        mem.Free(from);
      case Added =>
    }
    assert mem.cells == c - Left(result, from, to);
    HeldIsLive(c, graph.nodes, graph.edges, graph.nNodes);
    ValidSame(c, mem.cells, graph.nodes, graph.edges, graph.nNodes);
  }

  /** The cells of an addition that the graph did not keep. */
  ghost function Left(result: AddResult, from: Ptr, to: Ptr): set<Ptr> {
    match result
    case Added => {}
    case FromExists => {from}
    case BothExist => {to, from}
  }

  lemma MembersKept(owned0: multiset<Ptr>, result: AddResult, from: Ptr, to: Ptr)
    requires from != to && from !in owned0 && to !in owned0
    ensures Members(owned0 + Adopted(result, from, to)) == Members(owned0) + Members(Adopted(result, from, to))
    ensures Left(result, from, to) == {from, to} - Members(Adopted(result, from, to))
    ensures forall p :: p in owned0 + Adopted(result, from, to) ==> p !in Left(result, from, to)
  {
  }

  lemma HeldIsLive(c: map<Ptr, Cell>, nodes: seq<Ptr>, edges: seq<seq<Ptr>>, n: nat)
    requires ValidParts(c, nodes, edges, n)
    ensures forall p :: p in OwnedBy(nodes, edges) ==> p in c
    ensures Members(OwnedBy(nodes, edges)) <= c.Keys
  {
    hide OwnedBy, WellFormed;
  }

  /** Who holds the live cells while a trace is processed: what was live before, the table, and the
      graph of this call.  before and owned0 are the memory and the table's cells at the start. */
  ghost predicate Books(before: map<Ptr, Cell>, owned0: set<Ptr>, cells: map<Ptr, Cell>, owned: set<Ptr>,
                        held: set<Ptr>)
  {
    && cells.Keys == before.Keys + owned + held
    && held !! before.Keys && held !! owned
    && owned0 <= owned && (owned - owned0) !! before.Keys
    && forall p :: p in before && p !in owned0 ==> p in cells && cells[p] == before[p]
  }

  lemma BooksAfterBranch(before: map<Ptr, Cell>, owned0: set<Ptr>, c: map<Ptr, Cell>, owned: set<Ptr>, held: set<Ptr>,
                         key: Ptr, adopted: set<Ptr>, value: Ptr, isNew: bool,
                         c': map<Ptr, Cell>, owned': set<Ptr>)
    requires Books(before, owned0, c, owned, held)
    requires adopted !! c.Keys && key !in c && value !in c && key !in adopted && value !in adopted && key != value
    requires owned' == if isNew then owned + {key, value} else owned
    requires c'.Keys == c.Keys + adopted + if isNew then {key, value} else {}
    requires forall p :: p in c && p !in owned ==> p in c' && c'[p] == c[p]
    ensures Books(before, owned0, c', owned', held + adopted)
  {
  }

  /** The cells of one branch: two addresses, already mapped, and the key text. */
  method NewCells(mem: Heap, bbs: seq<Block>, branch: Edge) returns (fromBb: Ptr, toBb: Ptr, key: Ptr)
    requires mem.Valid()
    modifies mem
    ensures mem.Valid() && old(mem.next) <= fromBb < toBb < key < mem.next
    ensures forall p :: p in old(mem.cells) ==> p in mem.cells && mem.cells[p] == old(mem.cells[p])
    ensures mem.cells.Keys == old(mem.cells.Keys) + {fromBb, toBb, key}
    ensures mem.cells[fromBb] == Word(MapBranch(bbs, branch).0) && mem.cells[toBb] == Word(MapBranch(bbs, branch).1)
    ensures mem.cells[key] == Text(Key(MapBranch(bbs, branch)))
  {
    hide Key, MapBranch;
    fromBb := mem.Malloc(Word(0));
    toBb := mem.Malloc(Word(0));
    var from, to := MapToBlocks(bbs, branch);
    mem.Store(fromBb, Word(from));
    mem.Store(toBb, Word(to));
    key := mem.Malloc(Text(Key((from, to))));
  }

  /** Fresh cells disturb neither the graph nor the table. */
  lemma FreshCells(c: map<Ptr, Cell>, c': map<Ptr, Cell>, nodes: seq<Ptr>, edges: seq<seq<Ptr>>, n: nat,
      entries: map<string, Entry>)
    requires ValidParts(c, nodes, edges, n) && TableOk(c, entries)
    requires forall p :: p in c ==> p in c' && c'[p] == c[p]
    ensures ValidParts(c', nodes, edges, n) && TableOk(c', entries)
    ensures ViewOf(c', nodes, edges) == ViewOf(c, nodes, edges)
    ensures CountsOf(c', entries) == CountsOf(c, entries)
    ensures Members(OwnedBy(nodes, edges)) <= c.Keys && CellsOf(entries) <= c.Keys
  {
    hide OwnedBy, WellFormed, EdgeCount;
    ValidSame(c, c', nodes, edges, n);
    CellsAreLive(c, entries);
    TableSame(c, c', entries);
  }

  /** First half of the loop body: the cells of a branch and its edge. */
  method AddBranch(mem: Heap, graph: Graph, ghost entries: map<string, Entry>, bbs: seq<Block>, branch: Edge)
    returns (key: Ptr, ghost adopted: set<Ptr>)
    requires mem.Valid() && graph.Valid(mem) && TableOk(mem.cells, entries)
    modifies mem, graph
    ensures mem.Valid() && graph.Valid(mem) && TableOk(mem.cells, entries)
    ensures CountsOf(mem.cells, entries) == CountsOf(old(mem.cells), entries)
    ensures graph.EdgesIn(mem) == old(graph.EdgesIn(mem)) + {MapBranch(bbs, branch)}
    ensures old(mem.next) <= key < mem.next && key !in adopted
    ensures forall p :: p in adopted ==> old(mem.next) <= p < mem.next
    ensures Members(graph.Owned()) == old(Members(graph.Owned())) + adopted
    ensures mem.cells.Keys == old(mem.cells.Keys) + adopted + {key}
    ensures mem.cells[key] == Text(Key(MapBranch(bbs, branch)))
    ensures forall p :: p in old(mem.cells) ==> p in mem.cells && mem.cells[p] == old(mem.cells[p])
  {
    hide EdgeSet, OwnedBy, WellFormed, EdgeCount, Key, MapBranch, ValidParts, TableOk, CellsOf, CountsOf, ViewOf,
         Members;
    ghost var c0 := mem.cells;
    var fromBb, toBb;
    fromBb, toBb, key := NewCells(mem, bbs, branch);
    FreshCells(c0, mem.cells, graph.nodes, graph.edges, graph.nNodes, entries);
    NotMember(graph.Owned(), c0.Keys);
    ghost var c1 := mem.cells;
    var result := AddAndRelease(mem, graph, fromBb, toBb);
    adopted := Members(Adopted(result, fromBb, toBb));
    AdoptedOfTwo(result, fromBb, toBb);
    CellsAfterAdd(c0, c1, mem.cells, fromBb, toBb, key, adopted);
    TableSame(c1, mem.cells, entries);
  }

  lemma CellsAfterAdd(c0: map<Ptr, Cell>, c1: map<Ptr, Cell>, c2: map<Ptr, Cell>, from: Ptr, to: Ptr, key: Ptr,
                      adopted: set<Ptr>)
    requires c1.Keys == c0.Keys + {from, to, key} && {from, to, key} !! c0.Keys && key != from && key != to
    requires forall p :: p in c0 ==> c1[p] == c0[p]
    requires adopted <= {from, to} && c2 == c1 - ({from, to} - adopted)
    ensures c2.Keys == c0.Keys + adopted + {key} && c2[key] == c1[key]
    ensures forall p :: p in c0 ==> p in c2 && c2[p] == c0[p] && c2[p] == c1[p]
  {
  }

  lemma NotMember(m: multiset<Ptr>, live: set<Ptr>)
    requires Members(m) <= live
    ensures forall p :: p !in live ==> p !in m
  {
    forall p | p !in live ensures p !in m {
      assert p in m ==> p in Members(m);
    }
  }

  lemma AdoptedOfTwo(result: AddResult, from: Ptr, to: Ptr)
    ensures Members(Adopted(result, from, to)) <= {from, to}
  {
  }

  /** One kept branch: map it, add it to the graph, count its key (the body of the loop). */
  method RecordBranch(mem: Heap, graph: Graph, table: HitTable, bbs: seq<Block>, branch: Edge,
                      ghost before: map<Ptr, Cell>, ghost owned0: set<Ptr>)
    returns (isNew: bool)
    requires mem.Valid() && graph.Valid(mem) && table.Valid(mem)
    requires Books(before, owned0, mem.cells, table.Owned(), Members(graph.Owned()))
    modifies mem, graph, table
    ensures mem.Valid() && graph.Valid(mem) && table.Valid(mem)
    ensures Books(before, owned0, mem.cells, table.Owned(), Members(graph.Owned()))
    ensures graph.EdgesIn(mem) == old(graph.EdgesIn(mem)) + {MapBranch(bbs, branch)}
    ensures table.View(mem) == Bump(old(table.View(mem)), Key(MapBranch(bbs, branch)), UINT64_LIMIT)
    ensures isNew <==> Key(MapBranch(bbs, branch)) !in old(table.View(mem))
  {
    hide EdgeSet, OwnedBy, WellFormed, EdgeCount, Key, MapBranch, Bump, ValidParts, TableOk, CellsOf, CountsOf,
         ViewOf, Books, Members;
    ghost var c0, owned, held := mem.cells, table.Owned(), Members(graph.Owned());
    CellsAreLive(c0, table.entries);
    CountedKeys(c0, table.entries);
    var key, adopted := AddBranch(mem, graph, table.entries, bbs, branch);
    ghost var c2, value := mem.cells, mem.next;
    isNew := table.CountKey(mem, key);
    GraphApart(before, owned0, c0, owned, held, adopted);
    MembersIn(graph.Owned());
    ValidSame(c2, mem.cells, graph.nodes, graph.edges, graph.nNodes);
    BooksAfterBranch(before, owned0, c0, owned, held, key, adopted, value, isNew, mem.cells, table.Owned());
  }

  lemma MembersIn(m: multiset<Ptr>)
    ensures forall p :: p in m <==> p in Members(m)
  {
  }

  lemma GraphApart(before: map<Ptr, Cell>, owned0: set<Ptr>, c: map<Ptr, Cell>, owned: set<Ptr>, held: set<Ptr>,
      adopted: set<Ptr>)
    requires Books(before, owned0, c, owned, held) && adopted !! c.Keys
    ensures (held + adopted) !! owned
    ensures held <= c.Keys
  {
  }

  lemma PairsSkip(cfg: Config, trace: seq<Branch>, i: nat)
    requires i < |trace| && !Kept(cfg, trace[i])
    ensures Pairs(cfg, trace[..i + 1]) == Pairs(cfg, trace[..i])
  {
    assert trace[..i + 1][..i] == trace[..i];
  }

  lemma PairsTake(cfg: Config, trace: seq<Branch>, i: nat)
    requires i < |trace| && Kept(cfg, trace[i])
    ensures Pairs(cfg, trace[..i + 1]) == Pairs(cfg, trace[..i]) + [MapBranch(cfg.bbs, (trace[i].from, trace[i].to))]
  {
    assert trace[..i + 1][..i] == trace[..i];
  }

  /** What the loop of process_branches has computed from the pairs seen so far. */
  ghost predicate Recorded(h0: Hits, pairs: seq<Edge>, E: Edges, h: Hits, newBranches: nat, filtered: nat) {
    && E == EdgesOf(pairs)
    && h == Tally(h0, KeysOf(pairs), UINT64_LIMIT)
    && newBranches + |h0| == |h|
    && filtered == |pairs|
  }

  lemma RecordedNone(h0: Hits)
    ensures Recorded(h0, [], {}, h0, 0, 0)
  {
    assert EdgesOf([]) == {};
  }

  lemma RecordedNext(h0: Hits, pairs: seq<Edge>, E: Edges, h: Hits, newBranches: nat, filtered: nat, e: Edge)
    requires Recorded(h0, pairs, E, h, newBranches, filtered)
    ensures Recorded(h0, pairs + [e], E + {e}, Bump(h, Key(e), UINT64_LIMIT),
                     if Key(e) in h then newBranches else newBranches + 1, filtered + 1)
  {
    KeysAppend(pairs, [e]);
    KeysOfOne(e);
    TallyNext(h0, KeysOf(pairs), Key(e), UINT64_LIMIT);
    BumpSize(h, Key(e), UINT64_LIMIT);
    hide Key, Bump, Tally, KeysOf;
    assert EdgesOf(pairs + [e]) == EdgesOf(pairs) + {e};
  }

  lemma RecordedAll(cfg: Config, h0: Hits, trace: seq<Branch>, E: Edges, h: Hits, newBranches: nat, filtered: nat)
    requires Recorded(h0, Pairs(cfg, trace), E, h, newBranches, filtered)
    ensures Outcome(h, newBranches, filtered, ConnDepth(E)) == Process(cfg, h0, trace)
    ensures E == EdgesOf(Pairs(cfg, trace))
  {
    hide Tally, KeysOf, ConnDepth;
  }

  lemma NothingHeld(before: map<Ptr, Cell>, entries: map<string, Entry>)
    requires TableOk(before, entries)
    ensures Books(before, CellsOf(entries), before, CellsOf(entries), {})
  {
    CellsAreLive(before, entries);
  }

  /** Releasing what the graph holds leaves what was live before and the table. */
  lemma BooksClosed(before: map<Ptr, Cell>, owned0: set<Ptr>, c: map<Ptr, Cell>, owned: set<Ptr>, held: set<Ptr>,
      c': map<Ptr, Cell>)
    requires Books(before, owned0, c, owned, held) && c' == c - held
    ensures c'.Keys == before.Keys + owned
    ensures owned0 <= owned && (owned - owned0) !! before.Keys
    ensures forall p :: p in before && p !in owned0 ==> p in c' && c'[p] == before[p]
    ensures forall p :: p in owned ==> p in c ==> p in c' && c'[p] == c[p]
  {
  }

  /** The loop of process_branches. */
  method RecordAll(mem: Heap, graph: Graph, table: HitTable, cfg: Config, trace: seq<Branch>)
    returns (newBranches: nat, filtered: nat)
    requires mem.Valid() && table.Valid(mem)
    requires graph.nodes == [] && graph.edges == [] && graph.nNodes == 0
    modifies mem, graph, table
    ensures mem.Valid() && graph.Valid(mem) && table.Valid(mem)
    ensures Books(old(mem.cells), old(table.Owned()), mem.cells, table.Owned(), Members(graph.Owned()))
    ensures Recorded(old(table.View(mem)), Pairs(cfg, trace), graph.EdgesIn(mem), table.View(mem), newBranches,
        filtered)
  {
    hide Books, Recorded, Pairs, Process, Once, Live, WellFormed, ValidParts, TableOk, CellsOf, CountsOf, ViewOf,
         Members, EdgeSet, OwnedBy, Tally, Bump, Key, MapBranch, EdgesOf;
    ghost var before, owned0, h0 := mem.cells, table.Owned(), table.View(mem);
    newBranches, filtered := 0, 0;
    RecordedNone(h0);
    NothingHeld(before, table.entries);
    EmptyGraph(before);
    PairsNone(cfg);
    assert trace[..0] == [];
    for i := 0 to |trace|
      invariant mem.Valid() && graph.Valid(mem) && table.Valid(mem)
      invariant Books(before, owned0, mem.cells, table.Owned(), Members(graph.Owned()))
      invariant Recorded(h0, Pairs(cfg, trace[..i]), graph.EdgesIn(mem), table.View(mem), newBranches, filtered)
    {
      var branch := trace[i];
      if branch.from > KERNEL_START || branch.to > KERNEL_START {
        PairsSkip(cfg, trace, i);
        continue;
      }
      if cfg.bounds.Some? &&
         (branch.from < cfg.bounds.value.start || branch.from > cfg.bounds.value.end
          || branch.to < cfg.bounds.value.start || branch.to > cfg.bounds.value.end)
      {
        PairsSkip(cfg, trace, i);
        continue;
      }
      PairsTake(cfg, trace, i);
      RecordedNext(h0, Pairs(cfg, trace[..i]), graph.EdgesIn(mem), table.View(mem), newBranches, filtered,
                   MapBranch(cfg.bbs, (branch.from, branch.to)));
      filtered := filtered + 1;
      var isNew := RecordBranch(mem, graph, table, cfg.bbs, (branch.from, branch.to), before, owned0);
      if isNew {
        newBranches := newBranches + 1;
      }
    }
    assert trace[..|trace|] == trace;
  }

  /** The end of process_branches: print the graph or not, and release its cells either way. */
  method PrintGraph(mem: Heap, graph: Graph, table: HitTable, toFile: bool, ghost before: map<Ptr, Cell>,
      ghost owned0: set<Ptr>)
    returns (printed: seq<Edge>)
    requires mem.Valid() && graph.Valid(mem) && table.Valid(mem)
    requires Books(before, owned0, mem.cells, table.Owned(), Members(graph.Owned()))
    modifies mem
    ensures mem.Valid() && table.Valid(mem) && table.View(mem) == old(table.View(mem))
    ensures multiset(printed) == if toFile then multiset(old(graph.EdgesIn(mem))) else multiset{}
    ensures mem.cells.Keys == before.Keys + table.Owned()
    ensures owned0 <= table.Owned() && (table.Owned() - owned0) !! before.Keys
    ensures forall p :: p in before && p !in owned0 ==> p in mem.cells && mem.cells[p] == before[p]
  {
    hide TableOk, CellsOf, CountsOf, Books, ValidParts, Members, EdgeSet, ViewOf, OwnedBy;
    ghost var c := mem.cells;
    printed := graph.PrintAndFreeAll(mem, toFile);
    BooksClosed(before, owned0, c, table.Owned(), Members(graph.Owned()), mem.cells);
    CellsAreLive(c, table.entries);
    TableSame(c, mem.cells, table.entries);
  }

  /** process_branches.  It reports what Process says, prints the graph's edges when there are new
      branches, and of all cells it allocated keeps only those the table holds. */
  method ProcessBranches(mem: Heap, table: HitTable, cfg: Config, trace: seq<Branch>)
    returns (newBranches: nat, filtered: nat, depth: nat, printed: seq<Edge>)
    requires mem.Valid() && table.Valid(mem)
    modifies mem, table
    ensures mem.Valid() && table.Valid(mem)
    ensures Outcome(table.View(mem), newBranches, filtered, depth) == Process(cfg, old(table.View(mem)), trace)
    ensures filtered == |KeptRecords(cfg, trace)|
    ensures multiset(printed) == if newBranches > 0 then multiset(EdgesOf(Pairs(cfg, trace))) else multiset{}
    ensures mem.cells.Keys == old(mem.cells.Keys) + table.Owned()
    ensures old(table.Owned()) <= table.Owned() && (table.Owned() - old(table.Owned())) !! old(mem.cells.Keys)
    ensures forall p :: p in old(mem.cells) && p !in old(table.Owned()) ==>
        p in mem.cells && mem.cells[p] == old(mem.cells[p])
  {
    hide Books, Recorded, Pairs, Process, Once, Live, WellFormed, ValidParts, TableOk, CellsOf, CountsOf, ViewOf,
         Members, EdgeSet, OwnedBy, EdgesOf, ConnDepth, KeptRecords;
    ghost var before, owned0, h0 := mem.cells, table.Owned(), table.View(mem);
    var graph := new Graph();
    newBranches, filtered := RecordAll(mem, graph, table, cfg, trace);
    RecordedAll(cfg, h0, trace, graph.EdgesIn(mem), table.View(mem), newBranches, filtered);
    FilteredIs(cfg, h0, trace);
    depth := graph.DepthConn(mem);
    printed := PrintGraph(mem, graph, table, newBranches > 0, before, owned0);
  }

  lemma PairsNone(cfg: Config)
    ensures Pairs(cfg, []) == []
  {
  }
}
