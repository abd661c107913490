// free_hashtable of c_monitor/main.c: the table is released and, on request, read back into a graph.

module Teardown {
  import opened Base
  import opened Memory
  import opened Walks
  import opened Adjacency
  import opened BranchGraph
  import opened Decimal
  import opened KeyCodec
  import BlockMap
  import opened HitCounting
  import opened HitTables
  import opened TraceProcessing
  import opened Sessions

  /** The edges that the keys say, read back one by one. */
  ghost function DecodedKeys(keys: set<string>, overflow: string -> uint64): Edges
    requires forall k :: k in keys ==> IsKey(k)
  {
    set k | k in keys :: Decode(k, overflow)
  }

  // ----- one key

  /** Copy a key, split it, read both numbers, and add the edge to the rebuilt graph. */
  method RebuildEdge(mem: Heap, graph: Graph, key: Ptr, overflow: string -> uint64)
    returns (edge: Edge, result: AddResult, ghost adopted: set<Ptr>)
    requires mem.Valid() && graph.Valid(mem)
    requires key in mem.cells && mem.cells[key].Text? && IsKey(mem.cells[key].chars)
    modifies mem, graph
    ensures mem.Valid() && graph.Valid(mem)
    ensures edge == Decode(old(mem.cells[key].chars), overflow)
    ensures graph.EdgesIn(mem) == old(graph.EdgesIn(mem)) + {edge}
    ensures result == BothExist <==> edge in old(graph.EdgesIn(mem))
    ensures Members(graph.Owned()) == old(Members(graph.Owned())) + adopted && adopted !! old(mem.cells.Keys)
    ensures old(mem.next) <= mem.next && forall p :: p in adopted ==> old(mem.next) <= p
    ensures mem.cells.Keys == old(mem.cells.Keys) + adopted
    ensures forall p :: p in old(mem.cells) ==> p in mem.cells && mem.cells[p] == old(mem.cells[p])
  {
    hide EdgeSet, OwnedBy, WellFormed, EdgeCount, ValidParts, ViewOf, Members, Atol, SplitAt;
    ghost var c0 := mem.cells;
    HeldIsLive(c0, graph.nodes, graph.edges, graph.nNodes);
    var dup := mem.Malloc(mem.Load(key));
    var chars := mem.Load(dup).chars;
    var split := SplitAt(chars);
    var from := mem.Malloc(Word(Atol(chars[..split], overflow)));
    var to := mem.Malloc(Word(Atol(chars[split + 1..], overflow)));
    mem.Free(dup);
    edge := (mem.Load(from).value, mem.Load(to).value);
    ValidSame(c0, mem.cells, graph.nodes, graph.edges, graph.nNodes);
    result := AddAndRelease(mem, graph, from, to);
    adopted := Members(Adopted(result, from, to));
    AdoptedOfTwo(result, from, to);
  }

  // ----- the whole table

  /** The table's entries outside remaining have been released; held are the cells of the graph. */
  ghost predicate Closing(before: map<Ptr, Cell>, entries: map<string, Entry>, remaining: set<string>,
                          cells: map<Ptr, Cell>, held: set<Ptr>)
  {
    && remaining <= entries.Keys
    && cells.Keys == before.Keys - CellsOf(entries - remaining) + held
    && held !! before.Keys
    && forall p :: p in before && p !in CellsOf(entries - remaining) ==> p in cells && cells[p] == before[p]
  }

  lemma ClosingNone(before: map<Ptr, Cell>, entries: map<string, Entry>)
    ensures Closing(before, entries, entries.Keys, before, {})
  {
    assert entries - entries.Keys == map[];
    assert CellsOf<string>(map[]) == {};
  }

  /** The entry about to be released still has its two cells, as they were at the start. */
  lemma EntryStillLive(before: map<Ptr, Cell>, entries: map<string, Entry>, remaining: set<string>,
                       cells: map<Ptr, Cell>, held: set<Ptr>, k: string)
    requires TableOk(before, entries) && Closing(before, entries, remaining, cells, held) && k in remaining
    ensures EntryOk(cells, k, entries[k]) && WordAt(cells, entries[k].value) == WordAt(before, entries[k].value)
    ensures entries[k].key !in CellsOf(entries - remaining) && entries[k].value !in CellsOf(entries - remaining)
    ensures entries[k].key != entries[k].value
  {
    assert EntryOk(before, k, entries[k]);
    forall j | j in entries - remaining
      ensures entries[j].key !in {entries[k].key, entries[k].value}
          && entries[j].value !in {entries[k].key, entries[k].value}
    {
      assert j in entries && j != k;
      assert EntryOk(before, j, entries[j]);
    }
  }

  lemma GoneNext(before: map<Ptr, Cell>, entries: map<string, Entry>, remaining: set<string>, k: string)
    requires TableOk(before, entries) && remaining <= entries.Keys && k in remaining
    ensures CellsOf(entries - (remaining - {k})) == CellsOf(entries - remaining) + {entries[k].key, entries[k].value}
    ensures {entries[k].key, entries[k].value} <= before.Keys
  {
    assert EntryOk(before, k, entries[k]);
    assert entries - (remaining - {k}) == (entries - remaining)[k := entries[k]];
    hide CellsOf, TableOk, EntryOk;
    CellsOfUpdate(entries - remaining, k, entries[k]);
  }

  lemma ClosingNext(before: map<Ptr, Cell>, entries: map<string, Entry>, remaining: set<string>,
                    cells: map<Ptr, Cell>, held: set<Ptr>, k: string, cells': map<Ptr, Cell>, adopted: set<Ptr>)
    requires TableOk(before, entries) && Closing(before, entries, remaining, cells, held) && k in remaining
    requires adopted !! before.Keys
    requires cells'.Keys == cells.Keys + adopted - {entries[k].key, entries[k].value}
    requires forall p :: p in cells && p != entries[k].key && p != entries[k].value ==>
        p in cells' && cells'[p] == cells[p]
    ensures Closing(before, entries, remaining - {k}, cells', held + adopted)
  {
    hide CellsOf, TableOk, EntryOk;
    GoneNext(before, entries, remaining, k);
    LiveAfterRelease(before.Keys, CellsOf(entries - remaining), held, adopted, {entries[k].key, entries[k].value},
        cells.Keys, cells'.Keys);
    forall p | p in before && p !in CellsOf(entries - (remaining - {k}))
      ensures p in cells' && cells'[p] == before[p]
    {
      assert p !in CellsOf(entries - remaining) && p !in {entries[k].key, entries[k].value};
    }
  }

  lemma LiveAfterRelease(base: set<Ptr>, gone: set<Ptr>, held: set<Ptr>, adopted: set<Ptr>, pair: set<Ptr>,
                         live: set<Ptr>, live': set<Ptr>)
    requires live == base - gone + held && held !! base && adopted !! base && pair <= base
    requires live' == live + adopted - pair
    ensures live' == base - (gone + pair) + (held + adopted) && (held + adopted) !! base
  {
  }

  lemma ClosedAll(before: map<Ptr, Cell>, entries: map<string, Entry>, cells: map<Ptr, Cell>, held: set<Ptr>,
      c': map<Ptr, Cell>)
    requires Closing(before, entries, {}, cells, held) && c' == cells - held
    ensures c' == before - CellsOf(entries)
  {
    assert entries - {} == entries;
    hide CellsOf;
  }

  /** Release one entry, after reading it back when a graph is wanted. */
  method FreeEntry(mem: Heap, graph: Graph, k: string, entry: Entry, makeGraph: bool, overflow: string -> uint64)
    returns (lines: seq<(Edge, uint64)>, answers: seq<AddResult>, ghost adopted: set<Ptr>)
    requires mem.Valid() && graph.Valid(mem)
    requires EntryOk(mem.cells, k, entry) && IsKey(k) && entry.key != entry.value
    requires entry.key !in Members(graph.Owned()) && entry.value !in Members(graph.Owned())
    modifies mem, graph
    ensures mem.Valid() && graph.Valid(mem)
    ensures var e := Decode(k, overflow);
            && graph.EdgesIn(mem) == old(graph.EdgesIn(mem)) + (if makeGraph then {e} else {})
            && lines == (if makeGraph then [(e, old(WordAt(mem.cells, entry.value)))] else [])
            && |answers| == |lines|
            && (makeGraph ==> (answers[0] == BothExist <==> e in old(graph.EdgesIn(mem))))
    ensures Members(graph.Owned()) == old(Members(graph.Owned())) + adopted && adopted !! old(mem.cells.Keys)
    ensures old(mem.next) <= mem.next && forall p :: p in adopted ==> old(mem.next) <= p
    ensures mem.cells.Keys == old(mem.cells.Keys) + adopted - {entry.key, entry.value}
    ensures forall p :: p in old(mem.cells) && p != entry.key && p != entry.value ==>
        p in mem.cells && mem.cells[p] == old(mem.cells[p])
  {
    hide EdgeSet, OwnedBy, ValidParts, ViewOf, Members, Decode, IsKey;
    lines, answers, adopted := [], [], {};
    if makeGraph {
      var edge, result;
      edge, result, adopted := RebuildEdge(mem, graph, entry.key, overflow);
      lines := [(edge, mem.Load(entry.value).value)];
      answers := [result];
    }
    ghost var c := mem.cells;
    mem.Free(entry.key);
    mem.Free(entry.value);
    MembersIn(graph.Owned());
    HeldIsLive(c, graph.nodes, graph.edges, graph.nNodes);
    ValidSame(c, mem.cells, graph.nodes, graph.edges, graph.nNodes);
  }

  /** The edges that some lines say. */
  ghost function Drawn(lines: seq<(Edge, uint64)>): Edges {
    set l | l in lines :: l.0
  }

  /** One line for each key, in this order, with the key's edge and count. */
  ghost predicate LinesOfKeys(counts: map<string, nat>, order: seq<string>, lines: seq<(Edge, uint64)>,
                              overflow: string -> uint64)
  {
    && |lines| == |order|
    && forall i :: 0 <= i < |order| ==>
        order[i] in counts && IsKey(order[i]) && lines[i] == (Decode(order[i], overflow), counts[order[i]])
  }

  /** graph_add answers that both ends exist exactly for an edge that an earlier line has. */
  ghost predicate AnswersOfLines(lines: seq<(Edge, uint64)>, answers: seq<AddResult>) {
    && |answers| == |lines|
    && forall i :: 0 <= i < |lines| ==>
        (answers[i] == BothExist <==> exists j :: 0 <= j < i && lines[j].0 == lines[i].0)
  }

  /** What has been read back once the keys in order are done, and those in remaining are not. */
  ghost predicate ReadBack(counts: map<string, nat>, remaining: set<string>, overflow: string -> uint64, E: Edges,
                           order: seq<string>, lines: seq<(Edge, uint64)>, answers: seq<AddResult>)
  {
    && remaining <= counts.Keys
    && multiset(order) == multiset(counts.Keys - remaining)
    && LinesOfKeys(counts, order, lines, overflow)
    && AnswersOfLines(lines, answers)
    && E == Drawn(lines)
    && multiset(answers)[BothExist] + |E| == |order|
  }

  lemma ReadBackNone(counts: map<string, nat>, overflow: string -> uint64)
    ensures ReadBack(counts, counts.Keys, overflow, {}, [], [], [])
  {
    assert counts.Keys - counts.Keys == {};
  }

  lemma DrawnNext(lines: seq<(Edge, uint64)>, l: (Edge, uint64))
    ensures Drawn(lines + [l]) == Drawn(lines) + {l.0}
    ensures l.0 in Drawn(lines) <==> exists j :: 0 <= j < |lines| && lines[j].0 == l.0
  {
    if l.0 in Drawn(lines) {
      var x :| x in lines && x.0 == l.0;
      var j :| 0 <= j < |lines| && lines[j] == x;
    }
  }

  lemma AnswersNext(lines: seq<(Edge, uint64)>, answers: seq<AddResult>, l: (Edge, uint64), answer: AddResult)
    requires AnswersOfLines(lines, answers)
    requires answer == BothExist <==> l.0 in Drawn(lines)
    ensures AnswersOfLines(lines + [l], answers + [answer])
  {
    DrawnNext(lines, l);
    hide Drawn;
    var lines', answers' := lines + [l], answers + [answer];
    forall i | 0 <= i < |lines'|
      ensures answers'[i] == BothExist <==> exists j :: 0 <= j < i && lines'[j].0 == lines'[i].0
    {
      if i < |lines| {
        assert (exists j :: 0 <= j < i && lines'[j].0 == lines'[i].0)
          <==> (exists j :: 0 <= j < i && lines[j].0 == lines[i].0) by {
          if j :| 0 <= j < i && lines'[j].0 == lines'[i].0 {
            assert lines[j].0 == lines[i].0;
          }
          if j :| 0 <= j < i && lines[j].0 == lines[i].0 {
            assert lines'[j].0 == lines'[i].0;
          }
        }
      } else {
        if j :| 0 <= j < |lines| && lines[j].0 == l.0 {
          assert lines'[j].0 == l.0;
        }
        if j :| 0 <= j < i && lines'[j].0 == lines'[i].0 {
          assert lines[j].0 == l.0;
        }
      }
    }
  }

  lemma OrderNext(keys: set<string>, remaining: set<string>, order: seq<string>, k: string)
    requires remaining <= keys && k in remaining && multiset(order) == multiset(keys - remaining)
    ensures multiset(order + [k]) == multiset(keys - (remaining - {k}))
  {
    assert keys - (remaining - {k}) == (keys - remaining) + {k};
    assert multiset((keys - remaining) + {k}) == multiset(keys - remaining) + multiset{k};
  }

  lemma LinesNext(counts: map<string, nat>, order: seq<string>, lines: seq<(Edge, uint64)>, overflow: string -> uint64,
                  k: string, count: uint64)
    requires LinesOfKeys(counts, order, lines, overflow) && k in counts && IsKey(k) && count == counts[k]
    ensures LinesOfKeys(counts, order + [k], lines + [(Decode(k, overflow), count)], overflow)
  {
    hide Decode, IsKey;
  }

  lemma KnownNext(answers: seq<AddResult>, answer: AddResult)
    ensures multiset(answers + [answer])[BothExist]
        == multiset(answers)[BothExist] + if answer == BothExist then 1 else 0
  {
    assert multiset(answers + [answer]) == multiset(answers) + multiset{answer};
  }

  lemma ReadBackNext(counts: map<string, nat>, remaining: set<string>, overflow: string -> uint64, E: Edges,
                     order: seq<string>, lines: seq<(Edge, uint64)>, answers: seq<AddResult>, k: string,
                     count: uint64, answer: AddResult)
    requires ReadBack(counts, remaining, overflow, E, order, lines, answers)
    requires k in remaining && IsKey(k) && count == counts[k]
    requires answer == BothExist <==> Decode(k, overflow) in E
    ensures var e := Decode(k, overflow);
            ReadBack(counts, remaining - {k}, overflow, E + {e}, order + [k], lines + [(e, count)], answers + [answer])
  {
    hide Decode, IsKey, Drawn, AnswersOfLines, LinesOfKeys;
    var l := (Decode(k, overflow), count);
    OrderNext(counts.Keys, remaining, order, k);
    LinesNext(counts, order, lines, overflow, k, count);
    DrawnNext(lines, l);
    AnswersNext(lines, answers, l, answer);
    KnownNext(answers, answer);
    SizeWith(E, l.0);
  }

  /** The edges drawn at the end are those that the keys say. */
  lemma DrawnAll(counts: map<string, nat>, order: seq<string>, lines: seq<(Edge, uint64)>, overflow: string -> uint64)
    requires multiset(order) == multiset(counts.Keys) && LinesOfKeys(counts, order, lines, overflow)
    ensures forall k :: k in counts ==> IsKey(k)
    ensures Drawn(lines) == DecodedKeys(counts.Keys, overflow)
    ensures |order| == |counts|
  {
    hide Decode, IsKey;
    forall k | k in counts ensures exists i :: 0 <= i < |order| && order[i] == k {
      assert k in multiset(order);
    }
    assert |multiset(order)| == |counts.Keys| == |counts|;
    forall e ensures e in Drawn(lines) <==> e in DecodedKeys(counts.Keys, overflow) {
      if e in Drawn(lines) {
        var i :| 0 <= i < |lines| && lines[i].0 == e;
        assert order[i] in counts.Keys;
      }
      if e in DecodedKeys(counts.Keys, overflow) {
        var k :| k in counts.Keys && Decode(k, overflow) == e;
        var i :| 0 <= i < |order| && order[i] == k;
        assert lines[i] in lines && lines[i].0 == e;
      }
    }
  }

  lemma ReadBackAll(counts: map<string, nat>, keys: set<string>, overflow: string -> uint64, E: Edges,
                    order: seq<string>, lines: seq<(Edge, uint64)>, answers: seq<AddResult>)
    requires ReadBack(counts, {}, overflow, E, order, lines, answers) && keys == counts.Keys
    ensures multiset(order) == multiset(keys)
    ensures LinesOfKeys(counts, order, lines, overflow)
    ensures AnswersOfLines(lines, answers)
    ensures forall k :: k in keys ==> IsKey(k)
    ensures E == DecodedKeys(keys, overflow) && multiset(answers)[BothExist] + |E| == |keys|
  {
    hide Decode, IsKey, DecodedKeys, Drawn, LinesOfKeys, AnswersOfLines;
    assert keys - {} == keys;
    DrawnAll(counts, order, lines, overflow);
    assert |counts| == |counts.Keys|;
  }

  lemma EntryNotHeld(before: map<Ptr, Cell>, entries: map<string, Entry>, remaining: set<string>,
                     cells: map<Ptr, Cell>, held: set<Ptr>, k: string)
    requires TableOk(before, entries) && Closing(before, entries, remaining, cells, held) && k in remaining
    ensures entries[k].key !in held && entries[k].value !in held
  {
    assert EntryOk(before, k, entries[k]);
  }

  lemma EmptyTable(c: map<Ptr, Cell>, entries: map<string, Entry>)
    ensures |entries| == 0 <==> entries == map[]
    ensures entries == map[] ==> c - CellsOf(entries) == c
  {
    if |entries| == 0 {
      assert |entries.Keys| == 0;
      assert CellsOf(entries) == {};
    }
  }

  /** One turn of the loop over the table. */
  method ReleaseNext(mem: Heap, graph: Graph, entries: map<string, Entry>, remaining: set<string>, k: string,
                     makeGraph: bool, overflow: string -> uint64, ghost before: map<Ptr, Cell>,
                     ghost counts: map<string, nat>, ghost order: seq<string>, lines: seq<(Edge, uint64)>,
                     answers: seq<AddResult>)
    returns (lines': seq<(Edge, uint64)>, answers': seq<AddResult>)
    requires mem.Valid() && graph.Valid(mem)
    requires TableOk(before, entries) && IsKey(k)
    requires k in remaining && remaining <= entries.Keys && forall p :: p in before ==> p < mem.next
    requires Closing(before, entries, remaining, mem.cells, Members(graph.Owned()))
    requires counts == CountsOf(before, entries)
    requires makeGraph ==> ReadBack(counts, remaining, overflow, graph.EdgesIn(mem), order, lines, answers)
    modifies mem, graph
    ensures mem.Valid() && graph.Valid(mem) && old(mem.next) <= mem.next
    ensures Closing(before, entries, remaining - {k}, mem.cells, Members(graph.Owned()))
    ensures makeGraph ==>
        ReadBack(counts, remaining - {k}, overflow, graph.EdgesIn(mem), order + [k], lines', answers')
    ensures !makeGraph ==> lines' == lines && answers' == answers
  {
    hide Closing, ReadBack, TableOk, CellsOf, Once, Live, WellFormed, ValidParts, ViewOf, Members, EdgeSet, OwnedBy,
         Decode, IsKey, DecodedKeys, EntryOk, WordAt, CountsOf;
    ghost var c, held, E := mem.cells, Members(graph.Owned()), graph.EdgesIn(mem);
    EntryStillLive(before, entries, remaining, c, held, k);
    EntryNotHeld(before, entries, remaining, c, held, k);
    var out, more, adopted := FreeEntry(mem, graph, k, entries[k], makeGraph, overflow);
    assert adopted !! before.Keys;
    ClosingNext(before, entries, remaining, c, held, k, mem.cells, adopted);
    lines', answers' := lines + out, answers + more;
    if makeGraph {
      CountOf(before, entries, k);
      ReadBackNext(counts, remaining, overflow, E, order, lines, answers, k, out[0].1, more[0]);
      assert out == [out[0]] && more == [more[0]];
    }
  }

  lemma CountOf(before: map<Ptr, Cell>, entries: map<string, Entry>, k: string)
    requires k in entries
    ensures k in CountsOf(before, entries) && CountsOf(before, entries)[k] == WordAt(before, entries[k].value)
  {
  }

  /** The loop over the table, which visits the keys in some order. */
  method ReleaseAll(mem: Heap, graph: Graph, entries: map<string, Entry>, makeGraph: bool, overflow: string -> uint64,
                    ghost before: map<Ptr, Cell>, ghost counts: map<string, nat>)
    returns (lines: seq<(Edge, uint64)>, answers: seq<AddResult>, ghost order: seq<string>)
    requires mem.Valid() && graph.Valid(mem)
    requires TableOk(before, entries) && counts == CountsOf(before, entries)
    requires (forall k :: k in entries ==> IsKey(k)) && forall p :: p in before ==> p < mem.next
    requires Closing(before, entries, entries.Keys, mem.cells, Members(graph.Owned()))
    requires ReadBack(counts, entries.Keys, overflow, graph.EdgesIn(mem), [], [], [])
    modifies mem, graph
    ensures mem.Valid() && graph.Valid(mem)
    ensures Closing(before, entries, {}, mem.cells, Members(graph.Owned()))
    ensures makeGraph ==> ReadBack(counts, {}, overflow, graph.EdgesIn(mem), order, lines, answers)
    ensures !makeGraph ==> lines == [] && answers == []
  {
    hide *;
    lines, answers, order := [], [], [];
    var remaining := entries.Keys;
    while remaining != {}
      invariant mem.Valid() && graph.Valid(mem)
      invariant remaining <= entries.Keys && forall p :: p in before ==> p < mem.next
      invariant Closing(before, entries, remaining, mem.cells, Members(graph.Owned()))
      invariant makeGraph ==> ReadBack(counts, remaining, overflow, graph.EdgesIn(mem), order, lines, answers)
      invariant !makeGraph ==> lines == [] && answers == []
      decreases remaining
    {
      var k :| k in remaining;
      lines, answers :=
        ReleaseNext(mem, graph, entries, remaining, k, makeGraph, overflow, before, counts, order, lines, answers);
      remaining, order := remaining - {k}, order + [k];
    }
  }

  /** The two numbers logged for a graph: sources plus edges, and edges. */
  ghost function LoggedFor(E: Edges): Option<(nat, nat)> {
    Some((|Sources(E)| + |E|, |E|))
  }

  /** After the loop: log the size of the rebuilt graph and release it. */
  method CloseGraph(mem: Heap, graph: Graph, makeGraph: bool) returns (logged: Option<(nat, nat)>)
    requires mem.Valid() && graph.Valid(mem)
    modifies mem
    ensures mem.cells == old(mem.cells) - Members(graph.Owned())
    ensures logged == if makeGraph then LoggedFor(old(graph.EdgesIn(mem))) else None
  {
    hide Once, Live, WellFormed, ValidParts, ViewOf, Members, EdgeSet, OwnedBy;
    logged := None;
    if makeGraph {
      var n := graph.NodeTotal(mem);
      var m := graph.EdgeTotal(mem);
      logged := Some((n, m));
    }
    var printed := graph.PrintAndFreeAll(mem, false);
  }

  lemma NothingReleased(before: map<Ptr, Cell>, entries: map<string, Entry>, nodes: seq<Ptr>, edges: seq<seq<Ptr>>,
                        overflow: string -> uint64)
    requires nodes == [] && edges == []
    ensures ValidParts(before, nodes, edges, 0)
    ensures Closing(before, entries, entries.Keys, before, Members(OwnedBy(nodes, edges)))
    ensures ReadBack(CountsOf(before, entries), entries.Keys, overflow,
                     EdgeSet(ViewOf(before, nodes, edges)), [], [], [])
  {
    hide Closing, ReadBack, WellFormed, ViewOf, Members, EdgeSet, OwnedBy;
    EmptyGraph(before);
    ClosingNone(before, entries);
    ReadBackNone(CountsOf(before, entries), overflow);
    CountedKeys(before, entries);
  }

  /** After the loop only the graph's cells are left to release. */
  method CloseTable(mem: Heap, graph: Graph, makeGraph: bool, ghost before: map<Ptr, Cell>,
                    ghost entries: map<string, Entry>)
    returns (logged: Option<(nat, nat)>)
    requires mem.Valid() && graph.Valid(mem)
    requires Closing(before, entries, {}, mem.cells, Members(graph.Owned()))
    modifies mem
    ensures mem.cells == before - CellsOf(entries)
    ensures logged == if makeGraph then LoggedFor(old(graph.EdgesIn(mem))) else None
  {
    hide Closing, CellsOf, ValidParts, ViewOf, Members, EdgeSet, OwnedBy, LoggedFor;
    ghost var c := mem.cells;
    logged := CloseGraph(mem, graph, makeGraph);
    ClosedAll(before, entries, c, Members(graph.Owned()), mem.cells);
  }

  /** The table of entries is released and, on request, read back. */
  method ReleaseTable(mem: Heap, entries: map<string, Entry>, makeGraph: bool, overflow: string -> uint64,
                      ghost counts: map<string, nat>)
    returns (lines: seq<(Edge, uint64)>, answers: seq<AddResult>, logged: Option<(nat, nat)>, ghost order: seq<string>)
    requires mem.Valid() && TableOk(mem.cells, entries) && counts == CountsOf(mem.cells, entries)
    requires forall k :: k in entries ==> IsKey(k)
    modifies mem
    ensures mem.cells == old(mem.cells) - CellsOf(entries)
    ensures !makeGraph ==> lines == [] && answers == []
    ensures makeGraph ==> ReadBack(counts, {}, overflow, DecodedKeys(entries.Keys, overflow), order, lines, answers)
    ensures logged == if makeGraph then LoggedFor(DecodedKeys(entries.Keys, overflow)) else None
  {
    hide Closing, ReadBack, TableOk, CellsOf, CountsOf, Once, Live, WellFormed, ValidParts, ViewOf, Members, EdgeSet,
         OwnedBy, DecodedKeys, IsKey, Decode, LinesOfKeys, AnswersOfLines, Drawn, LoggedFor;
    ghost var before := mem.cells;
    CountedKeys(before, entries);
    var graph := new Graph();
    NothingReleased(before, entries, graph.nodes, graph.edges, overflow);
    lines, answers, order := ReleaseAll(mem, graph, entries, makeGraph, overflow, before, counts);
    if makeGraph {
      ReadBackAll(counts, entries.Keys, overflow, graph.EdgesIn(mem), order, lines, answers);
    }
    logged := CloseTable(mem, graph, makeGraph, before, entries);
  }

  /** free_hashtable.  Every cell the table held is released, once, and no other cell is touched.  With
      a graph file it writes one line a key, in the order the table is walked in, rebuilds the graph from
      the keys, and logs its size; answers are those of graph_add, one a line. */
  method FreeHashtable(mem: Heap, table: HitTable, makeGraph: bool, overflow: string -> uint64)
    returns (lines: seq<(Edge, uint64)>, answers: seq<AddResult>, logged: Option<(nat, nat)>, ghost order: seq<string>)
    requires mem.Valid() && table.Valid(mem)
    requires forall k :: k in table.entries ==> IsKey(k)
    modifies mem
    ensures mem.cells == old(mem.cells) - table.Owned()
    ensures !makeGraph ==> lines == [] && answers == []
    ensures makeGraph ==> multiset(order) == multiset(table.entries.Keys)
                          && LinesOfKeys(old(table.View(mem)), order, lines, overflow)
    ensures AnswersOfLines(lines, answers)
    ensures logged.None? <==> !makeGraph || table.entries == map[]
    ensures logged.Some? ==> var E := DecodedKeys(table.entries.Keys, overflow);
              logged.value == (|Sources(E)| + |E|, |E|) && multiset(answers)[BothExist] + |E| == |table.entries|
  {
    hide TableOk, CellsOf, DecodedKeys, CountsOf, ReadBack, AnswersOfLines, LinesOfKeys, IsKey, Sources;
    ghost var counts := table.View(mem);
    CountedKeys(mem.cells, table.entries);
    NothingRead(counts, overflow);
    EmptyTable(mem.cells, table.entries);
    lines, answers, logged, order := [], [], None, [];
    if |table.entries| != 0 {
      lines, answers, logged, order := ReleaseTable(mem, table.entries, makeGraph, overflow, counts);
      if makeGraph {
        ghost var E := DecodedKeys(table.entries.Keys, overflow);
        ReadBackAll(counts, table.entries.Keys, overflow, E, order, lines, answers);
      }
    }
  }

  lemma NothingRead(counts: map<string, nat>, overflow: string -> uint64)
    ensures AnswersOfLines([], [])
    ensures counts.Keys == {} ==> multiset([]) == multiset(counts.Keys) && LinesOfKeys(counts, [], [], overflow)
  {
  }

  // ----- what is rebuilt

  ghost function KeySet(E: Edges): set<string> {
    set e | e in E :: Key(e)
  }

  lemma KeysAreKeys(E: Edges)
    ensures forall k :: k in KeySet(E) ==> IsKey(k)
  {
    forall k | k in KeySet(E) ensures IsKey(k) {
      var e :| e in E && Key(e) == k;
      KeySplits(e);
    }
  }

  lemma {:induction false} KeySetSize(E: Edges)
    ensures |KeySet(E)| == |E|
    decreases |E|
  {
    hide Key;
    if E == {} {
      assert KeySet(E) == {};
    } else {
      var e :| e in E;
      var E' := E - {e};
      KeySetSize(E');
      assert Key(e) !in KeySet(E') by {
        forall x | x in E' ensures Key(x) != Key(e) {
          KeyInjective(x, e);
        }
      }
      assert KeySet(E) == KeySet(E') + {Key(e)};
    }
  }

  /** The keys of a set of edges read back as that set, whatever atol does on overflow, exactly when
      every address fits a signed long. */
  lemma RebuildExact(E: Edges)
    ensures forall k :: k in KeySet(E) ==> IsKey(k)
    ensures (forall overflow: string -> uint64 :: DecodedKeys(KeySet(E), overflow) == E)
            <==> forall e :: e in E ==> e.0 < 0x8000_0000_0000_0000 && e.1 < 0x8000_0000_0000_0000
  {
    KeysAreKeys(E);
    if forall e :: e in E ==> Readable(e) {
      forall overflow: string -> uint64 ensures DecodedKeys(KeySet(E), overflow) == E {
        RebuildReadable(E, overflow);
      }
    } else {
      var bad :| bad in E && !Readable(bad);
      var zero: string -> uint64 := _ => 0;
      forall k | k in KeySet(E) ensures Readable(Decode(k, zero)) {
        AtolOfZero(k[..SplitAt(k)]);
        AtolOfZero(k[SplitAt(k) + 1..]);
      }
      assert bad !in DecodedKeys(KeySet(E), zero);
    }
  }

  lemma AtolOfZero(s: string)
    requires AllDigits(s)
    ensures Atol(s, _ => 0) < LONG_LIMIT
  {
  }

  lemma RebuildReadable(E: Edges, overflow: string -> uint64)
    requires forall e :: e in E ==> Readable(e)
    ensures forall k :: k in KeySet(E) ==> IsKey(k)
    ensures DecodedKeys(KeySet(E), overflow) == E
  {
    KeysAreKeys(E);
    forall e | e in E ensures Decode(Key(e), overflow) == e {
      DecodeOfKey(e, overflow);
    }
    hide Key, Decode, IsKey;
    forall e | e in E ensures e in DecodedKeys(KeySet(E), overflow) {
      assert Key(e) in KeySet(E);
    }
  }

  lemma SessionKeySet(cfg: Config, traces: seq<seq<Branch>>)
    ensures HitsAfter(cfg, traces).Keys == KeySet(EdgesOf(AllPairs(cfg, traces)))
  {
    hide Key, HitsAfter, AllPairs;
    forall k ensures k in HitsAfter(cfg, traces).Keys <==> k in KeySet(EdgesOf(AllPairs(cfg, traces))) {
      SessionKeys(cfg, traces, k);
    }
  }

  /** After any session the table has a key for each edge kept, and the keys read back as exactly those
      edges, whatever atol does on overflow, if and only if all their addresses fit a signed long. */
  lemma SessionRebuilds(cfg: Config, traces: seq<seq<Branch>>)
    ensures forall k :: k in HitsAfter(cfg, traces) ==> IsKey(k)
    ensures |EdgesOf(AllPairs(cfg, traces))| == |HitsAfter(cfg, traces)|
    ensures (forall overflow: string -> uint64 ::
               DecodedKeys(HitsAfter(cfg, traces).Keys, overflow) == EdgesOf(AllPairs(cfg, traces)))
            <==> forall e :: e in EdgesOf(AllPairs(cfg, traces)) ==>
                   e.0 < 0x8000_0000_0000_0000 && e.1 < 0x8000_0000_0000_0000
  {
    hide HitsAfter, AllPairs, EdgesOf, DecodedKeys, IsKey;
    var E := EdgesOf(AllPairs(cfg, traces));
    SessionKeySet(cfg, traces);
    RebuildExact(E);
    KeySetSize(E);
    assert |HitsAfter(cfg, traces)| == |HitsAfter(cfg, traces).Keys|;
  }

  /** The monitor does keep edges that do not read back: its kernel addresses start far above 2^63. */
  lemma UnreadableIsKept()
    ensures var br, cfg := Branch(0x8000_0000_0000_0000, 1, 0), Config(None, []);
            && Kept(cfg, br) && Pairs(cfg, [br]) == [(br.from, br.to)] && !Readable((br.from, br.to))
            && EdgesOf(AllPairs(cfg, [[br]])) == {(br.from, br.to)}
  {
    var br, cfg := Branch(0x8000_0000_0000_0000, 1, 0), Config(None, []);
    BlockMap.NoBlocks((br.from, br.to));
    assert PairOf(cfg, br) == [(br.from, br.to)];
    assert [br][..0] == [] && [[br]][..0] == [];
    assert Pairs(cfg, [br]) == [(br.from, br.to)];
    assert AllPairs(cfg, [[br]]) == [(br.from, br.to)];
  }

  // ----- what is written

  lemma VisitedOnce<K>(order: seq<K>, keys: set<K>, j: nat, i: nat)
    requires multiset(order) == multiset(keys) && j < i < |order|
    ensures order[j] != order[i]
  {
    assert order == order[..i] + [order[i]] + order[i + 1..];
    assert multiset(order) == multiset(order[..i]) + multiset{order[i]} + multiset(order[i + 1..]);
    assert order[j] in multiset(order[..i]);
    assert multiset(order)[order[i]] <= 1;
  }

  /** One line for each edge of pairs, in this order: what its addresses are read back as, and the number
      of times the edge occurs in pairs, modulo 2^64. */
  ghost predicate LinesOfEdges(pairs: seq<Edge>, edges: seq<Edge>, lines: seq<(Edge, uint64)>,
                               overflow: string -> uint64)
  {
    && (forall e :: e in edges <==> e in pairs)
    && (forall i, j :: 0 <= i < j < |edges| ==> edges[i] != edges[j])
    && |lines| == |edges|
    && forall i :: 0 <= i < |lines| ==>
        lines[i] == (ReadAs(edges[i], overflow), multiset(pairs)[edges[i]] % UINT64_LIMIT)
  }

  ghost function EdgeOfKey(E: Edges, k: string): (e: Edge)
    requires k in KeySet(E)
    ensures e in E && Key(e) == k
  {
    var e :| e in E && Key(e) == k;
    e
  }

  lemma LineOfEdge(cfg: Config, traces: seq<seq<Branch>>, overflow: string -> uint64, e: Edge)
    requires e in AllPairs(cfg, traces)
    ensures IsKey(Key(e)) && Decode(Key(e), overflow) == ReadAs(e, overflow)
    ensures Key(e) in HitsAfter(cfg, traces)
    ensures HitsAfter(cfg, traces)[Key(e)] == multiset(AllPairs(cfg, traces))[e] % UINT64_LIMIT
  {
    hide HitsAfter, AllPairs, Key, Decode, IsKey, ReadAs;
    DecodeOfKey(e, overflow);
    SessionCounts(cfg, traces, e);
  }

  lemma OrderOfEdges(E: Edges, order: seq<string>) returns (edges: seq<Edge>)
    requires multiset(order) == multiset(KeySet(E))
    ensures |edges| == |order| && forall i :: 0 <= i < |order| ==> edges[i] in E && Key(edges[i]) == order[i]
    ensures forall e :: e in edges <==> e in E
    ensures forall i, j :: 0 <= i < j < |edges| ==> edges[i] != edges[j]
  {
    hide Key, KeySet;
    forall i | 0 <= i < |order| ensures order[i] in KeySet(E) {
      assert order[i] in multiset(order);
    }
    edges := seq(|order|, i requires 0 <= i < |order| => EdgeOfKey(E, order[i]));
    forall e | e in E ensures e in edges {
      assert Key(e) in KeySet(E) by {
        KeyInSet(E, e);
      }
      assert Key(e) in multiset(order);
      var i :| 0 <= i < |order| && order[i] == Key(e);
      KeyInjective(e, edges[i]);
    }
    forall i, j | 0 <= i < j < |edges| ensures edges[i] != edges[j] {
      VisitedOnce(order, KeySet(E), i, j);
    }
  }

  lemma KeyInSet(E: Edges, e: Edge)
    requires e in E
    ensures Key(e) in KeySet(E)
  {
  }

  /** After any session the graph file has one line for each edge kept. */
  lemma SessionFile(cfg: Config, traces: seq<seq<Branch>>, overflow: string -> uint64, order: seq<string>,
                    lines: seq<(Edge, uint64)>)
    returns (edges: seq<Edge>)
    requires var counts := HitsAfter(cfg, traces);
             multiset(order) == multiset(counts.Keys) && LinesOfKeys(counts, order, lines, overflow)
    ensures LinesOfEdges(AllPairs(cfg, traces), edges, lines, overflow)
  {
    hide HitsAfter, AllPairs, Key, Decode, IsKey, ReadAs, KeySet;
    var pairs := AllPairs(cfg, traces);
    SessionKeySet(cfg, traces);
    edges := OrderOfEdges(EdgesOf(pairs), order);
    forall i | 0 <= i < |lines|
      ensures lines[i] == (ReadAs(edges[i], overflow), multiset(pairs)[edges[i]] % UINT64_LIMIT)
    {
      LineOfEdge(cfg, traces, overflow, edges[i]);
    }
  }

  lemma {:induction false} Listing(E: Edges) returns (edges: seq<Edge>)
    ensures forall e :: e in edges <==> e in E
    ensures forall i, j :: 0 <= i < j < |edges| ==> edges[i] != edges[j]
    decreases |E|
  {
    edges := [];
    if E != {} {
      var e :| e in E;
      var rest := Listing(E - {e});
      edges := rest + [e];
      assert forall i :: 0 <= i < |rest| ==> rest[i] in rest;
    }
  }

  /** What the lines of a file say: every address below 2^63 as it is, and each edge's count. */
  lemma LinesAreRead(pairs: seq<Edge>, edges: seq<Edge>, lines: seq<(Edge, uint64)>, overflow: string -> uint64, i: nat)
    requires LinesOfEdges(pairs, edges, lines, overflow) && i < |lines|
    ensures var e := edges[i];
            lines[i] == ((if e.0 < 0x8000_0000_0000_0000 then e.0 else overflow(Print(e.0)),
                          if e.1 < 0x8000_0000_0000_0000 then e.1 else overflow(Print(e.1))),
                         multiset(pairs)[e] % 0x1_0000_0000_0000_0000)
  {
  }

  /** Whatever atol does on overflow, the edges written for pairs are those of pairs. */
  ghost predicate SureToWrite(pairs: seq<Edge>) {
    forall overflow: string -> uint64, edges: seq<Edge>, lines: seq<(Edge, uint64)> ::
      LinesOfEdges(pairs, edges, lines, overflow) ==> Drawn(lines) == EdgesOf(pairs)
  }

  /** The edges written are sure to be those kept if and only if all addresses kept fit a signed long. */
  lemma FileIsExact(pairs: seq<Edge>)
    ensures SureToWrite(pairs)
            <==> forall e :: e in EdgesOf(pairs) ==> e.0 < 0x8000_0000_0000_0000 && e.1 < 0x8000_0000_0000_0000
  {
    if forall e :: e in pairs ==> Readable(e) {
      forall overflow: string -> uint64, edges: seq<Edge>, lines: seq<(Edge, uint64)> |
        LinesOfEdges(pairs, edges, lines, overflow)
        ensures Drawn(lines) == EdgesOf(pairs)
      {
        ReadableFile(pairs, edges, lines, overflow);
      }
    } else {
      var bad :| bad in pairs && !Readable(bad);
      UnreadableFile(pairs, bad);
    }
  }

  lemma ReadableFile(pairs: seq<Edge>, edges: seq<Edge>, lines: seq<(Edge, uint64)>, overflow: string -> uint64)
    requires LinesOfEdges(pairs, edges, lines, overflow) && forall e :: e in pairs ==> Readable(e)
    ensures Drawn(lines) == EdgesOf(pairs)
  {
    forall i | 0 <= i < |lines| ensures lines[i].0 == edges[i] && edges[i] in pairs {
      assert edges[i] in edges;
    }
    forall e | e in EdgesOf(pairs) ensures e in Drawn(lines) {
      var i :| 0 <= i < |edges| && edges[i] == e;
      assert lines[i] in lines;
    }
  }

  /** If overflow gives 0, an edge that does not fit is not written. */
  lemma UnreadableFile(pairs: seq<Edge>, bad: Edge)
    requires bad in pairs && !Readable(bad)
    ensures exists overflow: string -> uint64, edges: seq<Edge>, lines: seq<(Edge, uint64)> ::
              LinesOfEdges(pairs, edges, lines, overflow) && Drawn(lines) != EdgesOf(pairs)
  {
    var zero: string -> uint64 := _ => 0;
    var edges := Listing(EdgesOf(pairs));
    var lines := seq(|edges|, i requires 0 <= i < |edges| =>
      (ReadAs(edges[i], zero), (multiset(pairs)[edges[i]] % UINT64_LIMIT) as uint64));
    assert LinesOfEdges(pairs, edges, lines, zero);
    assert bad in EdgesOf(pairs) && bad !in Drawn(lines);
  }

  /** One line for each edge of pairs, with the number of times it occurs in pairs, modulo 2^64. */
  ghost predicate WritesOut(pairs: seq<Edge>, lines: seq<(Edge, uint64)>) {
    && (forall i, j :: 0 <= i < j < |lines| ==> lines[i].0 != lines[j].0)
    && Drawn(lines) == EdgesOf(pairs)
    && forall i :: 0 <= i < |lines| ==> lines[i].1 == multiset(pairs)[lines[i].0] % UINT64_LIMIT
  }

  lemma ReadableWritesOut(pairs: seq<Edge>, edges: seq<Edge>, lines: seq<(Edge, uint64)>, answers: seq<AddResult>,
                          overflow: string -> uint64)
    requires LinesOfEdges(pairs, edges, lines, overflow) && AnswersOfLines(lines, answers)
    requires forall e :: e in pairs ==> Readable(e)
    ensures WritesOut(pairs, lines)
    ensures BothExist !in answers
  {
    ReadableFile(pairs, edges, lines, overflow);
    hide Drawn, EdgesOf;
    forall i | 0 <= i < |lines| ensures lines[i].0 == edges[i] {
      assert edges[i] in edges;
    }
  }

  /** After a session whose kept addresses all fit a signed long, the graph file has one line for each
      edge kept, with its count modulo 2^64, and graph_add never answers that both ends exist. */
  lemma SessionLines(cfg: Config, traces: seq<seq<Branch>>, overflow: string -> uint64, order: seq<string>,
                     lines: seq<(Edge, uint64)>, answers: seq<AddResult>)
    requires forall e :: e in AllPairs(cfg, traces) ==> e.0 < 0x8000_0000_0000_0000 && e.1 < 0x8000_0000_0000_0000
    requires var counts := HitsAfter(cfg, traces);
             multiset(order) == multiset(counts.Keys) && LinesOfKeys(counts, order, lines, overflow)
    requires AnswersOfLines(lines, answers)
    ensures WritesOut(AllPairs(cfg, traces), lines)
    ensures BothExist !in answers
  {
    hide HitsAfter, AllPairs, LinesOfKeys, LinesOfEdges, WritesOut, AnswersOfLines;
    var edges := SessionFile(cfg, traces, overflow, order, lines);
    ReadableWritesOut(AllPairs(cfg, traces), edges, lines, answers, overflow);
  }
}
