// The branch graph of c_monitor/graph.c.

module BranchGraph {
  import opened Base
  import opened Memory
  import opened Walks
  import opened Adjacency
  import opened Search

  /** The answers of graph_add: CC_OK, CC_GRAPH_FROM_EXISTS and CC_GRAPH_BOTH_EXIST. */
  datatype AddResult = Added | FromExists | BothExist

  // ----- the cells a graph owns, and what they say

  /** The cells held by the two arrays, with multiplicity. */
  ghost function OwnedBy(nodes: seq<Ptr>, edges: seq<seq<Ptr>>): multiset<Ptr>
    requires |nodes| == |edges|
    decreases |nodes|
  {
    if nodes == [] then multiset{}
    else
      var n := |nodes| - 1;
      OwnedBy(nodes[..n], edges[..n]) + multiset(edges[n]) + multiset{nodes[n]}
  }

  ghost predicate Once(m: multiset<Ptr>) {
    forall p :: m[p] <= 1
  }

  ghost predicate Live(cells: map<Ptr, Cell>, m: multiset<Ptr>) {
    forall p :: p in m ==> IsWord(cells, p)
  }

  ghost function ViewOf(cells: map<Ptr, Cell>, nodes: seq<Ptr>, edges: seq<seq<Ptr>>): Adjacency {
    Adjacency(Words(cells, nodes), WordRows(cells, edges))
  }

  lemma {:induction false} OwnsNode(nodes: seq<Ptr>, edges: seq<seq<Ptr>>, i: nat)
    requires |nodes| == |edges| && i < |nodes|
    ensures nodes[i] in OwnedBy(nodes, edges)
    decreases |nodes|
  {
    var n := |nodes| - 1;
    if i < n {
      OwnsNode(nodes[..n], edges[..n], i);
    }
  }

  lemma {:induction false} OwnsTarget(nodes: seq<Ptr>, edges: seq<seq<Ptr>>, i: nat, j: nat)
    requires |nodes| == |edges| && i < |nodes| && j < |edges[i]|
    ensures edges[i][j] in OwnedBy(nodes, edges)
    decreases |nodes|
  {
    var n := |nodes| - 1;
    if i < n {
      OwnsTarget(nodes[..n], edges[..n], i, j);
    }
  }

  lemma TargetLive(c: map<Ptr, Cell>, nodes: seq<Ptr>, edges: seq<seq<Ptr>>, i: nat, j: nat)
    requires |nodes| == |edges| && i < |nodes| && j < |edges[i]|
    requires Live(c, OwnedBy(nodes, edges))
    ensures IsWord(c, edges[i][j])
  {
    OwnsTarget(nodes, edges, i, j);
  }

  lemma OwnedStep(nodes: seq<Ptr>, edges: seq<seq<Ptr>>)
    requires |nodes| == |edges| && nodes != []
    ensures var n := |nodes| - 1;
            OwnedBy(nodes, edges) == OwnedBy(nodes[..n], edges[..n]) + multiset(edges[n]) + multiset{nodes[n]}
  {
  }

  lemma {:induction false} OwnedGrows(nodes: seq<Ptr>, edges: seq<seq<Ptr>>, i: nat, p: Ptr)
    requires |nodes| == |edges| && i < |nodes|
    ensures OwnedBy(nodes, edges[i := edges[i] + [p]]) == OwnedBy(nodes, edges) + multiset{p}
    decreases |nodes|
  {
    var n := |nodes| - 1;
    var edges' := edges[i := edges[i] + [p]];
    OwnedStep(nodes, edges);
    OwnedStep(nodes, edges');
    hide OwnedBy;
    var inner, row, last := OwnedBy(nodes[..n], edges[..n]), multiset(edges[n]), multiset{nodes[n]};
    OneMore(inner, row, last, multiset{p});
    if i == n {
      assert edges'[..n] == edges[..n];
      assert multiset(edges[n] + [p]) == row + multiset{p};
    } else {
      assert edges'[..n] == edges[..n][i := edges[..n][i] + [p]];
      OwnedGrows(nodes[..n], edges[..n], i, p);
    }
  }

  lemma OneMore(a: multiset<Ptr>, b: multiset<Ptr>, d: multiset<Ptr>, m: multiset<Ptr>)
    ensures a + (b + m) + d == a + b + d + m == (a + m) + b + d
  {
  }

  lemma OwnedAppends(nodes: seq<Ptr>, edges: seq<seq<Ptr>>, from: Ptr, to: Ptr)
    requires |nodes| == |edges|
    ensures OwnedBy(nodes + [from], edges + [[to]]) == OwnedBy(nodes, edges) + multiset{from, to}
  {
    var n := |nodes|;
    assert (nodes + [from])[..n] == nodes && (edges + [[to]])[..n] == edges;
  }

  /** A graph reads the same in two memories that agree on its cells. */
  lemma ViewSame(c: map<Ptr, Cell>, c': map<Ptr, Cell>, nodes: seq<Ptr>, edges: seq<seq<Ptr>>)
    requires |nodes| == |edges|
    requires forall p :: p in OwnedBy(nodes, edges) ==> p in c && p in c' && c[p] == c'[p]
    ensures ViewOf(c, nodes, edges) == ViewOf(c', nodes, edges)
  {
    forall i | 0 <= i < |nodes| ensures WordAt(c, nodes[i]) == WordAt(c', nodes[i]) {
      OwnsNode(nodes, edges, i);
    }
    forall i | 0 <= i < |edges| ensures Words(c, edges[i]) == Words(c', edges[i]) {
      forall j | 0 <= j < |edges[i]| ensures WordAt(c, edges[i][j]) == WordAt(c', edges[i][j]) {
        OwnsTarget(nodes, edges, i, j);
      }
    }
  }

  /** A graph stays valid, and reads the same, while its own cells are left alone. */
  lemma ValidSame(c: map<Ptr, Cell>, c': map<Ptr, Cell>, nodes: seq<Ptr>, edges: seq<seq<Ptr>>, n: nat)
    requires ValidParts(c, nodes, edges, n)
    requires forall p :: p in OwnedBy(nodes, edges) ==> p in c' && c[p] == c'[p]
    ensures ValidParts(c', nodes, edges, n) && ViewOf(c, nodes, edges) == ViewOf(c', nodes, edges)
  {
    hide OwnedBy, WellFormed;
    ViewSame(c, c', nodes, edges);
  }

  /** A source has one slot. */
  lemma SameSource(g: Adjacency, i: nat, t: uint64)
    requires WellFormed(g) && i < |g.nodes|
    ensures (exists k :: 0 <= k < |g.nodes| && g.nodes[k] == g.nodes[i] && t in g.rows[k]) ==> t in g.rows[i]
  {
  }

  /** Following every edge of a source closes it. */
  lemma RowCloses(g: Adjacency, i: nat, dist: map<uint64, nat>, d: nat)
    requires WellFormed(g) && i < |g.nodes|
    requires Followed(g, i, |g.rows[i]|, dist, d)
    ensures Closed(EdgeSet(g), dist, g.nodes[i], d)
  {
    hide EdgeSet, Sources, Distinct;
    forall t | t in Sources(EdgeSet(g)) && (g.nodes[i], t) in EdgeSet(g)
      ensures t in dist && dist[t] <= d
    {
      SourcesAreNodes(g, t);
      EdgeSetHas(g, g.nodes[i], t);
      SameSource(g, i, t);
    }
  }

  lemma ListsSources(g: Adjacency)
    requires WellFormed(g)
    ensures Lists(g.nodes, EdgeSet(g))
  {
    forall u ensures u in g.nodes <==> u in Sources(EdgeSet(g)) {
      SourcesAreNodes(g, u);
    }
  }

  /** The representation invariant: parallel arrays of live cells, none held twice, distinct sources
      with non-empty duplicate-free rows, and a counter of sources plus edges. */
  ghost predicate ValidParts(c: map<Ptr, Cell>, nodes: seq<Ptr>, edges: seq<seq<Ptr>>, n: nat) {
    && |nodes| == |edges|
    && Once(OwnedBy(nodes, edges))
    && Live(c, OwnedBy(nodes, edges))
    && WellFormed(ViewOf(c, nodes, edges))
    && n == |nodes| + EdgeCount(edges)
  }

  lemma GrowsValid(c: map<Ptr, Cell>, nodes: seq<Ptr>, edges: seq<seq<Ptr>>, n: nat, i: nat, to: Ptr)
    requires ValidParts(c, nodes, edges, n) && i < |nodes|
    requires IsWord(c, to) && to !in OwnedBy(nodes, edges)
    requires WordAt(c, to) !in ViewOf(c, nodes, edges).rows[i]
    ensures var edges' := edges[i := edges[i] + [to]];
            ValidParts(c, nodes, edges', n + 1)
            && OwnedBy(nodes, edges') == OwnedBy(nodes, edges) + multiset{to}
            && EdgeSet(ViewOf(c, nodes, edges'))
                == EdgeSet(ViewOf(c, nodes, edges)) + {(WordAt(c, nodes[i]), WordAt(c, to))}
  {
    hide EdgeSet, OwnedBy, EdgeCount;
    var edges' := edges[i := edges[i] + [to]];
    var g := ViewOf(c, nodes, edges);
    OwnedGrows(nodes, edges, i, to);
    GrowRowCount(edges, i, to);
    AppendTarget(g, i, WordAt(c, to));
    assert Words(c, edges[i] + [to]) == Words(c, edges[i]) + [WordAt(c, to)];
    assert ViewOf(c, nodes, edges') == g.(rows := g.rows[i := g.rows[i] + [WordAt(c, to)]]);
  }

  lemma AppendsValid(c: map<Ptr, Cell>, nodes: seq<Ptr>, edges: seq<seq<Ptr>>, n: nat, from: Ptr, to: Ptr)
    requires ValidParts(c, nodes, edges, n)
    requires IsWord(c, from) && IsWord(c, to) && from != to
    requires from !in OwnedBy(nodes, edges) && to !in OwnedBy(nodes, edges)
    requires WordAt(c, from) !in ViewOf(c, nodes, edges).nodes
    ensures var nodes', edges' := nodes + [from], edges + [[to]];
            ValidParts(c, nodes', edges', n + 2)
            && OwnedBy(nodes', edges') == OwnedBy(nodes, edges) + multiset{from, to}
            && EdgeSet(ViewOf(c, nodes', edges'))
                == EdgeSet(ViewOf(c, nodes, edges)) + {(WordAt(c, from), WordAt(c, to))}
  {
    hide EdgeSet, OwnedBy;
    var nodes', edges' := nodes + [from], edges + [[to]];
    var g := ViewOf(c, nodes, edges);
    OwnedAppends(nodes, edges, from, to);
    AppendNode(g, WordAt(c, from), WordAt(c, to));
    assert edges'[..|edges|] == edges;
    assert Words(c, [to]) == [WordAt(c, to)];
    assert ViewOf(c, nodes', edges') == Adjacency(g.nodes + [WordAt(c, from)], g.rows + [[WordAt(c, to)]]);
  }

  lemma KnownEdge(g: Adjacency, i: nat, j: nat)
    requires WellFormed(g) && i < |g.nodes| && j < |g.rows[i]|
    ensures (g.nodes[i], g.rows[i][j]) in EdgeSet(g)
  {
    EdgeSetHas(g, g.nodes[i], g.rows[i][j]);
  }

  lemma UnknownTarget(g: Adjacency, i: nat, t: uint64)
    requires WellFormed(g) && i < |g.nodes| && t !in g.rows[i]
    ensures (g.nodes[i], t) !in EdgeSet(g)
  {
    EdgeSetHas(g, g.nodes[i], t);
  }

  lemma UnknownSource(g: Adjacency, u: uint64, t: uint64)
    requires WellFormed(g) && u !in g.nodes
    ensures u !in Sources(EdgeSet(g)) && (u, t) !in EdgeSet(g)
  {
    SourcesAreNodes(g, u);
  }

  /** The marks of the search: a source is marked exactly when it has been queued by an edge. */
  ghost predicate Marks(nodes: seq<uint64>, discovered: seq<bool>, r: Record) {
    && |nodes| <= |discovered|
    && forall k :: 0 <= k < |nodes| ==> discovered[k] == (nodes[k] in r.dist)
  }

  lemma MarkNext(g: Adjacency, discovered: seq<bool>, r: Record, idx: nat, d: nat, queue: seq<Item>)
    requires WellFormed(g) && Marks(g.nodes, discovered, r) && idx < |g.nodes|
    ensures Marks(g.nodes, discovered[idx := true], Record(queue, r.dist[g.nodes[idx] := d], r.done))
  {
  }

  /** The state of the search between two polls. */
  ghost predicate Between(nodes: seq<uint64>, E: Edges, s: uint64, start: nat, queue: seq<Item>, discovered: seq<bool>,
                          maxDepth: nat, polls: nat, r: Record, low: nat)
  {
    && Marks(nodes, discovered, r)
    && Lists(nodes, E) && start < |nodes| && nodes[start] == s
    && if polls == 0 then queue == [Item(0, start)] && maxDepth == 0 && r == Record([], map[], {})
       else Resting(nodes, E, s, r, low) && r.queue == queue && maxDepth == low + 1 && polls == |r.done| + 1
  }

  ghost function AfterPoll(nodes: seq<uint64>, rest: seq<Item>, r: Record, polls: nat, index: nat): Record
    requires index < |nodes|
  {
    if polls == 0 then r else Record(rest, r.dist, r.done + {nodes[index]})
  }

  lemma BeforePolls(nodes: seq<uint64>, E: Edges, s: uint64, start: nat, discovered: seq<bool>)
    requires Lists(nodes, E) && start < |nodes| && nodes[start] == s
    requires |nodes| <= |discovered| && forall k :: 0 <= k < |discovered| ==> !discovered[k]
    ensures Between(nodes, E, s, start, [Item(0, start)], discovered, 0, 0, Record([], map[], {}), 0)
  {
  }

  lemma BeginPoll(nodes: seq<uint64>, E: Edges, s: uint64, start: nat, queue: seq<Item>, discovered: seq<bool>,
                  maxDepth: nat, polls: nat, r: Record, low: nat)
    requires Between(nodes, E, s, start, queue, discovered, maxDepth, polls, r, low) && queue != []
    ensures queue[0].index < |nodes| && |nodes| <= |discovered|
    ensures var it := queue[0];
            var r' := AfterPoll(nodes, queue[1..], r, polls, it.index);
            && Working(nodes, E, s, r', it.depth, nodes[it.index])
            && Marks(nodes, discovered, r')
            && r'.queue == queue[1..] && maxDepth <= it.depth + 1
            && polls == |r'.done| && polls <= |nodes|
  {
    hide Consistent, Closed, Lists;
    if polls == 0 {
      PollStart(nodes, E, s);
    } else {
      PollNext(nodes, E, s, r, low);
      PollCount(nodes, E, s, r, low);
    }
  }

  lemma EndPoll(nodes: seq<uint64>, E: Edges, s: uint64, start: nat, queue: seq<Item>, discovered: seq<bool>,
                maxDepth: nat, polls: nat, r: Record, low: nat)
    requires Lists(nodes, E) && start < |nodes| && nodes[start] == s
    requires Marks(nodes, discovered, r) && Resting(nodes, E, s, r, low)
    requires r.queue == queue && maxDepth == low + 1 && polls == |r.done| + 1
    ensures Between(nodes, E, s, start, queue, discovered, maxDepth, polls, r, low)
  {
    hide Lists, Marks, Resting;
  }

  lemma AllPolled(nodes: seq<uint64>, E: Edges, s: uint64, start: nat, queue: seq<Item>, discovered: seq<bool>,
                  maxDepth: nat, polls: nat, r: Record, low: nat)
    requires Between(nodes, E, s, start, queue, discovered, maxDepth, polls, r, low) && queue == []
    ensures maxDepth == Walks.Depth(E, s)
  {
    hide Lists, Marks, Resting, Walks.Depth;
    Exhausted(nodes, E, s, r, low);
  }

  /** The first n edges of source i lead to sources already marked, at depth d at most. */
  ghost predicate Followed(g: Adjacency, i: nat, n: nat, dist: map<uint64, nat>, d: nat) {
    && i < |g.rows| && n <= |g.rows[i]|
    && forall k :: 0 <= k < n && g.rows[i][k] in g.nodes ==> g.rows[i][k] in dist && dist[g.rows[i][k]] <= d
  }

  lemma FollowedNext(g: Adjacency, i: nat, j: nat, dist: map<uint64, nat>, dist': map<uint64, nat>, d: nat)
    requires Followed(g, i, j, dist, d) && j < |g.rows[i]|
    requires dist' == dist || dist' == dist[g.rows[i][j] := d]
    requires g.rows[i][j] in g.nodes ==> g.rows[i][j] in dist' && dist'[g.rows[i][j]] <= d
    ensures Followed(g, i, j + 1, dist', d)
  {
  }

  lemma DistBound(nodes: seq<uint64>, E: Edges, s: uint64, r: Record, low: nat, t: uint64)
    requires Consistent(nodes, E, s, r, low) && t in r.dist
    ensures r.dist[t] <= low + 1
  {
  }

  lemma RowNonempty(g: Adjacency, i: nat)
    requires WellFormed(g) && i < |g.nodes|
    ensures |g.rows| == |g.nodes| && g.rows[i] != []
  {
  }

  lemma {:induction false} CountSame(c: map<Ptr, Cell>, rows: seq<seq<Ptr>>)
    ensures EdgeCount(WordRows(c, rows)) == EdgeCount(rows)
    decreases |rows|
  {
    if rows != [] {
      var n := |rows| - 1;
      assert WordRows(c, rows)[..n] == WordRows(c, rows[..n]);
      CountSame(c, rows[..n]);
    }
  }

  ghost predicate LargestUpTo(E: Edges, nodes: seq<uint64>, n: nat, d: nat) {
    && n <= |nodes|
    && (forall k :: 0 <= k < n ==> Walks.Depth(E, nodes[k]) <= d)
    && (d == 0 || exists k :: 0 <= k < n && Walks.Depth(E, nodes[k]) == d)
  }

  lemma LargestNone(E: Edges, nodes: seq<uint64>)
    ensures LargestUpTo(E, nodes, 0, 0)
  {
  }

  lemma LargestNext(E: Edges, nodes: seq<uint64>, n: nat, m: nat, d: nat)
    requires LargestUpTo(E, nodes, n, m) && n < |nodes| && d == Walks.Depth(E, nodes[n])
    ensures LargestUpTo(E, nodes, n + 1, if d > m then d else m)
  {
    hide Walks.Depth;
  }

  lemma LargestDepth(E: Edges, nodes: seq<uint64>, d: nat)
    requires Lists(nodes, E)
    requires LargestUpTo(E, nodes, |nodes|, d)
    ensures d == ConnDepth(E)
  {
    hide Walks.Depth;
    var m := ConnDepth(E);
    if d > 0 {
      var k :| 0 <= k < |nodes| && Walks.Depth(E, nodes[k]) == d;
      assert nodes[k] in Sources(E);
    }
    if m > 0 {
      var s :| s in Sources(E) && Walks.Depth(E, s) == m;
      assert s in nodes;
    }
  }

  ghost function Members(m: multiset<Ptr>): set<Ptr> {
    set p | p in m
  }

  ghost function LinesOf(u: uint64, row: seq<uint64>): (lines: seq<Edge>)
    ensures |lines| == |row|
  {
    seq(|row|, i requires 0 <= i < |row| => (u, row[i]))
  }

  lemma {:induction false} RowLines(u: uint64, row: seq<uint64>)
    requires Distinct(row)
    ensures multiset(LinesOf(u, row)) == multiset(RowEdges(u, row))
    decreases |row|
  {
    if row == [] {
      assert RowEdges(u, row) == {};
    } else {
      var n := |row| - 1;
      assert row == row[..n] + [row[n]];
      RowLines(u, row[..n]);
      assert LinesOf(u, row) == LinesOf(u, row[..n]) + [(u, row[n])];
      assert RowEdges(u, row) == RowEdges(u, row[..n]) + {(u, row[n])};
    }
  }

  lemma LessWithMore(a: multiset<Ptr>, b: multiset<Ptr>, c: multiset<Ptr>, d: multiset<Ptr>)
    requires a <= b
    ensures a <= b + c + d
  {
  }

  lemma {:induction false} PrefixOwned(nodes: seq<Ptr>, edges: seq<seq<Ptr>>, n: nat)
    requires |nodes| == |edges| && n <= |nodes|
    ensures OwnedBy(nodes[..n], edges[..n]) <= OwnedBy(nodes, edges)
    decreases |nodes|
  {
    if n < |nodes| {
      var m := |nodes| - 1;
      OwnedStep(nodes, edges);
      hide OwnedBy;
      PrefixOwned(nodes[..m], edges[..m], n);
      assert nodes[..m][..n] == nodes[..n] && edges[..m][..n] == edges[..n];
      LessWithMore(OwnedBy(nodes[..n], edges[..n]), OwnedBy(nodes[..m], edges[..m]), multiset(edges[m]),
          multiset{nodes[m]});
    } else {
      assert nodes[..n] == nodes && edges[..n] == edges;
    }
  }

  lemma MembersOfThree(a: multiset<Ptr>, row: seq<Ptr>, p: Ptr)
    ensures Members(a + multiset(row) + multiset{p}) == Members(a) + (set q | q in row) + {p}
  {
  }

  lemma PrefixStep(nodes: seq<Ptr>, edges: seq<seq<Ptr>>, i: nat)
    requires |nodes| == |edges| && i < |nodes|
    ensures OwnedBy(nodes[..i + 1], edges[..i + 1])
        == OwnedBy(nodes[..i], edges[..i]) + multiset(edges[i]) + multiset{nodes[i]}
  {
    assert nodes[..i + 1][..i] == nodes[..i] && edges[..i + 1][..i] == edges[..i];
  }

  /** When the first i sources have been released, the cells of the next one are still live. */
  lemma RowStillLive(c: map<Ptr, Cell>, nodes: seq<Ptr>, edges: seq<seq<Ptr>>, n: nat, i: nat)
    requires ValidParts(c, nodes, edges, n) && i < |nodes|
    ensures var gone := Members(OwnedBy(nodes[..i], edges[..i]));
            && IsWord(c, nodes[i]) && nodes[i] !in gone
            && forall p :: p in edges[i] ==> IsWord(c, p) && p !in gone
    ensures Distinct(edges[i]) && nodes[i] !in edges[i]
  {
    var before := OwnedBy(nodes[..i], edges[..i]);
    PrefixStep(nodes, edges, i);
    PrefixOwned(nodes, edges, i + 1);
    OwnsNode(nodes, edges, i);
    hide OwnedBy, WellFormed, EdgeCount;
    assert Once(before + multiset(edges[i]) + multiset{nodes[i]});
    OnceApart(before, multiset(edges[i]), multiset{nodes[i]});
    OnceDistinct(edges[i]);
    assert nodes[i] in multiset{nodes[i]};
    forall p | p in edges[i] ensures IsWord(c, p) && p !in Members(before) {
      assert p in multiset(edges[i]);
      assert p in OwnedBy(nodes, edges);
    }
  }

  lemma OnceApart(a: multiset<Ptr>, b: multiset<Ptr>, d: multiset<Ptr>)
    requires Once(a + b + d)
    ensures Once(b)
    ensures forall p :: p in b ==> p !in a && p !in d
    ensures forall p :: p in d ==> p !in a && p !in b
  {
    forall p ensures a[p] + b[p] + d[p] <= 1 {
      assert (a + b + d)[p] <= 1;
    }
  }

  lemma OnceDistinct(s: seq<Ptr>)
    requires Once(multiset(s))
    ensures Distinct(s)
  {
    forall i, j | 0 <= i < j < |s| ensures s[i] != s[j] {
      assert s == s[..j] + [s[j]] + s[j + 1..];
      assert s[i] in s[..j];
      assert multiset(s[..j])[s[i]] >= 1;
      assert multiset(s) == multiset(s[..j]) + multiset{s[j]} + multiset(s[j + 1..]);
      assert multiset(s)[s[j]] <= 1;
    }
  }

  lemma PrefixEdges(c: map<Ptr, Cell>, nodes: seq<Ptr>, edges: seq<seq<Ptr>>, n: nat, i: nat)
    requires ValidParts(c, nodes, edges, n) && i < |nodes|
    ensures Distinct(Words(c, edges[i]))
    ensures multiset(EdgeSet(ViewOf(c, nodes[..i + 1], edges[..i + 1])))
            == multiset(EdgeSet(ViewOf(c, nodes[..i], edges[..i])))
                + multiset(RowEdges(WordAt(c, nodes[i]), Words(c, edges[i])))
  {
    var g, g', h := ViewOf(c, nodes[..i], edges[..i]), ViewOf(c, nodes[..i + 1], edges[..i + 1]),
        ViewOf(c, nodes, edges);
    assert g'.nodes[..i] == g.nodes && g'.rows[..i] == g.rows;
    assert g.nodes == h.nodes[..i] && g'.nodes[i] == h.nodes[i] && g'.rows[i] == h.rows[i];
    var old', new' := EdgeSet(g), RowEdges(g'.nodes[i], g'.rows[i]);
    assert old' !! new' by {
      forall t: uint64 ensures (g'.nodes[i], t) !in old' {
        EdgeSetHas(g, g'.nodes[i], t);
      }
    }
    assert EdgeSet(g') == old' + new';
    assert multiset(old' + new') == multiset(old') + multiset(new');
  }

  /** After i sources: their cells are gone and their edges printed. */
  ghost predicate Released(c: map<Ptr, Cell>, nodes: seq<Ptr>, edges: seq<seq<Ptr>>, i: nat,
                           cells: map<Ptr, Cell>, lines: seq<Edge>, toFile: bool)
  {
    && |nodes| == |edges| && i <= |nodes|
    && cells == c - Members(OwnedBy(nodes[..i], edges[..i]))
    && multiset(lines) == if toFile then multiset(EdgeSet(ViewOf(c, nodes[..i], edges[..i]))) else multiset{}
  }

  lemma NoneReleased(c: map<Ptr, Cell>, nodes: seq<Ptr>, edges: seq<seq<Ptr>>, toFile: bool)
    requires |nodes| == |edges|
    ensures Released(c, nodes, edges, 0, c, [], toFile)
  {
    assert Members(OwnedBy(nodes[..0], edges[..0])) == {};
    assert EdgeSet(ViewOf(c, nodes[..0], edges[..0])) == {};
  }

  lemma NextIsLive(c: map<Ptr, Cell>, nodes: seq<Ptr>, edges: seq<seq<Ptr>>, n: nat, i: nat,
                   cells: map<Ptr, Cell>, lines: seq<Edge>, toFile: bool)
    requires ValidParts(c, nodes, edges, n) && i < |nodes|
    requires Released(c, nodes, edges, i, cells, lines, toFile)
    ensures IsWord(cells, nodes[i]) && forall p :: p in edges[i] ==> IsWord(cells, p)
    ensures Distinct(edges[i]) && nodes[i] !in edges[i]
    ensures WordAt(cells, nodes[i]) == WordAt(c, nodes[i]) && Words(cells, edges[i]) == Words(c, edges[i])
  {
    RowStillLive(c, nodes, edges, n, i);
    hide ValidParts, OwnedBy, EdgeSet;
    assert forall k :: 0 <= k < |edges[i]| ==> edges[i][k] in edges[i];
  }

  lemma ReleasedNext(c: map<Ptr, Cell>, nodes: seq<Ptr>, edges: seq<seq<Ptr>>, n: nat, i: nat,
                     cells: map<Ptr, Cell>, lines: seq<Edge>, toFile: bool, cells': map<Ptr, Cell>, out: seq<Edge>)
    requires ValidParts(c, nodes, edges, n) && i < |nodes|
    requires Released(c, nodes, edges, i, cells, lines, toFile)
    requires cells' == cells - ((set p | p in edges[i]) + {nodes[i]})
    requires out == if toFile then LinesOf(WordAt(cells, nodes[i]), Words(cells, edges[i])) else []
    ensures Released(c, nodes, edges, i + 1, cells', lines + out, toFile)
  {
    NextIsLive(c, nodes, edges, n, i, cells, lines, toFile);
    PrefixStep(nodes, edges, i);
    PrefixEdges(c, nodes, edges, n, i);
    hide ValidParts, OwnedBy, EdgeSet, ViewOf, Words, Members, LinesOf, RowEdges;
    MembersOfThree(OwnedBy(nodes[..i], edges[..i]), edges[i], nodes[i]);
    LessTwice(c, Members(OwnedBy(nodes[..i], edges[..i])), (set p | p in edges[i]), nodes[i]);
    RowLines(WordAt(c, nodes[i]), Words(c, edges[i]));
    assert multiset(lines + out) == multiset(lines) + multiset(out);
  }

  lemma LessTwice(c: map<Ptr, Cell>, gone: set<Ptr>, row: set<Ptr>, p: Ptr)
    ensures c - gone - (row + {p}) == c - (gone + row + {p})
  {
  }

  lemma AllReleased(c: map<Ptr, Cell>, nodes: seq<Ptr>, edges: seq<seq<Ptr>>,
                    cells: map<Ptr, Cell>, lines: seq<Edge>, toFile: bool)
    requires Released(c, nodes, edges, |nodes|, cells, lines, toFile)
    ensures cells == c - Members(OwnedBy(nodes, edges))
    ensures multiset(lines) == if toFile then multiset(EdgeSet(ViewOf(c, nodes, edges))) else multiset{}
  {
    assert nodes[..|nodes|] == nodes && edges[..|nodes|] == edges;
  }

  /** The cells a graph keeps after an addition; the caller still owns the others. */
  ghost function Adopted(result: AddResult, from: Ptr, to: Ptr): multiset<Ptr> {
    match result
    case Added => multiset{from, to}
    case FromExists => multiset{to}
    case BothExist => multiset{}
  }

  lemma EmptyGraph(c: map<Ptr, Cell>)
    ensures ValidParts(c, [], [], 0)
    ensures Members(OwnedBy([], [])) == {} && EdgeSet(ViewOf(c, [], [])) == {}
  {
  }

  class Graph {
    /** The source cells, in the order they were added. */
    var nodes: seq<Ptr>
    /** edges[i] holds the target cells of nodes[i]. */
    var edges: seq<seq<Ptr>>
    var nNodes: nat

    ghost function Owned(): multiset<Ptr>
      requires |nodes| == |edges|
      reads this
    {
      OwnedBy(nodes, edges)
    }

    ghost function View(mem: Heap): Adjacency
      reads this, mem
    {
      ViewOf(mem.cells, nodes, edges)
    }

    /** The edges that were added, as pairs of addresses. */
    ghost function EdgesIn(mem: Heap): Edges
      requires |nodes| == |edges|
      reads this, mem
    {
      EdgeSet(View(mem))
    }

    ghost predicate Valid(mem: Heap)
      reads this, mem
      ensures Valid(mem) ==> |nodes| == |edges|
    {
      ValidParts(mem.cells, nodes, edges, nNodes)
    }

    constructor ()
      ensures nodes == [] && edges == [] && nNodes == 0
    {
      nodes, edges, nNodes := [], [], 0;
    }

    function LoadWord(mem: Heap, p: Ptr): (value: uint64)
      requires IsWord(mem.cells, p)
      reads mem
      ensures value == WordAt(mem.cells, p)
    {
      mem.Load(p).value
    }

    method FindNodeIndex(mem: Heap, value: uint64) returns (idx: int)
      requires Valid(mem)
      ensures idx == -1 ==> value !in View(mem).nodes
      ensures idx != -1 ==> 0 <= idx < |nodes| && View(mem).nodes[idx] == value
    {
      for i := 0 to |nodes|
        invariant forall k :: 0 <= k < i ==> View(mem).nodes[k] != value
      {
        OwnsNode(nodes, edges, i);
        if mem.Load(nodes[i]).value == value {
          return i;
        }
      }
      return -1;
    }

    method Add(mem: Heap, from: Ptr, to: Ptr) returns (result: AddResult)
      requires Valid(mem)
      requires IsWord(mem.cells, from) && IsWord(mem.cells, to)
      requires from != to && from !in Owned() && to !in Owned()
      modifies this
      ensures Valid(mem)
      ensures EdgesIn(mem) == old(EdgesIn(mem)) + {(WordAt(mem.cells, from), WordAt(mem.cells, to))}
      ensures result == BothExist <==> (WordAt(mem.cells, from), WordAt(mem.cells, to)) in old(EdgesIn(mem))
      ensures result == Added <==> WordAt(mem.cells, from) !in Sources(old(EdgesIn(mem)))
      ensures Owned() == old(Owned()) + Adopted(result, from, to)
      ensures match result
              case Added => nodes == old(nodes) + [from] && edges == old(edges) + [[to]]
              case FromExists =>
                nodes == old(nodes)
                && exists i :: 0 <= i < |nodes| && WordAt(mem.cells, nodes[i]) == WordAt(mem.cells, from)
                               && edges == old(edges)[i := old(edges)[i] + [to]]
              case BothExist => nodes == old(nodes) && edges == old(edges)
    {
      hide EdgeSet, OwnedBy, WellFormed;
      ghost var g := View(mem);
      SourcesAreNodes(g, mem.Load(from).value);
      for i := 0 to |nodes|
        invariant nodes == old(nodes) && edges == old(edges) && nNodes == old(nNodes)
        invariant forall k :: 0 <= k < i ==> g.nodes[k] != WordAt(mem.cells, from)
      {
        OwnsNode(nodes, edges, i);
        if mem.Load(nodes[i]).value != mem.Load(from).value {
          continue;
        }
        var row := edges[i];
        for j := 0 to |row|
          invariant nodes == old(nodes) && edges == old(edges) && nNodes == old(nNodes)
          invariant forall k :: 0 <= k < j ==> g.rows[i][k] != WordAt(mem.cells, to)
        {
          OwnsTarget(nodes, edges, i, j);
          if mem.Load(row[j]).value == mem.Load(to).value {
            KnownEdge(g, i, j);
            return BothExist;
          }
        }
        UnknownTarget(g, i, mem.Load(to).value);
        GrowsValid(mem.cells, nodes, edges, nNodes, i, to);
        edges := edges[i := edges[i] + [to]];
        nNodes := nNodes + 1;
        return FromExists;
      }
      UnknownSource(g, mem.Load(from).value, mem.Load(to).value);
      AppendsValid(mem.cells, nodes, edges, nNodes, from, to);
      nodes := nodes + [from];
      nNodes := nNodes + 1;
      edges := edges + [[to]];
      nNodes := nNodes + 1;
      return Added;
    }

    /** The inner loop of the search: follow every edge of the polled item. */
    method FollowEdges(mem: Heap, qElm: Item, queue: seq<Item>, discovered: array<bool>, depthSoFar: nat,
                       ghost g: Adjacency, ghost E: Edges, ghost s: uint64, ghost r: Record)
      returns (queue': seq<Item>, maxDepth: nat, ghost r': Record)
      requires Valid(mem) && g == View(mem) && E == EdgesIn(mem)
      requires qElm.index < |nodes| && |nodes| <= discovered.Length
      requires Working(g.nodes, E, s, r, qElm.depth, g.nodes[qElm.index])
      requires Marks(g.nodes, discovered[..], r)
      requires r.queue == queue && depthSoFar <= qElm.depth + 1
      modifies discovered
      ensures Valid(mem) && g == View(mem) && E == EdgesIn(mem)
      ensures Resting(g.nodes, E, s, r', qElm.depth)
      ensures Marks(g.nodes, discovered[..], r')
      ensures r'.queue == queue' && r'.done == r.done
      ensures maxDepth == qElm.depth + 1
    {
      hide EdgeSet, Consistent, WellFormed, Closed, OwnedBy, EdgeCount, Live, Once;
      ghost var i, low, u := qElm.index, qElm.depth, g.nodes[qElm.index];
      queue', maxDepth, r' := queue, depthSoFar, r;
      RowNonempty(g, i);
      var edgeList := edges[qElm.index];
      for j := 0 to |edgeList|
        invariant Working(g.nodes, E, s, r', low, u)
        invariant r'.queue == queue' && r'.done == r.done
        invariant Followed(g, i, j, r'.dist, low + 1)
        invariant Marks(g.nodes, discovered[..], r')
        invariant maxDepth == if j > 0 then low + 1 else depthSoFar
      {
        TargetLive(mem.cells, nodes, edges, i, j);
        ghost var t := g.rows[i][j];
        ghost var before := r'.dist;
        var idx := FindNodeIndex(mem, LoadWord(mem, edgeList[j]));
        if idx != -1 && !discovered[idx] {
          KnownEdge(g, i, j);
          Discover(g.nodes, E, s, r', low, u, idx);
          MarkNext(g, discovered[..], r', idx, low + 1, queue' + [Item(low + 1, idx)]);
          r' := Record(queue' + [Item(low + 1, idx)], r'.dist[t := low + 1], r'.done);
          discovered[idx] := true;
          queue' := queue' + [Item(qElm.depth + 1, idx)];
        } else if idx != -1 {
          DistBound(g.nodes, E, s, r', low, t);
        }
        FollowedNext(g, i, j, before, r'.dist, low + 1);
        if qElm.depth + 1 > maxDepth {
          maxDepth := qElm.depth + 1;
        }
      }
      RowCloses(g, i, r'.dist, low + 1);
      Finish(g.nodes, E, s, r', low, u);
    }

    /** The breadth-first search from the source at startIdx.  The start is queued without being
        marked, and every edge of a polled node raises the result. */
    method Depth(mem: Heap, startIdx: nat) returns (maxDepth: nat, ghost polls: nat)
      requires Valid(mem)
      requires nNodes != 0 ==> startIdx < |nodes|
      ensures nNodes == 0 ==> maxDepth == 0
      ensures nNodes != 0 ==> maxDepth == Walks.Depth(EdgesIn(mem), View(mem).nodes[startIdx])
      ensures polls <= |nodes| + 1
    {
      if nNodes == 0 {
        return 0, 0;
      }
      ghost var g, E := View(mem), EdgesIn(mem);
      ListsSources(g);
      ghost var nodesV, s := g.nodes, g.nodes[startIdx];
      assert |nodesV| == |nodes|;
      hide *;
      var queue := [Item(0, startIdx)];
      var discovered := new bool[nNodes](_ => false);
      maxDepth, polls := 0, 0;
      ghost var r, low := Record([], map[], {}), 0;
      BeforePolls(nodesV, E, s, startIdx, discovered[..]);
      while |queue| > 0
        invariant Valid(mem) && g == View(mem) && E == EdgesIn(mem)
        invariant Between(nodesV, E, s, startIdx, queue, discovered[..], maxDepth, polls, r, low)
        invariant polls <= |nodes| + 1
        decreases |nodes| + 1 - polls
      {
        var qElm := queue[0];
        BeginPoll(nodesV, E, s, startIdx, queue, discovered[..], maxDepth, polls, r, low);
        queue := queue[1..];
        r := AfterPoll(nodesV, queue, r, polls, qElm.index);
        low := qElm.depth;
        polls := polls + 1;
        queue, maxDepth, r := FollowEdges(mem, qElm, queue, discovered, maxDepth, g, E, s, r);
        EndPoll(nodesV, E, s, startIdx, queue, discovered[..], maxDepth, polls, r, low);
      }
      AllPolled(nodesV, E, s, startIdx, queue, discovered[..], maxDepth, polls, r, low);
    }

    lemma StartsListed(mem: Heap)
      requires Valid(mem)
      ensures |View(mem).nodes| == |nodes| && Lists(View(mem).nodes, EdgesIn(mem))
      ensures ConnDepth(EdgesIn(mem)) <= nNodes && |nodes| <= nNodes
    {
      ListsSources(View(mem));
      CounterBound(mem);
      ConnDepthBound(EdgesIn(mem));
    }

    /** The largest depth over all sources as the start. */
    method DepthConn(mem: Heap) returns (maxDepth: nat)
      requires Valid(mem)
      ensures maxDepth == ConnDepth(EdgesIn(mem))
      ensures maxDepth <= nNodes
    {
      hide *;
      ghost var E, nodesV := EdgesIn(mem), View(mem).nodes;
      StartsListed(mem);
      maxDepth := 0;
      LargestNone(E, nodesV);
      for i := 0 to |nodes|
        invariant LargestUpTo(E, nodesV, i, maxDepth)
      {
        var d, polls := Depth(mem, i);
        LargestNext(E, nodesV, i, maxDepth, d);
        if d > maxDepth {
          maxDepth := d;
        }
      }
      LargestDepth(E, nodesV, maxDepth);
    }

    /** graph_edges: the row lengths added up, which is the number of distinct edges. */
    method EdgeTotal(ghost mem: Heap) returns (counter: nat)
      requires Valid(mem)
      ensures counter == |EdgesIn(mem)|
    {
      counter := 0;
      for i := 0 to |nodes|
        invariant counter == EdgeCount(edges[..i])
      {
        assert edges[..i + 1][..i] == edges[..i];
        counter := counter + |edges[i]|;
      }
      assert edges[..|nodes|] == edges;
      CountIsSize(View(mem));
      CountSame(mem.cells, edges);
    }

    /** graph_nodes: sources plus edges, which is the number of distinct addresses exactly when no
        target is a source too and no two edges share a target, and more otherwise. */
    method NodeTotal(ghost mem: Heap) returns (n: nat)
      requires Valid(mem)
      ensures n == |Sources(EdgesIn(mem))| + |EdgesIn(mem)|
      ensures n >= |Sources(EdgesIn(mem)) + Targets(EdgesIn(mem))|
      ensures var E := EdgesIn(mem);
              n == |Sources(E) + Targets(E)| <==> Sources(E) !! Targets(E) && TargetsApart(E)
    {
      CounterBound(mem);
      AddressesWithinCounter(EdgesIn(mem));
      n := nNodes;
    }

    lemma CounterBound(mem: Heap)
      requires Valid(mem)
      ensures nNodes == |Sources(EdgesIn(mem))| + |EdgesIn(mem)|
      ensures EdgesIn(mem) != {} ==> |Sources(EdgesIn(mem))| + 1 <= nNodes
    {
      SourceCount(View(mem));
      CountIsSize(View(mem));
      CountSame(mem.cells, edges);
    }

    /** graph_foreach with graph_print_and_free: hands every source and its targets to the printer,
        which writes one line an edge when there is a file and releases the cells in any case. */
    method PrintAndFreeAll(mem: Heap, toFile: bool) returns (lines: seq<Edge>)
      requires Valid(mem) && mem.Valid()
      modifies mem
      ensures mem.Valid() && mem.next == old(mem.next)
      ensures multiset(lines) == if toFile then multiset(old(EdgesIn(mem))) else multiset{}
      ensures mem.cells == old(mem.cells) - Members(Owned())
    {
      ghost var c := mem.cells;
      NoneReleased(c, nodes, edges, toFile);
      hide *;
      lines := [];
      for i := 0 to |nodes|
        invariant mem.Valid() && mem.next == old(mem.next)
        invariant Released(c, nodes, edges, i, mem.cells, lines, toFile)
      {
        var connections := edges[i];
        NextIsLive(c, nodes, edges, nNodes, i, mem.cells, lines, toFile);
        ghost var before := mem.cells;
        var out := PrintAndFree(mem, nodes[i], connections, toFile);
        ReleasedNext(c, nodes, edges, nNodes, i, before, lines, toFile, mem.cells, out);
        lines := lines + out;
      }
      AllReleased(c, nodes, edges, mem.cells, lines, toFile);
    }
  }

  /** graph_print_and_free. */
  method PrintAndFree(mem: Heap, from: Ptr, connections: seq<Ptr>, toFile: bool) returns (lines: seq<Edge>)
    requires mem.Valid()
    requires IsWord(mem.cells, from) && forall p :: p in connections ==> IsWord(mem.cells, p)
    requires Distinct(connections) && from !in connections
    modifies mem
    ensures mem.Valid() && mem.next == old(mem.next)
    ensures lines == if toFile then LinesOf(WordAt(old(mem.cells), from), Words(old(mem.cells), connections)) else []
    ensures mem.cells == old(mem.cells) - ((set p | p in connections) + {from})
  {
    ghost var c := mem.cells;
    lines := [];
    for i := 0 to |connections|
      invariant mem.Valid() && mem.next == old(mem.next)
      invariant mem.cells == c - (set p | p in connections[..i])
      invariant lines == if toFile then LinesOf(WordAt(c, from), Words(c, connections[..i])) else []
    {
      assert connections[..i + 1] == connections[..i] + [connections[i]];
      assert connections[i] in connections && connections[i] !in connections[..i];
      if toFile {
        lines := lines + [(mem.Load(from).value, mem.Load(connections[i]).value)];
      }
      mem.Free(connections[i]);
    }
    assert connections[..|connections|] == connections;
    mem.Free(from);
  }
}
