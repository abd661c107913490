// The adjacency structure of c_monitor/graph.c, seen through its pointers as plain values.

module Adjacency {
  import opened Base
  import opened Walks

  /** nodes[i] is a source and rows[i] its targets, both in the order they were added. */
  datatype Adjacency = Adjacency(nodes: seq<uint64>, rows: seq<seq<uint64>>)

  ghost predicate Distinct<T(!new)>(s: seq<T>) {
    forall i, j :: 0 <= i < j < |s| ==> s[i] != s[j]
  }

  ghost predicate WellFormed(g: Adjacency) {
    && |g.nodes| == |g.rows|
    && Distinct(g.nodes)
    && forall i :: 0 <= i < |g.rows| ==> g.rows[i] != [] && Distinct(g.rows[i])
  }

  ghost function RowEdges(u: uint64, row: seq<uint64>): Edges {
    set t | t in row :: (u, t)
  }

  /** The edges the structure stands for. */
  ghost function EdgeSet(g: Adjacency): Edges
    requires |g.nodes| == |g.rows|
    decreases |g.nodes|
  {
    if g.nodes == [] then {}
    else
      var n := |g.nodes| - 1;
      EdgeSet(Adjacency(g.nodes[..n], g.rows[..n])) + RowEdges(g.nodes[n], g.rows[n])
  }

  /** The lengths of the rows added up. */
  ghost function EdgeCount<T>(rows: seq<seq<T>>): nat {
    if rows == [] then 0 else EdgeCount(rows[..|rows| - 1]) + |rows[|rows| - 1]|
  }

  lemma {:induction false} EdgeSetHas(g: Adjacency, u: uint64, t: uint64)
    requires |g.nodes| == |g.rows|
    ensures (u, t) in EdgeSet(g) <==> exists i :: 0 <= i < |g.nodes| && g.nodes[i] == u && t in g.rows[i]
    decreases |g.nodes|
  {
    if g.nodes != [] {
      var n := |g.nodes| - 1;
      var g' := Adjacency(g.nodes[..n], g.rows[..n]);
      EdgeSetHas(g', u, t);
      if (u, t) in EdgeSet(g) {
        if (u, t) in EdgeSet(g') {
          var i :| 0 <= i < |g'.nodes| && g'.nodes[i] == u && t in g'.rows[i];
          assert g.nodes[i] == u && t in g.rows[i];
        }
      }
      if i :| 0 <= i < |g.nodes| && g.nodes[i] == u && t in g.rows[i] {
        if i < n {
          assert g'.nodes[i] == u && t in g'.rows[i];
        }
      }
    }
  }

  lemma SourcesAreNodes(g: Adjacency, u: uint64)
    requires WellFormed(g)
    ensures u in Sources(EdgeSet(g)) <==> u in g.nodes
  {
    if u in Sources(EdgeSet(g)) {
      var e :| e in EdgeSet(g) && e.0 == u;
      EdgeSetHas(g, u, e.1);
    }
    if u in g.nodes {
      var i :| 0 <= i < |g.nodes| && g.nodes[i] == u;
      EdgeSetHas(g, u, g.rows[i][0]);
    }
  }

  lemma SourceCount(g: Adjacency)
    requires WellFormed(g)
    ensures |Sources(EdgeSet(g))| == |g.nodes|
  {
    forall u ensures u in g.nodes <==> u in Sources(EdgeSet(g)) {
      SourcesAreNodes(g, u);
    }
    SizeOfDistinct(g.nodes, Sources(EdgeSet(g)));
  }

  lemma {:induction false} RowSize(u: uint64, row: seq<uint64>)
    requires Distinct(row)
    ensures |RowEdges(u, row)| == |row|
    decreases |row|
  {
    if row == [] {
      assert RowEdges(u, row) == {};
    } else {
      var n := |row| - 1;
      assert row == row[..n] + [row[n]];
      RowSize(u, row[..n]);
      assert RowEdges(u, row) == RowEdges(u, row[..n]) + {(u, row[n])};
    }
  }

  /** Every edge is stored once: the rows have as many entries as there are edges. */
  lemma {:induction false} CountIsSize(g: Adjacency)
    requires WellFormed(g)
    ensures |EdgeSet(g)| == EdgeCount(g.rows)
    decreases |g.nodes|
  {
    if g.nodes != [] {
      var n := |g.nodes| - 1;
      var g' := Adjacency(g.nodes[..n], g.rows[..n]);
      CountIsSize(g');
      RowSize(g.nodes[n], g.rows[n]);
      assert EdgeSet(g') !! RowEdges(g.nodes[n], g.rows[n]) by {
        forall t: uint64 ensures (g.nodes[n], t) !in EdgeSet(g') {
          EdgeSetHas(g', g.nodes[n], t);
        }
      }
    }
  }

  /** A new source with its first target. */
  lemma AppendNode(g: Adjacency, u: uint64, t: uint64)
    requires WellFormed(g) && u !in g.nodes
    ensures var g' := Adjacency(g.nodes + [u], g.rows + [[t]]);
            WellFormed(g') && EdgeSet(g') == EdgeSet(g) + {(u, t)}
            && EdgeCount(g'.rows) == EdgeCount(g.rows) + 1
  {
    var g' := Adjacency(g.nodes + [u], g.rows + [[t]]);
    assert g'.nodes[..|g.nodes|] == g.nodes && g'.rows[..|g.rows|] == g.rows;
    assert RowEdges(u, [t]) == {(u, t)};
  }

  /** A new target for a known source. */
  lemma AppendTarget(g: Adjacency, i: nat, t: uint64)
    requires WellFormed(g) && i < |g.nodes| && t !in g.rows[i]
    ensures var g' := g.(rows := g.rows[i := g.rows[i] + [t]]);
            WellFormed(g') && EdgeSet(g') == EdgeSet(g) + {(g.nodes[i], t)}
            && EdgeCount(g'.rows) == EdgeCount(g.rows) + 1
  {
    var g' := g.(rows := g.rows[i := g.rows[i] + [t]]);
    GrowRowEdges(g, i, t);
    GrowRowCount(g.rows, i, t);
  }

  lemma {:induction false} GrowRowEdges(g: Adjacency, i: nat, t: uint64)
    requires |g.nodes| == |g.rows| && i < |g.nodes|
    ensures EdgeSet(g.(rows := g.rows[i := g.rows[i] + [t]])) == EdgeSet(g) + {(g.nodes[i], t)}
    decreases |g.nodes|
  {
    var n := |g.nodes| - 1;
    var rows' := g.rows[i := g.rows[i] + [t]];
    if i == n {
      assert rows'[..n] == g.rows[..n];
      assert RowEdges(g.nodes[n], rows'[n]) == RowEdges(g.nodes[n], g.rows[n]) + {(g.nodes[n], t)};
    } else {
      assert rows'[..n] == g.rows[..n][i := g.rows[..n][i] + [t]];
      GrowRowEdges(Adjacency(g.nodes[..n], g.rows[..n]), i, t);
    }
  }

  lemma {:induction false} GrowRowCount<T>(rows: seq<seq<T>>, i: nat, t: T)
    requires i < |rows|
    ensures EdgeCount(rows[i := rows[i] + [t]]) == EdgeCount(rows) + 1
    decreases |rows|
  {
    var n := |rows| - 1;
    var rows' := rows[i := rows[i] + [t]];
    if i == n {
      assert rows'[..n] == rows[..n];
    } else {
      assert rows'[..n] == rows[..n][i := rows[..n][i] + [t]];
      GrowRowCount(rows[..n], i, t);
    }
  }

  // ----- the counter that the source calls the number of vertices

  /** No address is the target of two edges. */
  ghost predicate TargetsApart(E: Edges) {
    forall e, f :: e in E && f in E && e != f ==> e.1 != f.1
  }

  /** Sources plus edges is never below the number of distinct addresses, and equal to it exactly when
      no target is a source too and no two edges share a target. */
  lemma AddressesWithinCounter(E: Edges)
    ensures |Sources(E) + Targets(E)| <= |Sources(E)| + |E|
    ensures |Sources(E) + Targets(E)| == |Sources(E)| + |E| <==> Sources(E) !! Targets(E) && TargetsApart(E)
  {
    var S, T := Sources(E), Targets(E);
    TargetCount(E);
    assert S + T == S + (T - S);
    SubsetSize(T - S, T);
    hide Sources, Targets, TargetsApart;
    if S !! T {
      assert T - S == T;
    } else {
      var t :| t in S && t in T;
      SubsetSize(T - S, T - {t});
    }
  }

  lemma {:induction false} TargetCount(E: Edges)
    ensures |Targets(E)| <= |E|
    ensures |Targets(E)| == |E| <==> TargetsApart(E)
  {
    if E == {} {
      assert Targets(E) == {};
    } else {
      var e :| e in E;
      var E' := E - {e};
      TargetCount(E');
      TargetNext(E', e);
      assert E == E' + {e};
    }
  }

  lemma TargetNext(E: Edges, e: Edge)
    requires e !in E
    ensures Targets(E + {e}) == Targets(E) + {e.1}
    ensures TargetsApart(E + {e}) <==> TargetsApart(E) && e.1 !in Targets(E)
  {
    if TargetsApart(E + {e}) {
      forall f | f in E ensures f.1 != e.1 {
        assert f in E + {e} && e in E + {e};
      }
    }
  }

  /** A branch that jumps to itself: one address, and a counter of two. */
  lemma SelfLoopCountsTwice()
    ensures var E: Edges := {(7, 7)};
            |Sources(E) + Targets(E)| == 1 && |Sources(E)| + |E| == 2
  {
    var E: Edges := {(7, 7)};
    assert Sources(E) == {7} && Targets(E) == {7};
    assert Sources(E) + Targets(E) == {7};
  }
}
