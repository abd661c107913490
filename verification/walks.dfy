// What the depth of a branch graph means, stated on its set of edges alone.

/** Walks with at least one edge, distances measured by them, and the depth that c_monitor/graph.c
    reports.  A node's distance to itself is the length of its shortest cycle, never 0. */
module Walks {
  import opened Base

  type Edges = set<Edge>

  ghost function Sources(E: Edges): set<uint64> {
    set e | e in E :: e.0
  }

  ghost function Targets(E: Edges): set<uint64> {
    set e | e in E :: e.1
  }

  /** There is a walk of exactly k edges from s to t, and k is not 0. */
  ghost predicate Walk(E: Edges, s: uint64, t: uint64, k: nat)
    decreases k
  {
    if k == 0 then false
    else if k == 1 then (s, t) in E
    else exists m: uint64 :: Walk(E, s, m, k - 1) && (m, t) in E
  }

  /** p leads from s to t along edges. */
  ghost predicate Path(E: Edges, s: uint64, t: uint64, p: seq<uint64>) {
    p != [] && p[0] == s && p[|p| - 1] == t && forall i :: 0 <= i < |p| - 1 ==> (p[i], p[i + 1]) in E
  }

  /** A walk of k edges is a sequence of k + 1 addresses, each with an edge to the next. */
  lemma {:induction false} WalkIsPath(E: Edges, s: uint64, t: uint64, k: nat)
    requires k > 0
    ensures Walk(E, s, t, k) <==> exists p: seq<uint64> :: |p| == k + 1 && Path(E, s, t, p)
    decreases k
  {
    if Walk(E, s, t, k) {
      if k == 1 {
        assert Path(E, s, t, [s, t]);
      } else {
        var m: uint64 :| Walk(E, s, m, k - 1) && (m, t) in E;
        WalkIsPath(E, s, m, k - 1);
        var p :| |p| == k && Path(E, s, m, p);
        assert Path(E, s, t, p + [t]);
      }
    }
    if p :| |p| == k + 1 && Path(E, s, t, p) {
      assert (p[k - 1], p[k - 1 + 1]) in E;
      if k > 1 {
        assert Path(E, s, p[k - 1], p[..k]);
        WalkIsPath(E, s, p[k - 1], k - 1);
      }
    }
  }

  ghost predicate Shortest(E: Edges, s: uint64, t: uint64, k: nat) {
    && Walk(E, s, t, k)
    && forall j: nat :: j < k ==> !Walk(E, s, t, j)
  }

  lemma {:induction false} ShortestExists(E: Edges, s: uint64, t: uint64, k: nat) returns (j: nat)
    requires Walk(E, s, t, k)
    ensures j <= k && Shortest(E, s, t, j)
  {
    if i: nat :| i < k && Walk(E, s, t, i) {
      j := ShortestExists(E, s, t, i);
    } else {
      j := k;
    }
  }

  /** The length of a shortest walk from s to t, or 0 when there is none. */
  ghost function Dist(E: Edges, s: uint64, t: uint64): (d: nat)
    ensures d == 0 <==> forall k: nat :: !Walk(E, s, t, k)
    ensures d > 0 ==> Shortest(E, s, t, d)
  {
    if exists j: nat :: Shortest(E, s, t, j) then
      var j: nat :| Shortest(E, s, t, j);
      assert Walk(E, s, t, j);
      j
    else
      assert forall k: nat :: !Walk(E, s, t, k) by {
        forall k: nat ensures !Walk(E, s, t, k) {
          if Walk(E, s, t, k) {
            var j := ShortestExists(E, s, t, k);
          }
        }
      }
      0
  }

  lemma DistUnique(E: Edges, s: uint64, t: uint64, k: nat)
    requires Shortest(E, s, t, k)
    ensures Dist(E, s, t) == k
  {
    var d := Dist(E, s, t);
    assert Walk(E, s, t, k) && Shortest(E, s, t, d);
  }

  /** The largest distance from s to an address of T that s reaches, or 0 when it reaches none. */
  ghost function Farthest(E: Edges, s: uint64, T: set<uint64>): (m: nat)
    ensures forall t :: t in T ==> Dist(E, s, t) <= m
    ensures m == 0 || exists t :: t in T && Dist(E, s, t) == m
  {
    if T == {} then 0
    else
      var t :| t in T;
      var m := Farthest(E, s, T - {t});
      if m < Dist(E, s, t) then Dist(E, s, t) else m
  }

  /** What a search from s reports: one more than the largest distance to any source it reaches. */
  ghost function Depth(E: Edges, s: uint64): nat {
    1 + Farthest(E, s, Sources(E))
  }

  /** The largest of the depths over a set of start nodes. */
  ghost function MaxDepth(E: Edges, S: set<uint64>): (m: nat)
    ensures forall s :: s in S ==> Depth(E, s) <= m
    ensures m == 0 || exists s :: s in S && Depth(E, s) == m
  {
    if S == {} then 0
    else
      var s :| s in S;
      var m := MaxDepth(E, S - {s});
      if m < Depth(E, s) then Depth(E, s) else m
  }

  /** The depth of the whole graph: the largest over every source as the start. */
  ghost function ConnDepth(E: Edges): nat {
    MaxDepth(E, Sources(E))
  }

  /** The true eccentricity of s: the largest distance to any address, source or leaf. */
  ghost function Eccentricity(E: Edges, s: uint64): nat {
    Farthest(E, s, Sources(E) + Targets(E))
  }

  // ----- depth against eccentricity

  lemma LastStep(E: Edges, s: uint64, t: uint64, k: nat) returns (m: uint64)
    requires Shortest(E, s, t, k) && k >= 2
    ensures m in Sources(E) && (m, t) in E && Shortest(E, s, m, k - 1)
  {
    m :| Walk(E, s, m, k - 1) && (m, t) in E;
    forall j: nat | j < k - 1 ensures !Walk(E, s, m, j) {
      var i := j + 1;
      assert Walk(E, s, m, j) ==> Walk(E, s, t, i);
    }
  }

  /** The reported depth is the eccentricity or one more, and it is the eccentricity exactly when no
      source lies at the greatest distance. */
  lemma DepthAgainstEccentricity(E: Edges, s: uint64)
    requires s in Sources(E)
    ensures Eccentricity(E, s) <= Depth(E, s) <= Eccentricity(E, s) + 1
    ensures Depth(E, s) == Eccentricity(E, s) <==> !exists t :: t in Sources(E) && Dist(E, s, t) == Eccentricity(E, s)
  {
    var e := Eccentricity(E, s);
    var t0 :| (s, t0) in E;
    assert Walk(E, s, t0, 1);
    assert t0 in Targets(E);
    assert e >= 1;
    var t :| t in Sources(E) + Targets(E) && Dist(E, s, t) == e;
    if e >= 2 {
      var m := LastStep(E, s, t, e);
      DistUnique(E, s, m, e - 1);
    }
  }

  // ----- bounds

  lemma {:induction false} NearerSources(E: Edges, s: uint64, t: uint64, k: nat) returns (S: set<uint64>)
    requires t in Sources(E) && Shortest(E, s, t, k)
    ensures S <= Sources(E) && |S| == k
    ensures forall u :: u in S ==> 1 <= Dist(E, s, u) <= k
    decreases k
  {
    DistUnique(E, s, t, k);
    if k == 1 {
      S := {t};
    } else {
      var m := LastStep(E, s, t, k);
      S := NearerSources(E, s, m, k - 1);
      assert t !in S;
      S := S + {t};
    }
  }

  lemma SubsetSize<T>(A: set<T>, B: set<T>)
    requires A <= B
    ensures |A| <= |B|
  {
    assert A + (B - A) == B;
  }

  /** A search is at most one level deeper than there are sources. */
  lemma DepthBound(E: Edges, s: uint64)
    ensures 1 <= Depth(E, s) <= |Sources(E)| + 1
  {
    var m := Farthest(E, s, Sources(E));
    if m > 0 {
      var t :| t in Sources(E) && Dist(E, s, t) == m;
      var S := NearerSources(E, s, t, m);
      SubsetSize(S, Sources(E));
    }
  }

  lemma ConnDepthBound(E: Edges)
    ensures ConnDepth(E) == 0 <==> E == {}
    ensures E != {} ==> ConnDepth(E) <= |Sources(E)| + 1
  {
    if E == {} {
      assert Sources(E) == {};
    } else {
      var e :| e in E;
      assert e.0 in Sources(E);
      assert Depth(E, e.0) <= ConnDepth(E);
      var s :| s in Sources(E) && Depth(E, s) == ConnDepth(E);
      DepthBound(E, s);
    }
  }

  function CycleAt(c: seq<uint64>, k: nat): uint64
    requires k <= |c| && c != []
  {
    if k == |c| then c[0] else c[k]
  }

  /** The edges of a cycle through the addresses of c, in order. */
  ghost function CycleEdges(c: seq<uint64>): Edges
    requires c != []
  {
    set i | 0 <= i < |c| :: (c[i], CycleAt(c, i + 1))
  }

  lemma CycleNext(c: seq<uint64>, t: uint64, k: nat)
    requires c != [] && forall i, j :: 0 <= i < j < |c| ==> c[i] != c[j]
    requires 1 <= k <= |c|
    ensures (c[k - 1], t) in CycleEdges(c) <==> t == CycleAt(c, k)
  {
    hide CycleAt;
    assert (c[k - 1], CycleAt(c, k)) in CycleEdges(c);
  }

  lemma WalkSplits(E: Edges, s: uint64, t: uint64, k: nat)
    requires k >= 2
    ensures Walk(E, s, t, k) <==> exists m: uint64 :: Walk(E, s, m, k - 1) && (m, t) in E
  {
  }

  lemma {:induction false} CycleWalks(c: seq<uint64>, t: uint64, k: nat)
    requires c != [] && forall i, j :: 0 <= i < j < |c| ==> c[i] != c[j]
    requires 1 <= k <= |c|
    ensures Walk(CycleEdges(c), c[0], t, k) <==> t == CycleAt(c, k)
    decreases k
  {
    var E := CycleEdges(c);
    CycleNext(c, t, k);
    assert k >= 2 ==> CycleAt(c, k - 1) == c[k - 1];
    hide CycleEdges, CycleAt;
    if k >= 2 {
      hide Walk;
      WalkSplits(E, c[0], t, k);
      CycleWalks(c, c[k - 1], k - 1);
      if Walk(E, c[0], t, k) {
        var m: uint64 :| Walk(E, c[0], m, k - 1) && (m, t) in E;
        CycleWalks(c, m, k - 1);
      }
    }
  }

  /** The bound is reached: from any address of a simple cycle the depth is one more than its length. */
  lemma CycleDepth(c: seq<uint64>)
    requires c != [] && forall i, j :: 0 <= i < j < |c| ==> c[i] != c[j]
    ensures Depth(CycleEdges(c), c[0]) == |c| + 1
    ensures |Sources(CycleEdges(c))| == |c|
  {
    var E, n := CycleEdges(c), |c|;
    assert forall t :: t in c <==> t in Sources(E) by {
      forall i | 0 <= i < n ensures c[i] in Sources(E) {
        assert (c[i], CycleAt(c, i + 1)) in E;
      }
    }
    SizeOfDistinct(c, Sources(E));
    forall k: nat | k < n ensures !Walk(E, c[0], c[0], k) {
      if k > 0 {
        CycleWalks(c, c[0], k);
      }
    }
    CycleWalks(c, c[0], n);
    DistUnique(E, c[0], c[0], n);
    DepthBound(E, c[0]);
  }

  lemma {:induction false} SizeOfDistinct(c: seq<uint64>, S: set<uint64>)
    requires forall i, j :: 0 <= i < j < |c| ==> c[i] != c[j]
    requires forall t :: t in c <==> t in S
    ensures |S| == |c|
    decreases |c|
  {
    if c == [] {
      assert S == {};
    } else {
      var n := |c| - 1;
      var last := c[n];
      assert c == c[..n] + [last];
      SizeOfDistinct(c[..n], S - {last});
    }
  }

  // ----- distances computed by a search

  /** Every source that an edge from u leads to is in dist, at distance d at most. */
  ghost predicate Closed(E: Edges, dist: map<uint64, nat>, u: uint64, d: nat) {
    forall t :: t in Sources(E) && (u, t) in E ==> t in dist && dist[t] <= d
  }

  /** dist maps sources to walk lengths, and no edge into a source improves on it. */
  ghost predicate Settled(E: Edges, s: uint64, dist: map<uint64, nat>) {
    && (forall t :: t in dist ==> t in Sources(E) && Walk(E, s, t, dist[t]))
    && Closed(E, dist, s, 1)
    && forall u :: u in dist ==> Closed(E, dist, u, dist[u] + 1)
  }

  lemma {:induction false} SettledBound(E: Edges, s: uint64, dist: map<uint64, nat>, t: uint64, k: nat)
    requires Settled(E, s, dist)
    requires t in Sources(E) && Walk(E, s, t, k)
    ensures t in dist && dist[t] <= k
    decreases k
  {
    if k >= 2 {
      var m: uint64 :| Walk(E, s, m, k - 1) && (m, t) in E;
      assert m in Sources(E);
      SettledBound(E, s, dist, m, k - 1);
    }
  }

  /** Settled distances are the shortest ones. */
  lemma SettledIsDist(E: Edges, s: uint64, dist: map<uint64, nat>)
    requires Settled(E, s, dist)
    ensures forall t :: t in Sources(E) ==> Dist(E, s, t) == if t in dist then dist[t] else 0
  {
    forall t | t in Sources(E) ensures Dist(E, s, t) == if t in dist then dist[t] else 0 {
      var d := Dist(E, s, t);
      if d > 0 {
        SettledBound(E, s, dist, t, d);
        assert Walk(E, s, t, dist[t]);
      }
    }
  }

  /** A search that settled its distances and reports one more than the largest reports the depth. */
  lemma SettledDepth(E: Edges, s: uint64, dist: map<uint64, nat>, d: nat)
    requires Settled(E, s, dist)
    requires d >= 1
    requires forall t :: t in dist ==> dist[t] + 1 <= d
    requires d == 1 || exists t :: t in dist && dist[t] + 1 == d
    ensures d == Depth(E, s)
  {
    SettledIsDist(E, s, dist);
    var m := Farthest(E, s, Sources(E));
    if d > 1 {
      var t :| t in dist && dist[t] + 1 == d;
      assert Dist(E, s, t) == d - 1;
    }
    if m > 0 {
      var t :| t in Sources(E) && Dist(E, s, t) == m;
      assert t in dist;
    }
  }
}
