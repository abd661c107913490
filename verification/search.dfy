// The breadth-first search of c_monitor/graph.c, step by step.

/** A ghost record of the search and the invariants its steps keep.  The start node is queued at
    depth 0 without being marked, so it can be discovered, and queued, once more. */
module Search {
  import opened Base
  import opened Walks
  import opened Adjacency

  datatype Item = Item(depth: nat, index: nat)

  /** queue is the queue of the search; dist the depth at which each marked source was queued; done
      the marked sources whose edges have been followed. */
  datatype Record = Record(queue: seq<Item>, dist: map<uint64, nat>, done: set<uint64>)

  /** nodes lists the sources of E, each once. */
  ghost predicate Lists(nodes: seq<uint64>, E: Edges) {
    && Distinct(nodes)
    && forall u :: u in nodes <==> u in Sources(E)
  }

  ghost predicate InRange(nodes: seq<uint64>, queue: seq<Item>) {
    forall a :: 0 <= a < |queue| ==> queue[a].index < |nodes|
  }

  ghost function Queued(nodes: seq<uint64>, queue: seq<Item>): set<uint64>
    requires InRange(nodes, queue)
  {
    set a | 0 <= a < |queue| :: nodes[queue[a].index]
  }

  /** Depths in the queue never fall and span at most two levels; no source is queued twice. */
  ghost predicate Ordered(queue: seq<Item>, low: nat) {
    && (forall a :: 0 <= a < |queue| ==> low <= queue[a].depth <= low + 1)
    && (forall a, b :: 0 <= a < b < |queue| ==> queue[a].depth <= queue[b].depth && queue[a].index != queue[b].index)
  }

  /** The marked sources are the finished and the queued ones, each once. */
  ghost predicate Accounted(nodes: seq<uint64>, r: Record)
    requires InRange(nodes, r.queue)
  {
    && r.dist.Keys == r.done + Queued(nodes, r.queue)
    && r.done !! Queued(nodes, r.queue)
    && |r.dist| == |r.done| + |r.queue|
  }

  ghost predicate Labelled(nodes: seq<uint64>, r: Record)
    requires InRange(nodes, r.queue)
  {
    forall a :: 0 <= a < |r.queue| ==>
      nodes[r.queue[a].index] in r.dist && r.dist[nodes[r.queue[a].index]] == r.queue[a].depth
  }

  /** A depth is the length of some walk, and never two levels ahead. */
  ghost predicate Sound(nodes: seq<uint64>, E: Edges, s: uint64, dist: map<uint64, nat>, low: nat)
  {
    forall t :: t in dist ==> t in nodes && Walk(E, s, t, dist[t]) && dist[t] <= low + 1
  }

  /** low is the greatest depth finished so far, or 0 when only the start has been polled. */
  ghost predicate Reached(r: Record, low: nat) {
    && (forall u :: u in r.done ==> u in r.dist && r.dist[u] <= low)
    && (low == 0 || exists u :: u in r.done && r.dist[u] == low)
  }

  /** What holds between any two steps: low is the depth being worked on. */
  ghost predicate Consistent(nodes: seq<uint64>, E: Edges, s: uint64, r: Record, low: nat)
  {
    && InRange(nodes, r.queue)
    && Ordered(r.queue, low)
    && Accounted(nodes, r)
    && Labelled(nodes, r)
    && Sound(nodes, E, s, r.dist, low)
    && Reached(r, low)
  }

  /** Between polls every marked and finished source is closed, and so is the start. */
  ghost predicate Resting(nodes: seq<uint64>, E: Edges, s: uint64, r: Record, low: nat)
  {
    && Consistent(nodes, E, s, r, low)
    && Closed(E, r.dist, s, 1)
    && forall u :: u in r.done ==> Closed(E, r.dist, u, r.dist[u] + 1)
  }

  /** While the edges of u, polled at depth low, are being followed: all closed but u. */
  ghost predicate Working(nodes: seq<uint64>, E: Edges, s: uint64, r: Record, low: nat, u: uint64)
  {
    && Consistent(nodes, E, s, r, low)
    && (forall v :: v in r.done && v != u ==> Closed(E, r.dist, v, r.dist[v] + 1))
    && if low == 0 then u == s && r.done == {} else u in r.done && r.dist[u] == low && Closed(E, r.dist, s, 1)
  }

  // ----- the steps

  /** The first poll takes the start off the queue. */
  lemma PollStart(nodes: seq<uint64>, E: Edges, s: uint64)
    ensures Working(nodes, E, s, Record([], map[], {}), 0, s)
  {
  }

  lemma QueuedHead(nodes: seq<uint64>, queue: seq<Item>, low: nat)
    requires queue != [] && InRange(nodes, queue) && Ordered(queue, low) && Distinct(nodes)
    ensures InRange(nodes, queue[1..])
    ensures Queued(nodes, queue) == Queued(nodes, queue[1..]) + {nodes[queue[0].index]}
    ensures nodes[queue[0].index] !in Queued(nodes, queue[1..])
  {
    forall x | x in Queued(nodes, queue) ensures x in Queued(nodes, queue[1..]) + {nodes[queue[0].index]} {
      var a :| 0 <= a < |queue| && nodes[queue[a].index] == x;
      assert a > 0 ==> queue[1..][a - 1] == queue[a];
    }
    assert forall a :: 0 <= a < |queue[1..]| ==> queue[1..][a] == queue[a + 1];
  }

  lemma PollOrdered(queue: seq<Item>, low: nat)
    requires queue != [] && Ordered(queue, low)
    ensures low <= queue[0].depth <= low + 1 && Ordered(queue[1..], queue[0].depth)
  {
  }

  lemma PollLabelled(nodes: seq<uint64>, r: Record, r': Record)
    requires InRange(nodes, r.queue) && Labelled(nodes, r)
    requires r.queue != [] && r'.queue == r.queue[1..] && r'.dist == r.dist
    ensures InRange(nodes, r'.queue) && Labelled(nodes, r')
  {
    assert forall a :: 0 <= a < |r'.queue| ==> r'.queue[a] == r.queue[a + 1];
  }

  lemma HeadInRange(nodes: seq<uint64>, queue: seq<Item>)
    requires queue != [] && InRange(nodes, queue)
    ensures queue[0].index < |nodes|
  {
  }

  lemma PollAccounted(nodes: seq<uint64>, r: Record, r': Record, low: nat)
    requires r.queue != [] && InRange(nodes, r.queue) && Ordered(r.queue, low) && Distinct(nodes)
    requires Accounted(nodes, r)
    requires r'.queue == r.queue[1..] && r'.dist == r.dist && r'.done == r.done + {nodes[r.queue[0].index]}
    ensures InRange(nodes, r'.queue) && Accounted(nodes, r')
  {
    HeadInRange(nodes, r.queue);
    QueuedHead(nodes, r.queue, low);
    HeadMoves(r.dist.Keys, r.done, nodes[r.queue[0].index], Queued(nodes, r.queue), Queued(nodes, r'.queue));
    hide Queued, InRange, Ordered, Distinct;
  }

  lemma HeadMoves(marked: set<uint64>, done: set<uint64>, t: uint64, q: set<uint64>, q': set<uint64>)
    requires marked == done + q && done !! q && q == q' + {t} && t !in q'
    ensures marked == (done + {t}) + q' && (done + {t}) !! q' && |done + {t}| == |done| + 1
  {
  }

  lemma WalkNonempty(E: Edges, s: uint64, t: uint64, k: nat)
    requires Walk(E, s, t, k)
    ensures k >= 1
  {
  }

  lemma PollReached(r: Record, r': Record, low: nat, u: uint64, d: nat)
    requires Reached(r, low) && u in r.dist && r.dist[u] == d && low <= d
    requires r'.dist == r.dist && r'.done == r.done + {u}
    ensures Reached(r', d)
  {
    assert u in r'.done;
  }

  /** A later poll takes the head of the queue; its depth is the new low. */
  lemma PollNext(nodes: seq<uint64>, E: Edges, s: uint64, r: Record, low: nat)
    requires Lists(nodes, E) && Resting(nodes, E, s, r, low) && r.queue != []
    ensures r.queue[0].index < |nodes| && low <= r.queue[0].depth
    ensures var u := nodes[r.queue[0].index];
            Working(nodes, E, s, Record(r.queue[1..], r.dist, r.done + {u}), r.queue[0].depth, u)
  {
    hide InRange, Ordered, Accounted, Labelled, Reached, Closed, Distinct, Queued, Walk;
    assert Distinct(nodes);
    HeadLabel(nodes, r);
    var d, u := r.queue[0].depth, nodes[r.queue[0].index];
    var r' := Record(r.queue[1..], r.dist, r.done + {u});
    PollOrdered(r.queue, low);
    PollLabelled(nodes, r, r');
    PollAccounted(nodes, r, r', low);
    WalkNonempty(E, s, u, d);
    PollReached(r, r', low, u, d);
  }

  lemma HeadLabel(nodes: seq<uint64>, r: Record)
    requires InRange(nodes, r.queue) && Labelled(nodes, r) && r.queue != []
    ensures r.queue[0].index < |nodes|
    ensures nodes[r.queue[0].index] in r.dist && r.dist[nodes[r.queue[0].index]] == r.queue[0].depth
  {
  }

  lemma QueuedLast(nodes: seq<uint64>, queue: seq<Item>, it: Item)
    requires InRange(nodes, queue) && it.index < |nodes|
    ensures InRange(nodes, queue + [it])
    ensures Queued(nodes, queue + [it]) == Queued(nodes, queue) + {nodes[it.index]}
  {
    var queue' := queue + [it];
    assert queue'[|queue|] == it;
    forall x | x in Queued(nodes, queue) ensures x in Queued(nodes, queue') {
      var a :| 0 <= a < |queue| && nodes[queue[a].index] == x;
      assert queue'[a] == queue[a];
    }
  }

  lemma DiscoverOrdered(nodes: seq<uint64>, queue: seq<Item>, low: nat, index: nat)
    requires InRange(nodes, queue) && Ordered(queue, low)
    requires index < |nodes| && nodes[index] !in Queued(nodes, queue)
    ensures Ordered(queue + [Item(low + 1, index)], low)
  {
    forall a | 0 <= a < |queue| ensures queue[a].index != index {
      assert nodes[queue[a].index] in Queued(nodes, queue);
    }
  }

  lemma DiscoverLabelled(nodes: seq<uint64>, r: Record, r': Record, it: Item)
    requires InRange(nodes, r.queue) && Labelled(nodes, r)
    requires it.index < |nodes| && nodes[it.index] !in r.dist
    requires r'.queue == r.queue + [it] && r'.dist == r.dist[nodes[it.index] := it.depth]
    ensures InRange(nodes, r'.queue) && Labelled(nodes, r')
  {
  }

  lemma DiscoverClosed(E: Edges, dist: map<uint64, nat>, t: uint64, d: nat, v: uint64, k: nat)
    requires Closed(E, dist, v, k) && t !in dist
    ensures Closed(E, dist[t := d], v, k)
  {
  }

  lemma DiscoverAccounted(nodes: seq<uint64>, r: Record, r': Record, it: Item)
    requires InRange(nodes, r.queue) && Accounted(nodes, r)
    requires it.index < |nodes| && nodes[it.index] !in r.dist
    requires r'.queue == r.queue + [it] && r'.dist == r.dist[nodes[it.index] := it.depth] && r'.done == r.done
    ensures InRange(nodes, r'.queue) && Accounted(nodes, r')
  {
    var t := nodes[it.index];
    QueuedLast(nodes, r.queue, it);
    MarkAdds(r.dist, t, it.depth);
    hide Queued, InRange;
    MarkedOnce(r.dist.Keys, r.done, Queued(nodes, r.queue), t);
  }

  lemma MarkedOnce(marked: set<uint64>, done: set<uint64>, queued: set<uint64>, t: uint64)
    requires marked == done + queued && done !! queued && t !in marked
    ensures marked + {t} == done + (queued + {t}) && done !! queued + {t}
  {
  }

  lemma MarkAdds(dist: map<uint64, nat>, t: uint64, d: nat)
    requires t !in dist
    ensures dist[t := d].Keys == dist.Keys + {t} && |dist[t := d]| == |dist| + 1
  {
    assert |dist[t := d]| == |dist[t := d].Keys| && |dist| == |dist.Keys|;
  }

  lemma WalkOn(E: Edges, s: uint64, r: Record, low: nat, u: uint64, t: uint64)
    requires if low == 0 then u == s else Walk(E, s, u, low)
    requires (u, t) in E
    ensures Walk(E, s, t, low + 1)
  {
  }

  lemma DiscoverReached(r: Record, r': Record, low: nat, t: uint64, d: nat)
    requires Reached(r, low) && t !in r.dist
    requires r'.dist == r.dist[t := d] && r'.done == r.done
    ensures Reached(r', low)
  {
    if u :| u in r.done && r.dist[u] == low {
      assert u in r'.done && r'.dist[u] == low;
    }
  }

  /** An unmarked source found along an edge of u is marked and queued one level deeper. */
  lemma Discover(nodes: seq<uint64>, E: Edges, s: uint64, r: Record, low: nat, u: uint64, index: nat)
    requires Working(nodes, E, s, r, low, u)
    requires index < |nodes| && nodes[index] !in r.dist && (u, nodes[index]) in E
    ensures var r' := Record(r.queue + [Item(low + 1, index)], r.dist[nodes[index] := low + 1], r.done);
            Working(nodes, E, s, r', low, u)
  {
    hide InRange, Ordered, Accounted, Labelled, Closed, Reached, Queued, Walk;
    var t, it := nodes[index], Item(low + 1, index);
    var r' := Record(r.queue + [it], r.dist[t := low + 1], r.done);
    assert t !in Queued(nodes, r.queue) by {
      DisjointFromDist(nodes, r, t);
    }
    DiscoverOrdered(nodes, r.queue, low, index);
    DiscoverLabelled(nodes, r, r', it);
    DiscoverAccounted(nodes, r, r', it);
    DiscoverReached(r, r', low, t, low + 1);
    WalkOn(E, s, r, low, u, t);
    forall v | v in r.done && v != u ensures Closed(E, r'.dist, v, r'.dist[v] + 1) {
      DoneInDist(nodes, r, v);
      DiscoverClosed(E, r.dist, t, low + 1, v, r.dist[v] + 1);
    }
    if low > 0 {
      DiscoverClosed(E, r.dist, t, low + 1, s, 1);
    }
  }

  lemma DisjointFromDist(nodes: seq<uint64>, r: Record, t: uint64)
    requires InRange(nodes, r.queue) && Accounted(nodes, r) && t !in r.dist
    ensures t !in Queued(nodes, r.queue)
  {
  }

  lemma DoneInDist(nodes: seq<uint64>, r: Record, v: uint64)
    requires InRange(nodes, r.queue) && Accounted(nodes, r) && v in r.done
    ensures v in r.dist
  {
  }

  /** When every edge of u has been followed, u is closed too. */
  lemma Finish(nodes: seq<uint64>, E: Edges, s: uint64, r: Record, low: nat, u: uint64)
    requires Working(nodes, E, s, r, low, u)
    requires Closed(E, r.dist, u, low + 1)
    ensures Resting(nodes, E, s, r, low)
  {
    hide InRange, Ordered, Accounted, Labelled, Sound, Closed;
  }

  /** An empty queue leaves exact distances: the search reports the depth. */
  lemma Exhausted(nodes: seq<uint64>, E: Edges, s: uint64, r: Record, low: nat)
    requires Lists(nodes, E) && Resting(nodes, E, s, r, low) && r.queue == []
    ensures low + 1 == Depth(E, s)
  {
    assert r.dist.Keys == r.done;
    assert Settled(E, s, r.dist);
    SettledDepth(E, s, r.dist, low + 1);
  }

  /** Each poll but the first finishes one marked source, so there is at most one more poll than sources. */
  lemma MarkedBound(nodes: seq<uint64>, E: Edges, s: uint64, r: Record, low: nat)
    requires Lists(nodes, E) && Consistent(nodes, E, s, r, low)
    ensures |r.dist| <= |nodes|
  {
    assert r.dist.Keys <= Sources(E);
    SizeOfDistinct(nodes, Sources(E));
    SubsetSize(r.dist.Keys, Sources(E));
  }

  lemma PollCount(nodes: seq<uint64>, E: Edges, s: uint64, r: Record, low: nat)
    requires Lists(nodes, E) && Resting(nodes, E, s, r, low) && r.queue != []
    ensures r.queue[0].index < |nodes| && nodes[r.queue[0].index] !in r.done
    ensures |r.done| < |nodes|
  {
    MarkedBound(nodes, E, s, r, low);
    assert nodes[r.queue[0].index] in Queued(nodes, r.queue);
  }
}
