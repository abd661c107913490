// What process_branches (c_monitor/main.c) computes, on values: which branches are kept, the edges
// and counts they add up to, and what a whole session of traces leaves in the hit table.

module HitCounting {
  import opened Base
  import opened KeyCodec
  import opened BlockMap
  import opened Walks
  import opened Counting

  /** One record of the branch trace. */
  datatype Branch = Branch(from: uint64, to: uint64, misc: uint64)

  /** Addresses of a section, both ends included. */
  datatype Bounds = Bounds(start: uint64, end: uint64)

  datatype Config = Config(bounds: Option<Bounds>, bbs: seq<Block>)

  /** Addresses above this one belong to the kernel. */
  const KERNEL_START: uint64 := 0xFFFF_FFFF_0000_0000

  /** Counts by key; a 64-bit counter holds the values below UINT64_LIMIT. */
  type Hits = map<string, nat>

  predicate Within(b: Bounds, a: uint64) {
    b.start <= a <= b.end
  }

  predicate Kept(cfg: Config, br: Branch) {
    && br.from <= KERNEL_START && br.to <= KERNEL_START
    && (cfg.bounds.Some? ==> Within(cfg.bounds.value, br.from) && Within(cfg.bounds.value, br.to))
  }

  /** The addresses of a section, whose end is its start plus its size. */
  predicate InSection(b: Bounds, a: uint64) {
    b.start <= a < b.end
  }

  /** A record gives one edge if neither address is above the kernel bound and, with section bounds, both
      lie within them, ends included; otherwise it gives none. */
  lemma PairsOfOne(cfg: Config, br: Branch)
    ensures |Pairs(cfg, [br])| == 1
            <==> br.from <= 0xFFFF_FFFF_0000_0000 && br.to <= 0xFFFF_FFFF_0000_0000
                 && (cfg.bounds.Some? ==>
                       && cfg.bounds.value.start <= br.from && br.from <= cfg.bounds.value.end
                       && cfg.bounds.value.start <= br.to && br.to <= cfg.bounds.value.end)
    ensures Pairs(cfg, [br]) == [] || Pairs(cfg, [br]) == [MapBranch(cfg.bbs, (br.from, br.to))]
  {
    assert [br][..0] == [];
  }

  /** The branches kept with an address outside the section are those with an address at its end. */
  lemma SectionEndPasses(b: Bounds, bbs: seq<Block>, br: Branch)
    ensures var cfg := Config(Some(b), bbs);
            Kept(cfg, br) ==>
              (!(InSection(b, br.from) && InSection(b, br.to)) <==> br.from == b.end || br.to == b.end)
    ensures Kept(Config(Some(b), bbs), Branch(b.start, b.end, br.misc)) <==> b.start <= b.end <= 0xFFFF_FFFF_0000_0000
  {
  }

  /** The edge of a kept branch, after mapping to blocks. */
  function PairOf(cfg: Config, br: Branch): seq<Edge> {
    if Kept(cfg, br) then [MapBranch(cfg.bbs, (br.from, br.to))] else []
  }

  /** The edges of a trace, in order and with repetitions. */
  function Pairs(cfg: Config, trace: seq<Branch>): (pairs: seq<Edge>)
    ensures |pairs| <= |trace|
  {
    if trace == [] then []
    else Pairs(cfg, trace[..|trace| - 1]) + PairOf(cfg, trace[|trace| - 1])
  }

  ghost function EdgesOf(pairs: seq<Edge>): Edges {
    set e | e in pairs
  }

  function KeysOf(pairs: seq<Edge>): (keys: seq<string>)
    ensures |keys| == |pairs|
  {
    seq(|pairs|, i requires 0 <= i < |pairs| => Key(pairs[i]))
  }

  lemma KeysAppend(p: seq<Edge>, q: seq<Edge>)
    ensures KeysOf(p + q) == KeysOf(p) + KeysOf(q)
  {
    hide Key;
  }

  lemma KeysOfOne(e: Edge)
    ensures KeysOf([e]) == [Key(e)]
  {
    hide Key;
  }

  lemma KeysOfNext(p: seq<Edge>, x: Edge)
    ensures multiset(KeysOf(p + [x])) == multiset(KeysOf(p)) + multiset{Key(x)}
  {
    hide KeysOf, Key;
    KeysAppend(p, [x]);
    KeysOfOne(x);
  }

  /** What one call of process_branches leaves behind and reports. */
  datatype Outcome = Outcome(hits: Hits, newBranches: nat, filtered: nat, depth: nat)

  ghost function Process(cfg: Config, h: Hits, trace: seq<Branch>): Outcome {
    var pairs := Pairs(cfg, trace);
    var h' := Tally(h, KeysOf(pairs), UINT64_LIMIT);
    TallyGrows(h, KeysOf(pairs), UINT64_LIMIT);
    Outcome(h', |h'| - |h|, |pairs|, ConnDepth(EdgesOf(pairs)))
  }

  // ----- counts

  /** The counters of a table fit their width. */
  ghost predicate Fits(h: Hits) {
    forall k :: k in h ==> h[k] < UINT64_LIMIT
  }

  lemma {:induction false} KeyMultiplicity(pairs: seq<Edge>, e: Edge)
    ensures multiset(KeysOf(pairs))[Key(e)] == multiset(pairs)[e]
    decreases |pairs|
  {
    if pairs != [] {
      var n := |pairs| - 1;
      hide KeysOf, Key;
      KeyMultiplicity(pairs[..n], e);
      assert pairs == pairs[..n] + [pairs[n]];
      KeysOfNext(pairs[..n], pairs[n]);
      KeyInjective(e, pairs[n]);
    }
  }

  lemma KeptKeys(h: Hits, pairs: seq<Edge>, e: Edge)
    requires Fits(h)
    ensures Key(e) in Tally(h, KeysOf(pairs), UINT64_LIMIT) <==> Key(e) in h || e in pairs
    ensures CountAt(Tally(h, KeysOf(pairs), UINT64_LIMIT), Key(e))
        == (CountAt(h, Key(e)) + multiset(pairs)[e]) % UINT64_LIMIT
  {
    TallyAt(h, KeysOf(pairs), Key(e), UINT64_LIMIT);
    KeyMultiplicity(pairs, e);
    hide *;
    assert Key(e) in KeysOf(pairs) <==> multiset(KeysOf(pairs))[Key(e)] > 0;
    assert e in pairs <==> multiset(pairs)[e] > 0;
  }

  /** After a call an edge is in the table if it was there or was kept, and its count has grown by the
      number of kept branches mapped to it, modulo 2^64. */
  lemma ProcessCounts(cfg: Config, h: Hits, trace: seq<Branch>, e: Edge)
    requires Fits(h)
    ensures var pairs := Pairs(cfg, trace);
            var h' := Process(cfg, h, trace).hits;
            && (Key(e) in h' <==> Key(e) in h || e in pairs)
            && CountAt(h', Key(e)) == (CountAt(h, Key(e)) + multiset(pairs)[e]) % UINT64_LIMIT
  {
    hide Tally, KeysOf, Key, Pairs, ConnDepth, EdgesOf, CountAt, Fits;
    KeptKeys(h, Pairs(cfg, trace), e);
  }

  // ----- one call: new branches, edges and kept branches

  lemma {:induction false} EdgesWithinPairs(pairs: seq<Edge>)
    ensures |EdgesOf(pairs)| <= |pairs|
    ensures EdgesOf(pairs) == {} <==> pairs == []
    decreases |pairs|
  {
    if pairs == [] {
      assert EdgesOf(pairs) == {};
    } else {
      var n := |pairs| - 1;
      EdgesWithinPairs(pairs[..n]);
      assert pairs == pairs[..n] + [pairs[n]];
      assert EdgesOf(pairs) == EdgesOf(pairs[..n]) + {pairs[n]};
    }
  }

  ghost function FreshEdges(h: Hits, E: Edges): Edges {
    set e | e in E && Key(e) !in h
  }

  lemma FreshNext(h: Hits, pairs: seq<Edge>, e: Edge)
    ensures var before, after := FreshEdges(h, EdgesOf(pairs)), FreshEdges(h, EdgesOf(pairs + [e]));
            && after == (if Key(e) in h then before else before + {e})
            && (e in before <==> Key(e) !in h && e in pairs)
  {
    hide Key;
  }

  /** One more key: the table grows exactly when the set of fresh edges does. */
  lemma SizeNext(h: Hits, t: Hits, pairs: seq<Edge>, e: Edge)
    requires |t| == |h| + |FreshEdges(h, EdgesOf(pairs))|
    requires Key(e) in t <==> Key(e) in h || e in pairs
    ensures |Bump(t, Key(e), UINT64_LIMIT)| == |h| + |FreshEdges(h, EdgesOf(pairs + [e]))|
  {
    FreshNext(h, pairs, e);
    BumpSize(t, Key(e), UINT64_LIMIT);
    SizeWith(FreshEdges(h, EdgesOf(pairs)), e);
    hide FreshEdges, EdgesOf, Key, Bump;
  }

  lemma SizeWith<T>(S: set<T>, x: T)
    ensures |S + {x}| == if x in S then |S| else |S| + 1
  {
    if x in S {
      assert S + {x} == S;
    }
  }

  lemma KeysNext(h: Hits, pairs: seq<Edge>, e: Edge)
    ensures Tally(h, KeysOf(pairs + [e]), UINT64_LIMIT)
        == Bump(Tally(h, KeysOf(pairs), UINT64_LIMIT), Key(e), UINT64_LIMIT)
  {
    hide Bump, Key;
    KeysAppend(pairs, [e]);
    KeysOfOne(e);
    TallyNext(h, KeysOf(pairs), Key(e), UINT64_LIMIT);
  }

  lemma {:induction false} TallySize(h: Hits, pairs: seq<Edge>)
    requires Fits(h)
    ensures |Tally(h, KeysOf(pairs), UINT64_LIMIT)| == |h| + |FreshEdges(h, EdgesOf(pairs))|
    decreases |pairs|
  {
    if pairs == [] {
      assert FreshEdges(h, EdgesOf(pairs)) == {};
    } else {
      var n := |pairs| - 1;
      var p, e := pairs[..n], pairs[n];
      assert pairs == p + [e];
      hide Tally, KeysOf, Key, Bump, EdgesOf, FreshEdges, Fits;
      TallySize(h, p);
      KeptKeys(h, p, e);
      SizeNext(h, Tally(h, KeysOf(p), UINT64_LIMIT), p, e);
      KeysNext(h, p, e);
    }
  }

  /** The records that no filter drops. */
  ghost function KeptRecords(cfg: Config, trace: seq<Branch>): set<nat> {
    set i: nat | i < |trace|
      && trace[i].from <= 0xFFFF_FFFF_0000_0000 && trace[i].to <= 0xFFFF_FFFF_0000_0000
      && (cfg.bounds.Some? ==>
            && cfg.bounds.value.start <= trace[i].from && trace[i].from <= cfg.bounds.value.end
            && cfg.bounds.value.start <= trace[i].to && trace[i].to <= cfg.bounds.value.end)
  }

  /** There are as many edges, with repetitions, as records that no filter drops. */
  lemma {:induction false} PairsCount(cfg: Config, trace: seq<Branch>)
    ensures |Pairs(cfg, trace)| == |KeptRecords(cfg, trace)|
    decreases |trace|
  {
    if trace == [] {
      assert KeptRecords(cfg, trace) == {};
    } else {
      var n := |trace| - 1;
      var p := trace[..n];
      assert trace == p + [trace[n]];
      PairsCount(cfg, p);
      KeptRecordsNext(cfg, p, trace[n]);
      hide KeptRecords, Kept, MapBranch;
      SizeWith(KeptRecords(cfg, p), n);
    }
  }

  lemma KeptRecordsNext(cfg: Config, trace: seq<Branch>, br: Branch)
    ensures KeptRecords(cfg, trace + [br]) == KeptRecords(cfg, trace) + if Kept(cfg, br) then {|trace|} else {}
    ensures |trace| !in KeptRecords(cfg, trace)
  {
    var t := trace + [br];
    assert forall i :: 0 <= i < |trace| ==> t[i] == trace[i];
  }

  lemma FilteredIs(cfg: Config, h: Hits, trace: seq<Branch>)
    ensures Process(cfg, h, trace).filtered == |KeptRecords(cfg, trace)|
  {
    hide KeptRecords, Pairs, Tally, ConnDepth;
    PairsCount(cfg, trace);
  }

  /** Per call: the new branches are the edges of the call's graph that the table did not have; they
      are no more than its edges, which are no more than the kept branches; and the depth is 0 exactly
      when no branch was kept. */
  lemma ProcessReports(cfg: Config, h: Hits, trace: seq<Branch>)
    requires Fits(h)
    ensures var r := Process(cfg, h, trace);
            var E := EdgesOf(Pairs(cfg, trace));
            && r.newBranches == |FreshEdges(h, E)|
            && r.newBranches <= |E| <= r.filtered
            && (r.depth == 0 <==> r.filtered == 0)
            && r.depth <= |Sources(E)| + 1
  {
    var pairs := Pairs(cfg, trace);
    TallySize(h, pairs);
    EdgesWithinPairs(pairs);
    SubsetSize(FreshEdges(h, EdgesOf(pairs)), EdgesOf(pairs));
    ConnDepthBound(EdgesOf(pairs));
  }

  /** With compatible blocks every address in the graph is a fixed point of the block map. */
  lemma {:induction false} GraphIsMapped(cfg: Config, trace: seq<Branch>, e: Edge)
    requires Compatible(cfg.bbs) && e in EdgesOf(Pairs(cfg, trace))
    ensures Home(cfg.bbs, e.0) == e.0 && Home(cfg.bbs, e.1) == e.1
    decreases |trace|
  {
    var n := |trace| - 1;
    if e in Pairs(cfg, trace[..n]) {
      GraphIsMapped(cfg, trace[..n], e);
    } else {
      MapIsHome(cfg.bbs, (trace[n].from, trace[n].to));
      HomeIsFixed(cfg.bbs, trace[n].from);
      HomeIsFixed(cfg.bbs, trace[n].to);
    }
  }

  // ----- order does not matter

  lemma {:induction false} PairsAppend(cfg: Config, a: seq<Branch>, b: seq<Branch>)
    ensures Pairs(cfg, a + b) == Pairs(cfg, a) + Pairs(cfg, b)
    decreases |b|
  {
    if b == [] {
      assert a + b == a;
    } else {
      var n := |b| - 1;
      assert (a + b)[..|a + b| - 1] == a + b[..n];
      PairsAppend(cfg, a, b[..n]);
    }
  }

  lemma MultisetOfThree<T>(a: seq<T>, x: seq<T>, b: seq<T>)
    ensures multiset(a + x + b) == multiset(a + b) + multiset(x)
  {
  }

  lemma MultisetWithout<T(!new)>(m: multiset<T>, m': multiset<T>, x: T)
    requires m + multiset{x} == m' + multiset{x}
    ensures m == m'
  {
    forall y ensures m[y] == m'[y] {
      assert (m + multiset{x})[y] == (m' + multiset{x})[y];
    }
  }

  /** In a permutation the last element can be taken out where it stands. */
  lemma TakeOut<T(!new)>(s: seq<T>, t: seq<T>) returns (a: seq<T>, b: seq<T>)
    requires s != [] && multiset(s) == multiset(t)
    ensures var n := |s| - 1;
            t == a + [s[n]] + b && multiset(s[..n]) == multiset(a + b)
  {
    var n := |s| - 1;
    var x := s[n];
    assert s == s[..n] + [x];
    assert x in multiset(t);
    var k :| 0 <= k < |t| && t[k] == x;
    a, b := t[..k], t[k + 1..];
    assert t == a + [x] + b;
    MultisetOfThree(a, [x], b);
    MultisetWithout(multiset(s[..n]), multiset(a + b), x);
  }

  lemma PairsOfThree(cfg: Config, a: seq<Branch>, x: Branch, b: seq<Branch>)
    ensures multiset(Pairs(cfg, a + [x] + b)) == multiset(Pairs(cfg, a + b)) + multiset(PairOf(cfg, x))
  {
    assert [x][..0] == [] && Pairs(cfg, [x]) == PairOf(cfg, x);
    hide PairOf, Pairs;
    PairsAppend(cfg, a, b);
    PairsAppend(cfg, a + [x], b);
    PairsAppend(cfg, a, [x]);
    MultisetOfThree(Pairs(cfg, a), PairOf(cfg, x), Pairs(cfg, b));
  }

  lemma {:induction false} PairsPermuted(cfg: Config, s: seq<Branch>, t: seq<Branch>)
    requires multiset(s) == multiset(t)
    ensures multiset(Pairs(cfg, s)) == multiset(Pairs(cfg, t))
    decreases |s|
  {
    if s == [] {
      NothingElse(t);
    } else {
      var n := |s| - 1;
      var a, b := TakeOut(s, t);
      PairsPermuted(cfg, s[..n], a + b);
      hide PairOf;
      PairsOfThree(cfg, a, s[n], b);
    }
  }

  lemma KeysOfThree(a: seq<Edge>, x: Edge, b: seq<Edge>)
    ensures multiset(KeysOf(a + [x] + b)) == multiset(KeysOf(a + b)) + multiset{Key(x)}
  {
    hide KeysOf, Key;
    KeysOfOne(x);
    KeysAppend(a, b);
    KeysAppend(a + [x], b);
    KeysAppend(a, [x]);
    MultisetOfThree(KeysOf(a), [Key(x)], KeysOf(b));
  }

  lemma {:induction false} KeysPermuted(p: seq<Edge>, q: seq<Edge>)
    requires multiset(p) == multiset(q)
    ensures multiset(KeysOf(p)) == multiset(KeysOf(q))
    decreases |p|
  {
    hide KeysOf, Key;
    if p == [] {
      NothingElse(q);
    } else {
      var n := |p| - 1;
      var a, b := TakeOut(p, q);
      KeysPermuted(p[..n], a + b);
      KeysOfThree(a, p[n], b);
      assert p == p[..n] + [p[n]];
      KeysOfNext(p[..n], p[n]);
    }
  }

  lemma NothingElse<T>(s: seq<T>)
    requires multiset(s) == multiset([])
    ensures s == []
  {
    assert |multiset(s)| == |s|;
  }

  /** Permuting a trace changes neither the resulting table nor anything that is reported. */
  lemma OrderIndependent(cfg: Config, h: Hits, s: seq<Branch>, t: seq<Branch>)
    requires Fits(h)
    requires multiset(s) == multiset(t)
    ensures Process(cfg, h, s) == Process(cfg, h, t)
  {
    var p, q := Pairs(cfg, s), Pairs(cfg, t);
    PairsPermuted(cfg, s, t);
    KeysPermuted(p, q);
    TallyPermuted(h, KeysOf(p), KeysOf(q), UINT64_LIMIT);
    assert |p| == |multiset(p)| == |multiset(q)| == |q|;
    assert EdgesOf(p) == EdgesOf(q) by {
      assert forall e :: e in p <==> e in multiset(p);
      assert forall e :: e in q <==> e in multiset(q);
    }
  }
}
