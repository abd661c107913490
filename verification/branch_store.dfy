// BranchStore of src/myperf.rs, and its agreement with process_branches of c_monitor/main.c.

module BranchStores {
  import opened Base
  import opened Counting
  import opened KeyCodec
  import opened BlockMap
  import opened Walks
  import opened HitCounting
  import opened Sessions
  import opened PerfText

  class BranchStore {
    var hits: map<Branch, nat>

    constructor ()
      ensures hits == map[]
    {
      hits := map[];
    }

    /** Count every branch; the result is how many were not in the store. */
    method Add(branches: seq<Branch>) returns (added: nat)
      modifies this
      ensures hits == Tally(old(hits), branches, UINT64_LIMIT)
      ensures old(|hits|) + added == |hits|
    {
      added := 0;
      for i := 0 to |branches|
        invariant hits == Tally(old(hits), branches[..i], UINT64_LIMIT)
        invariant old(|hits|) + added == |hits|
      {
        var branch := branches[i];
        assert branches[..i + 1] == branches[..i] + [branch];
        TallyNext(old(hits), branches[..i], branch, UINT64_LIMIT);
        BumpSize(hits, branch, UINT64_LIMIT);
        if branch in hits {
          hits := hits[branch := Increment(hits[branch], UINT64_LIMIT)];
          continue;
        }
        hits := hits[branch := 1];
        added := added + 1;
      }
      assert branches[..|branches|] == branches;
    }
  }

  // ----- against process_branches without blocks and section bounds

  const PLAIN: Config := Config(None, [])

  function AsBranch(e: Edge): Branch {
    Branch(e.0, e.1, 0)
  }

  function AsBranches(pairs: seq<Edge>): (r: seq<Branch>)
    ensures |r| == |pairs|
  {
    seq(|pairs|, i requires 0 <= i < |pairs| => AsBranch(pairs[i]))
  }

  lemma BareAppend(a: seq<Branch>, b: seq<Branch>)
    ensures Bare(a + b) == Bare(a) + Bare(b)
  {
  }

  lemma AsBranchesAppend(p: seq<Edge>, q: seq<Edge>)
    ensures AsBranches(p + q) == AsBranches(p) + AsBranches(q)
  {
  }

  lemma ReadPair(br: Branch)
    ensures Bare(if br.from > KERNEL_START || br.to > KERNEL_START then [] else [br]) == AsBranches(PairOf(PLAIN, br))
  {
    NoBlocks((br.from, br.to));
  }

  /** Without blocks and bounds, the reader gets the very pairs that process_branches keeps. */
  lemma {:induction false} ReadPairs(trace: seq<Branch>)
    ensures Bare(Printable(trace)) == AsBranches(Pairs(PLAIN, trace))
    decreases |trace|
  {
    if trace == [] {
      BareNone();
    } else {
      var n := |trace| - 1;
      var br := trace[n];
      ReadPairs(trace[..n]);
      ReadPair(br);
      BareAppend(Printable(trace[..n]), if br.from > KERNEL_START || br.to > KERNEL_START then [] else [br]);
      AsBranchesAppend(Pairs(PLAIN, trace[..n]), PairOf(PLAIN, br));
    }
  }

  /** The store after the branches read from these traces. */
  ghost function StoreAfter(traces: seq<seq<Branch>>): map<Branch, nat> {
    if traces == [] then map[]
    else
      var n := |traces| - 1;
      Tally(StoreAfter(traces[..n]), Bare(Printable(traces[n])), UINT64_LIMIT)
  }

  lemma {:induction false} StoreIsTally(traces: seq<seq<Branch>>)
    ensures StoreAfter(traces) == Tally<Branch>(map[], AsBranches(AllPairs(PLAIN, traces)), UINT64_LIMIT)
    decreases |traces|
  {
    if traces != [] {
      var n := |traces| - 1;
      var p, q := AllPairs(PLAIN, traces[..n]), Pairs(PLAIN, traces[n]);
      StoreIsTally(traces[..n]);
      ReadPairs(traces[n]);
      AsBranchesAppend(p, q);
      hide Tally, AsBranches, Pairs, Bare, Printable;
      TallyAppend<Branch>(map[], AsBranches(p), AsBranches(q), UINT64_LIMIT);
    }
  }

  lemma {:induction false} BranchMultiplicity(pairs: seq<Edge>, e: Edge)
    ensures multiset(AsBranches(pairs))[AsBranch(e)] == multiset(pairs)[e]
    decreases |pairs|
  {
    if pairs != [] {
      var n := |pairs| - 1;
      BranchMultiplicity(pairs[..n], e);
      assert pairs == pairs[..n] + [pairs[n]];
      assert AsBranches(pairs) == AsBranches(pairs[..n]) + [AsBranch(pairs[n])];
    }
  }

  /** After any session both sides have the same counts: a pair is in the store exactly when its key is
      in the hit table, with the same count. */
  lemma SameCounts(traces: seq<seq<Branch>>, e: Edge)
    ensures AsBranch(e) in StoreAfter(traces) <==> Key(e) in HitsAfter(PLAIN, traces)
    ensures CountAt(StoreAfter(traces), AsBranch(e)) == CountAt(HitsAfter(PLAIN, traces), Key(e))
  {
    hide Key, HitsAfter, StoreAfter, AllPairs, Tally, AsBranches, CountAt;
    var pairs := AllPairs(PLAIN, traces);
    SessionCounts(PLAIN, traces, e);
    StoreIsTally(traces);
    BranchMultiplicity(pairs, e);
    CountInEmpty(AsBranch(e));
    TallyAt<Branch>(map[], AsBranches(pairs), AsBranch(e), UINT64_LIMIT);
    InMultiset(AsBranches(pairs), AsBranch(e));
    InMultiset(pairs, e);
  }

  lemma CountInEmpty<K>(k: K)
    ensures CountAt<K>(map[], k) == 0
  {
  }

  lemma InMultiset<K>(s: seq<K>, k: K)
    ensures k in s <==> multiset(s)[k] > 0
  {
  }

  /** A table filled from nothing has one entry for every distinct key counted. */
  lemma TallyKeys<K(!new)>(keys: seq<K>, limit: nat)
    requires limit > 1
    ensures Tally<K>(map[], keys, limit).Keys == set k | k in keys
  {
    forall k ensures k in Tally<K>(map[], keys, limit) <==> k in keys {
      TallyAt<K>(map[], keys, k, limit);
    }
  }

  ghost function BranchSet(pairs: seq<Edge>): set<Branch> {
    set b | b in AsBranches(pairs)
  }

  lemma BranchSetNext(pairs: seq<Edge>, e: Edge)
    ensures BranchSet(pairs + [e]) == BranchSet(pairs) + {AsBranch(e)}
    ensures EdgesOf(pairs + [e]) == EdgesOf(pairs) + {e}
  {
    AsBranchesAppend(pairs, [e]);
    assert AsBranches([e]) == [AsBranch(e)];
    hide AsBranches, AsBranch;
  }

  lemma InBranchSet(pairs: seq<Edge>, e: Edge)
    ensures AsBranch(e) in BranchSet(pairs) <==> e in EdgesOf(pairs)
  {
    BranchMultiplicity(pairs, e);
    InMultiset(AsBranches(pairs), AsBranch(e));
    InMultiset(pairs, e);
    hide AsBranches, AsBranch;
  }

  lemma {:induction false} DistinctBranches(pairs: seq<Edge>)
    ensures |BranchSet(pairs)| == |EdgesOf(pairs)|
    decreases |pairs|
  {
    if pairs == [] {
      assert BranchSet(pairs) == {} && EdgesOf(pairs) == {};
    } else {
      hide BranchSet, EdgesOf;
      var n := |pairs| - 1;
      var p, e := pairs[..n], pairs[n];
      assert pairs == p + [e];
      DistinctBranches(p);
      InBranchSet(p, e);
      BranchSetNext(p, e);
    }
  }

  /** Both sides have as many entries. */
  lemma SameSizes(traces: seq<seq<Branch>>)
    ensures |StoreAfter(traces)| == |HitsAfter(PLAIN, traces)|
  {
    var pairs := AllPairs(PLAIN, traces);
    StoreIsTally(traces);
    TallyKeys(AsBranches(pairs), UINT64_LIMIT);
    DistinctBranches(pairs);
    SessionIsTally(PLAIN, traces);
    TallySize(map[], pairs);
    assert (set k | k in AsBranches(pairs)) == BranchSet(pairs);
    hide Tally, AsBranches, StoreAfter, HitsAfter, AllPairs, Key, KeysOf, BranchSet;
    assert FreshEdges(map[], EdgesOf(pairs)) == EdgesOf(pairs);
    assert |StoreAfter(traces)| == |StoreAfter(traces).Keys|;
  }

  /** Call by call both sides report as many new branches. */
  lemma SameNewBranches(traces: seq<seq<Branch>>, trace: seq<Branch>)
    ensures |StoreAfter(traces)| + Process(PLAIN, HitsAfter(PLAIN, traces), trace).newBranches
            == |Tally(StoreAfter(traces), Bare(Printable(trace)), UINT64_LIMIT)|
  {
    var all := traces + [trace];
    assert all[..|traces|] == traces;
    SameSizes(traces);
    SameSizes(all);
    hide Tally, ConnDepth, Pairs, KeysOf, EdgesOf, Bare, Printable;
  }

  /** The whole path: the branches of a trace, printed by perf with any other lines in between and read
      back, make the store count and report exactly as process_branches does on the trace itself. */
  method ReadAndAdd(store: BranchStore, ghost traces: seq<seq<Branch>>, trace: seq<Branch>, text: string,
                    ghost lines: seq<string>)
    returns (added: nat)
    requires text == Render(lines) && Interleaves(lines, Printable(trace))
    requires store.hits == StoreAfter(traces)
    modifies store
    ensures store.hits == StoreAfter(traces + [trace])
    ensures added == Process(PLAIN, HitsAfter(PLAIN, traces), trace).newBranches
  {
    hide Tally, Process, Bare, Printable, ParseLines, Lines, Render, Interleaves, HitsAfter;
    ReadBack(lines, Printable(trace));
    SameNewBranches(traces, trace);
    assert (traces + [trace])[..|traces|] == traces;
    var branches := ReadTrace(text);
    added := store.Add(branches.value);
  }
}
