// Whole sessions of the monitor: any sequence of traces processed against one hit table.

module Sessions {
  import opened Base
  import opened KeyCodec
  import opened Counting
  import opened Walks
  import opened HitCounting

  ghost function HitsAfter(cfg: Config, traces: seq<seq<Branch>>): Hits {
    if traces == [] then map[]
    else Process(cfg, HitsAfter(cfg, traces[..|traces| - 1]), traces[|traces| - 1]).hits
  }

  /** The edges of every kept branch of the session, in order and with repetitions. */
  ghost function AllPairs(cfg: Config, traces: seq<seq<Branch>>): seq<Edge> {
    if traces == [] then []
    else AllPairs(cfg, traces[..|traces| - 1]) + Pairs(cfg, traces[|traces| - 1])
  }

  /** The new branches reported over the session, added up. */
  ghost function NewTotal(cfg: Config, traces: seq<seq<Branch>>): nat {
    if traces == [] then 0
    else
      var before := traces[..|traces| - 1];
      NewTotal(cfg, before) + Process(cfg, HitsAfter(cfg, before), traces[|traces| - 1]).newBranches
  }

  /** The kept branches reported over the session, added up. */
  ghost function KeptTotal(cfg: Config, traces: seq<seq<Branch>>): nat {
    if traces == [] then 0
    else
      var before := traces[..|traces| - 1];
      KeptTotal(cfg, before) + Process(cfg, HitsAfter(cfg, before), traces[|traces| - 1]).filtered
  }

  /** The table is the tally of all keys ever printed, in one go. */
  lemma {:induction false} SessionIsTally(cfg: Config, traces: seq<seq<Branch>>)
    ensures HitsAfter(cfg, traces) == Tally<string>(map[], KeysOf(AllPairs(cfg, traces)), UINT64_LIMIT)
    decreases |traces|
  {
    if traces == [] {
      assert KeysOf([]) == [];
    } else {
      var n := |traces| - 1;
      SessionIsTally(cfg, traces[..n]);
      var p, q := AllPairs(cfg, traces[..n]), Pairs(cfg, traces[n]);
      hide Tally, KeysOf, ConnDepth, Pairs, EdgesOf;
      KeysAppend(p, q);
      TallyAppend<string>(map[], KeysOf(p), KeysOf(q), UINT64_LIMIT);
    }
  }

  /** After any session an edge is in the table exactly when some kept branch was mapped to it, and
      its count is the number of such branches, modulo 2^64. */
  lemma SessionCounts(cfg: Config, traces: seq<seq<Branch>>, e: Edge)
    ensures var h := HitsAfter(cfg, traces);
            && (Key(e) in h <==> e in AllPairs(cfg, traces))
            && CountAt(h, Key(e)) == multiset(AllPairs(cfg, traces))[e] % UINT64_LIMIT
  {
    hide Key, Tally, KeysOf, AllPairs, HitsAfter;
    SessionIsTally(cfg, traces);
    KeptKeys(map[], AllPairs(cfg, traces), e);
  }

  /** Every key of the table is the key of an edge that was kept. */
  lemma SessionKeys(cfg: Config, traces: seq<seq<Branch>>, k: string)
    ensures k in HitsAfter(cfg, traces) <==> exists e :: e in AllPairs(cfg, traces) && Key(e) == k
  {
    hide Key, Tally, KeysOf, AllPairs, HitsAfter;
    var pairs := AllPairs(cfg, traces);
    SessionIsTally(cfg, traces);
    TallyAt<string>(map[], KeysOf(pairs), k, UINT64_LIMIT);
    KeyOfSome(pairs, k);
  }

  lemma KeyOfSome(pairs: seq<Edge>, k: string)
    ensures k in KeysOf(pairs) <==> exists e :: e in pairs && Key(e) == k
  {
    hide Key;
    if k in KeysOf(pairs) {
      var i :| 0 <= i < |pairs| && KeysOf(pairs)[i] == k;
      assert pairs[i] in pairs;
    }
    if e :| e in pairs && Key(e) == k {
      var i :| 0 <= i < |pairs| && pairs[i] == e;
      assert KeysOf(pairs)[i] == k;
    }
  }

  /** The table of a session is one that a call can start from. */
  lemma SessionFits(cfg: Config, traces: seq<seq<Branch>>)
    ensures Fits(HitsAfter(cfg, traces))
  {
    SessionIsTally(cfg, traces);
    TallyBelow<string>(map[], KeysOf(AllPairs(cfg, traces)), UINT64_LIMIT);
  }

  // ----- conservation

  /** Counters wrap by key as they would by edge. */
  lemma NoWrapOfKeys(pairs: seq<Edge>)
    ensures NoWrap(KeysOf(pairs), UINT64_LIMIT) <==> NoWrap(pairs, UINT64_LIMIT)
  {
    hide Key;
    var m := multiset(KeysOf(pairs));
    if NoWrap(pairs, UINT64_LIMIT) {
      forall k | k in m ensures m[k] < UINT64_LIMIT {
        assert k in KeysOf(pairs);
        var i :| 0 <= i < |pairs| && KeysOf(pairs)[i] == k;
        KeyMultiplicity(pairs, pairs[i]);
        assert pairs[i] in pairs && pairs[i] in multiset(pairs);
      }
    }
    if NoWrap(KeysOf(pairs), UINT64_LIMIT) {
      forall e | e in multiset(pairs) ensures multiset(pairs)[e] < UINT64_LIMIT {
        KeyMultiplicity(pairs, e);
        assert Key(e) in m;
      }
    }
  }

  /** Over a session the new branches add up to the size of the table, the kept branches to their
      number, and the counts of the table to the kept branches exactly when no count wrapped around. */
  lemma {:induction false} SessionTotals(cfg: Config, traces: seq<seq<Branch>>)
    ensures NewTotal(cfg, traces) == |HitsAfter(cfg, traces)|
    ensures KeptTotal(cfg, traces) == |AllPairs(cfg, traces)|
    ensures SumCounts(HitsAfter(cfg, traces)) == KeptTotal(cfg, traces) <==> NoWrap(AllPairs(cfg, traces), UINT64_LIMIT)
    decreases |traces|
  {
    SessionIsTally(cfg, traces);
    SumOfTally(KeysOf(AllPairs(cfg, traces)), UINT64_LIMIT);
    NoWrapOfKeys(AllPairs(cfg, traces));
    hide Tally, SumCounts, ConnDepth, NoWrap, KeysOf;
    if traces != [] {
      SessionTotals(cfg, traces[..|traces| - 1]);
    }
  }
}
