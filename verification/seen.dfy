// The accounting of seen inputs in monitor_loop (c_monitor/main.c), as a state machine on values.

module SeenMachine {
  import opened Base
  import opened Counting

  /** counts: how often each input hash was seen, in 32-bit counters; total: seen_total, which a reset
      lowers to the number of hashes; max and maxKey: max_seen_input and max_seen_input_k. */
  datatype Seen<H> = Seen(counts: map<H, nat>, total: nat, max: nat, maxKey: H)

  function Start<H>(zero: H): Seen<H> {
    Seen(map[], 0, 0, zero)
  }

  /** One accounting step: the reset fires when the average count exceeds 2. */
  function Step<H>(s: Seen<H>, h: H): Seen<H> {
    var counts := Bump(s.counts, h, UINT32_LIMIT);
    var v := counts[h];
    var total := s.total + 1;
    Seen(counts,
         if total > 2 * |counts| then |counts| else total,
         if v > s.max then v else s.max,
         if v > s.max then h else s.maxKey)
  }

  /** The state after the inputs with these hashes. */
  function After<H>(zero: H, hs: seq<H>): Seen<H> {
    if hs == [] then Start(zero) else Step(After(zero, hs[..|hs| - 1]), hs[|hs| - 1])
  }

  lemma AfterNext<H>(zero: H, hs: seq<H>, h: H)
    ensures After(zero, hs + [h]) == Step(After(zero, hs), h)
  {
    assert (hs + [h])[..|hs|] == hs;
  }

  // ----- the table

  lemma {:induction false} AfterIsTally<H>(zero: H, hs: seq<H>)
    ensures After(zero, hs).counts == Tally<H>(map[], hs, UINT32_LIMIT)
    decreases |hs|
  {
    if hs != [] {
      AfterIsTally(zero, hs[..|hs| - 1]);
    }
  }

  /** A hash is in the table exactly when it was seen, with its number of occurrences modulo 2^32; the
      counts add up to the number of inputs exactly when no hash was seen 2^32 times. */
  lemma SeenCounts<H(!new)>(zero: H, hs: seq<H>, h: H)
    ensures var counts := After(zero, hs).counts;
            && (h in counts <==> h in hs)
            && CountAt(counts, h) == multiset(hs)[h] % UINT32_LIMIT
            && (SumCounts(counts) == |hs| <==> NoWrap(hs, UINT32_LIMIT))
  {
    hide After, Tally, SumCounts, NoWrap;
    AfterIsTally(zero, hs);
    TallyAt<H>(map[], hs, h, UINT32_LIMIT);
    SumOfTally(hs, UINT32_LIMIT);
  }

  // ----- the maximum

  ghost predicate MaxIsRight<H(!new)>(s: Seen<H>) {
    && (forall h :: h in s.counts ==> 1 <= s.counts[h] <= s.max)
    && s.maxKey in s.counts && s.counts[s.maxKey] == s.max
  }

  lemma CountNotWrapped<H(!new)>(zero: H, hs: seq<H>, h: H)
    requires NoWrap(hs + [h], UINT32_LIMIT)
    ensures NoWrap(hs, UINT32_LIMIT)
    ensures Step(After(zero, hs), h).counts[h] == CountAt(After(zero, hs).counts, h) + 1
  {
    WrapNext(hs, h, UINT32_LIMIT);
    SeenCounts(zero, hs, h);
  }

  /** After at least one input, and while no hash was seen 2^32 times, every count is at least 1, the
      recorded maximum is the largest count, and the recorded key has it. */
  lemma {:induction false} MaxTracked<H(!new)>(zero: H, hs: seq<H>)
    requires hs != [] && NoWrap(hs, UINT32_LIMIT)
    ensures MaxIsRight(After(zero, hs))
    decreases |hs|
  {
    var n := |hs| - 1;
    var p, h := hs[..n], hs[n];
    assert hs == p + [h];
    var s := After(zero, p);
    CountNotWrapped(zero, p, h);
    if p != [] {
      MaxTracked(zero, p);
    }
    assert After(zero, hs) == Step(s, h);
  }

  /** The recorded key has the recorded maximum, and no count is above it. */
  ghost predicate RecordIsRight<H(!new)>(s: Seen<H>) {
    && s.maxKey in s.counts && s.counts[s.maxKey] == s.max
    && forall h :: h in s.counts ==> s.counts[h] <= s.max
  }

  /** The largest value that a 32-bit counter has shown after n increments from 0. */
  function Peak(n: nat): nat {
    if n < UINT32_LIMIT then n else UINT32_LIMIT - 1
  }

  lemma PeakNext(n: nat, max: nat)
    requires Peak(n) <= max < UINT32_LIMIT
    ensures var v := (n + 1) % UINT32_LIMIT;
            && Peak(n + 1) <= (if v > max then v else max) < UINT32_LIMIT
            && (v > max ==> v == n + 1)
            && (n + 1 < UINT32_LIMIT ==> v == n + 1)
  {
  }

  /** What max and maxKey say about the multiset of hashes seen. */
  ghost predicate ShowsPeak<H(!new)>(m: multiset<H>, max: nat, key: H) {
    max == Peak(m[key]) && forall h :: Peak(m[h]) <= max
  }

  lemma ShowsPeakNext<H(!new)>(m: multiset<H>, h: H, max: nat, key: H)
    requires ShowsPeak(m, max, key)
    ensures var v := (m[h] + 1) % UINT32_LIMIT;
            ShowsPeak(m + multiset{h}, if v > max then v else max, if v > max then h else key)
  {
    PeakNext(m[h], max);
    hide Peak;
    assert forall x :: x != h ==> (m + multiset{h})[x] == m[x];
    assert Peak(m[h]) <= max;
    if key == h && (m[h] + 1) % UINT32_LIMIT <= max {
      PeakStays(m[h]);
    }
  }

  lemma PeakStays(n: nat)
    requires (n + 1) % UINT32_LIMIT <= Peak(n)
    ensures Peak(n + 1) == Peak(n)
  {
  }

  lemma StepIs<H(!new)>(zero: H, hs: seq<H>, h: H)
    ensures var s, s' := After(zero, hs), After(zero, hs + [h]);
            var v := (multiset(hs)[h] + 1) % UINT32_LIMIT;
            s'.max == (if v > s.max then v else s.max) && s'.maxKey == (if v > s.max then h else s.maxKey)
  {
    var s := After(zero, hs);
    AfterNext(zero, hs, h);
    SeenCounts(zero, hs, h);
    ModuloNext(multiset(hs)[h], UINT32_LIMIT);
    hide After, SumCounts, NoWrap;
  }

  /** Wraps or not, the recorded maximum is the largest value any counter has shown, and the recorded
      key is one whose counter has shown it. */
  lemma {:induction false} MaxIsPeak<H(!new)>(zero: H, hs: seq<H>)
    ensures ShowsPeak(multiset(hs), After(zero, hs).max, After(zero, hs).maxKey)
    decreases |hs|
  {
    if hs != [] {
      var n := |hs| - 1;
      var p, h := hs[..n], hs[n];
      assert hs == p + [h];
      hide After, ShowsPeak;
      MaxIsPeak(zero, p);
      StepIs(zero, p, h);
      ShowsPeakNext(multiset(p), h, After(zero, p).max, After(zero, p).maxKey);
    }
  }

  /** A counter after n increments shows no more than its peak, and its peak before the first wrap and at
      the end of every later round. */
  lemma PeakAgain(n: nat)
    ensures n % UINT32_LIMIT <= Peak(n)
    ensures n % UINT32_LIMIT == Peak(n) <==> n < UINT32_LIMIT || n % UINT32_LIMIT == UINT32_LIMIT - 1
  {
  }

  /** The recorded maximum is the largest count. */
  ghost predicate MaxIsLargest<H(!new)>(s: Seen<H>) {
    && (forall h :: h in s.counts ==> s.counts[h] <= s.max)
    && exists h :: h in s.counts && s.counts[h] == s.max
  }

  /** s stands for inputs with these occurrences. */
  ghost predicate Stands<H(!new)>(m: multiset<H>, s: Seen<H>) {
    && s.counts != map[]
    && ShowsPeak(m, s.max, s.maxKey)
    && (forall h :: h in s.counts <==> m[h] > 0)
    && forall h :: h in s.counts ==> s.counts[h] == m[h] % UINT32_LIMIT
  }

  lemma AfterStands<H(!new)>(zero: H, hs: seq<H>)
    requires hs != []
    ensures Stands(multiset(hs), After(zero, hs))
  {
    hide After, SumCounts, ShowsPeak;
    var s := After(zero, hs);
    MaxIsPeak(zero, hs);
    forall h
      ensures h in s.counts <==> multiset(hs)[h] > 0
      ensures h in s.counts ==> s.counts[h] == multiset(hs)[h] % UINT32_LIMIT
    {
      SeenCounts(zero, hs, h);
      assert h in hs <==> multiset(hs)[h] > 0;
    }
    assert hs[0] in s.counts by {
      SeenCounts(zero, hs, hs[0]);
    }
  }

  lemma NoCountAbove<H(!new)>(m: multiset<H>, s: Seen<H>)
    requires Stands(m, s)
    ensures forall h :: h in s.counts ==> s.counts[h] <= s.max
    ensures s.maxKey in s.counts
    ensures (forall h :: h in m ==> m[h] < UINT32_LIMIT) || s.max == UINT32_LIMIT - 1
  {
    var x :| x in s.counts;
    assert Peak(m[x]) <= s.max;
    forall h | h in s.counts ensures s.counts[h] <= s.max {
      PeakAgain(m[h]);
      assert Peak(m[h]) <= s.max;
    }
    if h :| h in m && m[h] >= UINT32_LIMIT {
      assert Peak(m[h]) <= s.max;
    }
  }

  /** After at least one input the recorded maximum is the largest count exactly when no hash was seen
      2^32 times, or some counter stands at 2^32 - 1. */
  lemma MaxRightExactly<H(!new)>(zero: H, hs: seq<H>)
    requires hs != []
    ensures MaxIsLargest(After(zero, hs))
            <==> NoWrap(hs, UINT32_LIMIT)
                 || exists h :: h in multiset(hs) && multiset(hs)[h] % UINT32_LIMIT == UINT32_LIMIT - 1
  {
    hide After;
    var m, s := multiset(hs), After(zero, hs);
    AfterStands(zero, hs);
    NoCountAbove(m, s);
    PeakAgain(m[s.maxKey]);
    if NoWrap(hs, UINT32_LIMIT) {
      assert s.maxKey in m && s.counts[s.maxKey] == s.max;
    } else if h :| h in m && m[h] % UINT32_LIMIT == UINT32_LIMIT - 1 {
      assert h in s.counts && s.counts[h] == s.max;
    } else {
      forall h | h in s.counts ensures s.counts[h] != s.max {
        assert h in m;
      }
    }
  }

  /** How often the hash of input i had been seen by then, that input included. */
  ghost function SeenBy<H>(hs: seq<H>, i: nat): nat
    requires i < |hs|
  {
    multiset(hs[..i + 1])[hs[i]]
  }

  /** The first input whose hash had by then been seen n times; |hs| when there is none. */
  ghost function FirstReach<H>(hs: seq<H>, n: nat): (i: nat)
    ensures i <= |hs|
  {
    if hs == [] then 0
    else
      var last := |hs| - 1;
      var i := FirstReach(hs[..last], n);
      if i < last || SeenBy(hs, last) >= n then i else |hs|
  }

  lemma SeenByPrefix<H>(hs: seq<H>, n: nat, i: nat)
    requires i < n <= |hs|
    ensures SeenBy(hs[..n], i) == SeenBy(hs, i)
  {
    assert hs[..n][..i + 1] == hs[..i + 1];
  }

  lemma {:induction false} FirstReachIs<H>(hs: seq<H>, n: nat)
    ensures var i := FirstReach(hs, n);
            && (i < |hs| ==> SeenBy(hs, i) >= n)
            && forall j :: 0 <= j < i ==> SeenBy(hs, j) < n
    decreases |hs|
  {
    if hs != [] {
      var last := |hs| - 1;
      FirstReachIs(hs[..last], n);
      forall j | 0 <= j < last ensures SeenBy(hs[..last], j) == SeenBy(hs, j) {
        SeenByPrefix(hs, last, j);
      }
      hide SeenBy;
    }
  }

  lemma ReachesNext<H>(hs: seq<H>, h: H, n: nat)
    ensures FirstReach(hs, n) < |hs| ==> FirstReach(hs + [h], n) == FirstReach(hs, n)
    ensures FirstReach(hs, n) == |hs| && multiset(hs)[h] + 1 >= n ==> FirstReach(hs + [h], n) == |hs|
  {
    var hs' := hs + [h];
    assert hs'[..|hs|] == hs && hs'[..|hs| + 1] == hs';
    assert multiset(hs')[h] == multiset(hs)[h] + 1;
  }

  lemma SeenByAtMost<H>(hs: seq<H>, i: nat)
    requires i < |hs|
    ensures SeenBy(hs, i) <= multiset(hs)[hs[i]]
  {
    var a, b := hs[..i + 1], hs[i + 1..];
    assert hs == a + b;
    assert multiset(a + b) == multiset(a) + multiset(b);
  }

  lemma NoneReached<H(!new)>(hs: seq<H>, max: nat, key: H, n: nat)
    requires ShowsPeak(multiset(hs), max, key) && max < n < UINT32_LIMIT
    ensures FirstReach(hs, n) == |hs|
  {
    hide SeenBy, FirstReach;
    forall i | 0 <= i < |hs| ensures SeenBy(hs, i) < n {
      SeenByAtMost(hs, i);
      assert Peak(multiset(hs)[hs[i]]) <= max;
    }
    FirstReachIs(hs, n);
  }

  /** The recorded key is the hash of the first input by which some hash had been seen as often as the
      recorded maximum says. */
  lemma {:induction false} MaxKeyIsFirst<H(!new)>(zero: H, hs: seq<H>)
    requires hs != []
    ensures var s := After(zero, hs);
            var i := FirstReach(hs, s.max);
            i < |hs| && s.maxKey == hs[i]
    decreases |hs|
  {
    var n := |hs| - 1;
    var p, h := hs[..n], hs[n];
    assert hs == p + [h];
    var s := After(zero, p);
    assert p == [] ==> s.max == 0 && multiset(p)[h] == 0;
    hide After, FirstReach, ShowsPeak, Peak;
    StepIs(zero, p, h);
    MaxIsPeak(zero, p);
    RaisedBy(multiset(p), s.max, s.maxKey, h);
    var v := (multiset(p)[h] + 1) % UINT32_LIMIT;
    if v > s.max {
      NoneReached(p, s.max, s.maxKey, v);
      ReachesNext(p, h, v);
    } else {
      MaxKeyIsFirst(zero, p);
      ReachesNext(p, h, s.max);
    }
  }

  /** Only a counter that has never wrapped can raise the maximum. */
  lemma RaisedBy<H(!new)>(m: multiset<H>, max: nat, key: H, h: H)
    requires ShowsPeak(m, max, key)
    ensures (m[h] + 1) % UINT32_LIMIT > max ==> (m[h] + 1) % UINT32_LIMIT == m[h] + 1
  {
    assert Peak(m[h]) <= max;
    PeakNext(m[h], max);
  }

  /** After at least one input the record, maximum and key, is right exactly when no hash was seen 2^32
      times, or the first one that was seen 2^32 - 1 times stands at 2^32 - 1 once more. */
  lemma RecordRightExactly<H(!new)>(zero: H, hs: seq<H>)
    requires hs != []
    ensures var i := FirstReach(hs, UINT32_LIMIT - 1);
            RecordIsRight(After(zero, hs))
            <==> NoWrap(hs, UINT32_LIMIT) || (i < |hs| && multiset(hs)[hs[i]] % UINT32_LIMIT == UINT32_LIMIT - 1)
  {
    hide After, FirstReach;
    var m, s := multiset(hs), After(zero, hs);
    AfterStands(zero, hs);
    NoCountAbove(m, s);
    MaxKeyIsFirst(zero, hs);
    PeakAgain(m[s.maxKey]);
    if NoWrap(hs, UINT32_LIMIT) {
      assert s.maxKey in m;
    }
  }

  /** The maximum can be right when the record is not: h is seen 2^32 times, and then g one time less.  The
      maximum is g's count, but the recorded key is h, whose counter is at 0. */
  lemma MaxRightKeyWrong<H(!new)>(zero: H, h: H, g: H)
    requires h != g
    ensures var s := After(zero, seq(UINT32_LIMIT, _ => h) + seq(UINT32_LIMIT - 1, _ => g));
            && MaxIsLargest(s) && !RecordIsRight(s)
            && s.maxKey == h && CountAt(s.counts, h) == 0 && CountAt(s.counts, g) == s.max == UINT32_LIMIT - 1
  {
    var a, b := seq(UINT32_LIMIT, _ => h), seq(UINT32_LIMIT - 1, _ => g);
    var hs := a + b;
    TwoRuns(h, g, a, b);
    FirstOfTwo(h, a, b);
    hide After, FirstReach;
    var s := After(zero, hs);
    AfterStands(zero, hs);
    NoCountAbove(multiset(hs), s);
    MaxKeyIsFirst(zero, hs);
    assert h in multiset(hs) && h in s.counts && g in s.counts;
  }

  lemma TwoRuns<H>(h: H, g: H, a: seq<H>, b: seq<H>)
    requires h != g
    requires (forall i :: 0 <= i < |a| ==> a[i] == h) && forall i :: 0 <= i < |b| ==> b[i] == g
    ensures multiset(a + b)[h] == |a| && multiset(a + b)[g] == |b|
  {
    AllOne(a, h);
    AllOne(b, g);
    assert g !in a && h !in b;
    assert multiset(a)[g] == 0 && multiset(b)[h] == 0;
  }

  lemma FirstOfTwo<H>(h: H, a: seq<H>, b: seq<H>)
    requires |a| == UINT32_LIMIT && forall i :: 0 <= i < |a| ==> a[i] == h
    ensures var i := FirstReach(a + b, UINT32_LIMIT - 1);
            i < |a| && (a + b)[i] == h
  {
    hide FirstReach;
    var n := UINT32_LIMIT - 2;
    assert (a + b)[..n + 1] == a[..n + 1];
    AllOne(a[..n + 1], h);
    assert SeenBy(a + b, n) == UINT32_LIMIT - 1;
    FirstReachIs(a + b, UINT32_LIMIT - 1);
  }

  // ----- the hash cells that are lost

  /** Accounting for h would neither store its cell nor release it: h is known, and its counter is about
      to wrap to 0 or to leave it for 1. */
  predicate Loses<H>(s: Seen<H>, h: H) {
    h in s.counts && (s.counts[h] == 0 || s.counts[h] == UINT32_LIMIT - 1)
  }

  lemma LosesByCount<H>(s: Seen<H>, s': Seen<H>, h: H)
    requires forall x :: x in s.counts ==> s.counts[x] < UINT32_LIMIT
    requires s'.counts == Bump(s.counts, h, UINT32_LIMIT)
    ensures Loses(s, h) <==> h in s.counts && s'.counts[h] <= 1
  {
  }

  /** How many cells the accounting of these hashes loses. */
  function Lost<H(==)>(zero: H, hs: seq<H>): nat {
    if hs == [] then 0
    else
      var p, h := hs[..|hs| - 1], hs[|hs| - 1];
      Lost(zero, p) + if Loses(After(zero, p), h) then 1 else 0
  }

  lemma LostNext<H>(zero: H, hs: seq<H>, h: H)
    ensures Lost(zero, hs + [h]) == Lost(zero, hs) + if Loses(After(zero, hs), h) then 1 else 0
  {
    assert (hs + [h])[..|hs|] == hs;
  }

  lemma LosesExactly<H(!new)>(zero: H, hs: seq<H>, h: H)
    ensures Loses(After(zero, hs), h) <==> multiset(hs)[h] > 0 && (multiset(hs)[h] + 1) % UINT32_LIMIT <= 1
    ensures NoWrap(hs, UINT32_LIMIT) ==> (NoWrap(hs + [h], UINT32_LIMIT) <==> !Loses(After(zero, hs), h))
    ensures NoWrap(hs + [h], UINT32_LIMIT) ==> NoWrap(hs, UINT32_LIMIT)
  {
    hide After, SumCounts;
    SeenCounts(zero, hs, h);
    WrapNext(hs, h, UINT32_LIMIT);
    assert h in hs <==> multiset(hs)[h] > 0;
    ModuloNext(multiset(hs)[h], UINT32_LIMIT);
    if NoWrap(hs, UINT32_LIMIT) && multiset(hs)[h] > 0 {
      assert h in multiset(hs);
      ModuloOf(0, multiset(hs)[h], UINT32_LIMIT);
    }
  }

  /** A cell is lost exactly when some hash is seen 2^32 times. */
  lemma {:induction false} LostExactly<H(!new)>(zero: H, hs: seq<H>)
    ensures Lost(zero, hs) == 0 <==> NoWrap(hs, UINT32_LIMIT)
    decreases |hs|
  {
    if hs != [] {
      var n := |hs| - 1;
      assert hs == hs[..n] + [hs[n]];
      LostExactly(zero, hs[..n]);
      LosesExactly(zero, hs[..n], hs[n]);
      hide NoWrap, Loses;
    }
  }

  /** The cells lost to one hash that was seen n times: one at each multiple of 2^32, and one after. */
  function LostOf(n: nat): nat {
    n / UINT32_LIMIT + if n == 0 then 0 else (n - 1) / UINT32_LIMIT
  }

  lemma LostOfNext(n: nat)
    ensures LostOf(n + 1) == LostOf(n) + if n > 0 && (n + 1) % UINT32_LIMIT <= 1 then 1 else 0
  {
  }

  ghost function LostByHash<H>(hs: seq<H>): map<H, nat> {
    map h | h in hs :: LostOf(multiset(hs)[h])
  }

  /** The cells lost over any run are those lost to each of its hashes. */
  lemma {:induction false} LostIsSum<H(!new)>(zero: H, hs: seq<H>)
    ensures Lost(zero, hs) == SumCounts(LostByHash(hs))
    decreases |hs|
  {
    if hs == [] {
      assert LostByHash(hs) == map[];
    } else {
      var n := |hs| - 1;
      var p, h := hs[..n], hs[n];
      LostIsSum(zero, p);
      LosesExactly(zero, p, h);
      LostOfNext(multiset(p)[h]);
      assert hs == p + [h];
      hide NoWrap, SumCounts, After, Loses, LostOf;
      LostByHashNext(p, h);
      SumOfUpdate(LostByHash(p), h, LostOf(multiset(p)[h] + 1));
      LostOfNothing(p, h);
    }
  }

  lemma LostByHashNext<H>(hs: seq<H>, h: H)
    ensures LostByHash(hs + [h]) == LostByHash(hs)[h := LostOf(multiset(hs)[h] + 1)]
  {
    hide LostOf;
    var m := multiset(hs + [h]);
    assert m == multiset(hs) + multiset{h};
  }

  lemma LostOfNothing<H>(hs: seq<H>, h: H)
    ensures CountAt(LostByHash(hs), h) == LostOf(multiset(hs)[h])
  {
    assert h in hs <==> multiset(hs)[h] > 0;
  }

  /** One hash seen 2^32 times loses a cell, at its last occurrence. */
  lemma FirstLoss<H(!new)>(zero: H, h: H)
    ensures var hs := seq(UINT32_LIMIT, _ => h);
            Lost(zero, hs) == 1 && !NoWrap(hs, UINT32_LIMIT) && Lost(zero, hs[..UINT32_LIMIT - 1]) == 0
  {
    var hs := seq(UINT32_LIMIT, _ => h);
    var p := hs[..UINT32_LIMIT - 1];
    assert hs == p + [h];
    hide Lost, NoWrap, Loses;
    LostOfOne(zero, h, p);
    LostOfOne(zero, h, hs);
    LostExactly(zero, hs);
  }

  /** No shorter run loses a cell, whatever is sent. */
  lemma ShortRunsLoseNothing<H(!new)>(zero: H, hs: seq<H>)
    requires |hs| < UINT32_LIMIT
    ensures Lost(zero, hs) == 0
  {
    forall h | h in multiset(hs) ensures multiset(hs)[h] < UINT32_LIMIT {
      TimesAtMost(hs, h);
    }
    LostExactly(zero, hs);
  }

  lemma {:induction false} TimesAtMost<H>(hs: seq<H>, h: H)
    ensures multiset(hs)[h] <= |hs|
    decreases |hs|
  {
    if hs != [] {
      var n := |hs| - 1;
      assert hs == hs[..n] + [hs[n]];
      TimesAtMost(hs[..n], h);
    }
  }

  lemma LostOfOne<H(!new)>(zero: H, h: H, hs: seq<H>)
    requires hs != [] && forall i :: 0 <= i < |hs| ==> hs[i] == h
    ensures Lost(zero, hs) == LostOf(|hs|)
  {
    hide Lost, SumCounts, LostOf;
    AllOne(hs, h);
    LostIsSum(zero, hs);
    assert hs[0] in hs;
    assert LostByHash(hs) == map[h := LostOf(|hs|)];
    SumOfOne(h, LostOf(|hs|));
  }

  lemma SumOfOne<H>(h: H, v: nat)
    ensures SumCounts(map[h := v]) == v
  {
    SumOfUpdate(map[], h, v);
    assert map[][h := v] == map[h := v];
  }

  lemma {:induction false} AllOne<H>(hs: seq<H>, h: H)
    requires forall i :: 0 <= i < |hs| ==> hs[i] == h
    ensures multiset(hs)[h] == |hs|
    decreases |hs|
  {
    if hs != [] {
      var n := |hs| - 1;
      assert hs == hs[..n] + [hs[n]];
      AllOne(hs[..n], h);
    }
  }

  // ----- totals and resets

  /** After any inputs the running total is at least the number of hashes and at most twice that. */
  lemma {:induction false} TotalBounds<H>(zero: H, hs: seq<H>)
    ensures |After(zero, hs).counts| <= After(zero, hs).total <= 2 * |After(zero, hs).counts|
    decreases |hs|
  {
    if hs != [] {
      var n := |hs| - 1;
      TotalBounds(zero, hs[..n]);
      BumpSize(After(zero, hs[..n]).counts, hs[n], UINT32_LIMIT);
    }
  }

  /** Whether the input with hash h, coming after hs, resets the total. */
  predicate Fires<H(==)>(zero: H, hs: seq<H>, h: H) {
    var s := After(zero, hs);
    s.total + 1 > 2 * |Bump(s.counts, h, UINT32_LIMIT)|
  }

  function Repeat<H(==)>(hs: seq<H>, h: H): nat {
    if h in hs then 1 else 0
  }

  /** How many inputs since the last reset had been seen before. */
  function RepeatsSinceReset<H(==)>(zero: H, hs: seq<H>): nat {
    if hs == [] then 0
    else
      var p, h := hs[..|hs| - 1], hs[|hs| - 1];
      if Fires(zero, p, h) then 0 else RepeatsSinceReset(zero, p) + Repeat(p, h)
  }

  function Resets<H(==)>(zero: H, hs: seq<H>): nat {
    if hs == [] then 0
    else
      var p, h := hs[..|hs| - 1], hs[|hs| - 1];
      Resets(zero, p) + if Fires(zero, p, h) then 1 else 0
  }

  /** What the running total exceeds the number of hashes by is the repeats since the last reset, and
      a reset fires exactly when that would exceed the number of hashes. */
  lemma {:induction false} ResetRule<H(!new)>(zero: H, hs: seq<H>, h: H)
    ensures After(zero, hs).total == |After(zero, hs).counts| + RepeatsSinceReset(zero, hs)
    ensures Fires(zero, hs, h) <==> RepeatsSinceReset(zero, hs) + Repeat(hs, h) > |After(zero, hs + [h]).counts|
    decreases |hs|
  {
    if hs != [] {
      var p, x := hs[..|hs| - 1], hs[|hs| - 1];
      ResetRule(zero, p, x);
      SeenCounts(zero, p, x);
      BumpSize(After(zero, p).counts, x, UINT32_LIMIT);
    }
    AfterNext(zero, hs, h);
    SeenCounts(zero, hs, h);
    BumpSize(After(zero, hs).counts, h, UINT32_LIMIT);
  }

  /** The hashes in the table at each reset, and one more for each, added up. */
  function HashesAtResets<H(==)>(zero: H, hs: seq<H>): nat {
    if hs == [] then 0
    else
      var p, h := hs[..|hs| - 1], hs[|hs| - 1];
      HashesAtResets(zero, p) + if Fires(zero, p, h) then |After(zero, hs).counts| + 1 else 0
  }

  /** Every repeated input pays for a reset or counts towards the next: a reset uses up one repeat for
      each hash in the table, and one more. */
  lemma {:induction false} ResetsPaid<H(!new)>(zero: H, hs: seq<H>)
    ensures HashesAtResets(zero, hs) + RepeatsSinceReset(zero, hs) == |hs| - |After(zero, hs).counts|
    decreases |hs|
  {
    if hs != [] {
      var p, h := hs[..|hs| - 1], hs[|hs| - 1];
      assert p + [h] == hs;
      ResetsPaid(zero, p);
      ResetRule(zero, p, h);
      TotalBounds(zero, p);
      SeenCounts(zero, p, h);
      BumpSize(After(zero, p).counts, h, UINT32_LIMIT);
    }
  }

  lemma {:induction false} ResetCosts<H(!new)>(zero: H, hs: seq<H>)
    ensures 2 * Resets(zero, hs) <= HashesAtResets(zero, hs)
    decreases |hs|
  {
    if hs != [] {
      var p, h := hs[..|hs| - 1], hs[|hs| - 1];
      ResetCosts(zero, p);
      assert h in After(zero, hs).counts;
      hide After, Fires;
      assert |After(zero, hs).counts| == |After(zero, hs).counts.Keys|;
    }
  }

  /** Resets are amortised: over any run at most half as many as there were repeated inputs. */
  lemma ResetBound<H(!new)>(zero: H, hs: seq<H>)
    ensures 2 * Resets(zero, hs) + RepeatsSinceReset(zero, hs) <= |hs| - |After(zero, hs).counts|
  {
    ResetsPaid(zero, hs);
    ResetCosts(zero, hs);
  }

  /** The number of hashes in the table is the number of distinct ones seen. */
  lemma DistinctHashes<H(!new)>(zero: H, hs: seq<H>)
    ensures After(zero, hs).counts.Keys == set h | h in hs
  {
    forall h ensures h in After(zero, hs).counts <==> h in hs {
      SeenCounts(zero, hs, h);
    }
  }
}
