// Counting tables whose counters have a fixed width.

/** A table counts keys; a counter that reaches its limit starts again at 0.  The hit table of
    process_branches, the seen-input table of monitor_loop and the Rust BranchStore all count so. */
module Counting {

  /** The increment of a counter that holds the values below limit. */
  function Increment(v: nat, limit: nat): (r: nat)
    ensures v < limit ==> r < limit
  {
    if v + 1 == limit then 0 else v + 1
  }

  function Bump<K>(h: map<K, nat>, k: K, limit: nat): map<K, nat> {
    h[k := if k in h then Increment(h[k], limit) else 1]
  }

  function Tally<K>(h: map<K, nat>, keys: seq<K>, limit: nat): map<K, nat> {
    if keys == [] then h else Bump(Tally(h, keys[..|keys| - 1], limit), keys[|keys| - 1], limit)
  }

  ghost function CountAt<K>(h: map<K, nat>, k: K): nat {
    if k in h then h[k] else 0
  }

  lemma TallyNext<K>(h: map<K, nat>, keys: seq<K>, k: K, limit: nat)
    ensures Tally(h, keys + [k], limit) == Bump(Tally(h, keys, limit), k, limit)
  {
    assert (keys + [k])[..|keys|] == keys;
  }

  lemma {:induction false} TallyAppend<K>(h: map<K, nat>, a: seq<K>, b: seq<K>, limit: nat)
    ensures Tally(h, a + b, limit) == Tally(Tally(h, a, limit), b, limit)
    decreases |b|
  {
    hide Bump;
    if b == [] {
      assert a + b == a;
    } else {
      var n := |b| - 1;
      assert (a + b)[..|a + b| - 1] == a + b[..n];
      TallyAppend(h, a, b[..n], limit);
    }
  }

  lemma BumpAt<K>(h: map<K, nat>, key: K, k: K, limit: nat)
    requires limit > 1
    ensures k in Bump(h, key, limit) <==> k in h || k == key
    ensures CountAt(Bump(h, key, limit), k) == if k == key then Increment(CountAt(h, k), limit) else CountAt(h, k)
  {
  }

  lemma BumpSize<K>(h: map<K, nat>, k: K, limit: nat)
    ensures |Bump(h, k, limit)| == if k in h then |h| else |h| + 1
  {
    assert Bump(h, k, limit).Keys == h.Keys + {k};
    assert |Bump(h, k, limit)| == |Bump(h, k, limit).Keys| && |h| == |h.Keys|;
  }

  lemma ModuloNext(n: nat, limit: nat)
    requires limit > 1
    ensures Increment(n % limit, limit) == (n + 1) % limit
  {
    var q, v := n / limit, n % limit;
    assert n == q * limit + v;
    if v + 1 == limit {
      assert n + 1 == (q + 1) * limit;
      ModuloOf(q + 1, 0, limit);
    } else {
      ModuloOf(q, v + 1, limit);
    }
  }

  lemma ModuloOf(q: nat, v: nat, limit: nat)
    requires v < limit
    ensures (q * limit + v) % limit == v
  {
    var n := q * limit + v;
    var q', v' := n / limit, n % limit;
    assert n == q' * limit + v';
    assert (q - q') * limit == v' - v && (q' - q) * limit == v - v';
    if q < q' {
      AtLeastOne(q' - q, limit);
    } else if q' < q {
      AtLeastOne(q - q', limit);
    }
  }

  lemma AtLeastOne(d: nat, limit: nat)
    requires d >= 1
    ensures d * limit >= limit
  {
  }

  /** After a tally a key is in the table if it was there or was counted, and its counter has advanced
      by the number of times it was counted, modulo the limit. */
  lemma {:induction false} TallyAt<K>(h: map<K, nat>, keys: seq<K>, k: K, limit: nat)
    requires limit > 1 && CountAt(h, k) < limit
    ensures k in Tally(h, keys, limit) <==> k in h || k in keys
    ensures CountAt(Tally(h, keys, limit), k) == (CountAt(h, k) + multiset(keys)[k]) % limit
    decreases |keys|
  {
    if keys == [] {
      ModuloOf(0, CountAt(h, k), limit);
    } else {
      var n := |keys| - 1;
      TallyAt(h, keys[..n], k, limit);
      assert keys == keys[..n] + [keys[n]];
      ModuloNext(CountAt(h, k) + multiset(keys[..n])[k], limit);
      hide Increment;
      BumpAt(Tally(h, keys[..n], limit), keys[n], k, limit);
    }
  }

  lemma TallyPermuted<K(!new)>(h: map<K, nat>, s: seq<K>, t: seq<K>, limit: nat)
    requires limit > 1 && forall k :: k in h ==> h[k] < limit
    requires multiset(s) == multiset(t)
    ensures Tally(h, s, limit) == Tally(h, t, limit)
  {
    forall k: K
      ensures k in Tally(h, s, limit) <==> k in Tally(h, t, limit)
      ensures CountAt(Tally(h, s, limit), k) == CountAt(Tally(h, t, limit), k)
    {
      TallyAt(h, s, k, limit);
      TallyAt(h, t, k, limit);
      assert k in s <==> k in multiset(s);
      assert k in t <==> k in multiset(t);
    }
    forall k | k in Tally(h, s, limit) ensures Tally(h, s, limit)[k] == Tally(h, t, limit)[k] {
      assert CountAt(Tally(h, s, limit), k) == CountAt(Tally(h, t, limit), k);
    }
  }

  lemma {:induction false} TallyBelow<K>(h: map<K, nat>, keys: seq<K>, limit: nat)
    requires limit > 1 && forall k :: k in h ==> h[k] < limit
    ensures forall k :: k in Tally(h, keys, limit) ==> Tally(h, keys, limit)[k] < limit
    decreases |keys|
  {
    if keys != [] {
      TallyBelow(h, keys[..|keys| - 1], limit);
    }
  }

  lemma {:induction false} TallyGrows<K>(h: map<K, nat>, keys: seq<K>, limit: nat)
    ensures h.Keys <= Tally(h, keys, limit).Keys && |h| <= |Tally(h, keys, limit)|
    decreases |keys|
  {
    if keys != [] {
      TallyGrows(h, keys[..|keys| - 1], limit);
      BumpSize(Tally(h, keys[..|keys| - 1], limit), keys[|keys| - 1], limit);
    }
  }

  // ----- conservation

  /** All counts of a table added up. */
  ghost function SumCounts<K>(h: map<K, nat>): nat {
    if h == map[] then 0
    else
      var k :| k in h;
      h[k] + SumCounts(h - {k})
  }

  lemma {:induction false} SumWithout<K>(h: map<K, nat>, k: K)
    requires k in h
    ensures SumCounts(h) == h[k] + SumCounts(h - {k})
    decreases |h|
  {
    var j :| j in h && SumCounts(h) == h[j] + SumCounts(h - {j});
    if j != k {
      SumWithout(h - {j}, k);
      SumWithout(h - {k}, j);
      assert h - {j} - {k} == h - {k} - {j};
    }
  }

  lemma SumOfUpdate<K>(h: map<K, nat>, k: K, v: nat)
    ensures SumCounts(h[k := v]) == SumCounts(h) - CountAt(h, k) + v
  {
    SumWithout(h[k := v], k);
    if k in h {
      SumWithout(h, k);
      assert h[k := v] - {k} == h - {k};
    } else {
      assert h[k := v] - {k} == h;
    }
  }

  /** No key has been counted limit times. */
  ghost predicate NoWrap<K(!new)>(keys: seq<K>, limit: nat) {
    forall k :: k in multiset(keys) ==> multiset(keys)[k] < limit
  }

  lemma WrapNext<K(!new)>(keys: seq<K>, k: K, limit: nat)
    requires limit > 1
    ensures NoWrap(keys + [k], limit) <==> NoWrap(keys, limit) && multiset(keys)[k] % limit + 1 < limit
  {
    var m, m' := multiset(keys), multiset(keys + [k]);
    assert m' == m + multiset{k};
    if NoWrap(keys + [k], limit) {
      forall x | x in m ensures m[x] < limit {
        assert x in m' && m'[x] < limit;
      }
      assert k in m' && m'[k] == m[k] + 1;
      ModuloOf(0, m[k], limit);
    }
    if NoWrap(keys, limit) {
      assert m[k] < limit;
      ModuloOf(0, m[k], limit);
    }
  }

  /** The counts of a table filled from nothing add up to the number of keys counted exactly when no
      counter wrapped around; otherwise to less. */
  lemma {:induction false} SumOfTally<K(!new)>(keys: seq<K>, limit: nat)
    requires limit > 1
    ensures SumCounts(Tally<K>(map[], keys, limit)) <= |keys|
    ensures SumCounts(Tally<K>(map[], keys, limit)) == |keys| <==> NoWrap(keys, limit)
    decreases |keys|
  {
    if keys != [] {
      var n := |keys| - 1;
      var p, k := keys[..n], keys[n];
      assert keys == p + [k];
      SumOfTally(p, limit);
      TallyAt<K>(map[], p, k, limit);
      TallyNext<K>(map[], p, k, limit);
      WrapNext(p, k, limit);
      var h := Tally<K>(map[], p, limit);
      hide Tally, SumCounts, NoWrap;
      SumOfUpdate(h, k, if k in h then Increment(h[k], limit) else 1);
    }
  }
}
