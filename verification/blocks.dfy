// Mapping branch addresses to basic blocks, the inner loop of process_branches (c_monitor/main.c).

module BlockMap {
  import opened Base

  /** The addresses from .. to - 1. */
  datatype Block = Block(from: uint64, to: uint64)

  predicate Holds(b: Block, a: uint64) {
    b.from <= a < b.to
  }

  /** The start of the last of the first n blocks that holds a, or 0, which the source also takes to
      mean that there is none. */
  function LastStart(bbs: seq<Block>, a: uint64, n: nat): uint64
    requires n <= |bbs|
  {
    if n == 0 then 0
    else if Holds(bbs[n - 1], a) then bbs[n - 1].from
    else LastStart(bbs, a, n - 1)
  }

  lemma {:induction false} LastStartIs(bbs: seq<Block>, a: uint64, n: nat, k: nat)
    requires k < n <= |bbs| && bbs[k].from <= a && a < bbs[k].to
    requires forall j :: k < j < n ==> a < bbs[j].from || bbs[j].to <= a
    ensures LastStart(bbs, a, n) == bbs[k].from
    decreases n
  {
    if k < n - 1 {
      LastStartIs(bbs, a, n - 1, k);
    }
  }

  lemma {:induction false} LastStartNone(bbs: seq<Block>, a: uint64, n: nat)
    requires n <= |bbs| && forall j :: 0 <= j < n ==> a < bbs[j].from || bbs[j].to <= a
    ensures LastStart(bbs, a, n) == 0
    decreases n
  {
    if n > 0 {
      LastStartNone(bbs, a, n - 1);
    }
  }

  lemma {:induction false} LastStartHolder(bbs: seq<Block>, a: uint64, n: nat) returns (k: nat)
    requires n <= |bbs| && LastStart(bbs, a, n) != 0
    ensures k < n && Holds(bbs[k], a) && bbs[k].from == LastStart(bbs, a, n)
    decreases n
  {
    k := n - 1;
    if !Holds(bbs[n - 1], a) {
      k := LastStartHolder(bbs, a, n - 1);
    }
  }

  predicate BothFound(bbs: seq<Block>, e: Edge, n: nat)
    requires n <= |bbs|
  {
    LastStart(bbs, e.0, n) != 0 && LastStart(bbs, e.1, n) != 0
  }

  /** How many blocks are looked at for a branch: up to the first that leaves both starts non-zero. */
  function Scanned(bbs: seq<Block>, e: Edge, n: nat): (m: nat)
    requires n <= |bbs|
    ensures n <= m <= |bbs|
    ensures m == |bbs| || BothFound(bbs, e, m)
    ensures forall k :: n < k < m ==> !BothFound(bbs, e, k)
    decreases |bbs| - n
  {
    if n == |bbs| then n
    else if BothFound(bbs, e, n + 1) then n + 1
    else Scanned(bbs, e, n + 1)
  }

  function OrSelf(v: uint64, a: uint64): uint64 {
    if v == 0 then a else v
  }

  /** What a branch becomes: each address the last start found while scanning, or itself. */
  function MapBranch(bbs: seq<Block>, e: Edge): Edge {
    var m := Scanned(bbs, e, 0);
    (OrSelf(LastStart(bbs, e.0, m), e.0), OrSelf(LastStart(bbs, e.1, m), e.1))
  }

  method MapToBlocks(bbs: seq<Block>, branch: Edge) returns (fromBb: uint64, toBb: uint64)
    ensures (fromBb, toBb) == MapBranch(bbs, branch)
  {
    fromBb, toBb := 0, 0;
    var j := 0;
    ghost var m := Scanned(bbs, branch, 0);
    while j < |bbs|
      invariant 0 <= j <= |bbs| && m == Scanned(bbs, branch, j)
      invariant fromBb == LastStart(bbs, branch.0, j) && toBb == LastStart(bbs, branch.1, j)
    {
      var bb := bbs[j];
      if branch.0 >= bb.from && branch.0 < bb.to {
        fromBb := bb.from;
      }
      if branch.1 >= bb.from && branch.1 < bb.to {
        toBb := bb.from;
      }
      if fromBb != 0 && toBb != 0 {
        assert m == j + 1;
        break;
      }
      j := j + 1;
    }
    if fromBb == 0 {
      fromBb := branch.0;
    }
    if toBb == 0 {
      toBb := branch.1;
    }
  }

  /** One block, not at 0, maps exactly the addresses from its start up to but not including its end. */
  lemma OneBlock(b: Block, e: Edge)
    ensures MapBranch([b], e)
        == (if b.from <= e.0 && e.0 < b.to && b.from != 0 then b.from else e.0,
            if b.from <= e.1 && e.1 < b.to && b.from != 0 then b.from else e.1)
  {
    var bbs := [b];
    assert LastStart(bbs, e.0, 0) == 0 && LastStart(bbs, e.1, 0) == 0;
    ScannedAll(bbs, e);
  }

  lemma ScannedAll(bbs: seq<Block>, e: Edge)
    requires |bbs| == 1
    ensures Scanned(bbs, e, 0) == 1
  {
  }

  /** s is the start that the first n blocks give to a, by comparisons alone: that of the last block with
      from <= a < to, and 0 when there is none. */
  ghost predicate StartIs(bbs: seq<Block>, a: uint64, n: nat, s: uint64)
    requires n <= |bbs|
  {
    || (exists k :: 0 <= k < n && bbs[k].from <= a && a < bbs[k].to && s == bbs[k].from
                    && forall j :: k < j < n ==> a < bbs[j].from || bbs[j].to <= a)
    || (s == 0 && forall j :: 0 <= j < n ==> a < bbs[j].from || bbs[j].to <= a)
  }

  lemma StartIsLast(bbs: seq<Block>, a: uint64, n: nat, s: uint64)
    requires n <= |bbs| && StartIs(bbs, a, n, s)
    ensures LastStart(bbs, a, n) == s
  {
    if k :| 0 <= k < n && bbs[k].from <= a && a < bbs[k].to && s == bbs[k].from
            && forall j :: k < j < n ==> a < bbs[j].from || bbs[j].to <= a {
      LastStartIs(bbs, a, n, k);
    } else {
      LastStartNone(bbs, a, n);
    }
  }

  /** The map in full: blocks are looked at up to the first, m, after which both addresses have a start
      other than 0, or up to the last; an address without one stays itself. */
  lemma MapInFull(bbs: seq<Block>, e: Edge, m: nat, v: uint64, w: uint64)
    requires m <= |bbs| && (m == |bbs| || (m > 0 && v != 0 && w != 0))
    requires StartIs(bbs, e.0, m, v) && StartIs(bbs, e.1, m, w)
    requires forall n :: 0 < n < m ==> StartIs(bbs, e.0, n, 0) || StartIs(bbs, e.1, n, 0)
    ensures MapBranch(bbs, e) == (if v == 0 then e.0 else v, if w == 0 then e.1 else w)
  {
    StartIsLast(bbs, e.0, m, v);
    StartIsLast(bbs, e.1, m, w);
    if m > 0 {
      forall n | 0 < n < m ensures !BothFound(bbs, e, n) {
        if StartIs(bbs, e.0, n, 0) {
          StartIsLast(bbs, e.0, n, 0);
        } else {
          StartIsLast(bbs, e.1, n, 0);
        }
      }
      ScannedIs(bbs, e, 0, m);
    }
  }

  // ----- when the map is a function of one address

  predicate Apart(b: Block, c: Block) {
    b.to <= c.from || c.to <= b.from || b.to <= b.from || c.to <= c.from
  }

  /** Blocks that overlap start at the same address; pairwise disjoint blocks are the usual case. */
  predicate Compatible(bbs: seq<Block>) {
    forall i, j :: 0 <= i < j < |bbs| ==> Apart(bbs[i], bbs[j]) || bbs[i].from == bbs[j].from
  }

  /** The block start of one address, with no partner and no early exit. */
  function Home(bbs: seq<Block>, a: uint64): uint64 {
    OrSelf(LastStart(bbs, a, |bbs|), a)
  }

  lemma {:induction false} LaterStart(bbs: seq<Block>, a: uint64, n: nat, m: nat)
    requires Compatible(bbs) && n <= m <= |bbs| && LastStart(bbs, a, n) != 0
    ensures LastStart(bbs, a, m) == LastStart(bbs, a, n)
    decreases m
  {
    if n < m {
      LaterStart(bbs, a, n, m - 1);
      var k := LastStartHolder(bbs, a, n);
      assert Holds(bbs[m - 1], a) ==> !Apart(bbs[k], bbs[m - 1]);
    }
  }

  /** For compatible blocks the map acts on each address alone: the partner and the early exit do not
      matter. */
  lemma MapIsHome(bbs: seq<Block>, e: Edge)
    requires Compatible(bbs)
    ensures MapBranch(bbs, e) == (Home(bbs, e.0), Home(bbs, e.1))
  {
    var m := Scanned(bbs, e, 0);
    if m < |bbs| {
      LaterStart(bbs, e.0, m, |bbs|);
      LaterStart(bbs, e.1, m, |bbs|);
    }
  }

  /** When no two blocks overlap, an address goes to the start of the block that has it, or stays. */
  lemma DisjointBlocks(bbs: seq<Block>, e: Edge)
    requires forall i, j :: 0 <= i < j < |bbs| ==>
               bbs[i].to <= bbs[j].from || bbs[j].to <= bbs[i].from
               || bbs[i].to <= bbs[i].from || bbs[j].to <= bbs[j].from
    ensures forall k :: 0 <= k < |bbs| && bbs[k].from <= e.0 && e.0 < bbs[k].to ==>
              MapBranch(bbs, e).0 == if bbs[k].from != 0 then bbs[k].from else e.0
    ensures forall k :: 0 <= k < |bbs| && bbs[k].from <= e.1 && e.1 < bbs[k].to ==>
              MapBranch(bbs, e).1 == if bbs[k].from != 0 then bbs[k].from else e.1
    ensures (forall k :: 0 <= k < |bbs| ==> e.0 < bbs[k].from || bbs[k].to <= e.0) ==> MapBranch(bbs, e).0 == e.0
    ensures (forall k :: 0 <= k < |bbs| ==> e.1 < bbs[k].from || bbs[k].to <= e.1) ==> MapBranch(bbs, e).1 == e.1
  {
    MapIsHome(bbs, e);
    DisjointHome(bbs, e.0);
    DisjointHome(bbs, e.1);
  }

  lemma DisjointHome(bbs: seq<Block>, a: uint64)
    requires Compatible(bbs)
    ensures forall k :: 0 <= k < |bbs| && bbs[k].from <= a && a < bbs[k].to ==>
              Home(bbs, a) == if bbs[k].from != 0 then bbs[k].from else a
    ensures (forall k :: 0 <= k < |bbs| ==> a < bbs[k].from || bbs[k].to <= a) ==> Home(bbs, a) == a
  {
    var n := |bbs|;
    if forall k :: 0 <= k < n ==> a < bbs[k].from || bbs[k].to <= a {
      LastStartNone(bbs, a, n);
    }
    forall k | 0 <= k < n && bbs[k].from <= a && a < bbs[k].to ensures LastStart(bbs, a, n) == bbs[k].from {
      var j := LastHolder(bbs, a, n, k);
      LastStartIs(bbs, a, n, j);
      assert !Apart(bbs[k], bbs[j]) && !Apart(bbs[j], bbs[k]);
    }
  }

  lemma {:induction false} LastHolder(bbs: seq<Block>, a: uint64, n: nat, k: nat) returns (j: nat)
    requires k < n <= |bbs| && bbs[k].from <= a && a < bbs[k].to
    ensures k <= j < n && bbs[j].from <= a && a < bbs[j].to
    ensures forall i :: j < i < n ==> a < bbs[i].from || bbs[i].to <= a
    decreases n
  {
    j := n - 1;
    if !(bbs[j].from <= a && a < bbs[j].to) {
      j := LastHolder(bbs, a, n - 1, k);
    }
  }

  lemma HomeIsFixed(bbs: seq<Block>, a: uint64)
    requires Compatible(bbs)
    ensures Home(bbs, Home(bbs, a)) == Home(bbs, a)
  {
    var v := LastStart(bbs, a, |bbs|);
    if v != 0 {
      var k := LastStartHolder(bbs, a, |bbs|);
      assert Holds(bbs[k], v);
      var w := LastStart(bbs, v, |bbs|);
      if w != 0 {
        var j := LastStartHolder(bbs, v, |bbs|);
        assert !Apart(bbs[k], bbs[j]) && !Apart(bbs[j], bbs[k]);
      }
    }
  }

  /** For compatible blocks, mapping a mapped branch changes nothing. */
  lemma MapIsIdempotent(bbs: seq<Block>, e: Edge)
    requires Compatible(bbs)
    ensures MapBranch(bbs, MapBranch(bbs, e)) == MapBranch(bbs, e)
  {
    MapIsHome(bbs, e);
    MapIsHome(bbs, MapBranch(bbs, e));
    HomeIsFixed(bbs, e.0);
    HomeIsFixed(bbs, e.1);
  }

  /** Without blocks every branch stays itself. */
  lemma NoBlocks(e: Edge)
    ensures MapBranch([], e) == e
  {
  }

  // ----- exactly when the partner matters

  predicate NoZeroStart(bbs: seq<Block>) {
    forall i :: 0 <= i < |bbs| ==> bbs[i].from != 0
  }

  /** Block n - 1 is the first that holds c. */
  predicate FirstFound(bbs: seq<Block>, c: uint64, n: nat)
    requires n <= |bbs|
  {
    n > 0 && LastStart(bbs, c, n - 1) == 0 && LastStart(bbs, c, n) != 0
  }

  /** Wherever some address is found for the first time, every address found so far already has the
      start that the whole list gives it. */
  ghost predicate Steady(bbs: seq<Block>) {
    forall a: uint64, c: uint64, n: nat :: n <= |bbs| && FirstFound(bbs, c, n) && LastStart(bbs, a, n) != 0 ==>
        LastStart(bbs, a, n) == LastStart(bbs, a, |bbs|)
  }

  /** The partner of an address has no say in what it is mapped to. */
  ghost predicate PartnerIsMoot(bbs: seq<Block>) {
    forall a: uint64, c: uint64, d: uint64 :: MapBranch(bbs, (a, c)).0 == MapBranch(bbs, (a, d)).0
  }

  /** The map takes each address to its own block start. */
  ghost predicate ActsOnEach(bbs: seq<Block>) {
    forall a: uint64, c: uint64 :: MapBranch(bbs, (a, c)) == (Home(bbs, a), Home(bbs, c))
  }

  lemma {:induction false} ScannedIs(bbs: seq<Block>, e: Edge, n: nat, m: nat)
    requires n < m <= |bbs| && (m == |bbs| || BothFound(bbs, e, m))
    requires forall k :: n < k < m ==> !BothFound(bbs, e, k)
    ensures Scanned(bbs, e, n) == m
    decreases m - n
  {
    hide BothFound;
    if n + 1 < m {
      ScannedIs(bbs, e, n + 1, m);
    }
  }

  /** Both ends of a branch are treated alike. */
  lemma MapSwaps(bbs: seq<Block>, a: uint64, c: uint64)
    ensures Scanned(bbs, (a, c), 0) == Scanned(bbs, (c, a), 0)
    ensures MapBranch(bbs, (c, a)) == (MapBranch(bbs, (a, c)).1, MapBranch(bbs, (a, c)).0)
  {
    var m := Scanned(bbs, (a, c), 0);
    if bbs != [] {
      forall k | 0 < k < m ensures !BothFound(bbs, (c, a), k) {
        assert !BothFound(bbs, (a, c), k);
      }
      ScannedIs(bbs, (c, a), 0, m);
    }
  }

  lemma {:induction false} StaysFound(bbs: seq<Block>, a: uint64, n: nat, m: nat)
    requires NoZeroStart(bbs) && n <= m <= |bbs| && LastStart(bbs, a, n) != 0
    ensures LastStart(bbs, a, m) != 0
    decreases m
  {
    if n < m {
      StaysFound(bbs, a, n, m - 1);
    }
  }

  /** The last address of all lies in no block, and so leaves its partner the whole list. */
  lemma {:induction false} LastAddressIsFree(bbs: seq<Block>, n: nat)
    requires n <= |bbs|
    ensures LastStart(bbs, 0xFFFF_FFFF_FFFF_FFFF, n) == 0
    decreases n
  {
    if n > 0 {
      LastAddressIsFree(bbs, n - 1);
    }
  }

  lemma MapWithFree(bbs: seq<Block>, a: uint64)
    ensures MapBranch(bbs, (a, 0xFFFF_FFFF_FFFF_FFFF)).0 == Home(bbs, a)
  {
    forall n | 0 <= n <= |bbs| ensures LastStart(bbs, 0xFFFF_FFFF_FFFF_FFFF, n) == 0 {
      LastAddressIsFree(bbs, n);
    }
  }

  lemma SteadyMap(bbs: seq<Block>, a: uint64, c: uint64)
    requires NoZeroStart(bbs) && Steady(bbs)
    ensures MapBranch(bbs, (a, c)) == (Home(bbs, a), Home(bbs, c))
  {
    var e, m := (a, c), Scanned(bbs, (a, c), 0);
    if BothFound(bbs, e, m) && m > 0 {
      assert FirstFound(bbs, a, m) || FirstFound(bbs, c, m) by {
        if LastStart(bbs, a, m - 1) != 0 && LastStart(bbs, c, m - 1) != 0 {
          assert m - 1 > 0 && BothFound(bbs, e, m - 1);
        }
      }
    }
  }

  lemma SteadyActsOnEach(bbs: seq<Block>)
    requires NoZeroStart(bbs) && Steady(bbs)
    ensures ActsOnEach(bbs)
  {
    forall a: uint64, c: uint64 ensures MapBranch(bbs, (a, c)) == (Home(bbs, a), Home(bbs, c)) {
      SteadyMap(bbs, a, c);
    }
  }

  /** The partner never matters exactly when the map acts on each address alone, for any list. */
  lemma MootIsOnEach(bbs: seq<Block>)
    ensures PartnerIsMoot(bbs) <==> ActsOnEach(bbs)
  {
    hide MapBranch, Home;
    if PartnerIsMoot(bbs) {
      forall a: uint64, c: uint64 ensures MapBranch(bbs, (a, c)) == (Home(bbs, a), Home(bbs, c)) {
        MapSwaps(bbs, a, c);
        MapWithFree(bbs, a);
        MapWithFree(bbs, c);
        assert MapBranch(bbs, (a, c)).0 == MapBranch(bbs, (a, 0xFFFF_FFFF_FFFF_FFFF)).0;
        assert MapBranch(bbs, (c, a)).0 == MapBranch(bbs, (c, 0xFFFF_FFFF_FFFF_FFFF)).0;
      }
    }
  }

  lemma ScannedAtFirst(bbs: seq<Block>, a: uint64, c: uint64, n: nat)
    requires NoZeroStart(bbs) && n <= |bbs| && FirstFound(bbs, c, n) && LastStart(bbs, a, n) != 0
    ensures Scanned(bbs, (a, c), 0) == n
  {
    forall k | 0 < k < n ensures !BothFound(bbs, (a, c), k) {
      if LastStart(bbs, c, k) != 0 {
        StaysFound(bbs, c, k, n - 1);
      }
    }
    ScannedIs(bbs, (a, c), 0, n);
  }

  lemma MootIsSteady(bbs: seq<Block>)
    requires NoZeroStart(bbs) && PartnerIsMoot(bbs)
    ensures Steady(bbs)
  {
    hide LastStart, Scanned, FirstFound, NoZeroStart;
    forall a: uint64, c: uint64, n: nat | n <= |bbs| && FirstFound(bbs, c, n) && LastStart(bbs, a, n) != 0
      ensures LastStart(bbs, a, n) == LastStart(bbs, a, |bbs|)
    {
      ScannedAtFirst(bbs, a, c, n);
      MapWithFree(bbs, a);
      assert MapBranch(bbs, (a, c)).0 == MapBranch(bbs, (a, 0xFFFF_FFFF_FFFF_FFFF)).0;
      StaysFound(bbs, a, n, |bbs|);
    }
  }

  /** When no block starts at 0, the partner of an address never matters, and the map acts on each
      address alone, exactly when the list is steady. */
  lemma PartnerIsMootExactly(bbs: seq<Block>)
    requires NoZeroStart(bbs)
    ensures PartnerIsMoot(bbs) <==> Steady(bbs)
    ensures ActsOnEach(bbs) <==> Steady(bbs)
  {
    MootIsOnEach(bbs);
    if Steady(bbs) {
      SteadyActsOnEach(bbs);
    }
    if PartnerIsMoot(bbs) {
      MootIsSteady(bbs);
    }
  }

  /** The first n blocks give both addresses a start, and no fewer do. */
  ghost predicate FirstBoth(bbs: seq<Block>, e: Edge, n: nat)
    requires n <= |bbs|
  {
    n > 0 && BothFound(bbs, e, n) && forall k :: 0 < k < n ==> !BothFound(bbs, e, k)
  }

  /** Two addresses that get their starts at once get them where the whole list puts them. */
  ghost predicate StartsAgree(bbs: seq<Block>) {
    forall a: uint64, c: uint64, n: nat :: n <= |bbs| && FirstBoth(bbs, (a, c), n) ==>
        LastStart(bbs, a, n) == Home(bbs, a)
  }

  lemma FirstBothMaps(bbs: seq<Block>, a: uint64, c: uint64, n: nat)
    requires n <= |bbs| && FirstBoth(bbs, (a, c), n)
    ensures MapBranch(bbs, (a, c)).0 == LastStart(bbs, a, n)
  {
    ScannedIs(bbs, (a, c), 0, n);
  }

  lemma AgreedMaps(bbs: seq<Block>, a: uint64, c: uint64)
    requires StartsAgree(bbs)
    ensures MapBranch(bbs, (a, c)).0 == Home(bbs, a)
  {
    var m := Scanned(bbs, (a, c), 0);
    if BothFound(bbs, (a, c), m) && m > 0 {
      assert FirstBoth(bbs, (a, c), m);
    }
  }

  /** Whatever the blocks start at, the partner never matters exactly when starts agree. */
  lemma PartnerIsMootInGeneral(bbs: seq<Block>)
    ensures PartnerIsMoot(bbs) <==> StartsAgree(bbs)
  {
    hide MapBranch, Home, LastStart, FirstBoth;
    MootIsOnEach(bbs);
    if ActsOnEach(bbs) {
      forall a: uint64, c: uint64, n: nat | n <= |bbs| && FirstBoth(bbs, (a, c), n)
        ensures LastStart(bbs, a, n) == Home(bbs, a)
      {
        FirstBothMaps(bbs, a, c, n);
        assert MapBranch(bbs, (a, c)) == (Home(bbs, a), Home(bbs, c));
      }
    }
    if StartsAgree(bbs) {
      forall a: uint64, c: uint64 ensures MapBranch(bbs, (a, c)).0 == Home(bbs, a) {
        AgreedMaps(bbs, a, c);
      }
    }
  }

  /** Two blocks that overlap: the result for an address depends on its partner. */
  lemma PartnerMatters()
    ensures var bbs := [Block(10, 30), Block(20, 40)];
            MapBranch(bbs, (25, 25)).0 == 10 && MapBranch(bbs, (25, 50)).0 == 20 && !Steady(bbs)
  {
    var bbs := [Block(10, 30), Block(20, 40)];
    assert LastStart(bbs, 25, 1) == 10 && LastStart(bbs, 25, 2) == 20;
    assert LastStart(bbs, 50, 1) == 0 && LastStart(bbs, 50, 2) == 0;
    assert Scanned(bbs, (25, 25), 0) == 1 && Scanned(bbs, (25, 50), 0) == 2;
    assert FirstFound(bbs, 25, 1);
  }

  /** Overlapping blocks can be steady: the repeat of the first restores what the second changed. */
  lemma SteadyButNotCompatible()
    ensures var bbs := [Block(10, 40), Block(20, 30), Block(10, 40)];
            !Compatible(bbs) && NoZeroStart(bbs) && Steady(bbs)
  {
    var bbs := [Block(10, 40), Block(20, 30), Block(10, 40)];
    assert !Apart(bbs[0], bbs[1]);
    forall a: uint64
      ensures LastStart(bbs, a, 1) == LastStart(bbs, a, 3)
      ensures LastStart(bbs, a, 2) != 0 <==> LastStart(bbs, a, 1) != 0
    {
      assert LastStart(bbs, a, 0) == 0;
      assert LastStart(bbs, a, 1) == if 10 <= a < 40 then 10 else 0;
      assert LastStart(bbs, a, 2) == if 20 <= a < 30 then 20 else LastStart(bbs, a, 1);
      assert LastStart(bbs, a, 3) == if 10 <= a < 40 then 10 else LastStart(bbs, a, 2);
    }
  }

  // ----- blocks that start at address 0

  /** Some block looked at gave the branch's first address a start, and it ends up with none. */
  ghost predicate Undone(bbs: seq<Block>, e: Edge) {
    var m := Scanned(bbs, e, 0);
    LastStart(bbs, e.0, m) == 0 && exists n: nat :: n <= m && LastStart(bbs, e.0, n) != 0
  }

  /** The last block that holds a starts at 0, and an earlier one that holds it does not. */
  ghost predicate ZeroIsLast(bbs: seq<Block>, a: uint64) {
    exists j, k :: 0 <= j < k < |bbs| && Holds(bbs[j], a) && bbs[j].from != 0
        && Holds(bbs[k], a) && bbs[k].from == 0 && forall i :: k < i < |bbs| ==> !Holds(bbs[i], a)
  }

  lemma {:induction false} ZeroHolder(bbs: seq<Block>, a: uint64, n: nat, m: nat) returns (k: nat)
    requires n < m <= |bbs| && LastStart(bbs, a, n) != 0 && LastStart(bbs, a, m) == 0
    ensures n <= k < m && Holds(bbs[k], a) && bbs[k].from == 0 && forall i :: k < i < m ==> !Holds(bbs[i], a)
    decreases m
  {
    k := m - 1;
    if !Holds(bbs[m - 1], a) {
      k := ZeroHolder(bbs, a, n, m - 1);
    }
  }

  /** A block at 0 undoes an earlier match exactly when it is the last to hold the address, a block that
      does not start at 0 held it before, and the two addresses never had a start at once.  The address
      is then left as it was. */
  lemma ZeroUndoes(bbs: seq<Block>, e: Edge)
    ensures Undone(bbs, e)
            <==> ZeroIsLast(bbs, e.0) && forall n :: 0 < n < |bbs| ==> !BothFound(bbs, e, n)
    ensures Undone(bbs, e) ==> MapBranch(bbs, e).0 == e.0
  {
    var a, m := e.0, Scanned(bbs, e, 0);
    if Undone(bbs, e) {
      var n: nat :| n <= m && LastStart(bbs, a, n) != 0;
      var j := LastStartHolder(bbs, a, n);
      var k := ZeroHolder(bbs, a, n, m);
    }
    if ZeroIsLast(bbs, a) && forall n :: 0 < n < |bbs| ==> !BothFound(bbs, e, n) {
      var j, k :| 0 <= j < k < |bbs| && Holds(bbs[j], a) && bbs[j].from != 0
        && Holds(bbs[k], a) && bbs[k].from == 0 && forall i :: k < i < |bbs| ==> !Holds(bbs[i], a);
      ScannedIs(bbs, e, 0, |bbs|);
      LastStartIs(bbs, a, |bbs|, k);
      assert LastStart(bbs, a, j + 1) == bbs[j].from;
    }
  }

  /** The block at 0 undoes the match with the first block, unless the partner was found there too. */
  lemma ZeroUndoesOne()
    ensures var bbs := [Block(10, 30), Block(0, 40)];
            && Undone(bbs, (20, 50)) && MapBranch(bbs, (20, 50)) == (20, 50)
            && MapBranch(bbs[..1], (20, 50)) == (10, 50)
            && MapBranch(bbs, (20, 25)) == (10, 10)
  {
    var bbs := [Block(10, 30), Block(0, 40)];
    assert LastStart(bbs, 20, 1) == 10 && LastStart(bbs, 20, 2) == 0;
    assert LastStart(bbs, 50, 1) == 0 && LastStart(bbs, 50, 2) == 0;
    assert LastStart(bbs, 25, 1) == 10;
    assert Scanned(bbs, (20, 50), 0) == 2 && Scanned(bbs, (20, 25), 0) == 1;
    var one := [Block(10, 30)];
    assert bbs[..1] == one;
    assert LastStart(one, 20, 1) == 10 && LastStart(one, 50, 1) == 0;
    assert Scanned(one, (20, 50), 0) == 1;
  }
}
