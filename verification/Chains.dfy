/** Cluster chains as walks in a functional graph: `next[c]` is the 12-bit cell
    of cluster `c`, data clusters are 2 .. |next| - 1. */
module Chains {
  import opened Words

  const BAD: nat := 0xFF7
  const EOC_MIN: nat := 0xFF8
  const EOC: nat := 0xFFF

  /** FAT12 volumes have at most 4084 data clusters. */
  const MAX_CLUSTERS: nat := 4084

  ghost predicate IsTable(next: seq<nat>) {
    && 2 <= |next| <= MAX_CLUSTERS + 2
    && forall c :: 0 <= c < |next| ==> next[c] < 4096
  }

  predicate IsData(next: seq<nat>, c: int) {
    2 <= c < |next|
  }

  // ---------------------------------------------------------------- chains

  /** `chain` follows the table from its first cluster to an end-of-chain value. */
  ghost predicate IsChain(next: seq<nat>, chain: seq<nat>) {
    && chain != []
    && (forall i :: 0 <= i < |chain| ==> IsData(next, chain[i]))
    && (forall i :: 0 <= i < |chain| - 1 ==> next[chain[i]] == chain[i + 1])
    && next[chain[|chain| - 1]] >= EOC_MIN
  }

  ghost predicate IsChainFrom(next: seq<nat>, start: nat, chain: seq<nat>) {
    IsChain(next, chain) && chain[0] == start
  }

  ghost predicate HasChain(next: seq<nat>, start: nat) {
    exists chain :: IsChainFrom(next, start, chain)
  }

  /** The chain of a start cluster, empty when there is none. */
  ghost function ChainOf(next: seq<nat>, start: nat): (chain: seq<nat>)
    ensures HasChain(next, start) ==> IsChainFrom(next, start, chain)
    ensures !HasChain(next, start) ==> chain == []
  {
    if HasChain(next, start) then var chain :| IsChainFrom(next, start, chain); chain else []
  }

  lemma {:induction false} ChainPrefix(next: seq<nat>, a: seq<nat>, b: seq<nat>, k: nat)
    requires IsTable(next) && IsChain(next, a) && IsChain(next, b) && a[0] == b[0]
    requires k < |a|
    ensures k < |b| && a[k] == b[k]
  {
    if k > 0 {
      ChainPrefix(next, a, b, k - 1);
      assert next[a[k - 1]] == a[k] < EOC_MIN;
    }
  }

  /** A start cluster has at most one chain. */
  lemma ChainUnique(next: seq<nat>, a: seq<nat>, b: seq<nat>)
    requires IsTable(next) && IsChain(next, a) && IsChain(next, b) && a[0] == b[0]
    ensures a == b
  {
    ChainPrefix(next, a, b, |a| - 1);
    ChainPrefix(next, b, a, |b| - 1);
    forall k | 0 <= k < |a| ensures a[k] == b[k] {
      ChainPrefix(next, a, b, k);
    }
  }

  lemma ChainOfIs(next: seq<nat>, chain: seq<nat>)
    requires IsTable(next) && IsChain(next, chain)
    ensures HasChain(next, chain[0]) && ChainOf(next, chain[0]) == chain
  {
    assert IsChainFrom(next, chain[0], chain);
    ChainUnique(next, ChainOf(next, chain[0]), chain);
  }

  lemma {:induction false} Shifted(next: seq<nat>, chain: seq<nat>, i: nat, j: nat, k: nat)
    requires IsTable(next) && IsChain(next, chain)
    requires i < j && j + k < |chain| && chain[i] == chain[j]
    ensures chain[i + k] == chain[j + k]
  {
    if k > 0 {
      Shifted(next, chain, i, j, k - 1);
      assert next[chain[i + (k - 1)]] == chain[i + k];
    }
  }

  /** A chain that ends never meets itself, so it has at most as many clusters as the volume. */
  lemma ChainDistinct(next: seq<nat>, chain: seq<nat>)
    requires IsTable(next) && IsChain(next, chain)
    ensures Distinct(chain)
    ensures |chain| <= |next| - 2
  {
    forall i, j | 0 <= i < j < |chain| ensures chain[i] != chain[j] {
      if chain[i] == chain[j] {
        var k := |chain| - 1 - j;
        assert next[chain[i + k]] == chain[i + k + 1];
        Shifted(next, chain, i, j, k);
        assert false;
      }
    }
    DistinctBounded(chain, 2, |next|);
  }

  /** A table that agrees on a chain's clusters has the same chain. */
  lemma ChainFrame(next: seq<nat>, other: seq<nat>, start: nat)
    requires IsTable(next) && IsTable(other) && |other| == |next|
    requires HasChain(next, start)
    requires forall c :: c in ChainOf(next, start) ==> other[c] == next[c]
    ensures HasChain(other, start) && ChainOf(other, start) == ChainOf(next, start)
  {
    ChainOfIs(other, ChainOf(next, start));
  }

  /** A chain either ends at a cluster or goes on to the data cluster in its cell. */
  lemma ChainStep(next: seq<nat>, chain: seq<nat>, k: nat)
    requires IsTable(next) && IsChain(next, chain) && k < |chain|
    ensures next[chain[k]] >= EOC_MIN ==> k + 1 == |chain|
    ensures next[chain[k]] < EOC_MIN ==>
      k + 1 < |chain| && chain[k + 1] == next[chain[k]] && IsData(next, next[chain[k]])
  {
    assert k + 1 < |chain| ==> next[chain[k]] == chain[k + 1];
  }

  /** Chain clusters are not free. */
  lemma ChainInUse(next: seq<nat>, start: nat)
    requires IsTable(next)
    ensures forall c :: c in ChainOf(next, start) ==> IsData(next, c) && next[c] != 0
  {
    var chain := ChainOf(next, start);
    forall c | c in chain ensures IsData(next, c) && next[c] != 0 {
      var i :| 0 <= i < |chain| && chain[i] == c;
      assert i < |chain| - 1 ==> next[chain[i]] == chain[i + 1];
    }
  }

  // ------------------------------------------------------------ reachability

  /** The cluster `k` steps after `start`; 0 once the walk has left the data clusters. */
  ghost function Orbit(next: seq<nat>, start: nat, k: nat): nat {
    if k == 0 then start
    else
      var c := Orbit(next, start, k - 1);
      if IsData(next, c) then next[c] else 0
  }

  ghost predicate Reaches(next: seq<nat>, start: nat, c: nat) {
    IsData(next, c) && exists k: nat :: Orbit(next, start, k) == c
  }

  /** The table with every data cluster reachable from `start` set free. */
  ghost function Freed(next: seq<nat>, start: nat): (r: seq<nat>)
    ensures |r| == |next|
  {
    seq(|next|, c requires 0 <= c < |next| => if Reaches(next, start, c) then 0 else next[c])
  }

  /** `path` is the beginning of the orbit, all of it data clusters. */
  ghost predicate IsOrbit(next: seq<nat>, start: nat, path: seq<nat>) {
    forall i :: 0 <= i < |path| ==> path[i] == Orbit(next, start, i) && IsData(next, path[i])
  }

  /** Nothing lies behind `path`: its last successor is in it or is not a data cluster. */
  ghost predicate Closed(next: seq<nat>, start: nat, path: seq<nat>) {
    var succ := Orbit(next, start, |path|);
    IsData(next, succ) ==> succ in path
  }

  lemma {:induction false} ClosedCovers(next: seq<nat>, start: nat, path: seq<nat>, k: nat)
    requires IsOrbit(next, start, path) && Closed(next, start, path)
    ensures IsData(next, Orbit(next, start, k)) ==> Orbit(next, start, k) in path
    decreases k
  {
    if k < |path| {
      assert path[k] == Orbit(next, start, k);
    } else if k > |path| {
      ClosedCovers(next, start, path, k - 1);
      var c := Orbit(next, start, k - 1);
      if IsData(next, c) {
        var i :| 0 <= i < |path| && path[i] == c;
        assert Orbit(next, start, i + 1) == Orbit(next, start, k);
        if i + 1 < |path| {
          assert path[i + 1] == Orbit(next, start, i + 1);
        }
      }
    }
  }

  /** A closed orbit lists exactly the reachable clusters. */
  lemma ClosedIsReachable(next: seq<nat>, start: nat, path: seq<nat>)
    requires IsOrbit(next, start, path) && Closed(next, start, path)
    ensures forall c: nat :: Reaches(next, start, c) <==> c in path
  {
    forall c: nat ensures Reaches(next, start, c) <==> c in path {
      if Reaches(next, start, c) {
        var k: nat :| Orbit(next, start, k) == c;
        ClosedCovers(next, start, path, k);
      }
      if c in path {
        var i :| 0 <= i < |path| && path[i] == c;
        assert Orbit(next, start, i) == c;
      }
    }
  }

  /** A distinct path through every data cluster is closed. */
  lemma FullPathCovers(next: seq<nat>, path: seq<nat>, c: nat)
    requires 2 <= |next| && Distinct(path) && |path| >= |next| - 2
    requires forall i :: 0 <= i < |path| ==> IsData(next, path[i])
    requires IsData(next, c)
    ensures c in path
  {
    if c !in path {
      var longer := path + [c];
      DistinctBounded(longer, 2, |next|);
    }
  }

  lemma {:induction false} ChainIsOrbit(next: seq<nat>, chain: seq<nat>, k: nat)
    requires IsChain(next, chain) && k < |chain|
    ensures Orbit(next, chain[0], k) == chain[k]
  {
    if k > 0 {
      ChainIsOrbit(next, chain, k - 1);
    }
  }

  /** On a chain, freeing what is reachable frees exactly the chain. */
  lemma ChainReaches(next: seq<nat>, start: nat)
    requires IsTable(next) && HasChain(next, start)
    ensures forall c: nat :: Reaches(next, start, c) <==> c in ChainOf(next, start)
  {
    var chain := ChainOf(next, start);
    forall k | 0 <= k < |chain| ensures Orbit(next, start, k) == chain[k] {
      ChainIsOrbit(next, chain, k);
    }
    ClosedIsReachable(next, start, chain);
  }

  // -------------------------------------------------------------- allocation

  /** The free clusters below `bound`. */
  function FreeBelow(next: seq<nat>, bound: nat): seq<nat>
    requires bound <= |next|
  {
    if bound <= 2 then []
    else if next[bound - 1] == 0 then FreeBelow(next, bound - 1) + [bound - 1]
    else FreeBelow(next, bound - 1)
  }

  function FreeList(next: seq<nat>): seq<nat> {
    FreeBelow(next, |next|)
  }

  ghost predicate Ascending(s: seq<nat>) {
    forall i, j :: 0 <= i < j < |s| ==> s[i] < s[j]
  }

  lemma {:induction false} FreeBelowSound(next: seq<nat>, bound: nat)
    requires bound <= |next|
    ensures forall i :: 0 <= i < |FreeBelow(next, bound)| ==>
      2 <= FreeBelow(next, bound)[i] < bound && next[FreeBelow(next, bound)[i]] == 0
    ensures Ascending(FreeBelow(next, bound))
  {
    if bound > 2 {
      FreeBelowSound(next, bound - 1);
    }
  }

  lemma {:induction false} FreeBelowComplete(next: seq<nat>, bound: nat, c: nat)
    requires bound <= |next| && 2 <= c < bound && next[c] == 0
    ensures c in FreeBelow(next, bound)
  {
    if c < bound - 1 {
      FreeBelowComplete(next, bound - 1, c);
    }
  }

  /** The free list is the ascending enumeration of the free data clusters. */
  lemma FreeListIs(next: seq<nat>)
    ensures Ascending(FreeList(next)) && Distinct(FreeList(next))
    ensures forall i :: 0 <= i < |FreeList(next)| ==>
      IsData(next, FreeList(next)[i]) && next[FreeList(next)[i]] == 0
    ensures forall c: nat :: c in FreeList(next) <==> IsData(next, c) && next[c] == 0
  {
    FreeBelowSound(next, |next|);
    forall c: nat | IsData(next, c) && next[c] == 0 ensures c in FreeList(next) {
      FreeBelowComplete(next, |next|, c);
    }
  }

  lemma {:induction false} FreeBelowPrefix(next: seq<nat>, low: nat, high: nat)
    requires low <= high <= |next|
    ensures FreeBelow(next, low) <= FreeBelow(next, high)
    decreases high
  {
    if low < high {
      FreeBelowPrefix(next, low, high - 1);
    }
  }

  /** The cell that position `i` of a new chain gets. */
  function LinkValue(chain: seq<nat>, i: nat): nat
    requires i < |chain|
  {
    if i + 1 < |chain| then chain[i + 1] else EOC
  }

  /** The table after the first `count` clusters of `chain` are linked. */
  function Linked(next: seq<nat>, chain: seq<nat>, count: nat): (r: seq<nat>)
    requires count <= |chain|
    requires forall i :: 0 <= i < |chain| ==> chain[i] < |next|
    ensures |r| == |next|
  {
    if count == 0 then next
    else Linked(next, chain, count - 1)[chain[count - 1] := LinkValue(chain, count - 1)]
  }

  lemma {:induction false} LinkedCells(next: seq<nat>, chain: seq<nat>, count: nat)
    requires count <= |chain| && Distinct(chain)
    requires forall i :: 0 <= i < |chain| ==> chain[i] < |next|
    ensures forall i :: 0 <= i < count ==> Linked(next, chain, count)[chain[i]] == LinkValue(chain, i)
    ensures forall c :: 0 <= c < |next| && c !in chain[..count] ==> Linked(next, chain, count)[c] == next[c]
  {
    if count > 0 {
      LinkedCells(next, chain, count - 1);
      forall c | 0 <= c < |next| && c !in chain[..count] ensures Linked(next, chain, count)[c] == next[c] {
        assert chain[count - 1] == chain[..count][count - 1];
        assert chain[..count - 1] == chain[..count][..count - 1];
      }
    }
  }

  /** A table whose cells follow `chain` and else are those of `next`. */
  ghost predicate IsLinked(next: seq<nat>, chain: seq<nat>, linked: seq<nat>) {
    && |linked| == |next|
    && (forall i :: 0 <= i < |chain| ==> chain[i] < |next| && linked[chain[i]] == LinkValue(chain, i))
    && (forall c :: 0 <= c < |next| && c !in chain ==> linked[c] == next[c])
  }

  lemma LinkedTable(next: seq<nat>, chain: seq<nat>, linked: seq<nat>)
    requires IsTable(next) && IsLinked(next, chain, linked)
    requires forall i :: 0 <= i < |chain| ==> 2 <= chain[i] < |next|
    ensures IsTable(linked)
    ensures chain != [] ==> IsChain(linked, chain)
  {
  }

  /** The clusters an allocation of `count` takes: the lowest free ones, in ascending order. */
  function Lowest(next: seq<nat>, count: nat): (chain: seq<nat>)
    requires count <= |FreeList(next)|
    ensures |chain| == count
    ensures forall i :: 0 <= i < count ==> IsData(next, chain[i]) && next[chain[i]] == 0
  {
    FreeListIs(next);
    FreeList(next)[..count]
  }

  function Allocate(next: seq<nat>, count: nat): (r: seq<nat>)
    requires count <= |FreeList(next)|
    ensures |r| == |next|
  {
    Linked(next, Lowest(next, count), count)
  }

  /** No free cluster below the taken ones is passed over. */
  lemma LowestIsLowest(next: seq<nat>, count: nat, c: nat, i: nat)
    requires count <= |FreeList(next)| && i < count
    requires IsData(next, c) && next[c] == 0 && c !in Lowest(next, count)
    ensures Lowest(next, count)[i] < c
  {
    FreeListIs(next);
    var free := FreeList(next);
    assert free == Lowest(next, count) + free[count..];
    var k :| 0 <= k < |free[count..]| && free[count..][k] == c;
    assert free[i] < free[count + k];
  }

  /** What allocation leaves behind: the `count` lowest free clusters are one
      chain and no other cell has moved. */
  lemma AllocateIs(next: seq<nat>, count: nat)
    requires IsTable(next) && count <= |FreeList(next)|
    ensures IsTable(Allocate(next, count)) && Distinct(Lowest(next, count))
    ensures count > 0 ==>
      var start := Lowest(next, count)[0];
      HasChain(Allocate(next, count), start) && ChainOf(Allocate(next, count), start) == Lowest(next, count)
    ensures forall c :: 0 <= c < |next| && c !in Lowest(next, count) ==> Allocate(next, count)[c] == next[c]
  {
    var chain := Lowest(next, count);
    assert Distinct(chain) by {
      FreeListIs(next);
    }
    LinkedCells(next, chain, count);
    assert chain[..count] == chain;
    LinkedTable(next, chain, Allocate(next, count));
    if count > 0 {
      ChainOfIs(Allocate(next, count), chain);
    }
  }
}
