/** The loops of kernel/fs/fat12.c over the in-memory allocation table. */
module FatOps {
  import opened Words
  import opened FatTable
  import opened Chains

  /** The table as the graph the chain theory speaks of. */
  function Cells(fat: seq<Byte>, totalClusters: nat): seq<nat>
    requires Holds(fat, totalClusters + 2)
  {
    Entries(fat, totalClusters + 2)
  }

  predicate Fat12IsDataCluster(totalClusters: nat, cluster: nat) {
    cluster >= 2 && cluster - 2 < totalClusters
  }

  /** Follows a chain into a buffer of `totalClusters` cells. */
  method Fat12CollectChain(totalClusters: nat, fat: array<Byte>, startCluster: U16)
    returns (ok: bool, chain: seq<nat>)
    requires totalClusters <= MAX_CLUSTERS && Holds(fat[..], totalClusters + 2)
    ensures startCluster == 0 ==> ok
    ensures startCluster != 0 ==> (ok <==> HasChain(Cells(fat[..], totalClusters), startCluster))
    ensures chain == if startCluster == 0 then [] else ChainOf(Cells(fat[..], totalClusters), startCluster)
  {
    ghost var next := Cells(fat[..], totalClusters);
    ghost var whole := ChainOf(next, startCluster);
    if startCluster == 0 {
      return true, [];
    }
    if !Fat12IsDataCluster(totalClusters, startCluster) {
      return false, [];
    }
    var buffer := new nat[totalClusters];
    var count: nat := 0;
    var current: nat := startCluster;
    ghost var known := HasChain(next, startCluster);
    if known {
      ChainDistinct(next, whole);
    }
    while Fat12IsDataCluster(totalClusters, current) && count < totalClusters
      invariant count <= totalClusters
      invariant IsWalk(next, startCluster, buffer[..count], current)
      invariant known ==> count < |whole| && current == whole[count]
      decreases totalClusters - count
    {
      var following := ReadEntry(fat[..], current);
      WalkStep(next, startCluster, buffer[..count], current);
      if known {
        ChainStep(next, whole, count);
      }
      ghost var walked := buffer[..count];
      buffer[count] := current;
      count := count + 1;
      assert buffer[..count] == walked + [current];
      if following >= EOC_MIN {
        ChainOfIs(next, buffer[..count]);
        return true, buffer[..count];
      }
      if following < 2 || following == BAD {
        break;
      }
      current := following;
    }
    return false, [];
  }

  /** `walked` follows the table from `start`, stopping before `current`. */
  ghost predicate IsWalk(next: seq<nat>, start: nat, walked: seq<nat>, current: nat) {
    && (forall i :: 0 <= i < |walked| ==> IsData(next, walked[i]))
    && (forall i :: 0 <= i < |walked| - 1 ==> next[walked[i]] == walked[i + 1])
    && (walked == [] ==> start == current)
    && (walked != [] ==> start == walked[0] && next[walked[|walked| - 1]] == current)
  }

  lemma WalkStep(next: seq<nat>, start: nat, walked: seq<nat>, current: nat)
    requires IsWalk(next, start, walked, current) && IsData(next, current)
    ensures IsWalk(next, start, walked + [current], next[current])
    ensures next[current] >= EOC_MIN ==> IsChainFrom(next, start, walked + [current])
  {
  }

  /** The cells with those on `path` set free. */
  ghost function Erased(next: seq<nat>, path: seq<nat>): (r: seq<nat>)
    ensures |r| == |next|
  {
    seq(|next|, c requires 0 <= c < |next| => if c in path then 0 else next[c])
  }

  /** Freeing in progress: `path` is what has been freed. Until the walk meets
      itself (`closed`), `path` holds one cluster a step. */
  ghost predicate Freeing(next: seq<nat>, start: nat, cells: seq<nat>, path: seq<nat>,
                          visited: nat, current: nat, closed: bool) {
    && IsOrbit(next, start, path) && Distinct(path)
    && cells == Erased(next, path)
    && (closed ==> Closed(next, start, path) && current == 0)
    && (!closed ==> |path| == visited && current == Orbit(next, start, visited))
  }

  lemma FreeFirst(next: seq<nat>, start: nat, path: seq<nat>, visited: nat, current: nat)
    requires IsData(next, current) && current !in path
    requires Freeing(next, start, Erased(next, path), path, visited, current, false)
    ensures Erased(next, path)[current] == next[current]
    ensures Freeing(next, start, Erased(next, path)[current := 0], path + [current], visited + 1, next[current], false)
  {
  }

  lemma FreeAgain(next: seq<nat>, start: nat, path: seq<nat>, visited: nat, current: nat)
    requires IsData(next, current) && current in path
    requires Freeing(next, start, Erased(next, path), path, visited, current, false)
    ensures Erased(next, path)[current] == 0
    ensures Freeing(next, start, Erased(next, path)[current := 0], path, visited + 1, 0, true)
  {
  }

  lemma FreeDone(next: seq<nat>, start: nat, cells: seq<nat>, path: seq<nat>,
                 visited: nat, current: nat, closed: bool)
    requires 2 <= |next| && Freeing(next, start, cells, path, visited, current, closed)
    requires !IsData(next, current) || visited >= |next| - 2
    ensures cells == Freed(next, start)
  {
    if !closed && IsData(next, current) {
      FullPathCovers(next, path, current);
    }
    ClosedIsReachable(next, start, path);
    assert Erased(next, path) == Freed(next, start);
  }

  /** Frees whatever hangs behind a cluster, whether or not it is a proper chain. */
  method Fat12FreeChain(totalClusters: nat, fat: array<Byte>, startCluster: U16)
    requires totalClusters <= MAX_CLUSTERS && Holds(fat[..], totalClusters + 2)
    modifies fat
    ensures Holds(fat[..], totalClusters + 2)
    ensures Cells(fat[..], totalClusters) == Freed(Cells(old(fat[..]), totalClusters), startCluster)
  {
    ghost var next := Cells(fat[..], totalClusters);
    ghost var path: seq<nat> := [];
    var current: nat := startCluster;
    var visited: nat := 0;
    ghost var closed := false;
    assert Cells(fat[..], totalClusters) == Erased(next, path);
    while Fat12IsDataCluster(totalClusters, current) && visited < totalClusters
      invariant Holds(fat[..], totalClusters + 2) && visited <= totalClusters
      invariant Freeing(next, startCluster, Cells(fat[..], totalClusters), path, visited, current, closed)
      decreases totalClusters - visited
    {
      var following := ReadEntry(fat[..], current);
      EntriesAfterPut(fat[..], totalClusters + 2, current, 0);
      Fat12WriteEntry(fat, current, 0);
      if current in path {
        FreeAgain(next, startCluster, path, visited, current);
        closed := true;
      } else {
        FreeFirst(next, startCluster, path, visited, current);
        path := path + [current];
      }
      if following >= EOC_MIN || following == BAD {
        FreeDone(next, startCluster, Cells(fat[..], totalClusters), path, visited + 1, following, closed);
        return;
      }
      current := following;
      visited := visited + 1;
    }
    FreeDone(next, startCluster, Cells(fat[..], totalClusters), path, visited, current, closed);
  }

  /** The second loop of the allocation: threads the found clusters. */
  method LinkChain(totalClusters: nat, fat: array<Byte>, buffer: array<nat>)
    requires totalClusters <= MAX_CLUSTERS && Holds(fat[..], totalClusters + 2)
    requires forall i :: 0 <= i < buffer.Length ==> buffer[i] < totalClusters + 2
    modifies fat
    ensures Holds(fat[..], totalClusters + 2)
    ensures Cells(fat[..], totalClusters) == Linked(Cells(old(fat[..]), totalClusters), buffer[..], buffer.Length)
  {
    ghost var next := Cells(fat[..], totalClusters);
    ghost var chain := buffer[..];
    var i: nat := 0;
    while i < buffer.Length
      invariant i <= buffer.Length
      invariant Holds(fat[..], totalClusters + 2)
      invariant Cells(fat[..], totalClusters) == Linked(next, chain, i)
    {
      var value := if i + 1 < buffer.Length then buffer[i + 1] else EOC;
      EntriesAfterPut(fat[..], totalClusters + 2, buffer[i], value);
      Fat12WriteEntry(fat, buffer[i], value);
      assert value % 4096 == LinkValue(chain, i);
      i := i + 1;
    }
  }

  /** The scan has found enough as soon as the free clusters seen so far are enough. */
  lemma FoundEnough(next: seq<nat>, bound: nat, count: nat)
    requires bound <= |next| && |FreeBelow(next, bound)| == count
    ensures count <= |FreeList(next)| && FreeBelow(next, bound) == Lowest(next, count)
    ensures forall i :: 0 <= i < count ==> FreeBelow(next, bound)[i] < |next|
  {
    FreeBelowPrefix(next, bound, |next|);
    FreeListIs(next);
  }

  lemma FreeStep(next: seq<nat>, cluster: nat, free: seq<nat>)
    requires 2 <= cluster < |next| && free == FreeBelow(next, cluster)
    ensures FreeBelow(next, cluster + 1) == free + if next[cluster] == 0 then [cluster] else []
  {
  }

  /** First fit over the whole table, then links what it found. */
  method Fat12AllocateChain(totalClusters: nat, fat: array<Byte>, clustersNeeded: nat)
    returns (ok: bool, chain: seq<nat>)
    requires totalClusters <= MAX_CLUSTERS && Holds(fat[..], totalClusters + 2)
    modifies fat
    ensures Holds(fat[..], totalClusters + 2)
    ensures ok <==> clustersNeeded <= |FreeList(Cells(old(fat[..]), totalClusters))|
    ensures !ok ==> fat[..] == old(fat[..]) && chain == []
    ensures ok ==> chain == Lowest(Cells(old(fat[..]), totalClusters), clustersNeeded)
    ensures ok ==> Cells(fat[..], totalClusters) == Allocate(Cells(old(fat[..]), totalClusters), clustersNeeded)
  {
    hide Lowest, ReadEntry;
    ghost var next := Cells(fat[..], totalClusters);
    if clustersNeeded == 0 {
      return true, [];
    }
    var buffer := new nat[clustersNeeded];
    var found: nat := 0;
    var cluster: nat := 2;
    ghost var free := FreeBelow(next, 2);
    while cluster - 2 < totalClusters
      invariant 2 <= cluster <= totalClusters + 2
      invariant found < clustersNeeded
      invariant buffer[..found] == free == FreeBelow(next, cluster)
      invariant fat[..] == old(fat[..])
    {
      FreeStep(next, cluster, free);
      free := FreeBelow(next, cluster + 1);
      if ReadEntry(fat[..], cluster) == 0 {
        ghost var seen := buffer[..found];
        buffer[found] := cluster;
        found := found + 1;
        assert buffer[..found] == seen + [cluster] == free;
        if found == clustersNeeded {
          assert buffer[..] == buffer[..found];
          FoundEnough(next, cluster + 1, clustersNeeded);
          LinkChain(totalClusters, fat, buffer);
          return true, buffer[..];
        }
      }
      cluster := cluster + 1;
    }
    return false, [];
  }
}
