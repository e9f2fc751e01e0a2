/** A task's kernel-tracked heap (kernel/sched/sched.c) as values: the live
    allocations, the arrays that list them, and what they mean for the page map. */
module HeapModel {
  import opened Words
  import opened PageTables
  import opened Paging
  import PageAllocator

  const USER_HEAP_BASE: nat := 0x40_0000
  const USER_HEAP_END: nat := 0x80_0000

  /** An allocation by its user virtual address: backing run and size in bytes. */
  datatype Allocation = Allocation(phys: nat, size: nat)

  type Allocations = map<nat, Allocation>

  // --------------------------------------------------------------- the arrays

  /** Entry `i` of the arrays lists the allocation at `v`. */
  predicate ListedAt(size: seq<U32>, pointers: seq<U32>, i: int, v: nat) {
    0 <= i < |size| == |pointers| && size[i] != 0 && pointers[i] != 0 && pointers[i] == v
  }

  /** The arrays list exactly `allocs`, each once; a free entry has both words zero. */
  ghost predicate Lists(size: seq<U32>, pointers: seq<U32>, phys: seq<U32>, allocs: Allocations) {
    && |size| == |pointers| == |phys|
    && (forall i :: 0 <= i < |size| ==> (size[i] == 0 <==> pointers[i] == 0))
    && (forall i, v :: ListedAt(size, pointers, i, v) ==> v in allocs && allocs[v] == Allocation(phys[i], size[i]))
    && (forall v :: v in allocs ==> exists i :: ListedAt(size, pointers, i, v))
    && (forall i, j, v :: ListedAt(size, pointers, i, v) && ListedAt(size, pointers, j, v) ==> i == j)
  }

  lemma ListsNothing(size: seq<U32>, pointers: seq<U32>, phys: seq<U32>)
    requires |size| == |pointers| == |phys| && forall i :: 0 <= i < |size| ==> size[i] == 0 && pointers[i] == 0
    ensures Lists(size, pointers, phys, map[])
  {
  }

  lemma ListsLengths(size: seq<U32>, pointers: seq<U32>, phys: seq<U32>, allocs: Allocations)
    requires Lists(size, pointers, phys, allocs)
    ensures |size| == |pointers| == |phys|
  {
  }

  lemma ListsFill(size: seq<U32>, pointers: seq<U32>, phys: seq<U32>, allocs: Allocations, i: nat, v: U32,
      a: Allocation)
    requires Lists(size, pointers, phys, allocs) && i < |size| && size[i] == 0
    requires v != 0 && v !in allocs && 0 < a.size < 0x1_0000_0000 && a.phys < 0x1_0000_0000
    ensures Lists(size[i := a.size], pointers[i := v], phys[i := a.phys], allocs[v := a])
  {
    var size', pointers', allocs' := size[i := a.size], pointers[i := v], allocs[v := a];
    forall w | w in allocs' ensures exists j :: ListedAt(size', pointers', j, w) {
      if w == v {
        assert ListedAt(size', pointers', i, w);
      } else {
        var j :| ListedAt(size, pointers, j, w);
        assert ListedAt(size', pointers', j, w);
      }
    }
    forall j, w | ListedAt(size', pointers', j, w) && j != i ensures ListedAt(size, pointers, j, w) && w != v {
      assert ListedAt(size, pointers, j, w);
    }
  }

  lemma ListsGrow(size: seq<U32>, pointers: seq<U32>, phys: seq<U32>, allocs: Allocations)
    requires Lists(size, pointers, phys, allocs)
    ensures Lists(size + [0], pointers + [0], phys + [0], allocs)
  {
    forall v | v in allocs ensures exists j :: ListedAt(size + [0], pointers + [0], j, v) {
      var j :| ListedAt(size, pointers, j, v);
      assert ListedAt(size + [0], pointers + [0], j, v);
    }
    forall j, w | ListedAt(size + [0], pointers + [0], j, w) ensures ListedAt(size, pointers, j, w) {
    }
  }

  lemma ListsRemove(size: seq<U32>, pointers: seq<U32>, phys: seq<U32>, allocs: Allocations, i: nat, v: nat)
    requires Lists(size, pointers, phys, allocs) && ListedAt(size, pointers, i, v)
    ensures Lists(size[i := 0], pointers[i := 0], phys, allocs - {v})
  {
    var size', pointers' := size[i := 0], pointers[i := 0];
    forall w | w in allocs - {v} ensures exists j :: ListedAt(size', pointers', j, w) {
      var j :| ListedAt(size, pointers, j, w);
      assert ListedAt(size', pointers', j, w);
    }
    forall j, w | ListedAt(size', pointers', j, w) ensures ListedAt(size, pointers, j, w) && w != v {
      assert ListedAt(size, pointers, j, w);
    }
  }

  // ----------------------------------------------------------------- the heap

  /** Page `p` lies in the allocation at `v`. */
  predicate Within(allocs: Allocations, v: nat, p: nat) {
    v in allocs && v / PAGE_SIZE <= p < v / PAGE_SIZE + allocs[v].size / PAGE_SIZE
  }

  /** The leaf page `p` must have when it lies in the allocation at `v`. */
  function HeapLeaf(allocs: Allocations, v: nat, p: nat): U32
    requires Within(allocs, v, p) && allocs[v].phys < 0x1_0000_0000
  {
    MakeEntry(Add32(allocs[v].phys, PAGE_SIZE * (p - v / PAGE_SIZE)), RW_USER)
  }

  /** Page-aligned, inside the used part of the window, and pairwise disjoint. */
  ghost predicate Placed(allocs: Allocations, heapCurrent: nat) {
    && USER_HEAP_BASE <= heapCurrent <= USER_HEAP_END && heapCurrent % PAGE_SIZE == 0
    && (forall v :: v in allocs ==>
          && v % PAGE_SIZE == 0 && allocs[v].size % PAGE_SIZE == 0 && allocs[v].size > 0
          && USER_HEAP_BASE <= v && v + allocs[v].size <= heapCurrent
          && PageDown(allocs[v].phys) == allocs[v].phys < 0x1_0000_0000)
    && (forall v, w :: v in allocs && w in allocs && v < w ==> v + allocs[v].size <= w)
  }

  /** Each allocation is backed by a live run of its own, of exactly its size. */
  ghost predicate BackedBy(allocs: Allocations, rest: map<nat, nat>) {
    && (forall v :: v in allocs ==> allocs[v].phys in rest && rest[allocs[v].phys] == allocs[v].size / PAGE_SIZE)
    && (forall v, w :: v in allocs && w in allocs && v != w ==> allocs[v].phys != allocs[w].phys)
  }

  /** Allocated pages translate to their run, page by page; the rest of the used
      window translates to nothing. */
  ghost predicate Translated(space: nat, allocs: Allocations, heapCurrent: nat, flat: PageMap)
    requires Placed(allocs, heapCurrent)
  {
    forall p: nat :: USER_HEAP_BASE / PAGE_SIZE <= p < heapCurrent / PAGE_SIZE ==>
      && (space, p) in flat
      && (forall v :: Within(allocs, v, p) ==> flat[(space, p)] == HeapLeaf(allocs, v, p))
      && ((forall v :: !Within(allocs, v, p)) ==> flat[(space, p)] == 0)
  }

  ghost predicate HeapOk(space: nat, allocs: Allocations, heapCurrent: nat, flat: PageMap, rest: map<nat, nat>) {
    Placed(allocs, heapCurrent) && BackedBy(allocs, rest) && Translated(space, allocs, heapCurrent, flat)
  }

  /** The runs behind the allocations. */
  ghost function HeapRuns(allocs: Allocations): set<nat> {
    set v | v in allocs :: allocs[v].phys
  }

  /** The heap depends on its own part of the map and its own runs only. */
  lemma HeapFrame(space: nat, allocs: Allocations, heapCurrent: nat, flat: PageMap, rest: map<nat, nat>,
      flat': PageMap, rest': map<nat, nat>)
    requires HeapOk(space, allocs, heapCurrent, flat, rest)
    requires forall p: nat :: USER_HEAP_BASE / PAGE_SIZE <= p < heapCurrent / PAGE_SIZE && (space, p) in flat ==>
      (space, p) in flat' && flat'[(space, p)] == flat[(space, p)]
    requires forall a :: a in HeapRuns(allocs) && a in rest ==> a in rest' && rest'[a] == rest[a]
    ensures HeapOk(space, allocs, heapCurrent, flat', rest')
  {
  }

  lemma CurrentIsNew(allocs: Allocations, heapCurrent: nat)
    requires Placed(allocs, heapCurrent)
    ensures heapCurrent !in allocs
  {
  }

  lemma HeapRunsWith(allocs: Allocations, v: nat, a: Allocation)
    requires v !in allocs
    ensures HeapRuns(allocs[v := a]) == HeapRuns(allocs) + {a.phys}
  {
    var allocs' := allocs[v := a];
    assert allocs'[v].phys in HeapRuns(allocs');
    forall w | w in allocs ensures allocs[w].phys in HeapRuns(allocs') {
      assert allocs'[w] == allocs[w];
    }
  }

  lemma HeapRunsWithout(allocs: Allocations, v: nat, rest: map<nat, nat>)
    requires v in allocs && BackedBy(allocs, rest)
    ensures HeapRuns(allocs - {v}) == HeapRuns(allocs) - {allocs[v].phys}
  {
    var allocs' := allocs - {v};
    forall w | w in allocs' ensures allocs[w].phys in HeapRuns(allocs') {
      assert allocs'[w] == allocs[w];
    }
  }

  /** Bumping the heap by a freshly mapped run keeps it in order. */
  lemma HeapGrows(space: nat, allocs: Allocations, heapCurrent: nat, flat: PageMap, rest: map<nat, nat>,
                  flat': PageMap, rest': map<nat, nat>, phys: U32, bytes: nat)
    requires HeapOk(space, allocs, heapCurrent, flat, rest)
    requires bytes > 0 && bytes % PAGE_SIZE == 0 && heapCurrent + bytes <= USER_HEAP_END
    requires PageDown(phys) == phys && phys !in HeapRuns(allocs)
    requires phys in rest' && rest'[phys] == bytes / PAGE_SIZE
    requires forall a :: a in HeapRuns(allocs) && a in rest ==> a in rest' && rest'[a] == rest[a]
    requires forall p: nat :: p < VPAGES ==> (space, p) in flat
    requires flat' == MappedTo(flat, space, heapCurrent / PAGE_SIZE, (heapCurrent + bytes) / PAGE_SIZE, phys, RW_USER)
    ensures HeapOk(space, allocs[heapCurrent := Allocation(phys, bytes)], heapCurrent + bytes, flat', rest')
  {
    CurrentIsNew(allocs, heapCurrent);
    var allocs' := allocs[heapCurrent := Allocation(phys, bytes)];
    forall v | v in allocs ensures allocs[v].phys in HeapRuns(allocs) {
    }
    assert Placed(allocs', heapCurrent + bytes);
    forall p: nat | USER_HEAP_BASE / PAGE_SIZE <= p < (heapCurrent + bytes) / PAGE_SIZE
      ensures (space, p) in flat'
      ensures forall v :: Within(allocs', v, p) ==> flat'[(space, p)] == HeapLeaf(allocs', v, p)
      ensures (forall v :: !Within(allocs', v, p)) ==> flat'[(space, p)] == 0
    {
      GrowPage(space, allocs, heapCurrent, flat, flat', phys, bytes, p);
    }
  }

  lemma GrowPage(space: nat, allocs: Allocations, heapCurrent: nat, flat: PageMap, flat': PageMap, phys: U32,
      bytes: nat, p: nat)
    requires Placed(allocs, heapCurrent) && Translated(space, allocs, heapCurrent, flat)
    requires bytes > 0 && bytes % PAGE_SIZE == 0 && heapCurrent + bytes <= USER_HEAP_END && PageDown(phys) == phys
    requires heapCurrent !in allocs && forall p: nat :: p < VPAGES ==> (space, p) in flat
    requires flat' == MappedTo(flat, space, heapCurrent / PAGE_SIZE, (heapCurrent + bytes) / PAGE_SIZE, phys, RW_USER)
    requires USER_HEAP_BASE / PAGE_SIZE <= p < (heapCurrent + bytes) / PAGE_SIZE
    ensures var allocs' := allocs[heapCurrent := Allocation(phys, bytes)];
            && (space, p) in flat'
            && (forall v :: Within(allocs', v, p) ==> flat'[(space, p)] == HeapLeaf(allocs', v, p))
            && ((forall v :: !Within(allocs', v, p)) ==> flat'[(space, p)] == 0)
  {
    var allocs' := allocs[heapCurrent := Allocation(phys, bytes)];
    assert (heapCurrent + bytes) / PAGE_SIZE == heapCurrent / PAGE_SIZE + bytes / PAGE_SIZE;
    if p < heapCurrent / PAGE_SIZE {
      assert flat'[(space, p)] == flat[(space, p)];
      forall v ensures Within(allocs', v, p) <==> Within(allocs, v, p) {
      }
    } else {
      assert Within(allocs', heapCurrent, p);
      forall v | v in allocs ensures v / PAGE_SIZE + allocs[v].size / PAGE_SIZE <= heapCurrent / PAGE_SIZE {
        BelowCurrent(allocs, heapCurrent, v);
      }
      assert forall v: nat :: Within(allocs', v, p) ==> v == heapCurrent;
    }
  }

  /** Revoking one allocation keeps the others and leaves nothing behind. */
  lemma HeapShrinks(space: nat, allocs: Allocations, heapCurrent: nat, flat: PageMap, rest: map<nat, nat>,
                    flat': PageMap, rest': map<nat, nat>, v: nat, owned: seq<bool>)
    requires HeapOk(space, allocs, heapCurrent, flat, rest) && v in allocs
    requires |owned| == PAGE_ENTRIES && owned[1]
    requires rest' == rest - {allocs[v].phys}
    requires flat' == Unmapped(flat, space, v / PAGE_SIZE, (v + allocs[v].size) / PAGE_SIZE, owned)
    ensures HeapOk(space, allocs - {v}, heapCurrent, flat', rest')
  {
    forall p: nat | USER_HEAP_BASE / PAGE_SIZE <= p < heapCurrent / PAGE_SIZE
      ensures (space, p) in flat'
      ensures forall w :: Within(allocs - {v}, w, p) ==> flat'[(space, p)] == HeapLeaf(allocs - {v}, w, p)
      ensures (forall w :: !Within(allocs - {v}, w, p)) ==> flat'[(space, p)] == 0
    {
      ShrinkPage(space, allocs, heapCurrent, flat, flat', v, owned, p);
    }
  }

  lemma ShrinkPage(space: nat, allocs: Allocations, heapCurrent: nat, flat: PageMap, flat': PageMap, v: nat,
      owned: seq<bool>, p: nat)
    requires Placed(allocs, heapCurrent) && Translated(space, allocs, heapCurrent, flat) && v in allocs
    requires |owned| == PAGE_ENTRIES && owned[1]
    requires flat' == Unmapped(flat, space, v / PAGE_SIZE, (v + allocs[v].size) / PAGE_SIZE, owned)
    requires USER_HEAP_BASE / PAGE_SIZE <= p < heapCurrent / PAGE_SIZE
    ensures (space, p) in flat'
    ensures forall w :: Within(allocs - {v}, w, p) ==> flat'[(space, p)] == HeapLeaf(allocs - {v}, w, p)
    ensures (forall w :: !Within(allocs - {v}, w, p)) ==> flat'[(space, p)] == 0
  {
    hide HeapLeaf;
    assert p / PAGE_ENTRIES == 1;
    assert (v + allocs[v].size) / PAGE_SIZE == v / PAGE_SIZE + allocs[v].size / PAGE_SIZE;
    assert flat'[(space, p)] == if Within(allocs, v, p) then 0 else flat[(space, p)];
    forall w | w != v && Within(allocs, w, p) ensures !Within(allocs, v, p) {
      if Within(allocs, v, p) {
        OnePageOneAllocation(allocs, heapCurrent, v, w, p);
      }
    }
    forall w | Within(allocs - {v}, w, p) ensures HeapLeaf(allocs - {v}, w, p) == HeapLeaf(allocs, w, p) {
      SameLeaf(allocs, v, w, p);
    }
    assert forall w :: Within(allocs, w, p) ==> w == v || Within(allocs - {v}, w, p);
  }

  lemma SameLeaf(allocs: Allocations, v: nat, w: nat, p: nat)
    requires Within(allocs - {v}, w, p) && allocs[w].phys < 0x1_0000_0000
    ensures HeapLeaf(allocs - {v}, w, p) == HeapLeaf(allocs, w, p)
  {
  }

  lemma BelowCurrent(allocs: Allocations, heapCurrent: nat, v: nat)
    requires Placed(allocs, heapCurrent) && v in allocs
    ensures v / PAGE_SIZE + allocs[v].size / PAGE_SIZE <= heapCurrent / PAGE_SIZE
  {
  }

  /** No page lies in two allocations. */
  lemma OnePageOneAllocation(allocs: Allocations, heapCurrent: nat, v: nat, w: nat, p: nat)
    requires Placed(allocs, heapCurrent) && Within(allocs, v, p) && Within(allocs, w, p)
    ensures v == w
  {
  }

  /** Two allocations never share a byte of physical memory. */
  lemma AllocationsApart(allocs: Allocations, heapCurrent: nat, rest: map<nat, nat>, live: map<nat, nat>, v: nat,
      w: nat)
    requires Placed(allocs, heapCurrent) && BackedBy(allocs, rest) && PageAllocator.RunsApart(live)
    requires forall a :: a in rest ==> a in live && live[a] == rest[a]
    requires v in allocs && w in allocs && v != w
    ensures allocs[v].phys + allocs[v].size <= allocs[w].phys || allocs[w].phys + allocs[w].size <= allocs[v].phys
  {
  }
}
