/** The tracked heap of a task: kernel/sched/sched.c, SchedTaskMalloc,
    SchedTaskFree and the arrays behind them. */
module TaskHeap {
  import opened Words
  import opened PageRuns
  import opened PageAllocator
  import opened PageTables
  import opened Paging
  import opened HeapModel
  import opened RunQueue

  /** sizeof(MallocAllocationData_t): three pointers and a length. */
  const DESCRIPTOR_BYTES: nat := 16

  /** MallocAllocationData_t with its three arrays, each in a run of its own. */
  class Tracking {
    const at: nat
    const sizeAt: nat
    const pointersAt: nat
    const physAt: nat
    var size: seq<U32>
    var pointers: seq<U32>
    var phys: seq<U32>

    constructor (at: nat, sizeAt: nat, pointersAt: nat, physAt: nat, count: nat)
      ensures this.at == at && this.sizeAt == sizeAt && this.pointersAt == pointersAt && this.physAt == physAt
      ensures size == Zeros(count) && pointers == Zeros(count) && phys == Zeros(count)
    {
      this.at, this.sizeAt, this.pointersAt, this.physAt := at, sizeAt, pointersAt, physAt;
      size, pointers, phys := Zeros(count), Zeros(count), Zeros(count);
    }
  }

  /** The arrays never outgrow what the heap window can hold. */
  const MAX_ENTRIES: nat := 1024

  function ArrayPages(count: nat): nat {
    (4 * count + PAGE_SIZE - 1) / PAGE_SIZE
  }

  lemma ArrayPagesIs(count: nat)
    requires 0 < count <= MAX_ENTRIES + 1
    ensures 0 < PageCount(4 * count) == ArrayPages(count) <= 2
    ensures count <= MAX_ENTRIES ==> ArrayPages(count) == 1
  {
  }

  /** The runs of a descriptor with arrays of `count` entries. */
  function TrackingRuns(mad: Tracking, count: nat): map<nat, nat> {
    map[mad.at := 1, mad.sizeAt := ArrayPages(count), mad.pointersAt := ArrayPages(count),
      mad.physAt := ArrayPages(count)]
  }

  /** Four different runs. */
  predicate FourRuns(mad: Tracking) {
    && mad.at != mad.sizeAt && mad.at != mad.pointersAt && mad.at != mad.physAt
    && mad.sizeAt != mad.pointersAt && mad.sizeAt != mad.physAt && mad.pointersAt != mad.physAt
  }

  /** KFree of a run that may not have been allocated. */
  method FreeIfAny(m: Memory, address: nat)
    requires m.Valid() && (address == 0 || address in m.rest)
    modifies m`rest, m.pages`live, m.pages`free, m.pages`hint, m.pages.entries
    ensures m.Valid() && m.rest == old(m.rest) - {address}
  {
    if address != 0 {
      var r := m.GiveBack(address);
    }
  }

  /** A map with a run added, unless there is none (address 0). */
  ghost function Plus(rest: map<nat, nat>, address: nat, count: nat): map<nat, nat> {
    if address == 0 then rest else rest[address := count]
  }

  /** KAlloc of an array of `count` words. */
  method AllocateArray(m: Memory, count: nat) returns (address: nat)
    requires m.Valid() && 0 < count <= MAX_ENTRIES + 1
    modifies m`rest, m.pages, m.pages.entries
    ensures m.Valid() && address !in old(m.rest) && 0 !in old(m.rest)
    ensures m.rest == Plus(old(m.rest), address, ArrayPages(count))
    ensures m.pages.refusals == old(m.pages.refusals) + if address == 0 then 1 else 0
    ensures count <= MAX_ENTRIES ==>
      (address == 0 <==> old(m.pages.free) == 0) && m.pages.free == old(m.pages.free) - if address == 0 then 0 else 1
  {
    hide m.Valid, PageCount, ArrayPages, PageDown;
    ArrayPagesIs(count);
    address := m.AllocateRun(4 * count);
  }

  lemma TakenBack(rest: map<nat, nat>, at: nat, a: nat, b: nat, c: nat, n: nat)
    requires 0 !in rest && at != 0 && at !in rest && a !in rest[at := 1]
    requires b !in Plus(rest[at := 1], a, n) && c !in Plus(Plus(rest[at := 1], a, n), b, n)
    ensures Plus(Plus(Plus(rest[at := 1], a, n), b, n), c, n) - {c} - {b} - {a} - {at} == rest
  {
  }

  lemma AllTaken(rest: map<nat, nat>, rest': map<nat, nat>, at: nat, a: nat, b: nat, c: nat, n: nat)
    requires Arrays(rest, rest', at, a, b, c, n) && a != 0 && b != 0 && c != 0
    ensures rest' == rest + map[at := 1, a := n, b := n, c := n]
    ensures {at, a, b, c} !! rest.Keys && at != a && at != b && at != c && a != b && a != c && b != c
  {
  }

  /** KAlloc for a descriptor and its arrays; frees what it got when one fails. */
  method NewTracking(m: Memory, count: nat) returns (mad: Tracking?)
    requires m.Valid() && 0 < count <= MAX_ENTRIES + 1
    modifies m`rest, m.pages, m.pages.entries
    ensures m.Valid()
    ensures mad == null ==> m.rest == old(m.rest)
    ensures mad != null ==> fresh(mad) && FourRuns(mad)
    ensures mad != null ==> mad.size == Zeros(count) && mad.pointers == Zeros(count) && mad.phys == Zeros(count)
    ensures mad != null ==> TrackingRuns(mad, count).Keys !! old(m.rest).Keys
    ensures mad != null ==> m.rest == old(m.rest) + TrackingRuns(mad, count)
    ensures old(m.pages.refusals) <= m.pages.refusals
    ensures mad != null <==> m.pages.refusals == old(m.pages.refusals)
    ensures count <= MAX_ENTRIES ==> (mad != null <==> old(m.pages.free) >= 4)
  {
    hide m.Valid, PageCount, ArrayPages, PageDown, Plus, RunExists, Arrays, m.Domains;
    DescriptorPages();
    var at := m.AllocateRun(DESCRIPTOR_BYTES);
    if at == 0 {
      return null;
    }
    var sizeAt, pointersAt, physAt := AllocateArrays(m, count, at, old(m.rest));
    if sizeAt == 0 || pointersAt == 0 || physAt == 0 {
      FreeArrays(m, at, sizeAt, pointersAt, physAt, old(m.rest), ArrayPages(count));
      return null;
    }
    AllTaken(old(m.rest), m.rest, at, sizeAt, pointersAt, physAt, ArrayPages(count));
    mad := new Tracking(at, sizeAt, pointersAt, physAt, count);
  }

  /** A descriptor at `at` and the arrays `a`, `b` and `c`, as far as there are any, in new runs. */
  ghost predicate Arrays(rest0: map<nat, nat>, rest: map<nat, nat>, at: nat, a: nat, b: nat, c: nat, n: nat) {
    && 0 !in rest0 && at != 0 && at !in rest0 && a !in rest0[at := 1]
    && b !in Plus(rest0[at := 1], a, n) && c !in Plus(Plus(rest0[at := 1], a, n), b, n)
    && rest == Plus(Plus(Plus(rest0[at := 1], a, n), b, n), c, n)
  }

  /** The three arrays of a descriptor. */
  method AllocateArrays(m: Memory, count: nat, ghost at: nat, ghost rest0: map<nat, nat>)
    returns (sizeAt: nat, pointersAt: nat, physAt: nat)
    requires m.Valid() && 0 < count <= MAX_ENTRIES + 1
    requires at != 0 && at !in rest0 && m.rest == rest0[at := 1]
    modifies m`rest, m.pages, m.pages.entries
    ensures m.Valid() && Arrays(rest0, m.rest, at, sizeAt, pointersAt, physAt, ArrayPages(count))
    ensures old(m.pages.refusals) <= m.pages.refusals
    ensures sizeAt != 0 && pointersAt != 0 && physAt != 0 <==> m.pages.refusals == old(m.pages.refusals)
    ensures count <= MAX_ENTRIES ==> (sizeAt != 0 && pointersAt != 0 && physAt != 0 <==> old(m.pages.free) >= 3)
  {
    hide m.Valid, ArrayPages, Plus, m.Domains;
    sizeAt := AllocateArray(m, count);
    pointersAt := AllocateArray(m, count);
    physAt := AllocateArray(m, count);
  }

  /** Gives back the arrays that could be had, and the descriptor. */
  method FreeArrays(m: Memory, at: nat, sizeAt: nat, pointersAt: nat, physAt: nat, ghost rest0: map<nat, nat>,
      ghost n: nat)
    requires m.Valid() && Arrays(rest0, m.rest, at, sizeAt, pointersAt, physAt, n)
    modifies m`rest, m.pages`live, m.pages`free, m.pages`hint, m.pages.entries
    ensures m.Valid() && m.rest == rest0
  {
    hide m.Valid, Plus;
    TakenBack(rest0, at, sizeAt, pointersAt, physAt, n);
    PlusHas(rest0[at := 1], sizeAt, pointersAt, physAt, n);
    FreeIfAny(m, physAt);
    FreeIfAny(m, pointersAt);
    FreeIfAny(m, sizeAt);
    FreeIfAny(m, at);
  }

  lemma PlusHas(rest: map<nat, nat>, a: nat, b: nat, c: nat, n: nat)
    requires a !in rest && b !in Plus(rest, a, n) && c !in Plus(Plus(rest, a, n), b, n)
    ensures var all := Plus(Plus(Plus(rest, a, n), b, n), c, n);
            && (c == 0 || c in all) && (b == 0 || b in all - {c}) && (a == 0 || a in all - {c} - {b})
            && forall x :: x in rest ==> x in all - {c} - {b} - {a}
  {
  }

  lemma DescriptorPages()
    ensures PageCount(DESCRIPTOR_BYTES) == 1
  {
  }

  // ------------------------------------------------------------- the arrays

  /** The runs of a descriptor that may not exist. */
  ghost function TrackRuns(mad: Tracking?): set<nat> {
    if mad == null then {} else {mad.at, mad.sizeAt, mad.pointersAt, mad.physAt}
  }

  lemma RunsOf(mad: Tracking, count: nat)
    ensures TrackingRuns(mad, count).Keys == TrackRuns(mad)
  {
  }

  /** The descriptor lists exactly `allocs` and its four runs are live. */
  ghost predicate TrackOk(mad: Tracking?, allocs: Allocations, rest: map<nat, nat>)
    reads mad
  {
    if mad == null then allocs == map[]
    else
      && Lists(mad.size, mad.pointers, mad.phys, allocs) && FourRuns(mad)
      && TrackRuns(mad) <= rest.Keys
  }

  ghost function Entries(mad: Tracking?): nat
    reads mad
  {
    if mad == null then 0 else |mad.size|
  }

  /** The first free entry, or the length of the arrays. */
  method FindFreeEntry(mad: Tracking) returns (i: nat)
    requires |mad.size| == |mad.pointers|
    ensures i <= |mad.size|
    ensures i < |mad.size| ==> mad.size[i] == 0 && mad.pointers[i] == 0
    ensures i == |mad.size| ==> forall k :: 0 <= k < i ==> mad.size[k] != 0 || mad.pointers[k] != 0
  {
    i := 0;
    while i < |mad.size|
      invariant i <= |mad.size|
      invariant forall k :: 0 <= k < i ==> mad.size[k] != 0 || mad.pointers[k] != 0
    {
      if mad.size[i] == 0 && mad.pointers[i] == 0 {
        return;
      }
      i := i + 1;
    }
  }

  /** A recorded allocation was freed and left its entry. */
  ghost predicate EntryFree(mad: Tracking?)
    reads mad
  {
    && mad != null && |mad.size| == |mad.pointers|
    && exists i :: 0 <= i < |mad.size| && mad.size[i] == 0 && mad.pointers[i] == 0
  }

  /** Records an allocation, in a free entry or in arrays grown by one. Null exactly if no
      entry and fewer than four pages are free, and then nothing has changed. */
  method AppendTaskMallocAllocationData(m: Memory, mad: Tracking?, virt: U32, phys: U32, size: U32,
      ghost allocs: Allocations)
    returns (r: Tracking?)
    requires m.Valid() && TrackOk(mad, allocs, m.rest) && Entries(mad) < MAX_ENTRIES
    requires virt != 0 && virt !in allocs && size != 0
    modifies m`rest, m.pages, m.pages.entries, mad
    ensures m.Valid()
    ensures r == null ==> m.rest == old(m.rest) && TrackOk(mad, allocs, m.rest) && Entries(mad) == old(Entries(mad))
    ensures r != null ==> TrackOk(r, allocs[virt := Allocation(phys, size)], m.rest)
    ensures r != null ==> m.rest - TrackRuns(r) == old(m.rest) - TrackRuns(mad)
    ensures r != null ==> Entries(r) <= old(Entries(mad)) + 1
    ensures r != null <==> old(EntryFree(mad)) || old(m.pages.free) >= 4
    ensures r != null ==> r == mad || fresh(r)
    ensures old(m.pages.refusals) <= m.pages.refusals
    ensures r != null <==> m.pages.refusals == old(m.pages.refusals)
  {
    hide m.Valid, Lists, ArrayPages, PageDown, m.Domains;
    if mad == null {
      r := NewTracking(m, 1);
      if r != null {
        ListsNothing(r.size, r.pointers, r.phys);
        ListsFill(r.size, r.pointers, r.phys, allocs, 0, virt, Allocation(phys, size));
        r.pointers := r.pointers[0 := virt];
        r.phys := r.phys[0 := phys];
        r.size := r.size[0 := size];
      }
      return;
    }
    ListsLengths(mad.size, mad.pointers, mad.phys, allocs);
    var i := FindFreeEntry(mad);
    if i < |mad.size| {
      ListsFill(mad.size, mad.pointers, mad.phys, allocs, i, virt, Allocation(phys, size));
      mad.pointers := mad.pointers[i := virt];
      mad.phys := mad.phys[i := phys];
      mad.size := mad.size[i := size];
      return mad;
    }
    r := GrowTracking(m, mad, virt, phys, size, allocs);
  }

  /** New runs beside old ones, and then without the old ones. */
  lemma RunsReplaced(rest: map<nat, nat>, added: map<nat, nat>, before: set<nat>)
    requires added.Keys !! rest.Keys && before <= rest.Keys
    ensures before <= (rest + added).Keys
    ensures added.Keys <= (rest + added - before).Keys
    ensures rest + added - before - added.Keys == rest - before
  {
  }

  /** The growing half: new arrays one longer, the old ones copied and freed. */
  method GrowTracking(m: Memory, mad: Tracking, virt: U32, phys: U32, size: U32, ghost allocs: Allocations)
    returns (r: Tracking?)
    requires m.Valid() && TrackOk(mad, allocs, m.rest) && Entries(mad) < MAX_ENTRIES
    requires virt != 0 && virt !in allocs && size != 0
    modifies m`rest, m.pages, m.pages.entries
    ensures m.Valid()
    ensures r == null ==> m.rest == old(m.rest)
    ensures r != null ==> fresh(r) && TrackOk(r, allocs[virt := Allocation(phys, size)], m.rest)
    ensures r != null ==> m.rest - TrackRuns(r) == old(m.rest) - TrackRuns(mad)
    ensures r != null ==> Entries(r) == Entries(mad) + 1
    ensures old(m.pages.refusals) <= m.pages.refusals
    ensures r != null <==> m.pages.refusals == old(m.pages.refusals)
    ensures r != null <==> old(m.pages.free) >= 4
  {
    hide m.Valid, Lists, ArrayPages, PageDown, TrackRuns, TrackingRuns, FourRuns, m.Domains;
    ListsLengths(mad.size, mad.pointers, mad.phys, allocs);
    var n := |mad.size|;
    r := NewTracking(m, n + 1);
    if r == null {
      return;
    }
    RunsReplaced(old(m.rest), TrackingRuns(r, n + 1), TrackRuns(mad));
    RunsOf(r, n + 1);
    CopyTracking(mad, r, virt, phys, size, allocs);
    FreeTracking(m, mad);
  }

  /** The old arrays copied into the new ones, and the new entry behind them. */
  method CopyTracking(mad: Tracking, r: Tracking, virt: U32, phys: U32, size: U32, ghost allocs: Allocations)
    requires mad != r && Lists(mad.size, mad.pointers, mad.phys, allocs)
    requires r.size == r.pointers == r.phys == Zeros(|mad.size| + 1)
    requires virt != 0 && virt !in allocs && size != 0
    modifies r
    ensures Lists(r.size, r.pointers, r.phys, allocs[virt := Allocation(phys, size)]) && |r.size| == |mad.size| + 1
  {
    hide Lists;
    ListsLengths(mad.size, mad.pointers, mad.phys, allocs);
    var n := |mad.size|;
    r.size := mad.size + r.size[n..];
    r.pointers := mad.pointers + r.pointers[n..];
    r.phys := mad.phys + r.phys[n..];
    assert r.size == mad.size + [0] && r.pointers == mad.pointers + [0] && r.phys == mad.phys + [0];
    ListsGrow(mad.size, mad.pointers, mad.phys, allocs);
    ListsFill(r.size, r.pointers, r.phys, allocs, n, virt, Allocation(phys, size));
    r.pointers := r.pointers[n := virt];
    r.phys := r.phys[n := phys];
    r.size := r.size[n := size];
  }

  /** KFree of the arrays and the descriptor. */
  method FreeTracking(m: Memory, mad: Tracking)
    requires m.Valid() && FourRuns(mad) && TrackRuns(mad) <= m.rest.Keys
    modifies m`rest, m.pages`live, m.pages`free, m.pages`hint, m.pages.entries
    ensures m.Valid() && m.rest == old(m.rest) - TrackRuns(mad)
  {
    hide m.Valid;
    var r := m.GiveBack(mad.pointersAt);
    r := m.GiveBack(mad.physAt);
    r := m.GiveBack(mad.sizeAt);
    r := m.GiveBack(mad.at);
  }

  // -------------------------------------------------------------------- tasks

  /** struct Task. Pointers are kalloc addresses, 0 for NULL. */
  class Task {
    const block: nat
    const pid: int
    var name: nat
    var userStack: nat
    var start: nat
    var frame: Frame
    var space: nat
    var heapCurrent: nat
    var mad: Tracking?
    var tick: nat
    var next: Task?
    var running: bool
    var waiting: bool
    var waitTarget: int
    var ring0: bool

    /** The live heap allocations. */
    ghost var allocs: Allocations

    /** A zeroed structure as CreateTask fills it in. */
    constructor (block: nat, pid: int, name: nat, start: nat)
      ensures this.block == block && this.pid == pid && this.name == name && this.start == start
      ensures userStack == 0 && frame == NoFrame && space == KERNEL && heapCurrent == USER_HEAP_BASE && mad == null
      ensures tick == 0 && next == null && !running && !waiting && waitTarget == 0 && !ring0 && allocs == map[]
    {
      this.block, this.pid, this.name, this.start := block, pid, name, start;
      userStack, frame, space, heapCurrent, mad := 0, NoFrame, KERNEL, USER_HEAP_BASE, null;
      tick, next, running, waiting, waitTarget, ring0, allocs := 0, null, false, false, 0, false, map[];
    }
  }

  /** The runs the heap of a task holds. */
  ghost function HeapOwned(t: Task): set<nat>
    reads t`mad, t`allocs
  {
    TrackRuns(t.mad) + HeapRuns(t.allocs)
  }

  /** The heap of a task against the state of the memory. */
  ghost predicate HeapValid(t: Task, m: Memory)
    reads t`space, t`heapCurrent, t`allocs, t`mad, t.mad, m`spaces, m`flat, m`rest
  {
    HeapOk(t.space, t.allocs, t.heapCurrent, m.flat, m.rest) && HeapFits(t, m.spaces, m.rest)
  }

  /** The same, but for the page map. */
  ghost predicate HeapFits(t: Task, spaces: Spaces, rest: map<nat, nat>)
    reads t`space, t`heapCurrent, t`allocs, t`mad, t.mad
  {
    && TrackOk(t.mad, t.allocs, rest) && TrackRuns(t.mad) !! HeapRuns(t.allocs)
    && Entries(t.mad) * PAGE_SIZE <= t.heapCurrent - USER_HEAP_BASE
    && t.space in spaces && |spaces[t.space].owned| == PAGE_ENTRIES
    && (t.heapCurrent > USER_HEAP_BASE ==> t.space != KERNEL && spaces[t.space].owned[1])
  }

  lemma FitsFacts(t: Task, spaces: Spaces, rest: map<nat, nat>)
    requires HeapFits(t, spaces, rest)
    ensures t.space in spaces && |spaces[t.space].owned| == PAGE_ENTRIES && TrackRuns(t.mad) <= rest.Keys
    ensures TrackOk(t.mad, t.allocs, rest) && TrackRuns(t.mad) !! HeapRuns(t.allocs)
    ensures Entries(t.mad) * PAGE_SIZE <= t.heapCurrent - USER_HEAP_BASE
  {
    hide Lists;
  }

  lemma FitsStill(t: Task, spaces: Spaces, spaces': Spaces, rest: map<nat, nat>, phys: nat)
    requires HeapFits(t, spaces, rest) && OwnsMore(spaces, spaces', t.space)
    ensures HeapFits(t, spaces', rest)
    ensures phys !in HeapOwned(t) ==> HeapFits(t, spaces', rest - {phys})
  {
    hide Lists;
    OwnedStays(spaces, spaces', t.space, 1);
  }

  /** The heap window as pages. */
  predicate HeapPage(p: nat) {
    USER_HEAP_BASE / PAGE_SIZE <= p < USER_HEAP_END / PAGE_SIZE
  }

  /** Outside the heap window of one space the map is as before. */
  ghost predicate OnlyHeapMoved(m: PageMap, n: PageMap, space: nat) {
    SameButRange(m, n, space, USER_HEAP_BASE / PAGE_SIZE, USER_HEAP_END / PAGE_SIZE)
  }

  /** A heap range in pages, and where it lies. */
  lemma HeapRange(virt: U32, bytes: U32)
    requires USER_HEAP_BASE <= virt && virt % PAGE_SIZE == 0 && bytes % PAGE_SIZE == 0 && virt + bytes <= USER_HEAP_END
    ensures FirstPage(virt) == virt / PAGE_SIZE && EndPage(virt, bytes) == (virt + bytes) / PAGE_SIZE
    ensures FirstPage(virt) + bytes / PAGE_SIZE == EndPage(virt, bytes)
    ensures forall u :: FirstPage(virt) <= u < EndPage(virt, bytes) ==>
      HeapPage(u) && !InWindows(u) && u / PAGE_ENTRIES == 1
    ensures InOneTable(FirstPage(virt), EndPage(virt, bytes))
    ensures bytes > 0 ==> FirstPage(virt) < EndPage(virt, bytes) && FirstPage(virt) / PAGE_ENTRIES == 1
  {
  }

  lemma Aligned(phys: nat)
    requires PageDown(phys) == phys
    ensures phys % PAGE_SIZE == 0
  {
  }

  lemma MappedMoves(m: PageMap, space: nat, first: nat, end: nat, phys: U32)
    requires HeapWindow(first, end)
    ensures OnlyHeapMoved(m, MappedTo(m, space, first, end, phys, RW_USER), space)
    ensures SamePages(m, MappedTo(m, space, first, end, phys, RW_USER), space, USER_HEAP_BASE / PAGE_SIZE, first)
  {
  }

  lemma UnmappedMoves(m: PageMap, space: nat, first: nat, end: nat, owned: seq<bool>)
    requires HeapWindow(first, end) && |owned| == PAGE_ENTRIES
    ensures OnlyHeapMoved(m, Unmapped(m, space, first, end, owned), space)
  {
  }

  predicate HeapWindow(first: nat, end: nat) {
    USER_HEAP_BASE / PAGE_SIZE <= first && end <= USER_HEAP_END / PAGE_SIZE
  }

  /** Removing two sets of runs, one after the other. */
  lemma MinusBoth(rest: map<nat, nat>, a: set<nat>, b: set<nat>)
    ensures rest - (a + b) == rest - a - b
  {
  }

  /** What the new tracking runs and the new allocation leave to the others. */
  lemma GrownOthers(rest: map<nat, nat>, rest': map<nat, nat>, track: set<nat>, track': set<nat>, heap: set<nat>,
      phys: nat)
    requires rest' - track' == rest - track
    requires heap <= rest.Keys && track !! heap && phys in rest && phys !in track
    ensures rest' - (track' + (heap + {phys})) == rest - (track + heap) - {phys}
    ensures track' !! heap + {phys}
    ensures forall a :: a in heap + {phys} ==> a in rest' && rest'[a] == rest[a]
  {
    forall a | a in heap + {phys} ensures a !in track' && a in rest' && rest'[a] == rest[a] {
      assert a in rest - track;
      assert a in rest' - track' && (rest' - track')[a] == (rest - track)[a];
    }
    MinusBoth(rest', track', heap + {phys});
    MinusBoth(rest, track, heap + {phys});
    MinusBoth(rest, track + heap, {phys});
    assert track + (heap + {phys}) == track + heap + {phys};
  }

  /** The page a space's heap needs for its table. */
  function TablePages(spaces: Spaces, space: nat): nat {
    if OwnsTable(spaces, space, 1) then 0 else 1
  }

  /** With `free` pages left, a run can be mapped at the end of the heap. */
  predicate Maps(t: Task, m: Memory, free: int)
    reads t`space, m`spaces
  {
    t.space != KERNEL && TablePages(m.spaces, t.space) <= free
  }

  /** With `free` pages left before it is mapped, a run can be recorded: an entry is free, or
      there is a page for a descriptor and one for each of three arrays. */
  ghost predicate Records(t: Task, m: Memory, free: int)
    reads t`space, t`mad, t.mad, m`spaces
  {
    EntryFree(t.mad) || TablePages(m.spaces, t.space) + 4 <= free
  }

  /** The map a failed malloc leaves: the whole range behind the heap cleared, if it had been
      mapped already, and otherwise the old map. */
  ghost function AfterFailure(m: PageMap, space: nat, heapCurrent: nat, bytes: nat, undone: bool): PageMap {
    if undone then Blanked(m, space, heapCurrent / PAGE_SIZE, (heapCurrent + bytes) / PAGE_SIZE) else m
  }

  lemma BlankedMoves(m: PageMap, space: nat, first: nat, end: nat)
    requires HeapWindow(first, end)
    ensures OnlyHeapMoved(m, Blanked(m, space, first, end), space)
    ensures SamePages(m, Blanked(m, space, first, end), space, USER_HEAP_BASE / PAGE_SIZE, first)
  {
  }

  /** Revoking what has just been mapped leaves cleared leaves, whatever was there before. */
  lemma UnmappedIsBlanked(m: PageMap, space: nat, first: nat, end: nat, phys: U32, owned: seq<bool>)
    requires HeapWindow(first, end) && |owned| == PAGE_ENTRIES && owned[1]
    ensures Unmapped(MappedTo(m, space, first, end, phys, RW_USER), space, first, end, owned)
      == Blanked(m, space, first, end)
  {
    hide MakeEntry, Add32, PageDown;
  }

  /** The second half of SchedTaskMalloc: maps a run at the end of the heap and records it. */
  method MapAllocation(t: Task, m: Memory, phys: U32, bytes: U32) returns (r: U32)
    requires m.Valid() && HeapValid(t, m)
    requires phys in m.rest && m.rest[phys] == bytes / PAGE_SIZE && PageDown(phys) == phys && phys !in HeapOwned(t)
    requires bytes > 0 && bytes % PAGE_SIZE == 0 && t.heapCurrent + bytes <= USER_HEAP_END
    modifies t`heapCurrent, t`mad, t`allocs, t.mad
    modifies m`tables, m`spaces, m`flat, m`rest, m`held, m.pages, m.pages.entries
    ensures m.Valid() && HeapValid(t, m)
    ensures r == 0 ==> t.allocs == old(t.allocs) && t.heapCurrent == old(t.heapCurrent) && t.mad == old(t.mad)
    ensures r == 0 ==>
      m.flat == AfterFailure(old(m.flat), t.space, t.heapCurrent, bytes, old(Maps(t, m, m.pages.free)))
    ensures r != 0 ==> r == old(t.heapCurrent) && t.heapCurrent == r + bytes
    ensures r != 0 ==> t.allocs == old(t.allocs)[r := Allocation(phys, bytes)]
    ensures r != 0 <==> old(Maps(t, m, m.pages.free) && Records(t, m, m.pages.free))
    ensures old(m.pages.refusals) <= m.pages.refusals
    ensures r != 0 <==> t.space != KERNEL && m.pages.refusals == old(m.pages.refusals)
    ensures t.mad == old(t.mad) || fresh(t.mad)
    ensures m.rest - HeapOwned(t) == old(m.rest) - old(HeapOwned(t)) - {phys}
    ensures t.space == KERNEL ==> m.held == old(m.held)
    ensures OnlyHeapMoved(old(m.flat), m.flat, t.space) && m.held - {t.space} == old(m.held) - {t.space}
    ensures OwnsMore(old(m.spaces), m.spaces, t.space)
  {
    hide m.Valid, HeapOk, HeapFits, MappedTo, PageDown, OnlyHeapMoved, SamePages, OwnsMore, OwnsTable, Blanked,
      HeapOwned, EntryFree, m.Domains;
    var virt := t.heapCurrent;
    HeapParts(t.space, t.allocs, virt, m.flat, m.rest);
    FitsFacts(t, m.spaces, m.rest);
    ghost var flat0 := m.flat;
    var ok := MapHeapRange(m, t.space, virt, phys, bytes);
    FitsStill(t, old(m.spaces), m.spaces, m.rest, phys);
    if !ok {
      NothingMoved(flat0, t.space);
      OthersWithout(m.rest, HeapOwned(t), phys);
      r := RefuseAllocation(t, m, phys, m.flat);
      return r;
    }
    r := RecordAllocation(t, m, phys, bytes, flat0);
  }

  /** PagingMapUserPhysicalRange on a heap range, which lies in one table: all of it or nothing. */
  method MapHeapRange(m: Memory, space: nat, virt: U32, phys: U32, bytes: U32) returns (ok: bool)
    requires m.Valid() && space in m.spaces && PageDown(phys) == phys && bytes > 0 && bytes % PAGE_SIZE == 0
    requires USER_HEAP_BASE <= virt && virt % PAGE_SIZE == 0 && virt + bytes <= USER_HEAP_END
    modifies m`tables, m`spaces, m`flat, m`rest, m`held, m.pages, m.pages.entries
    ensures m.Valid() && m.rest == old(m.rest) && m.held - {space} == old(m.held) - {space}
    ensures OwnsMore(old(m.spaces), m.spaces, space) && (space == KERNEL ==> m.held == old(m.held))
    ensures m.flat ==
      if ok then MappedTo(old(m.flat), space, virt / PAGE_SIZE, (virt + bytes) / PAGE_SIZE, phys, RW_USER)
      else old(m.flat)
    ensures ok ==> OwnsTable(m.spaces, space, 1) && |m.spaces[space].owned| == PAGE_ENTRIES
    ensures ok ==> forall p: nat :: p < VPAGES ==> (space, p) in old(m.flat)
    ensures ok <==> space != KERNEL && TablePages(old(m.spaces), space) <= old(m.pages.free)
    ensures ok ==> m.pages.free == old(m.pages.free) - TablePages(old(m.spaces), space)
    ensures old(m.pages.refusals) <= m.pages.refusals
    ensures ok <==> space != KERNEL && m.pages.refusals == old(m.pages.refusals)
  {
    hide m.Valid, MappedTo, PageDown, OwnsMore, IsOwnedRange, IsRange, InOneTable, FirstPage, EndPage, OwnsPages,
      OwnsTable, IsStop, TablesMissing, TablePages, m.Domains;
    HeapRange(virt, bytes);
    m.PagesOfSpace(space);
    m.NoSpaceIsNull();
    HeapIsRange(m.spaces, space, virt, phys, bytes);
    HeapMissing(m.spaces, space, FirstPage(virt), EndPage(virt, bytes));
    MappedNone(m.flat, space, FirstPage(virt), phys, RW_USER);
    ghost var spaces0 := m.spaces;
    var r, done := m.PagingMapUserPhysicalRange(space, virt, phys, bytes, true);
    if space != KERNEL {
      StopIs(r, spaces0, space, FirstPage(virt), done, EndPage(virt, bytes), old(m.pages.free));
    }
    if r == 0 {
      assert FirstPage(virt) + done == EndPage(virt, bytes);
      HeapTableIsOwned(m.spaces, space, virt, bytes);
    } else {
      assert FirstPage(virt) + done == FirstPage(virt);
    }
    return r == 0;
  }

  /** A heap range is one the mapping accepts. */
  lemma HeapIsRange(spaces: Spaces, space: nat, virt: U32, phys: U32, bytes: U32)
    requires USER_HEAP_BASE <= virt && virt % PAGE_SIZE == 0 && bytes % PAGE_SIZE == 0 && virt + bytes <= USER_HEAP_END
    requires PageDown(phys) == phys && bytes > 0 && space in spaces && 0 !in spaces
    ensures IsRange(space, virt, phys, bytes) <==> space != KERNEL
    ensures IsOwnedRange(spaces, space, virt, phys, bytes) <==> space != KERNEL && OwnsTable(spaces, space, 1)
  {
    HeapRange(virt, bytes);
    Aligned(phys);
  }

  /** A heap range lies in one table. */
  lemma HeapMissing(spaces: Spaces, space: nat, first: nat, end: nat)
    requires first < end && InOneTable(first, end) && first / PAGE_ENTRIES == 1
    ensures TablesMissing(spaces, space, first, end) == TablePages(spaces, space)
  {
    OneTableMissing(spaces, space, first, end);
  }

  lemma StopIs(r: int, spaces: Spaces, s: nat, start: nat, done: nat, end: nat, free: nat)
    requires IsStop(r, spaces, s, start, done, end, free)
    ensures r == 0 <==> TablesMissing(spaces, s, start, end) <= free
  {
  }

  lemma HeapTableIsOwned(spaces: Spaces, space: nat, virt: U32, bytes: U32)
    requires USER_HEAP_BASE <= virt && virt % PAGE_SIZE == 0 && bytes % PAGE_SIZE == 0 && virt + bytes <= USER_HEAP_END
    requires bytes > 0 && OwnsPages(spaces, space, FirstPage(virt), EndPage(virt, bytes))
    ensures |spaces[space].owned| == PAGE_ENTRIES && OwnsTable(spaces, space, 1)
  {
    HeapRange(virt, bytes);
    assert spaces[space].owned[FirstPage(virt) / PAGE_ENTRIES];
  }

  /** No memory to record the run: the mapping is revoked and the run given back. */
  method UndoMapping(t: Task, m: Memory, phys: U32, bytes: U32, ghost flat0: PageMap) returns (r: U32)
    requires m.Valid() && HeapFits(t, m.spaces, m.rest) && HeapOk(t.space, t.allocs, t.heapCurrent, flat0, m.rest)
    requires phys in m.rest && phys !in HeapOwned(t) && OwnsTable(m.spaces, t.space, 1)
    requires bytes > 0 && bytes % PAGE_SIZE == 0 && t.heapCurrent + bytes <= USER_HEAP_END && t.space != KERNEL
    requires m.flat ==
      MappedTo(flat0, t.space, t.heapCurrent / PAGE_SIZE, (t.heapCurrent + bytes) / PAGE_SIZE, phys, RW_USER)
    modifies m`tables, m`flat, m`rest, m`held, m.pages`live, m.pages`free, m.pages`hint, m.pages.entries
    ensures m.Valid() && HeapValid(t, m) && r == 0 && m.rest == old(m.rest) - {phys}
    ensures m.flat == AfterFailure(flat0, t.space, t.heapCurrent, bytes, true)
    ensures OnlyHeapMoved(flat0, m.flat, t.space) && m.held - {t.space} == old(m.held) - {t.space}
  {
    hide m.Valid, HeapOk, HeapFits, MappedTo, Unmapped, PageDown, OnlyHeapMoved, SamePages, Blanked;
    var virt := t.heapCurrent;
    HeapParts(t.space, t.allocs, virt, flat0, m.rest);
    HeapRange(virt, bytes);
    FitsFacts(t, m.spaces, m.rest);
    UnmappedIsBlanked(flat0, t.space, FirstPage(virt), EndPage(virt, bytes), phys, m.spaces[t.space].owned);
    BlankedMoves(flat0, t.space, FirstPage(virt), EndPage(virt, bytes));
    var ok := m.PagingUnmapUserRange(t.space, virt, bytes);
    r := RefuseAllocation(t, m, phys, flat0);
  }

  /** Records the run that has just been mapped at the end of the heap, or undoes the mapping. */
  method RecordAllocation(t: Task, m: Memory, phys: U32, bytes: U32, ghost flat0: PageMap) returns (r: U32)
    requires m.Valid() && HeapFits(t, m.spaces, m.rest) && HeapOk(t.space, t.allocs, t.heapCurrent, flat0, m.rest)
    requires phys in m.rest && m.rest[phys] == bytes / PAGE_SIZE && PageDown(phys) == phys && phys !in HeapOwned(t)
    requires bytes > 0 && bytes % PAGE_SIZE == 0 && t.heapCurrent + bytes <= USER_HEAP_END
    requires t.space != KERNEL && OwnsTable(m.spaces, t.space, 1)
    requires forall p: nat :: p < VPAGES ==> (t.space, p) in flat0
    requires m.flat ==
      MappedTo(flat0, t.space, t.heapCurrent / PAGE_SIZE, (t.heapCurrent + bytes) / PAGE_SIZE, phys, RW_USER)
    modifies t`heapCurrent, t`mad, t`allocs, t.mad
    modifies m`tables, m`flat, m`rest, m`held, m.pages, m.pages.entries
    ensures m.Valid() && HeapValid(t, m)
    ensures r == 0 ==> t.allocs == old(t.allocs) && t.heapCurrent == old(t.heapCurrent) && t.mad == old(t.mad)
    ensures r == 0 ==> m.flat == AfterFailure(flat0, t.space, t.heapCurrent, bytes, true)
    ensures r != 0 ==> r == old(t.heapCurrent) && t.heapCurrent == r + bytes
    ensures r != 0 ==> t.allocs == old(t.allocs)[r := Allocation(phys, bytes)]
    ensures r != 0 <==> old(EntryFree(t.mad)) || old(m.pages.free) >= 4
    ensures old(m.pages.refusals) <= m.pages.refusals && (r != 0 <==> m.pages.refusals == old(m.pages.refusals))
    ensures t.mad == old(t.mad) || fresh(t.mad)
    ensures m.rest - HeapOwned(t) == old(m.rest) - old(HeapOwned(t)) - {phys}
    ensures OnlyHeapMoved(flat0, m.flat, t.space) && m.held - {t.space} == old(m.held) - {t.space}
  {
    hide m.Valid, HeapOk, Lists, MappedTo, PageDown, OnlyHeapMoved, HeapRuns, Placed, BackedBy, TrackRuns, TrackOk,
      AfterFailure, EntryFree, SamePages, m.Domains;
    var virt := t.heapCurrent;
    HeapParts(t.space, t.allocs, virt, flat0, m.rest);
    FitsFacts(t, m.spaces, m.rest);
    CurrentIsNew(t.allocs, virt);
    HeapRange(virt, bytes);
    ghost var flat1, rest0 := m.flat, m.rest;
    MappedMoves(flat0, t.space, FirstPage(virt), EndPage(virt, bytes), phys);
    var mad := AppendTaskMallocAllocationData(m, t.mad, virt, phys, bytes, t.allocs);
    if mad == null {
      r := UndoMapping(t, m, phys, bytes, flat0);
      return r;
    }
    CommitAllocation(t, m, mad, phys, bytes, flat0, rest0);
    return virt;
  }

  /** A mapped and recorded run becomes an allocation of the task. */
  method CommitAllocation(t: Task, m: Memory, mad: Tracking, phys: U32, bytes: U32, ghost flat0: PageMap,
      ghost rest0: map<nat, nat>)
    requires m.Valid() && HeapOk(t.space, t.allocs, t.heapCurrent, flat0, rest0)
    requires TrackRuns(t.mad) <= rest0.Keys && TrackRuns(t.mad) !! HeapRuns(t.allocs)
    requires TrackOk(mad, t.allocs[t.heapCurrent := Allocation(phys, bytes)], m.rest)
      && m.rest - TrackRuns(mad) == rest0 - TrackRuns(t.mad)
    requires Entries(mad) * PAGE_SIZE <= t.heapCurrent + bytes - USER_HEAP_BASE
    requires phys in rest0 && rest0[phys] == bytes / PAGE_SIZE && PageDown(phys) == phys && phys !in HeapOwned(t)
    requires bytes > 0 && bytes % PAGE_SIZE == 0 && t.heapCurrent + bytes <= USER_HEAP_END
    requires t.space in m.spaces && t.space != KERNEL && |m.spaces[t.space].owned| == PAGE_ENTRIES
      && m.spaces[t.space].owned[1]
    requires forall p: nat :: p < VPAGES ==> (t.space, p) in flat0
    requires m.flat ==
      MappedTo(flat0, t.space, t.heapCurrent / PAGE_SIZE, (t.heapCurrent + bytes) / PAGE_SIZE, phys, RW_USER)
    modifies t`heapCurrent, t`mad, t`allocs
    ensures m.Valid() && HeapValid(t, m) && t.mad == mad && t.heapCurrent == old(t.heapCurrent) + bytes
    ensures t.allocs == old(t.allocs)[old(t.heapCurrent) := Allocation(phys, bytes)]
    ensures m.rest - HeapOwned(t) == rest0 - old(HeapOwned(t)) - {phys}
  {
    hide m.Valid, HeapOk, Lists, MappedTo, PageDown, HeapRuns, Placed, BackedBy, TrackRuns;
    var virt := t.heapCurrent;
    HeapParts(t.space, t.allocs, virt, flat0, rest0);
    CurrentIsNew(t.allocs, virt);
    GrownOthers(rest0, m.rest, TrackRuns(t.mad), TrackRuns(mad), HeapRuns(t.allocs), phys);
    HeapGrows(t.space, t.allocs, virt, flat0, rest0, m.flat, m.rest, phys, bytes);
    HeapRunsWith(t.allocs, virt, Allocation(phys, bytes));
    t.mad := mad;
    t.allocs := t.allocs[virt := Allocation(phys, bytes)];
    t.heapCurrent := t.heapCurrent + bytes;
  }

  lemma HeapParts(space: nat, allocs: Allocations, heapCurrent: nat, flat: PageMap, rest: map<nat, nat>)
    requires HeapOk(space, allocs, heapCurrent, flat, rest)
    ensures Placed(allocs, heapCurrent) && HeapRuns(allocs) <= rest.Keys
    ensures USER_HEAP_BASE <= heapCurrent <= USER_HEAP_END && heapCurrent % PAGE_SIZE == 0
  {
  }

  lemma NothingMoved(m: PageMap, space: nat)
    ensures OnlyHeapMoved(m, m, space)
    ensures forall first, end :: SamePages(m, m, space, first, end)
  {
  }

  lemma OthersWithout(rest: map<nat, nat>, mine: set<nat>, a: nat)
    ensures rest - {a} - mine == rest - mine - {a}
  {
  }

  /** A failed malloc gives its run back; pages past the heap may have changed. */
  method RefuseAllocation(t: Task, m: Memory, phys: U32, ghost flat0: PageMap) returns (r: U32)
    requires m.Valid() && phys in m.rest && phys !in HeapOwned(t) && HeapFits(t, m.spaces, m.rest)
    requires HeapOk(t.space, t.allocs, t.heapCurrent, flat0, m.rest)
    requires SamePages(flat0, m.flat, t.space, USER_HEAP_BASE / PAGE_SIZE, t.heapCurrent / PAGE_SIZE)
    modifies m`rest, m.pages`live, m.pages`free, m.pages`hint, m.pages.entries
    ensures m.Valid() && r == 0 && m.rest == old(m.rest) - {phys}
    ensures HeapValid(t, m)
  {
    hide m.Valid, HeapOk, HeapFits, OwnsMore;
    OwnsItself(m.spaces, t.space);
    FitsStill(t, m.spaces, m.spaces, m.rest, phys);
    HeapFrame(t.space, t.allocs, t.heapCurrent, flat0, m.rest, m.flat, m.rest - {phys});
    var f := m.GiveBack(phys);
    return 0;
  }

  /** The map shows the same pages of `s` in [first, end). */
  ghost predicate SamePages(m: PageMap, n: PageMap, s: nat, first: nat, end: nat) {
    forall p: nat :: first <= p < end && (s, p) in m ==> (s, p) in n && n[(s, p)] == m[(s, p)]
  }

  // ------------------------------------------------------------- system calls

  /** A heap as a value: what the task structure holds of it. */
  datatype Heap = Heap(space: nat, current: nat, allocs: Allocations, track: set<nat>)

  ghost function HeapOf(t: Task): Heap
    reads t`space, t`heapCurrent, t`allocs, t`mad
  {
    Heap(t.space, t.heapCurrent, t.allocs, TrackRuns(t.mad))
  }

  /** The arrays list the allocations; this does not depend on the memory. */
  ghost predicate Tracked(t: Task)
    reads t`heapCurrent, t`allocs, t`mad, t.mad
  {
    && Entries(t.mad) * PAGE_SIZE <= t.heapCurrent - USER_HEAP_BASE
    && (t.mad == null ==> t.allocs == map[])
    && (t.mad != null ==> Lists(t.mad.size, t.mad.pointers, t.mad.phys, t.allocs) && FourRuns(t.mad))
  }

  /** The heap against the state of the memory. */
  ghost predicate HeapIn(h: Heap, spaces: Spaces, flat: PageMap, rest: map<nat, nat>) {
    && HeapOk(h.space, h.allocs, h.current, flat, rest)
    && h.track <= rest.Keys && h.track !! HeapRuns(h.allocs)
    && h.space in spaces && |spaces[h.space].owned| == PAGE_ENTRIES
    && (h.current > USER_HEAP_BASE ==> h.space != KERNEL && spaces[h.space].owned[1])
  }

  ghost function RunsOfHeap(h: Heap): set<nat> {
    h.track + HeapRuns(h.allocs)
  }

  lemma HeapValidIs(t: Task, m: Memory)
    ensures HeapValid(t, m) <==> Tracked(t) && HeapIn(HeapOf(t), m.spaces, m.flat, m.rest)
    ensures HeapOwned(t) == RunsOfHeap(HeapOf(t))
  {
  }

  /** Taking a run, or giving back one that is not the heap's, leaves the heap alone. */
  lemma HeapIgnores(h: Heap, spaces: Spaces, flat: PageMap, rest: map<nat, nat>, a: nat, count: nat)
    requires HeapIn(h, spaces, flat, rest)
    ensures RunsOfHeap(h) <= rest.Keys
    ensures a !in rest ==>
      HeapIn(h, spaces, flat, rest[a := count]) && rest[a := count] - RunsOfHeap(h) - {a} == rest - RunsOfHeap(h)
    ensures a !in RunsOfHeap(h) ==>
      HeapIn(h, spaces, flat, rest - {a}) && rest - {a} - RunsOfHeap(h) == rest - RunsOfHeap(h) - {a}
  {
  }

  lemma BytesOf(size: U32)
    ensures PageAlignUp(PageAlignUp(size)) == PageAlignUp(size)
    ensures PageCount(PageAlignUp(size)) == PageCount(size) && PageAlignUp(size) == PAGE_SIZE * PageCount(size)
    ensures PageAlignUp(size) % PAGE_SIZE == 0 && PageCount(0) == 0
    ensures PageCount(size) > MAX_RUN ==> PageAlignUp(size) > USER_HEAP_END
    ensures PageCount(size) > 0 ==> PageAlignUp(size) == 4096 * ((size + 4095) / 4096)
  {
  }

  /** A malloc that got a run it has no room for. */
  method RefuseRun(m: Memory, phys: U32, ghost before: Pages, ghost count: nat)
    requires m.pages.Valid() && Structured(before) && AllocStep(before, m.pages.Pages(), count, phys)
    requires count <= MAX_RUN ==> m.Valid() && phys in m.rest
    modifies m`rest, m.pages`live, m.pages`free, m.pages`hint, m.pages.entries
    ensures m.Valid() <==> count <= MAX_RUN
    ensures m.Valid() ==> m.rest == old(m.rest) - {phys}
    ensures !m.Valid() ==> m.rest == old(m.rest)
  {
    hide Structured;
    AllocKeepsStructure(before, m.pages.Pages(), count, phys);
    if count > MAX_RUN {
      TooLongLeaks(before, PageOf(phys), count);
      assert IsParent(m.pages.Pages(), PageOf(phys)) by {
        ParentKind(count);
      }
    }
    var r := m.GiveBackAny(phys);
  }

  /** A task without a heap, as the root is: every malloc by it fails at the window check. */
  ghost predicate NoHeap(t: Task)
    reads t`heapCurrent, t`allocs, t`mad
  {
    t.heapCurrent < USER_HEAP_BASE && t.mad == null && t.allocs == map[]
  }

  /** The heap window of a user space has room for the request. */
  predicate HasRoom(t: Task, bytes: nat)
    reads t`space, t`heapCurrent
  {
    t.space != KERNEL && USER_HEAP_BASE <= t.heapCurrent && t.heapCurrent + bytes <= USER_HEAP_END
  }

  /** The window check of SchedTaskMalloc, on a run it has just taken. */
  method PlaceRun(t: Task, m: Memory, phys: U32, bytes: U32, ghost before: Pages) returns (r: U32)
    requires HeapValid(t, m) || NoHeap(t)
    requires m.pages.Valid() && Structured(before) && AllocStep(before, m.pages.Pages(), bytes / PAGE_SIZE, phys)
    requires bytes > 0 && bytes % PAGE_SIZE == 0 && PageDown(phys) == phys
    requires bytes / PAGE_SIZE <= MAX_RUN ==> phys !in HeapOwned(t)
    requires bytes / PAGE_SIZE <= MAX_RUN ==> m.Valid() && phys in m.rest && m.rest[phys] == bytes / PAGE_SIZE
    modifies t`heapCurrent, t`mad, t`allocs, t.mad
    modifies m`tables, m`spaces, m`flat, m`rest, m`held, m.pages, m.pages.entries
    ensures m.Valid() <==> bytes / PAGE_SIZE <= MAX_RUN
    ensures old(HeapValid(t, m)) ==> HeapValid(t, m)
    ensures old(NoHeap(t)) ==> m.flat == old(m.flat) && m.spaces == old(m.spaces) && m.held == old(m.held)
    ensures r == 0 ==> t.allocs == old(t.allocs) && t.heapCurrent == old(t.heapCurrent) && t.mad == old(t.mad)
    ensures r == 0 ==>
      m.flat ==
        AfterFailure(old(m.flat), t.space, t.heapCurrent, bytes, old(HasRoom(t, bytes) && Maps(t, m, m.pages.free)))
    ensures r != 0 ==> m.Valid() && r == old(t.heapCurrent) && t.heapCurrent == r + bytes
    ensures r != 0 ==> t.allocs == old(t.allocs)[r := Allocation(phys, bytes)]
    ensures r != 0 <==> old(HasRoom(t, bytes) && Maps(t, m, m.pages.free) && Records(t, m, m.pages.free))
    ensures old(m.pages.refusals) <= m.pages.refusals
    ensures r != 0 <==> old(HasRoom(t, bytes)) && m.pages.refusals == old(m.pages.refusals)
    ensures t.mad == old(t.mad) || fresh(t.mad)
    ensures m.Valid() ==> m.rest - HeapOwned(t) == old(m.rest) - old(HeapOwned(t)) - {phys}
    ensures t.space == KERNEL ==> m.held == old(m.held)
    ensures OnlyHeapMoved(old(m.flat), m.flat, t.space) && m.held - {t.space} == old(m.held) - {t.space}
    ensures OwnsMore(old(m.spaces), m.spaces, t.space)
  {
    hide m.Valid, HeapValid, HeapIn, OnlyHeapMoved, Structured, AllocStep, Tracked, PageDown, HeapOwned, RunsOfHeap,
      EntryFree, OwnsMore, OwnsTable, Blanked, m.Domains;
    NothingMoved(m.flat, t.space);
    OwnsItself(m.spaces, t.space);
    NothingOwned(t, m.rest);
    if HeapValid(t, m) {
      HeapValidIs(t, m);
      HeapInWindow(HeapOf(t), m.spaces, m.flat, m.rest);
    }
    var virt := t.heapCurrent;
    if virt < USER_HEAP_BASE || Add32(virt, bytes) > USER_HEAP_END || Add32(virt, bytes) < virt {
      PlaceNowhere(t, m, phys, before, bytes / PAGE_SIZE);
      return 0;
    }
    r := MapAllocation(t, m, phys, bytes);
  }

  /** A run the window has no room for goes back. */
  method PlaceNowhere(t: Task, m: Memory, phys: U32, ghost before: Pages, ghost count: nat)
    requires HeapValid(t, m) || NoHeap(t)
    requires m.pages.Valid() && Structured(before) && AllocStep(before, m.pages.Pages(), count, phys)
    requires count <= MAX_RUN ==> phys !in HeapOwned(t) && m.Valid() && phys in m.rest
    modifies m`rest, m.pages`live, m.pages`free, m.pages`hint, m.pages.entries
    ensures m.Valid() <==> count <= MAX_RUN
    ensures old(HeapValid(t, m)) ==> HeapValid(t, m)
    ensures m.Valid() ==> m.rest - HeapOwned(t) == old(m.rest) - HeapOwned(t) - {phys}
  {
    hide m.Valid, HeapValid, HeapIn, Structured, AllocStep, Tracked, HeapOwned, RunsOfHeap;
    NothingOwned(t, m.rest - {phys});
    NothingOwned(t, m.rest);
    ghost var valid := HeapValid(t, m);
    HeapValidIs(t, m);
    if valid {
      HeapIgnores(HeapOf(t), m.spaces, m.flat, m.rest, phys, 0);
    }
    RefuseRun(m, phys, before, count);
    HeapValidIs(t, m);
  }

  lemma NothingOwned(t: Task, rest: map<nat, nat>)
    ensures NoHeap(t) ==> HeapOwned(t) == {} && rest - HeapOwned(t) == rest
  {
  }

  lemma HeapInWindow(h: Heap, spaces: Spaces, flat: PageMap, rest: map<nat, nat>)
    requires HeapIn(h, spaces, flat, rest)
    ensures USER_HEAP_BASE <= h.current <= USER_HEAP_END
  {
  }

  /** A malloc gets as far as mapping its run: there is a run, room in the window, and a page
      for the table if it takes one. */
  ghost predicate CanPlace(t: Task, m: Memory, size: U32)
    requires m.pages.Valid()
    reads t`space, t`heapCurrent, m`spaces, m.pages`live, m.pages`free, m.pages.entries
  {
    && PageCount(size) > 0 && RunExists(m.pages.Pages(), PageCount(size))
    && HasRoom(t, PageAlignUp(size)) && Maps(t, m, m.pages.free - PageCount(size))
  }

  /** And it can record the run. */
  ghost predicate CanMalloc(t: Task, m: Memory, size: U32)
    requires m.pages.Valid()
    reads t`space, t`heapCurrent, t`mad, t.mad, m`spaces, m.pages`live, m.pages`free, m.pages.entries
  {
    CanPlace(t, m, size) && Records(t, m, m.pages.free - PageCount(size))
  }

  /** A malloc that would map its run and then fail, and undo the mapping. */
  ghost predicate Undoes(t: Task, m: Memory, size: U32)
    requires m.pages.Valid()
    reads t`space, t`heapCurrent, t`mad, t.mad, m`spaces, m.pages`live, m.pages`free, m.pages.entries
  {
    CanPlace(t, m, size) && !CanMalloc(t, m, size)
  }

  /** What a malloc needs, in numbers: room in the window from 4 to 8 MiB, a gap of as many pages
      as the size fills, and then a page for the table of the window if the space has none, and
      four for the records if no entry is free. */
  lemma MallocNeeds(t: Task, m: Memory, size: U32, n: nat, table: nat)
    requires m.pages.Valid() && n == (size + 4095) / 4096
    requires table ==
      if t.space in m.spaces && |m.spaces[t.space].owned| > 1 && m.spaces[t.space].owned[1] then 0 else 1
    ensures CanMalloc(t, m, size) <==>
      && size > 0 && t.space != 1 && 0x40_0000 <= t.heapCurrent && t.heapCurrent + 4096 * n <= 0x80_0000
      && (exists i :: IsGap(m.pages.Pages(), i, n))
      && n + table + (if EntryFree(t.mad) then 0 else 4) <= m.pages.free
  {
    hide IsGap, Feasible;
    CountCovers(size);
    forall i ensures IsGap(m.pages.Pages(), i, n) <==> Feasible(m.pages.Pages(), i, n) {
      GapIs(m.pages.Pages(), i, n);
    }
  }

  /** The old map survives a malloc that fails exactly if it fails before it maps its run, or
      maps it over nothing but unmapped pages. */
  lemma SurvivesFailure(t: Task, m: Memory, size: U32)
    requires m.pages.Valid()
    ensures AfterFailure(m.flat, t.space, t.heapCurrent, PageAlignUp(size), Undoes(t, m, size)) == m.flat <==>
      (Undoes(t, m, size) ==> EmptyBehind(m.flat, t.space, t.heapCurrent, PageAlignUp(size)))
  {
    hide PageAlignUp, Undoes;
    BlankedSurvives(m.flat, t.space, t.heapCurrent / PAGE_SIZE, (t.heapCurrent + PageAlignUp(size)) / PAGE_SIZE);
  }

  /** No leaf is set in the range. */
  ghost predicate EmptyBehind(flat: PageMap, space: nat, virt: nat, bytes: nat) {
    forall u: nat :: virt / PAGE_SIZE <= u < (virt + bytes) / PAGE_SIZE && (space, u) in flat ==> flat[(space, u)] == 0
  }

  /** What a malloc does to the heap: one allocation of that many bytes at its old end, or nothing. */
  predicate IsMalloc(r: nat, bytes: nat, current: nat, allocs: Allocations, current': nat, allocs': Allocations) {
    if r == 0 then current' == current && allocs' == allocs
    else
      && r == current && current' == r + bytes
      && r in allocs' && allocs'[r].size == bytes && allocs' == allocs[r := allocs'[r]]
  }

  /** The outcome of a malloc that should succeed or not. If it fails the heap is as before,
      and so is the map unless the range behind the heap had been mapped already: it is left
      cleared. */
  twostate predicate MallocDone(t: Task, m: Memory, size: U32, r: U32, succeeds: bool, undone: bool)
    reads t`space, t`heapCurrent, t`allocs, t`mad, m`flat, m.pages`refusals
  {
    && IsMalloc(r, PageAlignUp(size), old(t.heapCurrent), old(t.allocs), t.heapCurrent, t.allocs)
    && (r != 0 <==> succeeds)
    && (r == 0 ==> t.mad == old(t.mad))
    && (r == 0 ==> m.flat == AfterFailure(old(m.flat), t.space, t.heapCurrent, PageAlignUp(size), undone))
    && (r != 0 ==> t.allocs[r].phys !in old(m.rest))
    && old(m.pages.refusals) <= m.pages.refusals
    && (r != 0 <==>
        PageCount(size) > 0 && old(HasRoom(t, PageAlignUp(size))) && m.pages.refusals == old(m.pages.refusals))
  }

  /** SchedTaskMalloc for task `t`. It succeeds exactly if there are a run, room in the window,
      and pages for the table and the arrays it takes. A request for more than 65536 pages is
      refused, but when a run that long is free the refusal breaks the page words for good. */
  method SchedTaskMalloc(t: Task, m: Memory, size: U32) returns (r: U32)
    requires m.Valid() && (HeapValid(t, m) || NoHeap(t))
    modifies t`heapCurrent, t`mad, t`allocs, t.mad
    modifies m`tables, m`spaces, m`flat, m`rest, m`held, m.pages, m.pages.entries
    ensures m.Valid() <==> PageCount(size) <= MAX_RUN || !RunExists(old(m.pages.Pages()), PageCount(size))
    ensures old(HeapValid(t, m)) ==> HeapValid(t, m)
    ensures old(NoHeap(t)) ==> m.flat == old(m.flat) && m.spaces == old(m.spaces) && m.held == old(m.held)
    ensures r != 0 <==> old(CanMalloc(t, m, size))
    ensures r == 0 ==> t.heapCurrent == old(t.heapCurrent) && t.allocs == old(t.allocs)
    ensures r != 0 ==> r == old(t.heapCurrent) >= 0x40_0000 && r in t.allocs
    ensures r != 0 ==> t.allocs == old(t.allocs)[r := t.allocs[r]]
    ensures r != 0 ==>
      t.allocs[r].size == 4096 * ((size + 4095) / 4096) && t.heapCurrent == r + t.allocs[r].size <= 0x80_0000
    ensures MallocDone(t, m, size, r, old(CanMalloc(t, m, size)), old(Undoes(t, m, size))) && (r != 0 ==> m.Valid())
    ensures t.mad == old(t.mad) || fresh(t.mad)
    ensures m.Valid() ==> m.rest - HeapOwned(t) == old(m.rest) - old(HeapOwned(t))
    ensures t.space == KERNEL ==> m.held == old(m.held)
    ensures OnlyHeapMoved(old(m.flat), m.flat, t.space) && m.held - {t.space} == old(m.held) - {t.space}
    ensures OwnsMore(old(m.spaces), m.spaces, t.space)
  {
    hide m.Valid, HeapValid, HeapIn, Tracked, PageAlignUp, PageCount, PageDown, OnlyHeapMoved, Structured, AllocStep,
      HeapOwned, RunsOfHeap, RunExists, Records, Maps, OwnsMore, Blanked, m.Domains;
    OwnsItself(m.spaces, t.space);
    NothingMoved(m.flat, t.space);
    BytesOf(size);
    if size == 0 {
      return 0;
    }
    var bytes := PageAlignUp(size);
    var phys := TakeRun(t, m, bytes);
    if phys == 0 {
      return 0;
    }
    r := PlaceRun(t, m, phys, bytes, old(m.pages.Pages()));
  }

  /** When the kernel has mapped its first 1025 pages and two pages are left, a task's first
      malloc maps its run and a table and then lacks the arrays: the kernel's identity entry
      at the bottom of the heap window is gone for this task. */
  method FailedMallocExample(kernelEnd: nat) returns (m: Memory, t: Task, r: U32, ghost before: PageMap)
    requires kernelEnd <= USER_SPACE_END
    ensures m.Valid() && HeapValid(t, m) && r == 0 && t.heapCurrent == USER_HEAP_BASE
    ensures var p := (t.space, USER_HEAP_BASE / PAGE_SIZE);
            && p in before && before[p] == IdentityEntry(USER_HEAP_BASE / PAGE_SIZE)
            && p in m.flat && m.flat[p] == 0
  {
    hide m.Valid, m.Domains, MapsFirst, IdentityEntry, Structured, RunExists, FreePages, HeapValid, OnlyHeapMoved,
      OwnsMore;
    m := SmallMachine(kernelEnd, USER_HEAP_BASE / PAGE_SIZE + 1);
    t := new Task(0, 1, 0, 0);
    t.space := TwoPagesLeft(m, USER_HEAP_BASE / PAGE_SIZE + 1);
    before := m.flat;
    NewHeap(t, m);
    OnePageIsThere(m);
    r := SchedTaskMalloc(t, m, 1);
  }

  lemma NewHeap(t: Task, m: Memory)
    requires t.space in m.spaces && |m.spaces[t.space].owned| == PAGE_ENTRIES
    requires t.heapCurrent == USER_HEAP_BASE && t.mad == null && t.allocs == map[]
    ensures HeapValid(t, m)
  {
  }

  lemma OnePageIsThere(m: Memory)
    requires m.Valid() && m.pages.free > 0
    ensures PageCount(1) == 1 && PageAlignUp(1) == PAGE_SIZE && RunExists(m.pages.Pages(), 1)
  {
    hide m.Valid, Structured, FreePages;
    m.PagesAreStructured();
    BitmapCounts(m.pages);
    OnePageFits(m.pages.Pages());
  }

  /** A run just taken lies beside the heap, if there is one. */
  lemma TakenBeside(h: Heap, valid: bool, spaces: Spaces, flat: PageMap, rest: map<nat, nat>, a: nat, n: nat)
    requires a !in rest && if valid then HeapIn(h, spaces, flat, rest) else RunsOfHeap(h) == {}
    ensures valid ==> HeapIn(h, spaces, flat, rest[a := n])
    ensures a !in RunsOfHeap(h) && rest[a := n] - RunsOfHeap(h) - {a} == rest - RunsOfHeap(h)
  {
    hide HeapIn, RunsOfHeap;
    if valid {
      HeapIgnores(h, spaces, flat, rest, a, n);
    }
  }

  /** The KAlloc of SchedTaskMalloc. */
  method TakeRun(t: Task, m: Memory, bytes: U32) returns (phys: U32)
    requires m.Valid() && (HeapValid(t, m) || NoHeap(t)) && bytes == PAGE_SIZE * PageCount(bytes)
    modifies m`rest, m.pages, m.pages.entries
    ensures m.pages.Valid() && (old(HeapValid(t, m)) ==> HeapValid(t, m))
    ensures phys == 0 <==> PageCount(bytes) == 0 || !RunExists(old(m.pages.Pages()), PageCount(bytes))
    ensures m.pages.refusals == old(m.pages.refusals) + if phys == 0 && PageCount(bytes) > 0 then 1 else 0
    ensures m.pages.free == old(m.pages.free) - if phys == 0 then 0 else PageCount(bytes)
    ensures phys == 0 ==> m.Valid() && m.rest == old(m.rest)
    ensures phys != 0 ==> PageDown(phys) == phys && Structured(old(m.pages.Pages()))
    ensures phys != 0 ==> AllocStep(old(m.pages.Pages()), m.pages.Pages(), PageCount(bytes), phys)
    ensures phys != 0 && PageCount(bytes) <= MAX_RUN ==> m.Valid() && phys in m.rest && m.rest[phys] == PageCount(bytes)
    ensures phys != 0 && PageCount(bytes) <= MAX_RUN ==> phys !in HeapOwned(t) && phys !in old(m.rest)
    ensures phys != 0 && PageCount(bytes) <= MAX_RUN ==> m.rest - HeapOwned(t) - {phys} == old(m.rest) - HeapOwned(t)
  {
    hide m.Valid, HeapValid, HeapIn, Tracked, PageCount, PageDown, Structured, AllocStep, HeapOwned, RunsOfHeap,
      RunExists, NoHeap;
    m.PagesAreStructured();
    HeapValidIs(t, m);
    NothingOwned(t, m.rest);
    ghost var valid := HeapValid(t, m);
    phys := m.AllocateAny(bytes);
    if phys != 0 && PageCount(bytes) <= MAX_RUN {
      TakenBeside(HeapOf(t), valid, m.spaces, m.flat, old(m.rest), phys, PageCount(bytes));
    }
    HeapValidIs(t, m);
  }

  /** The entry that lists the allocation at `ptr`, or the length of the arrays. */
  method FindListed(mad: Tracking, ptr: U32) returns (i: nat)
    requires |mad.size| == |mad.pointers| && ptr != 0
    ensures i <= |mad.size|
    ensures i < |mad.size| ==> ListedAt(mad.size, mad.pointers, i, ptr)
    ensures i == |mad.size| ==> forall k :: !ListedAt(mad.size, mad.pointers, k, ptr)
  {
    i := 0;
    while i < |mad.size|
      invariant i <= |mad.size|
      invariant forall k :: 0 <= k < i ==> !ListedAt(mad.size, mad.pointers, k, ptr)
    {
      if mad.pointers[i] == ptr && mad.size[i] != 0 {
        return;
      }
      i := i + 1;
    }
  }

  /** Clears the entry of an allocation; its memory is left alone. */
  method RemoveTaskMallocAllocation(t: Task, ptr: U32)
    requires t.mad != null && Tracked(t) && ptr in t.allocs && ptr != 0
    modifies t`allocs, t.mad
    ensures Tracked(t) && t.allocs == old(t.allocs) - {ptr}
  {
    ListsLengths(t.mad.size, t.mad.pointers, t.mad.phys, t.allocs);
    var i := FindListed(t.mad, ptr);
    if i < |t.mad.size| {
      ListsRemove(t.mad.size, t.mad.pointers, t.mad.phys, t.allocs, i, ptr);
      hide Lists;
      t.mad.pointers := t.mad.pointers[i := 0];
      t.mad.size := t.mad.size[i := 0];
      t.allocs := t.allocs - {ptr};
      return;
    }
  }

  lemma AllocationFacts(h: Heap, spaces: Spaces, flat: PageMap, rest: map<nat, nat>, v: nat)
    requires HeapIn(h, spaces, flat, rest) && v in h.allocs
    ensures var a := h.allocs[v];
            && 0 < a.size && v % PAGE_SIZE == 0 && a.size % PAGE_SIZE == 0
            && USER_HEAP_BASE <= v && v + a.size <= USER_HEAP_END
            && a.phys in rest && a.phys in HeapRuns(h.allocs)
    ensures h.space != KERNEL && h.space in spaces && |spaces[h.space].owned| == PAGE_ENTRIES
      && spaces[h.space].owned[1]
  {
  }

  lemma HeapWithout(h: Heap, spaces: Spaces, flat: PageMap, rest: map<nat, nat>, v: nat, flat': PageMap)
    requires HeapIn(h, spaces, flat, rest) && v in h.allocs
    requires flat' == Unmapped(flat, h.space, v / PAGE_SIZE, (v + h.allocs[v].size) / PAGE_SIZE, spaces[h.space].owned)
    ensures HeapIn(h.(allocs := h.allocs - {v}), spaces, flat', rest - {h.allocs[v].phys})
    ensures rest - {h.allocs[v].phys} - RunsOfHeap(h.(allocs := h.allocs - {v})) == rest - RunsOfHeap(h)
  {
    hide HeapOk, Unmapped, HeapRuns;
    AllocationFacts(h, spaces, flat, rest, v);
    HeapShrinks(h.space, h.allocs, h.current, flat, rest, flat', rest - {h.allocs[v].phys}, v, spaces[h.space].owned);
    BackingOf(h, spaces, flat, rest);
    HeapRunsWithout(h.allocs, v, rest);
  }

  lemma BackingOf(h: Heap, spaces: Spaces, flat: PageMap, rest: map<nat, nat>)
    requires HeapIn(h, spaces, flat, rest)
    ensures BackedBy(h.allocs, rest)
  {
  }

  /** SchedTaskFree for task `t`: exactly the allocations can be freed, each once. */
  method SchedTaskFree(t: Task, m: Memory, ptr: U32) returns (r: int)
    requires m.Valid() && (HeapValid(t, m) || NoHeap(t))
    modifies t`allocs, t.mad, m`tables, m`flat, m`rest, m`held
    modifies m.pages`live, m.pages`free, m.pages`hint, m.pages.entries
    ensures m.Valid() && (old(HeapValid(t, m)) ==> HeapValid(t, m))
    ensures r == if ptr in old(t.allocs) then 0 else -1
    ensures t.allocs == old(t.allocs) - {ptr}
    ensures r == 0 ==> m.rest == old(m.rest) - {old(t.allocs)[ptr].phys}
    ensures r == 0 ==>
      m.flat == Unmapped(old(m.flat), t.space, ptr / PAGE_SIZE, (ptr + old(t.allocs)[ptr].size) / PAGE_SIZE,
        m.spaces[t.space].owned)
    ensures r == -1 ==> m.rest == old(m.rest) && m.flat == old(m.flat) && m.held == old(m.held)
    ensures m.rest - HeapOwned(t) == old(m.rest) - old(HeapOwned(t))
    ensures t.space == KERNEL ==> m.held == old(m.held)
    ensures OnlyHeapMoved(old(m.flat), m.flat, t.space) && m.held - {t.space} == old(m.held) - {t.space}
  {
    hide m.Valid, HeapValid, HeapIn, OnlyHeapMoved, HeapOwned, RunsOfHeap, Unmapped, Lists;
    HeapValidIs(t, m);
    NothingMoved(m.flat, t.space);
    NothingFreed(t.allocs);
    if HeapValid(t, m) {
      ZeroIsNotListed(HeapOf(t), m.spaces, m.flat, m.rest);
    }
    if ptr == 0 || t.mad == null {
      return -1;
    }
    ListsLengths(t.mad.size, t.mad.pointers, t.mad.phys, t.allocs);
    var i := FindListed(t.mad, ptr);
    ListedIs(t.mad.size, t.mad.pointers, t.mad.phys, t.allocs, ptr);
    if i == |t.mad.size| {
      return -1;
    }
    r := FreeListed(t, m, ptr, t.mad.size[i], t.mad.phys[i]);
  }

  lemma NothingFreed(allocs: Allocations)
    ensures forall v :: v !in allocs ==> allocs - {v} == allocs
  {
  }

  lemma ListedIs(size: seq<U32>, pointers: seq<U32>, phys: seq<U32>, allocs: Allocations, v: nat)
    requires Lists(size, pointers, phys, allocs) && v != 0
    ensures (exists i :: ListedAt(size, pointers, i, v)) <==> v in allocs
    ensures forall i :: ListedAt(size, pointers, i, v) ==> allocs[v] == Allocation(phys[i], size[i])
  {
  }

  lemma ZeroIsNotListed(h: Heap, spaces: Spaces, flat: PageMap, rest: map<nat, nat>)
    requires HeapIn(h, spaces, flat, rest)
    ensures 0 !in h.allocs && h.space in spaces
  {
  }

  /** The second half of SchedTaskFree: revoke the mapping, free the run, clear the entry. */
  method FreeListed(t: Task, m: Memory, ptr: U32, size: U32, phys: U32) returns (r: int)
    requires m.Valid() && HeapValid(t, m) && t.mad != null && ptr in t.allocs && t.allocs[ptr] == Allocation(phys, size)
    modifies t`allocs, t.mad, m`tables, m`flat, m`rest, m`held, m.pages`live, m.pages`free, m.pages`hint,
      m.pages.entries
    ensures m.Valid() && HeapValid(t, m) && r == 0 && t.space != KERNEL
    ensures t.allocs == old(t.allocs) - {ptr} && m.rest == old(m.rest) - {phys}
    ensures m.flat == Unmapped(old(m.flat), t.space, ptr / PAGE_SIZE, (ptr + size) / PAGE_SIZE, m.spaces[t.space].owned)
    ensures m.rest - HeapOwned(t) == old(m.rest) - old(HeapOwned(t))
    ensures OnlyHeapMoved(old(m.flat), m.flat, t.space) && m.held - {t.space} == old(m.held) - {t.space}
  {
    hide m.Valid, HeapValid, HeapIn, OnlyHeapMoved, HeapOwned, RunsOfHeap, Unmapped, Tracked;
    HeapValidIs(t, m);
    AllocationFacts(HeapOf(t), m.spaces, m.flat, m.rest, ptr);
    HeapRange(ptr, size);
    UnmappedMoves(m.flat, t.space, FirstPage(ptr), EndPage(ptr, size), m.spaces[t.space].owned);
    r := m.PagingUnmapUserRange(t.space, ptr, size);
    HeapWithout(HeapOf(t), m.spaces, old(m.flat), m.rest, ptr, m.flat);
    if r == 0 {
      r := m.GiveBack(phys);
      RemoveTaskMallocAllocation(t, ptr);
      HeapValidIs(t, m);
    }
  }

  // ------------------------------------------------- what a user address means

  lemma LeafAddress(phys: nat, off: nat, page: nat)
    requires phys % PAGE_SIZE == 0 && phys + off < 0x1_0000_0000 && page == off / PAGE_SIZE
    ensures var w := MakeEntry(Add32(phys, PAGE_SIZE * page), RW_USER);
            Present(w) && PageDown(w) + off % PAGE_SIZE == phys + off
  {
  }

  /** The leaf of the page that holds offset `off` of a live allocation. */
  lemma HeapPageOf(h: Heap, spaces: Spaces, flat: PageMap, rest: map<nat, nat>, v: nat, off: nat)
    requires HeapIn(h, spaces, flat, rest) && v in h.allocs && off < h.allocs[v].size
    ensures var a, p := h.allocs[v], (v + off) / PAGE_SIZE;
      && v + off < USER_HEAP_END && (v + off) % PAGE_SIZE == off % PAGE_SIZE
      && a.phys % PAGE_SIZE == 0 && a.phys in rest && PAGE_SIZE * rest[a.phys] == a.size
      && (h.space, p) in flat && flat[(h.space, p)] == MakeEntry(Add32(a.phys, PAGE_SIZE * (off / PAGE_SIZE)), RW_USER)
  {
    hide MakeEntry, Add32, Tracked;
    AllocationFacts(h, spaces, flat, rest, v);
    BackingOf(h, spaces, flat, rest);
    var a, p := h.allocs[v], (v + off) / PAGE_SIZE;
    assert p == v / PAGE_SIZE + off / PAGE_SIZE;
    assert Within(h.allocs, v, p);
    assert flat[(h.space, p)] == HeapLeaf(h.allocs, v, p);
  }

  /** The byte at offset `off` of a live allocation is byte `off` of its run, and the task may
      write it. */
  lemma HeapAddress(t: Task, m: Memory, v: nat, off: nat)
    requires m.Valid() && HeapValid(t, m) && v in t.allocs && off < t.allocs[v].size
    ensures v + off < USER_HEAP_END && m.Physical(t.space, v + off) == t.allocs[v].phys + off
    ensures UserWrites(m.tables, m.spaces, t.space, (v + off) / PAGE_SIZE)
  {
    hide Structured, Ok, Shape, Backed, RestOf, HeldOf, FlatOf, PageDown, MakeEntry, Present, HeapIn, Tracked,
      HeapValid, Live, Add32, UserBit, WriteBit, UserWrites, UserReads;
    HeapValidIs(t, m);
    HeapPageOf(HeapOf(t), m.spaces, m.flat, m.rest, v, off);
    LiveBounded(m.pages.Pages(), t.allocs[v].phys);
    LeafAddress(t.allocs[v].phys, off, off / PAGE_SIZE);
    m.UserRights(t.space, (v + off) / PAGE_SIZE);
  }

  /** What was allocated and is so no more translates to nothing. */
  lemma FreedAddress(t: Task, m: Memory, a: nat)
    requires m.Valid() && HeapValid(t, m) && USER_HEAP_BASE <= a < t.heapCurrent
    requires forall v :: v in t.allocs ==> a < v || v + t.allocs[v].size <= a
    ensures m.Physical(t.space, a) == 0
  {
    hide Structured, Ok, Shape, Backed, RestOf, HeldOf, FlatOf, Lists, PageDown, MakeEntry;
    var p := a / PAGE_SIZE;
    forall v ensures !Within(t.allocs, v, p) {
      if v in t.allocs {
        AllocationFacts(HeapOf(t), m.spaces, m.flat, m.rest, v);
      }
    }
    assert m.flat[(t.space, p)] == 0;
  }

  // ------------------------------------------------------------------ the end

  /** The runs of the first `n` entries. */
  ghost function RunsUpTo(size: seq<U32>, pointers: seq<U32>, phys: seq<U32>, n: nat): set<nat>
    requires |size| == |pointers| == |phys| && n <= |size|
  {
    set i | 0 <= i < n && pointers[i] != 0 && size[i] != 0 :: phys[i]
  }

  lemma RunsUpToAll(size: seq<U32>, pointers: seq<U32>, phys: seq<U32>, allocs: Allocations)
    requires Lists(size, pointers, phys, allocs) && 0 !in allocs
    ensures RunsUpTo(size, pointers, phys, |size|) == HeapRuns(allocs)
  {
    forall v | v in allocs ensures allocs[v].phys in RunsUpTo(size, pointers, phys, |size|) {
      var i :| ListedAt(size, pointers, i, v);
    }
    forall i | 0 <= i < |size| && pointers[i] != 0 && size[i] != 0 ensures phys[i] in HeapRuns(allocs) {
      assert ListedAt(size, pointers, i, pointers[i]);
    }
  }

  /** The run of the next entry is one that has not been freed yet. */
  lemma RunsUpToStep(size: seq<U32>, pointers: seq<U32>, phys: seq<U32>, allocs: Allocations, rest: map<nat, nat>,
      i: nat)
    requires Lists(size, pointers, phys, allocs) && BackedBy(allocs, rest) && i < |size|
    ensures pointers[i] != 0 && size[i] != 0 ==> phys[i] in rest - RunsUpTo(size, pointers, phys, i)
    ensures RunsUpTo(size, pointers, phys, i + 1) ==
      RunsUpTo(size, pointers, phys, i) + if pointers[i] != 0 && size[i] != 0 then {phys[i]} else {}
  {
    if pointers[i] != 0 && size[i] != 0 {
      assert ListedAt(size, pointers, i, pointers[i]);
      forall j | 0 <= j < i && pointers[j] != 0 && size[j] != 0 ensures phys[j] != phys[i] {
        assert ListedAt(size, pointers, j, pointers[j]);
      }
    }
  }

  /** Frees every run of the heap and the arrays themselves: exactly what the heap holds. */
  method FreeTaskMallocAllocations(t: Task, m: Memory)
    requires m.Valid() && HeapValid(t, m)
    modifies t`mad, t`allocs, m`rest, m.pages`live, m.pages`free, m.pages`hint, m.pages.entries
    ensures m.Valid() && t.mad == null && t.allocs == map[]
    ensures m.rest == old(m.rest) - old(HeapOwned(t))
  {
    hide m.Valid, HeapOk, Lists, BackedBy, RunsUpTo, HeapRuns, m.Domains;
    HeapValidIs(t, m);
    BackingOf(HeapOf(t), m.spaces, m.flat, m.rest);
    ZeroIsNotListed(HeapOf(t), m.spaces, m.flat, m.rest);
    if t.mad == null {
      NoRuns();
      t.allocs := map[];
      return;
    }
    var mad := t.mad;
    ListsLengths(mad.size, mad.pointers, mad.phys, t.allocs);
    RunsUpToAll(mad.size, mad.pointers, mad.phys, t.allocs);
    RunsUpToNone(mad.size, mad.pointers, mad.phys);
    var i: nat := 0;
    while i < |mad.size|
      invariant i <= |mad.size| && m.Valid() && t.allocs == old(t.allocs) && t.mad == mad
      invariant m.rest == old(m.rest) - RunsUpTo(mad.size, mad.pointers, mad.phys, i)
    {
      RunsUpToStep(mad.size, mad.pointers, mad.phys, t.allocs, old(m.rest), i);
      MinusBoth(old(m.rest), RunsUpTo(mad.size, mad.pointers, mad.phys, i), {mad.phys[i]});
      if mad.pointers[i] != 0 && mad.size[i] != 0 {
        var r := m.GiveBack(mad.phys[i]);
      }
      i := i + 1;
    }
    MinusBoth(old(m.rest), HeapRuns(t.allocs), TrackRuns(mad));
    assert HeapRuns(t.allocs) + TrackRuns(mad) == old(HeapOwned(t));
    FreeTracking(m, mad);
    t.mad := null;
    t.allocs := map[];
  }

  lemma NoRuns()
    ensures HeapRuns(map[]) == {}
  {
  }

  lemma RunsUpToNone(size: seq<U32>, pointers: seq<U32>, phys: seq<U32>)
    requires |size| == |pointers| == |phys|
    ensures RunsUpTo(size, pointers, phys, 0) == {}
  {
  }
}
