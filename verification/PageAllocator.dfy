/** The physical page allocator, kernel/page/bitmap.c. */
module PageAllocator {
  import opened Words
  import opened PageRuns

  const USER_SPACE_END: nat := 0x12_0000
  const METADATA_START: nat := 0x20_0000
  const METADATA_END: nat := 0x30_0000

  function PageAddress(page: nat): nat {
    MEMORY_BASE + PAGE_SIZE * page
  }

  function PageCount(bytes: U32): nat {
    PageAlignUp(bytes) / PAGE_SIZE
  }

  /** First page opened for allocation: past the kernel image and the user window. */
  function StartPage(kernelEnd: nat): nat {
    var start := PageDown(kernelEnd + PAGE_SIZE - 1);
    ((if start < USER_SPACE_END then USER_SPACE_END else start) - MEMORY_BASE) / PAGE_SIZE
  }

  /** Pages InitBitmap opens: from the start page on, but for the metadata itself. */
  predicate Opened(kernelEnd: nat, page: int) {
    StartPage(kernelEnd) <= page
    && !((METADATA_START - MEMORY_BASE) / PAGE_SIZE <= page <= (METADATA_END - 1 - MEMORY_BASE) / PAGE_SIZE)
  }

  /** In addresses: the page lies behind the kernel image and the user window, and not in the
      page of words at 0x200000 to 0x300000. */
  lemma OpenedByAddress(kernelEnd: nat, page: nat)
    ensures PageAddress(page) == 0x10_0000 + 4096 * page
    ensures Opened(kernelEnd, page) <==>
      var a := PageAddress(page);
      a >= kernelEnd && a >= 0x12_0000 && (a + 4096 <= 0x20_0000 || a >= 0x30_0000)
  {
  }

  /** A request is given enough whole pages and no page too many; the last requests below 4 GiB
      wrap and get none. */
  lemma CountCovers(bytes: U32)
    ensures bytes <= 0xFFFF_F000 ==> bytes <= 4096 * PageCount(bytes) < bytes + 4096
    ensures bytes > 0xFFFF_F000 ==> PageCount(bytes) == 0
  {
  }

  /** The result of a next-fit search that begins at `start` and wraps once. */
  ghost predicate IsPlacement(e: Pages, start: nat, count: nat, r: int) {
    if r < 0 then forall i :: !Feasible(e, i, count)
    else
      && Feasible(e, r, count)
      && (r >= start ==> forall i :: start <= i < r ==> !Feasible(e, i, count))
      && (r < start ==> forall i :: start <= i || i < r ==> !Feasible(e, i, count))
  }

  /** A run of some pages is free. */
  ghost predicate RunExists(e: Pages, count: nat) {
    exists i :: Feasible(e, i, count)
  }

  /** `count` words from word `i` on are open (bit 0) and not taken (bit 1). */
  ghost predicate IsGap(e: Pages, i: int, count: nat) {
    0 <= i && i + count <= |e| && forall k :: i <= k < i + count ==> e[k] % 4 == 1
  }

  /** The search in terms of the words: it finds nothing exactly if there is no gap, else the
      first one from `start` on, or the first of all when none of them lies there. */
  lemma PlacementIs(e: Pages, start: nat, count: nat, r: int)
    requires IsPlacement(e, start, count, r)
    ensures r < 0 <==> forall i :: !IsGap(e, i, count)
    ensures r >= 0 ==> IsGap(e, r, count)
    ensures forall i :: IsGap(e, i, count) ==> if r < start then r <= i < start else i < start || r <= i
    ensures RunExists(e, count) <==> exists i :: IsGap(e, i, count)
  {
    forall i ensures IsGap(e, i, count) <==> Feasible(e, i, count) {
      GapIs(e, i, count);
    }
  }

  lemma GapIs(e: Pages, i: int, count: nat)
    ensures IsGap(e, i, count) <==> Feasible(e, i, count)
  {
    forall k | 0 <= k < |e| ensures IsFree(e, k) <==> e[k] % 4 == 1 {
    }
  }

  function PageOf(address: nat): nat
    requires address >= MEMORY_BASE
  {
    (address - MEMORY_BASE) / PAGE_SIZE
  }

  /** The address of the first page of a live run: what KFree takes. */
  predicate IsRunAddress(e: Pages, address: nat) {
    address >= MEMORY_BASE && address % PAGE_SIZE == 0 && IsParent(e, PageOf(address))
  }

  /** One successful allocation of `count` pages at `address`. */
  ghost predicate AllocStep(e: Pages, f: Pages, count: nat, address: U32) {
    && count > 0 && address >= MEMORY_BASE && address % PAGE_SIZE == 0
    && Feasible(e, PageOf(address), count)
    && f == MarkAllocated(e, PageOf(address), count)
  }

  /** An allocation adds one run of pages that were free and opened. It keeps the
      structure exactly when it is not longer than the child count can say. */
  lemma AllocKeepsStructure(e: Pages, f: Pages, count: nat, address: U32)
    requires Structured(e) && AllocStep(e, f, count, address)
    ensures Structured(f) <==> count <= MAX_RUN
    ensures count <= MAX_RUN ==>
      && Runs(f) == Runs(e)[PageOf(address) := count] && PageOf(address) !in Runs(e)
      && (forall b :: b in Runs(e) ==> b + Runs(e)[b] <= PageOf(address) || PageOf(address) + count <= b)
      && SameAvailability(e, f)
    ensures forall i :: PageOf(address) <= i < PageOf(address) + count ==> Available(e[i])
  {
    var start := PageOf(address);
    if count <= MAX_RUN {
      MarkAddsRun(e, start, count);
      forall b | b in Runs(e) ensures b + Runs(e)[b] <= start || start + count <= b {
        RunsAvoidFree(e, start, count, b);
      }
    } else {
      MarkTooLong(e, start, count);
    }
    forall i | start <= i < start + count ensures Available(e[i]) {
      assert IsFree(e, i);
    }
  }

  /** The words InitBitmap leaves. */
  function InitialPages(total: nat, kernelEnd: nat): (r: Pages)
    ensures |r| == total
  {
    seq(total, i requires 0 <= i < total => if Opened(kernelEnd, i) then FREE else RESERVED)
  }

  lemma InitialStructured(total: nat, kernelEnd: nat)
    ensures Structured(InitialPages(total, kernelEnd))
    ensures forall i :: IsFree(InitialPages(total, kernelEnd), i) <==> 0 <= i < total && Opened(kernelEnd, i)
  {
    Kinds();
  }

  /** A request for 65537 pages on a fresh machine with 1 GiB: the run behind the metadata
      is long enough, so KAlloc marks one, and whichever it marks, the page words no
      longer describe runs. */
  lemma TooLongExample(kernelEnd: nat, f: Pages, address: U32)
    requires kernelEnd <= METADATA_END
    ensures Structured(InitialPages(TOTAL_PAGE_ENTRIES, kernelEnd))
    ensures Feasible(InitialPages(TOTAL_PAGE_ENTRIES, kernelEnd), 512, MAX_RUN + 1)
    ensures AllocStep(InitialPages(TOTAL_PAGE_ENTRIES, kernelEnd), f, MAX_RUN + 1, address) ==> !Structured(f)
  {
    var e := InitialPages(TOTAL_PAGE_ENTRIES, kernelEnd);
    InitialStructured(TOTAL_PAGE_ENTRIES, kernelEnd);
    assert StartPage(kernelEnd) <= 512;
    if AllocStep(e, f, MAX_RUN + 1, address) {
      AllocKeepsStructure(e, f, MAX_RUN + 1, address);
    }
  }

  /** The live runs by the address of their first page. */
  ghost function Live(e: Pages): map<nat, nat> {
    map a: nat | a < PageAddress(|e|) && IsRunAddress(e, a) :: RunLength(e, PageOf(a))
  }

  lemma LiveIs(e: Pages, address: nat)
    ensures address in Live(e) <==>
      address >= MEMORY_BASE && address % PAGE_SIZE == 0 && PageOf(address) in Runs(e)
    ensures address in Live(e) ==> Live(e)[address] == Runs(e)[PageOf(address)]
  {
  }

  lemma PageOfAddress(page: nat)
    ensures PageAddress(page) % PAGE_SIZE == 0 && PageOf(PageAddress(page)) == page
  {
  }

  lemma AddressOfPage(address: nat)
    requires address >= MEMORY_BASE && address % PAGE_SIZE == 0
    ensures PageAddress(PageOf(address)) == address
  {
  }

  /** Live runs do not overlap in memory. */
  ghost predicate RunsApart(live: map<nat, nat>) {
    forall a, b :: a in live && b in live && a != b ==>
      a + PAGE_SIZE * live[a] <= b || b + PAGE_SIZE * live[b] <= a
  }

  lemma LiveApart(e: Pages)
    requires Structured(e)
    ensures RunsApart(Live(e))
  {
    forall a, b | a in Live(e) && b in Live(e) && a < b ensures a + PAGE_SIZE * Live(e)[a] <= b {
      LiveIs(e, a);
      LiveIs(e, b);
      AddressOfPage(a);
      AddressOfPage(b);
      var p, q := PageOf(a), PageOf(b);
      assert p < q < p + RunLength(e, p) ==> IsChild(e, q);
    }
  }

  /** Live runs lie inside the memory the words describe. */
  lemma LiveBounded(e: Pages, a: nat)
    requires Structured(e) && a in Live(e)
    ensures MEMORY_BASE <= a && a + PAGE_SIZE * Live(e)[a] <= PageAddress(|e|)
  {
    LiveIs(e, a);
    AddressOfPage(a);
    assert IsParent(e, PageOf(a));
  }

  /** Equal live runs leave equally many pages free. */
  lemma LiveFixesFreePages(e: Pages, f: Pages)
    requires Structured(e) && Structured(f) && SameAvailability(e, f) && Live(e) == Live(f)
    ensures FreePages(e) == FreePages(f)
  {
    forall b: nat ensures b in Runs(e) <==> b in Runs(f) {
      PageOfAddress(b);
      LiveIs(e, PageAddress(b));
      LiveIs(f, PageAddress(b));
    }
    forall b | b in Runs(e) ensures Runs(e)[b] == Runs(f)[b] {
      PageOfAddress(b);
      LiveIs(e, PageAddress(b));
      LiveIs(f, PageAddress(b));
    }
    RunsFixFreePages(e, f);
  }

  lemma PageDiffers(a: nat, b: nat)
    requires a >= MEMORY_BASE && a % PAGE_SIZE == 0 && b >= MEMORY_BASE && b % PAGE_SIZE == 0 && a != b
    ensures PageOf(a) != PageOf(b)
  {
  }

  lemma AllocAddsLive(e: Pages, f: Pages, count: nat, address: U32)
    requires Structured(e) && AllocStep(e, f, count, address) && count <= MAX_RUN
    ensures address !in Live(e) && Live(f) == Live(e)[address := count]
  {
    AllocKeepsStructure(e, f, count, address);
    LiveIs(e, address);
    forall a: nat
      ensures a in Live(f) <==> a in Live(e)[address := count]
      ensures a in Live(f) ==> Live(f)[a] == Live(e)[address := count][a]
    {
      LiveIs(e, a);
      LiveIs(f, a);
      if a != address && a >= MEMORY_BASE && a % PAGE_SIZE == 0 {
        PageDiffers(a, address);
      }
    }
  }

  lemma FreeRemovesLive(e: Pages, address: U32)
    requires Structured(e) && IsRunAddress(e, address)
    ensures var f := MarkFreed(e, PageOf(address), RunLength(e, PageOf(address)));
            Structured(f) && SameAvailability(e, f) && Live(f) == Live(e) - {address}
  {
    var f := MarkFreed(e, PageOf(address), RunLength(e, PageOf(address)));
    MarkRemovesRun(e, PageOf(address));
    forall a: nat
      ensures a in Live(f) <==> a in Live(e) - {address}
      ensures a in Live(f) ==> Live(f)[a] == Live(e)[a]
    {
      LiveIs(e, a);
      LiveIs(f, a);
      if a != address && a >= MEMORY_BASE && a % PAGE_SIZE == 0 {
        PageDiffers(a, address);
      }
    }
  }

  // ------------------------------------------------------------------- runs

  datatype PageOp = Alloc(count: nat, address: U32) | Free(address: U32)

  /** A call of KAlloc or KFree as a relation on the words; calls that return an
      error leave the words alone. */
  ghost predicate PageStep(e: Pages, f: Pages, op: PageOp) {
    match op
    case Alloc(count, address) => if address == 0 then f == e else AllocStep(e, f, count, address)
    case Free(address) =>
      if IsRunAddress(e, address) then f == MarkFreed(e, PageOf(address), RunLength(e, PageOf(address))) else f == e
  }

  /** Every state reached from a structured one by allocations of at most 65536
      pages and frees of any address is structured, and opens no page. */
  lemma {:induction false} ReachableStructured(states: seq<Pages>, ops: seq<PageOp>, k: nat)
    requires |states| == |ops| + 1 && k <= |ops| && Structured(states[0])
    requires forall i :: 0 <= i < |ops| ==> PageStep(states[i], states[i + 1], ops[i])
    requires forall i :: 0 <= i < |ops| && ops[i].Alloc? ==> ops[i].count <= MAX_RUN
    ensures Structured(states[k]) && SameAvailability(states[0], states[k])
    ensures forall i :: 0 <= i < |states[k]| && Taken(states[k][i]) ==> Available(states[0][i])
  {
    if k > 0 {
      ReachableStructured(states, ops, k - 1);
      var e, f, op := states[k - 1], states[k], ops[k - 1];
      assert PageStep(e, f, op);
      if op.Alloc? && op.address != 0 {
        AllocKeepsStructure(e, f, op.count, op.address);
      } else if op.Free? && IsRunAddress(e, op.address) {
        MarkRemovesRun(e, PageOf(op.address));
      }
    }
  }

  class PageBitmap {
    const total: nat
    const entries: array<U32>
    var hint: nat

    /** The live runs by address, and the number of free pages: what the words describe. */
    ghost var live: map<nat, nat>
    ghost var free: nat

    /** How often KAlloc found no room for a request. */
    ghost var refusals: nat

    /** Where the kernel image ends: what decides which pages were opened. */
    ghost const kernelEnd: nat

    ghost predicate Valid()
      reads this`live, this`free, entries
    {
      && total <= entries.Length && total <= TOTAL_PAGE_ENTRIES
      && live == Live(entries[..total]) && free == |FreePages(entries[..total])|
    }

    ghost function Pages(): Pages
      requires total <= entries.Length
      reads entries
    {
      entries[..total]
    }

    /** The words describe runs, and only pages opened at the start are ever available. */
    ghost predicate Sound()
      reads this`live, this`free, entries
    {
      && Valid() && Structured(Pages())
      && forall i :: 0 <= i < total ==> (Available(Pages()[i]) <==> Opened(kernelEnd, i))
    }

    /** No live run meets the kernel image, the user window or the page words, or leaves the
        installed memory. */
    lemma LiveSpares(a: nat, x: nat)
      requires Sound() && a in live && a <= x < a + 4096 * live[a]
      ensures x >= kernelEnd && x >= 0x12_0000 && !(0x20_0000 <= x < 0x30_0000) && x < 0x10_0000 + 4096 * total
    {
      LiveIs(Pages(), a);
      AddressOfPage(a);
      var base, page := PageOf(a), (x - 0x10_0000) / 4096;
      assert IsParent(Pages(), base);
      assert base < page ==> IsChild(Pages(), page);
      OpenedByAddress(kernelEnd, page);
    }

    /** InitBitmap; `maxAddress` is the installed memory above 1 MiB. */
    constructor (maxAddress: nat, kernelEnd: nat)
      ensures Sound() && fresh(entries) && this.kernelEnd == kernelEnd
      ensures total == if maxAddress / 4096 > 262144 then 262144 else maxAddress / 4096
      ensures live == map[] && refusals == 0 && Pages() == InitialPages(total, kernelEnd)
      ensures hint == StartPage(kernelEnd)
    {
      var count := maxAddress / PAGE_SIZE;
      total := if count > TOTAL_PAGE_ENTRIES then TOTAL_PAGE_ENTRIES else count;
      entries := new U32[TOTAL_PAGE_ENTRIES];
      hint := StartPage(kernelEnd);
      this.kernelEnd := kernelEnd;
      new;
      Kinds();
      FillPages(0, total, RESERVED);
      FillPages(StartPage(kernelEnd), total, FREE);
      FillPages((METADATA_START - MEMORY_BASE) / PAGE_SIZE, (METADATA_END - 1 - MEMORY_BASE) / PAGE_SIZE + 1, RESERVED);
      assert Pages() == InitialPages(total, kernelEnd);
      InitialStructured(total, kernelEnd);
      live, free, refusals := Live(Pages()), |FreePages(Pages())|, 0;
    }

    /** One of the three loops of InitBitmap: every page of a range that exists. */
    method FillPages(first: nat, end: nat, word: U32)
      requires total <= entries.Length
      modifies entries
      ensures forall j :: 0 <= j < total ==> entries[j] == if first <= j < end then word else old(entries[j])
    {
      var i := first;
      while i < end && i < total
        invariant first <= i && (i <= end || i == first)
        invariant forall j :: 0 <= j < total ==> entries[j] == if first <= j < i then word else old(entries[j])
      {
        entries[i] := word;
        i := i + 1;
      }
    }

    predicate PageIsFree(page: nat)
      requires page < total <= entries.Length
      reads entries
    {
      Available(entries[page]) && !Taken(entries[page])
    }

    /** Next fit: skips behind every page that blocks, and wraps once. */
    method FindFreeRun(count: nat) returns (r: int)
      requires Valid()
      modifies this`hint
      ensures Valid()
      ensures r < 0 ==> r == -1 && hint == old(hint)
      ensures count == 0 ==> r == -1
      ensures count > 0 ==> IsPlacement(Pages(), if old(hint) >= total then 0 else old(hint), count, r)
      ensures r >= 0 ==> hint == r + count
    {
      if count == 0 || count > total {
        return -1;
      }
      var start := hint;
      if start >= total {
        start := 0;
      }
      var pass := 0;
      ghost var e := Pages();
      while pass < 2
        invariant 0 <= pass <= 2
        invariant hint == old(hint)
        invariant pass >= 1 ==> forall i :: start <= i ==> !Feasible(e, i, count)
        invariant pass == 2 ==> forall i :: !Feasible(e, i, count)
        decreases 2 - pass
      {
        var begin := if pass == 0 then start else 0;
        var last := total - count + 1;
        var end := if pass == 0 then last else if start > last then last else start;
        var i: nat := begin;
        while i < end
          invariant begin <= i
          invariant forall j :: begin <= j < i ==> !Feasible(e, j, count)
        {
          var matched: nat := 0;
          while matched < count && PageIsFree(i + matched)
            invariant matched <= count
            invariant forall j :: i <= j < i + matched ==> IsFree(e, j)
          {
            matched := matched + 1;
          }
          if matched == count {
            hint := i + count;
            return i;
          }
          assert !IsFree(e, i + matched);
          i := i + matched + 1;
        }
        pass := pass + 1;
      }
      return -1;
    }

    method MarkRunAllocated(start: nat, count: nat)
      requires Valid() && count > 0 && start + count <= total
      modifies entries, this`live, this`free
      ensures Valid()
      ensures Pages() == MarkAllocated(old(Pages()), start, count)
    {
      ghost var e := Pages();
      entries[start] := ParentWord(count);
      var i := 1;
      while i < count
        invariant 1 <= i <= count
        invariant forall j :: 0 <= j < total ==>
          entries[j] == if j < start + i then WordAfterAllocation(e, start, count, j) else e[j]
      {
        entries[start + i] := CHILD;
        i := i + 1;
      }
      live, free := Live(Pages()), |FreePages(Pages())|;
    }

    method MarkRunFree(start: nat, count: nat)
      requires Valid()
      modifies entries, this`live, this`free, this`hint
      ensures Valid()
      ensures Pages() == MarkFreed(old(Pages()), start, count)
      ensures hint == if start < old(hint) then start else old(hint)
    {
      ghost var e := Pages();
      var i := 0;
      while i < count && start + i < total
        invariant 0 <= i <= count && hint == old(hint)
        invariant forall j :: 0 <= j < total ==>
          entries[j] == if j < start + i then WordAfterFree(e, start, count, j) else e[j]
      {
        entries[start + i] := FREE;
        i := i + 1;
      }
      live, free := Live(Pages()), |FreePages(Pages())|;
      if start < hint {
        hint := start;
      }
    }

    /** The second half of KAlloc: marks the run it has found. */
    method TakeRun(start: nat, count: nat) returns (address: U32)
      requires Valid() && count > 0 && Feasible(Pages(), start, count)
      modifies entries, this`live, this`free
      ensures Valid() && AllocStep(old(Pages()), Pages(), count, address)
      ensures address != 0 && address % PAGE_SIZE == 0 && address >= MEMORY_BASE && PageOf(address) == start
      ensures free == old(free) - count
      ensures old(Sound()) && count <= MAX_RUN ==>
        Sound() && address !in old(live) && live == old(live)[address := count]
    {
      hide Structured;
      ghost var e := Pages();
      MarkTakesPages(e, start, count);
      MarkRunAllocated(start, count);
      address := MEMORY_BASE + PAGE_SIZE * start;
      if old(Sound()) && count <= MAX_RUN {
        AllocKeepsStructure(e, Pages(), count, address);
        AllocAddsLive(e, Pages(), count, address);
      }
    }

    /** A run of whole pages, or 0 when there is none. */
    method KAlloc(bytes: U32) returns (address: U32)
      requires Valid()
      modifies entries, this`live, this`free, this`hint, this`refusals
      ensures Valid()
      ensures address == 0 <==> PageCount(bytes) == 0 || !RunExists(old(Pages()), PageCount(bytes))
      ensures address == 0 ==> Pages() == old(Pages()) && live == old(live) && free == old(free)
      ensures refusals == old(refusals) + if address == 0 && PageCount(bytes) > 0 then 1 else 0
      ensures address == 0 ==> hint == old(hint)
      ensures address != 0 ==>
        && address >= MEMORY_BASE
        && IsPlacement(old(Pages()), if old(hint) >= total then 0 else old(hint), PageCount(bytes), PageOf(address))
        && hint == PageOf(address) + PageCount(bytes)
      ensures address != 0 ==> free == old(free) - PageCount(bytes) && address % PAGE_SIZE == 0
      ensures PageCount(bytes) == 1 ==> (address == 0 <==> old(free) == 0)
      ensures address == 0 && old(Sound()) ==> Sound()
      ensures address != 0 ==> AllocStep(old(Pages()), Pages(), PageCount(bytes), address)
      ensures old(Sound()) && PageCount(bytes) <= MAX_RUN ==> Sound()
      ensures old(Sound()) && PageCount(bytes) <= MAX_RUN && address != 0 ==>
        address !in old(live) && live == old(live)[address := PageCount(bytes)]
    {
      hide Structured, Live, FreePages, AllocStep;
      if bytes == 0 {
        return 0;
      }
      var count := PageAlignUp(bytes) / PAGE_SIZE;
      var start := FindFreeRun(count);
      OnePageFits(Pages());
      if start < 0 {
        refusals := refusals + if count > 0 then 1 else 0;
        return 0;
      }
      address := TakeRun(start, count);
    }

    /** Frees a run by the address of its first page; anything else is refused. */
    method KFree(address: U32) returns (r: int)
      requires Valid()
      modifies entries, this`live, this`free, this`hint
      ensures Valid()
      ensures r == 0 || r == -1
      ensures r == 0 <==> IsRunAddress(old(Pages()), address)
      ensures r == 0 ==> Pages() == MarkFreed(old(Pages()), PageOf(address), RunLength(old(Pages()), PageOf(address)))
      ensures r != 0 ==> Pages() == old(Pages())
      ensures old(Sound()) ==> Sound() && live == old(live) - {address}
      ensures old(Sound()) ==> (r == 0 <==> address in old(live))
      ensures old(Sound()) && r == 0 ==> free == old(free) + old(live)[address]
    {
      LiveIs(Pages(), address);
      if address == 0 {
        return -1;
      }
      if address < MEMORY_BASE || address % PAGE_SIZE != 0 {
        return -1;
      }
      var index := PageOf(address);
      if index >= total {
        return -1;
      }
      var entry := entries[index];
      if !Taken(entry) {
        return -1;
      }
      if ChildFlag(entry) {
        return -1;
      }
      var count := ChildCount(entry) + 1;
      assert IsParent(Pages(), index);
      MarkRunFree(index, count);
      if old(Sound()) {
        FreeRemovesLive(old(Pages()), address);
        FreeGivesPages(old(Pages()), index);
      }
      return 0;
    }

    /** The number of free pages. */
    method CountAvailablePage() returns (count: nat)
      requires Valid()
      ensures count == |FreePages(Pages())|
    {
      count := 0;
      var i: nat := 0;
      ghost var seen: set<int> := {};
      while i < total
        invariant i <= total
        invariant seen == set j | 0 <= j < i && IsFree(Pages(), j)
        invariant count == |seen|
      {
        if PageIsFree(i) {
          seen := seen + {i};
          count := count + 1;
        }
        i := i + 1;
      }
    }
  }
}
