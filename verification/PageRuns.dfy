/** The page words of kernel/page/bitmap.c and the runs they describe: a parent
    page that holds the number of its children, followed by those children. */
module PageRuns {
  import opened Words

  const MEMORY_BASE: nat := 0x10_0000
  const TOTAL_PAGE_ENTRIES: nat := 262144

  /** The 16-bit child count bounds a run. */
  const MAX_RUN: nat := 65536

  // -------------------------------------------------------------- the words

  /** create_metadata_entry: three status bits, then the child count. */
  function MakeWord(available: bool, taken: bool, child: bool, childCount: U16): U32 {
    (if available then 1 else 0) + (if taken then 2 else 0) + (if child then 4 else 0) + 8 * childCount
  }

  predicate Available(w: U32) { w % 2 == 1 }

  predicate Taken(w: U32) { w / 2 % 2 == 1 }

  predicate ChildFlag(w: U32) { w / 4 % 2 == 1 }

  function ChildCount(w: U32): U16 { w / 8 % 0x1_0000 }

  lemma WordFields(available: bool, taken: bool, child: bool, childCount: U16)
    ensures var w := MakeWord(available, taken, child, childCount);
            && Available(w) == available && Taken(w) == taken
            && ChildFlag(w) == child && ChildCount(w) == childCount
  {
    var w := MakeWord(available, taken, child, childCount);
    var a, t, c := if available then 1 else 0, if taken then 1 else 0, if child then 1 else 0;
    assert w == a + 2 * (t + 2 * (c + 2 * childCount));
    assert w / 2 == t + 2 * (c + 2 * childCount);
    assert w / 4 == c + 2 * childCount;
    assert w / 8 == childCount;
  }

  const RESERVED: U32 := MakeWord(false, false, false, 0)
  const FREE: U32 := MakeWord(true, false, false, 0)
  const CHILD: U32 := MakeWord(true, true, true, 0)

  /** The parent word of a run; a count beyond MAX_RUN is cut to 16 bits. */
  function ParentWord(count: nat): U32
    requires count > 0
  {
    MakeWord(true, true, false, (count - 1) % 0x1_0000)
  }

  /** The words by their value: bit 0 says usable, bit 1 taken, bit 2 child, and the number of
      children follows. */
  lemma WordValues(count: nat)
    requires count > 0
    ensures RESERVED == 0 && FREE == 1 && CHILD == 7 && ParentWord(count) == 3 + 8 * ((count - 1) % 65536)
  {
  }

  // --------------------------------------------------------------- the runs

  type Pages = seq<U32>

  predicate IsFree(e: Pages, i: int) {
    0 <= i < |e| && Available(e[i]) && !Taken(e[i])
  }

  predicate IsParent(e: Pages, i: int) {
    0 <= i < |e| && Taken(e[i]) && !ChildFlag(e[i])
  }

  predicate IsChild(e: Pages, i: int) {
    0 <= i < |e| && Taken(e[i]) && ChildFlag(e[i])
  }

  /** The length its parent word gives a run. */
  function RunLength(e: Pages, b: nat): nat
    requires b < |e|
  {
    ChildCount(e[b]) + 1
  }

  /** The allocator's abstract state: run bases and their lengths. */
  function Runs(e: Pages): map<nat, nat> {
    map b: nat | 0 <= b < |e| && IsParent(e, b) :: RunLength(e, b)
  }

  /** Page `i` belongs to the run based at `b`. */
  predicate Covers(runs: map<nat, nat>, b: nat, i: int) {
    b in runs && b <= i < b + runs[b]
  }

  ghost predicate InRun(runs: map<nat, nat>, i: int) {
    exists b :: Covers(runs, b, i)
  }

  /** Every parent is followed by its children, and there are no other children;
      only available pages are taken. */
  ghost predicate Structured(e: Pages) {
    && (forall b :: IsParent(e, b) ==> b + RunLength(e, b) <= |e|)
    && (forall b, i :: IsParent(e, b) && b < i < b + RunLength(e, b) ==> IsChild(e, i))
    && (forall i :: IsChild(e, i) ==> exists b :: IsParent(e, b) && b < i < b + RunLength(e, b))
    && (forall i :: 0 <= i < |e| && Taken(e[i]) ==> Available(e[i]))
  }

  /** A page is taken exactly if it lies in a run, and then in one only. */
  lemma RunsPartition(e: Pages, i: nat)
    requires Structured(e) && i < |e|
    ensures Taken(e[i]) <==> InRun(Runs(e), i)
    ensures forall b, c :: Covers(Runs(e), b, i) && Covers(Runs(e), c, i) ==> b == c
    ensures IsFree(e, i) <==> Available(e[i]) && !InRun(Runs(e), i)
  {
    if IsParent(e, i) {
      assert Covers(Runs(e), i, i);
    } else if IsChild(e, i) {
      var b :| IsParent(e, b) && b < i < b + RunLength(e, b);
      assert Covers(Runs(e), b, i);
    }
    if InRun(Runs(e), i) {
      var b :| Covers(Runs(e), b, i);
      CoveredTaken(e, b, i);
    }
    forall b, c | Covers(Runs(e), b, i) && Covers(Runs(e), c, i) ensures b == c {
      CoveredTaken(e, b, c);
      CoveredTaken(e, c, b);
    }
  }

  lemma CoveredTaken(e: Pages, b: nat, i: nat)
    requires Structured(e)
    ensures Covers(Runs(e), b, i) ==> i < |e| && Taken(e[i]) && (i != b ==> IsChild(e, i))
    ensures Covers(Runs(e), b, i) ==> IsParent(e, b)
  {
    assert Covers(Runs(e), b, i) && b < i ==> IsChild(e, i);
  }

  ghost predicate SameAvailability(e: Pages, f: Pages) {
    |f| == |e| && forall i :: 0 <= i < |e| ==> (Available(f[i]) <==> Available(e[i]))
  }

  // ---------------------------------------------------- allocating and freeing

  ghost predicate Feasible(e: Pages, start: int, count: nat) {
    0 <= start && start + count <= |e| && forall i :: start <= i < start + count ==> IsFree(e, i)
  }

  function WordAfterAllocation(e: Pages, start: nat, count: nat, i: nat): U32
    requires count > 0 && i < |e|
  {
    if i == start then ParentWord(count) else if start < i < start + count then CHILD else e[i]
  }

  /** The words after a run is marked. */
  function MarkAllocated(e: Pages, start: nat, count: nat): (r: Pages)
    requires count > 0
    ensures |r| == |e|
  {
    seq(|e|, i requires 0 <= i < |e| => WordAfterAllocation(e, start, count, i))
  }

  function WordAfterFree(e: Pages, start: nat, count: nat, i: nat): U32
    requires i < |e|
  {
    if start <= i < start + count then FREE else e[i]
  }

  function MarkFreed(e: Pages, start: nat, count: nat): (r: Pages)
    ensures |r| == |e|
  {
    seq(|e|, i requires 0 <= i < |e| => WordAfterFree(e, start, count, i))
  }

  lemma Kinds()
    ensures Available(FREE) && !Taken(FREE)
    ensures Available(CHILD) && Taken(CHILD) && ChildFlag(CHILD)
    ensures !Available(RESERVED) && !Taken(RESERVED)
  {
  }

  lemma ParentKind(count: nat)
    requires count > 0
    ensures Available(ParentWord(count)) && Taken(ParentWord(count)) && !ChildFlag(ParentWord(count))
    ensures ChildCount(ParentWord(count)) == (count - 1) % 0x1_0000
  {
  }

  /** No run reaches into free pages. */
  lemma RunsAvoidFree(e: Pages, start: nat, count: nat, b: int)
    requires Structured(e) && Feasible(e, start, count) && count > 0 && IsParent(e, b)
    ensures b + RunLength(e, b) <= start || start + count <= b
  {
    assert IsFree(e, start);
    assert start <= b < start + count ==> IsFree(e, b);
    assert b < start < b + RunLength(e, b) ==> IsChild(e, start);
  }

  /** What marking a free run leaves of the others. */
  lemma MarkKeeps(e: Pages, start: nat, count: nat, b: int)
    requires Structured(e) && Feasible(e, start, count) && 0 < count <= MAX_RUN
    ensures var f := MarkAllocated(e, start, count);
            && (IsParent(f, b) <==> IsParent(e, b) || b == start)
            && (b != start && IsParent(e, b) ==> RunLength(f, b) == RunLength(e, b))
            && (IsParent(e, b) ==> b != start && (b + RunLength(e, b) <= start || start + count <= b))
            && RunLength(f, start) == count
  {
    ParentKind(count);
    Kinds();
    assert start <= b < start + count ==> IsFree(e, b);
    if IsParent(e, b) {
      RunsAvoidFree(e, start, count, b);
    }
  }

  lemma MarkStructured(e: Pages, start: nat, count: nat)
    requires Structured(e) && Feasible(e, start, count) && 0 < count <= MAX_RUN
    ensures Structured(MarkAllocated(e, start, count))
  {
    var f := MarkAllocated(e, start, count);
    Kinds();
    ParentKind(count);
    forall i | IsChild(f, i) ensures exists b :: IsParent(f, b) && b < i < b + RunLength(f, b) {
      if start < i < start + count {
        MarkKeeps(e, start, count, start);
      } else {
        assert IsChild(e, i);
        var b :| IsParent(e, b) && b < i < b + RunLength(e, b);
        MarkKeeps(e, start, count, b);
      }
    }
    forall b, i | IsParent(f, b) && b < i < b + RunLength(f, b) ensures IsChild(f, i) {
      MarkKeeps(e, start, count, b);
      assert b != start ==> IsChild(e, i);
    }
    forall b | IsParent(f, b) ensures b + RunLength(f, b) <= |f| {
      MarkKeeps(e, start, count, b);
    }
  }

  /** Marking a free run of at most 65536 pages adds exactly that run. */
  lemma MarkAddsRun(e: Pages, start: nat, count: nat)
    requires Structured(e) && Feasible(e, start, count) && 0 < count <= MAX_RUN
    ensures Structured(MarkAllocated(e, start, count))
    ensures Runs(MarkAllocated(e, start, count)) == Runs(e)[start := count]
    ensures SameAvailability(e, MarkAllocated(e, start, count))
  {
    var f := MarkAllocated(e, start, count);
    Kinds();
    ParentKind(count);
    MarkStructured(e, start, count);
    forall b: nat ensures b in Runs(f) <==> b in Runs(e)[start := count] {
      MarkKeeps(e, start, count, b);
    }
    forall b | b in Runs(f) ensures Runs(f)[b] == Runs(e)[start := count][b] {
      MarkKeeps(e, start, count, b);
    }
    forall i | start <= i < start + count ensures Available(e[i]) {
      assert IsFree(e, i);
    }
  }

  /** A longer run loses the upper bits of its count and orphans the pages behind. */
  lemma MarkTooLong(e: Pages, start: nat, count: nat)
    requires Structured(e) && Feasible(e, start, count) && count > MAX_RUN
    ensures !Structured(MarkAllocated(e, start, count))
  {
    var f := MarkAllocated(e, start, count);
    Kinds();
    ParentKind(count);
    var i := start + (count - 1) % 0x1_0000 + 1;
    assert IsChild(f, i);
    forall b | IsParent(f, b) && b < i < b + RunLength(f, b) ensures false {
      if b != start {
        assert IsParent(e, b);
        RunsAvoidFree(e, start, count, b);
      }
    }
  }

  /** Another run survives when run `b` is freed. */
  lemma FreedKeeps(e: Pages, b: nat, c: int)
    requires Structured(e) && IsParent(e, b) && IsParent(e, c) && c != b
    ensures var f := MarkFreed(e, b, RunLength(e, b));
            && IsParent(f, c) && RunLength(f, c) == RunLength(e, c)
            && (c + RunLength(e, c) <= b || b + RunLength(e, b) <= c)
  {
    assert c < b < c + RunLength(e, c) ==> IsChild(e, b);
    assert b < c < b + RunLength(e, b) ==> IsChild(e, c);
  }

  lemma FreedLeaves(e: Pages, b: nat, i: int)
    requires Structured(e) && IsParent(e, b)
    ensures var f := MarkFreed(e, b, RunLength(e, b));
            && (IsChild(f, i) ==> IsChild(e, i) && !(b <= i < b + RunLength(e, b)))
            && (IsParent(f, i) ==> IsParent(e, i) && i != b)
  {
  }

  /** Freeing what the cut count of such a run says leaves its tail taken for ever:
      children without a parent, which no call frees. */
  lemma TooLongLeaks(e: Pages, start: nat, count: nat)
    requires Structured(e) && Feasible(e, start, count) && count > MAX_RUN
    ensures var f := MarkAllocated(e, start, count);
            var g := MarkFreed(f, start, RunLength(f, start));
            && RunLength(f, start) < count && !Structured(g)
            && forall i :: start + RunLength(f, start) <= i < start + count ==> IsChild(g, i)
  {
    var f := MarkAllocated(e, start, count);
    Kinds();
    ParentKind(count);
    var g := MarkFreed(f, start, RunLength(f, start));
    var i := start + RunLength(f, start);
    assert IsChild(g, i);
    forall b | IsParent(g, b) && b < i < b + RunLength(g, b) ensures false {
      assert IsParent(e, b);
      RunsAvoidFree(e, start, count, b);
    }
  }

  /** Freeing a run's own length leaves the rest structured. */
  lemma FreedStructured(e: Pages, b: nat)
    requires Structured(e) && IsParent(e, b)
    ensures Structured(MarkFreed(e, b, RunLength(e, b)))
  {
    var f := MarkFreed(e, b, RunLength(e, b));
    forall i | IsChild(f, i) ensures exists c :: IsParent(f, c) && c < i < c + RunLength(f, c) {
      FreedLeaves(e, b, i);
      var c :| IsParent(e, c) && c < i < c + RunLength(e, c);
      FreedKeeps(e, b, c);
    }
    forall c | IsParent(f, c) ensures c + RunLength(f, c) <= |f| {
      FreedLeaves(e, b, c);
    }
    forall c, i | IsParent(f, c) && c < i < c + RunLength(f, c) ensures IsChild(f, i) {
      FreedLeaves(e, b, c);
      FreedKeeps(e, b, c);
      assert IsChild(e, i);
    }
    Kinds();
  }

  /** Freeing a run's own length removes exactly that run. */
  lemma MarkRemovesRun(e: Pages, b: nat)
    requires Structured(e) && IsParent(e, b)
    ensures Structured(MarkFreed(e, b, RunLength(e, b)))
    ensures Runs(MarkFreed(e, b, RunLength(e, b))) == Runs(e) - {b}
    ensures SameAvailability(e, MarkFreed(e, b, RunLength(e, b)))
  {
    var f := MarkFreed(e, b, RunLength(e, b));
    FreedStructured(e, b);
    Kinds();
    forall c: nat ensures c in Runs(f) <==> c in Runs(e) && c != b {
      FreedLeaves(e, b, c);
      if c in Runs(e) && c != b {
        FreedKeeps(e, b, c);
      }
    }
    forall c | c in Runs(f) ensures Runs(f)[c] == Runs(e)[c] {
      FreedKeeps(e, b, c);
    }
    forall i | b < i < b + RunLength(e, b) ensures Available(e[i]) {
      assert IsChild(e, i);
    }
  }

  // ---------------------------------------------------------------- counting

  ghost function FreePages(e: Pages): set<int> {
    set i | 0 <= i < |e| && IsFree(e, i)
  }

  /** The pages of an interval. */
  function Interval(start: nat, count: nat): (r: set<int>)
    ensures forall i :: i in r <==> start <= i < start + count
    ensures |r| == count
  {
    if count == 0 then {} else Interval(start, count - 1) + {start + count - 1}
  }

  /** An allocation takes as many free pages as its run is long. */
  lemma MarkTakesPages(e: Pages, start: nat, count: nat)
    requires Feasible(e, start, count) && count > 0
    ensures |FreePages(MarkAllocated(e, start, count))| == |FreePages(e)| - count
  {
    var f := MarkAllocated(e, start, count);
    Kinds();
    ParentKind(count);
    assert FreePages(f) == FreePages(e) - Interval(start, count);
    assert Interval(start, count) <= FreePages(e);
  }

  /** Freeing a run gives as many pages back. */
  lemma FreeGivesPages(e: Pages, b: nat)
    requires Structured(e) && IsParent(e, b)
    ensures |FreePages(MarkFreed(e, b, RunLength(e, b)))| == |FreePages(e)| + RunLength(e, b)
  {
    var n := RunLength(e, b);
    var f := MarkFreed(e, b, n);
    Kinds();
    assert FreePages(f) == FreePages(e) + Interval(b, n);
    forall i | i in Interval(b, n) ensures i !in FreePages(e) {
      assert i != b ==> IsChild(e, i);
    }
  }

  /** A single page can be had exactly while one is free. */
  lemma OnePageFits(e: Pages)
    ensures (exists i :: Feasible(e, i, 1)) <==> |FreePages(e)| > 0
  {
    if |FreePages(e)| > 0 {
      var i :| i in FreePages(e);
      assert Feasible(e, i, 1);
    }
    if i :| Feasible(e, i, 1) {
      assert IsFree(e, i) && i in FreePages(e);
    }
  }

  /** The free pages, hence their number, depend on the runs alone. */
  lemma RunsFixFreePages(e: Pages, f: Pages)
    requires Structured(e) && Structured(f) && SameAvailability(e, f) && Runs(e) == Runs(f)
    ensures FreePages(e) == FreePages(f)
  {
    forall i | 0 <= i < |e| ensures IsFree(e, i) <==> IsFree(f, i) {
      RunsPartition(e, i);
      RunsPartition(f, i);
    }
  }
}
