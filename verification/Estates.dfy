/** What the tasks of kernel/sched/sched.c own, as values: every run and every
    address space belongs to at most one task, and ending a task returns all of it. */
module Estates {
  import opened Words
  import opened PageTables
  import opened Paging
  import opened HeapModel
  import opened TaskHeap

  /** Everything one task owns. */
  datatype Estate = Estate(heap: Heap, block: nat, name: nat, userStack: nat)

  ghost function EstateOf(t: Task): Estate
    reads t`space, t`heapCurrent, t`allocs, t`mad, t`name, t`userStack
  {
    Estate(HeapOf(t), BlockRun(t.block), BlockRun(t.name), BlockRun(t.userStack))
  }

  /** The runs of the task structure, its name and its kernel-space user stack. */
  function FixedRuns(e: Estate): set<nat> {
    {e.block, e.name} + if e.userStack == 0 then {} else {e.userStack}
  }

  ghost function RunsOfEstate(e: Estate): set<nat> {
    FixedRuns(e) + RunsOfHeap(e.heap)
  }

  ghost predicate EstateIn(e: Estate, spaces: Spaces, flat: PageMap, rest: map<nat, nat>) {
    && HeapIn(e.heap, spaces, flat, rest) && FixedRuns(e) <= rest.Keys && FixedRuns(e) !! RunsOfHeap(e.heap)
    && e.block != e.name && e.userStack != e.block && e.userStack != e.name
  }

  type Estates = map<Task, Estate>

  ghost function EstatesOf(tasks: set<Task>): Estates
    reads tasks`space, tasks`heapCurrent, tasks`allocs, tasks`mad, tasks`name, tasks`userStack
  {
    map t | t in tasks :: EstateOf(t)
  }

  ghost function AllRuns(es: Estates): set<nat> {
    set t, a | t in es && a in RunsOfEstate(es[t]) :: a
  }

  ghost function AllSpaces(es: Estates): set<nat> {
    set t | t in es && es[t].heap.space != KERNEL :: es[t].heap.space
  }

  /** Every task's estate is sound, and no two tasks share a run or a user space. */
  ghost predicate Settled(es: Estates, spaces: Spaces, flat: PageMap, rest: map<nat, nat>) {
    && (forall t :: t in es ==> EstateIn(es[t], spaces, flat, rest))
    && (forall t, u :: t in es && u in es && t != u ==> RunsOfEstate(es[t]) !! RunsOfEstate(es[u]))
    && (forall t, u :: t in es && u in es && t != u ==>
         es[t].heap.space == KERNEL || es[t].heap.space != es[u].heap.space)
  }

  lemma EstateRunsLive(e: Estate, spaces: Spaces, flat: PageMap, rest: map<nat, nat>)
    requires EstateIn(e, spaces, flat, rest)
    ensures RunsOfEstate(e) <= rest.Keys && e.heap.space in spaces
  {
  }

  /** An estate lives on when its heap pages, its table and its runs do. */
  lemma EstateStays(e: Estate, spaces: Spaces, flat: PageMap, rest: map<nat, nat>, spaces': Spaces, flat': PageMap,
      rest': map<nat, nat>)
    requires EstateIn(e, spaces, flat, rest)
    requires e.heap.space in spaces' && |spaces'[e.heap.space].owned| == PAGE_ENTRIES
    requires spaces[e.heap.space].owned[1] ==> spaces'[e.heap.space].owned[1]
    requires forall p: nat ::
      USER_HEAP_BASE / PAGE_SIZE <= p < e.heap.current / PAGE_SIZE && (e.heap.space, p) in flat ==>
      (e.heap.space, p) in flat' && flat'[(e.heap.space, p)] == flat[(e.heap.space, p)]
    requires forall a :: a in RunsOfEstate(e) && a in rest ==> a in rest' && rest'[a] == rest[a]
    ensures EstateIn(e, spaces', flat', rest')
  {
  }

  /** A task of the kernel's own space never has a heap page. */
  lemma KernelHeapIsEmpty(e: Estate, spaces: Spaces, flat: PageMap, rest: map<nat, nat>)
    requires EstateIn(e, spaces, flat, rest) && e.heap.space == KERNEL
    ensures e.heap.current == USER_HEAP_BASE
  {
  }

  // ---------------------------------------------------------------- one changes

  /** The memory moved for one task only: its own heap pages, its own table, its own runs. */
  ghost predicate MovedFor(e: Estate, e': Estate, spaces: Spaces, flat: PageMap, rest: map<nat, nat>,
      spaces': Spaces, flat': PageMap, rest': map<nat, nat>) {
    && e'.heap.space == e.heap.space && OwnsMore(spaces, spaces', e.heap.space)
    && OnlyHeapMoved(flat, flat', e.heap.space)
    && rest' - RunsOfEstate(e') == rest - RunsOfEstate(e)
  }

  lemma SettledChange(es: Estates, t: Task, e': Estate, spaces: Spaces, flat: PageMap, rest: map<nat, nat>,
      spaces': Spaces, flat': PageMap, rest': map<nat, nat>)
    requires Settled(es, spaces, flat, rest) && t in es && EstateIn(e', spaces', flat', rest')
    requires MovedFor(es[t], e', spaces, flat, rest, spaces', flat', rest')
    ensures Settled(es[t := e'], spaces', flat', rest')
    ensures rest' - AllRuns(es[t := e']) == rest - AllRuns(es)
    ensures AllSpaces(es[t := e']) == AllSpaces(es)
  {
    hide HeapIn, RunsOfHeap, FixedRuns, OnlyHeapMoved;
    var e, es' := es[t], es[t := e'];
    forall u | u in es && u != t
      ensures EstateIn(es[u], spaces', flat', rest') && RunsOfEstate(es[u]) !! RunsOfEstate(e')
    {
      ChangeElsewhere(e, e', es[u], spaces, flat, rest, spaces', flat', rest');
    }
    ChangedRuns(es, t, e', rest, rest');
    SameSpaces(es, t, e');
  }

  lemma SameSpaces(es: Estates, t: Task, e': Estate)
    requires t in es && e'.heap.space == es[t].heap.space
    ensures AllSpaces(es[t := e']) == AllSpaces(es)
  {
    var es' := es[t := e'];
    assert forall u :: u in es ==> u in es' && es'[u].heap.space == es[u].heap.space;
  }

  lemma ChangedRuns(es: Estates, t: Task, e': Estate, rest: map<nat, nat>, rest': map<nat, nat>)
    requires t in es && rest' - RunsOfEstate(e') == rest - RunsOfEstate(es[t])
    requires forall u :: u in es && u != t ==>
      RunsOfEstate(es[u]) !! RunsOfEstate(e') && RunsOfEstate(es[u]) !! RunsOfEstate(es[t])
    ensures rest' - AllRuns(es[t := e']) == rest - AllRuns(es)
  {
    AllRunsWithout(es, t);
    AllRunsWithout(es[t := e'], t);
    assert es[t := e'] - {t} == es - {t};
    MinusBoth(rest, RunsOfEstate(es[t]), AllRuns(es - {t}));
    MinusBoth(rest', RunsOfEstate(e'), AllRuns(es - {t}));
  }

  lemma AllRunsWithout(es: Estates, t: Task)
    requires t in es
    ensures AllRuns(es) == RunsOfEstate(es[t]) + AllRuns(es - {t})
  {
    hide RunsOfEstate;
    var rest := es - {t};
    forall a | a in AllRuns(es) ensures a in RunsOfEstate(es[t]) + AllRuns(rest) {
      var u :| u in es && a in RunsOfEstate(es[u]);
      assert u != t ==> u in rest && rest[u] == es[u];
    }
    forall a | a in AllRuns(rest) ensures a in AllRuns(es) {
      var u :| u in rest && a in RunsOfEstate(rest[u]);
      assert u in es && rest[u] == es[u];
    }
  }

  lemma ChangeElsewhere(e: Estate, e': Estate, f: Estate, spaces: Spaces, flat: PageMap, rest: map<nat, nat>,
      spaces': Spaces, flat': PageMap, rest': map<nat, nat>)
    requires MovedFor(e, e', spaces, flat, rest, spaces', flat', rest')
    requires EstateIn(f, spaces, flat, rest) && RunsOfEstate(e) !! RunsOfEstate(f)
    requires f.heap.space == KERNEL || f.heap.space != e.heap.space
    ensures EstateIn(f, spaces', flat', rest') && RunsOfEstate(f) !! RunsOfEstate(e')
  {
    hide HeapIn, RunsOfHeap, FixedRuns;
    EstateRunsLive(f, spaces, flat, rest);
    forall a | a in RunsOfEstate(f) ensures a !in RunsOfEstate(e') && a in rest' && rest'[a] == rest[a] {
      assert a in rest - RunsOfEstate(e);
      assert a in rest' - RunsOfEstate(e') && (rest' - RunsOfEstate(e'))[a] == (rest - RunsOfEstate(e))[a];
    }
    SpaceElsewhere(e, f, spaces, flat, rest, spaces', flat');
    EstateStays(f, spaces, flat, rest, spaces', flat', rest');
  }

  lemma SpaceElsewhere(e: Estate, f: Estate, spaces: Spaces, flat: PageMap, rest: map<nat, nat>, spaces': Spaces,
      flat': PageMap)
    requires EstateIn(f, spaces, flat, rest) && OwnsMore(spaces, spaces', e.heap.space)
      && OnlyHeapMoved(flat, flat', e.heap.space)
    requires f.heap.space == KERNEL || f.heap.space != e.heap.space
    ensures f.heap.space in spaces' && |spaces'[f.heap.space].owned| == PAGE_ENTRIES
    ensures spaces[f.heap.space].owned[1] ==> spaces'[f.heap.space].owned[1]
    ensures forall p: nat ::
      USER_HEAP_BASE / PAGE_SIZE <= p < f.heap.current / PAGE_SIZE && (f.heap.space, p) in flat ==>
      (f.heap.space, p) in flat' && flat'[(f.heap.space, p)] == flat[(f.heap.space, p)]
  {
    if f.heap.space == e.heap.space {
      KernelHeapIsEmpty(f, spaces, flat, rest);
    } else {
      assert spaces'[f.heap.space] == (spaces' - {e.heap.space})[f.heap.space];
      assert spaces[f.heap.space] == (spaces - {e.heap.space})[f.heap.space];
    }
  }

  // ------------------------------------------------------------- one comes, goes

  /** Runs that join, or spaces and pages that change elsewhere, do not unsettle anyone. */
  ghost predicate Spared(es: Estates, spaces: Spaces, flat: PageMap, rest: map<nat, nat>, spaces': Spaces,
      flat': PageMap, rest': map<nat, nat>) {
    && (forall t :: t in es && es[t].heap.space in spaces ==>
          es[t].heap.space in spaces' && spaces'[es[t].heap.space] == spaces[es[t].heap.space])
    && (forall t, p: nat :: t in es && (es[t].heap.space, p) in flat && HeapPage(p) ==>
          (es[t].heap.space, p) in flat' && flat'[(es[t].heap.space, p)] == flat[(es[t].heap.space, p)])
    && (forall t, a :: t in es && a in RunsOfEstate(es[t]) && a in rest ==> a in rest' && rest'[a] == rest[a])
  }

  lemma HeapEnds(e: Estate, spaces: Spaces, flat: PageMap, rest: map<nat, nat>)
    requires EstateIn(e, spaces, flat, rest)
    ensures e.heap.current <= USER_HEAP_END && e.heap.space in spaces && |spaces[e.heap.space].owned| == PAGE_ENTRIES
  {
  }

  lemma SettledSpared(es: Estates, spaces: Spaces, flat: PageMap, rest: map<nat, nat>, spaces': Spaces,
      flat': PageMap, rest': map<nat, nat>)
    requires Settled(es, spaces, flat, rest) && Spared(es, spaces, flat, rest, spaces', flat', rest')
    ensures Settled(es, spaces', flat', rest')
  {
    hide EstateIn, RunsOfEstate;
    forall t | t in es ensures EstateIn(es[t], spaces', flat', rest') {
      HeapEnds(es[t], spaces, flat, rest);
      var h := es[t].heap;
      forall p: nat | (h.space, p) in flat && USER_HEAP_BASE / PAGE_SIZE <= p < h.current / PAGE_SIZE
        ensures (h.space, p) in flat' && flat'[(h.space, p)] == flat[(h.space, p)]
      {
        assert HeapPage(p);
      }
      EstateStays(es[t], spaces, flat, rest, spaces', flat', rest');
    }
  }

  /** A new task brings its own runs and its own space. */
  lemma SettledAdd(es: Estates, t: Task, e: Estate, spaces: Spaces, flat: PageMap, rest: map<nat, nat>)
    requires Settled(es, spaces, flat, rest) && t !in es && EstateIn(e, spaces, flat, rest)
    requires forall u :: u in es ==> RunsOfEstate(es[u]) !! RunsOfEstate(e)
    requires e.heap.space == KERNEL || e.heap.space !in AllSpaces(es)
    ensures Settled(es[t := e], spaces, flat, rest)
    ensures AllRuns(es[t := e]) == RunsOfEstate(e) + AllRuns(es)
    ensures AllSpaces(es[t := e]) == AllSpaces(es) + if e.heap.space == KERNEL then {} else {e.heap.space}
  {
    hide EstateIn, RunsOfEstate;
    AllRunsWithout(es[t := e], t);
    assert es[t := e] - {t} == es;
    AddedSpace(es, t, e);
  }

  lemma AddedSpace(es: Estates, t: Task, e: Estate)
    requires t !in es
    ensures AllSpaces(es[t := e]) == AllSpaces(es) + if e.heap.space == KERNEL then {} else {e.heap.space}
  {
    var es' := es[t := e];
    assert es'[t] == e && forall u :: u in es ==> u in es' && es'[u] == es[u];
  }

  /** Ending a task returns its runs and its space; the others do not notice. */
  lemma SettledRemove(es: Estates, t: Task, spaces: Spaces, flat: PageMap, rest: map<nat, nat>)
    requires Settled(es, spaces, flat, rest) && t in es
    ensures Settled(es - {t}, spaces, flat, rest)
    ensures RunsOfEstate(es[t]) !! AllRuns(es - {t})
    ensures AllRuns(es) == RunsOfEstate(es[t]) + AllRuns(es - {t})
    ensures AllSpaces(es) == AllSpaces(es - {t}) + if es[t].heap.space == KERNEL then {} else {es[t].heap.space}
    ensures es[t].heap.space !in AllSpaces(es - {t})
  {
    hide EstateIn, RunsOfEstate;
    AllRunsWithout(es, t);
    AddedSpace(es - {t}, t, es[t]);
    assert (es - {t})[t := es[t]] == es;
  }
}
