/** Tasks and the run list: kernel/sched/sched.c over the memory of paging.c. */
module Sched {
  import opened Words
  import opened PageTables
  import opened Paging
  import opened HeapModel
  import opened RunQueue
  import QueueLaws
  import opened TaskHeap
  import opened Estates
  import PageAllocator
  import PageRuns

  /** sizeof(Task) and USER_STACK_SIZE. */
  const TASK_BYTES: nat := 8260
  const USER_STACK_SIZE: nat := 0x2000
  const USER_STACK_TOP: nat := 0x12_0000

  // ------------------------------------------------------------- task memory

  /** What a task structure says of itself, whatever the memory. */
  ghost predicate TaskOk(t: Task)
    reads t`userStack, t`heapCurrent, t`allocs, t`mad, t.mad
  {
    Tracked(t) && (t.userStack == 0 || t.userStack > BLOCK_HEADER)
  }

  ghost function MadsOf(users: set<Task>): set<Tracking>
    reads users`mad
  {
    set t | t in users && t.mad != null :: t.mad
  }

  /** The memory is in order and every one of these tasks has its estate. */
  ghost predicate Housed(m: Memory, users: set<Task>)
    reads m`tables, m`spaces, m`flat, m`rest, m`held, m.pages, m.pages.entries, MadsOf(users)
    reads users`space, users`heapCurrent, users`allocs, users`mad, users`name, users`userStack
  {
    && m.Valid() && (forall t :: t in users ==> TaskOk(t))
    && Settled(EstatesOf(users), m.spaces, m.flat, m.rest)
  }

  lemma HousedParts(m: Memory, users: set<Task>)
    requires Housed(m, users)
    ensures m.Valid() && (forall t :: t in users ==> TaskOk(t)) && Settled(EstatesOf(users), m.spaces, m.flat, m.rest)
  {
    hide m.Valid, Settled, TaskOk;
  }

  lemma HousedWhole(m: Memory, users: set<Task>)
    requires m.Valid() && (forall t :: t in users ==> TaskOk(t)) && Settled(EstatesOf(users), m.spaces, m.flat, m.rest)
    ensures Housed(m, users)
  {
    hide m.Valid, Settled, TaskOk;
  }

  /** The task's user memory: its own window pages and its heap. */
  ghost predicate Reaches(m: Memory, t: Task, a: nat)
    reads m`flat, t`space, t`allocs
  {
    || IsPrivate(m.flat, t.space, a / PAGE_SIZE)
    || exists v :: v in t.allocs && v <= a < v + t.allocs[v].size
  }

  /** What address `a` of task `t` stands on: byte `off` of live run `base`. */
  ghost predicate StandsOn(m: Memory, t: Task, a: nat, base: nat, off: nat)
    reads m`flat, m.pages`live, t`space
  {
    && a < 0x1_0000_0000 && m.Physical(t.space, a) == base + off
    && base in m.pages.live && off < PAGE_SIZE * m.pages.live[base]
  }

  lemma WindowStands(m: Memory, t: Task, a: nat)
    requires m.Valid() && IsPrivate(m.flat, t.space, a / PAGE_SIZE)
    ensures StandsOn(m, t, a, PageDown(m.flat[(t.space, a / PAGE_SIZE)]), a % PAGE_SIZE)
    ensures PageDown(m.flat[(t.space, a / PAGE_SIZE)]) !in m.rest
  {
    hide m.Valid, PageDown;
    m.PrivateFrame(t.space, a / PAGE_SIZE);
  }

  lemma HeapStands(m: Memory, users: set<Task>, t: Task, v: nat, a: nat)
    requires Housed(m, users) && t in users && v in t.allocs && v <= a < v + t.allocs[v].size
    ensures StandsOn(m, t, a, t.allocs[v].phys, a - v)
    ensures t.allocs[v].phys in m.rest && t.allocs[v].phys in RunsOfEstate(EstateOf(t))
  {
    hide m.Valid, HeapIn, Tracked;
    HousedParts(m, users);
    EstatesAre(users);
    HeapValidIs(t, m);
    AllocationFacts(HeapOf(t), m.spaces, m.flat, m.rest, v);
    HeapPageOf(HeapOf(t), m.spaces, m.flat, m.rest, v, a - v);
    HeapAddress(t, m, v, a - v);
  }

  lemma StandsApart(m: Memory, t: Task, u: Task, a: nat, b: nat, base: nat, off: nat, base': nat, off': nat)
    requires m.Valid() && StandsOn(m, t, a, base, off) && StandsOn(m, u, b, base', off')
    requires base != base' || off != off'
    ensures a < 0x1_0000_0000 && b < 0x1_0000_0000 && m.Physical(t.space, a) != m.Physical(u.space, b)
  {
    hide m.Valid, m.Physical, PageRuns.Structured;
    m.PagesAreStructured();
    PageAllocator.LiveApart(m.pages.Pages());
  }

  lemma WindowsApart(m: Memory, users: set<Task>, t: Task, u: Task, a: nat, b: nat)
    requires Housed(m, users) && t in users && u in users && (t != u || a != b)
    requires IsPrivate(m.flat, t.space, a / PAGE_SIZE) && IsPrivate(m.flat, u.space, b / PAGE_SIZE)
    ensures a < 0x1_0000_0000 && b < 0x1_0000_0000 && m.Physical(t.space, a) != m.Physical(u.space, b)
  {
    hide m.Valid, m.Physical, PageDown, TaskOk, StandsOn, EstateIn;
    HousedParts(m, users);
    EstatesAre(users);
    WindowStands(m, t, a);
    WindowStands(m, u, b);
    var p, q := a / PAGE_SIZE, b / PAGE_SIZE;
    if (t.space, p) != (u.space, q) {
      m.PrivateApart(t.space, p, u.space, q);
    } else {
      assert t == u;
    }
    StandsApart(m, t, u, a, b, PageDown(m.flat[(t.space, p)]), a % PAGE_SIZE, PageDown(m.flat[(u.space, q)]),
      b % PAGE_SIZE);
  }

  /** Heap runs of different tasks, or of different allocations, differ. */
  lemma HeapsApart(m: Memory, users: set<Task>, t: Task, u: Task, v: nat, w: nat)
    requires Housed(m, users) && t in users && u in users && (t != u || v != w)
    requires v in t.allocs && w in u.allocs
    ensures t.allocs[v].phys != u.allocs[w].phys
  {
    hide m.Valid, HeapIn, Tracked;
    HousedParts(m, users);
    EstatesAre(users);
    AllocationFacts(HeapOf(t), m.spaces, m.flat, m.rest, v);
    AllocationFacts(HeapOf(u), m.spaces, m.flat, m.rest, w);
    BackingOf(HeapOf(t), m.spaces, m.flat, m.rest);
  }

  /** No byte of physical memory is user memory twice: not of two tasks, not of one. */
  lemma TasksApart(m: Memory, users: set<Task>, t: Task, u: Task, a: nat, b: nat)
    requires Housed(m, users) && t in users && u in users && (t != u || a != b)
    requires Reaches(m, t, a) && Reaches(m, u, b)
    ensures a < 0x1_0000_0000 && b < 0x1_0000_0000 && m.Physical(t.space, a) != m.Physical(u.space, b)
  {
    hide m.Valid, Settled, Housed, TaskOk, StandsOn, PageDown, m.Physical;
    HousedParts(m, users);
    if IsPrivate(m.flat, t.space, a / PAGE_SIZE) {
      WindowStands(m, t, a);
      if IsPrivate(m.flat, u.space, b / PAGE_SIZE) {
        WindowStands(m, u, b);
        WindowsApart(m, users, t, u, a, b);
      } else {
        var w :| w in u.allocs && w <= b < w + u.allocs[w].size;
        HeapStands(m, users, u, w, b);
        StandsApart(m, t, u, a, b, PageDown(m.flat[(t.space, a / PAGE_SIZE)]), a % PAGE_SIZE, u.allocs[w].phys, b - w);
      }
    } else {
      var v :| v in t.allocs && v <= a < v + t.allocs[v].size;
      HeapStands(m, users, t, v, a);
      if IsPrivate(m.flat, u.space, b / PAGE_SIZE) {
        WindowStands(m, u, b);
        StandsApart(m, t, u, a, b, t.allocs[v].phys, a - v, PageDown(m.flat[(u.space, b / PAGE_SIZE)]), b % PAGE_SIZE);
      } else {
        var w :| w in u.allocs && w <= b < w + u.allocs[w].size;
        HeapStands(m, users, u, w, b);
        if t != u || v != w {
          HeapsApart(m, users, t, u, v, w);
        }
        StandsApart(m, t, u, a, b, t.allocs[v].phys, a - v, u.allocs[w].phys, b - w);
      }
    }
  }

  lemma EstatesAre(users: set<Task>)
    ensures EstatesOf(users).Keys == users && forall u :: u in users ==> EstatesOf(users)[u] == EstateOf(u)
  {
    hide EstateOf;
  }

  lemma EstatesPlus(users: set<Task>, t: Task)
    ensures EstatesOf(users + {t}) == EstatesOf(users)[t := EstateOf(t)]
  {
    hide EstateOf;
  }

  /** The estates when at most one task's has changed. */
  lemma OneMoves(es: Estates, users: set<Task>, t: Task)
    requires es.Keys == users && forall u :: u in users && u != t ==> EstateOf(u) == es[u]
    ensures EstatesOf(users) == if t in users then es[t := EstateOf(t)] else es
  {
    hide EstateOf;
  }

  /** The live runs that belong neither to an address space nor to one of these tasks. */
  ghost function Base(m: Memory, users: set<Task>): map<nat, nat>
    reads m`rest, users`space, users`heapCurrent, users`allocs, users`mad, users`name, users`userStack
  {
    m.rest - AllRuns(EstatesOf(users))
  }

  /** What the spaces hold that are not one of these tasks'. */
  ghost function BaseHeld(m: Memory, users: set<Task>): map<nat, set<nat>>
    reads m`held, users`space, users`heapCurrent, users`allocs, users`mad, users`name, users`userStack
  {
    m.held - AllSpaces(EstatesOf(users))
  }

  lemma FixedFacts(e: Estate, spaces: Spaces, flat: PageMap, rest: map<nat, nat>)
    requires EstateIn(e, spaces, flat, rest) && 0 !in rest
    ensures HeapIn(e.heap, spaces, flat, rest)
    ensures e.block != 0 && e.name != 0 && e.block != e.name && e.block in rest && e.name in rest
    ensures e.userStack != 0 ==> e.userStack in rest && e.userStack != e.block && e.userStack != e.name
    ensures FixedRuns(e) !! RunsOfHeap(e.heap) && RunsOfEstate(e) <= rest.Keys && FixedRuns(e) <= rest.Keys
  {
  }

  /** DestroyTask's frees, in the order of the source. */
  lemma FreedInTurn(e: Estate, rest: map<nat, nat>)
    requires FixedRuns(e) !! RunsOfHeap(e.heap) && FixedRuns(e) <= rest.Keys
    requires e.block != e.name && e.userStack != e.block && e.userStack != e.name
    ensures var a := rest - RunsOfHeap(e.heap); var b := if e.userStack == 0 then a else a - {e.userStack};
      && (e.userStack != 0 ==> e.userStack in a) && e.name in b && e.block in b - {e.name}
      && b - {e.name} - {e.block} == rest - RunsOfEstate(e)
  {
  }

  /** Frees everything one task owns: each run once, and nothing else. */
  method DestroyTask(t: Task, m: Memory)
    requires m.Valid() && TaskOk(t) && EstateIn(EstateOf(t), m.spaces, m.flat, m.rest)
    requires t.space != KERNEL && t.space in m.spaces ==> m.loaded != m.spaces[t.space].directory
    modifies t`mad, t`allocs, m`tables, m`spaces, m`flat, m`rest, m`held, m.pages`live, m.pages`free, m.pages`hint,
      m.pages.entries
    ensures m.Valid() && m.rest == old(m.rest) - old(RunsOfEstate(EstateOf(t)))
    ensures m.spaces == if t.space == KERNEL then old(m.spaces) else old(m.spaces) - {t.space}
    ensures m.flat == if t.space == KERNEL then old(m.flat) else Without(old(m.flat), t.space)
    ensures m.held == if t.space == KERNEL then old(m.held) else old(m.held) - {t.space}
  {
    hide m.Valid, EstateIn, RunsOfEstate, HeapIn, RunsOfHeap, FixedRuns, Tracked, HeapValid, HeapOwned, Without;
    ghost var e, rest := EstateOf(t), m.rest;
    FixedFacts(e, m.spaces, m.flat, m.rest);
    HeapValidIs(t, m);
    HeapHasSpace(e.heap, m.spaces, m.flat, m.rest);
    FreeTaskMallocAllocations(t, m);
    FreeParts(m, t.userStack, t.space, t.name, t.block, e, rest);
  }

  /** The rest of DestroyTask: stack, space, name and structure, in this order. */
  method FreeParts(m: Memory, userStack: nat, space: nat, name: nat, block: nat, ghost e: Estate,
      ghost rest: map<nat, nat>)
    requires m.Valid() && m.rest == rest - RunsOfHeap(e.heap) && space in m.spaces && 0 !in rest
    requires e.block == BlockRun(block) && e.name == BlockRun(name) && e.userStack == BlockRun(userStack)
    requires FixedRuns(e) !! RunsOfHeap(e.heap) && FixedRuns(e) <= rest.Keys
    requires userStack == 0 || userStack > BLOCK_HEADER
    requires e.block != e.name && e.userStack != e.block && e.userStack != e.name
    requires space != KERNEL ==> m.loaded != m.spaces[space].directory
    modifies m`tables, m`spaces, m`flat, m`rest, m`held, m.pages`live, m.pages`free, m.pages`hint, m.pages.entries
    ensures m.Valid() && m.rest == rest - RunsOfEstate(e)
    ensures m.spaces == if space == KERNEL then old(m.spaces) else old(m.spaces) - {space}
    ensures m.flat == if space == KERNEL then old(m.flat) else Without(old(m.flat), space)
    ensures m.held == if space == KERNEL then old(m.held) else old(m.held) - {space}
  {
    hide m.Valid, RunsOfEstate, RunsOfHeap, FixedRuns, Without;
    FreedInTurn(e, rest);
    BlocksAreRuns(e, rest);
    if userStack != 0 {
      m.kfree(userStack);
    }
    if space != KERNEL {
      m.PagingDestroyAddressSpace(space);
    }
    m.kfree(name);
    m.kfree(block);
  }

  /** Name and structure are real blocks. */
  lemma BlocksAreRuns(e: Estate, rest: map<nat, nat>)
    requires FixedRuns(e) <= rest.Keys && 0 !in rest
    ensures e.block != 0 && e.name != 0
  {
  }

  lemma HeapHasSpace(h: Heap, spaces: Spaces, flat: PageMap, rest: map<nat, nat>)
    requires HeapIn(h, spaces, flat, rest)
    ensures h.space in spaces
  {
  }

  /** Ends one task among others: what it owned is free, and nobody else notices. */
  method EndTask(t: Task, m: Memory, ghost users: set<Task>)
    requires Housed(m, users) && t in users
    requires t.space != KERNEL && t.space in m.spaces ==> m.loaded != m.spaces[t.space].directory
    modifies t`mad, t`allocs, m`tables, m`spaces, m`flat, m`rest, m`held, m.pages`live, m.pages`free, m.pages`hint,
      m.pages.entries
    ensures Housed(m, users - {t})
    ensures Base(m, users - {t}) == old(Base(m, users)) && BaseHeld(m, users - {t}) == old(BaseHeld(m, users))
    ensures m.spaces == if t.space == KERNEL then old(m.spaces) else old(m.spaces) - {t.space}
  {
    hide m.Valid, Settled, EstateIn, RunsOfEstate, EstateOf, Tracked, AllRuns, AllSpaces;
    ghost var es := EstatesOf(users);
    EstateHasSpace(t);
    SettledHas(es, m.spaces, m.flat, m.rest, t);
    DestroyTask(t, m);
    TaskEnded(es, t, old(m.spaces), old(m.flat), old(m.rest), old(m.held), m.spaces, m.flat, m.rest, m.held);
    assert EstatesOf(users - {t}) == es - {t};
  }

  lemma EstateHasSpace(t: Task)
    ensures EstateOf(t).heap.space == t.space
  {
  }

  lemma SettledHas(es: Estates, spaces: Spaces, flat: PageMap, rest: map<nat, nat>, t: Task)
    requires Settled(es, spaces, flat, rest) && t in es
    ensures EstateIn(es[t], spaces, flat, rest) && es[t].heap.space in spaces
  {
  }

  lemma TaskEnded(es: Estates, t: Task, spaces: Spaces, flat: PageMap, rest: map<nat, nat>, held: map<nat, set<nat>>,
                  spaces': Spaces, flat': PageMap, rest': map<nat, nat>, held': map<nat, set<nat>>)
    requires Settled(es, spaces, flat, rest) && t in es && rest' == rest - RunsOfEstate(es[t])
    requires spaces' == if es[t].heap.space == KERNEL then spaces else spaces - {es[t].heap.space}
    requires flat' == if es[t].heap.space == KERNEL then flat else Without(flat, es[t].heap.space)
    requires held' == if es[t].heap.space == KERNEL then held else held - {es[t].heap.space}
    ensures Settled(es - {t}, spaces', flat', rest')
    ensures rest' - AllRuns(es - {t}) == rest - AllRuns(es)
    ensures held' - AllSpaces(es - {t}) == held - AllSpaces(es)
  {
    hide Settled, EstateIn, RunsOfEstate, AllRuns, AllSpaces;
    var s := es[t].heap.space;
    SettledRemove(es, t, spaces, flat, rest);
    forall u, a | u in es - {t} && a in RunsOfEstate((es - {t})[u]) ensures a in AllRuns(es - {t}) {
      RunsAreAll(es - {t}, u);
    }
    forall u | u in es - {t} ensures s == KERNEL || es[u].heap.space != s {
      SpaceIsAll(es - {t}, u);
      assert (es - {t})[u] == es[u];
    }
    SettledSpared(es - {t}, spaces, flat, rest, spaces', flat', rest');
    MinusBoth(rest, RunsOfEstate(es[t]), AllRuns(es - {t}));
  }

  lemma RunsAreAll(es: Estates, u: Task)
    requires u in es
    ensures RunsOfEstate(es[u]) <= AllRuns(es)
  {
  }

  lemma SpaceIsAll(es: Estates, u: Task)
    requires u in es
    ensures es[u].heap.space == KERNEL || es[u].heap.space in AllSpaces(es)
  {
  }

  // ------------------------------------------------------------- a new task

  /** Blocks taken and given back: nobody's estate notices. */
  lemma HousedWith(m: Memory, users: set<Task>, spaces: Spaces, flat: PageMap, rest: map<nat, nat>)
    requires Settled(EstatesOf(users), spaces, flat, rest)
    requires m.spaces == spaces && m.flat == flat && forall a :: a in rest ==> a in m.rest && m.rest[a] == rest[a]
    ensures Settled(EstatesOf(users), m.spaces, m.flat, m.rest) && AllRuns(EstatesOf(users)) <= rest.Keys
  {
    hide EstateIn, RunsOfEstate;
    var es := EstatesOf(users);
    SettledSpared(es, spaces, flat, rest, m.spaces, m.flat, m.rest);
    forall t | t in es ensures RunsOfEstate(es[t]) <= rest.Keys {
      EstateRunsLive(es[t], spaces, flat, rest);
    }
  }

  /** kalloc among tasks. */
  method AllocateBlock(m: Memory, size: nat, ghost users: set<Task>) returns (p: nat)
    requires Housed(m, users) && 0 < size && BlockPages(size) <= PageRuns.MAX_RUN
    modifies m`rest, m.pages, m.pages.entries
    ensures Housed(m, users) && AllRuns(EstatesOf(users)) <= old(m.rest).Keys && 0 !in old(m.rest)
    ensures p == 0 ==> m.rest == old(m.rest)
    ensures p != 0 ==>
      p >= BLOCK_HEADER && BlockRun(p) !in old(m.rest) && m.rest == old(m.rest)[BlockRun(p) := BlockPages(size)]
    ensures p != 0 ==> p > BLOCK_HEADER
    ensures old(m.pages.refusals) <= m.pages.refusals && (p != 0 <==> m.pages.refusals == old(m.pages.refusals))
  {
    hide m.Valid, Settled, EstatesOf, AllRuns, BlockPages;
    p := m.kalloc(size);
    HousedWith(m, users, m.spaces, m.flat, old(m.rest));
    ZeroIsNoRun(m);
  }

  lemma ZeroIsNoRun(m: Memory)
    requires m.Valid()
    ensures 0 !in m.rest
  {
  }

  /** A task without heap is housed as soon as its blocks are. */
  lemma NewEstate(e: Estate, spaces: Spaces, flat: PageMap, rest: map<nat, nat>)
    requires e.heap == Heap(e.heap.space, USER_HEAP_BASE, map[], {}) && e.heap.space in spaces
      && |spaces[e.heap.space].owned| == PAGE_ENTRIES
    requires e.block in rest && e.name in rest && e.block != e.name && (e.userStack != 0 ==> e.userStack in rest)
    requires e.userStack != e.block && e.userStack != e.name
    ensures EstateIn(e, spaces, flat, rest) && RunsOfEstate(e) == FixedRuns(e)
  {
  }

  lemma SpacesHaveTables(m: Memory)
    requires m.Valid()
    ensures KERNEL in m.spaces && forall s :: s in m.spaces ==> |m.spaces[s].owned| == PAGE_ENTRIES
  {
  }

  /** The first half of CreateTask: the structure and a copy of the name. */
  method NewTask(m: Memory, nameLength: nat, start: nat, pid: int, ghost users: set<Task>) returns (t: Task?)
    requires Housed(m, users) && BlockPages(nameLength + 1) <= PageRuns.MAX_RUN
    modifies m`rest, m.pages, m.pages.entries
    ensures t == null ==> Housed(m, users) && m.rest == old(m.rest)
    ensures t != null ==> fresh(t) && t !in users && Housed(m, users + {t}) && t.pid == pid && t.start == start
    ensures t != null ==> JobOf(t) == Job(pid, false, false, 0, NoFrame) && t.next == null && !t.ring0
    ensures t != null ==>
      t.space == KERNEL && t.userStack == 0 && t.heapCurrent == USER_HEAP_BASE && t.mad == null && t.allocs == map[]
    ensures t != null ==>
      Base(m, users + {t}) == old(Base(m, users)) && BaseHeld(m, users + {t}) == old(BaseHeld(m, users))
    ensures old(m.pages.refusals) <= m.pages.refusals
    ensures t != null <==> m.pages.refusals == old(m.pages.refusals)
  {
    hide m.Valid, Housed, Settled, BlockPages, EstatesOf, AllRuns, AllSpaces, TaskOk;
    TaskPages();
    HousedParts(m, users);
    ghost var rest0 := m.rest;
    var block := AllocateBlock(m, TASK_BYTES, users);
    if block == 0 {
      return null;
    }
    ghost var rest1 := m.rest;
    m.PlusMinus(rest0, BlockRun(block), BlockPages(TASK_BYTES));
    var name := AllocateBlock(m, nameLength + 1, users);
    if name == 0 {
      GiveBlockBack(m, block, rest0, users);
      return null;
    }
    m.PlusMinus(rest1, BlockRun(name), BlockPages(nameLength + 1));
    t := HouseTask(m, block, name, start, pid, users, rest0, rest1);
  }

  /** kfree of a block just taken. */
  method GiveBlockBack(m: Memory, block: nat, ghost rest0: map<nat, nat>, ghost users: set<Task>)
    requires Housed(m, users) && Settled(EstatesOf(users), m.spaces, m.flat, rest0)
    requires block > BLOCK_HEADER && BlockRun(block) in m.rest && m.rest - {BlockRun(block)} == rest0
    modifies m`rest, m.pages`live, m.pages`free, m.pages`hint, m.pages.entries
    ensures Housed(m, users) && m.rest == rest0
  {
    hide m.Valid, Housed, Settled, EstatesOf, TaskOk;
    HousedParts(m, users);
    ObjectsOfTasks(users, m);
    m.kfree(block);
    HousedWhole(m, users);
  }

  lemma ObjectsOfTasks(users: set<Task>, m: Memory)
    ensures forall u: object :: u in users ==> u != m && u != m.pages && u != m.pages.entries
    ensures forall u :: u in users && u.mad != null ==> IsNoneOf(u.mad, u, m)
  {
  }

  /** Fills in the structure of a new task whose blocks are allocated. */
  method HouseTask(m: Memory, block: nat, name: nat, start: nat, pid: int, ghost users: set<Task>,
                   ghost rest0: map<nat, nat>, ghost rest1: map<nat, nat>) returns (t: Task)
    requires Housed(m, users) && AllRuns(EstatesOf(users)) <= rest0.Keys && block > BLOCK_HEADER && name > BLOCK_HEADER
    requires BlockRun(block) !in rest0 && BlockRun(block) in rest1 && rest1 - {BlockRun(block)} == rest0
    requires BlockRun(name) !in rest1 && BlockRun(name) in m.rest && m.rest - {BlockRun(name)} == rest1
    ensures fresh(t) && t !in users && Housed(m, users + {t}) && t.pid == pid && t.start == start
    ensures JobOf(t) == Job(pid, false, false, 0, NoFrame) && t.next == null && !t.ring0
    ensures t.space == KERNEL && t.userStack == 0 && t.heapCurrent == USER_HEAP_BASE && t.mad == null
      && t.allocs == map[]
    ensures Base(m, users + {t}) == rest0 - AllRuns(EstatesOf(users)) && BaseHeld(m, users + {t}) == BaseHeld(m, users)
  {
    hide m.Valid, Housed, Settled, EstatesOf, RunsOfEstate, EstateIn, FixedRuns, AllRuns, AllSpaces;
    HousedParts(m, users);
    ghost var es := EstatesOf(users);
    t := new Task(block, pid, name, start);
    ObjectsDiffer(users, t, m);
    EstatesAre(users);
    ghost var e := EstateOf(t);
    SpacesHaveTables(m);
    NewEstate(e, m.spaces, m.flat, m.rest);
    BlocksAreNew(es, t, e, rest0, rest1, m.rest);
    SettledAdd(es, t, e, m.spaces, m.flat, m.rest);
    EstatesPlus(users, t);
    HousedWhole(m, users + {t});
  }

  lemma TaskPages()
    ensures BlockPages(TASK_BYTES) == 3 && BlockPages(USER_STACK_SIZE) == 3
  {
  }

  lemma BlocksAreNew(es: Estates, t: Task, e: Estate, rest0: map<nat, nat>, rest1: map<nat, nat>, rest2: map<nat, nat>)
    requires AllRuns(es) <= rest0.Keys && RunsOfEstate(e) == FixedRuns(e) && e.userStack == 0
    requires e.block !in rest0 && rest1 - {e.block} == rest0 && e.name !in rest1 && rest2 - {e.name} == rest1
      && e.block in rest1
    ensures forall u :: u in es ==> RunsOfEstate(es[u]) !! RunsOfEstate(e)
    ensures rest2 - (RunsOfEstate(e) + AllRuns(es)) == rest0 - AllRuns(es)
  {
  }

  /** Where a user task's stack begins: its own block in the kernel's space, or the fixed window. */
  function StackTop(t: Task): nat
    reads t`space, t`userStack
  {
    if t.space == KERNEL then t.userStack + USER_STACK_SIZE else USER_STACK_TOP
  }

  /** The first frame of a user task; in the kernel's space it needs a user stack. */
  method SetupRing3Frame(t: Task, m: Memory, ghost users: set<Task>) returns (frame: Frame)
    requires Housed(m, users) && t in users
    modifies t`userStack, m`rest, m.pages, m.pages.entries
    ensures Housed(m, users) && Base(m, users) == old(Base(m, users)) && BaseHeld(m, users) == old(BaseHeld(m, users))
    ensures frame == NoFrame ==> t.space == KERNEL && m.rest == old(m.rest) && t.userStack == old(t.userStack)
    ensures frame != NoFrame ==> frame == UserEntry(t.start, StackTop(t))
    ensures frame != NoFrame ==>
      frame == UserEntry(t.start, if t.space == KERNEL then t.userStack + 0x2000 else 0x12_0000)
    ensures old(m.pages.refusals) <= m.pages.refusals
    ensures frame != NoFrame <==> m.pages.refusals == old(m.pages.refusals)
  {
    hide m.Valid, Housed, Settled, BlockPages, EstatesOf, EstateOf, AllRuns, AllSpaces, TaskOk;
    TaskPages();
    if t.space == KERNEL && t.userStack == 0 {
      EstatesAre(users);
      ObjectsDiffer(users, t, m);
      HousedParts(m, users);
      ghost var es, rest0 := EstatesOf(users), m.rest;
      var stack := AllocateBlock(m, USER_STACK_SIZE, users);
      if stack == 0 {
        return NoFrame;
      }
      GiveStack(t, m, stack, BlockPages(USER_STACK_SIZE), es, rest0, users);
    }
    return UserEntry(t.start, StackTop(t));
  }

  /** A block just taken becomes the user stack of a task. */
  method GiveStack(t: Task, m: Memory, stack: nat, ghost n: nat, ghost es: Estates, ghost rest0: map<nat, nat>,
      ghost users: set<Task>)
    requires Housed(m, users) && t in users && t.userStack == 0 && es == EstatesOf(users)
    requires Settled(es, m.spaces, m.flat, rest0)
    requires stack > BLOCK_HEADER && BlockRun(stack) !in rest0 && m.rest == rest0[BlockRun(stack) := n]
    modifies t`userStack
    ensures Housed(m, users) && t.userStack == stack
    ensures Base(m, users) == rest0 - AllRuns(es) && BaseHeld(m, users) == old(BaseHeld(m, users))
  {
    hide m.Valid, Housed, Settled, EstatesOf, EstateOf, AllRuns, AllSpaces, TaskOk;
    HousedParts(m, users);
    EstatesAre(users);
    ObjectsDiffer(users, t, m);
    SettledHas(es, m.spaces, m.flat, rest0, t);
    FreshStackEstate(t);
    StackIsOk(t);
    t.userStack := stack;
    FreshStackEstate(t);
    StackIsOk(t);
    OneMoves(es, users, t);
    StackJoins(es, t, EstateOf(t), m.spaces, m.flat, rest0, m.rest);
    HousedWhole(m, users);
  }

  lemma StackIsOk(t: Task)
    ensures TaskOk(t) <==> Tracked(t) && (t.userStack == 0 || t.userStack > BLOCK_HEADER)
  {
  }

  lemma FreshStackEstate(t: Task)
    ensures EstateOf(t) == Estate(HeapOf(t), BlockRun(t.block), BlockRun(t.name), BlockRun(t.userStack))
  {
  }

  lemma StackJoins(es: Estates, t: Task, e': Estate, spaces: Spaces, flat: PageMap, rest: map<nat, nat>,
      rest': map<nat, nat>)
    requires Settled(es, spaces, flat, rest) && t in es && es[t].userStack == 0 && e'.userStack != 0
    requires e' == es[t].(userStack := e'.userStack) && e'.userStack !in rest
    requires e'.userStack in rest' && rest' == rest[e'.userStack := rest'[e'.userStack]]
    ensures Settled(es[t := e'], spaces, flat, rest')
    ensures rest' - AllRuns(es[t := e']) == rest - AllRuns(es) && AllSpaces(es[t := e']) == AllSpaces(es)
  {
    hide Settled, HeapIn, RunsOfHeap, AllRuns, AllSpaces;
    var e := es[t];
    SettledHas(es, spaces, flat, rest, t);
    EstateRunsLive(e, spaces, flat, rest);
    HeapIgnores(e.heap, spaces, flat, rest, e'.userStack, rest'[e'.userStack]);
    NothingMoved(flat, e.heap.space);
    assert RunsOfEstate(e') == RunsOfEstate(e) + {e'.userStack};
    SettledChange(es, t, e', spaces, flat, rest, spaces, flat, rest');
  }

  /** One task's heap has moved; everybody is still housed. */
  lemma HeapMoves(es: Estates, t: Task, e': Estate, spaces: Spaces, flat: PageMap, rest: map<nat, nat>,
      held: map<nat, set<nat>>,
                  spaces': Spaces, flat': PageMap, rest': map<nat, nat>, held': map<nat, set<nat>>)
    requires Settled(es, spaces, flat, rest) && t in es && HeapIn(e'.heap, spaces', flat', rest')
    requires e' == es[t].(heap := e'.heap) && e'.heap.space == es[t].heap.space
    requires rest' - RunsOfHeap(e'.heap) == rest - RunsOfHeap(es[t].heap)
    requires OwnsMore(spaces, spaces', e'.heap.space) && OnlyHeapMoved(flat, flat', e'.heap.space)
    requires held' - {e'.heap.space} == held - {e'.heap.space} && (e'.heap.space == KERNEL ==> held' == held)
    ensures Settled(es[t := e'], spaces', flat', rest')
    ensures rest' - AllRuns(es[t := e']) == rest - AllRuns(es)
    ensures held' - AllSpaces(es[t := e']) == held - AllSpaces(es)
  {
    hide Settled, HeapIn, RunsOfHeap, AllRuns, AllSpaces, OwnsMore, OnlyHeapMoved;
    SettledHas(es, spaces, flat, rest, t);
    FixedStays(es[t], e', spaces, flat, rest, spaces', flat', rest');
    SettledChange(es, t, e', spaces, flat, rest, spaces', flat', rest');
    SpaceIsAll(es, t);
    HeldElse(held, held', AllSpaces(es), e'.heap.space);
  }

  lemma HeldElse(held: map<nat, set<nat>>, held': map<nat, set<nat>>, spaces: set<nat>, s: nat)
    requires held' - {s} == held - {s} && (s in spaces || held' == held)
    ensures held' - spaces == held - spaces
  {
    if s in spaces {
      assert held - spaces == held - {s} - spaces;
      assert held' - spaces == held' - {s} - spaces;
    }
  }

  lemma FixedStays(e: Estate, e': Estate, spaces: Spaces, flat: PageMap, rest: map<nat, nat>, spaces': Spaces,
      flat': PageMap, rest': map<nat, nat>)
    requires EstateIn(e, spaces, flat, rest) && HeapIn(e'.heap, spaces', flat', rest') && e' == e.(heap := e'.heap)
    requires rest' - RunsOfHeap(e'.heap) == rest - RunsOfHeap(e.heap)
    ensures EstateIn(e', spaces', flat', rest') && rest' - RunsOfEstate(e') == rest - RunsOfEstate(e)
  {
    hide HeapIn, RunsOfHeap;
    forall a | a in FixedRuns(e) ensures a in rest' && a !in RunsOfHeap(e'.heap) {
      assert a in rest - RunsOfHeap(e.heap);
    }
    MinusBoth(rest, RunsOfHeap(e.heap), FixedRuns(e));
    MinusBoth(rest', RunsOfHeap(e'.heap), FixedRuns(e));
    assert RunsOfHeap(e.heap) + FixedRuns(e) == RunsOfEstate(e)
      && RunsOfHeap(e'.heap) + FixedRuns(e) == RunsOfEstate(e');
  }

  /** Another task's arrays are other objects. */
  lemma OwnArrays(users: set<Task>, m: Memory, t: Task)
    requires Housed(m, users) && (t in users || t.mad == null)
    ensures forall u :: u in users && u != t && u.mad != null ==> u.mad != t.mad
  {
    hide m.Valid, EstateIn, HeapRuns, TaskOk;
    if t.mad == null {
      return;
    }
    var es := EstatesOf(users);
    forall u | u in users && u != t && u.mad != null ensures u.mad != t.mad {
      assert RunsOfEstate(es[t]) !! RunsOfEstate(es[u]);
      assert u.mad.at in RunsOfEstate(es[u]);
    }
  }

  lemma HeapOfTask(users: set<Task>, m: Memory, t: Task)
    requires Housed(m, users) && t in users
    ensures HeapValid(t, m) && Tracked(t)
  {
    hide m.Valid, HeapIn, Tracked, RunsOfEstate;
    var es := EstatesOf(users);
    SettledHas(es, m.spaces, m.flat, m.rest, t);
    assert es[t] == EstateOf(t);
    HeapValidIs(t, m);
  }

  lemma HeapOfUser(users: set<Task>, m: Memory, t: Task)
    requires Housed(m, users)
    ensures t in users ==> HeapValid(t, m) && Tracked(t)
    ensures HeapValid(t, m) <==> Tracked(t) && HeapIn(HeapOf(t), m.spaces, m.flat, m.rest)
    ensures HeapOwned(t) == RunsOfHeap(HeapOf(t))
  {
    HeapValidIs(t, m);
    if t in users {
      HeapOfTask(users, m, t);
    }
  }

  /** Tasks, their arrays and the memory are different objects. */
  lemma ObjectsDiffer(users: set<Task>, t: Task, m: Memory)
    ensures forall u: object :: u in users ==> u != t.mad && u != m && u != m.pages && u != m.pages.entries
    ensures forall u :: u in users && u.mad != null ==> IsNoneOf(u.mad, t, m)
  {
  }

  predicate IsNoneOf(x: object, t: Task, m: Memory) {
    x != t && x != m && x != m.pages && x != m.pages.entries
  }

  /** Only the heap of the task has changed. */
  twostate lemma HeapHasMoved(t: Task)
    requires t.space == old(t.space) && t.name == old(t.name) && t.userStack == old(t.userStack)
    ensures EstateOf(t) == old(EstateOf(t)).(heap := HeapOf(t)) && HeapOf(t).space == old(HeapOf(t)).space
    ensures EstateOf(t).heap == HeapOf(t) && old(EstateOf(t)).heap == old(HeapOf(t))
    ensures Tracked(t) && old(TaskOk(t)) ==> TaskOk(t)
  {
    hide Tracked;
  }

  /** SchedTaskMalloc among tasks: the others do not notice. The root, which is not among
      them, has no heap and gets nothing. */
  method HousedMalloc(t: Task, m: Memory, size: U32, ghost users: set<Task>) returns (r: U32)
    requires Housed(m, users) && (t in users || NoHeap(t))
    modifies t`heapCurrent, t`mad, t`allocs, t.mad
    modifies m`tables, m`spaces, m`flat, m`rest, m`held, m.pages, m.pages.entries
    ensures m.Valid() <==> IsSafe(size, old(m.pages.Pages()))
    ensures m.Valid() ==>
      Housed(m, users) && Base(m, users) == old(Base(m, users)) && BaseHeld(m, users) == old(BaseHeld(m, users))
    ensures MallocDone(t, m, size, r, old(CanMalloc(t, m, size)), old(Undoes(t, m, size))) && (r != 0 ==> m.Valid())
    ensures r != 0 <==> old(CanMalloc(t, m, size))
    ensures r == 0 ==> t.heapCurrent == old(t.heapCurrent) && t.allocs == old(t.allocs)
    ensures r != 0 ==> r == old(t.heapCurrent) && r in t.allocs && t.allocs == old(t.allocs)[r := t.allocs[r]]
    ensures r != 0 ==> t.heapCurrent == r + t.allocs[r].size
    ensures old(m.pages.refusals) <= m.pages.refusals
    ensures OwnsMore(old(m.spaces), m.spaces, t.space) && (t.mad == old(t.mad) || fresh(t.mad))
    ensures forall x :: x in MadsOf(users) ==> x in old(MadsOf(users)) || fresh(x)
    ensures old(NoHeap(t)) ==> NoHeap(t)
  {
    hide m.Valid, Housed, Settled, HeapValid, HeapIn, HeapOwned, Tracked, RunsOfHeap, RunsOfEstate, AllRuns, AllSpaces,
      OnlyHeapMoved, OwnsMore, CanMalloc, Undoes, PageAlignUp, PageAllocator.PageCount, PageAllocator.RunExists,
      AfterFailure, EstatesOf, EstateOf, TaskOk;
    HousedParts(m, users);
    EstatesAre(users);
    ghost var es := EstatesOf(users);
    HeapOfUser(users, m, t);
    OwnArrays(users, m, t);
    ObjectsDiffer(users, t, m);
    NothingOwned(t, m.rest);
    r := SchedTaskMalloc(t, m, size);
    forall x | x in MadsOf(users) ensures x in old(MadsOf(users)) || fresh(x) {
      var u :| u in users && u.mad == x;
      assert u != t ==> u.mad == old(u.mad);
    }
    if m.Valid() {
      OneMoves(es, users, t);
      if t in users {
        HeapValidIs(t, m);
        HeapHasMoved(t);
        HeapMoves(es, t, EstateOf(t), old(m.spaces), old(m.flat), old(m.rest), old(m.held), m.spaces, m.flat, m.rest,
          m.held);
      } else {
        NothingOwned(t, m.rest);
      }
      HousedWhole(m, users);
    }
  }

  /** A request that leaves the page words in order, whether or not it succeeds. */
  ghost predicate IsSafe(size: U32, pages: PageRuns.Pages) {
    PageAllocator.PageCount(size) <= PageRuns.MAX_RUN || !PageAllocator.RunExists(pages, PageAllocator.PageCount(size))
  }

  /** SchedTaskFree among tasks. */
  method HousedFree(t: Task, m: Memory, ptr: U32, ghost users: set<Task>) returns (r: int)
    requires Housed(m, users) && (t in users || NoHeap(t))
    modifies t`allocs, t.mad, m`tables, m`flat, m`rest, m`held
    modifies m.pages`live, m.pages`free, m.pages`hint, m.pages.entries
    ensures Housed(m, users) && Base(m, users) == old(Base(m, users)) && BaseHeld(m, users) == old(BaseHeld(m, users))
    ensures r == if ptr in old(t.allocs) then 0 else -1
    ensures t.allocs == old(t.allocs) - {ptr}
  {
    hide m.Valid, Housed, Settled, HeapValid, HeapIn, HeapOwned, Tracked, RunsOfHeap, RunsOfEstate, AllRuns, AllSpaces,
      OnlyHeapMoved, Unmapped, OwnsMore, EstatesOf, EstateOf, TaskOk;
    HousedParts(m, users);
    EstatesAre(users);
    ghost var es := EstatesOf(users);
    if t in users {
      HeapOfTask(users, m, t);
      HeapValidIs(t, m);
    }
    OwnArrays(users, m, t);
    ObjectsDiffer(users, t, m);
    r := SchedTaskFree(t, m, ptr);
    OneMoves(es, users, t);
    if t in users {
      HeapValidIs(t, m);
      OwnsItself(m.spaces, t.space);
      HeapHasMoved(t);
      HeapMoves(es, t, EstateOf(t), m.spaces, old(m.flat), old(m.rest), old(m.held), m.spaces, m.flat, m.rest, m.held);
    }
    HousedWhole(m, users);
  }

  // ------------------------------------------------------------ the linked list

  ghost function JobOf(t: Task): Job
    reads t`running, t`waiting, t`waitTarget, t`frame
  {
    Job(t.pid, t.running, t.waiting, t.waitTarget, t.frame)
  }

  ghost function Jobs(ts: seq<Task>): (r: seq<Job>)
    reads ts`running, ts`waiting, ts`waitTarget, ts`frame
    ensures |r| == |ts| && forall i :: 0 <= i < |r| ==> r[i] == JobOf(ts[i])
  {
    if ts == [] then [] else Jobs(ts[..|ts| - 1]) + [JobOf(ts[|ts| - 1])]
  }

  function Successor(ts: seq<Task>, i: nat): Task? {
    if i + 1 < |ts| then ts[i + 1] else null
  }

  ghost predicate Linked(ts: seq<Task>)
    reads ts`next
  {
    Distinct(ts) && forall i {:trigger ts[i].next} :: 0 <= i < |ts| ==> ts[i].next == Successor(ts, i)
  }

  /** All tasks but the root. */
  function Users(ts: seq<Task>): set<Task> {
    set i | 1 <= i < |ts| :: ts[i]
  }

  /** The task has the PID and runs. */
  predicate IsRunning(t: Task, pid: int)
    reads t`running
  {
    t.pid == pid && t.running
  }

  /** A new task that is ready to run, and runs from this frame. */
  predicate Joined(t: Task, pid: int, frame: Frame)
    reads t`running, t`waiting, t`frame
  {
    t.pid == pid && t.running && !t.waiting && t.frame == frame
  }

  /** Sets the wait fields of a task. */
  method WaitFor(t: Task, pid: int)
    modifies t`waiting, t`waitTarget
    ensures t.waiting && t.waitTarget == pid
  {
    t.waiting := true;
    t.waitTarget := pid;
  }

  /** Lets a new task run. */
  method MakeReady(t: Task, frame: Frame, ring0: bool)
    modifies t`frame, t`running, t`ring0
    ensures t.ring0 == ring0 && t.frame == frame && t.running
  {
    t.ring0 := ring0;
    t.frame := frame;
    t.running := true;
  }

  class Scheduler {
    const m: Memory
    const root: Task
    var active: Task
    var tail: Task
    var nextPid: int

    /** The listed tasks in order, and the place of the active one. */
    ghost var tasks: seq<Task>
    ghost var at: nat

    ghost predicate ListOk()
      reads this`tasks, this`tail, this`active, this`at, tasks`next
    {
      && |tasks| > 0 && tasks[0] == root && tail == tasks[|tasks| - 1] && Linked(tasks)
      && at < |tasks| && tasks[at] == active
    }

    ghost function View(): Queue
      reads this, tasks`running, tasks`waiting, tasks`waitTarget, tasks`frame
    {
      Queue(Jobs(tasks), at, nextPid)
    }

    /** The root lives in the kernel's space and has no heap. */
    ghost predicate RootOk()
      reads root`space, root`heapCurrent, root`allocs, root`mad
    {
      root.space == KERNEL && NoHeap(root)
    }

    /** The active task's directory is the one in CR3. */
    ghost predicate Loaded()
      reads this`active, active`space, m`spaces, m`loaded
    {
      active.space in m.spaces && m.loaded == m.spaces[active.space].directory
    }

    ghost predicate Valid()
      reads this, active, root, tasks, m, m.pages, m.pages.entries, MadsOf(Users(tasks))
    {
      ListOk() && Wf(View()) && Housed(m, Users(tasks)) && RootOk() && Loaded()
    }

    /** What Valid says, part by part. */
    lemma Parts()
      requires Valid()
      ensures ListOk() && Wf(View()) && Housed(m, Users(tasks)) && RootOk() && Loaded() && m.Valid()
    {
      hide ListOk, Wf, RootOk, Loaded, Users, m.Valid;
      HousedParts(m, Users(tasks));
    }

    lemma Whole()
      requires ListOk() && Wf(View()) && Housed(m, Users(tasks)) && RootOk() && Loaded()
      ensures Valid()
    {
      hide m.Valid, ListOk, Wf, Housed, RootOk, Loaded, Users;
    }

    /** SCHEDInit: the root task, in the kernel's space. */
    constructor (m: Memory)
      requires m.Valid() && m.loaded == m.spaces[KERNEL].directory
      ensures Valid() && this.m == m && tasks == [root] && fresh(root) && at == 0 && nextPid == 1
      ensures Base(m, Users(tasks)) == m.rest && BaseHeld(m, Users(tasks)) == m.held
    {
      hide m.Valid, Housed, EstatesOf, AllRuns, AllSpaces, Users, Valid, Jobs, BaseHeld;
      this.m := m;
      var r := new Task(0, 0, 0, 0);
      root, active, tail, nextPid := r, r, r, 1;
      tasks, at := [r], 0;
      new;
      r.running, r.ring0, r.heapCurrent := true, true, 0;
      NobodyHoused(m, tasks);
      Whole();
    }

    /** The first task with a PID: the walk that most calls of the scheduler begin with. */
    method FindTask(pid: int) returns (t: Task?, ghost k: nat)
      requires ListOk() && Wf(View())
      ensures t == null <==> !Listed(View(), pid)
      ensures t != null ==> k < |tasks| && tasks[k] == t && t.pid == pid && Index(View(), pid) == k
    {
      k := 0;
      t := root;
      while t != null
        invariant k <= |tasks| && t == if k < |tasks| then tasks[k] else null
        invariant forall i :: 0 <= i < k ==> View().jobs[i].pid != pid
        decreases |tasks| - k
      {
        if t.pid == pid {
          IndexIs(View(), k);
          return;
        }
        t := t.next;
        k := k + 1;
      }
    }

    /** Clears the wait fields of the `k`th task. */
    method DropWait(t: Task, ghost k: nat)
      requires ListOk() && k < |tasks| && tasks[k] == t
      modifies t`waiting, t`waitTarget
      ensures ListOk() && Jobs(tasks) == old(Jobs(tasks))[k := old(JobOf(t)).(waiting := false, target := 0)]
    {
      t.waiting := false;
      t.waitTarget := 0;
    }

    /** Whether the wait of the `k`th task still holds; a wait for a task that is gone is dropped. */
    method IsTaskWaitBlocked(t: Task, ghost k: nat) returns (blocked: bool)
      requires ListOk() && Wf(View()) && k < |tasks| && tasks[k] == t
      modifies t`waiting, t`waitTarget
      ensures blocked <==> old(t.waiting) && exists i :: 0 <= i < |tasks| && IsRunning(tasks[i], old(t.waitTarget))
      ensures t.waiting == blocked && t.waitTarget == if blocked || !old(t.waiting) then old(t.waitTarget) else 0
      ensures blocked <==> old(Blocked(View().jobs, JobOf(t)))
      ensures Jobs(tasks) == old(Jobs(tasks))[k := old(Cleared(View().jobs, JobOf(t)))] && ListOk()
    {
      hide m.Valid, ListOk, Wf, Jobs;
      if !t.waiting {
        return false;
      }
      AliveIs(tasks, View(), t.waitTarget);
      var target, i := FindTask(t.waitTarget);
      OnlyOneMayLive(View(), t.waitTarget);
      if target != null && target.running {
        return true;
      }
      DropWait(t, k);
      return false;
    }

    /** SchedNext: at most one trip round the list, then the task it stops at runs. */
    method SchedNext()
      requires ListOk() && Wf(View())
      requires forall t :: t in tasks ==> t.space in m.spaces
      modifies this`active, this`at, m`loaded, tasks`waiting, tasks`waitTarget
      ensures ListOk() && Loaded() && View() == Next(old(View()))
    {
      hide m.Valid, Wf, Looked, FirstFrom, Next, ListOk, Place, Loaded, Jobs;
      ghost var q, d := View(), 0;
      TripStarts(q);
      ListFacts(at);
      var candidate, chosen := active, false;
      while !chosen
        invariant chosen ==> ListOk() && Loaded() && View() == Next(q)
        invariant !chosen ==> Looking(q, d) && candidate == tasks[Place(q, d)]
        invariant tasks == old(tasks) && d <= |q.jobs|
        decreases !chosen, |q.jobs| - d
      {
        candidate, chosen := Look(candidate, q, d);
        d := d + 1;
      }
    }

    /** SchedNext has looked at `d` tasks of queue `q` and not found one. */
    ghost predicate Looking(q: Queue, d: nat)
      reads this`tasks, this`tail, this`active, this`at, this`nextPid
      reads tasks`next, tasks`running, tasks`waiting, tasks`waitTarget, tasks`frame
    {
      && ListOk() && Wf(q) && d < FirstFrom(q.jobs, q.active, 1) <= |q.jobs| == |tasks|
      && at == q.active && nextPid == q.nextPid && Jobs(tasks) == Looked(q, d)
    }

    /** One turn of SchedNext's loop. */
    method Look(previous: Task, ghost q: Queue, ghost d: nat) returns (candidate: Task, chosen: bool)
      requires Looking(q, d) && previous == tasks[Place(q, d)]
      requires forall t :: t in tasks ==> t.space in m.spaces
      modifies this`active, this`at, m`loaded, tasks`waiting, tasks`waitTarget
      ensures d < |q.jobs|
      ensures chosen ==> ListOk() && Loaded() && View() == Next(q)
      ensures !chosen ==> Looking(q, d + 1) && candidate == tasks[Place(q, d + 1)]
    {
      hide m.Valid, Wf, Looked, FirstFrom, Next, Blocked, Cleared, Behind, ListOk, Place, Loaded, Jobs;
      Trip(q, d);
      ghost var k := Place(q, d + 1);
      ListFacts(Place(q, d));
      ListFacts(k);
      candidate := if previous.next != null then previous.next else root;
      assert candidate == tasks[k];
      var blocked := IsTaskWaitBlocked(candidate, k);
      if !blocked {
        if candidate.running {
          Activate(candidate, k);
          return candidate, true;
        }
        if candidate == active {
          assert false;
        }
      }
      return candidate, false;
    }

    lemma ListFacts(k: nat)
      requires ListOk()
      ensures |tasks| > 0 && tasks[0] == root && at < |tasks| && tasks[at] == active
      ensures k < |tasks| ==> tasks[k].next == Successor(tasks, k) && (tasks[k] == active ==> k == at)
    {
    }

    /** Makes a task the active one and loads its directory. */
    method Activate(t: Task, ghost k: nat)
      requires ListOk() && k < |tasks| && tasks[k] == t && t.space in m.spaces
      modifies this`active, this`at, m`loaded
      ensures ListOk() && Loaded() && active == t && View() == old(View()).(active := k)
    {
      active, at := t, k;
      m.loaded := m.spaces[t.space].directory;
    }

    // ------------------------------------------------------------- new tasks

    /** Between CreateTask and its caller's last step: queue `q` with one task more that
        does not run yet. */
    ghost predicate Pending(q: Queue, t: Task)
      reads this, active`space, root`space, root`heapCurrent, root`allocs, root`mad, m`tables, m`spaces, m`flat,
        m`rest, m`held, m`loaded, m.pages, m.pages.entries
      reads tasks`next, tasks`running, tasks`waiting, tasks`waitTarget, tasks`frame
      reads tasks`space, tasks`heapCurrent, tasks`allocs, tasks`mad, tasks`name, tasks`userStack, MadsOf(Users(tasks))
    {
      && ListOk() && Housed(m, Users(tasks)) && RootOk() && Loaded()
      && |tasks| == |q.jobs| + 1 && |q.jobs| > 0 && tasks[|q.jobs|] == t && Jobs(tasks)[..|q.jobs|] == q.jobs
      && at == q.active < |q.jobs| && nextPid == q.nextPid + 1
      && t.pid == q.nextPid && Jobs(tasks)[|q.jobs|] == Job(t.pid, false, false, 0, NoFrame)
    }

    /** Puts a task at the end of the list. */
    method Link(t: Task)
      requires ListOk() && t !in tasks && t.next == null
      modifies this`tasks, this`tail, tail`next
      ensures ListOk() && tasks == old(tasks) + [t] && Users(tasks) == Users(old(tasks)) + {t}
    {
      tail.next := t;
      tail := t;
      LinkedUsers(tasks, t);
      tasks := tasks + [t];
    }

    /** CreateTask: nothing happens unless both blocks can be had. */
    method CreateTask(name: Option<nat>, start: nat) returns (t: Task?)
      requires Valid() && (name.Some? ==> BlockPages(name.value + 1) <= PageRuns.MAX_RUN)
      modifies this`tasks, this`tail, this`nextPid, tail`next, m`rest, m.pages, m.pages.entries
      ensures name.None? || start == 0 ==> t == null
      ensures t == null ==> Valid() && View() == old(View()) && tasks == old(tasks)
      ensures t != null ==> fresh(t) && Pending(old(View()), t) && tasks == old(tasks) + [t]
      ensures t != null ==> t.space == KERNEL && t.userStack == 0 && t.start == start
      ensures t != null ==> t.heapCurrent == 0x40_0000 && t.mad == null && t.allocs == map[]
      ensures AllSpaces(EstatesOf(Users(tasks))) == old(AllSpaces(EstatesOf(Users(tasks))))
      ensures Base(m, Users(tasks)) == old(Base(m, Users(tasks)))
        && BaseHeld(m, Users(tasks)) == old(BaseHeld(m, Users(tasks)))
      ensures old(m.pages.refusals) <= m.pages.refusals
      ensures t != null <==> name.Some? && start != 0 && m.pages.refusals == old(m.pages.refusals)
      ensures forall u :: u in tasks ==> u in old(tasks) || fresh(u)
      ensures MadsOf(Users(tasks)) <= old(MadsOf(Users(tasks)))
    {
      hide m.Valid, ListOk, Wf, Housed, Base, BaseHeld, Loaded, Jobs, BlockPages, AllSpaces, EstateOf, Pending;
      ghost var users := Users(tasks);
      ArraysAreNoTasks(users, tasks);
      if name.None? || start == 0 {
        return null;
      }
      t := NewTask(m, name.value, start, nextPid, users);
      if t == null {
        return;
      }
      LinkNew(t);
      EstateHasSpace(t);
      assert EstatesOf(users) == old(EstatesOf(users));
      AddedSpace(EstatesOf(users), t, EstateOf(t));
      EstatesPlus(users, t);
    }

    /** The second half of CreateTask: a place in the list and a PID. */
    method LinkNew(t: Task)
      requires ListOk() && Housed(m, Users(tasks) + {t}) && RootOk() && Loaded()
      requires t !in tasks && t.next == null && JobOf(t) == Job(nextPid, false, false, 0, NoFrame) && t.pid == nextPid
      modifies this`tasks, this`tail, this`nextPid, tail`next
      ensures Pending(old(View()), t) && tasks == old(tasks) + [t] && Users(tasks) == Users(old(tasks)) + {t}
      ensures Base(m, Users(tasks)) == old(Base(m, Users(tasks) + {t}))
        && BaseHeld(m, Users(tasks)) == old(BaseHeld(m, Users(tasks) + {t}))
    {
      hide m.Valid, ListOk, Wf, Housed, Base, BaseHeld, Loaded, Jobs;
      ArraysAreNoTasks(Users(tasks) + {t}, tasks);
      ListFacts(at);
      Link(t);
      nextPid := nextPid + 1;
      ghost var q := old(View());
      assert Loaded();
      assert Housed(m, Users(tasks));
      assert Jobs(tasks)[..|q.jobs|] == q.jobs;
      assert Jobs(tasks)[|q.jobs|] == JobOf(t);
    }

    /** Lets the last task run; the others keep their jobs. */
    method MakeLastReady(ghost q: Queue, t: Task, frame: Frame, ring0: bool)
      requires |tasks| == |q.jobs| + 1 && tasks[|q.jobs|] == t && Distinct(tasks)
      requires Jobs(tasks)[..|q.jobs|] == q.jobs && Jobs(tasks)[|q.jobs|] == Job(q.nextPid, false, false, 0, NoFrame)
      modifies t`frame, t`running, t`ring0
      ensures Jobs(tasks) == q.jobs + [Job(q.nextPid, true, false, 0, frame)]
      ensures Joined(t, q.nextPid, frame) && t.ring0 == ring0
    {
      MakeReady(t, frame, ring0);
      forall i | 0 <= i < |q.jobs| ensures JobOf(tasks[i]) == q.jobs[i] {
        assert tasks[i] != t && q.jobs[i] == old(Jobs(tasks))[..|q.jobs|][i];
      }
      assert old(Jobs(tasks))[|q.jobs|] == old(JobOf(t));
    }

    /** The last step of every Append: the new task may run. */
    method Start(ghost q: Queue, t: Task, frame: Frame, ring0: bool)
      requires Wf(q) && Pending(q, t) && frame != NoFrame
      modifies t`frame, t`running, t`ring0
      ensures Valid() && View() == Appended(q, Job(q.nextPid, true, false, 0, frame))
      ensures Joined(t, q.nextPid, frame) && t.ring0 == ring0
      ensures Base(m, Users(tasks)) == old(Base(m, Users(tasks)))
        && BaseHeld(m, Users(tasks)) == old(BaseHeld(m, Users(tasks)))
      ensures MadsOf(Users(tasks)) == old(MadsOf(Users(tasks)))
    {
      hide m.Valid, Wf, Housed, Base, BaseHeld, Jobs, JobOf, Loaded, Valid, RootOk, Joined;
      ArraysAreNoTask(Users(tasks), t);
      AppendedWf(q, Job(q.nextPid, true, false, 0, frame));
      MakeLastReady(q, t, frame, ring0);
      Whole();
    }

    /** A failed Append looks the new task up from the root, cuts it off and destroys it. */
    method Drop(ghost q: Queue, t: Task)
      requires Wf(q) && Pending(q, t)
      modifies this`tasks, this`tail, this`at, tasks`next, t`mad, t`allocs
      modifies m`tables, m`spaces, m`flat, m`rest, m`held, m.pages`live, m.pages`free, m.pages`hint, m.pages.entries
      ensures Valid() && View() == q.(nextPid := q.nextPid + 1)
      ensures Base(m, Users(tasks)) == old(Base(m, Users(tasks)))
        && BaseHeld(m, Users(tasks)) == old(BaseHeld(m, Users(tasks)))
      ensures tasks == old(tasks)[..|q.jobs|]
      ensures MadsOf(Users(tasks)) <= old(MadsOf(Users(tasks)))
    {
      hide m.Valid, Wf, Housed, Base, BaseHeld, Jobs, Loaded;
      ghost var n, k := |q.jobs|, 0;
      ghost var all := tasks;
      var current := root;
      while current.next != null && current.next != t
        invariant k < n && current == tasks[k]
        decreases n - k
      {
        current := current.next;
        k := k + 1;
      }
      ReapOne(current, t, n);
      assert tasks == all[..n];
      assert Jobs(tasks) == q.jobs;
      SkippedPid(q, 0);
      assert View() == q.(nextPid := q.nextPid + 1);
    }

    /** AppendTask: a user task in the kernel's space. -1 when memory is short. */
    method AppendTask(name: Option<nat>, start: nat) returns (pid: int)
      requires Valid() && (name.Some? ==> BlockPages(name.value + 1) <= PageRuns.MAX_RUN)
      modifies this`tasks, this`tail, this`at, this`nextPid, tasks`next, m`tables, m`spaces, m`flat, m`rest, m`held,
        m.pages, m.pages.entries
      ensures Valid() && (pid == -1 || pid == old(nextPid) >= 0)
      ensures pid >= 0 ==> |tasks| > 0 && fresh(tasks[|tasks| - 1]) && tasks[|tasks| - 1].space == KERNEL
      ensures pid >= 0 ==>
        View() == Appended(old(View()), Job(pid, true, false, 0, UserEntry(start, StackTop(tasks[|tasks| - 1]))))
      ensures pid >= 0 ==>
        && tasks == old(tasks) + [tasks[|tasks| - 1]]
        && Joined(tasks[|tasks| - 1], old(nextPid), UserEntry(start, tasks[|tasks| - 1].userStack + 0x2000))
      ensures pid == -1 ==> View() == old(View()) || View() == old(View()).(nextPid := old(nextPid) + 1)
      ensures Base(m, Users(tasks)) == old(Base(m, Users(tasks)))
        && BaseHeld(m, Users(tasks)) == old(BaseHeld(m, Users(tasks)))
      ensures old(m.pages.refusals) <= m.pages.refusals
      ensures pid >= 0 <==> name.Some? && start != 0 && m.pages.refusals == old(m.pages.refusals)
      ensures forall u :: u in tasks ==> u in old(tasks) || fresh(u)
      ensures MadsOf(Users(tasks)) <= old(MadsOf(Users(tasks)))
    {
      hide m.Valid, Valid, Pending, Base, BaseHeld, Housed, Wf, Users, Joined, Appended, StackTop;
      ghost var q := View();
      QueueIsInOrder();
      var t := CreateTask(name, start);
      if t == null {
        return -1;
      }
      pid := StartInKernel(q, t);
    }

    /** The second half of AppendTask. */
    method StartInKernel(ghost q: Queue, t: Task) returns (pid: int)
      requires Wf(q) && Pending(q, t) && t.space == KERNEL
      modifies this`tasks, this`tail, this`at, tasks`next, t`mad, t`allocs, t`userStack, t`frame, t`running, t`ring0
      modifies m`tables, m`spaces, m`flat, m`rest, m`held, m.pages, m.pages.entries
      ensures Valid() && t.space == KERNEL && t.start == old(t.start)
      ensures if pid >= 0 then tasks == old(tasks) && pid == q.nextPid else pid == -1 && tasks == old(tasks)[..|q.jobs|]
      ensures pid >= 0 ==> View() == Appended(q, Job(pid, true, false, 0, UserEntry(t.start, StackTop(t))))
      ensures pid >= 0 ==> Joined(t, q.nextPid, UserEntry(t.start, t.userStack + 0x2000))
      ensures pid == -1 ==> View() == q.(nextPid := q.nextPid + 1)
      ensures Base(m, Users(tasks)) == old(Base(m, Users(tasks)))
        && BaseHeld(m, Users(tasks)) == old(BaseHeld(m, Users(tasks)))
      ensures old(m.pages.refusals) <= m.pages.refusals && (pid >= 0 <==> m.pages.refusals == old(m.pages.refusals))
      ensures MadsOf(Users(tasks)) <= old(MadsOf(Users(tasks)))
    {
      hide m.Valid, Valid, Pending, Base, BaseHeld, Housed, Wf, Users, Joined;
      QueuePid(q);
      var frame := FirstFrame(q, t);
      if frame == NoFrame {
        Drop(q, t);
        return -1;
      }
      Start(q, t, frame, false);
      return t.pid;
    }

    lemma QueueIsInOrder()
      requires Valid()
      ensures Wf(View()) && 0 <= nextPid && ListOk() && m.Valid()
    {
    }

    /** SetupRing3Frame for a pending task. */
    method FirstFrame(ghost q: Queue, t: Task) returns (frame: Frame)
      requires Pending(q, t)
      modifies t`userStack, m`rest, m.pages, m.pages.entries
      ensures Pending(q, t) && t.pid == q.nextPid
      ensures frame == NoFrame ==> t.space == KERNEL
      ensures frame != NoFrame ==> frame == UserEntry(t.start, StackTop(t))
      ensures frame != NoFrame ==>
        frame == UserEntry(t.start, if t.space == KERNEL then t.userStack + 0x2000 else 0x12_0000)
      ensures Base(m, Users(tasks)) == old(Base(m, Users(tasks)))
        && BaseHeld(m, Users(tasks)) == old(BaseHeld(m, Users(tasks)))
      ensures old(m.pages.refusals) <= m.pages.refusals
      ensures frame != NoFrame <==> m.pages.refusals == old(m.pages.refusals)
      ensures MadsOf(Users(tasks)) == old(MadsOf(Users(tasks)))
    {
      hide m.Valid, ListOk, Wf, Housed, Base, BaseHeld, Loaded, Jobs;
      frame := SetupRing3Frame(t, m, Users(tasks));
    }

    /** AppendTaskRing0: a kernel task. */
    method AppendTaskRing0(name: Option<nat>, start: nat) returns (pid: int)
      requires Valid() && (name.Some? ==> BlockPages(name.value + 1) <= PageRuns.MAX_RUN)
      modifies this`tasks, this`tail, this`at, this`nextPid, tail`next, m`rest, m.pages, m.pages.entries
      ensures Valid() && (pid == -1 || pid == old(nextPid) >= 0)
      ensures pid >= 0 ==> View() == Appended(old(View()), Job(pid, true, false, 0, KernelEntry(start)))
      ensures pid >= 0 ==>
        && |tasks| > 0 && tasks == old(tasks) + [tasks[|tasks| - 1]] && tasks[|tasks| - 1].ring0
        && Joined(tasks[|tasks| - 1], old(nextPid), KernelEntry(start))
      ensures pid == -1 ==> View() == old(View())
      ensures Base(m, Users(tasks)) == old(Base(m, Users(tasks)))
        && BaseHeld(m, Users(tasks)) == old(BaseHeld(m, Users(tasks)))
      ensures old(m.pages.refusals) <= m.pages.refusals
      ensures pid >= 0 <==> name.Some? && start != 0 && m.pages.refusals == old(m.pages.refusals)
      ensures forall u :: u in tasks ==> u in old(tasks) || fresh(u)
      ensures MadsOf(Users(tasks)) <= old(MadsOf(Users(tasks)))
    {
      hide m.Valid, Valid, Pending, Base, BaseHeld, Housed, Wf, Joined;
      ghost var q := View();
      QueueIsInOrder();
      var t := CreateTask(name, start);
      if t == null {
        return -1;
      }
      PendingPid(q, t);
      Start(q, t, KernelEntry(start), true);
      return t.pid;
    }

    lemma PendingPid(q: Queue, t: Task)
      requires Pending(q, t)
      ensures t.pid == q.nextPid
    {
    }

    /** A pending task gets an address space of its own. */
    method Adopt(ghost q: Queue, t: Task, space: nat)
      requires Wf(q) && Pending(q, t) && t.space == KERNEL && t.heapCurrent == USER_HEAP_BASE && t.mad == null
        && t.allocs == map[]
      requires space in m.spaces && space != KERNEL && space !in AllSpaces(EstatesOf(Users(tasks)))
      modifies t`space
      ensures Pending(q, t) && t.space == space
      ensures Base(m, Users(tasks)) == old(Base(m, Users(tasks)))
        && BaseHeld(m, Users(tasks)) == old(BaseHeld(m, Users(tasks))) - {space}
      ensures MadsOf(Users(tasks)) == old(MadsOf(Users(tasks)))
    {
      hide ListOk, Wf, Jobs, m.Valid, Housed, Settled, EstatesOf, EstateOf, RunsOfEstate, EstateIn, AllRuns, AllSpaces,
        TaskOk, RootOk, Loaded, Users;
      HousedParts(m, Users(tasks));
      EstatesAre(Users(tasks));
      ObjectsDiffer(Users(tasks), t, m);
      FreshStackEstate(t);
      ghost var users, es := Users(tasks), EstatesOf(Users(tasks));
      NewIsUser(q, t);
      SpacesHaveTables(m);
      AdoptedSettled(es, t, space, m.spaces, m.flat, m.rest);
      HeldMinus(m.held, AllSpaces(es), space);
      t.space := space;
      FreshStackEstate(t);
      OneMoves(es, users, t);
      HousedWhole(m, users);
    }

    lemma NewIsUser(q: Queue, t: Task)
      requires Pending(q, t)
      ensures t in Users(tasks) && t != root && t != active
    {
    }

    /** AppendTaskWithAddressSpace: the space, which no task had, now belongs to the new task. */
    method AppendTaskWithAddressSpace(name: Option<nat>, start: nat, space: nat) returns (pid: int)
      requires Valid() && (name.Some? ==> BlockPages(name.value + 1) <= PageRuns.MAX_RUN)
      requires space in m.spaces && space != KERNEL && space !in AllSpaces(EstatesOf(Users(tasks)))
      modifies this`tasks, this`tail, this`at, this`nextPid, tail`next, m`rest, m.pages, m.pages.entries
      ensures Valid() && (pid == -1 || pid == old(nextPid) >= 0)
      ensures pid >= 0 ==> View() == Appended(old(View()), Job(pid, true, false, 0, UserEntry(start, USER_STACK_TOP)))
      ensures pid >= 0 ==> tasks[|tasks| - 1].space == space && fresh(tasks[|tasks| - 1])
      ensures pid >= 0 ==>
        && tasks == old(tasks) + [tasks[|tasks| - 1]]
        && Joined(tasks[|tasks| - 1], old(nextPid), UserEntry(start, 0x12_0000))
      ensures pid == -1 ==>
        && View() == old(View()) && Users(tasks) == old(Users(tasks))
        && AllSpaces(EstatesOf(Users(tasks))) == old(AllSpaces(EstatesOf(Users(tasks))))
      ensures Base(m, Users(tasks)) == old(Base(m, Users(tasks)))
      ensures BaseHeld(m, Users(tasks)) ==
        if pid >= 0 then old(BaseHeld(m, Users(tasks))) - {space} else old(BaseHeld(m, Users(tasks)))
      ensures old(m.pages.refusals) <= m.pages.refusals
      ensures pid >= 0 <==> name.Some? && start != 0 && m.pages.refusals == old(m.pages.refusals)
      ensures forall u :: u in tasks ==> u in old(tasks) || fresh(u)
      ensures MadsOf(Users(tasks)) <= old(MadsOf(Users(tasks)))
    {
      hide m.Valid, Valid, Pending, Base, BaseHeld, Housed, Wf, AllSpaces, EstatesOf, Users, Joined;
      ghost var q := View();
      QueueIsInOrder();
      var t := CreateTask(name, start);
      if t == null {
        return -1;
      }
      pid := StartIn(q, t, space);
    }

    /** The second half of AppendTaskWithAddressSpace. */
    method StartIn(ghost q: Queue, t: Task, space: nat) returns (pid: int)
      requires Wf(q) && Pending(q, t) && t.space == KERNEL && t.heapCurrent == USER_HEAP_BASE && t.mad == null
        && t.allocs == map[]
      requires space in m.spaces && space != KERNEL && space !in AllSpaces(EstatesOf(Users(tasks)))
      modifies t`space, t`userStack, t`frame, t`running, t`ring0, m`rest, m.pages, m.pages.entries
      ensures Valid() && pid == q.nextPid >= 0
      ensures View() == Appended(q, Job(pid, true, false, 0, UserEntry(t.start, USER_STACK_TOP))) && t.space == space
      ensures Joined(t, q.nextPid, UserEntry(t.start, 0x12_0000))
      ensures Base(m, Users(tasks)) == old(Base(m, Users(tasks)))
        && BaseHeld(m, Users(tasks)) == old(BaseHeld(m, Users(tasks))) - {space}
      ensures m.pages.refusals == old(m.pages.refusals)
      ensures MadsOf(Users(tasks)) == old(MadsOf(Users(tasks)))
    {
      hide m.Valid, Valid, Pending, Base, BaseHeld, Housed, Wf, AllSpaces, EstatesOf, Users, Joined;
      Adopt(q, t, space);
      QueuePid(q);
      var frame := FirstFrame(q, t);
      if frame == NoFrame {
        assert false;
      }
      Start(q, t, frame, false);
      return t.pid;
    }

    lemma QueuePid(q: Queue)
      requires Wf(q)
      ensures q.nextPid >= 0
    {
    }

    // --------------------------------------------------------- system calls

    /** SYS_KALLOC by the active task. */
    method TaskMalloc(size: U32) returns (r: U32)
      requires Valid()
      modifies active`heapCurrent, active`mad, active`allocs, active.mad
      modifies m`tables, m`spaces, m`flat, m`rest, m`held, m.pages, m.pages.entries
      ensures m.Valid() <==> IsSafe(size, old(m.pages.Pages()))
      ensures m.Valid() ==> Valid() && View() == old(View())
      ensures m.Valid() ==>
        && Base(m, Users(tasks)) == old(Base(m, Users(tasks)))
        && BaseHeld(m, Users(tasks)) == old(BaseHeld(m, Users(tasks)))
      ensures MallocDone(active, m, size, r, old(CanMalloc(active, m, size)), old(Undoes(active, m, size)))
      ensures r != 0 <==> old(CanMalloc(active, m, size))
      ensures r == 0 ==> active.heapCurrent == old(active.heapCurrent) && active.allocs == old(active.allocs)
      ensures r != 0 ==> r == old(active.heapCurrent) && r in active.allocs
      ensures r != 0 ==> active.allocs == old(active.allocs)[r := active.allocs[r]]
      ensures r != 0 ==> active.heapCurrent == r + active.allocs[r].size
      ensures (r != 0 ==> m.Valid()) && old(m.pages.refusals) <= m.pages.refusals
      ensures forall x :: x in MadsOf(Users(tasks)) ==> x in old(MadsOf(Users(tasks))) || fresh(x)
    {
      hide Valid, m.Valid, ListOk, Wf, Housed, Base, BaseHeld, Jobs, PageAlignUp, PageAllocator.PageCount, IsSafe,
        OwnsMore, MallocDone, CanMalloc, Undoes, Users, NoHeap, MadsOf;
      Parts();
      ActiveHasHeap();
      r := HousedMalloc(active, m, size, Users(tasks));
      SameDirectory(old(m.spaces), m.spaces, active.space);
      SameQueue();
      if m.Valid() {
        Whole();
      }
    }

    /** SYS_KFREE by the active task. */
    method TaskFree(ptr: U32) returns (r: int)
      requires Valid()
      modifies active`allocs, active.mad, m`tables, m`flat, m`rest, m`held
      modifies m.pages`live, m.pages`free, m.pages`hint, m.pages.entries
      ensures Valid() && View() == old(View())
      ensures Base(m, Users(tasks)) == old(Base(m, Users(tasks)))
        && BaseHeld(m, Users(tasks)) == old(BaseHeld(m, Users(tasks)))
      ensures r == if ptr in old(active.allocs) then 0 else -1
      ensures active.allocs == old(active.allocs) - {ptr}
    {
      hide Valid, m.Valid, ListOk, Wf, Housed, Base, BaseHeld, Jobs, Users;
      Parts();
      ActiveHasHeap();
      r := HousedFree(active, m, ptr, Users(tasks));
      SameQueue();
      Whole();
    }

    /** The list and the queue are as before when no link and no job has changed. */
    twostate lemma SameQueue()
      requires old(ListOk()) && tasks == old(tasks) && at == old(at) && active == old(active) && tail == old(tail)
      requires nextPid == old(nextPid)
      requires forall i :: 0 <= i < |tasks| ==>
        tasks[i].next == old(tasks[i].next) && JobOf(tasks[i]) == old(JobOf(tasks[i]))
      ensures ListOk() && View() == old(View())
    {
      hide m.Valid, JobOf;
      assert Jobs(tasks) == old(Jobs(tasks));
    }

    /** The active task is one of the tasks with an estate, or the root, which has no heap. */
    lemma ActiveHasHeap()
      requires Valid()
      ensures active in Users(tasks) || (active == root && NoHeap(active))
      ensures active in tasks && root in tasks && tail in tasks && (active in Users(tasks) ==> active != root)
      ensures active.mad != null ==> active.mad in MadsOf(Users(tasks))
    {
      hide m.Valid, Wf, Housed;
      ListFacts(at);
    }

    // --------------------------------------------------------- conservation

    /** No leak over a whole life: every call of the scheduler keeps Base and BaseHeld, so
        once all tasks made since are gone, every page that was free is free again. */
    twostate lemma NothingLeaks()
      requires old(Valid()) && Valid() && old(|tasks|) == 1 && |tasks| == 1
      requires Base(m, Users(tasks)) == old(Base(m, Users(tasks)))
        && BaseHeld(m, Users(tasks)) == old(BaseHeld(m, Users(tasks)))
      ensures PageRuns.FreePages(m.pages.Pages()) == old(PageRuns.FreePages(m.pages.Pages()))
    {
      hide ListOk, Wf, m.Valid, PageRuns.FreePages, TaskOk, Settled;
      NoEstates(EstatesOf(Users(tasks)));
      NoEstates(old(EstatesOf(Users(tasks))));
      assert m.rest - {} == m.rest && m.held - {} == m.held && old(m.rest) - {} == old(m.rest)
        && old(m.held) - {} == old(m.held);
      assert m.rest == old(m.rest) && m.held == old(m.held);
      m.SameParts();
    }

    // ------------------------------------------------------------- reaping

    /** Takes the `k`th task out of the list. */
    method Unlink(prev: Task, t: Task, ghost k: nat)
      requires ListOk() && 1 <= k < |tasks| && k != at && tasks[k - 1] == prev && tasks[k] == t
      modifies this`tasks, this`at, this`tail, prev`next
      ensures ListOk() && tasks == old(tasks)[..k] + old(tasks)[k + 1..]
      ensures at == if k < old(at) then old(at) - 1 else old(at)
      ensures Users(tasks) == Users(old(tasks)) - {t}
    {
      hide Users, Linked;
      LinkedOnce(tasks);
      UnlinkedUsers(tasks, k);
      prev.next := t.next;
      if tail == t {
        tail := prev;
      }
      Relinked(tasks, k);
      at := if k < at then at - 1 else at;
      tasks := tasks[..k] + tasks[k + 1..];
    }

    /** Unlinks and ends one dead task. Its space is not the loaded one. */
    method ReapOne(prev: Task, t: Task, ghost k: nat)
      requires ListOk() && Housed(m, Users(tasks)) && Loaded() && RootOk()
      requires 1 <= k < |tasks| && k != at && tasks[k - 1] == prev && tasks[k] == t
      modifies this`tasks, this`at, this`tail, prev`next, t`mad, t`allocs
      modifies m`tables, m`spaces, m`flat, m`rest, m`held, m.pages`live, m.pages`free, m.pages`hint, m.pages.entries
      ensures ListOk() && Housed(m, Users(tasks)) && Loaded() && RootOk()
      ensures tasks == old(tasks)[..k] + old(tasks)[k + 1..]
      ensures at == if k < old(at) then old(at) - 1 else old(at)
      ensures Base(m, Users(tasks)) == old(Base(m, Users(tasks)))
        && BaseHeld(m, Users(tasks)) == old(BaseHeld(m, Users(tasks)))
      ensures MadsOf(Users(tasks)) <= old(MadsOf(Users(tasks)))
    {
      hide m.Valid, Housed, Base, BaseHeld;
      ActiveSpaceDiffers(t, k);
      ghost var users := Users(tasks);
      EndTask(t, m, users);
      ArraysAreNoTask(users - {t}, prev);
      Unlink(prev, t, k);
    }

    /** A dead task's space is not the active task's, nor is its directory loaded. */
    lemma ActiveSpaceDiffers(t: Task, k: nat)
      requires ListOk() && Housed(m, Users(tasks)) && Loaded() && RootOk()
      requires 1 <= k < |tasks| && k != at && tasks[k] == t
      ensures t in Users(tasks) && t.space in m.spaces
      ensures t.space != KERNEL ==> active.space != t.space && m.loaded != m.spaces[t.space].directory
    {
      hide m.Valid, TaskOk, EstateIn, RunsOfEstate;
      var es := EstatesOf(Users(tasks));
      SettledHas(es, m.spaces, m.flat, m.rest, t);
      EstateHasSpace(t);
      if at > 0 {
        assert active in Users(tasks) && active != t;
        SettledHas(es, m.spaces, m.flat, m.rest, active);
        EstateHasSpace(active);
        assert es[t].heap.space == KERNEL || es[t].heap.space != es[active].heap.space;
      }
      if t.space != KERNEL {
        m.DirectoriesDiffer(active.space, t.space);
      }
    }

    /** SchedReapDeadTasks: ends every task that is dead and not active, and no other. */
    method SchedReapDeadTasks()
      requires Valid()
      modifies this`tasks, this`at, this`tail, tasks`next, tasks`mad, tasks`allocs
      modifies m`tables, m`spaces, m`flat, m`rest, m`held, m.pages`live, m.pages`free, m.pages`hint, m.pages.entries
      ensures Valid() && View() == Reap(old(View())) && active == old(active)
      ensures forall i :: 0 <= i < |tasks| ==> tasks[i] in old(tasks)
      ensures Base(m, Users(tasks)) == old(Base(m, Users(tasks)))
        && BaseHeld(m, Users(tasks)) == old(BaseHeld(m, Users(tasks)))
      ensures MadsOf(Users(tasks)) <= old(MadsOf(Users(tasks)))
    {
      hide m.Valid, ListOk, Wf, Housed, Base, BaseHeld, Loaded, Reap, Jobs, Users;
      ghost var q, all := View(), tasks;
      ReapTheDead();
      JobsKept(all, Staying(q));
      KeptSubset(all, Staying(q));
      assert Jobs(all) == q.jobs;
      ReapedWf(q, View());
    }

    /** The loop of SchedReapDeadTasks. */
    method ReapTheDead()
      requires ListOk() && Housed(m, Users(tasks)) && Loaded() && RootOk()
      modifies this`tasks, this`at, this`tail, tasks`next, tasks`mad, tasks`allocs
      modifies m`tables, m`spaces, m`flat, m`rest, m`held, m.pages`live, m.pages`free, m.pages`hint, m.pages.entries
      ensures ListOk() && Housed(m, Users(tasks)) && Loaded() && RootOk() && active == old(active)
      ensures tasks == Kept(old(tasks), Staying(old(View())))
      ensures Reap(old(View())) == Queue(Kept(old(View()).jobs, Staying(old(View()))), at, nextPid)
      ensures Base(m, Users(tasks)) == old(Base(m, Users(tasks)))
        && BaseHeld(m, Users(tasks)) == old(BaseHeld(m, Users(tasks)))
      ensures MadsOf(Users(tasks)) <= old(MadsOf(Users(tasks)))
    {
      hide m.Valid, ListOk, Wf, Housed, Base, BaseHeld, ReapState, Loaded, Reap, Jobs, Users, Kept;
      ghost var q, all, j, k := View(), tasks, 1, 1;
      ListFacts(0);
      ReapStart(q, all);
      var prev := root;
      var current := root.next;
      while current != null
        invariant 1 <= k <= |tasks| && tasks[k - 1] == prev && current == if k < |tasks| then tasks[k] else null
        invariant ReapState(q, all, tasks, at, j, k) && prev in all
        invariant ListOk() && Housed(m, Users(tasks)) && Loaded() && RootOk()
        invariant active == old(active) && nextPid == q.nextPid
        invariant MadsOf(Users(tasks)) <= old(MadsOf(Users(tasks)))
        invariant Base(m, Users(tasks)) == old(Base(m, Users(tasks)))
          && BaseHeld(m, Users(tasks)) == old(BaseHeld(m, Users(tasks)))
        decreases |all| - j
      {
        ListFacts(k);
        ListFacts(0);
        ReapAhead(q, all, tasks, at, j, k);
        assert Stays(q, j) <==> current.running || current == active;
        var next := current.next;
        if !current.running && current != active {
          ReapDrop(q, all, tasks, at, j, k);
          ReapOne(prev, current, k);
          current := next;
        } else {
          ReapSkip(q, all, tasks, at, j, k);
          prev := current;
          current := next;
          k := k + 1;
        }
        j := j + 1;
      }
      ReapEnd(q, all, tasks, at, j, k);
    }

    // -------------------------------------------------------------- schedule

    /** Schedule: saves the interrupted frame, reaps, moves on and resumes the frame saved
        for the task it has chosen. */
    method Schedule(frame: Frame) returns (r: Frame)
      requires Valid()
      modifies this`tasks, this`at, this`tail, this`active, active`frame, active`tick
      modifies tasks`next, tasks`mad, tasks`allocs, tasks`waiting, tasks`waitTarget
      modifies m`tables, m`spaces, m`flat, m`rest, m`held, m`loaded
      modifies m.pages`live, m.pages`free, m.pages`hint, m.pages.entries
      ensures Valid()
      ensures frame == NoFrame ==> r == NoFrame && View() == old(View())
      ensures frame != NoFrame ==> View() == Scheduled(old(View()), frame) && r == View().jobs[at].frame != NoFrame
      ensures frame != NoFrame ==> old(active).frame == frame && old(active).tick == old(active.tick) + 1
      ensures frame != NoFrame ==> active.running && !active.waiting && r == active.frame
      ensures active.space in m.spaces && m.loaded == m.spaces[active.space].directory
      ensures frame != NoFrame ==>
        forall t :: t in old(tasks) ==> (t in tasks <==> t == root || t.running || t == old(active))
      ensures Base(m, Users(tasks)) == old(Base(m, Users(tasks)))
        && BaseHeld(m, Users(tasks)) == old(BaseHeld(m, Users(tasks)))
      ensures forall u :: u in tasks ==> u in old(tasks)
      ensures MadsOf(Users(tasks)) <= old(MadsOf(Users(tasks)))
    {
      hide Valid, m.Valid, m.Domains, Wf, Housed, Base, BaseHeld, Loaded, RootOk, Jobs, Users, Scheduled, MadsOf;
      Parts();
      IsLoaded();
      if frame == NoFrame {
        return frame;
      }
      ListFacts(at);
      ghost var q, all := View(), tasks;
      Switch(frame);
      Parts();
      IsLoaded();
      ListFacts(at);
      TickDone(all, q, tasks, View(), frame);
      return active.frame;
    }

    lemma IsLoaded()
      requires Loaded()
      ensures active.space in m.spaces && m.loaded == m.spaces[active.space].directory
    {
    }

    /** The same, on a frame. */
    method Switch(frame: Frame)
      requires Valid() && frame != NoFrame
      modifies this`tasks, this`at, this`tail, this`active, active`frame, active`tick
      modifies tasks`next, tasks`mad, tasks`allocs, tasks`waiting, tasks`waitTarget
      modifies m`tables, m`spaces, m`flat, m`rest, m`held, m`loaded
      modifies m.pages`live, m.pages`free, m.pages`hint, m.pages.entries
      ensures Valid() && View() == Scheduled(old(View()), frame) && View().jobs[at].frame != NoFrame
      ensures old(active).frame == frame && old(active).tick == old(active.tick) + 1
      ensures Base(m, Users(tasks)) == old(Base(m, Users(tasks)))
        && BaseHeld(m, Users(tasks)) == old(BaseHeld(m, Users(tasks)))
      ensures forall u :: u in tasks ==> u in old(tasks)
      ensures MadsOf(Users(tasks)) <= old(MadsOf(Users(tasks)))
    {
      hide m.Valid, ListOk, Wf, Housed, Base, BaseHeld, Loaded, RootOk, Reap, Jobs, Users, Next, Saved, MadsOf;
      ghost var q := View();
      SaveFrame(frame);
      SchedReapDeadTasks();
      ScheduledKeeps(q, frame);
      Advance();
      ListFacts(at);
      if active.frame == NoFrame {
        assert false;
      }
    }

    /** SchedNext moves nothing but the choice, the waits and CR3. */
    method Advance()
      requires Valid() && View().jobs[at].frame != NoFrame
      modifies this`active, this`at, m`loaded, tasks`waiting, tasks`waitTarget
      ensures Valid() && View() == Next(old(View())) && tasks == old(tasks)
      ensures Base(m, Users(tasks)) == old(Base(m, Users(tasks)))
        && BaseHeld(m, Users(tasks)) == old(BaseHeld(m, Users(tasks)))
      ensures MadsOf(Users(tasks)) == old(MadsOf(Users(tasks)))
    {
      hide m.Valid, ListOk, Wf, Housed, Base, BaseHeld, Loaded, Jobs, Next;
      SpacesExist();
      NextKeeps(View());
      ghost var users := Users(tasks);
      ArraysAreNoTasks(users, tasks);
      SchedNext();
      assert Housed(m, users) && Base(m, users) == old(Base(m, users)) && BaseHeld(m, users) == old(BaseHeld(m, users));
    }

    /** The frame TimerISR interrupted becomes the active task's. */
    method SaveFrame(frame: Frame)
      requires Valid() && frame != NoFrame
      modifies active`frame, active`tick
      ensures active.frame == frame && active.tick == old(active.tick) + 1
      ensures Valid() && View() == Saved(old(View()), frame)
      ensures Base(m, Users(tasks)) == old(Base(m, Users(tasks)))
        && BaseHeld(m, Users(tasks)) == old(BaseHeld(m, Users(tasks)))
      ensures MadsOf(Users(tasks)) == old(MadsOf(Users(tasks)))
    {
      hide m.Valid, Wf, Housed, Base, BaseHeld, Jobs;
      ArraysAreNoTask(Users(tasks), active);
      SavedWf(View(), frame);
      active.frame := frame;
      active.tick := active.tick + 1;
      assert View() == Saved(old(View()), frame);
    }

    /** Every listed task has a space to load. */
    lemma SpacesExist()
      requires Valid()
      ensures forall t :: t in tasks ==> t.space in m.spaces
    {
      hide m.Valid, TaskOk, EstateIn, RunsOfEstate;
      forall t | t in tasks ensures t.space in m.spaces {
        if t != root {
          assert t in Users(tasks);
          SettledHas(EstatesOf(Users(tasks)), m.spaces, m.flat, m.rest, t);
          EstateHasSpace(t);
        }
      }
    }

    /** Marks a task dead; the scheduler reaps it once it is not active. */
    method Stop(t: Task, ghost k: nat)
      requires Valid() && k < |tasks| && tasks[k] == t
      modifies t`running
      ensures !t.running && View() == Killed(old(View()), t.pid) && (k != 0 ==> Valid())
    {
      hide m.Valid, Wf, Housed, Jobs;
      ArraysAreNoTask(Users(tasks), t);
      IndexIs(View(), k);
      OnlyRootIsZero(View(), k);
      if k != 0 {
        KillKeeps(View(), t.pid);
      }
      t.running := false;
      assert View().jobs == old(View()).jobs[k := JobOf(t)];
    }

    /** SchedMarkDead: the active task dies, unless it is the root. */
    method SchedMarkDead()
      requires Valid()
      modifies active`running
      ensures active.running == (old(active.running) && active == root)
      ensures Valid() && View() == if old(at) == 0 then old(View()) else Killed(old(View()), active.pid)
    {
      hide m.Valid, Wf, Housed, Jobs;
      RootIsFirst();
      if active == root {
        return;
      }
      Stop(active, at);
    }

    /** Listed tasks have different PIDs. */
    lemma PidsDiffer()
      requires Wf(View())
      ensures forall i, j :: 0 <= i < |tasks| && 0 <= j < |tasks| && tasks[i].pid == tasks[j].pid ==> i == j
      ensures forall i :: 0 <= i < |tasks| ==> Listed(View(), tasks[i].pid)
    {
      hide Listed;
      assert forall i :: 0 <= i < |tasks| ==> View().jobs[i].pid == tasks[i].pid;
      forall i | 0 <= i < |tasks| ensures Listed(View(), tasks[i].pid) {
        IndexIs(View(), i);
      }
    }

    lemma RootIsFirst()
      requires ListOk()
      ensures active == root <==> at == 0
    {
    }

    /** TaskKill and TaskKillDeferred: the task with this PID, if listed, runs no more. Killing
        PID 0, the root, leaves nothing that always can run. */
    method TaskKill(pid: int)
      requires Valid()
      modifies tasks`running
      ensures forall k :: 0 <= k < |tasks| ==> tasks[k].running == (old(tasks[k].running) && tasks[k].pid != pid)
      ensures View() == Killed(old(View()), pid) && (pid != 0 ==> Valid())
    {
      hide m.Valid, Wf, Housed, Jobs;
      ArraysAreNoTask(Users(tasks), root);
      PidsDiffer();
      var t, k := FindTask(pid);
      if t != null {
        OnlyRootIsZero(View(), k);
        Stop(t, k);
      }
    }

    /** SchedWaitPid: the active task waits for a listed, running task other than itself. */
    method SchedWaitPid(pid: int) returns (r: int)
      requires Valid()
      modifies active`waiting, active`waitTarget
      ensures View() == Waited(old(View()), pid) && (at != 0 || r != 1 ==> Valid())
      ensures r == if pid == active.pid then -1
        else if exists i :: 0 <= i < |tasks| && IsRunning(tasks[i], pid) then 1 else 0
      ensures if r == 1 then active.waiting && active.waitTarget == pid
        else active.waiting == old(active.waiting) && active.waitTarget == old(active.waitTarget)
    {
      hide m.Valid, Wf, Housed, Jobs;
      ArraysAreNoTask(Users(tasks), active);
      ListFacts(at);
      if pid == active.pid {
        return -1;
      }
      var t, k := FindTask(pid);
      OnlyOneMayLive(View(), pid);
      AliveIs(tasks, View(), pid);
      if t == null || !t.running {
        return 0;
      }
      StartWaiting(pid);
      return 1;
    }

    lemma ActiveIsOnce()
      requires ListOk()
      ensures at < |tasks| && tasks[at] == active && forall i :: 0 <= i < |tasks| && tasks[i] == active ==> i == at
    {
    }

    /** The queue when only the `k`th task has changed. */
    lemma JobChanges(jobs: seq<Job>, k: nat)
      requires k < |tasks| == |jobs| && forall i :: 0 <= i < |tasks| && i != k ==> JobOf(tasks[i]) == jobs[i]
      ensures Jobs(tasks) == jobs[k := JobOf(tasks[k])]
    {
      hide m.Valid, JobOf;
    }

    /** The last step of SchedWaitPid. */
    method StartWaiting(pid: int)
      requires Valid() && pid != ActivePid(View()) && Listed(View(), pid) && View().jobs[Index(View(), pid)].running
      modifies active`waiting, active`waitTarget
      ensures active.waiting && active.waitTarget == pid
      ensures View() == Waited(old(View()), pid) && (at != 0 ==> Valid())
    {
      hide m.Valid, Valid, ListOk, Wf, Housed, Jobs, RootOk, Loaded;
      Parts();
      ArraysAreNoTask(Users(tasks), active);
      ActiveIsOnce();
      if at != 0 {
        WaitKeeps(View(), pid);
      }
      WaitFor(active, pid);
      JobChanges(old(Jobs(tasks)), at);
      assert View() == Waited(old(View()), pid);
      if at != 0 {
        Whole();
      }
    }

    /** IsTaskActive. */
    method IsTaskActive(pid: int) returns (r: bool)
      requires Valid()
      ensures r <==> exists i :: 0 <= i < |tasks| && IsRunning(tasks[i], pid)
    {
      hide m.Valid, Wf, Housed, Jobs;
      var t, k := FindTask(pid);
      OnlyOneMayLive(View(), pid);
      AliveIs(tasks, View(), pid);
      return t != null && t.running;
    }
  }

  /** Who is listed after a tick, and that the one resumed can run. */
  lemma TickDone(all: seq<Task>, q: Queue, ts: seq<Task>, q': Queue, frame: Frame)
    requires Wf(q) && frame != NoFrame && q' == Scheduled(q, frame) && |q.jobs| == |all| && q'.jobs == Jobs(ts)
    requires forall k :: 0 <= k < |all| ==> q.jobs[k].pid == all[k].pid && q.jobs[k].running == all[k].running
    requires forall t :: t in ts ==> t in all
    ensures ts[q'.active].running && !ts[q'.active].waiting
    ensures forall k :: 0 <= k < |all| ==> (all[k] in ts <==> k == 0 || all[k].running || k == q.active)
  {
    hide Scheduled, Wf;
    QueueHasRoot(q);
    var c := QueueLaws.TickPicks(q, frame, 0);
    assert q'.jobs[q'.active] == JobOf(ts[q'.active]);
    forall k | 0 <= k < |all| ensures all[k] in ts <==> k == 0 || all[k].running || k == q.active {
      QueueLaws.TickKeeps(q, frame, k);
      ListedTask(all, q, ts, q', k);
    }
  }

  lemma QueueHasRoot(q: Queue)
    requires Wf(q)
    ensures |q.jobs| > 0 && q.active < |q.jobs|
  {
  }

  lemma ListedTask(all: seq<Task>, q: Queue, ts: seq<Task>, q': Queue, k: nat)
    requires Wf(q) && |q.jobs| == |all| && q'.jobs == Jobs(ts) && k < |all| && forall t :: t in ts ==> t in all
    requires forall i :: 0 <= i < |all| ==> q.jobs[i].pid == all[i].pid
    ensures all[k] in ts <==> exists i :: QueueLaws.IsJob(q', i, all[k].pid)
  {
    if all[k] in ts {
      var i :| 0 <= i < |ts| && ts[i] == all[k];
      assert q'.jobs[i] == JobOf(ts[i]) && QueueLaws.IsJob(q', i, all[k].pid);
    }
    if i :| QueueLaws.IsJob(q', i, all[k].pid) {
      assert q'.jobs[i] == JobOf(ts[i]) && ts[i] in all;
    }
  }

  lemma NextKeeps(q: Queue)
    requires Wf(q) && q.jobs[q.active].frame != NoFrame
    ensures Wf(Next(q))
  {
  }

  lemma ScheduledKeeps(q: Queue, frame: Frame)
    requires Wf(q) && frame != NoFrame
    ensures Wf(Reap(Saved(q, frame))) && Reap(Saved(q, frame)).jobs[Reap(Saved(q, frame)).active].frame != NoFrame
    ensures Scheduled(q, frame) == Next(Reap(Saved(q, frame))) && Wf(Scheduled(q, frame))
    ensures Scheduled(q, frame).jobs[Scheduled(q, frame).active].frame != NoFrame
  {
    SavedWf(q, frame);
    ReapKeeps(Saved(q, frame));
    NextChooses(Reap(Saved(q, frame)));
  }

  lemma OnlyRootIsZero(q: Queue, k: nat)
    requires Wf(q) && k < |q.jobs|
    ensures q.jobs[k].pid == 0 <==> k == 0
  {
  }

  lemma KillKeeps(q: Queue, pid: int)
    requires Wf(q) && pid != 0
    ensures Wf(Killed(q, pid))
  {
  }

  lemma WaitKeeps(q: Queue, pid: int)
    requires Wf(q) && q.active != 0
    ensures Wf(Waited(q, pid))
  {
  }

  lemma ReapedWf(q: Queue, q': Queue)
    requires Wf(q) && q' == Reap(q)
    ensures Wf(q')
  {
    ReapKeeps(q);
  }

  /** SchedReapDeadTasks half way: the first `k` listed tasks are those kept of the
      first `j`, the others are still to be looked at. */
  ghost predicate ReapState(q: Queue, all: seq<Task>, tasks: seq<Task>, at: nat, j: nat, k: nat) {
    && |all| == |q.jobs| && q.active < |all| && 1 <= j <= |all| && 1 <= k <= |tasks| && k == Count(Staying(q), j)
    && tasks[..k] == Kept(all[..j], Staying(q)[..j]) && tasks[k..] == all[j..]
    && at == if q.active < j then Count(Staying(q), q.active) else k + (q.active - j)
  }

  lemma ReapStart(q: Queue, all: seq<Task>)
    requires |all| == |q.jobs| && q.active < |all|
    ensures ReapState(q, all, all, q.active, 1, 1)
  {
  }

  lemma ReapAhead(q: Queue, all: seq<Task>, tasks: seq<Task>, at: nat, j: nat, k: nat)
    requires ReapState(q, all, tasks, at, j, k) && k < |tasks|
    ensures j < |all| && tasks[k] == all[j] && (k == at <==> j == q.active)
  {
    assert tasks[k] == tasks[k..][0];
    CountStep(Staying(q), q.active, j);
  }

  lemma ReapSkip(q: Queue, all: seq<Task>, tasks: seq<Task>, at: nat, j: nat, k: nat)
    requires ReapState(q, all, tasks, at, j, k) && k < |tasks| && j < |all| && Stays(q, j)
    ensures ReapState(q, all, tasks, at, j + 1, k + 1)
  {
    ReapAhead(q, all, tasks, at, j, k);
    KeptStep(all, Staying(q), j);
    CountStep(Staying(q), q.active, j);
    assert tasks[..k + 1] == tasks[..k] + [tasks[k]];
    assert tasks[k + 1..] == tasks[k..][1..] && all[j + 1..] == all[j..][1..];
  }

  lemma ReapDrop(q: Queue, all: seq<Task>, tasks: seq<Task>, at: nat, j: nat, k: nat)
    requires ReapState(q, all, tasks, at, j, k) && k < |tasks| && j < |all| && !Stays(q, j)
    ensures ReapState(q, all, tasks[..k] + tasks[k + 1..], if k < at then at - 1 else at, j + 1, k)
  {
    ReapAhead(q, all, tasks, at, j, k);
    KeptStep(all, Staying(q), j);
    CountStep(Staying(q), q.active, j);
    assert tasks[k + 1..] == tasks[k..][1..] && all[j + 1..] == all[j..][1..];
    assert (tasks[..k] + tasks[k + 1..])[k..] == tasks[k + 1..];
  }

  lemma ReapEnd(q: Queue, all: seq<Task>, tasks: seq<Task>, at: nat, j: nat, k: nat)
    requires ReapState(q, all, tasks, at, j, k) && k == |tasks|
    ensures tasks == Kept(all, Staying(q)) && Reap(q) == Queue(Kept(q.jobs, Staying(q)), at, q.nextPid)
  {
    assert all[j..] == [] && tasks[..k] == tasks && all[..j] == all && Staying(q)[..j] == Staying(q);
  }

  lemma KeptSubset(ts: seq<Task>, stays: seq<bool>)
    requires |ts| == |stays|
    ensures forall t :: t in Kept(ts, stays) ==> t in ts
  {
  }

  lemma {:induction false} JobsKept(ts: seq<Task>, stays: seq<bool>)
    requires |ts| == |stays|
    ensures Jobs(Kept(ts, stays)) == Kept(Jobs(ts), stays)
  {
    if ts != [] {
      var n := |ts| - 1;
      JobsKept(ts[..n], stays[..n]);
      assert Jobs(ts)[..n] == Jobs(ts[..n]);
    }
  }

  /** A PID is alive exactly if its one task runs. */
  /** A PID's one task runs, or none does. */
  lemma AliveIs(ts: seq<Task>, q: Queue, pid: int)
    requires q.jobs == Jobs(ts)
    ensures Alive(q.jobs, pid) <==> exists i :: 0 <= i < |ts| && IsRunning(ts[i], pid)
  {
    if Alive(q.jobs, pid) {
      var k :| 0 <= k < |q.jobs| && q.jobs[k].pid == pid && q.jobs[k].running;
      assert q.jobs[k] == JobOf(ts[k]) && IsRunning(ts[k], pid);
    }
    if i :| 0 <= i < |ts| && IsRunning(ts[i], pid) {
      assert q.jobs[i] == JobOf(ts[i]);
    }
  }

  lemma OnlyOneMayLive(q: Queue, pid: int)
    requires Wf(q)
    ensures Alive(q.jobs, pid) <==> Listed(q, pid) && q.jobs[Index(q, pid)].running
  {
  }

  /** The place SchedNext has reached after `d` steps. */
  ghost function Place(q: Queue, d: nat): (k: nat)
    requires q.active < |q.jobs| && d <= |q.jobs|
    ensures k < |q.jobs|
  {
    if d == 0 then q.active else Behind(q.active, d, |q.jobs|)
  }

  lemma TripStarts(q: Queue)
    requires Wf(q)
    ensures 0 < FirstFrom(q.jobs, q.active, 1) <= |q.jobs| && Looked(q, 0) == q.jobs && Place(q, 0) == q.active
  {
    RootIsEligible(q);
  }

  /** One step of SchedNext: it stops exactly at the first eligible task. */
  lemma Trip(q: Queue, d: nat)
    requires Wf(q) && d < FirstFrom(q.jobs, q.active, 1)
    ensures Place(q, d + 1) == if Place(q, d) + 1 < |q.jobs| then Place(q, d) + 1 else 0
    ensures Wf(q.(jobs := Looked(q, d)))
    ensures var k, jobs := Place(q, d + 1), Looked(q, d);
      && jobs[k := Cleared(jobs, jobs[k])] == Looked(q, d + 1)
      && (!Blocked(jobs, jobs[k]) && jobs[k].running ==> Next(q) == q.(jobs := Looked(q, d + 1), active := k))
      && (Blocked(jobs, jobs[k]) || !jobs[k].running ==> d + 1 < FirstFrom(q.jobs, q.active, 1) && k != q.active)
  {
    var k := Place(q, d + 1);
    assert Ahead(q.active, k, |q.jobs|) == d + 1;
    LookedWf(q, d);
    LookedSame(q, d, k);
    LookedStep(q, d, k);
    assert Eligible(q.jobs, q.jobs[k]) <==> !Blocked(Looked(q, d), Looked(q, d)[k]) && Looked(q, d)[k].running;
  }

  lemma LinkedUsers(ts: seq<Task>, t: Task)
    requires |ts| > 0
    ensures Users(ts + [t]) == Users(ts) + {t}
  {
    var us := ts + [t];
    assert us[|ts|] == t;
    forall i | 1 <= i < |ts| ensures ts[i] in Users(us) {
      assert us[i] == ts[i];
    }
  }

  lemma LinkedOnce(ts: seq<Task>)
    requires Linked(ts)
    ensures Distinct(ts) && forall i {:trigger ts[i].next} :: 0 <= i < |ts| ==> ts[i].next == Successor(ts, i)
  {
  }

  /** The list without element `k`, once its predecessor skips it. */
  lemma Relinked(ts: seq<Task>, k: nat)
    requires 1 <= k < |ts| && Distinct(ts) && ts[k - 1].next == Successor(ts, k)
    requires forall i {:trigger ts[i].next} :: 0 <= i < |ts| && i != k - 1 ==> ts[i].next == Successor(ts, i)
    ensures Linked(ts[..k] + ts[k + 1..])
  {
    var us := ts[..k] + ts[k + 1..];
    forall i | 0 <= i < |us| ensures us[i].next == Successor(us, i) {
      var j := if i < k then i else i + 1;
      assert us[i] == ts[j] && (i == k - 1 ==> Successor(us, i) == Successor(ts, k));
    }
  }

  lemma UnlinkedUsers(ts: seq<Task>, k: nat)
    requires 1 <= k < |ts| && Distinct(ts)
    ensures Users(ts[..k] + ts[k + 1..]) == Users(ts) - {ts[k]}
  {
    var us := ts[..k] + ts[k + 1..];
    forall i | 1 <= i < |ts| && i != k ensures ts[i] in Users(us) {
      var j := if i < k then i else i - 1;
      assert us[j] == ts[i];
    }
    forall j | 1 <= j < |us| ensures us[j] in Users(ts) - {ts[k]} {
      var i := if j < k then j else j + 1;
      assert us[j] == ts[i];
    }
  }

  lemma CountStep(stays: seq<bool>, a: nat, j: nat)
    requires j < |stays| && a < |stays| && stays[a]
    ensures Count(stays, j + 1) == Count(stays, j) + if stays[j] then 1 else 0
    ensures a < j ==> Count(stays, a) < Count(stays, j)
  {
    if a < j {
      CountBetween(stays, a, j);
    }
  }

  /** The arrays behind a heap are no task structure. */
  lemma ArraysAreNoTask(users: set<Task>, t: Task)
    ensures forall x: object :: x in MadsOf(users) ==> x != t
  {
  }

  lemma ArraysAreNoTasks(users: set<Task>, ts: seq<Task>)
    ensures forall x: object, i :: x in MadsOf(users) && 0 <= i < |ts| ==> x != ts[i]
  {
  }

  lemma SameDirectory(spaces: Spaces, spaces': Spaces, s: nat)
    requires OwnsMore(spaces, spaces', s) && s in spaces
    ensures s in spaces' && spaces'[s].directory == spaces[s].directory
  {
  }

  lemma HeldMinus(held: map<nat, set<nat>>, spaces: set<nat>, space: nat)
    ensures held - (spaces + {space}) == held - spaces - {space}
  {
  }

  lemma AdoptedSettled(es: Estates, t: Task, space: nat, spaces: Spaces, flat: PageMap, rest: map<nat, nat>)
    requires Settled(es, spaces, flat, rest) && t in es && es[t].heap == Heap(KERNEL, USER_HEAP_BASE, map[], {})
    requires space in spaces && space != KERNEL && space !in AllSpaces(es) && |spaces[space].owned| == PAGE_ENTRIES
    ensures var e' := es[t].(heap := es[t].heap.(space := space));
            && Settled(es[t := e'], spaces, flat, rest) && AllRuns(es[t := e']) == AllRuns(es)
            && AllSpaces(es[t := e']) == AllSpaces(es) + {space}
  {
    hide Settled, AllRuns, AllSpaces;
    var e' := es[t].(heap := es[t].heap.(space := space));
    SettledHas(es, spaces, flat, rest, t);
    SettledRemove(es, t, spaces, flat, rest);
    NewEstate(e', spaces, flat, rest);
    forall u | u in es - {t} ensures RunsOfEstate((es - {t})[u]) !! RunsOfEstate(e') {
      RunsAreAll(es - {t}, u);
    }
    SettledAdd(es - {t}, t, e', spaces, flat, rest);
    assert (es - {t})[t := e'] == es[t := e'];
  }

  /** With the root alone nobody has an estate. */
  lemma NobodyHoused(m: Memory, ts: seq<Task>)
    requires m.Valid() && |ts| == 1
    ensures Housed(m, Users(ts)) && Base(m, Users(ts)) == m.rest && BaseHeld(m, Users(ts)) == m.held
  {
    hide m.Valid;
    assert Users(ts) == {};
    NoEstates(EstatesOf(Users(ts)));
  }

  lemma NoEstates(es: Estates)
    requires es == map[]
    ensures AllRuns(es) == {} && AllSpaces(es) == {}
  {
  }

  lemma LookedWf(q: Queue, d: nat)
    requires Wf(q)
    ensures Wf(q.(jobs := Looked(q, d)))
  {
  }

  /** Looking one task further clears that one's stale wait. */
  lemma LookedStep(q: Queue, d: nat, k: nat)
    requires q.active < |q.jobs| && k < |q.jobs| && Ahead(q.active, k, |q.jobs|) == d + 1
    ensures Looked(q, d)[k] == q.jobs[k]
    ensures Looked(q, d)[k := Cleared(Looked(q, d), q.jobs[k])] == Looked(q, d + 1)
  {
    LookedSame(q, d, k);
    forall i | 0 <= i < |q.jobs| && Ahead(q.active, i, |q.jobs|) == d + 1 ensures i == k {
    }
  }
}
