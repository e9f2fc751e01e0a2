/** Whole runs of the kernel: any sequence of the calls of kernel/sched/sched.c and
    kernel/sched/exec.c, from a state with or without tasks. */
module KernelRun {
  import opened Words
  import opened Paging
  import opened RunQueue
  import opened TaskHeap
  import opened Sched
  import opened ExecImage
  import opened Loader
  import PageAllocator
  import PageRuns

  datatype Call =
    | AppendUser(name: Option<nat>, start: nat)
    | AppendKernel(name: Option<nat>, start: nat)
    | Exec(pathLength: nat, file: Option<File>)
    | Allocate(size: U32)
    | Release(ptr: U32)
    | Kill(pid: int)
    | Exit
    | Wait(pid: int)
    | Tick(frame: Frame)

  /** Names and paths fit a run, and so does what is asked for, unless the machine is smaller
      than that; nobody kills PID 0. */
  predicate Proper(c: Call, total: nat) {
    match c
    case AppendUser(name, _) => name.Some? ==> BlockPages(name.value + 1) <= PageRuns.MAX_RUN
    case AppendKernel(name, _) => name.Some? ==> BlockPages(name.value + 1) <= PageRuns.MAX_RUN
    case Exec(pathLength, _) => BlockPages(pathLength + 1) <= PageRuns.MAX_RUN
    case Allocate(size) => PageAllocator.PageCount(size) <= PageRuns.MAX_RUN || total < PageAllocator.PageCount(size)
    case Kill(pid) => pid != 0
    case _ => true
  }

  predicate MakesTask(c: Call) {
    c.AppendUser? || c.AppendKernel? || c.Exec?
  }

  ghost function Members(ts: seq<Task>): set<Task> {
    set t | t in ts
  }

  // ------------------------------------------------------- calls and events

  /** One call is one step of the run queue, or none. */
  ghost predicate IsStep(q: Queue, q': Queue, e: Option<Event>) {
    Wf(q) && if e.Some? then Step(q, q', e.value) else q' == q
  }

  /** The step an append makes: a new job, a PID that goes to nobody, or nothing. */
  ghost function AppendEvent(q: Queue, q': Queue): Option<Event> {
    if |q'.jobs| > |q.jobs| then Some(Event.Append(q'.jobs[|q.jobs|]))
    else if q' == q then None
    else Some(Event.Skip)
  }

  /** The step a call makes. A wait by the root is left out: the root must always be able to
      run. */
  ghost function EventOf(c: Call, q: Queue, q': Queue): Option<Event>
    requires q.active < |q.jobs|
  {
    match c
    case Tick(frame) => if frame == NoFrame then None else Some(Event.Tick(frame))
    case Kill(pid) => Some(Event.Kill(pid))
    case Exit => if q.active == 0 then None else Some(Event.Kill(ActivePid(q)))
    case Wait(pid) => if q.active == 0 then None else Some(Event.Wait(pid))
    case Allocate(_) => None
    case Release(_) => None
    case _ => AppendEvent(q, q')
  }

  /** There is a name and an entry point, or a file with an image. */
  ghost predicate Wanted(c: Call) {
    match c
    case AppendUser(name, start) => name.Some? && start != 0
    case AppendKernel(name, start) => name.Some? && start != 0
    case Exec(_, file) => Accepted(file)
    case _ => false
  }

  /** The frame a task made by the call begins with. */
  ghost predicate BeginsWith(c: Call, frame: Frame) {
    match c
    case AppendUser(_, start) => frame.UserEntry? && frame.eip == start
    case AppendKernel(_, start) => frame == KernelEntry(start)
    case Exec(_, file) =>
      && file.Some?
      && exists info: Info ::
        IsImage(file.value, info) && frame == UserEntry(USER_EXEC_LOAD_ADDR + info.entry, USER_STACK_TOP)
    case _ => false
  }

  /** What a call does to the queue; `served` says that KAlloc has refused nothing. */
  ghost predicate Outcome(c: Call, q: Queue, q': Queue, served: bool) {
    && q.active < |q.jobs| && IsStep(q, q', EventOf(c, q, q'))
    && (MakesTask(c) ==> (|q'.jobs| > |q.jobs| <==> Wanted(c) && served))
    && (MakesTask(c) && |q'.jobs| > |q.jobs| ==> BeginsWith(c, q'.jobs[|q.jobs|].frame))
  }

  /** A call that makes a task puts one behind the others, with the next PID, exactly if it is
      complete and nothing was refused; the task starts where the call says. */
  lemma CallStarts(c: Call, q: Queue, q': Queue, served: bool)
    requires Outcome(c, q, q', served) && MakesTask(c)
    ensures |q'.jobs| > |q.jobs| <==>
      && served
      && match c
         case Exec(_, file) => file.Some? && file.value != [] && exists info: Info :: IsFormat(file.value, info)
         case AppendUser(name, start) => name.Some? && start != 0
         case AppendKernel(name, start) => name.Some? && start != 0
         case _ => false
    ensures if |q'.jobs| > |q.jobs|
      then q'.jobs == q.jobs + [q'.jobs[|q.jobs|]] && IsReady(q'.jobs[|q.jobs|], q.nextPid)
      else q'.jobs == q.jobs
    ensures |q'.jobs| > |q.jobs| ==>
      var frame := q'.jobs[|q.jobs|].frame;
      match c
      case AppendUser(_, start) => frame.UserEntry? && frame.eip == start
      case AppendKernel(_, start) => frame == KernelEntry(start)
      case Exec(_, file) =>
        file.Some? && exists info: Info ::
          IsFormat(file.value, info) && frame == UserEntry(0x10_0000 + info.entry, 0x12_0000)
      case _ => true
  {
    hide IsImage, IsFormat, Wf;
    if c.Exec? && c.file.Some? {
      forall info ensures IsImage(c.file.value, info) <==> IsFormat(c.file.value, info) {
        ImageByBytes(c.file.value, info);
      }
    }
  }

  predicate IsReady(j: Job, pid: int) {
    j.pid == pid && j.running && !j.waiting && j.frame != NoFrame
  }

  /** A new job from a call's own frame, a PID gone, or nothing. */
  ghost predicate IsAppend(c: Call, q: Queue, q': Queue, pid: int, served: bool) {
    && (pid >= 0 <==> Wanted(c) && served)
    && if pid >= 0
       then exists frame ::
              frame != NoFrame && BeginsWith(c, frame) && q' == Appended(q, Job(q.nextPid, true, false, 0, frame))
       else q' == q || q' == q.(nextPid := q.nextPid + 1)
  }

  lemma AppendIsStep(c: Call, q: Queue, q': Queue, pid: int, served: bool)
    requires Wf(q) && q.active < |q.jobs| && MakesTask(c) && IsAppend(c, q, q', pid, served)
    ensures Outcome(c, q, q', served)
  {
    hide Wf, BeginsWith, Wanted;
  }

  // -------------------------------------------------------------- the calls

  /** A call that may make a task. */
  method Start(sched: Scheduler, c: Call) returns (r: int)
    requires sched.Valid() && Proper(c, sched.m.pages.total) && MakesTask(c)
    modifies sched, Members(sched.tasks), MadsOf(Users(sched.tasks)), sched.m, sched.m.pages, sched.m.pages.entries
    ensures sched.Valid() && old(sched.m.pages.refusals) <= sched.m.pages.refusals
    ensures Outcome(c, old(sched.View()), sched.View(), sched.m.pages.refusals == old(sched.m.pages.refusals))
    ensures Base(sched.m, Users(sched.tasks)) == old(Base(sched.m, Users(sched.tasks)))
    ensures BaseHeld(sched.m, Users(sched.tasks)) == old(BaseHeld(sched.m, Users(sched.tasks)))
    ensures forall t :: t in sched.tasks ==> t in old(sched.tasks) || fresh(t)
    ensures forall x :: x in MadsOf(Users(sched.tasks)) ==> x in old(MadsOf(Users(sched.tasks))) || fresh(x)
  {
    hide sched.Valid, sched.m.Valid, sched.m.Domains, Jobs, Base, BaseHeld, Housed, Wf, BlockPages, OthersSee, Accepted,
      Appended, Sees, Outcome;
    sched.ActiveHasHeap();
    sched.Parts();
    ghost var q := sched.View();
    match c {
      case AppendUser(name, start) => r := sched.AppendTask(name, start);
      case AppendKernel(name, start) => r := sched.AppendTaskRing0(name, start);
      case Exec(pathLength, file) => r := Execute(sched, pathLength, file);
    }
    AppendIsStep(c, q, sched.View(), r, sched.m.pages.refusals == old(sched.m.pages.refusals));
  }

  /** A run longer than the machine does not exist. */
  lemma ProperIsSafe(size: U32, total: nat, pages: PageRuns.Pages)
    requires Proper(Allocate(size), total) && |pages| == total
    ensures IsSafe(size, pages)
  {
    hide PageAllocator.PageCount;
  }

  /** A call of the heap, by the active task. */
  method Use(sched: Scheduler, c: Call) returns (r: int)
    requires sched.Valid() && Proper(c, sched.m.pages.total) && (c.Allocate? || c.Release?)
    modifies sched, Members(sched.tasks), MadsOf(Users(sched.tasks)), sched.m, sched.m.pages, sched.m.pages.entries
    ensures sched.Valid() && old(sched.m.pages.refusals) <= sched.m.pages.refusals
    ensures Outcome(c, old(sched.View()), sched.View(), sched.m.pages.refusals == old(sched.m.pages.refusals))
    ensures c.Allocate? ==>
      && 0 <= r < 0x1_0000_0000 && sched.active == old(sched.active)
      && MallocDone(sched.active, sched.m, c.size, r, old(CanMalloc(sched.active, sched.m, c.size)),
           old(Undoes(sched.active, sched.m, c.size)))
    ensures c.Release? ==>
      && sched.active == old(sched.active) && sched.active.allocs == old(sched.active.allocs) - {c.ptr}
      && r == if c.ptr in old(sched.active.allocs) then 0 else -1
    ensures Base(sched.m, Users(sched.tasks)) == old(Base(sched.m, Users(sched.tasks)))
    ensures BaseHeld(sched.m, Users(sched.tasks)) == old(BaseHeld(sched.m, Users(sched.tasks)))
    ensures forall t :: t in sched.tasks ==> t in old(sched.tasks) || fresh(t)
    ensures forall x :: x in MadsOf(Users(sched.tasks)) ==> x in old(MadsOf(Users(sched.tasks))) || fresh(x)
  {
    hide sched.Valid, sched.m.Valid, sched.m.Domains, sched.Loaded, sched.RootOk, Jobs, Base, BaseHeld, Housed, Wf,
      PageAllocator.PageCount, MallocDone, CanMalloc, Undoes, IsSafe, Proper;
    sched.ActiveHasHeap();
    sched.Parts();
    sched.m.PagesAreStructured();
    sched.ListFacts(sched.at);
    match c
    case Allocate(size) =>
      ProperIsSafe(size, sched.m.pages.total, sched.m.pages.Pages());
      r := sched.TaskMalloc(size);
    case Release(ptr) => r := sched.TaskFree(ptr);
  }

  /** Kills and waits are steps of the queue. */
  lemma SteerIsStep(c: Call, q: Queue, q': Queue, served: bool)
    requires Wf(q) && q.active < |q.jobs| && (q.active != 0 ==> ActivePid(q) != 0)
    requires match c
      case Kill(pid) => pid != 0 && q' == Killed(q, pid)
      case Exit => q' == if q.active == 0 then q else Killed(q, ActivePid(q))
      case Wait(pid) => q' == if q.active == 0 then q else Waited(q, pid)
      case _ => false
    ensures Outcome(c, q, q', served)
  {
    hide Wf, Killed, Waited;
  }

  /** A call that ends a task. */
  method Stop(sched: Scheduler, c: Call)
    requires sched.Valid() && Proper(c, sched.m.pages.total) && (c.Kill? || c.Exit?)
    modifies sched, Members(sched.tasks), MadsOf(Users(sched.tasks)), sched.m, sched.m.pages, sched.m.pages.entries
    ensures sched.Valid() && old(sched.m.pages.refusals) <= sched.m.pages.refusals
    ensures Outcome(c, old(sched.View()), sched.View(), sched.m.pages.refusals == old(sched.m.pages.refusals))
    ensures Base(sched.m, Users(sched.tasks)) == old(Base(sched.m, Users(sched.tasks)))
    ensures BaseHeld(sched.m, Users(sched.tasks)) == old(BaseHeld(sched.m, Users(sched.tasks)))
    ensures forall t :: t in sched.tasks ==> t in old(sched.tasks) || fresh(t)
    ensures forall x :: x in MadsOf(Users(sched.tasks)) ==> x in old(MadsOf(Users(sched.tasks))) || fresh(x)
  {
    hide sched.Valid, sched.m.Valid, sched.m.Domains, sched.Loaded, Jobs, Base, BaseHeld, Housed, Wf, Killed, Waited,
      Outcome;
    sched.Parts();
    sched.RootIsFirst();
    sched.ListFacts(sched.at);
    OnlyRootIsZero(sched.View(), sched.at);
    ghost var q := sched.View();
    match c {
      case Kill(pid) => sched.TaskKill(pid);
      case Exit => sched.SchedMarkDead();
    }
    SteerIsStep(c, q, sched.View(), true);
  }

  /** A call that holds up the active task, unless it is the root. */
  method Hold(sched: Scheduler, c: Call) returns (r: int)
    requires sched.Valid() && Proper(c, sched.m.pages.total) && c.Wait?
    modifies sched, Members(sched.tasks), MadsOf(Users(sched.tasks)), sched.m, sched.m.pages, sched.m.pages.entries
    ensures sched.Valid() && old(sched.m.pages.refusals) <= sched.m.pages.refusals
    ensures Outcome(c, old(sched.View()), sched.View(), sched.m.pages.refusals == old(sched.m.pages.refusals))
    ensures Base(sched.m, Users(sched.tasks)) == old(Base(sched.m, Users(sched.tasks)))
    ensures BaseHeld(sched.m, Users(sched.tasks)) == old(BaseHeld(sched.m, Users(sched.tasks)))
    ensures forall t :: t in sched.tasks ==> t in old(sched.tasks) || fresh(t)
    ensures forall x :: x in MadsOf(Users(sched.tasks)) ==> x in old(MadsOf(Users(sched.tasks))) || fresh(x)
  {
    hide sched.Valid, sched.m.Valid, sched.m.Domains, sched.Loaded, Jobs, Base, BaseHeld, Housed, Wf, Killed, Waited,
      Outcome;
    sched.Parts();
    sched.RootIsFirst();
    sched.ListFacts(sched.at);
    OnlyRootIsZero(sched.View(), sched.at);
    ghost var q := sched.View();
    r := 0;
    if sched.active != sched.root {
      r := sched.SchedWaitPid(c.pid);
    }
    SteerIsStep(c, q, sched.View(), true);
  }

  /** One call, with its result, 0 where it has none. */
  method Do(sched: Scheduler, c: Call) returns (r: int)
    requires sched.Valid() && Proper(c, sched.m.pages.total)
    modifies sched, Members(sched.tasks), MadsOf(Users(sched.tasks)), sched.m, sched.m.pages, sched.m.pages.entries
    ensures sched.Valid() && old(sched.m.pages.refusals) <= sched.m.pages.refusals
    ensures Outcome(c, old(sched.View()), sched.View(), sched.m.pages.refusals == old(sched.m.pages.refusals))
    ensures c.Allocate? ==>
      && 0 <= r < 0x1_0000_0000 && sched.active == old(sched.active)
      && MallocDone(sched.active, sched.m, c.size, r, old(CanMalloc(sched.active, sched.m, c.size)),
           old(Undoes(sched.active, sched.m, c.size)))
    ensures c.Release? ==>
      && sched.active == old(sched.active) && sched.active.allocs == old(sched.active.allocs) - {c.ptr}
      && r == if c.ptr in old(sched.active.allocs) then 0 else -1
    ensures Base(sched.m, Users(sched.tasks)) == old(Base(sched.m, Users(sched.tasks)))
    ensures BaseHeld(sched.m, Users(sched.tasks)) == old(BaseHeld(sched.m, Users(sched.tasks)))
    ensures forall t :: t in sched.tasks ==> t in old(sched.tasks) || fresh(t)
    ensures forall x :: x in MadsOf(Users(sched.tasks)) ==> x in old(MadsOf(Users(sched.tasks))) || fresh(x)
  {
    hide sched.Valid, sched.m.Valid, sched.m.Domains, sched.Loaded, Jobs, Base, BaseHeld, Housed, Wf, Scheduled,
      Appended, Proper, MallocDone, CanMalloc, Undoes;
    sched.Parts();
    sched.ListFacts(sched.at);
    r := 0;
    match c
    case Tick(frame) => var resumed := sched.Schedule(frame);
    case Allocate(_) => r := Use(sched, c);
    case Release(_) => r := Use(sched, c);
    case Kill(_) => Stop(sched, c);
    case Exit => Stop(sched, c);
    case Wait(_) => r := Hold(sched, c);
    case _ => r := Start(sched, c);
  }

  // --------------------------------------------------------- runs of calls

  /** The queue before, between and after the calls; `served[i]` says that KAlloc has refused
      nothing during call `i`. */
  ghost predicate Lived(calls: seq<Call>, views: seq<Queue>, served: seq<bool>) {
    && |views| == |calls| + 1 && |served| == |calls| && Wf(views[0])
    && forall i :: 0 <= i < |calls| ==> Outcome(calls[i], views[i], views[i + 1], served[i])
  }

  /** The steps of the calls, one after the other. */
  ghost function EventsOf(calls: seq<Call>, views: seq<Queue>, served: seq<bool>): seq<Event>
    requires Lived(calls, views, served)
    decreases |calls|
  {
    if calls == [] then []
    else
      var n := |calls| - 1;
      EventsOf(calls[..n], views[..n + 1], served[..n])
      + match EventOf(calls[n], views[n], views[n + 1]) case None => [] case Some(e) => [e]
  }

  /** The queue where the steps begin and end. */
  ghost function StatesOf(calls: seq<Call>, views: seq<Queue>, served: seq<bool>): seq<Queue>
    requires Lived(calls, views, served)
    decreases |calls|
  {
    if calls == [] then views
    else
      var n := |calls| - 1;
      StatesOf(calls[..n], views[..n + 1], served[..n])
      + match EventOf(calls[n], views[n], views[n + 1]) case None => [] case Some(e) => [views[n + 1]]
  }

  lemma RunGrows(states: seq<Queue>, events: seq<Event>, e: Event, q: Queue)
    requires RunQueue.Run(states, events) && Step(states[|events|], q, e)
    ensures RunQueue.Run(states + [q], events + [e])
  {
    hide Step, Wf;
    var states', events' := states + [q], events + [e];
    forall i | 0 <= i < |events'| ensures Step(states'[i], states'[i + 1], events'[i]) {
      assert i < |events| ==> states'[i] == states[i] && states'[i + 1] == states[i + 1] && events'[i] == events[i];
    }
  }

  /** Any sequence of calls is a run of the queue: what is proved of every run holds of it. */
  lemma {:induction false} CallsAreRun(calls: seq<Call>, views: seq<Queue>, served: seq<bool>)
    requires Lived(calls, views, served)
    ensures var states, events := StatesOf(calls, views, served), EventsOf(calls, views, served);
            RunQueue.Run(states, events) && states[0] == views[0] && states[|events|] == views[|calls|]
    decreases |calls|
  {
    hide Step, Wf, EventOf, Wanted, BeginsWith;
    if calls != [] {
      var n := |calls| - 1;
      CallsAreRun(calls[..n], views[..n + 1], served[..n]);
      var states := StatesOf(calls[..n], views[..n + 1], served[..n]);
      var events := EventsOf(calls[..n], views[..n + 1], served[..n]);
      match EventOf(calls[n], views[n], views[n + 1])
      case None =>
      case Some(e) => RunGrows(states, events, e, views[n + 1]);
    }
  }

  /** Call `i` made step `j`. */
  ghost predicate Made(calls: seq<Call>, views: seq<Queue>, states: seq<Queue>, events: seq<Event>, i: nat, j: nat) {
    && i < |calls| && |views| == |calls| + 1 && j < |events| && |states| == |events| + 1
    && views[i].active < |views[i].jobs| && EventOf(calls[i], views[i], views[i + 1]) == Some(events[j])
    && states[j] == views[i] && states[j + 1] == views[i + 1]
  }

  /** Every step is made by a call. */
  lemma {:induction false} StepIsCall(calls: seq<Call>, views: seq<Queue>, served: seq<bool>, j: nat) returns (i: nat)
    requires Lived(calls, views, served) && j < |EventsOf(calls, views, served)|
    ensures Made(calls, views, StatesOf(calls, views, served), EventsOf(calls, views, served), i, j)
    decreases |calls|
  {
    hide Step, Wf, EventOf, Wanted, BeginsWith;
    var n := |calls| - 1;
    CallsAreRun(calls, views, served);
    CallsAreRun(calls[..n], views[..n + 1], served[..n]);
    if j < |EventsOf(calls[..n], views[..n + 1], served[..n])| {
      i := StepIsCall(calls[..n], views[..n + 1], served[..n], j);
    } else {
      i := n;
    }
  }

  predicate IsTick(c: Call) {
    c.Tick? && c.frame != NoFrame
  }

  /** The ticks among the first `n` calls. */
  function TickCalls(calls: seq<Call>, n: nat): nat
    requires n <= |calls|
  {
    if n == 0 then 0 else TickCalls(calls, n - 1) + if IsTick(calls[n - 1]) then 1 else 0
  }

  lemma {:induction false} TicksCount(calls: seq<Call>, views: seq<Queue>, served: seq<bool>)
    requires Lived(calls, views, served)
    ensures var events := EventsOf(calls, views, served); Ticks(events, |events|) == TickCalls(calls, |calls|)
    decreases |calls|
  {
    hide Outcome, Wf;
    if calls != [] {
      var n := |calls| - 1;
      TicksCount(calls[..n], views[..n + 1], served[..n]);
      var before, events := EventsOf(calls[..n], views[..n + 1], served[..n]), EventsOf(calls, views, served);
      TicksOfPrefix(before, events, |before|);
      CallsOfPrefix(calls, n);
    }
  }

  lemma {:induction false} TicksOfPrefix(before: seq<Event>, events: seq<Event>, n: nat)
    requires before <= events && n <= |before|
    ensures Ticks(before, n) == Ticks(events, n)
  {
    if n > 0 {
      TicksOfPrefix(before, events, n - 1);
    }
  }

  lemma {:induction false} CallsOfPrefix(calls: seq<Call>, n: nat)
    requires n <= |calls|
    ensures TickCalls(calls[..n], n) == TickCalls(calls, n)
    decreases n
  {
    if n > 0 {
      CallsOfPrefix(calls, n - 1);
      CallsOfPrefix(calls[..n], n - 1);
      assert calls[..n][..n - 1] == calls[..n - 1];
    }
  }

  /** No starvation over any calls that make no task: one that could run at every tick is
      resumed by one of as many ticks as tasks were listed. */
  lemma NobodyStarves(calls: seq<Call>, views: seq<Queue>, served: seq<bool>, pid: int)
    requires Lived(calls, views, served) && Listed(views[0], pid)
    requires forall i :: 0 <= i < |calls| ==> |views[i + 1].jobs| <= |views[i].jobs|
    requires forall i :: 0 <= i < |calls| && IsTick(calls[i]) ==> EligiblePid(views[i], pid)
    requires TickCalls(calls, |calls|) >= |views[0].jobs|
    ensures exists i :: 0 <= i < |calls| && IsTick(calls[i]) && IsActive(views[i + 1], pid)
  {
    hide Step, Wf, Listed, EligiblePid, IsActive, Lived, Made;
    var states, events := StatesOf(calls, views, served), EventsOf(calls, views, served);
    CallsAreRun(calls, views, served);
    TicksCount(calls, views, served);
    forall j | 0 <= j < |events|
      ensures !events[j].Append? && (events[j].Tick? ==> EligiblePid(states[j], pid))
    {
      var i := StepIsCall(calls, views, served, j);
      MadeAlike(calls, views, states, events, i, j);
    }
    PickedInTime(states, events, pid);
    var j :| 0 <= j < |events| && events[j].Tick? && IsActive(states[j + 1], pid);
    var i := StepIsCall(calls, views, served, j);
    MadeAlike(calls, views, states, events, i, j);
  }

  lemma MadeAlike(calls: seq<Call>, views: seq<Queue>, states: seq<Queue>, events: seq<Event>, i: nat, j: nat)
    requires Made(calls, views, states, events, i, j)
    ensures i < |calls| && |views| == |calls| + 1 && j < |events| && |states| == |events| + 1
    ensures states[j] == views[i] && states[j + 1] == views[i + 1] && (events[j].Tick? <==> IsTick(calls[i]))
    ensures events[j].Append? ==> |views[i].jobs| < |views[i + 1].jobs|
  {
  }

  /** Any sequence of calls keeps the accounts, and each call does to the queue what it says.
      While KAlloc refuses nothing, every call is served. */
  method Play(sched: Scheduler, calls: seq<Call>) returns (ghost views: seq<Queue>, ghost served: seq<bool>)
    requires sched.Valid() && forall c :: c in calls ==> Proper(c, sched.m.pages.total)
    modifies sched, Members(sched.tasks), MadsOf(Users(sched.tasks)), sched.m, sched.m.pages, sched.m.pages.entries
    ensures sched.Valid()
    ensures Base(sched.m, Users(sched.tasks)) == old(Base(sched.m, Users(sched.tasks)))
    ensures BaseHeld(sched.m, Users(sched.tasks)) == old(BaseHeld(sched.m, Users(sched.tasks)))
    ensures Lived(calls, views, served) && views[0] == old(sched.View()) && views[|calls|] == sched.View()
    ensures AllServed(served) <==> sched.m.pages.refusals == old(sched.m.pages.refusals)
    ensures RunQueue.Run(StatesOf(calls, views, served), EventsOf(calls, views, served))
  {
    hide sched.Valid, sched.View, sched.m.Valid, sched.m.Domains, Base, BaseHeld, Proper, Outcome, Wf, MallocDone,
      CanMalloc, Undoes, AllServed;
    sched.Parts();
    ServedNone();
    views, served := [sched.View()], [];
    var i := 0;
    while i < |calls|
      invariant 0 <= i <= |calls| && sched.Valid()
      invariant Lived(calls[..i], views, served) && views[0] == old(sched.View()) && views[i] == sched.View()
      invariant old(sched.m.pages.refusals) <= sched.m.pages.refusals
      invariant AllServed(served) <==> sched.m.pages.refusals == old(sched.m.pages.refusals)
      invariant Base(sched.m, Users(sched.tasks)) == old(Base(sched.m, Users(sched.tasks)))
      invariant BaseHeld(sched.m, Users(sched.tasks)) == old(BaseHeld(sched.m, Users(sched.tasks)))
      invariant forall t :: t in sched.tasks ==> t in old(sched.tasks) || fresh(t)
      invariant forall x :: x in MadsOf(Users(sched.tasks)) ==> x in old(MadsOf(Users(sched.tasks))) || fresh(x)
    {
      ghost var refusals := sched.m.pages.refusals;
      var r := Do(sched, calls[i]);
      ServedOn(served, sched.m.pages.refusals == refusals);
      LivedOn(calls, views, served, i, sched.View(), sched.m.pages.refusals == refusals);
      views, served := views + [sched.View()], served + [sched.m.pages.refusals == refusals];
      i := i + 1;
    }
    assert calls[..i] == calls;
    CallsAreRun(calls, views, served);
  }

  ghost predicate AllServed(served: seq<bool>) {
    forall i :: 0 <= i < |served| ==> served[i]
  }

  lemma ServedNone()
    ensures AllServed([])
  {
  }

  lemma ServedOn(served: seq<bool>, ok: bool)
    ensures AllServed(served + [ok]) <==> AllServed(served) && ok
  {
    var all := served + [ok];
    assert all[|served|] == ok && forall i :: 0 <= i < |served| ==> all[i] == served[i];
  }

  lemma LivedOn(calls: seq<Call>, views: seq<Queue>, served: seq<bool>, i: nat, q: Queue, ok: bool)
    requires i < |calls| && Lived(calls[..i], views, served) && Outcome(calls[i], views[i], q, ok)
    ensures Lived(calls[..i + 1], views + [q], served + [ok])
  {
    hide Outcome, Wf;
    var calls', views', served' := calls[..i + 1], views + [q], served + [ok];
    forall k | 0 <= k < |calls'| ensures Outcome(calls'[k], views'[k], views'[k + 1], served'[k]) {
      if k < i {
        assert calls'[k] == calls[..i][k] && views'[k] == views[k] && views'[k + 1] == views[k + 1];
        assert served'[k] == served[k];
      }
    }
  }

  /** No leak over any run: once all tasks made on the way are gone, as many pages are
      available as at the start, and they are the same ones. */
  method Run(sched: Scheduler, calls: seq<Call>) returns (before: nat, after: nat)
    requires sched.Valid() && forall c :: c in calls ==> Proper(c, sched.m.pages.total)
    modifies sched, Members(sched.tasks), MadsOf(Users(sched.tasks)), sched.m, sched.m.pages, sched.m.pages.entries
    ensures sched.Valid()
    ensures before == |old(PageRuns.FreePages(sched.m.pages.Pages()))|
    ensures after == |PageRuns.FreePages(sched.m.pages.Pages())|
    ensures old(|sched.tasks|) == 1 && |sched.tasks| == 1 ==>
      after == before && PageRuns.FreePages(sched.m.pages.Pages()) == old(PageRuns.FreePages(sched.m.pages.Pages()))
  {
    hide sched.Valid, sched.m.Valid, Base, BaseHeld, Housed, Proper, PageRuns.FreePages, Wf;
    before := Available(sched);
    ghost var views, served := Play(sched, calls);
    if old(|sched.tasks|) == 1 && |sched.tasks| == 1 {
      sched.NothingLeaks();
    }
    after := Available(sched);
  }

  /** CountAvailablePage. */
  method Available(sched: Scheduler) returns (count: nat)
    requires sched.Valid()
    ensures sched.Valid() && count == |PageRuns.FreePages(sched.m.pages.Pages())|
    ensures Base(sched.m, Users(sched.tasks)) == old(Base(sched.m, Users(sched.tasks)))
    ensures BaseHeld(sched.m, Users(sched.tasks)) == old(BaseHeld(sched.m, Users(sched.tasks)))
    ensures MadsOf(Users(sched.tasks)) == old(MadsOf(Users(sched.tasks)))
    ensures sched.m.pages.Pages() == old(sched.m.pages.Pages())
  {
    hide sched.Valid, sched.m.Valid, Base, BaseHeld, Housed, PageRuns.FreePages, Wf;
    sched.Parts();
    sched.m.PagesAreStructured();
    KeepsOnAllocation(sched);
    count := sched.m.pages.CountAvailablePage();
  }
}
