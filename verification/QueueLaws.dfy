/** What kills, waits and timer ticks mean to a program: laws of the run list of
    kernel/sched/sched.c in terms of its jobs alone. */
module QueueLaws {
  import opened RunQueue

  /** A listed task with this PID is running. */
  ghost predicate Runs(q: Queue, pid: int) {
    exists l :: 0 <= l < |q.jobs| && q.jobs[l].pid == pid && q.jobs[l].running
  }

  /** The task runs, and does not wait for a listed, running one. */
  ghost predicate CanRun(q: Queue, k: int) {
    0 <= k < |q.jobs| && q.jobs[k].running && !(q.jobs[k].waiting && Runs(q, q.jobs[k].target))
  }

  lemma CanRunIs(q: Queue, k: nat)
    requires k < |q.jobs|
    ensures Runs(q, q.jobs[k].target) <==> Alive(q.jobs, q.jobs[k].target)
    ensures CanRun(q, k) <==> Eligible(q.jobs, q.jobs[k])
  {
  }

  // ------------------------------------------------------------- single calls

  /** A kill stops the task with the PID and changes nothing else. */
  lemma KillStops(q: Queue, pid: int)
    requires Wf(q)
    ensures var q' := Killed(q, pid);
            && q'.active == q.active && q'.nextPid == q.nextPid && |q'.jobs| == |q.jobs|
            && forall k :: 0 <= k < |q.jobs| ==>
              q'.jobs[k] == if q.jobs[k].pid == pid then q.jobs[k].(running := false) else q.jobs[k]
  {
    forall k | 0 <= k < |q.jobs| && q.jobs[k].pid == pid ensures Index(q, pid) == k {
      IndexIs(q, k);
    }
  }

  /** A wait makes the active task wait for a listed, running task other than itself, and
      changes nothing else. */
  lemma WaitWaits(q: Queue, pid: int)
    requires Wf(q)
    ensures var q' := Waited(q, pid);
            && q'.active == q.active && q'.nextPid == q.nextPid && |q'.jobs| == |q.jobs|
            && forall k :: 0 <= k < |q.jobs| ==>
              q'.jobs[k] == if k == q.active && pid != q.jobs[k].pid && Runs(q, pid)
                then q.jobs[k].(waiting := true, target := pid) else q.jobs[k]
  {
    forall l | 0 <= l < |q.jobs| && q.jobs[l].pid == pid ensures Index(q, pid) == l {
      IndexIs(q, l);
    }
  }

  /** An append puts a new task, ready to run, behind all others; a PID that a failed one has
      used up is not used again. */
  lemma AppendAppends(q: Queue, q': Queue, e: Event)
    requires Step(q, q', e) && (e.Append? || e.Skip?)
    ensures q'.active == q.active && q'.nextPid == q.nextPid + 1
    ensures e.Skip? ==> q'.jobs == q.jobs
    ensures e.Append? ==> q'.jobs == q.jobs + [Job(q.nextPid, true, false, e.job.target, e.job.frame)]
  {
  }

  ghost predicate IsJob(q: Queue, i: int, pid: int) {
    0 <= i < |q.jobs| && q.jobs[i].pid == pid
  }

  /** What a tick leaves of a job: its wait is dropped only when its target is gone. */
  ghost predicate After(q: Queue, k: nat, frame: Frame, j: Job)
    requires k < |q.jobs|
  {
    && j.pid == q.jobs[k].pid && j.running == q.jobs[k].running
    && j.frame == (if k == q.active then frame else q.jobs[k].frame)
    && (q.jobs[k].waiting && Runs(q, q.jobs[k].target) ==> j.waiting && j.target == q.jobs[k].target)
    && (j.waiting ==> q.jobs[k].waiting && j.target == q.jobs[k].target)
  }

  /** The place of a survivor after a tick. */
  lemma TickPlaces(q: Queue, frame: Frame, k: nat)
    requires Wf(q) && frame != NoFrame && k < |q.jobs| && Stays(q, k)
    ensures var q', i := Scheduled(q, frame), Count(Staying(q), k);
            Staying(Saved(q, frame)) == Staying(q) && i < |q'.jobs| && After(q, k, frame, q'.jobs[i])
  {
    var saved := Saved(q, frame);
    assert Staying(saved) == Staying(q);
    SavedWf(q, frame);
    ReapKeeps(saved);
    ReapedAt(saved, k);
    var reaped, i := Reap(saved), Count(Staying(q), k);
    RootIsEligible(reaped);
    var d := FirstFrom(reaped.jobs, reaped.active, 1);
    assert Next(reaped).jobs == Looked(reaped, d);
    assert Next(reaped).jobs[i] == reaped.jobs[i] || Next(reaped).jobs[i] == Cleared(reaped.jobs, reaped.jobs[i]);
    ReapBlocks(saved, saved.jobs[k]);
    assert Blocked(saved.jobs, saved.jobs[k]) <==> Blocked(q.jobs, saved.jobs[k]);
  }

  /** Nobody is listed after a tick who was not before. */
  lemma TickFrom(q: Queue, frame: Frame, i: nat) returns (k: nat)
    requires Wf(q) && frame != NoFrame && i < |Scheduled(q, frame).jobs|
    ensures k < |q.jobs| && Stays(q, k) && Count(Staying(q), k) == i
    ensures Scheduled(q, frame).jobs[i].pid == q.jobs[k].pid
  {
    var saved := Saved(q, frame);
    assert Staying(saved) == Staying(q);
    SavedWf(q, frame);
    ReapKeeps(saved);
    k := KeptFrom(saved.jobs, Staying(saved), i);
    TickPlaces(q, frame, k);
  }

  /** A tick drops exactly the dead tasks but the root and the active one, keeps the others in
      their order, and saves the frame in the task it has interrupted. */
  lemma TickKeeps(q: Queue, frame: Frame, k: nat)
    requires Wf(q) && frame != NoFrame && k < |q.jobs|
    ensures var q' := Scheduled(q, frame);
            && Wf(q') && q'.nextPid == q.nextPid
            && ((k == 0 || q.jobs[k].running || k == q.active) <==> exists i :: IsJob(q', i, q.jobs[k].pid))
            && forall i :: IsJob(q', i, q.jobs[k].pid) ==> After(q, k, frame, q'.jobs[i])
  {
    hide Scheduled, Staying, After;
    ScheduleStep(q, frame, 0);
    var q' := Scheduled(q, frame);
    if Stays(q, k) {
      TickPlaces(q, frame, k);
      assert IsJob(q', Count(Staying(q), k), q.jobs[k].pid) by {
        PlaceHasPid(q, frame, k);
      }
    }
    forall i: nat | IsJob(q', i, q.jobs[k].pid) ensures Stays(q, k) && i == Count(Staying(q), k) {
      var l := TickFrom(q, frame, i);
      assert l == k;
    }
  }

  lemma PlaceHasPid(q: Queue, frame: Frame, k: nat)
    requires Wf(q) && frame != NoFrame && k < |q.jobs| && Stays(q, k)
    ensures IsJob(Scheduled(q, frame), Count(Staying(q), k), q.jobs[k].pid)
  {
    TickPlaces(q, frame, k);
  }

  lemma TickOrder(q: Queue, frame: Frame, k: nat, l: nat, i: nat, j: nat)
    requires Wf(q) && frame != NoFrame && k < |q.jobs| && l < |q.jobs| && k < l
    requires IsJob(Scheduled(q, frame), i, q.jobs[k].pid) && IsJob(Scheduled(q, frame), j, q.jobs[l].pid)
    ensures i < j
  {
    hide Scheduled;
    var k' := TickFrom(q, frame, i);
    var l' := TickFrom(q, frame, j);
    assert k' == k && l' == l;
    CountBetween(Staying(q), k, l);
  }

  /** Going round the list from `a`, one comes to `c` before `k`. */
  predicate ComesFirst(a: nat, c: nat, k: nat) {
    a < c < k || k <= a < c || c < k <= a
  }

  /** A tick resumes the first task behind the active one that can run: it can, and any other
      that can comes later in the round. */
  lemma TickPicks(q: Queue, frame: Frame, k: nat) returns (c: nat)
    requires Wf(q) && frame != NoFrame && k < |q.jobs|
    ensures CanRun(q, c) && ActivePid(Scheduled(q, frame)) == q.jobs[c].pid
    ensures CanRun(q, k) && k != c ==> ComesFirst(q.active, c, k)
    ensures var q' := Scheduled(q, frame); q'.jobs[q'.active].running && !q'.jobs[q'.active].waiting
  {
    hide Scheduled, Eligible, CanRun, Runs, ComesFirst;
    var q' := Scheduled(q, frame);
    c := TickFrom(q, frame, q'.active);
    TickPlaces(q, frame, c);
    PickedWasEligible(q, frame, q.jobs[c].pid);
    IndexIs(q, c);
    CanRunIs(q, c);
    EligibleRuns(q, c);
    if CanRun(q, k) && k != c {
      CanRunIs(q, k);
      EligibleRuns(q, k);
      PicksFirst(q, frame, c, k);
    }
  }

  lemma EligibleRuns(q: Queue, k: nat)
    requires k < |q.jobs| && Eligible(q.jobs, q.jobs[k])
    ensures q.jobs[k].running
  {
  }

  lemma PicksFirst(q: Queue, frame: Frame, c: nat, k: nat)
    requires Wf(q) && frame != NoFrame && c < |q.jobs| && k < |q.jobs| && c != k
    requires Eligible(q.jobs, q.jobs[k]) && Stays(q, c) && Count(Staying(q), c) == Scheduled(q, frame).active
    ensures ComesFirst(q.active, c, k)
  {
    hide Eligible, ComesFirst, Next;
    var saved, stays := Saved(q, frame), Staying(q);
    assert Staying(saved) == stays;
    SavedWf(q, frame);
    ReapKeeps(saved);
    var reaped := Reap(saved);
    NextChooses(reaped);
    EligibleRuns(q, k);
    ReapedAt(saved, k);
    EligibleStays(q, frame, k);
    var a', c', k', n := reaped.active, Count(stays, c), Count(stays, k), |reaped.jobs|;
    assert Ahead(a', c', n) <= Ahead(a', k', n);
    SameOrder(stays, q.active, c);
    SameOrder(stays, q.active, k);
    SameOrder(stays, c, k);
    AheadIsFirst(a', c', k', n);
    FirstInOrder(q.active, c, k, a', c', k');
  }

  lemma EligibleStays(q: Queue, frame: Frame, k: nat)
    requires Wf(q) && frame != NoFrame && k < |q.jobs| && Eligible(q.jobs, q.jobs[k])
    ensures Eligible(Reap(Saved(q, frame)).jobs, Saved(q, frame).jobs[k])
  {
    SavedWf(q, frame);
    ReapBlocks(Saved(q, frame), Saved(q, frame).jobs[k]);
    ReapBlocks(Saved(q, frame), q.jobs[k]);
  }

  lemma SameOrder(stays: seq<bool>, i: nat, j: nat)
    requires i < |stays| && j < |stays| && stays[i] && stays[j]
    ensures (i < j <==> Count(stays, i) < Count(stays, j)) && (i == j <==> Count(stays, i) == Count(stays, j))
  {
    if i < j {
      CountBetween(stays, i, j);
    } else {
      CountBetween(stays, j, i);
    }
  }

  lemma AheadIsFirst(a: nat, c: nat, k: nat, n: nat)
    requires a < n && c < n && k < n && c != k && Ahead(a, c, n) <= Ahead(a, k, n)
    ensures ComesFirst(a, c, k)
  {
  }

  lemma FirstInOrder(a: nat, c: nat, k: nat, a': nat, c': nat, k': nat)
    requires ComesFirst(a', c', k')
    requires (a < c <==> a' < c') && (a < k <==> a' < k') && (c < k <==> c' < k')
    requires (a == c <==> a' == c') && (a == k <==> a' == k') && (c == k <==> c' == k')
    ensures ComesFirst(a, c, k)
  {
  }

  /** A task that waits for a listed, running one is not resumed. */
  lemma WaiterIsPassed(q: Queue, frame: Frame, k: nat, l: nat)
    requires Wf(q) && frame != NoFrame && k < |q.jobs| && l < |q.jobs|
    requires q.jobs[k].waiting && q.jobs[l].pid == q.jobs[k].target && q.jobs[l].running
    ensures ActivePid(Scheduled(q, frame)) != q.jobs[k].pid
  {
    var c := TickPicks(q, frame, k);
    assert !CanRun(q, k);
  }

  // -------------------------------------------------------------------- runs

  /** If it is still listed, task `pid` waits for `target`. */
  ghost predicate Waits(q: Queue, pid: int, target: int) {
    forall k :: IsJob(q, k, pid) ==> q.jobs[k].waiting && q.jobs[k].target == target
  }

  /** A wait goes on while its target runs and the waiting task does not wait anew. */
  lemma WaitGoesOn(q: Queue, q': Queue, e: Event, pid: int, target: int)
    requires Step(q, q', e) && Waits(q, pid, target) && Runs(q, target) && pid < q.nextPid
    requires e.Wait? ==> !IsActive(q, pid)
    ensures Waits(q', pid, target) && pid < q'.nextPid && Wf(q')
    ensures e.Tick? ==> !IsActive(q', pid)
  {
    hide Scheduled, Killed, Waited, Appended, Runs, Wf;
    StepKeeps(q, q', e, pid);
    match e {
      case Tick(frame) => TickWaits(q, frame, pid, target);
      case Kill(victim) => KillWaits(q, victim, pid, target);
      case Wait(other) => OtherWaits(q, other, pid, target);
      case Append(job) => AppendWaits(q, job, pid, target);
      case Skip => assert q'.jobs == q.jobs;
    }
  }

  lemma KillWaits(q: Queue, victim: int, pid: int, target: int)
    requires Wf(q) && Waits(q, pid, target)
    ensures Waits(Killed(q, victim), pid, target)
  {
    hide Killed;
    KillStops(q, victim);
    forall k | IsJob(Killed(q, victim), k, pid)
      ensures Killed(q, victim).jobs[k].waiting && Killed(q, victim).jobs[k].target == target
    {
      assert IsJob(q, k, pid);
    }
  }

  lemma OtherWaits(q: Queue, other: int, pid: int, target: int)
    requires Wf(q) && Waits(q, pid, target) && !IsActive(q, pid)
    ensures Waits(Waited(q, other), pid, target)
  {
    hide Waited, Runs;
    WaitWaits(q, other);
    forall k | IsJob(Waited(q, other), k, pid)
      ensures Waited(q, other).jobs[k].waiting && Waited(q, other).jobs[k].target == target
    {
      assert IsJob(q, k, pid);
    }
  }

  lemma AppendWaits(q: Queue, job: Job, pid: int, target: int)
    requires Waits(q, pid, target) && job.pid != pid
    ensures Waits(Appended(q, job), pid, target)
  {
    forall k | IsJob(Appended(q, job), k, pid)
      ensures Appended(q, job).jobs[k].waiting && Appended(q, job).jobs[k].target == target
    {
      assert IsJob(q, k, pid);
    }
  }

  lemma TickWaits(q: Queue, frame: Frame, pid: int, target: int)
    requires Wf(q) && frame != NoFrame && Waits(q, pid, target) && Runs(q, target)
    ensures Waits(Scheduled(q, frame), pid, target) && !IsActive(Scheduled(q, frame), pid)
  {
    hide Scheduled;
    var q' := Scheduled(q, frame);
    forall i: nat | IsJob(q', i, pid) ensures q'.jobs[i].waiting && q'.jobs[i].target == target {
      var k := TickFrom(q, frame, i);
      assert IsJob(q, k, pid);
      TickKeeps(q, frame, k);
    }
    var c := TickPicks(q, frame, 0);
    assert q'.active < |q'.jobs| && IsJob(q', q'.active, q'.jobs[q'.active].pid);
  }

  /** From its wait on, over any run, a task is not resumed as long as its target runs, unless
      it waits anew for another. */
  lemma {:induction false} WaitsOut(states: seq<Queue>, events: seq<Event>, i: nat, j: nat, pid: int)
    requires RunQueue.Run(states, events) && i < j <= |events| && events[i].Wait? && IsActive(states[i], pid)
    requires events[i].pid != pid && forall k :: i <= k < j ==> Runs(states[k], events[i].pid)
    requires forall k :: i < k < j && events[k].Wait? ==> !IsActive(states[k], pid)
    ensures Wf(states[j]) && Waits(states[j], pid, events[i].pid) && pid < states[j].nextPid
    ensures events[j - 1].Tick? ==> !IsActive(states[j], pid)
  {
    hide Step, Waits, Runs, Wf;
    assert Step(states[j - 1], states[j], events[j - 1]);
    if j == i + 1 {
      WaitBegins(states[i], states[j], events[i], pid);
    } else {
      WaitsOut(states, events, i, j - 1, pid);
      WaitGoesOn(states[j - 1], states[j], events[j - 1], pid, events[i].pid);
    }
  }

  lemma WaitBegins(q: Queue, q': Queue, e: Event, pid: int)
    requires Step(q, q', e) && e.Wait? && IsActive(q, pid) && e.pid != pid && Runs(q, e.pid)
    ensures Wf(q') && Waits(q', pid, e.pid) && pid < q'.nextPid
  {
    hide Waited, Runs;
    StepKeeps(q, q', e, pid);
    WaitWaits(q, e.pid);
  }

  /** If it is still listed, task `pid` does not run. */
  ghost predicate Stopped(q: Queue, pid: int) {
    forall k :: IsJob(q, k, pid) ==> !q.jobs[k].running
  }

  lemma StoppedStays(q: Queue, q': Queue, e: Event, pid: int)
    requires Step(q, q', e) && Stopped(q, pid) && 0 < pid < q.nextPid
    ensures Stopped(q', pid) && pid < q'.nextPid && Wf(q')
    ensures e.Tick? ==> !IsActive(q', pid) && (!IsActive(q, pid) ==> !Listed(q', pid))
    ensures !Listed(q, pid) ==> !Listed(q', pid)
  {
    hide Scheduled, Killed, Waited;
    StepKeeps(q, q', e, pid);
    match e {
      case Tick(frame) => TickStops(q, frame, pid);
      case Kill(victim) => KillStops(q, victim);
      case Wait(other) => WaitWaits(q, other);
      case Append(job) =>
      case Skip =>
    }
  }

  lemma TickStops(q: Queue, frame: Frame, pid: int)
    requires Wf(q) && frame != NoFrame && Stopped(q, pid) && pid > 0
    ensures Stopped(Scheduled(q, frame), pid) && !IsActive(Scheduled(q, frame), pid)
    ensures !IsActive(q, pid) ==> !Listed(Scheduled(q, frame), pid)
  {
    hide Scheduled;
    var q' := Scheduled(q, frame);
    forall i: nat | IsJob(q', i, pid) ensures !q'.jobs[i].running && IsActive(q, pid) {
      var k := TickFrom(q, frame, i);
      assert IsJob(q, k, pid);
      TickKeeps(q, frame, k);
    }
    var c := TickPicks(q, frame, 0);
    assert q'.active < |q'.jobs| && IsJob(q', q'.active, q'.jobs[q'.active].pid);
  }

  /** Over any run, a killed task is never resumed again, and from the first tick on that finds
      another task active it is listed no more. */
  lemma {:induction false} KilledForGood(states: seq<Queue>, events: seq<Event>, i: nat, j: nat, pid: int)
    requires RunQueue.Run(states, events) && i < j <= |events| && events[i] == Event.Kill(pid) && Listed(states[i], pid)
    ensures Wf(states[j]) && Stopped(states[j], pid) && 0 < pid < states[j].nextPid
    ensures events[j - 1].Tick? ==> !IsActive(states[j], pid)
    ensures (exists k :: i < k < j && events[k].Tick? && !IsActive(states[k], pid)) ==> !Listed(states[j], pid)
  {
    hide Step, Stopped, Wf, Listed;
    assert Step(states[j - 1], states[j], events[j - 1]);
    if j == i + 1 {
      KillBegins(states[i], states[j], pid);
    } else {
      KilledForGood(states, events, i, j - 1, pid);
      StoppedStays(states[j - 1], states[j], events[j - 1], pid);
    }
  }

  lemma KillBegins(q: Queue, q': Queue, pid: int)
    requires Step(q, q', Event.Kill(pid)) && Listed(q, pid)
    ensures Wf(q') && Stopped(q', pid) && 0 < pid < q'.nextPid
  {
    hide Killed;
    StepKeeps(q, q', Event.Kill(pid), pid);
    KillStops(q, pid);
    var k := Index(q, pid);
    IndexIs(q, k);
  }

  /** No starvation: over a run without new tasks, a task that can run at every tick is resumed
      by one of as many ticks as tasks were listed. */
  lemma NobodyIsForgotten(states: seq<Queue>, events: seq<Event>, pid: int)
    requires RunQueue.Run(states, events)
    requires forall i :: 0 <= i < |events| ==> !events[i].Append?
    requires exists k :: IsJob(states[0], k, pid)
    requires forall i :: 0 <= i < |events| && events[i].Tick? ==>
      exists k :: IsJob(states[i], k, pid) && CanRun(states[i], k)
    requires Ticks(events, |events|) >= |states[0].jobs|
    ensures exists i :: 0 <= i < |events| && events[i].Tick? && IsActive(states[i + 1], pid)
  {
    forall i | 0 <= i < |events| && events[i].Tick? ensures EligiblePid(states[i], pid) {
      RunKeeps(states, events, i);
      var k :| IsJob(states[i], k, pid) && CanRun(states[i], k);
      IndexIs(states[i], k);
      CanRunIs(states[i], k);
    }
    PickedInTime(states, events, pid);
  }
}
