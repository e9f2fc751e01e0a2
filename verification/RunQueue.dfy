/** The round-robin run list of kernel/sched/sched.c as a value: what Schedule,
    SchedReapDeadTasks and SchedNext compute, and laws about whole runs. */
module RunQueue {

  /** A saved CPU frame: where TimerISR interrupted, or an entry point not yet run. */
  datatype Frame = NoFrame | Interrupted(at: nat) | KernelEntry(eip: nat) | UserEntry(eip: nat, esp: nat)

  /** What the scheduler reads of a task. */
  datatype Job = Job(pid: int, running: bool, waiting: bool, target: int, frame: Frame)

  /** The list in order, root first; the index of the active task; the next PID. */
  datatype Queue = Queue(jobs: seq<Job>, active: nat, nextPid: int)

  /** Nobody kills or blocks the root; PIDs are never used twice; every task that
      is not running right now has a frame to resume. */
  ghost predicate Wf(q: Queue) {
    && q.active < |q.jobs| && q.jobs[0].pid == 0 && q.jobs[0].running && !q.jobs[0].waiting
    && (forall i, j :: 0 <= i < j < |q.jobs| ==> q.jobs[i].pid != q.jobs[j].pid)
    && (forall i :: 0 <= i < |q.jobs| ==> 0 <= q.jobs[i].pid < q.nextPid)
    && (forall i :: 0 <= i < |q.jobs| && i != q.active ==> q.jobs[i].frame != NoFrame)
  }

  // -------------------------------------------------------------- eligibility

  /** Some listed, running task has this PID. */
  ghost predicate Alive(jobs: seq<Job>, pid: int) {
    exists k :: 0 <= k < |jobs| && jobs[k].pid == pid && jobs[k].running
  }

  ghost predicate Blocked(jobs: seq<Job>, j: Job) {
    j.waiting && Alive(jobs, j.target)
  }

  ghost predicate Eligible(jobs: seq<Job>, j: Job) {
    j.running && !Blocked(jobs, j)
  }

  /** IsTaskWaitBlocked drops a wait whose target is gone. */
  ghost function Cleared(jobs: seq<Job>, j: Job): Job {
    if j.waiting && !Blocked(jobs, j) then j.(waiting := false, target := 0) else j
  }

  // ------------------------------------------------------------ circular order

  /** The place `d` steps behind `a`, and how far `k` lies behind `a` (1 to n). */
  function Behind(a: nat, d: nat, n: nat): nat
    requires a < n && 1 <= d <= n
  {
    if a + d < n then a + d else a + d - n
  }

  function Ahead(a: nat, k: nat, n: nat): nat
    requires a < n && k < n
  {
    if k > a then k - a else k + n - a
  }

  /** The distance to the first eligible task, looking from distance `d` on. */
  ghost function FirstFrom(jobs: seq<Job>, a: nat, d: nat): (r: nat)
    requires a < |jobs| && 1 <= d
    ensures r == 0 || d <= r <= |jobs|
    ensures r > 0 ==> Eligible(jobs, jobs[Behind(a, r, |jobs|)])
    ensures forall e :: d <= e <= |jobs| && (r == 0 || e < r) ==> !Eligible(jobs, jobs[Behind(a, e, |jobs|)])
    decreases |jobs| + 1 - d
  {
    if d > |jobs| then 0
    else if Eligible(jobs, jobs[Behind(a, d, |jobs|)]) then d
    else FirstFrom(jobs, a, d + 1)
  }

  /** With the root eligible there always is one. */
  lemma RootIsEligible(q: Queue)
    requires Wf(q)
    ensures FirstFrom(q.jobs, q.active, 1) >= 1
  {
    var e := Ahead(q.active, 0, |q.jobs|);
    assert Behind(q.active, e, |q.jobs|) == 0;
    assert Eligible(q.jobs, q.jobs[0]);
  }

  /** The list after SchedNext has looked at the `d` tasks behind the active one. */
  ghost function Looked(q: Queue, d: nat): (r: seq<Job>)
    requires q.active < |q.jobs|
    ensures |r| == |q.jobs|
  {
    seq(|q.jobs|, k requires 0 <= k < |q.jobs| =>
      if Ahead(q.active, k, |q.jobs|) <= d then Cleared(q.jobs, q.jobs[k]) else q.jobs[k])
  }

  /** SchedNext. */
  ghost function Next(q: Queue): (r: Queue)
    requires Wf(q)
    ensures r.active < |r.jobs| == |q.jobs|
  {
    RootIsEligible(q);
    var d := FirstFrom(q.jobs, q.active, 1);
    q.(jobs := Looked(q, d), active := Behind(q.active, d, |q.jobs|))
  }

  /** Clearing stale waits changes nobody's eligibility. */
  lemma LookedSame(q: Queue, d: nat, k: nat)
    requires q.active < |q.jobs| && k < |q.jobs|
    ensures var j := Looked(q, d)[k];
            j.pid == q.jobs[k].pid && j.running == q.jobs[k].running && j.frame == q.jobs[k].frame
    ensures Blocked(Looked(q, d), Looked(q, d)[k]) <==> Blocked(q.jobs, q.jobs[k])
  {
    AliveSame(q.jobs, Looked(q, d), q.jobs[k].target);
    AliveSame(q.jobs, Looked(q, d), Looked(q, d)[k].target);
  }

  lemma AliveSame(jobs: seq<Job>, jobs': seq<Job>, pid: int)
    requires |jobs| == |jobs'|
    requires forall k :: 0 <= k < |jobs| ==> jobs[k].pid == jobs'[k].pid && jobs[k].running == jobs'[k].running
    ensures Alive(jobs, pid) <==> Alive(jobs', pid)
  {
  }

  /** SchedNext picks the first running, unblocked task in circular order behind the
      active one; it is not waiting any more, and frames stay as they are. */
  lemma NextChooses(q: Queue)
    requires Wf(q)
    ensures q.jobs[q.active].frame != NoFrame ==> Wf(Next(q))
    ensures Eligible(q.jobs, q.jobs[Next(q).active]) && !Next(q).jobs[Next(q).active].waiting
    ensures forall k :: 0 <= k < |q.jobs| && Eligible(q.jobs, q.jobs[k]) ==>
      Ahead(q.active, Next(q).active, |q.jobs|) <= Ahead(q.active, k, |q.jobs|)
    ensures forall k :: 0 <= k < |q.jobs| ==>
      Next(q).jobs[k].pid == q.jobs[k].pid && Next(q).jobs[k].frame == q.jobs[k].frame
  {
    RootIsEligible(q);
    var d := FirstFrom(q.jobs, q.active, 1);
    forall k | 0 <= k < |q.jobs| && Eligible(q.jobs, q.jobs[k]) ensures d <= Ahead(q.active, k, |q.jobs|) {
      assert Behind(q.active, Ahead(q.active, k, |q.jobs|), |q.jobs|) == k;
    }
    forall k | 0 <= k < |q.jobs|
      ensures Next(q).jobs[k].pid == q.jobs[k].pid && Next(q).jobs[k].frame == q.jobs[k].frame
      ensures Next(q).jobs[k].running == q.jobs[k].running
    {
      LookedSame(q, d, k);
    }
  }

  // ------------------------------------------------------------------- reaping

  /** The elements of `s` that stay, in order. */
  ghost function Kept<T>(s: seq<T>, stays: seq<bool>): seq<T>
    requires |s| == |stays|
  {
    if s == [] then []
    else
      var n := |s| - 1;
      Kept(s[..n], stays[..n]) + if stays[n] then [s[n]] else []
  }

  lemma KeptStep<T>(s: seq<T>, stays: seq<bool>, n: nat)
    requires |s| == |stays| && n < |s|
    ensures Kept(s[..n + 1], stays[..n + 1]) == Kept(s[..n], stays[..n]) + if stays[n] then [s[n]] else []
  {
    assert s[..n + 1][..n] == s[..n] && stays[..n + 1][..n] == stays[..n];
  }

  /** How many of the first `i` stay: the new index of element `i`. */
  ghost function Count(stays: seq<bool>, i: nat): (r: nat)
    requires i <= |stays|
    ensures r <= i
  {
    if i == 0 then 0 else Count(stays, i - 1) + if stays[i - 1] then 1 else 0
  }

  lemma {:induction false} CountPrefix(stays: seq<bool>, n: nat, i: nat)
    requires i <= n <= |stays|
    ensures Count(stays[..n], i) == Count(stays, i)
  {
    if i > 0 {
      CountPrefix(stays, n, i - 1);
    }
  }

  lemma {:induction false} KeptLength<T>(s: seq<T>, stays: seq<bool>)
    requires |s| == |stays|
    ensures |Kept(s, stays)| == Count(stays, |s|)
  {
    if s != [] {
      KeptLength(s[..|s| - 1], stays[..|s| - 1]);
      CountPrefix(stays, |s| - 1, |s| - 1);
    }
  }

  /** Where an element that stays ends up. */
  lemma {:induction false} KeptAt<T>(s: seq<T>, stays: seq<bool>, i: nat)
    requires |s| == |stays| && i < |s| && stays[i]
    ensures Count(stays, i) < |Kept(s, stays)| && Kept(s, stays)[Count(stays, i)] == s[i]
  {
    var n := |s| - 1;
    KeptLength(s[..n], stays[..n]);
    CountPrefix(stays, n, n);
    CountPrefix(stays, n, i);
    if i < n {
      KeptAt(s[..n], stays[..n], i);
    }
  }

  /** Where an element of the kept list comes from. */
  lemma {:induction false} KeptFrom<T>(s: seq<T>, stays: seq<bool>, k: nat) returns (i: nat)
    requires |s| == |stays| && k < |Kept(s, stays)|
    ensures i < |s| && stays[i] && Count(stays, i) == k && Kept(s, stays)[k] == s[i]
  {
    var n := |s| - 1;
    KeptLength(s[..n], stays[..n]);
    CountPrefix(stays, n, n);
    if k < |Kept(s[..n], stays[..n])| {
      i := KeptFrom(s[..n], stays[..n], k);
      CountPrefix(stays, n, i);
    } else {
      i := n;
    }
  }

  /** Between two places no more stay than there are. */
  lemma {:induction false} CountBetween(stays: seq<bool>, i: nat, j: nat)
    requires i <= j <= |stays|
    ensures Count(stays, i) <= Count(stays, j) <= Count(stays, i) + (j - i)
    ensures i < j && stays[i] ==> Count(stays, i) < Count(stays, j)
  {
    if i < j {
      CountBetween(stays, i, j - 1);
    }
  }

  /** SchedReapDeadTasks drops whoever is dead and not active; the root always stays. */
  predicate Stays(q: Queue, i: int)
    requires 0 <= i < |q.jobs|
  {
    i == 0 || q.jobs[i].running || i == q.active
  }

  function Staying(q: Queue): (r: seq<bool>)
    ensures |r| == |q.jobs| && forall i :: 0 <= i < |r| ==> r[i] == Stays(q, i)
  {
    seq(|q.jobs|, i requires 0 <= i < |q.jobs| => Stays(q, i))
  }

  ghost function Reap(q: Queue): Queue
    requires q.active < |q.jobs|
  {
    q.(jobs := Kept(q.jobs, Staying(q)), active := Count(Staying(q), q.active))
  }

  /** The new place of a task that survives. */
  lemma ReapedAt(q: Queue, k: nat)
    requires Wf(q) && k < |q.jobs| && Stays(q, k)
    ensures var k' := Count(Staying(q), k);
            && k' < |Reap(q).jobs| && Reap(q).jobs[k'] == q.jobs[k]
            && Reap(q).active < |Reap(q).jobs| && Reap(q).jobs[Reap(q).active] == q.jobs[q.active]
            && Ahead(Reap(q).active, k', |Reap(q).jobs|) <= Ahead(q.active, k, |q.jobs|)
  {
    var stays := Staying(q);
    KeptAt(q.jobs, stays, k);
    KeptAt(q.jobs, stays, q.active);
    KeptLength(q.jobs, stays);
    CountBetween(stays, q.active, |q.jobs|);
    if k > q.active {
      CountBetween(stays, q.active, k);
    } else {
      CountBetween(stays, k, q.active);
    }
  }

  lemma ReapedDistinct(q: Queue)
    requires Wf(q)
    ensures forall k, l :: 0 <= k < l < |Reap(q).jobs| ==> Reap(q).jobs[k].pid != Reap(q).jobs[l].pid
  {
    forall k, l: nat | 0 <= k < l < |Reap(q).jobs| ensures Reap(q).jobs[k].pid != Reap(q).jobs[l].pid {
      var i := KeptFrom(q.jobs, Staying(q), k);
      var j := KeptFrom(q.jobs, Staying(q), l);
    }
  }

  /** Reaping keeps the queue in order; the active task stays active. */
  lemma ReapKeeps(q: Queue)
    requires Wf(q)
    ensures Wf(Reap(q)) && Reap(q).jobs[Reap(q).active] == q.jobs[q.active]
    ensures forall j :: j in Reap(q).jobs ==> j in q.jobs
    ensures forall k :: 0 <= k < |q.jobs| && Stays(q, k) ==> q.jobs[k] in Reap(q).jobs
  {
    var q', stays := Reap(q), Staying(q);
    ReapedAt(q, 0);
    ReapedDistinct(q);
    forall k: nat | k < |q'.jobs| ensures q'.jobs[k] in q.jobs && 0 <= q'.jobs[k].pid < q.nextPid
      ensures k != q'.active ==> q'.jobs[k].frame != NoFrame
    {
      var i := KeptFrom(q.jobs, stays, k);
    }
    forall k | 0 <= k < |q.jobs| && Stays(q, k) ensures q.jobs[k] in q'.jobs {
      ReapedAt(q, k);
    }
  }

  /** Exactly the live ones, the root and the active task survive. */
  lemma ReapedExactly(q: Queue, k: nat)
    requires Wf(q) && k < |q.jobs|
    ensures Listed(Reap(q), q.jobs[k].pid) <==> Stays(q, k)
  {
    if Stays(q, k) {
      ReapedAt(q, k);
    }
    if Listed(Reap(q), q.jobs[k].pid) {
      var i := KeptFrom(q.jobs, Staying(q), Index(Reap(q), q.jobs[k].pid));
      assert q.jobs[i].pid == q.jobs[k].pid;
    }
  }

  /** Reaping neither blocks nor unblocks anybody. */
  lemma ReapBlocks(q: Queue, j: Job)
    requires Wf(q)
    ensures Blocked(Reap(q).jobs, j) <==> Blocked(q.jobs, j)
  {
    ReapKeeps(q);
    if Alive(q.jobs, j.target) {
      var k :| 0 <= k < |q.jobs| && q.jobs[k].pid == j.target && q.jobs[k].running;
      assert Stays(q, k) && q.jobs[k] in Reap(q).jobs;
    }
    if Alive(Reap(q).jobs, j.target) {
      var k :| 0 <= k < |Reap(q).jobs| && Reap(q).jobs[k].pid == j.target && Reap(q).jobs[k].running;
      assert Reap(q).jobs[k] in q.jobs;
    }
  }

  // ------------------------------------------------------------------ schedule

  ghost function Saved(q: Queue, frame: Frame): Queue
    requires q.active < |q.jobs|
  {
    q.(jobs := q.jobs[q.active := q.jobs[q.active].(frame := frame)])
  }

  lemma SavedWf(q: Queue, frame: Frame)
    requires Wf(q)
    ensures Wf(Saved(q, frame))
    ensures forall j :: Blocked(Saved(q, frame).jobs, j) <==> Blocked(q.jobs, j)
  {
    forall j ensures Blocked(Saved(q, frame).jobs, j) <==> Blocked(q.jobs, j) {
      AliveSame(q.jobs, Saved(q, frame).jobs, j.target);
    }
  }

  /** Schedule: save the frame, reap, move on. */
  ghost function Scheduled(q: Queue, frame: Frame): (r: Queue)
    requires Wf(q) && frame != NoFrame
    ensures r.active < |r.jobs|
  {
    SavedWf(q, frame);
    ReapKeeps(Saved(q, frame));
    Next(Reap(Saved(q, frame)))
  }

  ghost function Index(q: Queue, pid: int): (k: nat)
    requires exists i :: 0 <= i < |q.jobs| && q.jobs[i].pid == pid
    ensures k < |q.jobs| && q.jobs[k].pid == pid
  {
    var i: nat :| i < |q.jobs| && q.jobs[i].pid == pid;
    i
  }

  ghost predicate Listed(q: Queue, pid: int) {
    exists i :: 0 <= i < |q.jobs| && q.jobs[i].pid == pid
  }

  ghost predicate EligiblePid(q: Queue, pid: int) {
    Listed(q, pid) && Eligible(q.jobs, q.jobs[Index(q, pid)])
  }

  ghost predicate BlockedPid(q: Queue, pid: int) {
    Listed(q, pid) && Blocked(q.jobs, q.jobs[Index(q, pid)])
  }

  function ActivePid(q: Queue): int
    requires q.active < |q.jobs|
  {
    q.jobs[q.active].pid
  }

  predicate IsActive(q: Queue, pid: int) {
    q.active < |q.jobs| && q.jobs[q.active].pid == pid
  }

  ghost function FrameOf(q: Queue, pid: int): Frame
    requires Listed(q, pid)
  {
    q.jobs[Index(q, pid)].frame
  }

  /** How far the task is behind the active one. */
  ghost function Distance(q: Queue, pid: int): nat
    requires q.active < |q.jobs| && Listed(q, pid)
  {
    Ahead(q.active, Index(q, pid), |q.jobs|)
  }

  lemma IndexIs(q: Queue, k: nat)
    requires Wf(q) && k < |q.jobs|
    ensures Listed(q, q.jobs[k].pid) && Index(q, q.jobs[k].pid) == k
  {
  }

  /** One call of Schedule. It resumes an eligible task; whoever is eligible and not
      resumed is still listed and has come nearer; frames move nowhere. */
  lemma ScheduleStep(q: Queue, frame: Frame, pid: int)
    requires Wf(q) && frame != NoFrame
    ensures var q' := Scheduled(q, frame);
      && Wf(q') && q'.nextPid == q.nextPid && |q'.jobs| <= |q.jobs|
      && (Listed(q', pid) ==> Listed(q, pid))
      && (Listed(q', pid) ==> FrameOf(q', pid) == if pid == ActivePid(q) then frame else FrameOf(q, pid))
      && (ActivePid(q') == pid ==> EligiblePid(q, pid) && !q'.jobs[q'.active].waiting)
      && (EligiblePid(q, pid) && ActivePid(q') != pid ==> Listed(q', pid) && Distance(q', pid) < Distance(q, pid))
  {
    FramesStayPut(q, frame, pid);
    PickedWasEligible(q, frame, pid);
    if EligiblePid(q, pid) && ActivePid(Scheduled(q, frame)) != pid {
      EligibleComesNearer(q, frame, pid);
    }
  }

  /** Schedule lists nobody new and moves no frame but the interrupted one. */
  lemma FramesStayPut(q: Queue, frame: Frame, pid: int)
    requires Wf(q) && frame != NoFrame
    ensures var q' := Scheduled(q, frame);
      && Wf(q') && q'.nextPid == q.nextPid && |q'.jobs| <= |q.jobs|
      && (Listed(q', pid) ==> Listed(q, pid))
      && (Listed(q', pid) ==> FrameOf(q', pid) == if pid == ActivePid(q) then frame else FrameOf(q, pid))
  {
    hide Alive, Blocked, Eligible, FirstFrom, Looked;
    var saved := Saved(q, frame);
    SavedWf(q, frame);
    ReapKeeps(saved);
    NextChooses(Reap(saved));
    KeptLength(saved.jobs, Staying(saved));
    var q' := Next(Reap(saved));
    if Listed(q', pid) {
      var k := Index(q', pid);
      var i := KeptFrom(saved.jobs, Staying(saved), k);
      IndexIs(q, i);
    }
  }

  /** Schedule picks a task that was eligible before the call. */
  lemma PickedWasEligible(q: Queue, frame: Frame, pid: int)
    requires Wf(q) && frame != NoFrame
    ensures var q' := Scheduled(q, frame);
      ActivePid(q') == pid ==> EligiblePid(q, pid) && !q'.jobs[q'.active].waiting
  {
    var saved := Saved(q, frame);
    SavedWf(q, frame);
    ReapKeeps(saved);
    NextChooses(Reap(saved));
    var q' := Next(Reap(saved));
    if ActivePid(q') == pid {
      var i := KeptFrom(saved.jobs, Staying(saved), q'.active);
      IndexIs(q, i);
      ReapBlocks(saved, saved.jobs[i]);
    }
  }

  lemma EligibleComesNearer(q: Queue, frame: Frame, pid: int)
    requires Wf(q) && frame != NoFrame && EligiblePid(q, pid) && ActivePid(Scheduled(q, frame)) != pid
    ensures var q' := Scheduled(q, frame); Wf(q') && Listed(q', pid) && Distance(q', pid) < Distance(q, pid)
  {
    var saved := Saved(q, frame);
    SavedWf(q, frame);
    ReapKeeps(saved);
    var reaped := Reap(saved);
    NextChooses(reaped);
    var i := Index(q, pid);
    ReapBlocks(saved, saved.jobs[i]);
    ReapedAt(saved, i);
    var k := Count(Staying(saved), i);
    IndexIs(Next(reaped), k);
    AheadOfNext(reaped.active, Next(reaped).active, k, |reaped.jobs|);
  }

  lemma AheadOfNext(a: nat, c: nat, k: nat, n: nat)
    requires a < n && c < n && k < n && c != k && Ahead(a, c, n) <= Ahead(a, k, n)
    ensures Ahead(c, k, n) < Ahead(a, k, n)
  {
  }

  // ---------------------------------------------------------------------- runs

  /** The calls that touch the run list, each as one step; Skip is an append that failed
      after its task had got a PID. */
  datatype Event =
    | Tick(frame: Frame)
    | Kill(pid: int)
    | Wait(pid: int)
    | Append(job: Job)
    | Skip

  /** The queue with one job changed. */
  ghost function With(q: Queue, k: nat, j: Job): Queue
    requires k < |q.jobs|
  {
    q.(jobs := q.jobs[k := j])
  }

  /** TaskKill and its relatives. */
  ghost function Killed(q: Queue, pid: int): Queue {
    if Listed(q, pid) then With(q, Index(q, pid), q.jobs[Index(q, pid)].(running := false)) else q
  }

  /** SchedWaitPid by the active task: it waits only for a listed, running, other task. */
  ghost function Waited(q: Queue, pid: int): Queue
    requires q.active < |q.jobs|
  {
    if pid != ActivePid(q) && Listed(q, pid) && q.jobs[Index(q, pid)].running
    then With(q, q.active, q.jobs[q.active].(waiting := true, target := pid)) else q
  }

  /** AppendTask and its relatives: a new PID, ready to run from its entry point. */
  ghost function Appended(q: Queue, job: Job): Queue {
    q.(jobs := q.jobs + [job], nextPid := q.nextPid + 1)
  }

  ghost predicate Step(q: Queue, q': Queue, e: Event) {
    Wf(q) && match e
    case Tick(frame) => frame != NoFrame && q' == Scheduled(q, frame)
    case Kill(pid) => pid != 0 && q' == Killed(q, pid)
    case Wait(pid) => q.active != 0 && q' == Waited(q, pid)
    case Append(job) =>
      job.pid == q.nextPid && job.running && !job.waiting && job.frame != NoFrame && q' == Appended(q, job)
    case Skip => q' == q.(nextPid := q.nextPid + 1)
  }

  ghost predicate Run(states: seq<Queue>, events: seq<Event>) {
    && |states| == |events| + 1 && Wf(states[0])
    && forall i :: 0 <= i < |events| ==> Step(states[i], states[i + 1], events[i])
  }

  lemma ChangedWf(q: Queue, k: nat, j: Job, pid: int)
    requires Wf(q) && k < |q.jobs| && j.pid == q.jobs[k].pid && j.frame == q.jobs[k].frame
    requires k == 0 ==> j == q.jobs[0]
    ensures Wf(With(q, k, j)) && (Listed(With(q, k, j), pid) <==> Listed(q, pid))
    ensures Listed(q, pid) ==> Index(With(q, k, j), pid) == Index(q, pid)
  {
    if Listed(q, pid) {
      assert With(q, k, j).jobs[Index(q, pid)].pid == pid;
      IndexIs(With(q, k, j), Index(q, pid));
    }
  }

  /** Any step keeps the queue in order, and only an interruption changes a frame. */
  lemma StepKeeps(q: Queue, q': Queue, e: Event, pid: int)
    requires Step(q, q', e)
    ensures Wf(q') && q.nextPid <= q'.nextPid
    ensures Listed(q', pid) && !Listed(q, pid) ==> e.Append? && e.job.pid == pid == q.nextPid
    ensures Listed(q', pid) && Listed(q, pid) ==>
      FrameOf(q', pid) == if e.Tick? && pid == ActivePid(q) then e.frame else FrameOf(q, pid)
    ensures e.Kill? || e.Wait? || e.Skip? ==> ActivePid(q') == ActivePid(q) && |q'.jobs| == |q.jobs|
    ensures (e.Kill? || e.Wait? || e.Skip?) && Listed(q, pid) ==>
      Listed(q', pid) && Distance(q', pid) == Distance(q, pid)
  {
    match e
    case Tick(frame) => ScheduleStep(q, frame, pid);
    case Kill(victim) =>
      if Listed(q, victim) {
        var k := Index(q, victim);
        ChangedWf(q, k, q.jobs[k].(running := false), pid);
      }
    case Wait(victim) =>
      ChangedWf(q, q.active, q.jobs[q.active].(waiting := true, target := victim), pid);
    case Append(job) =>
      AppendedKeeps(q, job, pid);
    case Skip =>
      SkippedPid(q, pid);
  }

  /** A PID that goes to nobody changes nothing else. */
  lemma SkippedPid(q: Queue, pid: int)
    requires Wf(q)
    ensures Wf(q.(nextPid := q.nextPid + 1)) && (Listed(q.(nextPid := q.nextPid + 1), pid) <==> Listed(q, pid))
    ensures Listed(q, pid) ==> Index(q.(nextPid := q.nextPid + 1), pid) == Index(q, pid)
  {
    if Listed(q, pid) {
      IndexIs(q, Index(q, pid));
      IndexIs(q.(nextPid := q.nextPid + 1), Index(q, pid));
    }
  }

  lemma AppendedWf(q: Queue, job: Job)
    requires Wf(q) && job.pid == q.nextPid && job.frame != NoFrame
    ensures Wf(Appended(q, job)) && ActivePid(Appended(q, job)) == ActivePid(q)
  {
  }

  lemma AppendedKeeps(q: Queue, job: Job, pid: int)
    requires Wf(q) && job.pid == q.nextPid && job.frame != NoFrame
    ensures Wf(Appended(q, job)) && ActivePid(Appended(q, job)) == ActivePid(q)
    ensures Listed(Appended(q, job), pid) && !Listed(q, pid) ==> pid == q.nextPid
    ensures Listed(q, pid) ==> Listed(Appended(q, job), pid) && FrameOf(Appended(q, job), pid) == FrameOf(q, pid)
  {
    var q' := Appended(q, job);
    AppendedWf(q, job);
    if Listed(q, pid) {
      var k := Index(q, pid);
      assert q'.jobs[k] == q.jobs[k];
      IndexIs(q', k);
    } else if Listed(q', pid) {
      assert forall i :: 0 <= i < |q.jobs| ==> q'.jobs[i].pid != pid;
      var k := Index(q', pid);
    }
  }

  lemma {:induction false} RunKeeps(states: seq<Queue>, events: seq<Event>, k: nat)
    requires Run(states, events) && k <= |events|
    ensures Wf(states[k])
  {
    if k > 0 {
      RunKeeps(states, events, k - 1);
      assert Step(states[k - 1], states[k], events[k - 1]);
      StepKeeps(states[k - 1], states[k], events[k - 1], 0);
    }
  }

  /** In no run is a task made active by Schedule while it waits for a listed, running one. */
  lemma NeverWhileBlocked(states: seq<Queue>, events: seq<Event>, i: nat)
    requires Run(states, events) && i < |events| && events[i].Tick?
    ensures states[i + 1].active < |states[i + 1].jobs| && !BlockedPid(states[i], ActivePid(states[i + 1]))
    ensures !states[i + 1].jobs[states[i + 1].active].waiting
  {
    assert Step(states[i], states[i + 1], events[i]);
    ScheduleStep(states[i], events[i].frame, ActivePid(states[i + 1]));
  }

  /** The task interrupted by tick `i` has, until it is next interrupted, that frame saved. */
  lemma {:induction false} FrameStays(states: seq<Queue>, events: seq<Event>, i: nat, j: nat, pid: int)
    requires Run(states, events) && i < j <= |events| && events[i].Tick?
    requires IsActive(states[i], pid)
    requires forall k :: i < k < j && events[k].Tick? ==> !IsActive(states[k], pid)
    ensures Listed(states[j], pid) ==> FrameOf(states[j], pid) == events[i].frame
    ensures pid < states[j].nextPid
  {
    hide Scheduled, Killed, Waited, Appended, Eligible, Blocked;
    assert Step(states[j - 1], states[j], events[j - 1]);
    if j == i + 1 {
      IndexIs(states[i], states[i].active);
    } else {
      FrameStays(states, events, i, j - 1, pid);
    }
    StepKeeps(states[j - 1], states[j], events[j - 1], pid);
  }

  /** Schedule resumes a task with exactly the frame saved when it was last interrupted. */
  lemma ResumesLastFrame(states: seq<Queue>, events: seq<Event>, i: nat, j: nat, pid: int)
    requires Run(states, events) && i <= j < |events| && events[i].Tick? && events[j].Tick?
    requires IsActive(states[i], pid)
    requires forall k :: i < k <= j && events[k].Tick? ==> !IsActive(states[k], pid)
    requires IsActive(states[j + 1], pid)
    ensures states[j + 1].jobs[states[j + 1].active].frame == events[i].frame
  {
    FrameStays(states, events, i, j + 1, pid);
    RunKeeps(states, events, j + 1);
    IndexIs(states[j + 1], states[j + 1].active);
  }

  /** A task that was never interrupted starts at the entry point it was made with. */
  lemma {:induction false} StartsAtEntry(states: seq<Queue>, events: seq<Event>, i: nat, j: nat, pid: int)
    requires Run(states, events) && i < j <= |events| && events[i].Append? && events[i].job.pid == pid
    requires forall k :: i < k < j && events[k].Tick? ==> !IsActive(states[k], pid)
    ensures Listed(states[j], pid) ==> FrameOf(states[j], pid) == events[i].job.frame
    ensures pid < states[j].nextPid
  {
    hide Scheduled, Killed, Waited, Eligible, Blocked;
    assert Step(states[j - 1], states[j], events[j - 1]);
    if j == i + 1 {
      AppendedIs(states[i], events[i].job);
    } else {
      StartsAtEntry(states, events, i, j - 1, pid);
      RunKeeps(states, events, j - 1);
      StepKeeps(states[j - 1], states[j], events[j - 1], pid);
    }
  }

  lemma AppendedIs(q: Queue, job: Job)
    requires Wf(q) && job.pid == q.nextPid && job.frame != NoFrame
    ensures Listed(Appended(q, job), job.pid) && FrameOf(Appended(q, job), job.pid) == job.frame
  {
    AppendedKeeps(q, job, job.pid);
    IndexIs(Appended(q, job), |q.jobs|);
  }

  /** The calls of Schedule among the first `n` events. */
  function Ticks(events: seq<Event>, n: nat): nat
    requires n <= |events|
  {
    if n == 0 then 0 else Ticks(events, n - 1) + if events[n - 1].Tick? then 1 else 0
  }

  /** While it is not picked, an eligible task comes nearer with every tick. */
  lemma {:induction false} ComesNearer(states: seq<Queue>, events: seq<Event>, pid: int, n: nat)
    requires Run(states, events) && n <= |events| && Listed(states[0], pid)
    requires forall i :: 0 <= i < |events| ==> !events[i].Append?
    requires forall i :: 0 <= i < |events| && events[i].Tick? ==> EligiblePid(states[i], pid)
    requires forall i :: 0 <= i < n && events[i].Tick? ==> !IsActive(states[i + 1], pid)
    ensures Wf(states[n]) && Listed(states[n], pid)
    ensures Distance(states[n], pid) + Ticks(events, n) <= Distance(states[0], pid)
  {
    if n > 0 {
      ComesNearer(states, events, pid, n - 1);
      var q, q', e := states[n - 1], states[n], events[n - 1];
      assert Step(q, q', e);
      StepKeeps(q, q', e, pid);
      if e.Tick? {
        ScheduleStep(q, e.frame, pid);
      }
    }
  }

  /** No starvation: a task that is eligible at every tick of a run without new tasks is
      picked within as many ticks as tasks were listed, even while dead ones are reaped. */
  lemma PickedInTime(states: seq<Queue>, events: seq<Event>, pid: int)
    requires Run(states, events) && Listed(states[0], pid)
    requires forall i :: 0 <= i < |events| ==> !events[i].Append?
    requires forall i :: 0 <= i < |events| && events[i].Tick? ==> EligiblePid(states[i], pid)
    requires Ticks(events, |events|) >= |states[0].jobs|
    ensures exists i :: 0 <= i < |events| && events[i].Tick? && IsActive(states[i + 1], pid)
  {
    if forall i :: 0 <= i < |events| && events[i].Tick? ==> !IsActive(states[i + 1], pid) {
      ComesNearer(states, events, pid, |events|);
    }
  }
}
