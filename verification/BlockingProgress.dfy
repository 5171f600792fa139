/** The blocking pool gets its work done: while a call is resident or a close is under
    way some thread can go on by itself, and threads cannot go on by themselves for
    ever; where they stop, every call has ended and the close is over. */
module BlockingProgress {
  import opened BlockingPool

  /** Everything but what comes from outside: new calls, stops, cancellations, and
      waits that fail. */
  predicate Internal(step: Step) {
    !step.StartRun? && !step.StartStop? && !step.Cancel? && !step.WaitFails?
  }

  // ----- workers are joined before a close is over -----

  ghost predicate AllExited(s: State) {
    forall w :: 0 <= w < |s.workers| ==> s.workers[w] == Exited
  }

  ghost predicate EndOk(s: State) {
    && s.capacity > 0 && |s.workers| > 0
    && (s.owner == InJoin ==> s.workerStop)
    && (s.closer == Closed ==> s.workerStop && AllExited(s))
  }

  lemma EndKeeps(s: State, step: Step)
    requires EndOk(s) && Enabled(s, step)
    ensures EndOk(Apply(s, step))
  {
    hide Apply, Enabled, EndOk;
    if step.Take? || step.Exit? || step.Publish? {
      EndWorker(s, step);
    } else if step.CheckClose? || step.JoinWorkers? || step.WakeClose? {
      EndClose(s, step);
    } else if step.StartRun? || step.EndResidence? || step.CheckAdmission? || step.CheckDelivery? {
      EndCall(s, step);
    } else {
      EndOther(s, step);
    }
  }

  lemma EndWorker(s: State, step: Step)
    requires EndOk(s) && Enabled(s, step) && (step.Take? || step.Exit? || step.Publish?)
    ensures EndOk(Apply(s, step))
  {
  }

  lemma EndClose(s: State, step: Step)
    requires EndOk(s) && Enabled(s, step) && (step.CheckClose? || step.JoinWorkers? || step.WakeClose?)
    ensures EndOk(Apply(s, step))
  {
  }

  lemma EndCall(s: State, step: Step)
    requires EndOk(s) && Enabled(s, step)
    requires step.StartRun? || step.EndResidence? || step.CheckAdmission? || step.CheckDelivery?
    ensures EndOk(Apply(s, step))
  {
    hide Without;
    assert Apply(s, step).workers == s.workers;
  }

  lemma EndOther(s: State, step: Step)
    requires EndOk(s) && Enabled(s, step) && !step.Take? && !step.Exit? && !step.Publish?
    requires !step.CheckClose? && !step.JoinWorkers? && !step.WakeClose?
    requires !step.StartRun? && !step.EndResidence? && !step.CheckAdmission? && !step.CheckDelivery?
    ensures EndOk(Apply(s, step))
  {
    assert Apply(s, step).workers == s.workers;
  }

  lemma {:induction false} RunEnds(states: seq<State>, steps: seq<Step>, i: nat)
    requires Run(states, steps) && i < |states|
    ensures EndOk(states[i])
  {
    hide EndOk, Enabled, Apply;
    if i == 0 {
      StartsOpen(states[0]);
    } else {
      RunEnds(states, steps, i - 1);
      EndKeeps(states[i - 1], steps[i - 1]);
    }
  }

  lemma StartsOpen(s: State)
    requires Initial(s)
    ensures EndOk(s)
  {
  }

  /** In every run: once a close has returned, every worker has exited and every call
      that was submitted has been published; nothing is queued. */
  lemma ClosedIsOver(states: seq<State>, steps: seq<Step>, i: nat)
    requires Run(states, steps) && i < |states| && states[i].closer == Closed
    ensures AllExited(states[i]) && states[i].queue == []
    ensures forall j :: 0 <= j < |states[i].jobs| && states[i].jobs[j].submitted ==> states[i].jobs[j].done
  {
    hide Run;
    RunKeeps(states, steps, i);
    RunEnds(states, steps, i);
    var s := states[i];
    forall j | 0 <= j < |s.jobs| && s.jobs[j].submitted
      ensures s.jobs[j].done
    {
      JobAt(s, j);
      assert j !in s.queue;
    }
  }

  // ----- something can always go on -----

  ghost predicate CanStep(s: State) {
    exists step :: Internal(step) && Enabled(s, step)
  }

  lemma WorkerCan(s: State, j: nat)
    requires Inv(s) && EndOk(s) && j < |s.jobs| && s.jobs[j].submitted && !s.jobs[j].done
    ensures CanStep(s)
  {
    hide Inv, Enabled;
    WorkersProgress(s, j);
    var step :| WorkerStep(step) && Enabled(s, step);
  }

  lemma OwnerCan(s: State)
    requires Inv(s) && EndOk(s) && s.owner != Free
    ensures CanStep(s)
  {
    match s.owner
    case InCall(j) =>
      var pc := s.jobs[j].pc;
      if pc == AdmitCheck {
        assert Enabled(s, CheckAdmission);
      } else if pc == DeliverCheck {
        assert Enabled(s, CheckDelivery);
      } else {
        assert Enabled(s, Drain);
      }
    case InGuard(j) =>
      if s.jobs[j].submitted && !s.jobs[j].done {
        WorkerCan(s, j);
      } else {
        assert Enabled(s, EndResidence);
      }
    case InNotify(_) =>
      Listed(s);
      assert Enabled(s, NotifyNext);
    case InStop(_, _) =>
      Listed(s);
      assert Enabled(s, StopNext);
    case InClose =>
      assert Enabled(s, CheckClose);
    case InJoin =>
      JoinCan(s);
  }

  lemma Listed(s: State)
    requires Inv(s)
    ensures forall k :: 0 <= k < |s.calls| ==> s.calls[k] < |s.jobs|
  {
    forall k | 0 <= k < |s.calls|
      ensures s.calls[k] < |s.jobs|
    {
      assert s.calls[k] in s.calls;
    }
  }

  lemma JoinCan(s: State)
    requires Inv(s) && EndOk(s) && s.owner == InJoin
    ensures CanStep(s)
  {
    if AllExited(s) {
      assert Enabled(s, JoinWorkers);
    } else {
      var w :| 0 <= w < |s.workers| && s.workers[w] != Exited;
      if s.workers[w].Busy? {
        HeldIsResident(s, w);
      }
      assert Enabled(s, Exit(w));
    }
  }

  /** A resident call with the deck idle is parked. */
  lemma ParkedCan(s: State, j: nat)
    requires Inv(s) && EndOk(s) && s.owner == Free && j in s.calls
    requires s.jobs[j].submitted || s.jobs[j].readable
    ensures CanStep(s)
  {
    JobAt(s, j);
    if s.jobs[j].readable {
      assert Enabled(s, Wake(j));
    } else {
      ParkedHasReason(s, j);
      WorkerCan(s, j);
    }
  }

  /** While a call is resident, the owner is in the middle of something, or a close
      waits, some step that needs nothing from outside is enabled. */
  lemma NeverStuck(s: State)
    requires Inv(s) && EndOk(s) && (s.calls != [] || s.owner != Free || s.closer == ClosePark)
    ensures CanStep(s)
  {
    hide Enabled, CanStep, JobsOk;
    if s.owner != Free {
      OwnerCan(s);
    } else if s.calls != [] {
      var j := s.calls[0];
      assert j in s.calls;
      if s.jobs[j].submitted || s.jobs[j].readable {
        ParkedCan(s, j);
      } else {
        Waits(s, j);
        var k := SomeAdmitted(s);
        ParkedCan(s, k);
      }
    } else {
      assert s.closeReadable;
      CloseCan(s);
    }
  }

  lemma CloseCan(s: State)
    requires s.owner == Free && s.closer == ClosePark && s.closeReadable
    ensures CanStep(s)
  {
    assert Enabled(s, WakeClose) && Internal(WakeClose);
  }

  lemma Waits(s: State, j: nat)
    requires Inv(s) && s.owner == Free && j in s.calls && !s.jobs[j].submitted && !s.jobs[j].readable
    ensures s.occupied == s.capacity
  {
    JobAt(s, j);
    ParkedHasReason(s, j);
  }

  lemma SomeAdmitted(s: State) returns (k: nat)
    requires Inv(s) && s.occupied > 0
    ensures k in s.calls && s.jobs[k].submitted
  {
    hide JobsOk, WorkersOk, WakesOk, StopOk;
    k :| k in Admitted(s.jobs);
  }

  /** With the deck idle every resident call is parked: its wait may fail, and a stop
      or a new call may come in; a resident call may be cancelled at any time. */
  lemma IdleCan(s: State, j: nat)
    requires Inv(s) && j in s.calls
    ensures Enabled(s, Cancel(j))
    ensures s.owner == Free ==> Enabled(s, WaitFails(j)) && Enabled(s, StartRun) && Enabled(s, StartStop(false))
  {
    JobAt(s, j);
  }

  // ----- nothing goes on for ever -----

  ghost function Total(jobs: seq<Job>, weight: Job -> nat): nat {
    if jobs == [] then 0 else Total(jobs[..|jobs| - 1], weight) + weight(jobs[|jobs| - 1])
  }

  lemma {:induction false} TotalSet(jobs: seq<Job>, j: nat, job: Job, weight: Job -> nat)
    requires j < |jobs|
    ensures Total(jobs[j := job], weight) == Total(jobs, weight) - weight(jobs[j]) + weight(job)
  {
    var n := |jobs| - 1;
    var front := jobs[..n];
    if j < n {
      TotalSet(front, j, job, weight);
      assert jobs[j := job][..n] == front[j := job];
    } else {
      assert jobs[j := job][..n] == front;
    }
  }

  /** How far a job still has to go: to be submitted, through a worker, and out. */
  ghost function Distance(job: Job): nat {
    (if job.submitted then 0 else 1)
    + (match job.stage
       case Unclaimed => 5
       case By(_, at) =>
         (match at case Locking => 4 case Starting => 3 case Calling => 2 case Publishing => 1)
       case Published => 0)
    + (if job.pc.Left? then 0 else if job.pc.Leaving? then 1 else 2)
  }

  /** How much checking its notification can still cause. */
  ghost function Stir(job: Job): nat {
    var unread := if job.readable then 4 else 0;
    if job.pc == AdmitPark || job.pc == DeliverPark then unread
    else if job.pc == AdmitDrain || job.pc == DeliverDrain then 3
    else if job.pc == AdmitCheck || job.pc == DeliverCheck then 1 + unread
    else 0
  }

  ghost function Major(s: State): nat {
    Total(s.jobs, Distance)
  }

  ghost function Loop(s: State): nat {
    var rest := |s.calls|;
    match s.owner
    case InNotify(next) => 8 + 5 * (if next < rest then rest - next else 0)
    case InStop(next, _) => 4 + 5 * (if next < rest then rest - next else 0)
    case InClose => 3
    case InJoin => 1
    case _ => 0
  }

  ghost function Living(workers: seq<Worker>): nat {
    if workers == [] then 0
    else Living(workers[..|workers| - 1]) + if workers[|workers| - 1] == Exited then 0 else 1
  }

  ghost function Minor(s: State): nat {
    Total(s.jobs, Stir) + Loop(s) + Living(s.workers) + if s.closer == ClosePark && s.closeReadable then 4 else 0
  }

  lemma {:induction false} LivingSet(workers: seq<Worker>, w: nat, worker: Worker)
    requires w < |workers|
    ensures Living(workers[w := worker])
            == Living(workers) - (if workers[w] == Exited then 0 else 1) + if worker == Exited then 0 else 1
  {
    var n := |workers| - 1;
    var front := workers[..n];
    if w < n {
      LivingSet(front, w, worker);
      assert workers[w := worker][..n] == front[w := worker];
    } else {
      assert workers[w := worker][..n] == front;
    }
  }

  ghost predicate Lower(s: State, s': State) {
    Major(s') < Major(s) || (Major(s') == Major(s) && Minor(s') < Minor(s))
  }

  /** One job is rewritten. */
  lemma Moves(s: State, s': State, j: nat)
    requires j < |s.jobs| && |s'.jobs| == |s.jobs| && s'.jobs == s.jobs[j := s'.jobs[j]]
    ensures Major(s') == Major(s) - Distance(s.jobs[j]) + Distance(s'.jobs[j])
    ensures Total(s'.jobs, Stir) == Total(s.jobs, Stir) - Stir(s.jobs[j]) + Stir(s'.jobs[j])
  {
    TotalSet(s.jobs, j, s'.jobs[j], Distance);
    TotalSet(s.jobs, j, s'.jobs[j], Stir);
  }

  lemma CheckLowers(s: State, step: Step)
    requires Inv(s) && Enabled(s, step) && (step.CheckAdmission? || step.CheckDelivery?)
    ensures Lower(s, Apply(s, step))
  {
    hide Total, Living, Inv, JobsOk;
    InvJobs(s);
    var j := s.owner.job;
    JobAt(s, j);
    Moves(s, Apply(s, step), j);
  }

  lemma CallLowers(s: State, step: Step)
    requires Enabled(s, step) && (step.Drain? || step.EndResidence?)
    ensures Lower(s, Apply(s, step))
  {
    hide Total, Living, Without;
    Moves(s, Apply(s, step), s.owner.job);
  }

  lemma WakeLowers(s: State, j: nat)
    requires Enabled(s, Wake(j))
    ensures Lower(s, Apply(s, Wake(j)))
  {
    hide Total, Living;
    Moves(s, Apply(s, Wake(j)), j);
  }

  /** A notification, with or without the flag, stirs one job a little. */
  lemma Stirred(job: Job)
    ensures Stir(job.(readable := true)) <= Stir(job) + 4 && Distance(job.(readable := true)) == Distance(job)
    ensures Stir(job.(cancelled := true, readable := true)) <= Stir(job) + 4
    ensures Distance(job.(cancelled := true, readable := true)) == Distance(job)
  {
  }

  lemma NotifyLowers(s: State)
    requires Enabled(s, NotifyNext)
    ensures Lower(s, Apply(s, NotifyNext))
  {
    hide Total, Living, Stir, Distance;
    if s.owner.next < |s.calls| {
      Stirred(s.jobs[s.calls[s.owner.next]]);
      Moves(s, Apply(s, NotifyNext), s.calls[s.owner.next]);
    }
  }

  lemma StopLowers(s: State)
    requires Enabled(s, StopNext)
    ensures Lower(s, Apply(s, StopNext))
  {
    hide Total, Living, Stir, Distance;
    if s.owner.next < |s.calls| {
      Stirred(s.jobs[s.calls[s.owner.next]]);
      Moves(s, Apply(s, StopNext), s.calls[s.owner.next]);
    }
  }

  lemma CloseLowers(s: State, step: Step)
    requires Enabled(s, step) && (step.CheckClose? || step.WakeClose? || step.JoinWorkers?)
    ensures Lower(s, Apply(s, step))
  {
    hide Total, Living;
  }

  lemma ExitLowers(s: State, w: nat)
    requires Enabled(s, Exit(w))
    ensures Lower(s, Apply(s, Exit(w)))
  {
    hide Total;
    LivingSet(s.workers, w, Exited);
  }

  lemma WorkLowers(s: State, step: Step)
    requires Inv(s) && Enabled(s, step) && WorkerStep(step)
    ensures Lower(s, Apply(s, step))
  {
    hide Total, Living, Minor;
    if step.Take? {
      var j := s.queue[0];
      assert j in s.queue;
      Moves(s, Apply(s, step), j);
    } else {
      hide Inv;
      Moves(s, Apply(s, step), s.workers[step.worker].job);
    }
  }

  /** Every step that needs nothing from outside lowers the measure. */
  lemma Lowers(s: State, step: Step)
    requires Inv(s) && Enabled(s, step) && Internal(step)
    ensures Lower(s, Apply(s, step))
  {
    hide Inv, Enabled, Apply, Lower;
    match step
    case Wake(j) => WakeLowers(s, j);
    case Exit(w) => ExitLowers(s, w);
    case NotifyNext => NotifyLowers(s);
    case StopNext => StopLowers(s);
    case CheckClose => CloseLowers(s, step);
    case WakeClose => CloseLowers(s, step);
    case JoinWorkers => CloseLowers(s, step);
    case Take(_) => WorkLowers(s, step);
    case Execute(_) => WorkLowers(s, step);
    case Begin(_) => WorkLowers(s, step);
    case Finish(_, _) => WorkLowers(s, step);
    case Publish(_) => WorkLowers(s, step);
    case CheckAdmission => CheckLowers(s, step);
    case CheckDelivery => CheckLowers(s, step);
    case _ => CallLowers(s, step);
  }

  /** The `k`th step goes on by itself. */
  ghost predicate Goes(states: nat -> State, steps: nat -> Step, k: nat) {
    Internal(steps(k)) && Enabled(states(k), steps(k)) && states(k + 1) == Apply(states(k), steps(k))
  }

  /** From no state of a run do the threads go on for ever by themselves: whatever
      they do, some later step `k` has to come from outside. */
  lemma {:induction false} Settles(states: nat -> State, steps: nat -> Step, n: nat) returns (k: nat)
    requires Inv(states(n))
    ensures k >= n && !Goes(states, steps, k)
    decreases Major(states(n)), Minor(states(n))
  {
    k := n;
    if Goes(states, steps, n) {
      hide Inv, Enabled, Apply, Internal, Major, Minor;
      StepKeeps(states(n), steps(n));
      Lowers(states(n), steps(n));
      k := Settles(states, steps, n + 1);
    }
  }

  /** Where they stop by themselves, every call has left with an ending, no loop is
      half done and no close waits. */
  lemma Settled(states: seq<State>, steps: seq<Step>, i: nat)
    requires Run(states, steps) && i < |states| && !CanStep(states[i])
    ensures states[i].owner == Free && states[i].closer != ClosePark && states[i].calls == []
    ensures forall j :: 0 <= j < |states[i].jobs| ==> states[i].jobs[j].pc.Left?
  {
    hide Run, CanStep, EndOk;
    RunKeeps(states, steps, i);
    RunEnds(states, steps, i);
    var s := states[i];
    assert s.calls == [] && s.owner == Free && s.closer != ClosePark by {
      if s.calls != [] || s.owner != Free || s.closer == ClosePark {
        NeverStuck(s);
      }
    }
  }
}
