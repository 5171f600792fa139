/** `blocking_pool` of src/nxtrt/blocking.hpp as an interleaving of its owner
    deck, its worker threads and outside cancellers. One step is one locked
    region, or one action of one thread between two of them; a notification pipe
    is the boolean "readable". */
module BlockingPool {
  import opened Farms
  import opened PoolState

  /** How a `run` task ends: with the value, the callable's exception,
      `operation_cancelled`, or an exception from setting up a wait. */
  datatype Ending = Value | Threw | Cancelled | Broken

  /** The position of a `run` coroutine. */
  datatype CallPc =
    | AdmitDrain | AdmitCheck | AdmitPark
    | DeliverDrain | DeliverCheck | DeliverPark
    | Leaving(how: Ending)
    | Left(how: Ending)

  /** The position of the worker that holds a job. */
  datatype WorkPc = Locking | Starting | Calling | Publishing

  /** Where the job is on the worker side. */
  datatype Stage = Unclaimed | By(worker: nat, at: WorkPc) | Published

  /** What the callable left behind. */
  datatype Product = Nothing | Result | Exception

  datatype Job = Job(
    submitted: bool, running: bool, cancelled: bool, done: bool, readable: bool,
    stage: Stage, product: Product, invocations: nat, pc: CallPc)

  datatype Worker = Waiting | Busy(job: nat) | Exited

  /** What the owner's deck is executing: nothing, a call's coroutine, the loop
      of `stop`, a call's `call_guard` destructor up to its join or its
      notification loop, or the body of `close`. */
  datatype Owner =
    | Free
    | InCall(job: nat)
    | InStop(next: nat, closing: bool)
    | InGuard(job: nat)
    | InNotify(next: nat)
    | InClose
    | InJoin

  datatype Closer = NotClosing | ClosePark | Closed

  datatype State = State(
    capacity: nat, occupied: int, closing: bool, calls: seq<nat>, queue: seq<nat>,
    jobs: seq<Job>, workers: seq<Worker>, workerStop: bool,
    owner: Owner, closer: Closer, closeReadable: bool)

  datatype Step =
    | StartRun
    | Drain
    | CheckAdmission
    | CheckDelivery
    | Wake(job: nat)
    | WaitFails(job: nat)
    | EndResidence
    | NotifyNext
    | StartStop(close: bool)
    | StopNext
    | CheckClose
    | WakeClose
    | JoinWorkers
    | Cancel(job: nat)
    | Take(worker: nat)
    | Exit(worker: nat)
    | Execute(worker: nat)
    | Begin(worker: nat)
    | Finish(worker: nat, ok: bool)
    | Publish(worker: nat)

  function NewJob(): Job {
    Job(false, false, false, false, false, Unclaimed, Nothing, 0, AdmitDrain)
  }

  function Set(s: State, j: nat, job: Job): State
    requires j < |s.jobs|
  {
    s.(jobs := s.jobs[j := job])
  }

  /** `std::erase_if` of one element. */
  function Without(c: seq<nat>, j: nat): (r: seq<nat>)
    ensures forall i :: i in r <==> i in c && i != j
    ensures Distinct(c) ==> Distinct(r)
  {
    if c == [] then []
    else if c[0] == j then Without(c[1..], j)
    else
      var rest := Without(c[1..], j);
      assert Distinct(c) ==> Distinct(c[1..]) && c[0] !in c[1..];
      [c[0]] + rest
  }

  predicate Holds(s: State, w: nat, at: WorkPc) {
    && w < |s.workers| && s.workers[w].Busy? && s.workers[w].job < |s.jobs|
    && s.jobs[s.workers[w].job].stage == By(w, at)
  }

  predicate Enabled(s: State, step: Step) {
    match step
    case StartRun => s.owner == Free
    case Drain =>
      && s.owner.InCall? && s.owner.job < |s.jobs|
      && (s.jobs[s.owner.job].pc == AdmitDrain || s.jobs[s.owner.job].pc == DeliverDrain)
    case CheckAdmission =>
      s.owner.InCall? && s.owner.job < |s.jobs| && s.jobs[s.owner.job].pc == AdmitCheck
    case CheckDelivery =>
      s.owner.InCall? && s.owner.job < |s.jobs| && s.jobs[s.owner.job].pc == DeliverCheck
    case Wake(j) =>
      && s.owner == Free && j < |s.jobs| && s.jobs[j].readable
      && (s.jobs[j].pc == AdmitPark || s.jobs[j].pc == DeliverPark)
    case WaitFails(j) =>
      s.owner == Free && j < |s.jobs| && (s.jobs[j].pc == AdmitPark || s.jobs[j].pc == DeliverPark)
    case EndResidence =>
      && s.owner.InGuard? && s.owner.job < |s.jobs| && s.jobs[s.owner.job].pc.Leaving?
      && (s.jobs[s.owner.job].submitted ==> s.jobs[s.owner.job].done)
    case NotifyNext => s.owner.InNotify? && forall k :: 0 <= k < |s.calls| ==> s.calls[k] < |s.jobs|
    case StartStop(close) => s.owner == Free && (close ==> s.closer != ClosePark)
    case StopNext => s.owner.InStop? && forall k :: 0 <= k < |s.calls| ==> s.calls[k] < |s.jobs|
    case CheckClose => s.owner == InClose
    case WakeClose => s.owner == Free && s.closer == ClosePark && s.closeReadable
    case JoinWorkers => s.owner == InJoin && forall w :: 0 <= w < |s.workers| ==> s.workers[w] == Exited
    case Cancel(j) => j < |s.jobs| && !s.jobs[j].pc.Left?
    case Take(w) =>
      w < |s.workers| && s.workers[w] == Waiting && s.queue != [] && s.queue[0] < |s.jobs|
    case Exit(w) => w < |s.workers| && s.workers[w] == Waiting && s.queue == [] && s.workerStop
    case Execute(w) => Holds(s, w, Locking)
    case Begin(w) => Holds(s, w, Starting)
    case Finish(w, _) => Holds(s, w, Calling)
    case Publish(w) => Holds(s, w, Publishing)
  }

  function Apply(s: State, step: Step): State
    requires Enabled(s, step)
  {
    match step
    case StartRun =>
      s.(jobs := s.jobs + [NewJob()], calls := s.calls + [|s.jobs|], owner := InCall(|s.jobs|))
    case Drain =>
      var j := s.owner.job;
      Set(s, j, s.jobs[j].(readable := false, pc := if s.jobs[j].pc == AdmitDrain then AdmitCheck else DeliverCheck))
    case CheckAdmission =>
      var j := s.owner.job;
      if s.closing || s.jobs[j].cancelled then
        Set(s, j, s.jobs[j].(pc := Leaving(Cancelled))).(owner := InGuard(j))
      else if s.occupied < s.capacity then
        Set(s, j, s.jobs[j].(submitted := true, pc := DeliverDrain)).(queue := s.queue + [j], occupied := s.occupied + 1)
      else
        Set(s, j, s.jobs[j].(pc := AdmitPark)).(owner := Free)
    case CheckDelivery =>
      var j := s.owner.job;
      var job := s.jobs[j];
      if !job.done then Set(s, j, job.(pc := DeliverPark)).(owner := Free)
      else
        var how := if job.cancelled then Cancelled else if job.product == Exception then Threw else Value;
        Set(s, j, job.(pc := Leaving(how))).(owner := InGuard(j))
    case Wake(j) =>
      Set(s, j, s.jobs[j].(pc := if s.jobs[j].pc == AdmitPark then AdmitDrain else DeliverDrain)).(owner := InCall(j))
    case WaitFails(j) =>
      Set(s, j, s.jobs[j].(pc := Leaving(Broken))).(owner := InGuard(j))
    case EndResidence =>
      var j := s.owner.job;
      Set(s, j, s.jobs[j].(pc := Left(s.jobs[j].pc.how))).(
        calls := Without(s.calls, j), owner := InNotify(0),
        occupied := if s.jobs[j].submitted then s.occupied - 1 else s.occupied)
    case NotifyNext =>
      var k := s.owner.next;
      if k < |s.calls| then
        var j := s.calls[k];
        Set(s, j, s.jobs[j].(readable := true)).(owner := InNotify(k + 1))
      else s.(owner := Free, closeReadable := true)
    case StartStop(close) => s.(closing := true, owner := InStop(0, close))
    case StopNext =>
      var k := s.owner.next;
      if k < |s.calls| then
        var j := s.calls[k];
        Set(s, j, s.jobs[j].(cancelled := true, readable := true)).(owner := InStop(k + 1, s.owner.closing))
      else s.(owner := if s.owner.closing then InClose else Free)
    case CheckClose =>
      if s.calls == [] then s.(workerStop := true, owner := InJoin)
      else s.(closeReadable := false, closer := ClosePark, owner := Free)
    case WakeClose => s.(owner := InClose, closer := NotClosing)
    case JoinWorkers => s.(owner := Free, closer := Closed)
    case Cancel(j) => Set(s, j, s.jobs[j].(cancelled := true, readable := true))
    case Take(w) =>
      var j := s.queue[0];
      Set(s, j, s.jobs[j].(stage := By(w, Locking))).(queue := s.queue[1..], workers := s.workers[w := Busy(j)])
    case Exit(w) => s.(workers := s.workers[w := Exited])
    case Execute(w) =>
      var j := s.workers[w].job;
      var job := s.jobs[j];
      Set(s, j, job.(running := !job.cancelled, stage := By(w, if job.cancelled then Publishing else Starting)))
    case Begin(w) =>
      var j := s.workers[w].job;
      Set(s, j, s.jobs[j].(invocations := s.jobs[j].invocations + 1, stage := By(w, Calling)))
    case Finish(w, ok) =>
      var j := s.workers[w].job;
      Set(s, j, s.jobs[j].(product := if ok then Result else Exception, stage := By(w, Publishing)))
    case Publish(w) =>
      var j := s.workers[w].job;
      Set(s, j, s.jobs[j].(done := true, readable := true, stage := Published)).(workers := s.workers[w := Waiting])
  }

  // ----- the invariant -----

  /** The flags of one job agree with its positions on both sides. */
  predicate JobOk(job: Job) {
    && (job.stage != Unclaimed ==> job.submitted)
    && (job.done <==> job.stage == Published)
    && (job.pc.AdmitDrain? || job.pc.AdmitCheck? || job.pc.AdmitPark? ==> !job.submitted)
    && (job.pc.DeliverDrain? || job.pc.DeliverCheck? || job.pc.DeliverPark? ==> job.submitted)
    // Invoked exactly by the worker that found it not cancelled.
    && (job.stage == Unclaimed || (job.stage.By? && job.stage.at == Locking) ==> !job.running && job.invocations == 0)
    && (job.stage.By? && job.stage.at == Starting ==> job.running && job.invocations == 0)
    && (job.stage.By? && job.stage.at == Calling ==> job.running && job.invocations == 1)
    && (job.invocations == 0 || (job.stage.By? && job.stage.at == Calling) ==> job.product == Nothing)
    && (Past(job) ==> if job.running then job.invocations == 1 && job.product != Nothing
                      else job.cancelled && job.invocations == 0)
    // What a call delivers.
    && (EndsWith(job, Value) ==> job.done && job.running && job.product == Result)
    && (EndsWith(job, Threw) ==> job.done && job.running && job.product == Exception)
    && (job.pc.Left? && job.submitted ==> job.done)
  }

  /** The worker side has nothing left to do but publish. */
  predicate Past(job: Job) {
    job.done || (job.stage.By? && job.stage.at == Publishing)
  }

  predicate EndsWith(job: Job, how: Ending) {
    job.pc == Leaving(how) || job.pc == Left(how)
  }

  predicate Executing(pc: CallPc) {
    pc.AdmitDrain? || pc.AdmitCheck? || pc.DeliverDrain? || pc.DeliverCheck?
  }

  ghost predicate JobsOk(s: State) {
    forall j :: 0 <= j < |s.jobs| ==> JobOk(s.jobs[j])
  }

  /** A worker and the job it holds know each other; the queue holds the
      submitted jobs no worker has claimed. */
  ghost predicate WorkersOk(s: State) {
    && (forall w :: 0 <= w < |s.workers| && s.workers[w].Busy? ==>
          s.workers[w].job < |s.jobs| && s.jobs[s.workers[w].job].stage.By?
          && s.jobs[s.workers[w].job].stage.worker == w)
    && (forall j :: 0 <= j < |s.jobs| && s.jobs[j].stage.By? ==>
          s.jobs[j].stage.worker < |s.workers| && s.workers[s.jobs[j].stage.worker] == Busy(j))
    && Distinct(s.queue)
    && (forall j: nat :: j in s.queue <==> j < |s.jobs| && s.jobs[j].submitted && s.jobs[j].stage == Unclaimed)
    && (s.workerStop ==> s.closing && s.queue == [])
    && (forall w :: 0 <= w < |s.workers| && s.workers[w] == Exited ==> s.workerStop)
  }

  /** `calls_` is the resident calls, and the owner executes at most one of them. */
  ghost predicate OwnerOk(s: State) {
    && Distinct(s.calls)
    && (forall j: nat :: j in s.calls <==> j < |s.jobs| && !s.jobs[j].pc.Left?)
    && (forall j: nat :: j < |s.jobs| && Executing(s.jobs[j].pc) ==> s.owner == InCall(j))
    && (forall j: nat :: j < |s.jobs| && s.jobs[j].pc.Leaving? ==> s.owner == InGuard(j))
    && (s.owner.InCall? ==> s.owner.job < |s.jobs| && Executing(s.jobs[s.owner.job].pc))
    && (s.owner.InGuard? ==> s.owner.job < |s.jobs| && s.jobs[s.owner.job].pc.Leaving?)
    && (s.owner == InJoin ==> s.calls == [])
  }

  ghost function Admitted(jobs: seq<Job>): set<nat> {
    set j: nat | j < |jobs| && jobs[j].submitted && !jobs[j].pc.Left?
  }

  ghost predicate CountOk(s: State) {
    s.occupied == |Admitted(s.jobs)| && s.occupied <= s.capacity
  }

  /** `j` is one of the calls the owner's current loop has not reached yet. */
  ghost predicate Ahead(s: State, j: nat, next: nat) {
    exists k :: next <= k < |s.calls| && s.calls[k] == j
  }

  /** No wake-up is lost, in either wait, and not for `close` either. */
  ghost predicate WakesOk(s: State) {
    && (forall j :: 0 <= j < |s.jobs| && s.jobs[j].pc == AdmitPark && !s.jobs[j].readable ==>
          && !s.jobs[j].cancelled
          && (s.occupied == s.capacity || (s.owner.InNotify? && Ahead(s, j, s.owner.next)))
          && (!s.closing || (s.owner.InStop? && Ahead(s, j, s.owner.next))))
    && (forall j :: 0 <= j < |s.jobs| && s.jobs[j].pc == DeliverPark && !s.jobs[j].readable ==> !s.jobs[j].done)
    && (s.closer == ClosePark && !s.closeReadable ==> s.calls != [] || s.owner.InNotify?)
  }

  /** After `stop` every admitted call is cancelled; `close` has stopped the pool. */
  ghost predicate StopOk(s: State) {
    && (s.closing ==> forall j :: 0 <= j < |s.jobs| && s.jobs[j].submitted && !s.jobs[j].pc.Left? && !s.jobs[j].cancelled ==>
                                    s.owner.InStop? && Ahead(s, j, s.owner.next))
    && (s.owner.InStop? || s.owner == InClose || s.owner == InJoin || s.closer != NotClosing ==> s.closing)
  }

  ghost predicate Inv(s: State) {
    JobsOk(s) && WorkersOk(s) && OwnerOk(s) && CountOk(s) && WakesOk(s) && StopOk(s)
  }

  predicate Initial(s: State) {
    && s.capacity > 0 && |s.workers| > 0 && s.occupied == 0 && !s.closing && s.calls == [] && s.queue == []
    && s.jobs == [] && (forall w :: 0 <= w < |s.workers| ==> s.workers[w] == Waiting) && !s.workerStop
    && s.owner == Free && s.closer == NotClosing && !s.closeReadable
  }

  lemma InitialInv(s: State)
    requires Initial(s)
    ensures Inv(s)
  {
    assert Admitted(s.jobs) == {};
  }

  // ----- every step keeps it -----

  lemma RecountAdmitted(jobs: seq<Job>, j: nat, job: Job)
    requires j < |jobs|
    ensures |Admitted(jobs[j := job])| == |Admitted(jobs)|
            - One(jobs[j].submitted && !jobs[j].pc.Left?) + One(job.submitted && !job.pc.Left?)
  {
    SizeAfter(Admitted(jobs), Admitted(jobs[j := job]), j);
  }

  lemma AdmittedAppend(jobs: seq<Job>)
    ensures Admitted(jobs + [NewJob()]) == Admitted(jobs)
  {
  }

  lemma JobAt(s: State, j: nat)
    requires JobsOk(s) && j < |s.jobs|
    ensures JobOk(s.jobs[j])
  {
  }

  lemma JobsUpdate(s: State, s': State, j: nat)
    requires JobsOk(s) && j < |s.jobs| == |s'.jobs| && s'.jobs == s.jobs[j := s'.jobs[j]] && JobOk(s'.jobs[j])
    ensures JobsOk(s')
  {
  }

  /** The worker side sees only who submitted and who holds what. */
  ghost predicate SameForWorkers(s: State, s': State) {
    && s'.workers == s.workers && s'.queue == s.queue && s'.workerStop == s.workerStop
    && (s.closing ==> s'.closing) && |s'.jobs| == |s.jobs|
    && forall j :: 0 <= j < |s.jobs| ==>
         s'.jobs[j].stage == s.jobs[j].stage && s'.jobs[j].submitted == s.jobs[j].submitted
  }

  lemma WorkersFrame(s: State, s': State)
    requires WorkersOk(s) && SameForWorkers(s, s')
    ensures WorkersOk(s')
  {
  }

  /** The owner runs call `j`, and leaves it executing, parked, or leaving. */
  lemma OwnerMoves(s: State, s': State, j: nat)
    requires OwnerOk(s) && j < |s.jobs| == |s'.jobs| && s'.jobs == s.jobs[j := s'.jobs[j]] && s'.calls == s.calls
    requires (s.owner == Free || s.owner == InCall(j)) && !s.jobs[j].pc.Left? && !s'.jobs[j].pc.Left?
    requires s'.owner == (if Executing(s'.jobs[j].pc) then InCall(j)
                          else if s'.jobs[j].pc.Leaving? then InGuard(j) else Free)
    ensures OwnerOk(s')
  {
    forall i: nat
      ensures i in s'.calls <==> i < |s'.jobs| && !s'.jobs[i].pc.Left?
    {
      assert i in s'.calls <==> i in s.calls;
    }
  }

  /** The owner side sees only these fields. */
  ghost predicate SameForOwner(s: State, s': State) {
    && s'.capacity == s.capacity && s'.occupied == s.occupied && s'.closing == s.closing && s'.calls == s.calls
    && s'.owner == s.owner && s'.closer == s.closer && s'.closeReadable == s.closeReadable && |s'.jobs| == |s.jobs|
    && forall j :: 0 <= j < |s.jobs| ==>
         && s'.jobs[j].submitted == s.jobs[j].submitted && s'.jobs[j].cancelled == s.jobs[j].cancelled
         && s'.jobs[j].done == s.jobs[j].done && s'.jobs[j].readable == s.jobs[j].readable
         && s'.jobs[j].pc == s.jobs[j].pc
  }

  lemma OwnerFrame(s: State, s': State)
    requires OwnerOk(s) && CountOk(s) && WakesOk(s) && StopOk(s) && SameForOwner(s, s')
    ensures OwnerOk(s') && CountOk(s') && WakesOk(s') && StopOk(s')
  {
    assert Admitted(s'.jobs) == Admitted(s.jobs);
    assert forall j, next: nat :: Ahead(s, j, next) ==> Ahead(s', j, next);
  }

  lemma StartRunPlaces(s: State)
    requires Inv(s) && Enabled(s, StartRun)
    ensures var s' := Apply(s, StartRun); JobsOk(s') && WorkersOk(s') && OwnerOk(s')
  {
    hide CountOk, WakesOk, StopOk;
    var s' := Apply(s, StartRun);
    assert s'.jobs[|s.jobs|] == NewJob();
    assert |s.jobs| !in s.calls;
    forall j: nat
      ensures j in s'.calls <==> j < |s'.jobs| && !s'.jobs[j].pc.Left?
    {
      assert j in s'.calls <==> j in s.calls || j == |s.jobs|;
    }
  }

  lemma StartRunKeeps(s: State)
    requires Inv(s) && Enabled(s, StartRun)
    ensures Inv(Apply(s, StartRun))
  {
    hide Admitted, Ahead, JobsOk, WorkersOk, OwnerOk;
    StartRunPlaces(s);
    AdmittedAppend(s.jobs);
  }

  lemma DrainKeeps(s: State)
    requires Inv(s) && Enabled(s, Drain)
    ensures Inv(Apply(s, Drain))
  {
    hide Admitted, JobsOk, WorkersOk, OwnerOk;
    var s' := Apply(s, Drain);
    var j := s.owner.job;
    JobAt(s, j);
    JobsUpdate(s, s', j);
    OwnerMoves(s, s', j);
    WorkersFrame(s, s');
    RecountAdmitted(s.jobs, j, s'.jobs[j]);
  }

  lemma CheckAdmissionPlaces(s: State)
    requires Inv(s) && Enabled(s, CheckAdmission)
    ensures var s' := Apply(s, CheckAdmission); JobsOk(s') && WorkersOk(s') && OwnerOk(s')
  {
    hide CountOk, WakesOk, StopOk, JobsOk, WorkersOk, OwnerOk;
    var s' := Apply(s, CheckAdmission);
    var j := s.owner.job;
    JobAt(s, j);
    JobsUpdate(s, s', j);
    OwnerMoves(s, s', j);
    if s.closing || s.jobs[j].cancelled || s.occupied >= s.capacity {
      WorkersFrame(s, s');
    } else {
      SubmitWorkers(s, s', j);
    }
  }

  lemma SubmitWorkers(s: State, s': State, j: nat)
    requires WorkersOk(s) && j < |s.jobs| && !s.closing && !s.jobs[j].submitted && s.jobs[j].stage == Unclaimed
    requires s' == Set(s, j, s.jobs[j].(submitted := true, pc := DeliverDrain)).(queue := s.queue + [j], occupied := s'.occupied)
    ensures WorkersOk(s')
  {
  }

  lemma CheckAdmissionWakes(s: State)
    requires Inv(s) && Enabled(s, CheckAdmission)
    ensures var s' := Apply(s, CheckAdmission); CountOk(s') && WakesOk(s') && StopOk(s')
  {
    hide Admitted, JobsOk, WorkersOk;
    var j := s.owner.job;
    JobAt(s, j);
    RecountAdmitted(s.jobs, j, Apply(s, CheckAdmission).jobs[j]);
  }

  lemma CheckAdmissionKeeps(s: State)
    requires Inv(s) && Enabled(s, CheckAdmission)
    ensures Inv(Apply(s, CheckAdmission))
  {
    hide JobsOk, WorkersOk, OwnerOk, CountOk, WakesOk, StopOk, Apply, Enabled;
    CheckAdmissionPlaces(s);
    CheckAdmissionWakes(s);
  }

  lemma CheckDeliveryPlaces(s: State)
    requires Inv(s) && Enabled(s, CheckDelivery)
    ensures var s' := Apply(s, CheckDelivery); JobsOk(s') && WorkersOk(s') && OwnerOk(s')
  {
    hide CountOk, WakesOk, StopOk, JobsOk, WorkersOk, OwnerOk;
    var s' := Apply(s, CheckDelivery);
    var j := s.owner.job;
    JobAt(s, j);
    JobsUpdate(s, s', j);
    OwnerMoves(s, s', j);
    WorkersFrame(s, s');
  }

  lemma CheckDeliveryWakes(s: State)
    requires Inv(s) && Enabled(s, CheckDelivery)
    ensures var s' := Apply(s, CheckDelivery); CountOk(s') && WakesOk(s') && StopOk(s')
  {
    hide Admitted, JobsOk, WorkersOk;
    var j := s.owner.job;
    JobAt(s, j);
    RecountAdmitted(s.jobs, j, Apply(s, CheckDelivery).jobs[j]);
  }

  lemma CheckDeliveryKeeps(s: State)
    requires Inv(s) && Enabled(s, CheckDelivery)
    ensures Inv(Apply(s, CheckDelivery))
  {
    hide JobsOk, WorkersOk, OwnerOk, CountOk, WakesOk, StopOk, Apply, Enabled;
    CheckDeliveryPlaces(s);
    CheckDeliveryWakes(s);
  }

  lemma WakeKeeps(s: State, job: nat)
    requires Inv(s) && Enabled(s, Wake(job))
    ensures Inv(Apply(s, Wake(job)))
  {
    hide Admitted, JobsOk, WorkersOk, OwnerOk;
    var s' := Apply(s, Wake(job));
    var j := job;
    JobAt(s, j);
    JobsUpdate(s, s', j);
    OwnerMoves(s, s', j);
    WorkersFrame(s, s');
    RecountAdmitted(s.jobs, j, s'.jobs[j]);
  }

  lemma WaitFailsKeeps(s: State, job: nat)
    requires Inv(s) && Enabled(s, WaitFails(job))
    ensures Inv(Apply(s, WaitFails(job)))
  {
    hide Admitted, JobsOk, WorkersOk, OwnerOk;
    var s' := Apply(s, WaitFails(job));
    var j := job;
    JobAt(s, j);
    JobsUpdate(s, s', j);
    OwnerMoves(s, s', j);
    WorkersFrame(s, s');
    RecountAdmitted(s.jobs, j, s'.jobs[j]);
  }

  lemma EndResidencePlaces(s: State)
    requires Inv(s) && Enabled(s, EndResidence)
    ensures var s' := Apply(s, EndResidence); JobsOk(s') && WorkersOk(s') && OwnerOk(s')
  {
    hide CountOk, WakesOk, StopOk, JobsOk, WorkersOk;
    var s' := Apply(s, EndResidence);
    var j := s.owner.job;
    JobAt(s, j);
    JobsUpdate(s, s', j);
    WorkersFrame(s, s');
  }

  lemma EndResidenceWakes(s: State)
    requires Inv(s) && Enabled(s, EndResidence)
    ensures var s' := Apply(s, EndResidence); CountOk(s') && WakesOk(s') && StopOk(s')
  {
    hide Admitted, JobsOk, WorkersOk;
    var j := s.owner.job;
    JobAt(s, j);
    RecountAdmitted(s.jobs, j, Apply(s, EndResidence).jobs[j]);
  }

  lemma EndResidenceKeeps(s: State)
    requires Inv(s) && Enabled(s, EndResidence)
    ensures Inv(Apply(s, EndResidence))
  {
    hide JobsOk, WorkersOk, OwnerOk, CountOk, WakesOk, StopOk, Apply, Enabled;
    EndResidencePlaces(s);
    EndResidenceWakes(s);
  }

  lemma NotifyNextPlaces(s: State)
    requires Inv(s) && Enabled(s, NotifyNext)
    ensures var s' := Apply(s, NotifyNext); JobsOk(s') && WorkersOk(s') && OwnerOk(s')
  {
    hide CountOk, WakesOk, StopOk, JobsOk, WorkersOk;
    var s' := Apply(s, NotifyNext);
    WorkersFrame(s, s');
    if s.owner.next < |s.calls| {
      var j := s.calls[s.owner.next];
      JobAt(s, j);
      JobsUpdate(s, s', j);
    } else {
      SameJobs(s, s');
    }
  }

  lemma NotifyNextWakes(s: State)
    requires Inv(s) && Enabled(s, NotifyNext)
    ensures var s' := Apply(s, NotifyNext); CountOk(s') && WakesOk(s') && StopOk(s')
  {
    hide Admitted, JobsOk, WorkersOk;
    if s.owner.next < |s.calls| {
      var j := s.calls[s.owner.next];
      RecountAdmitted(s.jobs, j, Apply(s, NotifyNext).jobs[j]);
    }
  }

  lemma NotifyNextKeeps(s: State)
    requires Inv(s) && Enabled(s, NotifyNext)
    ensures Inv(Apply(s, NotifyNext))
  {
    hide JobsOk, WorkersOk, OwnerOk, CountOk, WakesOk, StopOk, Apply, Enabled;
    NotifyNextPlaces(s);
    NotifyNextWakes(s);
  }

  lemma StopNextPlaces(s: State)
    requires Inv(s) && Enabled(s, StopNext)
    ensures var s' := Apply(s, StopNext); JobsOk(s') && WorkersOk(s') && OwnerOk(s')
  {
    hide CountOk, WakesOk, StopOk, JobsOk, WorkersOk;
    var s' := Apply(s, StopNext);
    WorkersFrame(s, s');
    if s.owner.next < |s.calls| {
      var j := s.calls[s.owner.next];
      JobAt(s, j);
      JobsUpdate(s, s', j);
    } else {
      SameJobs(s, s');
    }
  }

  lemma StopNextWakes(s: State)
    requires Inv(s) && Enabled(s, StopNext)
    ensures var s' := Apply(s, StopNext); CountOk(s') && WakesOk(s') && StopOk(s')
  {
    hide Admitted, JobsOk, WorkersOk;
    if s.owner.next < |s.calls| {
      var j := s.calls[s.owner.next];
      RecountAdmitted(s.jobs, j, Apply(s, StopNext).jobs[j]);
    }
  }

  lemma StopNextKeeps(s: State)
    requires Inv(s) && Enabled(s, StopNext)
    ensures Inv(Apply(s, StopNext))
  {
    hide JobsOk, WorkersOk, OwnerOk, CountOk, WakesOk, StopOk, Apply, Enabled;
    StopNextPlaces(s);
    StopNextWakes(s);
  }

  lemma StartStopKeeps(s: State, close: bool)
    requires Inv(s) && Enabled(s, StartStop(close))
    ensures Inv(Apply(s, StartStop(close)))
  {
    hide Admitted;
  }

  /** When `close` finds no calls left, no work is queued and no call is admitted. */
  lemma NothingQueued(s: State)
    requires Inv(s) && s.calls == []
    ensures s.queue == [] && s.occupied == 0
  {
    hide JobsOk;
    assert Admitted(s.jobs) == {};
    if s.queue != [] {
      assert s.queue[0] in s.queue;
      JobAt(s, s.queue[0]);
    }
  }

  lemma CheckCloseKeeps(s: State)
    requires Inv(s) && Enabled(s, CheckClose)
    ensures Inv(Apply(s, CheckClose))
  {
    hide Admitted;
    if s.calls == [] {
      NothingQueued(s);
    }
  }

  lemma WakeCloseKeeps(s: State)
    requires Inv(s) && Enabled(s, WakeClose)
    ensures Inv(Apply(s, WakeClose))
  {
    hide Admitted;
  }

  lemma JoinWorkersKeeps(s: State)
    requires Inv(s) && Enabled(s, JoinWorkers)
    ensures Inv(Apply(s, JoinWorkers))
  {
    hide Admitted;
  }

  lemma CancelPlaces(s: State, job: nat)
    requires Inv(s) && Enabled(s, Cancel(job))
    ensures var s' := Apply(s, Cancel(job)); JobsOk(s') && WorkersOk(s') && OwnerOk(s')
  {
    hide CountOk, WakesOk, StopOk, JobsOk, WorkersOk;
    var s' := Apply(s, Cancel(job));
    var j := job;
    JobAt(s, j);
    JobsUpdate(s, s', j);
    WorkersFrame(s, s');
  }

  lemma CancelWakes(s: State, job: nat)
    requires Inv(s) && Enabled(s, Cancel(job))
    ensures var s' := Apply(s, Cancel(job)); CountOk(s') && WakesOk(s') && StopOk(s')
  {
    hide Admitted, JobsOk, WorkersOk;
    var j := job;
    JobAt(s, j);
    RecountAdmitted(s.jobs, j, Apply(s, Cancel(job)).jobs[j]);
  }

  lemma CancelKeeps(s: State, job: nat)
    requires Inv(s) && Enabled(s, Cancel(job))
    ensures Inv(Apply(s, Cancel(job)))
  {
    hide JobsOk, WorkersOk, OwnerOk, CountOk, WakesOk, StopOk, Apply, Enabled;
    CancelPlaces(s, job);
    CancelWakes(s, job);
  }

  lemma TakeKeeps(s: State, worker: nat)
    requires Inv(s) && Enabled(s, Take(worker))
    ensures Inv(Apply(s, Take(worker)))
  {
    hide Admitted, JobsOk, OwnerOk, CountOk, WakesOk, StopOk;
    var s' := Apply(s, Take(worker));
    var j := s.queue[0];
    assert j in s.queue;
    JobAt(s, j);
    JobsUpdate(s, s', j);
    OwnerFrame(s, s');
    forall i: nat
      ensures i in s'.queue <==> i in s.queue && i != j
    {
      assert s.queue == [j] + s.queue[1..];
    }
    assert WorkersOk(s');
  }

  lemma ExitKeeps(s: State, worker: nat)
    requires Inv(s) && Enabled(s, Exit(worker))
    ensures Inv(Apply(s, Exit(worker)))
  {
    hide Admitted, JobsOk, OwnerOk, CountOk, WakesOk, StopOk;
    var s' := Apply(s, Exit(worker));
    SameJobs(s, s');
    OwnerFrame(s, s');
  }

  lemma ExecuteKeeps(s: State, worker: nat)
    requires Inv(s) && Enabled(s, Execute(worker))
    ensures Inv(Apply(s, Execute(worker)))
  {
    hide Admitted, JobsOk, OwnerOk, CountOk, WakesOk, StopOk;
    var s' := Apply(s, Execute(worker));
    var j := s.workers[worker].job;
    JobAt(s, j);
    JobsUpdate(s, s', j);
    OwnerFrame(s, s');
  }

  lemma BeginKeeps(s: State, worker: nat)
    requires Inv(s) && Enabled(s, Begin(worker))
    ensures Inv(Apply(s, Begin(worker)))
  {
    hide Admitted, JobsOk, OwnerOk, CountOk, WakesOk, StopOk;
    var s' := Apply(s, Begin(worker));
    var j := s.workers[worker].job;
    JobAt(s, j);
    JobsUpdate(s, s', j);
    OwnerFrame(s, s');
  }

  lemma FinishKeeps(s: State, worker: nat, ok: bool)
    requires Inv(s) && Enabled(s, Finish(worker, ok))
    ensures Inv(Apply(s, Finish(worker, ok)))
  {
    hide Admitted, JobsOk, OwnerOk, CountOk, WakesOk, StopOk;
    var s' := Apply(s, Finish(worker, ok));
    var j := s.workers[worker].job;
    JobAt(s, j);
    JobsUpdate(s, s', j);
    OwnerFrame(s, s');
  }

  lemma PublishPlaces(s: State, worker: nat)
    requires Inv(s) && Enabled(s, Publish(worker))
    ensures var s' := Apply(s, Publish(worker)); JobsOk(s') && WorkersOk(s') && OwnerOk(s')
  {
    hide CountOk, WakesOk, StopOk, JobsOk;
    var s' := Apply(s, Publish(worker));
    var j := s.workers[worker].job;
    JobAt(s, j);
    JobsUpdate(s, s', j);
  }

  lemma PublishWakes(s: State, worker: nat)
    requires Inv(s) && Enabled(s, Publish(worker))
    ensures var s' := Apply(s, Publish(worker)); CountOk(s') && WakesOk(s') && StopOk(s')
  {
    hide Admitted, JobsOk;
    var j := s.workers[worker].job;
    JobAt(s, j);
    RecountAdmitted(s.jobs, j, Apply(s, Publish(worker)).jobs[j]);
  }

  lemma PublishKeeps(s: State, worker: nat)
    requires Inv(s) && Enabled(s, Publish(worker))
    ensures Inv(Apply(s, Publish(worker)))
  {
    hide JobsOk, WorkersOk, OwnerOk, CountOk, WakesOk, StopOk, Apply, Enabled;
    PublishPlaces(s, worker);
    PublishWakes(s, worker);
  }

  lemma SameJobs(s: State, s': State)
    requires JobsOk(s) && s'.jobs == s.jobs
    ensures JobsOk(s')
  {
  }

  /** Every step of every thread keeps the invariant. */
  lemma StepKeeps(s: State, step: Step)
    requires Inv(s) && Enabled(s, step)
    ensures Inv(Apply(s, step))
  {
    hide Inv, Apply, Enabled;
    match step
    case StartRun => StartRunKeeps(s);
    case Drain => DrainKeeps(s);
    case CheckAdmission => CheckAdmissionKeeps(s);
    case CheckDelivery => CheckDeliveryKeeps(s);
    case Wake(j) => WakeKeeps(s, j);
    case WaitFails(j) => WaitFailsKeeps(s, j);
    case EndResidence => EndResidenceKeeps(s);
    case NotifyNext => NotifyNextKeeps(s);
    case StartStop(close) => StartStopKeeps(s, close);
    case StopNext => StopNextKeeps(s);
    case CheckClose => CheckCloseKeeps(s);
    case WakeClose => WakeCloseKeeps(s);
    case JoinWorkers => JoinWorkersKeeps(s);
    case Cancel(j) => CancelKeeps(s, j);
    case Take(w) => TakeKeeps(s, w);
    case Exit(w) => ExitKeeps(s, w);
    case Execute(w) => ExecuteKeeps(s, w);
    case Begin(w) => BeginKeeps(s, w);
    case Finish(w, ok) => FinishKeeps(s, w, ok);
    case Publish(w) => PublishKeeps(s, w);
  }

  // ----- whole runs -----

  /** The states of an interleaving, from an idle pool on. */
  ghost predicate Run(states: seq<State>, steps: seq<Step>) {
    && |states| == |steps| + 1
    && Initial(states[0])
    && forall i :: 0 <= i < |steps| ==> Enabled(states[i], steps[i]) && states[i + 1] == Apply(states[i], steps[i])
  }

  lemma {:induction false} RunKeeps(states: seq<State>, steps: seq<Step>, i: nat)
    requires Run(states, steps) && i < |states|
    ensures Inv(states[i])
  {
    hide Inv, Apply, Enabled;
    if i == 0 {
      InitialInv(states[0]);
    } else {
      RunKeeps(states, steps, i - 1);
      StepKeeps(states[i - 1], steps[i - 1]);
    }
  }

  /** In every state of every run: a callable runs at most once; a call that
      returned a value, or rethrew, did so from one finished invocation of its
      own; and no admitted call left before its worker published. */
  lemma AtMostOnce(states: seq<State>, steps: seq<Step>, i: nat, j: nat)
    requires Run(states, steps) && i < |states| && j < |states[i].jobs|
    ensures var job := states[i].jobs[j];
            && job.invocations <= 1
            && (EndsWith(job, Value) ==> job.done && job.invocations == 1 && job.product == Result)
            && (EndsWith(job, Threw) ==> job.done && job.invocations == 1 && job.product == Exception)
            && (job.pc.Left? && job.submitted ==> job.done)
  {
    hide Run;
    RunKeeps(states, steps, i);
    JobAt(states[i], j);
  }

  /** A job whose cancellation took the lock before a worker's queued-to-running step. */
  predicate CancelledFirst(job: Job) {
    job.cancelled && !job.running && (job.stage == Unclaimed || (job.stage.By? && job.stage.at == Locking))
  }

  /** It will never be invoked. */
  predicate Doomed(job: Job) {
    job.cancelled && !job.running && job.invocations == 0
  }

  lemma DoomedStays(s: State, step: Step, j: nat)
    requires JobsOk(s) && Enabled(s, step) && j < |s.jobs| && Doomed(s.jobs[j])
    ensures j < |Apply(s, step).jobs| && Doomed(Apply(s, step).jobs[j])
  {
    hide JobsOk, JobOk;
    JobAt(s, j);
    StartingRuns(s.jobs[j]);
    if WorkerStep(step) {
      match step
      case Begin(w) => assert s.workers[w].job != j;
      case _ =>
    } else if step.Drain? || step.CheckAdmission? || step.CheckDelivery? || step.EndResidence? || step.StartRun? {
      CallKeepsDoomed(s, step, j);
    } else {
      OwnerKeepsDoomed(s, step, j);
    }
  }

  /** Only workers start calls: first the owner's own coroutine, then the rest. */
  lemma CallKeepsDoomed(s: State, step: Step, j: nat)
    requires Enabled(s, step) && j < |s.jobs| && Doomed(s.jobs[j])
    requires step.Drain? || step.CheckAdmission? || step.CheckDelivery? || step.EndResidence? || step.StartRun?
    ensures var s' := Apply(s, step); j < |s'.jobs| && Doomed(s'.jobs[j])
  {
  }

  lemma OwnerKeepsDoomed(s: State, step: Step, j: nat)
    requires Enabled(s, step) && j < |s.jobs| && Doomed(s.jobs[j]) && !WorkerStep(step)
    requires !(step.Drain? || step.CheckAdmission? || step.CheckDelivery? || step.EndResidence? || step.StartRun?)
    ensures var s' := Apply(s, step); j < |s'.jobs| && Doomed(s'.jobs[j])
  {
  }

  lemma StartingRuns(job: Job)
    requires JobOk(job)
    ensures job.stage.By? && job.stage.at == Starting ==> job.running
    ensures CancelledFirst(job) ==> Doomed(job)
  {
  }

  /** A callable whose cancel came first is never invoked, in any continuation of the run. */
  lemma {:induction false} CancelFirstPrevents(states: seq<State>, steps: seq<Step>, i: nat, k: nat, j: nat)
    requires Run(states, steps) && i <= k < |states| && j < |states[i].jobs| && CancelledFirst(states[i].jobs[j])
    ensures j < |states[k].jobs| && Doomed(states[k].jobs[j])
  {
    hide Inv, Apply, Enabled, JobsOk, JobOk;
    if i == k {
      RunKeeps(states, steps, i);
      InvJobs(states[i]);
      JobAt(states[i], j);
      StartingRuns(states[i].jobs[j]);
    } else {
      CancelFirstPrevents(states, steps, i, k - 1, j);
      RunKeeps(states, steps, k - 1);
      InvJobs(states[k - 1]);
      DoomedStays(states[k - 1], steps[k - 1], j);
    }
  }

  lemma InvJobs(s: State)
    requires Inv(s)
    ensures JobsOk(s)
  {
  }

  /** The step that decides a value sees a finished, uncancelled call. */
  lemma DeliveryUncancelled(s: State)
    requires Inv(s) && Enabled(s, CheckDelivery)
    ensures var job := s.jobs[s.owner.job];
            Apply(s, CheckDelivery).jobs[s.owner.job].pc == Leaving(Value)
            <==> job.done && !job.cancelled && job.product == Result
  {
    JobAt(s, s.owner.job);
  }

  // ----- where each ending comes from -----

  /** In this step call `j` gets this ending: its value or its exception from a
      delivery check that finds it done and not flagged cancelled; cancelled by an
      admission check that finds it flagged or the pool closing, or by a delivery
      check that finds it flagged; broken by a wait that fails. */
  predicate Decides(s: State, step: Step, j: nat, how: Ending) {
    && j < |s.jobs|
    && match how
       case Value => Delivers(s, step, j) && !s.jobs[j].cancelled && s.jobs[j].product == Result
       case Threw => Delivers(s, step, j) && !s.jobs[j].cancelled && s.jobs[j].product == Exception
       case Cancelled =>
         || (Delivers(s, step, j) && s.jobs[j].cancelled)
         || (step == CheckAdmission && s.owner == InCall(j) && !s.jobs[j].submitted && (s.jobs[j].cancelled || s.closing))
       case Broken => step == WaitFails(j)
  }

  /** The delivery check of a call that is done. */
  predicate Delivers(s: State, step: Step, j: nat) {
    step == CheckDelivery && s.owner == InCall(j) && j < |s.jobs| && s.jobs[j].done
  }

  lemma EndingBegins(s: State, step: Step, j: nat, how: Ending)
    requires Inv(s) && Enabled(s, step) && j < |Apply(s, step).jobs| && EndsWith(Apply(s, step).jobs[j], how)
    ensures j < |s.jobs| && (EndsWith(s.jobs[j], how) || Decides(s, step, j, how))
  {
    hide Inv, JobsOk, JobOk;
    if step.CheckDelivery? || step.CheckAdmission? {
      InvJobs(s);
      JobAt(s, s.owner.job);
      CheckedJob(s.jobs[s.owner.job]);
      if step.CheckDelivery? {
        DeliveryEnding(s, j, how);
      } else {
        AdmissionEnding(s, j, how);
      }
    } else if step.Drain? || step.Wake? || step.WaitFails? {
      CallEnding(s, step, j, how);
    } else if step.EndResidence? || step.StartRun? {
      GuardEnding(s, step, j, how);
    } else if WorkerStep(step) {
      WorkerEnding(s, step, j, how);
    } else {
      OtherEnding(s, step, j, how);
    }
  }

  lemma CheckedJob(job: Job)
    requires JobOk(job)
    ensures job.pc == DeliverCheck && job.done && !job.cancelled && job.product != Exception ==> job.product == Result
    ensures job.pc == AdmitCheck ==> !job.submitted
  {
  }

  lemma DeliveryEnding(s: State, j: nat, how: Ending)
    requires Enabled(s, CheckDelivery) && j < |s.jobs| == |Apply(s, CheckDelivery).jobs|
    requires EndsWith(Apply(s, CheckDelivery).jobs[j], how)
    requires s.jobs[s.owner.job].done && !s.jobs[s.owner.job].cancelled && s.jobs[s.owner.job].product != Exception
             ==> s.jobs[s.owner.job].product == Result
    ensures EndsWith(s.jobs[j], how) || Decides(s, CheckDelivery, j, how)
  {
  }

  /** An admission check rewrites one job. */
  lemma AdmissionShape(s: State)
    requires Enabled(s, CheckAdmission)
    ensures var jobs, k := Apply(s, CheckAdmission).jobs, s.owner.job;
            && |jobs| == |s.jobs| && jobs == s.jobs[k := jobs[k]]
            && jobs[k].product == s.jobs[k].product && jobs[k].cancelled == s.jobs[k].cancelled
            && (jobs[k].pc == Leaving(Cancelled) || jobs[k].pc == DeliverDrain || jobs[k].pc == AdmitPark)
            && (jobs[k].pc == Leaving(Cancelled) ==> s.closing || s.jobs[k].cancelled)
  {
  }

  lemma AdmissionEnding(s: State, j: nat, how: Ending)
    requires Enabled(s, CheckAdmission) && j < |Apply(s, CheckAdmission).jobs|
    requires EndsWith(Apply(s, CheckAdmission).jobs[j], how) && !s.jobs[s.owner.job].submitted
    ensures j < |s.jobs| && (EndsWith(s.jobs[j], how) || Decides(s, CheckAdmission, j, how))
  {
    AdmissionShape(s);
    hide Apply;
  }

  lemma CallEnding(s: State, step: Step, j: nat, how: Ending)
    requires Enabled(s, step) && j < |Apply(s, step).jobs| && EndsWith(Apply(s, step).jobs[j], how)
    requires step.Drain? || step.Wake? || step.WaitFails?
    ensures j < |s.jobs| && (EndsWith(s.jobs[j], how) || Decides(s, step, j, how))
  {
  }

  lemma GuardEnding(s: State, step: Step, j: nat, how: Ending)
    requires Enabled(s, step) && j < |Apply(s, step).jobs| && EndsWith(Apply(s, step).jobs[j], how)
    requires step.EndResidence? || step.StartRun?
    ensures j < |s.jobs| && EndsWith(s.jobs[j], how)
  {
    hide Without;
  }

  lemma WorkerEnding(s: State, step: Step, j: nat, how: Ending)
    requires Enabled(s, step) && j < |Apply(s, step).jobs| && EndsWith(Apply(s, step).jobs[j], how)
    requires WorkerStep(step)
    ensures j < |s.jobs| && EndsWith(s.jobs[j], how)
  {
  }

  lemma OtherEnding(s: State, step: Step, j: nat, how: Ending)
    requires Enabled(s, step) && j < |Apply(s, step).jobs| && EndsWith(Apply(s, step).jobs[j], how)
    requires step.NotifyNext? || step.StartStop? || step.StopNext? || step.CheckClose? || step.WakeClose?
             || step.JoinWorkers? || step.Cancel? || step.Exit?
    ensures j < |s.jobs| && EndsWith(s.jobs[j], how)
  {
  }

  /** In every run, every ending of a call was decided by an earlier step, in a state
      that calls for it. */
  lemma {:induction false} EndingWasDecided(states: seq<State>, steps: seq<Step>, i: nat, j: nat, how: Ending)
    returns (k: nat)
    requires Run(states, steps) && i < |states| && j < |states[i].jobs| && EndsWith(states[i].jobs[j], how)
    ensures k < i && Decides(states[k], steps[k], j, how)
  {
    hide Inv, Apply, Enabled, Decides;
    if i > 0 {
      RunKeeps(states, steps, i - 1);
      EndingBegins(states[i - 1], steps[i - 1], j, how);
      if EndsWith(states[i - 1].jobs[j], how) {
        k := EndingWasDecided(states, steps, i - 1, j, how);
      } else {
        k := i - 1;
      }
    }
  }

  // ----- where a product and a cancellation come from -----

  /** The worker that holds job `j` sees its callable return or throw. */
  predicate Finishes(s: State, step: Step, j: nat) {
    step.Finish? && step.worker < |s.workers| && s.workers[step.worker] == Busy(j)
  }

  /** Somebody flags call `j`: a stop token's callback, or the loop of `stop`. */
  predicate Flags(s: State, step: Step, j: nat) {
    step == Cancel(j) || (step.StopNext? && s.owner.InStop? && s.owner.next < |s.calls| && s.calls[s.owner.next] == j)
  }

  /** What a step does to a job's product and to its flag. */
  lemma JobStep(s: State, step: Step, j: nat)
    requires Enabled(s, step) && j < |Apply(s, step).jobs|
    ensures var job := Apply(s, step).jobs[j];
            if j >= |s.jobs| then job.product == Nothing && !job.cancelled
            else
              && job.product == (if Finishes(s, step, j) then if step.ok then Result else Exception else s.jobs[j].product)
              && job.cancelled == (s.jobs[j].cancelled || Flags(s, step, j))
  {
    if WorkerStep(step) {
      WorkerJobStep(s, step, j);
    } else if step.CheckAdmission? || step.CheckDelivery? || step.Drain? || step.StartRun? {
      CallJobStep(s, step, j);
    } else {
      OtherJobStep(s, step, j);
    }
  }

  lemma WorkerJobStep(s: State, step: Step, j: nat)
    requires Enabled(s, step) && j < |Apply(s, step).jobs| && WorkerStep(step)
    ensures j < |s.jobs|
    ensures var job := Apply(s, step).jobs[j];
            && job.product == (if Finishes(s, step, j) then if step.ok then Result else Exception else s.jobs[j].product)
            && job.cancelled == s.jobs[j].cancelled
  {
  }

  lemma CallJobStep(s: State, step: Step, j: nat)
    requires Enabled(s, step) && j < |Apply(s, step).jobs|
    requires step.CheckAdmission? || step.CheckDelivery? || step.Drain? || step.StartRun?
    ensures var job := Apply(s, step).jobs[j];
            if j >= |s.jobs| then job.product == Nothing && !job.cancelled
            else job.product == s.jobs[j].product && job.cancelled == s.jobs[j].cancelled
  {
    if step.CheckAdmission? {
      AdmissionShape(s);
      hide Apply;
    }
  }

  lemma OtherJobStep(s: State, step: Step, j: nat)
    requires Enabled(s, step) && j < |Apply(s, step).jobs| && !WorkerStep(step)
    requires !(step.CheckAdmission? || step.CheckDelivery? || step.Drain? || step.StartRun?)
    ensures j < |s.jobs|
    ensures var job := Apply(s, step).jobs[j];
            job.product == s.jobs[j].product && job.cancelled == (s.jobs[j].cancelled || Flags(s, step, j))
  {
    hide Without;
  }

  /** A flagged call was flagged by a step of the run. */
  lemma {:induction false} FlagWasSet(states: seq<State>, steps: seq<Step>, i: nat, j: nat) returns (k: nat)
    requires Run(states, steps) && i < |states| && j < |states[i].jobs| && states[i].jobs[j].cancelled
    ensures k < i && Flags(states[k], steps[k], j)
  {
    hide Apply, Enabled, Flags;
    if i > 0 {
      JobStep(states[i - 1], steps[i - 1], j);
      if j < |states[i - 1].jobs| && states[i - 1].jobs[j].cancelled {
        k := FlagWasSet(states, steps, i - 1, j);
      } else {
        k := i - 1;
      }
    }
  }

  /** A product was left by the callable, the way it ended. */
  lemma {:induction false} ProductWasLeft(states: seq<State>, steps: seq<Step>, i: nat, j: nat) returns (k: nat)
    requires Run(states, steps) && i < |states| && j < |states[i].jobs| && states[i].jobs[j].product != Nothing
    ensures k < i && Finishes(states[k], steps[k], j) && steps[k].ok == (states[i].jobs[j].product == Result)
  {
    hide Apply, Enabled, Finishes;
    if i > 0 {
      JobStep(states[i - 1], steps[i - 1], j);
      if j < |states[i - 1].jobs| && !Finishes(states[i - 1], steps[i - 1], j) {
        k := ProductWasLeft(states, steps, i - 1, j);
      } else {
        FinishOk(states[i - 1], steps[i - 1], j);
        k := i - 1;
      }
    }
  }

  lemma FinishOk(s: State, step: Step, j: nat)
    requires Finishes(s, step, j)
    ensures step.Finish?
  {
  }

  /** A callable is seen to end only while it has left nothing. */
  lemma FinishesOnce(s: State, step: Step, j: nat)
    requires Inv(s) && Enabled(s, step) && Finishes(s, step, j)
    ensures j < |s.jobs| && s.jobs[j].product == Nothing
  {
    hide WorkersOk, OwnerOk, CountOk, WakesOk, StopOk;
    JobAt(s, j);
  }

  lemma {:induction false} ProductStays(states: seq<State>, steps: seq<Step>, i: nat, k: nat, j: nat)
    requires Run(states, steps) && i <= k < |states| && j < |states[i].jobs| && states[i].jobs[j].product != Nothing
    ensures j < |states[k].jobs| && states[k].jobs[j].product != Nothing
  {
    hide Apply, Enabled, Finishes;
    if i < k {
      ProductStays(states, steps, i, k - 1, j);
      JobsStay(states[k - 1], steps[k - 1]);
      JobStep(states[k - 1], steps[k - 1], j);
    }
  }

  lemma JobsStay(s: State, step: Step)
    requires Enabled(s, step)
    ensures |Apply(s, step).jobs| >= |s.jobs|
  {
    if step.CheckAdmission? {
      AdmissionShape(s);
      hide Apply;
    } else if WorkerStep(step) {
      hide Without;
    } else {
      hide Without;
    }
  }

  lemma OneFinish(states: seq<State>, steps: seq<Step>, k: nat, l: nat, j: nat)
    requires Run(states, steps) && k < l < |steps| && Finishes(states[k], steps[k], j)
    ensures !Finishes(states[l], steps[l], j)
  {
    hide Inv, Apply, Enabled, Finishes;
    RunKeeps(states, steps, k);
    RunKeeps(states, steps, l);
    if Finishes(states[l], steps[l], j) {
      FinishesOnce(states[k], steps[k], j);
      FinishOk(states[k], steps[k], j);
      JobsStay(states[k], steps[k]);
      JobStep(states[k], steps[k], j);
      ProductStays(states, steps, k + 1, l, j);
      FinishesOnce(states[l], steps[l], j);
    }
  }

  /** In every run: a call ends with a value only if its callable returned normally,
      and with an exception only if it threw one; that end came before, and it is
      the only one the callable has in the run. */
  lemma EndedAsFinished(states: seq<State>, steps: seq<Step>, i: nat, j: nat) returns (k: nat)
    requires Run(states, steps) && i < |states| && j < |states[i].jobs|
    requires EndsWith(states[i].jobs[j], Value) || EndsWith(states[i].jobs[j], Threw)
    ensures k < i && Finishes(states[k], steps[k], j) && steps[k].ok == EndsWith(states[i].jobs[j], Value)
    ensures forall l :: 0 <= l < |steps| && Finishes(states[l], steps[l], j) ==> l == k
  {
    hide Finishes, Enabled, Apply;
    AtMostOnce(states, steps, i, j);
    k := ProductWasLeft(states, steps, i, j);
    forall l | 0 <= l < |steps| && Finishes(states[l], steps[l], j)
      ensures l == k
    {
      if l < k {
        OneFinish(states, steps, l, k, j);
      } else if k < l {
        OneFinish(states, steps, k, l, j);
      }
    }
  }

  /** In every run a call that ended cancelled had been flagged by somebody, or found
      the pool closing; one that broke had a wait that failed. */
  lemma CancelledForAReason(states: seq<State>, steps: seq<Step>, i: nat, j: nat) returns (k: nat)
    requires Run(states, steps) && i < |states| && j < |states[i].jobs| && EndsWith(states[i].jobs[j], Cancelled)
    ensures k < i && (Flags(states[k], steps[k], j) || states[k].closing)
  {
    hide Run, Flags;
    k := EndingWasDecided(states, steps, i, j, Cancelled);
    if states[k].jobs[j].cancelled {
      RunLength(states, steps);
      k := FlagWasSet(states, steps, k, j);
    }
  }

  lemma RunLength(states: seq<State>, steps: seq<Step>)
    requires Run(states, steps)
    ensures |states| == |steps| + 1
  {
  }

  // ----- first in, first out -----

  /** The call this step submits, if it submits one. */
  ghost function Submits(s: State, step: Step): seq<nat>
    requires Enabled(s, step)
  {
    if step == CheckAdmission && !s.closing && !s.jobs[s.owner.job].cancelled && s.occupied < s.capacity
    then [s.owner.job] else []
  }

  ghost function Submitted(states: seq<State>, steps: seq<Step>, i: nat): seq<nat>
    requires i <= |steps| < |states| && forall k :: 0 <= k < |steps| ==> Enabled(states[k], steps[k])
  {
    if i == 0 then [] else Submitted(states, steps, i - 1) + Submits(states[i - 1], steps[i - 1])
  }

  /** The jobs workers have taken, in the order in which they took them. */
  ghost function Taken(states: seq<State>, steps: seq<Step>, i: nat): seq<nat>
    requires i <= |steps| < |states|
  {
    if i == 0 then [] else
    var w := if steps[i - 1].Take? then steps[i - 1].worker else |states[i].workers|;
    var job := if w < |states[i].workers| && states[i].workers[w].Busy? then [states[i].workers[w].job] else [];
    Taken(states, steps, i - 1) + job
  }

  lemma QueueStep(s: State, step: Step)
    requires Enabled(s, step)
    ensures var s' := Apply(s, step);
            if step.Take? then
              && s.queue != [] && step.worker < |s'.workers| && s'.workers[step.worker] == Busy(s.queue[0])
              && s'.queue == s.queue[1..]
            else s'.queue == s.queue + Submits(s, step)
  {
    hide Without;
    assert s.queue + [] == s.queue;
  }

  /** In every run workers take calls in the order in which they were submitted: what
      was taken, then what is queued, is what was submitted. */
  lemma {:induction false} FirstInFirstOut(states: seq<State>, steps: seq<Step>, i: nat)
    requires Run(states, steps) && i < |states|
    ensures Taken(states, steps, i) + states[i].queue == Submitted(states, steps, i)
  {
    hide Apply, Enabled, Submits;
    if i > 0 {
      FirstInFirstOut(states, steps, i - 1);
      var s, step := states[i - 1], steps[i - 1];
      QueueStep(s, step);
      var t := Taken(states, steps, i - 1);
      if step.Take? {
        NoSubmit(s, step);
        assert t + s.queue == (t + [s.queue[0]]) + s.queue[1..];
        assert Submitted(states, steps, i - 1) + [] == Submitted(states, steps, i - 1);
      } else {
        assert t + [] == t;
        assert t + (s.queue + Submits(s, step)) == (t + s.queue) + Submits(s, step);
      }
    }
  }

  lemma NoSubmit(s: State, step: Step)
    requires Enabled(s, step) && step.Take?
    ensures Submits(s, step) == []
  {
  }

  /** A worker only ever touches a job whose call is still resident and unpublished. */
  lemma HeldIsResident(s: State, w: nat)
    requires Inv(s) && w < |s.workers| && s.workers[w].Busy?
    ensures s.workers[w].job in s.calls && s.jobs[s.workers[w].job].submitted && !s.jobs[s.workers[w].job].done
  {
    JobAt(s, s.workers[w].job);
  }

  /** With the deck idle, a call parked for admission has an unread notification,
      or the pool is full, open, and nobody cancelled it; one parked for delivery
      has an unread notification or is not done; and a parked `close` likewise
      still has calls to wait for. */
  lemma ParkedHasReason(s: State, j: nat)
    requires Inv(s) && s.owner == Free && j < |s.jobs|
    ensures s.jobs[j].pc == AdmitPark ==>
              s.jobs[j].readable || (s.occupied == s.capacity && !s.jobs[j].cancelled && !s.closing)
    ensures s.jobs[j].pc == DeliverPark ==> s.jobs[j].readable || !s.jobs[j].done
    ensures s.closer == ClosePark ==> s.closeReadable || s.calls != []
  {
  }

  /** After `stop` has returned, what is still queued will not start. */
  lemma StoppedNeverStarts(s: State, j: nat)
    requires Inv(s) && s.owner == Free && s.closing && j in s.queue
    ensures CancelledFirst(s.jobs[j])
  {
    JobAt(s, j);
  }

  predicate WorkerStep(step: Step) {
    step.Take? || step.Execute? || step.Begin? || step.Finish? || step.Publish?
  }

  /** While any submitted call is unpublished, some worker can take a step. */
  lemma WorkersProgress(s: State, j: nat)
    requires Inv(s) && |s.workers| > 0 && j < |s.jobs| && s.jobs[j].submitted && !s.jobs[j].done
    ensures exists step :: WorkerStep(step) && Enabled(s, step)
  {
    JobAt(s, j);
    var w := if s.jobs[j].stage.By? then s.jobs[j].stage.worker else 0;
    if s.jobs[j].stage == Unclaimed {
      assert j in s.queue;
      assert s.queue[0] in s.queue;
    }
    if s.workers[w].Busy? {
      match s.jobs[s.workers[w].job].stage.at
      case Locking => assert WorkerStep(Execute(w)) && Enabled(s, Execute(w));
      case Starting => assert WorkerStep(Begin(w)) && Enabled(s, Begin(w));
      case Calling => assert WorkerStep(Finish(w, true)) && Enabled(s, Finish(w, true));
      case Publishing => assert WorkerStep(Publish(w)) && Enabled(s, Publish(w));
    } else {
      assert WorkerStep(Take(w)) && Enabled(s, Take(w));
    }
  }
}
