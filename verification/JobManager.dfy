/** The import job queue (internal/maptool/jobmanager.go) as a state machine: submitters, one worker loop and
    cancelling callers take steps in any order. A job is identified by the order of its registration; its ID is
    only a key of the jobs table. A pipeline job is run stage by stage, as internal/maptool/pipeline.go does. */
module JobManager {
  import opened Common
  import opened Pipeline

  const QUEUE_CAPACITY: nat := 100

  /** armed: its cancel function is set. cancelled: its cancel function was called. The rest is history: whether the
      job began to run, its pipeline's stages, whether its context was done at each stage boundary it reached, the
      outcome of each stage run, and of a custom job whether it failed and whether its context was done then. */
  datatype JobState = JobState(id: string, custom: bool, status: Status, armed: bool, cancelled: bool, begun: bool,
                               stages: seq<Stage>, boundaries: seq<bool>, outcomes: seq<Outcome>,
                               returned: Option<(bool, bool)>)

  /** Where a job is: in or before the queue, in one of the worker's hands, or settled. */
  datatype Phase =
    | Waiting
    | Taken
    | Armed
    | InCustom    // the custom function runs
    | AtBoundary  // about to look at the context before the next stage, or past the last one
    | InStage     // a stage runs
    | Settled

  datatype Worker = Idle | Busy(job: nat, phase: Phase) | Exited

  datatype State = State(
    jobs: seq<JobState>,
    table: map<string, nat>,
    unsent: set<nat>,      // registered, but not yet sent to the queue
    queue: seq<nat>,
    worker: Worker,
    stopped: bool,
    cancelling: set<nat>,  // CancelJob calls that have fetched a cancel function and not called it yet
    enqueued: seq<nat>,    // history: jobs sent to the queue
    received: seq<nat>,    // history: jobs the worker took off it
    started: seq<nat>,     // history: jobs that began to run
    asked: set<nat>        // history: jobs that CancelJob was called for while they were under way
  )

  const INITIAL := State([], map[], {}, [], Idle, false, {}, [], [], [], {})

  datatype Step =
    | Register(id: string, custom: bool)  // Submit: enter the job into the table
    | Enqueue(job: nat)                   // Submit: send it to the queue
    | Take                                // Start: receive from the queue
    | Exit                                // Start: see the cancelled context
    | Process(work: Work)                 // processJob: the next thing it does
    | CancelRequest(id: string)           // CancelJob: look up the cancel function
    | CancelCall(job: nat)                // CancelJob: call it
    | Stop

  datatype Work =
    | Arm                               // set the cancel function
    | PrecheckFails                     // directories cannot be prepared
    | Begin(stages: seq<Stage>)         // job.Start, and a new pipeline unless the job is custom
    | Boundary                          // Pipeline.Run: look at the context, or finish after the last stage
    | StageReturns(outcome: Outcome)
    | CustomReturns(failed: bool)

  predicate Terminal(s: Status) {
    s in {Done, Failed, Cancelled}
  }

  function NewJob(id: string, custom: bool): JobState {
    JobState(id, custom, Pending, false, false, false, [], [], [], None)
  }

  /** The job's context is done: it was cancelled itself, or the whole manager was stopped. */
  predicate ContextDone(s: State, j: nat)
    requires j < |s.jobs|
  {
    s.jobs[j].cancelled || s.stopped
  }

  function PhaseOf(s: State, j: nat): Phase {
    if s.worker.Busy? && s.worker.job == j then s.worker.phase
    else if j in s.received then Settled
    else Waiting
  }

  /** The worker has got past setting the job's cancel function, or is done with it. */
  predicate UnderWay(p: Phase) {
    p != Waiting && p != Taken
  }

  datatype CancelError = NotFound | NotRunning(status: Status)

  /** What CancelJob answers its caller. */
  function CancelAnswer(s: State, id: string): Result<(), CancelError> {
    if id !in s.table || s.table[id] >= |s.jobs| then Err(NotFound)
    else
      var status := s.jobs[s.table[id]].status;
      if status != Running && status != Pending then Err(NotRunning(status)) else Ok(())
  }

  /** Processing a job, by what happens next and whether its context is done at that moment. */
  function Advance(job: JobState, phase: Phase, work: Work, contextDone: bool): (JobState, Phase) {
    match work
    case Arm => if phase.Taken? then (job.(armed := true), Armed) else (job, phase)
    case PrecheckFails => if phase.Armed? && !job.custom then (job.(status := Failed), Settled) else (job, phase)
    case Begin(stages) =>
      if !phase.Armed? then (job, phase)
      else if job.custom then (job.(status := Running, begun := true), InCustom)
      else (job.(status := Running, begun := true, stages := stages), AtBoundary)
    case Boundary =>
      if !phase.AtBoundary? then (job, phase)
      else if |job.outcomes| >= |job.stages| then (job.(status := Done), Settled)
      else
        var seen := job.(boundaries := job.boundaries + [contextDone]);
        if contextDone then (seen.(status := Cancelled), Settled) else (seen, InStage)
    case StageReturns(outcome) =>
      if !phase.InStage? || |job.outcomes| >= |job.stages| then (job, phase)
      else
        var ran := job.(outcomes := job.outcomes + [outcome]);
        if outcome.Error? && !job.stages[|job.outcomes|].optional then (ran.(status := Failed), Settled)
        else (ran, AtBoundary)
    case CustomReturns(failed) =>
      if !phase.InCustom? then (job, phase)
      else
        var status := if !failed then Done else if contextDone then Cancelled else Failed;
        (job.(status := status, returned := Some((failed, contextDone))), Settled)
  }

  function ProcessJob(s: State, work: Work): State {
    if !s.worker.Busy? || s.worker.job >= |s.jobs| then s
    else
      var j := s.worker.job;
      var (job, phase) := Advance(s.jobs[j], s.worker.phase, work, ContextDone(s, j));
      s.(jobs := s.jobs[j := job],
         worker := if phase == Settled then Idle else Busy(j, phase),
         started := if job.begun && !s.jobs[j].begun then s.started + [j] else s.started)
  }

  /** What a step does; a step that is not possible now does nothing. */
  function Next(s: State, step: Step): State {
    match step
    case Register(id, custom) =>
      var j := |s.jobs|;
      s.(jobs := s.jobs + [NewJob(id, custom)], table := s.table[id := j], unsent := s.unsent + {j})
    case Enqueue(j) =>
      if j in s.unsent && |s.queue| < QUEUE_CAPACITY
      then s.(unsent := s.unsent - {j}, queue := s.queue + [j], enqueued := s.enqueued + [j]) else s
    case Take =>
      if s.worker == Idle && s.queue != []
      then s.(worker := Busy(s.queue[0], Taken), queue := s.queue[1..], received := s.received + [s.queue[0]])
      else s
    case Exit =>
      if s.worker == Idle && s.stopped then s.(worker := Exited) else s
    case Process(work) => ProcessJob(s, work)
    case CancelRequest(id) =>
      if CancelAnswer(s, id).Err? then s
      else
        var j := s.table[id];
        s.(asked := if UnderWay(PhaseOf(s, j)) then s.asked + {j} else s.asked,
           cancelling := if s.jobs[j].armed then s.cancelling + {j} else s.cancelling)
    case CancelCall(j) =>
      if j in s.cancelling && j < |s.jobs|
      then s.(jobs := s.jobs[j := s.jobs[j].(cancelled := true)], cancelling := s.cancelling - {j}) else s
    case Stop => s.(stopped := true)
  }

  function Run(s: State, steps: seq<Step>): State {
    if steps == [] then s else Next(Run(s, steps[..|steps| - 1]), steps[|steps| - 1])
  }

  lemma RunMore(s: State, steps: seq<Step>, step: Step)
    ensures Run(s, steps + [step]) == Next(Run(s, steps), step)
  {
    assert (steps + [step])[..|steps|] == steps;
  }

  // ----- One job on its own

  /** None of the first n stages failed fatally, and the context was done at none of the boundaries before them. */
  ghost predicate Passed(job: JobState, n: nat)
    requires n <= |job.boundaries| && n <= |job.outcomes| <= |job.stages|
  {
    forall i :: 0 <= i < n ==> !job.boundaries[i] && !Fatal(job.stages[i], Turn(false, job.outcomes[i]))
  }

  /** Status and cancel function match the phase; only the precheck ends a job that has not begun. */
  ghost predicate StatusOk(job: JobState, phase: Phase) {
    && (job.status == Pending <==> phase in {Waiting, Taken, Armed})
    && (job.status == Running <==> phase in {InCustom, AtBoundary, InStage})
    && (job.armed <==> UnderWay(phase))
    && (job.cancelled ==> job.armed)
    && (phase in {Waiting, Taken, Armed} ==> !job.begun)
    && (phase in {InCustom, AtBoundary, InStage} ==> job.begun)
    && (phase == Settled && !job.begun ==> job.status == Failed && !job.custom)
    && (job.custom ==> phase !in {AtBoundary, InStage})
    && (!job.custom ==> phase != InCustom)
  }

  /** How far a pipeline job has come, by its history: a stage runs only after a boundary where the context was not
      done, and everything before the last boundary or stage was passed. */
  ghost predicate Tracked(job: JobState, phase: Phase) {
    var b, r := |job.boundaries|, |job.outcomes|;
    && r <= |job.stages| && r <= b <= r + 1
    && (job.custom || !job.begun ==> b == r == 0)
    && (!job.custom && job.begun ==>
          match phase
          case AtBoundary => b == r && Passed(job, r)
          case InStage => b == r + 1 && r < |job.stages| && !job.boundaries[r] && Passed(job, r)
          case _ =>
            match job.status
            case Done => b == r == |job.stages| && Passed(job, r)
            case Cancelled => b == r + 1 && job.boundaries[r] && Passed(job, r)
            case _ =>
              && b == r > 0 && Passed(job, r - 1) && !job.boundaries[r - 1]
              && Fatal(job.stages[r - 1], Turn(false, job.outcomes[r - 1])))
  }

  /** A custom job's final status is decided by how its function returned. */
  ghost predicate CustomDecided(job: JobState, phase: Phase) {
    && (job.returned.Some? <==> job.custom && phase == Settled)
    && (job.returned.Some? ==>
          var (failed, contextDone) := job.returned.value;
          job.status == if !failed then Done else if contextDone then Cancelled else Failed)
  }

  ghost predicate JobOk(job: JobState, phase: Phase) {
    StatusOk(job, phase) && Tracked(job, phase) && CustomDecided(job, phase)
  }

  lemma StatusAdvances(job: JobState, phase: Phase, work: Work, contextDone: bool)
    requires StatusOk(job, phase)
    ensures var (job', phase') := Advance(job, phase, work, contextDone); StatusOk(job', phase')
  {}

  lemma TrackAdvances(job: JobState, phase: Phase, work: Work, contextDone: bool)
    requires StatusOk(job, phase) && Tracked(job, phase)
    ensures var (job', phase') := Advance(job, phase, work, contextDone); Tracked(job', phase')
  {}

  lemma CustomAdvances(job: JobState, phase: Phase, work: Work, contextDone: bool)
    requires StatusOk(job, phase) && CustomDecided(job, phase)
    ensures var (job', phase') := Advance(job, phase, work, contextDone); CustomDecided(job', phase')
  {}

  /** The moves of a status: pending to running or failed, running to terminal. */
  predicate Moves(before: Status, after: Status) {
    || before == after
    || (before == Pending && after in {Running, Failed})
    || (before == Running && Terminal(after))
  }

  lemma AdvanceMoves(job: JobState, phase: Phase, work: Work, contextDone: bool)
    requires StatusOk(job, phase)
    ensures var (job', phase') := Advance(job, phase, work, contextDone);
      && Moves(job.status, job'.status) && job'.cancelled == job.cancelled
      && (job'.status == Cancelled && job.status != Cancelled ==> contextDone)
  {}

  // ----- What every reachable state satisfies

  ghost predicate NoDuplicates(js: seq<nat>) {
    forall a, b :: 0 <= a < b < |js| ==> js[a] != js[b]
  }

  /** Jobs come off the queue in the order they went on, each registered job at most once. */
  ghost predicate Fifo(s: State) {
    && s.enqueued == s.received + s.queue
    && NoDuplicates(s.enqueued)
    && (forall j <- s.enqueued :: j < |s.jobs| && j !in s.unsent)
    && (forall j <- s.unsent :: j < |s.jobs|)
    && (s.worker.Busy? ==>
          s.received != [] && s.worker.job == Last(s.received) && s.worker.phase !in {Waiting, Settled})
  }

  function Last(js: seq<nat>): nat
    requires js != []
  {
    js[|js| - 1]
  }

  /** Jobs begin in queue order: those begun are a subsequence of those received. */
  ghost predicate Subsequence(xs: seq<nat>, ys: seq<nat>) {
    if xs == [] then true
    else if ys == [] then false
    else if xs[|xs| - 1] == ys[|ys| - 1] then Subsequence(xs[..|xs| - 1], ys[..|ys| - 1])
    else Subsequence(xs, ys[..|ys| - 1])
  }

  /** The job at hand has been received, but may not have begun. */
  predicate NotBegun(w: Worker) {
    w.Busy? && w.phase in {Taken, Armed}
  }

  ghost predicate StartOrder(s: State) {
    Subsequence(s.started, if NotBegun(s.worker) then DropLast(s.received) else s.received)
  }

  function DropLast(js: seq<nat>): seq<nat> {
    if js == [] then [] else js[..|js| - 1]
  }

  ghost predicate JobsOk(s: State) {
    forall j :: 0 <= j < |s.jobs| ==> JobOk(s.jobs[j], PhaseOf(s, j))
  }

  /** A job is only cancelled by a request made while it was under way, or by stopping the manager. */
  ghost predicate CancelledForCause(s: State) {
    && (forall id <- s.table :: s.table[id] < |s.jobs|)
    && (forall j <- s.cancelling :: j < |s.jobs| && j in s.asked && s.jobs[j].armed)
    && (forall j :: 0 <= j < |s.jobs| && s.jobs[j].cancelled ==> j in s.asked)
    && (forall j :: 0 <= j < |s.jobs| && s.jobs[j].status == Cancelled ==> ContextDone(s, j))
  }

  ghost predicate Invariant(s: State) {
    Fifo(s) && StartOrder(s) && JobsOk(s) && CancelledForCause(s)
  }

  // ----- Each step keeps it

  lemma FifoEnqueue(s: State, j: nat)
    requires Fifo(s)
    ensures Fifo(Next(s, Enqueue(j)))
  {
    assert s.received + (s.queue + [j]) == s.received + s.queue + [j];
  }

  lemma FifoTake(s: State)
    requires Fifo(s)
    ensures Fifo(Next(s, Take))
  {
    if s.queue != [] {
      assert s.received + s.queue == s.received + [s.queue[0]] + s.queue[1..];
    }
  }

  /** What processing a job leaves alone. */
  lemma ProcessFrame(s: State, work: Work)
    requires JobsOk(s) && s.worker.Busy? && s.worker.job < |s.jobs| && s.worker.phase !in {Waiting, Settled}
    ensures var s', j := ProcessJob(s, work), s.worker.job;
      var (job, phase) := Advance(s.jobs[j], s.worker.phase, work, ContextDone(s, j));
      && s'.jobs == s.jobs[j := job]
      && s'.worker == (if phase == Settled then Idle else Busy(j, phase)) && phase != Waiting
      && s'.started == (if NotBegun(s.worker) && phase in {InCustom, AtBoundary} then s.started + [j] else s.started)
      && s' == s.(jobs := s'.jobs, worker := s'.worker, started := s'.started)
  {
    assert JobOk(s.jobs[s.worker.job], PhaseOf(s, s.worker.job));
  }

  lemma FifoProcess(s: State, work: Work)
    requires Fifo(s) && JobsOk(s)
    ensures Fifo(ProcessJob(s, work))
  {
    if s.worker.Busy? && s.worker.job < |s.jobs| {
      ProcessFrame(s, work);
    }
  }

  lemma FifoStep(s: State, step: Step)
    requires Fifo(s) && JobsOk(s)
    ensures Fifo(Next(s, step))
  {
    match step {
      case Enqueue(j) => FifoEnqueue(s, j);
      case Take => FifoTake(s);
      case Process(work) => FifoProcess(s, work);
      case _ =>
    }
  }

  lemma QueueFrontIsNew(s: State)
    requires Fifo(s) && s.queue != []
    ensures s.queue[0] !in s.received && s.queue[0] < |s.jobs|
  {
    assert s.enqueued[|s.received|] == s.queue[0];
    assert forall a :: 0 <= a < |s.received| ==> s.enqueued[a] == s.received[a];
    assert s.queue[0] in s.enqueued;
  }

  /** The job being processed is registered and received. */
  lemma CurrentIsReceived(s: State)
    requires Fifo(s) && s.worker.Busy?
    ensures s.worker.job in s.received && s.worker.job < |s.jobs|
  {
    assert s.worker.job in s.enqueued;
  }

  lemma JobsTake(s: State)
    requires Fifo(s) && JobsOk(s)
    ensures JobsOk(Next(s, Take))
  {
    var s' := Next(s, Take);
    if s.worker == Idle && s.queue != [] {
      QueueFrontIsNew(s);
    }
    forall j | 0 <= j < |s'.jobs|
      ensures JobOk(s'.jobs[j], PhaseOf(s', j))
    {
      assert JobOk(s.jobs[j], PhaseOf(s, j));
    }
  }

  lemma JobsRegister(s: State, id: string, custom: bool)
    requires Fifo(s) && JobsOk(s)
    ensures JobsOk(Next(s, Register(id, custom)))
  {
    var s' := Next(s, Register(id, custom));
    assert |s.jobs| !in s.enqueued;
    if s.worker.Busy? {
      CurrentIsReceived(s);
    }
    forall j | 0 <= j < |s'.jobs|
      ensures JobOk(s'.jobs[j], PhaseOf(s', j))
    {
      if j < |s.jobs| {
        assert JobOk(s.jobs[j], PhaseOf(s, j));
      }
    }
  }

  lemma JobsProcess(s: State, work: Work)
    requires Fifo(s) && JobsOk(s)
    ensures JobsOk(ProcessJob(s, work))
  {
    if s.worker.Busy? {
      CurrentIsReceived(s);
      ProcessFrame(s, work);
      var s', c := ProcessJob(s, work), s.worker.job;
      var done := ContextDone(s, c);
      assert JobOk(s.jobs[c], PhaseOf(s, c));
      StatusAdvances(s.jobs[c], s.worker.phase, work, done);
      TrackAdvances(s.jobs[c], s.worker.phase, work, done);
      CustomAdvances(s.jobs[c], s.worker.phase, work, done);
      forall j | 0 <= j < |s'.jobs|
        ensures JobOk(s'.jobs[j], PhaseOf(s', j))
      {
        assert JobOk(s.jobs[j], PhaseOf(s, j));
        assert PhaseOf(s', j) == if j == c then Advance(s.jobs[c], s.worker.phase, work, done).1 else PhaseOf(s, j);
      }
    }
  }

  lemma JobsCancelled(s: State, j: nat)
    requires JobsOk(s) && CancelledForCause(s)
    ensures JobsOk(Next(s, CancelCall(j)))
  {
    var s' := Next(s, CancelCall(j));
    forall i | 0 <= i < |s'.jobs|
      ensures JobOk(s'.jobs[i], PhaseOf(s', i))
    {
      assert JobOk(s.jobs[i], PhaseOf(s, i));
    }
  }

  lemma JobsStep(s: State, step: Step)
    requires Fifo(s) && JobsOk(s) && CancelledForCause(s)
    ensures JobsOk(Next(s, step))
  {
    match step {
      case Register(id, custom) => JobsRegister(s, id, custom);
      case Take => JobsTake(s);
      case Process(work) => JobsProcess(s, work);
      case CancelCall(j) => JobsCancelled(s, j);
      case _ =>
        var s' := Next(s, step);
        forall j | 0 <= j < |s'.jobs|
          ensures JobOk(s'.jobs[j], PhaseOf(s', j))
        {
          assert JobOk(s.jobs[j], PhaseOf(s, j));
        }
    }
  }

  lemma CauseProcess(s: State, work: Work)
    requires Fifo(s) && JobsOk(s) && CancelledForCause(s)
    ensures CancelledForCause(ProcessJob(s, work))
  {
    if s.worker.Busy? {
      CurrentIsReceived(s);
      ProcessFrame(s, work);
      var c := s.worker.job;
      assert JobOk(s.jobs[c], PhaseOf(s, c));
      AdvanceMoves(s.jobs[c], s.worker.phase, work, ContextDone(s, c));
      StatusAdvances(s.jobs[c], s.worker.phase, work, ContextDone(s, c));
    }
  }

  lemma CauseRequest(s: State, id: string)
    requires JobsOk(s) && CancelledForCause(s)
    ensures CancelledForCause(Next(s, CancelRequest(id)))
  {
    if CancelAnswer(s, id).Ok? {
      assert JobOk(s.jobs[s.table[id]], PhaseOf(s, s.table[id]));
    }
  }

  lemma CauseStep(s: State, step: Step)
    requires Fifo(s) && JobsOk(s) && CancelledForCause(s)
    ensures CancelledForCause(Next(s, step))
  {
    match step {
      case Process(work) => CauseProcess(s, work);
      case CancelRequest(id) => CauseRequest(s, id);
      case _ =>
    }
  }

  lemma SubsequenceSkip(xs: seq<nat>, ys: seq<nat>, y: nat)
    requires Subsequence(xs, ys) && y !in xs
    ensures Subsequence(xs, ys + [y])
  {
    assert (ys + [y])[..|ys|] == ys;
  }

  lemma SubsequenceKeep(xs: seq<nat>, ys: seq<nat>, y: nat)
    requires Subsequence(xs, ys)
    ensures Subsequence(xs + [y], ys + [y])
  {
    assert (xs + [y])[..|xs|] == xs && (ys + [y])[..|ys|] == ys;
  }

  lemma {:induction false} SubsequenceMember(xs: seq<nat>, ys: seq<nat>, x: nat)
    requires Subsequence(xs, ys) && x in xs
    ensures x in ys
  {
    if xs[|xs| - 1] != ys[|ys| - 1] {
      SubsequenceMember(xs, ys[..|ys| - 1], x);
    } else if x != ys[|ys| - 1] {
      SubsequenceMember(xs[..|xs| - 1], ys[..|ys| - 1], x);
    }
  }

  /** The job the worker has just received has not begun before. */
  lemma NotYetStarted(s: State)
    requires Fifo(s) && StartOrder(s) && NotBegun(s.worker)
    ensures s.worker.job !in s.started && s.received == DropLast(s.received) + [s.worker.job]
  {
    var r := s.received;
    assert forall a :: 0 <= a < |r| ==> r[a] == s.enqueued[a];
    if s.worker.job in s.started {
      SubsequenceMember(s.started, DropLast(r), s.worker.job);
    }
  }

  lemma StartOrderProcess(s: State, work: Work)
    requires Fifo(s) && JobsOk(s) && StartOrder(s)
    ensures StartOrder(ProcessJob(s, work))
  {
    if s.worker.Busy? {
      CurrentIsReceived(s);
      ProcessFrame(s, work);
      if NotBegun(s.worker) && !NotBegun(ProcessJob(s, work).worker) {
        NotYetStarted(s);
        SubsequenceSkip(s.started, DropLast(s.received), s.worker.job);
        SubsequenceKeep(s.started, DropLast(s.received), s.worker.job);
      }
    }
  }

  lemma StartOrderStep(s: State, step: Step)
    requires Fifo(s) && JobsOk(s) && StartOrder(s)
    ensures StartOrder(Next(s, step))
  {
    match step {
      case Process(work) => StartOrderProcess(s, work);
      case Take => assert s.worker == Idle && s.queue != [] ==> DropLast(Next(s, Take).received) == s.received;
      case _ =>
    }
  }

  lemma InvariantStep(s: State, step: Step)
    requires Invariant(s)
    ensures Invariant(Next(s, step))
  {
    FifoStep(s, step);
    StartOrderStep(s, step);
    JobsStep(s, step);
    CauseStep(s, step);
  }

  // ----- Every run

  lemma {:induction false} RunKeepsInvariant(steps: seq<Step>)
    ensures Invariant(Run(INITIAL, steps))
  {
    if steps != [] {
      RunKeepsInvariant(steps[..|steps| - 1]);
      InvariantStep(Run(INITIAL, steps[..|steps| - 1]), steps[|steps| - 1]);
    }
  }

  /** In every reachable state at most one job is running, the one the worker executes. */
  lemma AtMostOneRunning(steps: seq<Step>, i: nat, j: nat)
    requires var s := Run(INITIAL, steps);
      i < |s.jobs| && j < |s.jobs| && s.jobs[i].status == Running && s.jobs[j].status == Running
    ensures i == j && Run(INITIAL, steps).worker.Busy? && Run(INITIAL, steps).worker.job == i
  {
    RunKeepsInvariant(steps);
    var s := Run(INITIAL, steps);
    assert JobOk(s.jobs[i], PhaseOf(s, i)) && JobOk(s.jobs[j], PhaseOf(s, j));
  }

  /** Jobs come off the queue in the order they went on, and begin to run in that order. */
  lemma JobsStartInQueueOrder(steps: seq<Step>)
    ensures var s := Run(INITIAL, steps);
      s.enqueued == s.received + s.queue && NoDuplicates(s.enqueued) && Subsequence(s.started, s.received)
  {
    RunKeepsInvariant(steps);
    var s := Run(INITIAL, steps);
    if NotBegun(s.worker) {
      NotYetStarted(s);
      SubsequenceSkip(s.started, DropLast(s.received), s.worker.job);
    }
  }

  lemma StepMoves(s: State, step: Step, j: nat)
    requires Invariant(s) && j < |s.jobs|
    ensures j < |Next(s, step).jobs| && Moves(s.jobs[j].status, Next(s, step).jobs[j].status)
  {
    if step.Process? && s.worker.Busy? {
      var c := s.worker.job;
      CurrentIsReceived(s);
      ProcessFrame(s, step.work);
      assert JobOk(s.jobs[c], PhaseOf(s, c));
      AdvanceMoves(s.jobs[c], s.worker.phase, step.work, ContextDone(s, c));
    }
  }

  /** Along every run, a terminal status is final and a job that has run is never pending again. */
  lemma {:induction false} StatusOnlyAdvances(s: State, steps: seq<Step>, j: nat)
    requires Invariant(s) && j < |s.jobs|
    ensures Invariant(Run(s, steps)) && j < |Run(s, steps).jobs|
    ensures var before, after := s.jobs[j].status, Run(s, steps).jobs[j].status;
      (Terminal(before) ==> after == before) && (before != Pending ==> after != Pending)
  {
    if steps != [] {
      var mid := Run(s, steps[..|steps| - 1]);
      StatusOnlyAdvances(s, steps[..|steps| - 1], j);
      InvariantStep(mid, steps[|steps| - 1]);
      StepMoves(mid, steps[|steps| - 1], j);
    }
  }

  // ----- How jobs end

  /** How a settled pipeline job that began has ended, told by its history alone. */
  ghost predicate PipelineEnded(job: JobState) {
    var b, r := |job.boundaries|, |job.outcomes|;
    && r <= |job.stages| && r <= b
    && (job.status == Done <==> b == r == |job.stages| && Passed(job, r))
    && (job.status == Cancelled <==> b == r + 1 && job.boundaries[r] && Passed(job, r))
    && (job.status == Failed <==>
          && b == r > 0 && Passed(job, r - 1) && !job.boundaries[r - 1]
          && Fatal(job.stages[r - 1], Turn(false, job.outcomes[r - 1])))
  }

  /** In every interleaving, a pipeline job that began ends done if and only if all its stages ran, no required one
      failed and its context was not done at any boundary; cancelled if and only if its context was done at the last
      boundary it reached; failed if and only if the last stage run was required and failed. Nothing was run after a
      boundary where the context was done or after a required stage that failed. A job that never began has failed
      its precheck and run nothing. */
  lemma PipelineJobEnds(steps: seq<Step>, j: nat)
    requires j < |Run(INITIAL, steps).jobs|
    requires var job := Run(INITIAL, steps).jobs[j]; !job.custom && Terminal(job.status)
    ensures var job := Run(INITIAL, steps).jobs[j];
      if job.begun then PipelineEnded(job) else job.status == Failed && job.outcomes == []
  {
    RunKeepsInvariant(steps);
    var s := Run(INITIAL, steps);
    assert JobOk(s.jobs[j], PhaseOf(s, j));
  }

  /** A custom job ends done if and only if its function returned without an error, and cancelled if and only if it
      returned one with its context done. */
  lemma CustomJobEnds(steps: seq<Step>, j: nat)
    requires j < |Run(INITIAL, steps).jobs|
    requires var job := Run(INITIAL, steps).jobs[j]; job.custom && Terminal(job.status)
    ensures var job := Run(INITIAL, steps).jobs[j];
      && job.returned.Some?
      && (job.status == Done <==> !job.returned.value.0)
      && (job.status == Cancelled <==> job.returned.value.0 && job.returned.value.1)
  {
    RunKeepsInvariant(steps);
    var s := Run(INITIAL, steps);
    assert JobOk(s.jobs[j], PhaseOf(s, j));
  }

  /** The turns of the stages are what the job met with, as far as it came. */
  ghost predicate Meets(job: JobState, turns: seq<Turn>) {
    && |job.outcomes| <= |turns| == |job.stages| && |job.boundaries| <= |turns|
    && (forall i :: 0 <= i < |job.boundaries| ==> turns[i].cancelled == job.boundaries[i])
    && (forall i :: 0 <= i < |job.outcomes| ==> turns[i].outcome == job.outcomes[i])
  }

  /** In every interleaving, a pipeline job that began ends as `Pipeline.Run` does on the same turns, after as many
      stages. */
  lemma EndsAsPipeline(steps: seq<Step>, j: nat, turns: seq<Turn>)
    requires j < |Run(INITIAL, steps).jobs|
    requires var job := Run(INITIAL, steps).jobs[j];
      !job.custom && Terminal(job.status) && job.begun && Meets(job, turns)
    ensures var job := Run(INITIAL, steps).jobs[j]; EndsAs(job.stages, turns, job.status, |job.outcomes|)
  {
    PipelineJobEnds(steps, j);
    var job := Run(INITIAL, steps).jobs[j];
    var r := |job.outcomes|;
    forall i | 0 <= i < r
      ensures Fatal(job.stages[i], turns[i]) == Fatal(job.stages[i], Turn(false, job.outcomes[i]))
    {}
  }

  /** A pipeline job that still has a boundary before it, or that did not end done. */
  predicate BeforeBoundary(job: JobState, phase: Phase) {
    !job.custom &&
    match phase
    case Waiting => true
    case Taken => true
    case Armed => true
    case AtBoundary => |job.outcomes| < |job.stages| || job.stages == []
    case InStage => |job.outcomes| + 1 < |job.stages|
    case InCustom => false
    case Settled => job.status == Done ==> job.stages == []
  }

  lemma AdvanceWithContextDone(job: JobState, phase: Phase, work: Work)
    requires JobOk(job, phase) && BeforeBoundary(job, phase)
    ensures var (job', phase') := Advance(job, phase, work, true); BeforeBoundary(job', phase')
  {}

  /** Its context is done while it still has a boundary before it. */
  ghost predicate Doomed(s: State, j: nat) {
    j < |s.jobs| && ContextDone(s, j) && BeforeBoundary(s.jobs[j], PhaseOf(s, j))
  }

  lemma DoomedProcess(s: State, work: Work, j: nat)
    requires Fifo(s) && JobsOk(s) && Doomed(s, j)
    ensures Doomed(ProcessJob(s, work), j)
  {
    if s.worker.Busy? {
      var c := s.worker.job;
      CurrentIsReceived(s);
      ProcessFrame(s, work);
      assert JobOk(s.jobs[c], PhaseOf(s, c));
      AdvanceMoves(s.jobs[c], s.worker.phase, work, ContextDone(s, c));
      if c == j {
        AdvanceWithContextDone(s.jobs[j], s.worker.phase, work);
      }
    }
  }

  lemma DoomedStep(s: State, step: Step, j: nat)
    requires Invariant(s) && Doomed(s, j)
    ensures Doomed(Next(s, step), j)
  {
    match step {
      case Process(work) => DoomedProcess(s, work, j);
      case Take =>
        if s.worker == Idle && s.queue != [] {
          QueueFrontIsNew(s);
        }
        assert JobOk(s.jobs[j], PhaseOf(s, j));
      case _ =>
    }
  }

  /** A pipeline job whose context is done before it has begun, or with a boundary still before it, never ends done,
      whatever happens from then on, unless its pipeline has no stage at all. */
  lemma {:induction false} CancelledInTimeIsNeverDone(s: State, steps: seq<Step>, j: nat)
    requires Invariant(s) && Doomed(s, j)
    ensures Invariant(Run(s, steps)) && Doomed(Run(s, steps), j)
    ensures Run(s, steps).jobs[j].status == Done ==> Run(s, steps).jobs[j].stages == []
  {
    if steps != [] {
      var mid := Run(s, steps[..|steps| - 1]);
      CancelledInTimeIsNeverDone(s, steps[..|steps| - 1], j);
      InvariantStep(mid, steps[|steps| - 1]);
      DoomedStep(mid, steps[|steps| - 1], j);
    }
    var s' := Run(s, steps);
    assert JobOk(s'.jobs[j], PhaseOf(s', j));
  }

  // ----- Progress

  /** Every job is on its way to the queue or was sent to it. */
  ghost predicate Accounted(s: State) {
    forall j :: 0 <= j < |s.jobs| ==> j in s.unsent || j in s.enqueued
  }

  lemma AccountedStep(s: State, step: Step)
    requires Invariant(s) && Accounted(s)
    ensures Accounted(Next(s, step))
  {
    if step.Process? && s.worker.Busy? {
      CurrentIsReceived(s);
      ProcessFrame(s, step.work);
    }
  }

  lemma {:induction false} RunKeepsAccounted(steps: seq<Step>)
    ensures Accounted(Run(INITIAL, steps))
  {
    if steps != [] {
      RunKeepsAccounted(steps[..|steps| - 1]);
      RunKeepsInvariant(steps[..|steps| - 1]);
      AccountedStep(Run(INITIAL, steps[..|steps| - 1]), steps[|steps| - 1]);
    }
  }

  ghost predicate AllSettled(s: State) {
    forall j :: 0 <= j < |s.jobs| ==> PhaseOf(s, j) == Settled
  }

  /** A send of a submitter, or a step of the worker other than leaving; no pipeline has more than m stages. */
  predicate Forward(step: Step, m: nat) {
    match step
    case Enqueue(_) => true
    case Take => true
    case Process(work) => work.Begin? ==> |work.stages| <= m
    case _ => false
  }

  /** How much of a job is left to do. */
  function Ahead(job: JobState, phase: Phase, m: nat): nat {
    var left := if |job.outcomes| <= |job.stages| then |job.stages| - |job.outcomes| else 0;
    match phase
    case Waiting => 2 * m + 4
    case Taken => 2 * m + 3
    case Armed => 2 * m + 2
    case InCustom => 1
    case AtBoundary => 2 * left + 1
    case InStage => 2 * left
    case Settled => 0
  }

  function Left(s: State, m: nat): nat {
    |s.unsent| * (2 * m + 5) + |s.queue| * (2 * m + 4)
    + if s.worker.Busy? && s.worker.job < |s.jobs| then Ahead(s.jobs[s.worker.job], s.worker.phase, m) else 0
  }

  lemma AdvanceLowersAhead(job: JobState, phase: Phase, work: Work, contextDone: bool, m: nat)
    requires JobOk(job, phase) && (work.Begin? ==> |work.stages| <= m)
    ensures var (job', phase') := Advance(job, phase, work, contextDone);
      (job', phase') == (job, phase) || Ahead(job', phase', m) < Ahead(job, phase, m)
  {}

  lemma OneLess(n: nat, weight: nat)
    requires n > 0
    ensures (n - 1) * weight == n * weight - weight
  {}

  lemma OneMore(n: nat, weight: nat)
    ensures (n + 1) * weight == n * weight + weight
  {}

  /** Every step of submitters and worker that changes anything lowers a measure: without new jobs, they cannot go on
      for ever. */
  lemma StepLowersLeft(s: State, step: Step, m: nat)
    requires Invariant(s) && Forward(step, m)
    ensures Next(s, step) == s || Left(Next(s, step), m) < Left(s, m)
  {
    match step {
      case Enqueue(j) =>
        if j in s.unsent {
          OneLess(|s.unsent|, 2 * m + 5);
          OneMore(|s.queue|, 2 * m + 4);
        }
      case Take =>
        if s.worker == Idle && s.queue != [] {
          OneLess(|s.queue|, 2 * m + 4);
          QueueFrontIsNew(s);
        }
      case Process(work) =>
        if s.worker.Busy? {
          var j := s.worker.job;
          CurrentIsReceived(s);
          ProcessFrame(s, work);
          assert JobOk(s.jobs[j], PhaseOf(s, j));
          AdvanceLowersAhead(s.jobs[j], s.worker.phase, work, ContextDone(s, j), m);
        }
      case _ =>
    }
  }

  /** What the worker can do next with a job. */
  function NextWork(phase: Phase): Work {
    match phase
    case Armed => Begin([])
    case InCustom => CustomReturns(false)
    case AtBoundary => Boundary
    case InStage => StageReturns(Succeeded)
    case _ => Arm
  }

  lemma WorkGoesOn(job: JobState, phase: Phase, contextDone: bool)
    requires JobOk(job, phase) && phase !in {Waiting, Settled}
    ensures Advance(job, phase, NextWork(phase), contextDone).1 != phase
  {}

  /** As long as the worker has not left its loop and a job is not settled, a submitter or the worker can go on. */
  lemma NeverStuck(s: State) returns (step: Step)
    requires Invariant(s) && Accounted(s) && !s.worker.Exited? && !AllSettled(s)
    ensures Forward(step, 0) && Next(s, step) != s && !Next(s, step).worker.Exited?
  {
    if s.worker.Busy? {
      var j := s.worker.job;
      step := Process(NextWork(s.worker.phase));
      CurrentIsReceived(s);
      ProcessFrame(s, step.work);
      assert JobOk(s.jobs[j], PhaseOf(s, j));
      WorkGoesOn(s.jobs[j], s.worker.phase, ContextDone(s, j));
    } else if s.queue != [] {
      step := Take;
      assert Next(s, step).worker != s.worker;
    } else {
      var j: nat :| j < |s.jobs| && PhaseOf(s, j) != Settled;
      step := Enqueue(j);
      assert s.received + s.queue == s.received;
      assert |Next(s, step).enqueued| > |s.enqueued|;
    }
  }

  /** From every reachable state in which the worker has not left its loop, the run can be brought to a state in which
      every job is settled. */
  lemma {:induction false} CanSettle(steps: seq<Step>) returns (more: seq<Step>)
    requires !Run(INITIAL, steps).worker.Exited?
    ensures AllSettled(Run(INITIAL, steps + more))
    ensures forall step <- more :: Forward(step, 0)
    decreases Left(Run(INITIAL, steps), 0)
  {
    hide *;
    var s := Run(INITIAL, steps);
    RunKeepsInvariant(steps);
    RunKeepsAccounted(steps);
    if AllSettled(s) {
      more := [];
      assert steps + more == steps;
    } else {
      var step := NeverStuck(s);
      StepLowersLeft(s, step, 0);
      RunMore(INITIAL, steps, step);
      var rest := CanSettle(steps + [step]);
      more := [step] + rest;
      assert steps + more == steps + [step] + rest;
    }
  }

  // ----- What cancelling does

  /** Stopping the manager makes the context of every job done, also of jobs that come later, and nothing undoes it. */
  lemma {:induction false} StopReachesAll(s: State, steps: seq<Step>, j: nat)
    requires Invariant(s) && j < |Run(Next(s, Stop), steps).jobs|
    ensures ContextDone(Run(Next(s, Stop), steps), j)
  {
    StaysStopped(Next(s, Stop), steps);
  }

  lemma {:induction false} StaysStopped(s: State, steps: seq<Step>)
    requires s.stopped
    ensures Run(s, steps).stopped
  {
    if steps != [] {
      StaysStopped(s, steps[..|steps| - 1]);
    }
  }

  /** The worker leaves its loop only after that. */
  lemma {:induction false} LeavesOnlyWhenStopped(steps: seq<Step>)
    ensures Run(INITIAL, steps).worker.Exited? ==> Run(INITIAL, steps).stopped
  {
    if steps != [] {
      LeavesOnlyWhenStopped(steps[..|steps| - 1]);
    }
  }

  /** So a pipeline job that still has a boundary before it when the manager is stopped never ends done, unless its
      pipeline has no stage at all. */
  lemma StoppedInTimeIsNeverDone(s: State, steps: seq<Step>, j: nat)
    requires Invariant(s) && j < |s.jobs| && BeforeBoundary(s.jobs[j], PhaseOf(s, j))
    ensures var after := Run(Next(s, Stop), steps);
      j < |after.jobs| && (after.jobs[j].status == Done ==> after.jobs[j].stages == [])
  {
    InvariantStep(s, Stop);
    CancelledInTimeIsNeverDone(Next(s, Stop), steps, j);
  }

  /** The queue takes a registered job exactly if fewer than 100 wait in it, behind all of them; otherwise the sender
      waits. */
  lemma QueueHolds100(s: State, j: nat)
    requires Invariant(s) && j in s.unsent
    ensures if |s.queue| < 100 then Next(s, Enqueue(j)).queue == s.queue + [j] && j !in Next(s, Enqueue(j)).unsent
            else Next(s, Enqueue(j)) == s
  {}

  /** The latest job submitted under an id. */
  ghost predicate IsLatest(s: State, id: string, j: nat) {
    j < |s.jobs| && s.jobs[j].id == id && forall i :: j < i < |s.jobs| ==> s.jobs[i].id != id
  }

  ghost predicate FindsLatest(s: State) {
    && (forall id <- s.table :: IsLatest(s, id, s.table[id]))
    && (forall j :: 0 <= j < |s.jobs| ==> s.jobs[j].id in s.table)
  }

  lemma IdsStay(s: State, step: Step)
    requires !step.Register?
    ensures var s' := Next(s, step);
      && s'.table == s.table && |s'.jobs| == |s.jobs|
      && forall j :: 0 <= j < |s.jobs| ==> s'.jobs[j].id == s.jobs[j].id
  {
    if step.Process? && s.worker.Busy? && s.worker.job < |s.jobs| {
      hide ContextDone;
      var c := s.worker.job;
      assert Advance(s.jobs[c], s.worker.phase, step.work, ContextDone(s, c)).0.id == s.jobs[c].id;
    }
  }

  lemma FindsLatestStep(s: State, step: Step)
    requires FindsLatest(s)
    ensures FindsLatest(Next(s, step))
  {
    var s' := Next(s, step);
    if !step.Register? {
      IdsStay(s, step);
      hide Next;
      forall id <- s'.table
        ensures IsLatest(s', id, s'.table[id])
      {
        assert IsLatest(s, id, s.table[id]);
      }
    }
  }

  lemma {:induction false} RunFindsLatest(steps: seq<Step>)
    ensures FindsLatest(Run(INITIAL, steps))
  {
    if steps != [] {
      RunFindsLatest(steps[..|steps| - 1]);
      FindsLatestStep(Run(INITIAL, steps[..|steps| - 1]), steps[|steps| - 1]);
    }
  }

  /** CancelJob finds no job exactly if none was submitted under the id; otherwise it answers for the latest such job,
      with success exactly if that is pending or running. */
  lemma CancelAnswersExactly(steps: seq<Step>, id: string)
    ensures var s := Run(INITIAL, steps);
      CancelAnswer(s, id) == Err(NotFound) <==> forall j :: 0 <= j < |s.jobs| ==> s.jobs[j].id != id
    ensures var s := Run(INITIAL, steps);
      forall j: nat :: IsLatest(s, id, j) ==>
        CancelAnswer(s, id) ==
          if s.jobs[j].status in {Pending, Running} then Ok(()) else Err(NotRunning(s.jobs[j].status))
  {
    RunFindsLatest(steps);
    var s := Run(INITIAL, steps);
    if id in s.table {
      assert IsLatest(s, id, s.table[id]);
    }
    forall j: nat | IsLatest(s, id, j)
      ensures id in s.table && s.table[id] == j
    {
      assert s.jobs[j].id in s.table;
      assert IsLatest(s, id, s.table[id]);
    }
  }

  /** A job that ended cancelled was asked to stop while it was under way, or the manager was stopped. */
  lemma CancelledOnlyOnceTaken(steps: seq<Step>, j: nat)
    requires j < |Run(INITIAL, steps).jobs| && Run(INITIAL, steps).jobs[j].status == Cancelled
    ensures var s := Run(INITIAL, steps); s.stopped || (s.jobs[j].cancelled && j in s.asked)
    ensures j in Run(INITIAL, steps).received
  {
    RunKeepsInvariant(steps);
    var s := Run(INITIAL, steps);
    assert JobOk(s.jobs[j], PhaseOf(s, j));
    if s.worker.Busy? {
      CurrentIsReceived(s);
    }
  }

  /** CancelJob reports success for every job that is pending or running, but it makes the job's context done if and
      only if the worker has already set the job's cancel function. */
  lemma CancelWorksExactlyUnderWay(steps: seq<Step>, id: string)
    requires var s := Run(INITIAL, steps);
      && !s.stopped && id in s.table && s.table[id] < |s.jobs|
      && s.jobs[s.table[id]].status in {Pending, Running}
      && !s.jobs[s.table[id]].cancelled && s.table[id] !in s.cancelling
    ensures var s := Run(INITIAL, steps);
      var j := s.table[id];
      && CancelAnswer(s, id) == Ok(())
      && (ContextDone(Next(Next(s, CancelRequest(id)), CancelCall(j)), j) <==>
            j in s.received && s.worker != Busy(j, Taken))
  {
    RunKeepsInvariant(steps);
    var s := Run(INITIAL, steps);
    var j := s.table[id];
    assert JobOk(s.jobs[j], PhaseOf(s, j));
    if s.worker.Busy? {
      CurrentIsReceived(s);
    }
  }

  /** For a job that the worker has not got to, the call changes nothing, so nothing that follows depends on it. */
  lemma CancelOfWaitingJobIsLost(steps: seq<Step>, id: string)
    requires var s := Run(INITIAL, steps);
      id in s.table && s.table[id] < |s.jobs| && !UnderWay(PhaseOf(s, s.table[id]))
    ensures var s := Run(INITIAL, steps);
      CancelAnswer(s, id) == Ok(()) && Next(s, CancelRequest(id)) == s
  {
    RunKeepsInvariant(steps);
    var s := Run(INITIAL, steps);
    assert JobOk(s.jobs[s.table[id]], PhaseOf(s, s.table[id]));
  }

  const SUBMIT := Register("altis", true)

  function AltisSubmitted(): seq<Step> {
    [SUBMIT] + [Enqueue(0)]
  }

  const REGISTERED := State([NewJob("altis", true)], map["altis" := 0], {0}, [], Idle, false, {}, [], [], [], {})

  const QUEUED := State([NewJob("altis", true)], map["altis" := 0], {}, [0], Idle, false, {}, [0], [], [], {})

  lemma AltisIsRegistered()
    ensures Run(INITIAL, [SUBMIT]) == REGISTERED
  {
    assert [SUBMIT][..0] == [];
    var s := Next(INITIAL, SUBMIT);
    assert s.jobs == REGISTERED.jobs && s.table == REGISTERED.table && s.unsent == REGISTERED.unsent;
  }

  lemma AltisIsEnqueued()
    ensures Next(REGISTERED, Enqueue(0)) == QUEUED
  {
    var s := Next(REGISTERED, Enqueue(0));
    assert s.unsent == QUEUED.unsent && s.queue == QUEUED.queue && s.enqueued == QUEUED.enqueued;
  }

  lemma AltisIsQueued()
    ensures Run(INITIAL, AltisSubmitted()) == QUEUED
  {
    RunMore(INITIAL, [SUBMIT], Enqueue(0));
    AltisIsRegistered();
    AltisIsEnqueued();
  }

  lemma AltisRuns(steps: seq<Step>)
    requires Run(INITIAL, steps) == QUEUED
    ensures var all := steps + [Take] + [Process(Arm)] + [Process(Begin([]))] + [Process(CustomReturns(false))];
      var s := Run(INITIAL, all);
      s.jobs != [] && s.jobs[0].status == Done
  {
    var s1 := steps + [Take];
    RunMore(INITIAL, steps, Take);
    assert Run(INITIAL, s1).worker == Busy(0, Taken);
    var s2 := s1 + [Process(Arm)];
    RunMore(INITIAL, s1, Process(Arm));
    assert Run(INITIAL, s2).worker == Busy(0, Armed);
    var s3 := s2 + [Process(Begin([]))];
    RunMore(INITIAL, s2, Process(Begin([])));
    assert Run(INITIAL, s3).worker == Busy(0, InCustom);
    RunMore(INITIAL, s3, Process(CustomReturns(false)));
  }

  /** A run in which a waiting job is cancelled, with success reported to the caller, and still ends done. */
  lemma CancelledButDone()
    ensures var before := AltisSubmitted();
      var after := before + [CancelRequest("altis")] + [CancelCall(0)]
                   + [Take] + [Process(Arm)] + [Process(Begin([]))] + [Process(CustomReturns(false))];
      && CancelAnswer(Run(INITIAL, before), "altis") == Ok(())
      && Run(INITIAL, before).jobs != [] && Run(INITIAL, before).jobs[0].status == Pending
      && Run(INITIAL, after).jobs != [] && Run(INITIAL, after).jobs[0].status == Done
  {
    var before := AltisSubmitted();
    AltisIsQueued();
    RunMore(INITIAL, before, CancelRequest("altis"));
    RunMore(INITIAL, before + [CancelRequest("altis")], CancelCall(0));
    AltisRuns(before + [CancelRequest("altis")] + [CancelCall(0)]);
  }
}
