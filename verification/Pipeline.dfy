/** The map import pipeline (internal/maptool/pipeline.go). A stage's result and the moment a cancellation
    is noticed are whatever they turn out to be: they are inputs here. */
module Pipeline {
  import opened Common

  datatype Status = Pending | Running | Done | Failed | Cancelled

  datatype Stage = Stage(name: string, optional: bool)

  /** What running a stage came to. */
  datatype Outcome = Succeeded | Error(message: string)

  /** For each stage: whether the context is found cancelled just before it, and its result if it runs. */
  datatype Turn = Turn(cancelled: bool, outcome: Outcome)

  datatype RunError = CancelledBefore(stage: string) | StageFailed(stage: string, message: string)

  /** Stage i ends the pipeline by failing. */
  predicate Fatal(stage: Stage, turn: Turn) {
    turn.outcome.Error? && !stage.optional
  }

  /** The stages before p were all run and none of them ended the pipeline. */
  ghost predicate PassesThrough(stages: seq<Stage>, turns: seq<Turn>, p: nat)
    requires |turns| == |stages|
  {
    p <= |stages| && forall i :: 0 <= i < p ==> !turns[i].cancelled && !Fatal(stages[i], turns[i])
  }

  /** The end of a pipeline: its status after running so many stages. */
  ghost predicate EndsAs(stages: seq<Stage>, turns: seq<Turn>, status: Status, ran: nat)
    requires |turns| == |stages|
  {
    || (status == Done && ran == |stages| && PassesThrough(stages, turns, ran))
    || (status == Cancelled && ran < |stages| && PassesThrough(stages, turns, ran) && turns[ran].cancelled)
    || (status == Failed && 0 < ran <= |stages| && PassesThrough(stages, turns, ran - 1)
        && !turns[ran - 1].cancelled && Fatal(stages[ran - 1], turns[ran - 1]))
  }

  /** What happens at the stages decides the end. */
  lemma EndsOneWay(stages: seq<Stage>, turns: seq<Turn>, status: Status, ran: nat, status': Status, ran': nat)
    requires |turns| == |stages|
    requires EndsAs(stages, turns, status, ran) && EndsAs(stages, turns, status', ran')
    ensures status == status' && ran == ran'
  {}

  class Job {
    var status: Status
    var error: string
    var stage: string
    var stageNum: nat
    var totalStages: nat
    var message: string

    constructor ()
      ensures status == Pending
    {
      status, error, stage, stageNum, totalStages, message := Pending, "", "", 0, 0, "";
    }

    method Start()
      modifies this`status, this`error
      ensures status == Running && error == ""
    {
      status, error := Running, "";
    }

    method SetStatus(s: Status, message: string)
      modifies this`status, this`error
      ensures status == s && error == message
    {
      status, error := s, message;
    }

    method ReportProgress(name: string, num: nat, total: nat, text: string)
      modifies this`stage, this`stageNum, this`totalStages, this`message
      ensures stage == name && stageNum == num && totalStages == total && message == text
    {
      stage, stageNum, totalStages, message := name, num, total, text;
    }
  }

  /** Runs the stages in order; ran lists those that were run. The pipeline is done exactly if every stage ran
      without ending it; otherwise it stops at the first cancellation noticed or required failure, and nothing
      runs after that. */
  method Run(job: Job, stages: seq<Stage>, turns: seq<Turn>) returns (r: Result<(), RunError>, ran: seq<nat>)
    requires |turns| == |stages|
    modifies job
    ensures ran == seq(|ran|, i => i) && |ran| <= |stages|
    ensures EndsAs(stages, turns, job.status, |ran|)
    ensures job.status == Done <==> PassesThrough(stages, turns, |stages|)
    ensures job.status == Done ==> r.Ok? && job.error == ""
    ensures job.status == Cancelled ==> r == Err(CancelledBefore(stages[|ran|].name)) && job.error == ""
    ensures job.status == Failed ==>
              && job.error == turns[|ran| - 1].outcome.message
              && r == Err(StageFailed(stages[|ran| - 1].name, job.error))
    ensures |ran| > 0 ==> job.stageNum == |ran| && job.totalStages == |stages| && job.stage == stages[|ran| - 1].name
  {
    job.SetStatus(Running, "");
    ran := [];
    for i := 0 to |stages|
      invariant ran == seq(i, j => j)
      invariant PassesThrough(stages, turns, i)
      invariant i > 0 ==> job.stageNum == i && job.totalStages == |stages| && job.stage == stages[i - 1].name
    {
      var s := stages[i];
      if turns[i].cancelled {
        job.SetStatus(Cancelled, "");
        return Err(CancelledBefore(s.name)), ran;
      }
      job.ReportProgress(s.name, i + 1, |stages|, "");
      ran := ran + [i];
      if turns[i].outcome.Error? {
        if s.optional {
          var skipped := "Optional stage " + s.name + " skipped: " + turns[i].outcome.message;
          job.ReportProgress(s.name, i + 1, |stages|, skipped);
          continue;
        }
        job.SetStatus(Failed, turns[i].outcome.message);
        return Err(StageFailed(s.name, turns[i].outcome.message)), ran;
      }
    }
    job.SetStatus(Done, "");
    r := Ok(());
  }
}
