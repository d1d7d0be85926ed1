/** Small clients of the workflow classes, each walking through one usage
    pattern and stating what the caller observes at the end. */
module Scenarios {
  import opened Wrappers
  import opened Workflow

  /** A step that was completed and then marked not complete is back to
      "started": still started, no longer complete. */
  method CompleteThenRevert() returns (started: bool, complete: bool, status: string)
    ensures started && !complete && status == STARTED
  {
    var step := new ProcessStep("intro", "Introduction");
    step.Complete();
    step.NotComplete();
    started, complete, status := step.isStarted, step.isComplete, step.StatusString();
  }

  /** The first step added to an empty process becomes current even when it
      is not added as active; adding it again changes neither the count nor
      the current step. */
  method FirstStepBecomesCurrent() returns (isCurrent: bool, total: nat)
    ensures isCurrent && total == 1
  {
    var process := new Process("signup", "Sign up", true);
    var step := new ProcessStep("intro", "Introduction");
    var _ := process.AddStep(step, 0, false);
    var _ := process.AddStep(step, 0, false);
    isCurrent := process.currentStep == step;
    total := process.TotalSteps();
  }

  /** Four steps added at the end, the first and third of them then completed. */
  method FourStepsTwoComplete() returns (process: Process)
    ensures process.TotalSteps() == 4 && process.StepsComplete() == 2
  {
    process := new Process("signup", "Sign up", true);
    var a := new ProcessStep("a", "A");
    var b := new ProcessStep("b", "B");
    var c := new ProcessStep("c", "C");
    var d := new ProcessStep("d", "D");
    var _ := process.AddStep(a, -1, false);
    var _ := process.AddStep(b, -1, false);
    var _ := process.AddStep(c, -1, false);
    var _ := process.AddStep(d, -1, false);
    a.Complete();
    c.Complete();
    var steps := process.steps;
    assert steps == [a, b, c, d];
    assert steps[..3] == [a, b, c];
    assert steps[..3][..2] == [a, b];
    assert steps[..3][..2][..1] == [a];
    assert [a][..0] == [];
    assert |Completed([a])| == 1;
    assert |Completed([a, b])| == 1;
    assert |Completed([a, b, c])| == 2;
  }

  lemma FiftyPercent()
    ensures Decimal.Show(RoundedPercent(2, 4)) + "%" == "50%"
  {
    assert RoundedPercent(2, 4) == 50;
    assert Decimal.Show(5) == "5";
  }

  /** Four steps of which two are complete report "50%". */
  method HalfComplete() returns (percent: string)
    ensures percent == "50%"
  {
    var process := FourStepsTwoComplete();
    FiftyPercent();
    percent := process.PercentComplete();
  }

  /** Two steps, "a" complete and "b" not. */
  method FirstOfTwoComplete() returns (process: Process)
    ensures |process.steps| == 2
    ensures process.steps[0].id == "a" && process.steps[0].isComplete
    ensures process.steps[1].id == "b" && !process.steps[1].isComplete
  {
    process := new Process("signup", "Sign up", false);
    var a := new ProcessStep("a", "A");
    var b := new ProcessStep("b", "B");
    var _ := process.AddStep(a, -1, false);
    var _ := process.AddStep(b, -1, false);
    a.Complete();
  }

  /** The subset check refuses an absent or empty list, refuses a list that
      names an incomplete step, and accepts one naming only complete steps. */
  method WhichStepsAreComplete() returns (absent: bool, empty: bool, mixed: bool, done: bool)
    ensures !absent && !empty && !mixed && done
  {
    var process := FirstOfTwoComplete();
    var steps := process.steps;
    assert "a" != "b";
    absent := process.AreTheseStepsComplete(None);
    empty := process.AreTheseStepsComplete(Some([]));
    var ids := ["a", "b"];
    assert ids[1] == "b";
    assert !exists i :: 0 <= i < |steps| && steps[i].isComplete && steps[i].id == ids[1];
    mixed := process.AreTheseStepsComplete(Some(ids));
    done := process.AreTheseStepsComplete(Some(["a"]));
  }

  /** Keyed export of one step with id "s1" and data {x: 1} into an empty
      wrapper gives {s1: {x: 1}}. */
  method KeyedExport() returns (obj: map<string, Json>)
    ensures obj == map["s1" := Obj(map["x" := Num(1)])]
  {
    var process := new Process("signup", "Sign up", false);
    var step := new ProcessStep("s1", "First");
    step.data := map["x" := Num(1)];
    var _ := process.AddStep(step, -1, true);
    obj := process.ToObject(Some(map[]));
    assert process.steps == [step];
    assert process.steps[..0] == [];
  }
}
