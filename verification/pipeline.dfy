/** The pipeline driver: a pre-flight existence check over an ordered list
    of scripts, then a run of each script in order that stops at the first
    failure. Running a script is an oracle that reports how the child
    process ended. */
module Pipeline {

  /** How one child process ended: it exited with a return code, it ran
      past the five-minute timeout, or starting it raised an exception. */
  datatype ProcessOutcome = Exited(code: int) | TimedOut | Raised

  /** `run_script`: success exactly when the process exited with code 0. */
  function RunScript(outcome: ProcessOutcome): (ok: bool)
    ensures ok <==> outcome == Exited(0)
  {
    match outcome
    case Exited(code) => code == 0
    case TimedOut => false
    case Raised => false
  }

  /** The scripts `main` runs, in order. */
  const PipelineScripts: seq<string> := [
    "src/01_ibov_scraper.py",
    "src/02_csv_to_parquet_glue.py",
    "src/03_s3_client.py",
    "src/04_cleanup_data.py"
  ]

  /** The listed scripts that do not exist, in list order. */
  function Missing(scripts: seq<string>, present: set<string>): (r: seq<string>)
    ensures |r| <= |scripts|
    ensures r == [] <==> forall i :: 0 <= i < |scripts| ==> scripts[i] in present
    ensures forall k :: 0 <= k < |r| ==> r[k] in scripts && r[k] !in present
  {
    if scripts == [] then []
    else if scripts[0] in present then Missing(scripts[1..], present)
    else [scripts[0]] + Missing(scripts[1..], present)
  }

  lemma {:induction false} MissingAppend(scripts: seq<string>, s: string, present: set<string>)
    ensures Missing(scripts + [s], present)
         == Missing(scripts, present) + (if s in present then [] else [s])
  {
    if scripts != [] {
      assert (scripts + [s])[1..] == scripts[1..] + [s];
      MissingAppend(scripts[1..], s, present);
    } else {
      assert [s][1..] == [];
    }
  }

  /** What `main` reports: the missing scripts, how many scripts it
      started, how many succeeded, which failed, and its return value. */
  datatype Report = Report(
    missing: seq<string>,
    started: nat,
    successCount: nat,
    failedScripts: seq<string>,
    ok: bool)

  /** `main`: `present` is the set of scripts that exist on disk, and
      `outcome(i)` is how the i-th script's process ends if it is run. */
  method RunPipeline(scripts: seq<string>, present: set<string>, outcome: nat -> ProcessOutcome)
    returns (report: Report)
    ensures report.missing == Missing(scripts, present)
    ensures report.missing != [] ==>
      report.started == 0 && report.successCount == 0 && report.failedScripts == []
    ensures report.successCount <= report.started <= |scripts|
    ensures |report.failedScripts| <= 1
    ensures report.started == report.successCount + |report.failedScripts|
    ensures forall i :: 0 <= i < report.successCount ==> RunScript(outcome(i))
    ensures report.missing == [] && report.successCount < |scripts| ==>
      !RunScript(outcome(report.successCount))
      && report.failedScripts == [scripts[report.successCount]]
    ensures report.ok <==> report.missing == [] && report.failedScripts == []
    ensures report.ok <==>
      report.missing == [] && forall i :: 0 <= i < |scripts| ==> RunScript(outcome(i))
  {
    var missing: seq<string> := [];
    var j := 0;
    while j < |scripts|
      invariant 0 <= j <= |scripts|
      invariant missing == Missing(scripts[..j], present)
    {
      assert scripts[..j + 1] == scripts[..j] + [scripts[j]];
      MissingAppend(scripts[..j], scripts[j], present);
      if scripts[j] !in present {
        missing := missing + [scripts[j]];
      }
      j := j + 1;
    }
    assert scripts[..j] == scripts;
    if missing != [] {
      return Report(missing, 0, 0, [], false);
    }

    var successCount := 0;
    var failedScripts: seq<string> := [];
    var i := 0;
    while i < |scripts|
      invariant 0 <= i <= |scripts|
      invariant successCount == i
      invariant failedScripts == []
      invariant forall k :: 0 <= k < i ==> RunScript(outcome(k))
    {
      if RunScript(outcome(i)) {
        successCount := successCount + 1;
      } else {
        failedScripts := failedScripts + [scripts[i]];
        break;
      }
      i := i + 1;
    }
    report := Report(missing, successCount + |failedScripts|, successCount, failedScripts,
                     failedScripts == []);
  }

  /** With every script present and every run exiting with 0, all four
      pipeline stages run and the pipeline succeeds; if the second stage
      times out, only the first two are started and the rest never run. */
  method PipelineScenarios() returns (allOk: Report, secondTimesOut: Report)
    ensures allOk.ok && allOk.successCount == 4
    ensures !secondTimesOut.ok && secondTimesOut.started == 2
    ensures secondTimesOut.failedScripts == ["src/02_csv_to_parquet_glue.py"]
  {
    var present := set s | s in PipelineScripts;
    allOk := RunPipeline(PipelineScripts, present, _ => Exited(0));
    var second: nat -> ProcessOutcome := i => if i == 1 then TimedOut else Exited(0);
    secondTimesOut := RunPipeline(PipelineScripts, present, second);
    assert secondTimesOut.missing == [];
    assert !RunScript(second(1));
    assert RunScript(second(0));
    assert secondTimesOut.successCount == 1;
  }
}
