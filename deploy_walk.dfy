/** `subir_html_css_2.py`: stage every file the walk keeps with its own
    `git add`, then commit with a timestamped message, push, and show the
    address. */
module DeployWalk {
  import opened Process
  import opened RepoName
  import opened Pipeline
  import opened DirWalk

  const MessagePrefix: string := "Actualizaci\U{F3}n autom\U{E1}tica (push desde Termux) - "

  function CommitStep(timestamp: string): Step {
    Step(CommitArgv(Stamped(MessagePrefix, timestamp)),
         "Fallo al crear el commit (puede que no haya cambios nuevos).")
  }

  const PushStep: Step := Step(PushArgv, "Fallo al hacer push.")

  /** The commands of a run that stages `paths`, in order. */
  function Plan(paths: seq<string>, timestamp: string): seq<Step> {
    AddSteps(paths) + [CommitStep(timestamp), PushStep]
  }

  /** `main()`, given the working directory and the time stamp: the adds of
      every path the walk stages, then the closing stage. */
  method Upload(tree: Tree, git: Git, timestamp: string) returns (run: Run)
    ensures run == Finish(Plan(StagedPaths(".", tree), timestamp), git)
  {
    var staged := StageTree(".", tree, git);
    ghost var adds := AddSteps(StagedPaths(".", tree));
    if staged.exited {
      RunAppend(adds, [CommitStep(timestamp), PushStep], false, git);
      return Run(staged.events, Exited);
    }
    var rest := Conclude(CommitStep(timestamp), PushStep, git);
    FinishAfter(adds, [CommitStep(timestamp), PushStep], git);
    run := Run(staged.events + rest.log, rest.ending);
  }

  /** The commit runs exactly when every per-file add succeeded, so the
      first failing add exits before any commit; the push runs exactly when
      the commit succeeded too; the banner appears exactly when all of them
      succeeded, and otherwise the script exits with status 1. */
  lemma UploadGated(paths: seq<string>, git: Git, timestamp: string)
    ensures var r := Finish(Plan(paths, timestamp), git);
            var commit := CommitArgv(Stamped(MessagePrefix, timestamp));
            var addsSucceed := forall i :: 0 <= i < |paths| ==> Succeeds(git(AddArgv(paths[i])));
            && (commit in Execs(r.log) <==> addsSucceed)
            && (PushArgv in Execs(r.log) <==> addsSucceed && Succeeds(git(commit)))
            && (r.ending.Published? <==> addsSucceed && Succeeds(git(commit)) && Succeeds(git(PushArgv)))
            && (!r.ending.Published? ==> r.ending == Exited)
  {
    var steps := Plan(paths, timestamp);
    var n := |paths|;
    var commit := CommitArgv(Stamped(MessagePrefix, timestamp));
    assert |steps| == n + 2;
    assert forall i :: 0 <= i < n ==> steps[i].argv == AddArgv(paths[i]);
    assert steps[n].argv == commit && steps[n + 1].argv == PushArgv;
    assert ConfigArgv[1] != commit[1] by { assert ConfigArgv[1][2] != commit[1][2]; }
    StartedIffEarlierSucceed(steps, git, n);
    StartedIffEarlierSucceed(steps, git, n + 1);
    FinishStopsAtFirstFailure(steps, git);
    var all := forall i :: 0 <= i < |steps| ==> Succeeds(git(steps[i].argv));
    assert all <==> (forall i :: 0 <= i < n ==> Succeeds(git(AddArgv(paths[i]))))
                    && Succeeds(git(commit)) && Succeeds(git(PushArgv)) by {
      if (forall i :: 0 <= i < n ==> Succeeds(git(AddArgv(paths[i]))))
         && Succeeds(git(commit)) && Succeeds(git(PushArgv)) {
        forall i | 0 <= i < |steps| ensures Succeeds(git(steps[i].argv)) {
          if i < n {
            assert steps[i].argv == AddArgv(paths[i]);
          }
        }
      }
    }
  }
}
