/** The closing stage every deployment script shares: once its files are
    staged, commit, push, print the success banner and look up the remote to
    show the GitHub Pages address or the fallback advice. */
module Pipeline {
  import opened Process
  import opened RepoName

  /** How a run of a script ends. */
  datatype Ending =
    | Exited            // `sys.exit(1)` in `run_command`, or an uncaught exception: status 1
    | Cancelled         // the operator declined to go on with missing files
    | NothingToCommit   // `git status --porcelain` reported nothing
    | Published(page: Option<string>)  // the success banner; the address when one is shown

  /** Everything a run leaves behind: its events in order and how it ended. */
  datatype Run = Run(log: seq<Event>, ending: Ending)

  const PushArgv: seq<string> := ["git", "push"]

  function CommitArgv(message: string): seq<string> {
    ["git", "commit", "-m", message]
  }

  /** `f"{prefix}{timestamp}"`, the commit message of every script. */
  function Stamped(prefix: string, timestamp: string): string {
    prefix + timestamp
  }

  /** Distinct timestamps give distinct commit messages. */
  lemma StampedInjective(prefix: string, t1: string, t2: string)
    requires Stamped(prefix, t1) == Stamped(prefix, t2)
    ensures t1 == t2
  {
    assert t1 == Stamped(prefix, t1)[|prefix|..];
  }

  /** Strict `run_command` steps, then (only if none exited) the banner and
      the remote lookup, which never ends the process. */
  function Finish(steps: seq<Step>, git: Git): (r: Run)
    ensures r.ending == Exited || r.ending.Published?
    ensures r.ending.Published? ==> r.log != [] && r.log[|r.log| - 1] == Exec(ConfigArgv)
  {
    var s := RunStrict(steps, git);
    if s.exited then Run(s.events, Exited)
    else Run(s.events + [Exec(ConfigArgv)], Published(PageUrl(GetRepoName(git(ConfigArgv)))))
  }

  /** Commit, push, then report the address. */
  method Conclude(commit: Step, push: Step, git: Git) returns (run: Run)
    ensures run == Finish([commit, push], git)
  {
    ChainCons([commit, push], false, git);
    assert [commit, push][1..] == [push];
    ChainCons([push], false, git);
    assert [push][1..] == [];
    var c := RunCommand(commit.argv, commit.errorMessage, false, git(commit.argv));
    if c.verdict == Fatal {
      return Run(c.events, Exited);
    }
    var p := RunCommand(push.argv, push.errorMessage, false, git(push.argv));
    if p.verdict == Fatal {
      return Run(c.events + p.events, Exited);
    }
    assert p.events + [] == p.events;
    var name := GetRepoName(git(ConfigArgv));
    run := Run(c.events + p.events + [Exec(ConfigArgv)], Published(PageUrl(name)));
  }

  /** Steps run before the closing stage only prefix its log, unless they
      ended the process. */
  lemma FinishAfter(pre: seq<Step>, rest: seq<Step>, git: Git)
    requires !RunStrict(pre, git).exited
    ensures Finish(pre + rest, git)
            == Run(RunStrict(pre, git).events + Finish(rest, git).log, Finish(rest, git).ending)
  {
    RunAppend(pre, rest, false, git);
  }

  /** A run exits with status 1 exactly when one of its commands fails, and
      then it has attempted the commands up to that one and nothing more; a run
      whose commands all succeed shows the banner, looks up the remote last,
      and reports the address derived from that lookup. */
  lemma FinishStopsAtFirstFailure(steps: seq<Step>, git: Git)
    ensures var r := Finish(steps, git);
            var k := FirstFailure(steps, git);
            && (r.ending == Exited <==> exists i :: 0 <= i < |steps| && !Succeeds(git(steps[i].argv)))
            && (k < |steps| ==> r.ending == Exited && Execs(r.log) == Argvs(steps[..k + 1]))
            && (k == |steps| ==> r.ending == Published(PageUrl(GetRepoName(git(ConfigArgv))))
                                 && Execs(r.log) == Argvs(steps) + [ConfigArgv])
  {
    StrictStopsAtFirstFailure(steps, git);
    var s := RunStrict(steps, git);
    var k := FirstFailure(steps, git);
    if k < |steps| {
      assert !Succeeds(git(steps[k].argv));
    } else {
      ExecsAppend(s.events, [Exec(ConfigArgv)]);
      assert Execs([Exec(ConfigArgv)]) == [ConfigArgv] by {
        assert [Exec(ConfigArgv)][1..] == [];
      }
      assert steps[..|steps|] == steps;
    }
  }

  /** A command that occurs once in a run's plan, and is not the remote
      lookup, is attempted exactly when every command planned before it
      succeeded. */
  lemma StartedIffEarlierSucceed(steps: seq<Step>, git: Git, j: nat)
    requires j < |steps|
    requires forall i :: 0 <= i < |steps| && i != j ==> steps[i].argv != steps[j].argv
    requires steps[j].argv != ConfigArgv
    ensures steps[j].argv in Execs(Finish(steps, git).log)
            <==> forall i :: 0 <= i < j ==> Succeeds(git(steps[i].argv))
  {
    FinishStopsAtFirstFailure(steps, git);
    var k := FirstFailure(steps, git);
    var n := if k < |steps| then k + 1 else k;
    var started := Argvs(steps[..n]);
    assert Execs(Finish(steps, git).log) == if k < |steps| then started else started + [ConfigArgv];
    assert steps[j].argv in started <==> j < n by {
      if j < n {
        assert started[j] == steps[j].argv;
      }
      if steps[j].argv in started {
        var i :| 0 <= i < |started| && started[i] == steps[j].argv;
        assert steps[i].argv == steps[j].argv;
      }
    }
  }

  /** One strict staging command, then commit, push and the address. */
  method AddThenConclude(add: Step, commit: Step, push: Step, git: Git) returns (run: Run)
    ensures run == Finish([add, commit, push], git)
  {
    assert [add, commit, push] == [add] + [commit, push];
    ChainCons([add, commit, push], false, git);
    ChainCons([add], false, git);
    assert [add][1..] == [];
    var a := RunCommand(add.argv, add.errorMessage, false, git(add.argv));
    if a.verdict == Fatal {
      return Run(a.events, Exited);
    }
    assert a.events + [] == a.events;
    var rest := Conclude(commit, push, git);
    run := Run(a.events + rest.log, rest.ending);
    FinishAfter([add], [commit, push], git);
  }

  /** In a plan of three distinct commands, the second is attempted only after the
      first succeeded, the third only after both did; the success banner and
      the remote lookup follow exactly when all three succeeded, and the
      page shown is the one that lookup derives (none for a remote that is
      not a Pages site). */
  lemma ThreeStepsGated(add: Step, commit: Step, push: Step, git: Git)
    requires add.argv != commit.argv && add.argv != push.argv && commit.argv != push.argv
    requires add.argv != ConfigArgv && commit.argv != ConfigArgv && push.argv != ConfigArgv
    ensures var r := Finish([add, commit, push], git);
            && (add.argv in Execs(r.log))
            && (commit.argv in Execs(r.log) <==> Succeeds(git(add.argv)))
            && (push.argv in Execs(r.log) <==> Succeeds(git(add.argv)) && Succeeds(git(commit.argv)))
            && (r.ending.Published?
                <==> Succeeds(git(add.argv)) && Succeeds(git(commit.argv)) && Succeeds(git(push.argv)))
            && (r.ending.Published? ==> r.ending.page == PageUrl(GetRepoName(git(ConfigArgv))))
            && (r.ending.Published? || r.ending == Exited)
  {
    var steps := [add, commit, push];
    StartedIffEarlierSucceed(steps, git, 0);
    StartedIffEarlierSucceed(steps, git, 1);
    StartedIffEarlierSucceed(steps, git, 2);
    FinishStopsAtFirstFailure(steps, git);
  }

  /** Commit then push: the commit is always attempted, the push exactly
      when the commit succeeded; the success banner and the remote lookup
      follow exactly when both succeeded, and the page shown is the one
      that lookup derives. */
  lemma TwoStepsGated(commit: Step, push: Step, git: Git)
    requires commit.argv != push.argv
    requires commit.argv != ConfigArgv && push.argv != ConfigArgv
    ensures var r := Finish([commit, push], git);
            && commit.argv in Execs(r.log)
            && (push.argv in Execs(r.log) <==> Succeeds(git(commit.argv)))
            && (r.ending.Published? <==> Succeeds(git(commit.argv)) && Succeeds(git(push.argv)))
            && (r.ending.Published? ==> r.ending.page == PageUrl(GetRepoName(git(ConfigArgv))))
            && (r.ending.Published? || r.ending == Exited)
  {
    var steps := [commit, push];
    StartedIffEarlierSucceed(steps, git, 0);
    StartedIffEarlierSucceed(steps, git, 1);
    FinishStopsAtFirstFailure(steps, git);
  }
}
