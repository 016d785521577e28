/** `back_py/subir_html_css_icon.py`: check the essential site files, ask
    whether to go on when some are missing, add the files of a fixed list of
    glob patterns and resource folders (a failing add only warns), stop when
    `git status --porcelain` shows nothing, then commit, push and report the
    address. */
module DeployIcons {
  import opened PyStr
  import opened Process
  import opened RepoName
  import opened Pipeline

  /** The files the site needs, in the order they are checked. */
  const EssentialFiles: seq<string> := [
    "index.html",
    "site.webmanifest",
    "favicon.ico",
    "favicon-16x16.png",
    "favicon-32x32.png",
    "apple-touch-icon.png",
    "android-chrome-192x192.png",
    "android-chrome-512x512.png"
  ]

  /** The names of `names` that are not in `present`, in the order of
      `names`: the `faltantes` list. */
  function MissingFrom(names: seq<string>, present: set<string>): (missing: seq<string>)
    ensures |missing| <= |names|
    ensures forall x :: x in missing ==> x in names && x !in present
  {
    if names == [] then []
    else
      var last := names[|names| - 1];
      MissingFrom(names[..|names| - 1], present) + (if last in present then [] else [last])
  }

  /** A name is reported missing exactly when it is one of the checked names
      and does not exist. */
  lemma {:induction false} MissingFromIff(names: seq<string>, present: set<string>, x: string)
    ensures x in MissingFrom(names, present) <==> x in names && x !in present
  {
    if names != [] {
      var init := names[..|names| - 1];
      var last := names[|names| - 1];
      MissingFromIff(init, present, x);
      assert names == init + [last];
    }
  }

  /** Nothing is missing exactly when every checked name exists. */
  lemma MissingFromEmptyIff(names: seq<string>, present: set<string>)
    ensures MissingFrom(names, present) == [] <==> forall x :: x in names ==> x in present
  {
    var missing := MissingFrom(names, present);
    if missing != [] {
      MissingFromIff(names, present, missing[0]);
    }
    if x :| x in names && x !in present {
      MissingFromIff(names, present, x);
    }
  }

  /** `verificar_archivos_esenciales()`: one existence test per essential
      file, collecting the missing ones; True when none is missing. */
  method CheckEssentialFiles(present: set<string>) returns (allPresent: bool, missing: seq<string>)
    ensures missing == MissingFrom(EssentialFiles, present)
    ensures allPresent <==> forall name :: name in EssentialFiles ==> name in present
  {
    var names := EssentialFiles;
    missing := [];
    for i := 0 to |names|
      invariant missing == MissingFrom(names[..i], present)
    {
      assert names[..i + 1][..i] == names[..i];
      if names[i] !in present {
        missing := missing + [names[i]];
      }
    }
    assert names[..|names|] == names;
    allPresent := |missing| == 0;
    MissingFromEmptyIff(names, present);
  }

  /** The answers that mean "go on", after lower-casing. */
  const ConfirmWords: seq<string> := ["s", "si", "y", "yes"]

  /** `respuesta.lower() in ['s', 'si', 'y', 'yes']`. */
  predicate Confirms(answer: string): (r: bool)
    ensures r ==> 1 <= |answer| <= 3
  {
    Lower(answer) in ConfirmWords
  }

  /** Every spelling of the four words, in any mix of cases. */
  const AcceptedAnswers: set<string> := {
    "s", "S",
    "si", "sI", "Si", "SI",
    "y", "Y",
    "yes", "yeS", "yEs", "yES", "Yes", "YeS", "YEs", "YES"
  }

  lemma LowerCharIs(c: char, l: char)
    requires 'a' <= l <= 'z'
    ensures LowerChar(c) == l <==> c == l || c == (l as int - 32) as char
  {
  }

  /** The operator goes on exactly for the sixteen spellings of "s", "si",
      "y" and "yes"; any other answer (the empty one, "no", " s", "sí")
      cancels. */
  lemma ConfirmsExactly(answer: string)
    ensures Confirms(answer) <==> answer in AcceptedAnswers
  {
    var l := Lower(answer);
    if |answer| == 1 {
      LowerCharIs(answer[0], 's');
      LowerCharIs(answer[0], 'y');
      assert answer == [answer[0]] && l == [l[0]];
    } else if |answer| == 2 {
      LowerCharIs(answer[0], 's');
      LowerCharIs(answer[1], 'i');
      assert answer == [answer[0], answer[1]] && l == [l[0], l[1]];
    } else if |answer| == 3 {
      LowerCharIs(answer[0], 'y');
      LowerCharIs(answer[1], 'e');
      LowerCharIs(answer[2], 's');
      assert answer == [answer[0], answer[1], answer[2]] && l == [l[0], l[1], l[2]];
    } else {
      assert forall w :: w in ConfirmWords ==> |w| != |l|;
      assert forall w :: w in AcceptedAnswers ==> |w| != |answer|;
    }
  }

  /** The glob patterns added one by one, in order. */
  const FilePatterns: seq<string> :=
    ["*.html", "*.css", "*.js", "*.png", "*.ico", "*.xml", "*.webmanifest", "*.json", "*.txt"]

  /** The resource folders added when they exist, in order. */
  const AdditionalFolders: seq<string> := ["images/", "img/", "icons/", "assets/", "resources/", "css/", "js/"]

  /** `glob.glob`: the files a pattern matches in the working directory. */
  type Glob = string -> seq<string>

  function PatternStep(pattern: string): Step {
    Step(AddArgv(pattern), "Fallo al agregar los archivos " + pattern + ".")
  }

  function FolderStep(folder: string): Step {
    Step(AddArgv(folder + "*"), "Fallo al agregar archivos en " + folder)
  }

  /** A `git add` of one argument. */
  predicate IsAdd(step: Step) {
    |step.argv| == 3 && step.argv[0] == "git" && step.argv[1] == "add"
  }

  /** One add per pattern that matches at least one file, in order. */
  function PatternSteps(patterns: seq<string>, glob: Glob): (r: seq<Step>)
    ensures |r| <= |patterns|
    ensures forall i :: 0 <= i < |r| ==> IsAdd(r[i])
  {
    if patterns == [] then []
    else
      var last := patterns[|patterns| - 1];
      PatternSteps(patterns[..|patterns| - 1], glob) + (if glob(last) != [] then [PatternStep(last)] else [])
  }

  /** One add per folder that exists, in order. */
  function FolderSteps(folders: seq<string>, present: set<string>): (r: seq<Step>)
    ensures |r| <= |folders|
    ensures forall i :: 0 <= i < |r| ==> IsAdd(r[i])
  {
    if folders == [] then []
    else
      var last := folders[|folders| - 1];
      FolderSteps(folders[..|folders| - 1], present) + (if last in present then [FolderStep(last)] else [])
  }

  /** A pattern gets an add exactly when it matches at least one file. */
  lemma {:induction false} PatternStepsIff(patterns: seq<string>, glob: Glob, s: Step)
    ensures s in PatternSteps(patterns, glob)
            <==> exists p :: p in patterns && glob(p) != [] && s == PatternStep(p)
    decreases |patterns|
  {
    if patterns != [] {
      var init, last := patterns[..|patterns| - 1], patterns[|patterns| - 1];
      assert patterns == init + [last];
      PatternStepsIff(init, glob, s);
    }
  }

  /** A folder gets an add exactly when it exists. */
  lemma {:induction false} FolderStepsIff(folders: seq<string>, present: set<string>, s: Step)
    ensures s in FolderSteps(folders, present)
            <==> exists f :: f in folders && f in present && s == FolderStep(f)
    decreases |folders|
  {
    if folders != [] {
      var init, last := folders[..|folders| - 1], folders[|folders| - 1];
      assert folders == init + [last];
      FolderStepsIff(init, present, s);
    }
  }

  /** Different patterns give different adds. */
  lemma PatternStepsDiffer(p: string, q: string)
    requires p != q
    ensures PatternStep(p) != PatternStep(q)
  {
    assert PatternStep(p).argv[2] == p;
    assert PatternStep(q).argv[2] == q;
  }

  /** Different folders give different adds. */
  lemma FolderStepsDiffer(f: string, g: string)
    requires f != g
    ensures FolderStep(f) != FolderStep(g)
  {
    var a, b := FolderStep(f).argv[2], FolderStep(g).argv[2];
    assert a == f + "*" && b == g + "*";
    if |f| == |g| {
      assert a[..|f|] == f && b[..|g|] == g;
    } else {
      assert |a| != |b|;
    }
  }

  /** Over a list without repetitions (the script's own lists), each
      pattern is added at most once. */
  lemma {:induction false} PatternStepsOnce(patterns: seq<string>, glob: Glob)
    requires forall i, j :: 0 <= i < j < |patterns| ==> patterns[i] != patterns[j]
    ensures var r := PatternSteps(patterns, glob);
            forall i, j :: 0 <= i < j < |r| ==> r[i] != r[j]
    decreases |patterns|
  {
    if patterns != [] {
      var init, last := patterns[..|patterns| - 1], patterns[|patterns| - 1];
      PatternStepsOnce(init, glob);
      var r0 := PatternSteps(init, glob);
      forall i | 0 <= i < |r0|
        ensures r0[i] != PatternStep(last)
      {
        PatternStepsIff(init, glob, r0[i]);
        var p :| p in init && glob(p) != [] && r0[i] == PatternStep(p);
        var k :| 0 <= k < |init| && init[k] == p;
        assert patterns[k] == p;
        PatternStepsDiffer(p, last);
      }
    }
  }

  /** Over a list without repetitions, each folder is added at most once. */
  lemma {:induction false} FolderStepsOnce(folders: seq<string>, present: set<string>)
    requires forall i, j :: 0 <= i < j < |folders| ==> folders[i] != folders[j]
    ensures var r := FolderSteps(folders, present);
            forall i, j :: 0 <= i < j < |r| ==> r[i] != r[j]
    decreases |folders|
  {
    if folders != [] {
      var init, last := folders[..|folders| - 1], folders[|folders| - 1];
      FolderStepsOnce(init, present);
      var r0 := FolderSteps(init, present);
      forall i | 0 <= i < |r0|
        ensures r0[i] != FolderStep(last)
      {
        FolderStepsIff(init, present, r0[i]);
        var f :| f in init && f in present && r0[i] == FolderStep(f);
        var k :| 0 <= k < |init| && init[k] == f;
        assert folders[k] == f;
        FolderStepsDiffer(f, last);
      }
    }
  }

  /** In the script's own lists no pattern and no folder repeats, so the
      script adds each at most once. */
  lemma ScriptAddsOnce(glob: Glob, present: set<string>)
    ensures var r := PatternSteps(FilePatterns, glob);
            forall i, j :: 0 <= i < j < |r| ==> r[i] != r[j]
    ensures var r := FolderSteps(AdditionalFolders, present);
            forall i, j :: 0 <= i < j < |r| ==> r[i] != r[j]
  {
    forall i, j | 0 <= i < j < |FilePatterns|
      ensures FilePatterns[i] != FilePatterns[j]
    {
      assert FilePatterns[i][2] != FilePatterns[j][2] || FilePatterns[i][3] != FilePatterns[j][3]
             || |FilePatterns[i]| != |FilePatterns[j]|;
    }
    PatternStepsOnce(FilePatterns, glob);
    forall i, j | 0 <= i < j < |AdditionalFolders|
      ensures AdditionalFolders[i] != AdditionalFolders[j]
    {
      assert AdditionalFolders[i][0] != AdditionalFolders[j][0] || AdditionalFolders[i][1] != AdditionalFolders[j][1]
             || |AdditionalFolders[i]| != |AdditionalFolders[j]|;
    }
    FolderStepsOnce(AdditionalFolders, present);
  }

  /** The files the patterns match, counted per pattern. */
  function Matched(patterns: seq<string>, glob: Glob): nat {
    if patterns == [] then 0
    else Matched(patterns[..|patterns| - 1], glob) + |glob(patterns[|patterns| - 1])|
  }

  /** `archivos_agregados` after the pattern loop: the matches of each
      pattern whose add succeeded. */
  function Added(patterns: seq<string>, glob: Glob, git: Git): (n: nat)
    ensures n <= Matched(patterns, glob)
  {
    if patterns == [] then 0
    else
      var last := patterns[|patterns| - 1];
      Added(patterns[..|patterns| - 1], glob, git)
      + (if glob(last) != [] && Succeeds(git(AddArgv(last))) then |glob(last)| else 0)
  }

  /** The counter never exceeds the number of matched files, and reaches it
      exactly when the add of every pattern with a match succeeded. */
  lemma {:induction false} AddedCountsSuccessfulAdds(patterns: seq<string>, glob: Glob, git: Git)
    ensures Added(patterns, glob, git) <= Matched(patterns, glob)
    ensures Added(patterns, glob, git) == Matched(patterns, glob)
            <==> forall i :: 0 <= i < |patterns| && glob(patterns[i]) != [] ==> Succeeds(git(AddArgv(patterns[i])))
  {
    if patterns != [] {
      var init := patterns[..|patterns| - 1];
      AddedCountsSuccessfulAdds(init, glob, git);
      assert forall i :: 0 <= i < |init| ==> init[i] == patterns[i];
    }
  }

  /** The counter stays 0 exactly when no pattern both matched a file and
      was added: the case of "No se encontraron archivos nuevos". */
  lemma {:induction false} AddedZeroIff(patterns: seq<string>, glob: Glob, git: Git)
    ensures Added(patterns, glob, git) == 0
            <==> forall i :: 0 <= i < |patterns| ==> glob(patterns[i]) == [] || !Succeeds(git(AddArgv(patterns[i])))
  {
    if patterns != [] {
      var init := patterns[..|patterns| - 1];
      AddedZeroIff(init, glob, git);
      assert forall i :: 0 <= i < |init| ==> init[i] == patterns[i];
    }
  }

  lemma {:induction false} PatternStepsPrefix(patterns: seq<string>, glob: Glob, m: nat)
    requires m <= |patterns|
    ensures PatternSteps(patterns[..m], glob) <= PatternSteps(patterns, glob)
    decreases |patterns| - m
  {
    if m < |patterns| {
      var init := patterns[..|patterns| - 1];
      PatternStepsPrefix(init, glob, m);
      assert init[..m] == patterns[..m];
    } else {
      assert patterns[..m] == patterns;
    }
  }

  lemma {:induction false} FolderStepsPrefix(folders: seq<string>, present: set<string>, m: nat)
    requires m <= |folders|
    ensures FolderSteps(folders[..m], present) <= FolderSteps(folders, present)
    decreases |folders| - m
  {
    if m < |folders| {
      var init := folders[..|folders| - 1];
      FolderStepsPrefix(init, present, m);
      assert init[..m] == folders[..m];
    } else {
      assert folders[..m] == folders;
    }
  }

  /** The pattern loop: for each pattern with a match, a lenient add; the
      counter grows by the number of matches when the add succeeded. */
  method StagePatterns(patterns: seq<string>, glob: Glob, git: Git) returns (stage: Stage, added: nat)
    ensures stage == RunLenient(PatternSteps(patterns, glob), git)
    ensures !stage.exited ==> added == Added(patterns, glob, git)
  {
    var events: seq<Event> := [];
    added := 0;
    for i := 0 to |patterns|
      invariant RunLenient(PatternSteps(patterns[..i], glob), git) == Stage(events, false)
      invariant added == Added(patterns[..i], glob, git)
    {
      ghost var before := PatternSteps(patterns[..i], glob);
      assert patterns[..i + 1][..i] == patterns[..i];
      var files := glob(patterns[i]);
      if files != [] {
        var step := PatternStep(patterns[i]);
        var c := RunCommand(step.argv, step.errorMessage, true, git(step.argv));
        RunSnoc(before, step, true, git);
        RunCommandVerdict(step.argv, step.errorMessage, true, git(step.argv));
        if c.verdict == Fatal {
          PatternStepsPrefix(patterns, glob, i + 1);
          ChainExitedPrefix(before + [step], PatternSteps(patterns, glob), true, git);
          return Stage(events + c.events, true), added;
        }
        if c.verdict == Succeeded {
          added := added + |files|;
        }
        events := events + c.events;
      } else {
        assert before + [] == before;
      }
    }
    assert patterns[..|patterns|] == patterns;
    stage := Stage(events, false);
  }

  /** The folder loop: a lenient add of `<folder>*` for each folder that
      exists; it never touches the counter. */
  method StageFolders(folders: seq<string>, present: set<string>, git: Git) returns (stage: Stage)
    ensures stage == RunLenient(FolderSteps(folders, present), git)
  {
    var events: seq<Event> := [];
    for i := 0 to |folders|
      invariant RunLenient(FolderSteps(folders[..i], present), git) == Stage(events, false)
    {
      ghost var before := FolderSteps(folders[..i], present);
      assert folders[..i + 1][..i] == folders[..i];
      if folders[i] in present {
        var step := FolderStep(folders[i]);
        var c := RunCommand(step.argv, step.errorMessage, true, git(step.argv));
        RunSnoc(before, step, true, git);
        if c.verdict == Fatal {
          FolderStepsPrefix(folders, present, i + 1);
          ChainExitedPrefix(before + [step], FolderSteps(folders, present), true, git);
          return Stage(events + c.events, true);
        }
        events := events + c.events;
      } else {
        assert before + [] == before;
      }
    }
    assert folders[..|folders|] == folders;
    stage := Stage(events, false);
  }

  /** Every add the script may make before the status check, in order. */
  function StagingPlan(present: set<string>, glob: Glob): (plan: seq<Step>)
    ensures forall i :: 0 <= i < |plan| ==> IsAdd(plan[i])
  {
    PatternSteps(FilePatterns, glob) + FolderSteps(AdditionalFolders, present)
  }

  const StatusArgv: seq<string> := ["git", "status", "--porcelain"]

  const MessagePrefix: string := "Actualizaci\U{F3}n completa del sitio - "

  function CommitStep(timestamp: string): Step {
    Step(CommitArgv(Stamped(MessagePrefix, timestamp)), "Fallo al crear el commit.")
  }

  const PushStep: Step := Step(PushArgv, "Fallo al subir los cambios (push) al repositorio remoto.")

  /** The operator is asked, and declined: some essential file is missing
      and the answer is not a yes. */
  predicate Declined(present: set<string>, answer: string) {
    MissingFrom(EssentialFiles, present) != [] && !Confirms(answer)
  }

  /** A run of the script. The status check is a plain `subprocess.run`
      without `check=True`: its exit status is ignored, only its stripped
      output decides, and a missing git there is an uncaught exception. */
  function Deploy(present: set<string>, glob: Glob, answer: string, git: Git, timestamp: string): (r: Run)
    ensures r.ending == Cancelled <==> Declined(present, answer)
    ensures r.ending == NothingToCommit ==> git(StatusArgv).Completed?
  {
    if Declined(present, answer) then Run([], Cancelled)
    else
      var staged := RunLenient(StagingPlan(present, glob), git);
      if staged.exited then Run(staged.events, Exited)
      else
        var log := staged.events + [Exec(StatusArgv)];
        var status := git(StatusArgv);
        if status.NotFound? then Run(log, Exited)
        else if Strip(status.stdout) == [] then Run(log, NothingToCommit)
        else
          var rest := Finish([CommitStep(timestamp), PushStep], git);
          Run(log + rest.log, rest.ending)
  }

  /** `main()` of the script, given the files that exist, what each pattern
      matches, the operator's answer, the outcomes of the git commands and
      the timestamp. `added` is the final `archivos_agregados`. */
  method Upload(present: set<string>, glob: Glob, answer: string, git: Git, timestamp: string)
    returns (run: Run, added: nat)
    ensures run == Deploy(present, glob, answer, git, timestamp)
    ensures run.ending == Cancelled ==> added == 0
    ensures run.ending != Cancelled && !RunLenient(PatternSteps(FilePatterns, glob), git).exited
            ==> added == Added(FilePatterns, glob, git)
  {
    var allPresent, missing := CheckEssentialFiles(present);
    MissingFromEmptyIff(EssentialFiles, present);
    if !allPresent && !Confirms(answer) {
      return Run([], Cancelled), 0;
    }
    var patterns;
    patterns, added := StagePatterns(FilePatterns, glob, git);
    RunAppend(PatternSteps(FilePatterns, glob), FolderSteps(AdditionalFolders, present), true, git);
    if patterns.exited {
      return Run(patterns.events, Exited), added;
    }
    var folders := StageFolders(AdditionalFolders, present, git);
    var staged := patterns.events + folders.events;
    if folders.exited {
      return Run(staged, Exited), added;
    }
    var log := staged + [Exec(StatusArgv)];
    var status := git(StatusArgv);
    if status.NotFound? {
      return Run(log, Exited), added;
    }
    if Strip(status.stdout) == [] {
      return Run(log, NothingToCommit), added;
    }
    var rest := Conclude(CommitStep(timestamp), PushStep, git);
    run := Run(log + rest.log, rest.ending);
  }

  /** The commands a run that got past the gate attempts: a prefix of the
      adds, then the status check when no add ended the process. */
  lemma StagedCommands(present: set<string>, glob: Glob, git: Git) returns (n: nat)
    ensures var plan := StagingPlan(present, glob);
            n <= |plan|
            && Execs(RunLenient(plan, git).events) == Argvs(plan[..n])
            && forall a :: a in Argvs(plan[..n]) ==> |a| == 3 && a[1] == "add"
  {
    var plan := StagingPlan(present, glob);
    n := ChainStartsPrefix(plan, true, git);
    forall a | a in Argvs(plan[..n]) ensures |a| == 3 && a[1] == "add" {
      var i :| 0 <= i < n && Argvs(plan[..n])[i] == a;
      assert a == plan[i].argv && IsAdd(plan[i]);
    }
  }

  /** Cancelling happens exactly when an essential file is missing and the
      answer is not a yes, and then no git command at all is attempted. */
  lemma CancelStartsNothing(present: set<string>, glob: Glob, answer: string, git: Git, timestamp: string)
    ensures var r := Deploy(present, glob, answer, git, timestamp);
            && (r.ending == Cancelled
                <==> (exists name :: name in EssentialFiles && name !in present) && answer !in AcceptedAnswers)
            && (r.ending == Cancelled ==> r.log == [])
  {
    MissingFromEmptyIff(EssentialFiles, present);
    ConfirmsExactly(answer);
    var r := Deploy(present, glob, answer, git, timestamp);
    if !Declined(present, answer) {
      var staged := RunLenient(StagingPlan(present, glob), git);
      if !staged.exited && git(StatusArgv).Completed? && Strip(git(StatusArgv).stdout) != [] {
        var rest := Finish([CommitStep(timestamp), PushStep], git);
        assert rest.ending != Cancelled;
      }
    }
  }

  /** The run gets as far as the commit: it was not cancelled, no add ended
      the process, and the status check listed changes. */
  predicate ReachesCommit(present: set<string>, glob: Glob, answer: string, git: Git) {
    && !Declined(present, answer)
    && !RunLenient(StagingPlan(present, glob), git).exited
    && git(StatusArgv).Completed? && Strip(git(StatusArgv).stdout) != []
  }

  /** Events up to and including the status check, when the run gets there. */
  lemma StatusChecked(present: set<string>, glob: Glob, git: Git, timestamp: string)
    requires !RunLenient(StagingPlan(present, glob), git).exited
    ensures var log := RunLenient(StagingPlan(present, glob), git).events + [Exec(StatusArgv)];
            && StatusArgv in Execs(log)
            && CommitStep(timestamp).argv !in Execs(log)
            && PushArgv !in Execs(log)
  {
    var staged := RunLenient(StagingPlan(present, glob), git);
    var n := StagedCommands(present, glob, git);
    ExecsAppend(staged.events, [Exec(StatusArgv)]);
    assert Execs([Exec(StatusArgv)]) == [StatusArgv] by {
      assert [Exec(StatusArgv)][1..] == [];
    }
  }

  /** An empty (all-whitespace) status listing ends the run after the
      status check, whatever its exit status: neither the commit nor the
      push is attempted. */
  lemma NothingToCommitSkipsCommit(present: set<string>, glob: Glob, answer: string, git: Git, timestamp: string)
    ensures var r := Deploy(present, glob, answer, git, timestamp);
            && (r.ending == NothingToCommit
                <==> && !Declined(present, answer)
                     && !RunLenient(StagingPlan(present, glob), git).exited
                     && git(StatusArgv).Completed? && AllSpace(git(StatusArgv).stdout))
            && (r.ending == NothingToCommit
                ==> StatusArgv in Execs(r.log) && CommitStep(timestamp).argv !in Execs(r.log) && PushArgv !in Execs(r.log))
  {
    var status := git(StatusArgv);
    if status.Completed? {
      StripEmptyIffAllSpace(status.stdout);
    }
    if !Declined(present, answer) && !RunLenient(StagingPlan(present, glob), git).exited {
      StatusChecked(present, glob, git, timestamp);
      if ReachesCommit(present, glob, answer, git) {
        var rest := Finish([CommitStep(timestamp), PushStep], git);
        assert rest.ending != NothingToCommit;
      }
    }
  }

  /** The commit is attempted exactly when the run reaches it, the push
      exactly when the commit then succeeded, and the success banner and the
      remote lookup follow exactly when the push succeeded too; otherwise the run is cancelled,
      exits with status 1, or finds nothing to commit. */
  lemma CommitGated(present: set<string>, glob: Glob, answer: string, git: Git, timestamp: string)
    ensures var r := Deploy(present, glob, answer, git, timestamp);
            var commit := CommitStep(timestamp).argv;
            var go := ReachesCommit(present, glob, answer, git);
            && (commit in Execs(r.log) <==> go)
            && (PushArgv in Execs(r.log) <==> go && Succeeds(git(commit)))
            && (r.ending.Published? <==> go && Succeeds(git(commit)) && Succeeds(git(PushArgv)))
  {
    var r := Deploy(present, glob, answer, git, timestamp);
    var commit := CommitStep(timestamp);
    if !Declined(present, answer) && !RunLenient(StagingPlan(present, glob), git).exited {
      var staged := RunLenient(StagingPlan(present, glob), git);
      var log := staged.events + [Exec(StatusArgv)];
      StatusChecked(present, glob, git, timestamp);
      if ReachesCommit(present, glob, answer, git) {
        ClosingStage(log, git, timestamp);
        assert r.log == log + Finish([commit, PushStep], git).log;
      }
    } else if !Declined(present, answer) {
      var n := StagedCommands(present, glob, git);
    }
  }

  /** The closing stage after the events `log` of the staging and the status
      check, in which neither the commit nor the push occurs. */
  lemma ClosingStage(log: seq<Event>, git: Git, timestamp: string)
    requires CommitStep(timestamp).argv !in Execs(log) && PushArgv !in Execs(log)
    ensures var rest := Finish([CommitStep(timestamp), PushStep], git);
            var commit := CommitStep(timestamp).argv;
            && (commit in Execs(log + rest.log))
            && (PushArgv in Execs(log + rest.log) <==> Succeeds(git(commit)))
            && (rest.ending.Published? <==> Succeeds(git(commit)) && Succeeds(git(PushArgv)))
  {
    var commit := CommitStep(timestamp);
    var rest := Finish([commit, PushStep], git);
    assert commit.argv[1] != ConfigArgv[1] by { assert commit.argv[1][2] != ConfigArgv[1][2]; }
    TwoStepsGated(commit, PushStep, git);
    ExecsAppend(log, rest.log);
  }
}
