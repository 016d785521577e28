/** The two scripts that stage with a single `git add`, then commit with a
    timestamped message, push, and show the address:
    `subir_html_css.py` stages every change under the working directory,
    `back_py/subir_html_css.py` only the HTML and CSS files. They differ in
    nothing but their constants. */
module DeployOneAdd {
  import opened Process
  import opened RepoName
  import opened Pipeline

  /** Which of the two scripts runs. */
  datatype Script = Everything | HtmlCss

  function ScriptAddArgv(script: Script): seq<string> {
    match script
    case Everything => AddArgv(".")
    case HtmlCss => ["git", "add", "*.html", "*.css"]
  }

  function MessagePrefix(script: Script): string {
    match script
    case Everything => "Actualizaci\U{F3}n autom\U{E1}tica (push desde Termux) - "
    case HtmlCss => "Actualizaci\U{F3}n de archivos HTML y CSS - "
  }

  function AddStep(script: Script): Step {
    match script
    case Everything => Step(ScriptAddArgv(script), "Fallo al agregar los archivos.")
    case HtmlCss => Step(ScriptAddArgv(script), "Fallo al agregar los archivos HTML y CSS.")
  }

  function CommitStep(script: Script, timestamp: string): Step {
    var argv := CommitArgv(Stamped(MessagePrefix(script), timestamp));
    match script
    case Everything => Step(argv, "Fallo al crear el commit (puede que no haya cambios nuevos).")
    case HtmlCss => Step(argv, "Fallo al crear el commit (puede que no haya cambios nuevos en HTML/CSS).")
  }

  const PushStep: Step := Step(PushArgv, "Fallo al subir los cambios (push) al repositorio remoto.")

  function Plan(script: Script, timestamp: string): seq<Step> {
    [AddStep(script), CommitStep(script, timestamp), PushStep]
  }

  /** `main()` of either script, given the time stamp the clock produced. */
  method Upload(script: Script, git: Git, timestamp: string) returns (run: Run)
    ensures run == Finish(Plan(script, timestamp), git)
  {
    run := AddThenConclude(AddStep(script), CommitStep(script, timestamp), PushStep, git);
  }

  /** The add is always attempted; the commit exactly when the add
      succeeded, the push exactly when both did, and the banner with the
      address or the fallback advice appears exactly when all three did.
      Otherwise the script exits with status 1. */
  lemma UploadGated(script: Script, git: Git, timestamp: string)
    ensures var r := Finish(Plan(script, timestamp), git);
            var add := ScriptAddArgv(script);
            var commit := CommitArgv(Stamped(MessagePrefix(script), timestamp));
            && add in Execs(r.log)
            && (commit in Execs(r.log) <==> Succeeds(git(add)))
            && (PushArgv in Execs(r.log) <==> Succeeds(git(add)) && Succeeds(git(commit)))
            && (r.ending.Published? <==> Succeeds(git(add)) && Succeeds(git(commit)) && Succeeds(git(PushArgv)))
            && (!r.ending.Published? ==> r.ending == Exited)
  {
    var commit := CommitStep(script, timestamp);
    assert commit.argv[1] != ConfigArgv[1] by { assert commit.argv[1][2] != ConfigArgv[1][2]; }
    assert AddStep(script).argv[1] != ConfigArgv[1] by { assert AddStep(script).argv[1][0] != ConfigArgv[1][0]; }
    ThreeStepsGated(AddStep(script), commit, PushStep, git);
  }
}
