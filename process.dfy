/** Running the version-control tool: `run_command` and the two ways the
    scripts chain it (stop at the first failure, or warn and go on). The tool
    itself is not modelled; its answer to each argument vector is an input. */
module Process {
  import opened PyStr

  /** What `subprocess.run` reports: the process ran to completion with an
      exit status and captured output, or the executable was not found. */
  datatype Outcome = Completed(returncode: int, stdout: string, stderr: string) | NotFound

  /** The external tool, as an oracle from argument vectors to outcomes. */
  type Git = seq<string> -> Outcome

  /** What a run leaves behind, in order: the commands attempted (an attempt
      that finds no git starts nothing, and is logged all the same) and the
      lines `run_command` prints (command output, warnings, error details,
      the "git not found" error). A `Warning` or an `Error` holds the text
      after the "Advertencia: " or "ERROR: " label the script prints. */
  datatype Event =
    | Exec(argv: seq<string>)
    | Output(text: string)
    | Warning(message: string)
    | Error(text: string)
    | GitMissing

  /** `run_command`'s effect on the caller: it returned True, it returned
      False (tolerated failure), or it ended the process with `sys.exit(1)`. */
  datatype Verdict = Succeeded | Tolerated | Fatal

  datatype Call = Call(events: seq<Event>, verdict: Verdict)

  predicate Succeeds(o: Outcome) {
    o.Completed? && o.returncode == 0
  }

  function NatToString(n: nat): string
    decreases n
  {
    if n < 10 then [(48 + n) as char] else NatToString(n / 10) + [(48 + n % 10) as char]
  }

  function IntToString(n: int): string {
    if n < 0 then "-" + NatToString(-n) else NatToString(n)
  }

  /** `str` of a list of strings: the `repr` of each element, separated by
      ", ", between brackets. */
  function ListRepr(argv: seq<string>): string {
    "[" + Join(Quoted(argv), ", ") + "]"
  }

  function Quoted(xs: seq<string>): (r: seq<string>)
    ensures |r| == |xs|
    ensures forall i :: 0 <= i < |xs| ==> r[i] == Repr(xs[i])
  {
    if xs == [] then [] else [Repr(xs[0])] + Quoted(xs[1..])
  }

  /** The text of the `CalledProcessError` that `run_command` prints when the
      failed command wrote nothing on stderr. */
  function ProcessErrorText(argv: seq<string>, returncode: int): string {
    "Command '" + ListRepr(argv) + "' returned non-zero exit status " + IntToString(returncode) + "."
  }

  /** The line printed before a fatal exit: the caller's message, a line
      break, "Detalles: " and the stripped stderr (or the exception text when
      stderr is empty). */
  function FailureText(argv: seq<string>, errorMessage: string, returncode: int, stderr: string): string {
    errorMessage + "\nDetalles: " + (if stderr != [] then Strip(stderr) else ProcessErrorText(argv, returncode))
  }

  /** `run_command(command, error_message, continue_on_error)`, given what
      attempting `command` produced. */
  function RunCommand(argv: seq<string>, errorMessage: string, continueOnError: bool, o: Outcome): (c: Call)
    ensures c.verdict == Succeeded <==> Succeeds(o)
    ensures c.verdict == Fatal <==> o.NotFound? || (!Succeeds(o) && !continueOnError)
  {
    match o
    case NotFound => Call([Exec(argv), GitMissing], Fatal)
    case Completed(code, out, err) =>
      if code == 0 then
        Call([Exec(argv)] + (if Strip(out) != [] then [Output(Strip(out))] else []), Succeeded)
      else if continueOnError then
        Call([Exec(argv), Warning(errorMessage)], Tolerated)
      else
        Call([Exec(argv), Error(FailureText(argv, errorMessage, code, err))], Fatal)
  }

  /** The argument vectors of the commands a run attempted, in order. */
  function Execs(events: seq<Event>): (r: seq<seq<string>>)
    ensures |r| <= |events|
  {
    if events == [] then []
    else (if events[0].Exec? then [events[0].argv] else []) + Execs(events[1..])
  }

  lemma {:induction false} ExecsAppend(a: seq<Event>, b: seq<Event>)
    ensures Execs(a + b) == Execs(a) + Execs(b)
    decreases |a|
  {
    if a == [] {
      assert a + b == b;
    } else {
      ExecsAppend(a[1..], b);
      assert (a + b)[0] == a[0];
      assert (a + b)[1..] == a[1..] + b;
    }
  }

  /** A call attempts exactly its own command, whatever happens. */
  lemma CallStartsOnlyItsCommand(argv: seq<string>, errorMessage: string, continueOnError: bool, o: Outcome)
    ensures Execs(RunCommand(argv, errorMessage, continueOnError, o).events) == [argv]
  {
    var c := RunCommand(argv, errorMessage, continueOnError, o);
    assert c.events[1..] == [] || Execs(c.events[1..]) == [] by {
      if |c.events| == 2 { assert c.events[1..][1..] == []; }
    }
  }

  /** The three exits of `run_command`: True exactly on exit status 0; False
      exactly on a non-zero status with `continue_on_error`; `sys.exit(1)` on
      a non-zero status without it, and always when git is missing. */
  lemma RunCommandVerdict(argv: seq<string>, errorMessage: string, continueOnError: bool, o: Outcome)
    ensures RunCommand(argv, errorMessage, continueOnError, o).verdict == Succeeded <==> Succeeds(o)
    ensures RunCommand(argv, errorMessage, continueOnError, o).verdict == Tolerated
            <==> !Succeeds(o) && o.Completed? && continueOnError
    ensures RunCommand(argv, errorMessage, continueOnError, o).verdict == Fatal
            <==> o.NotFound? || (!Succeeds(o) && !continueOnError)
  {
  }

  /** Output of a successful command is shown stripped, and only when the
      stripped text is not empty (that is, not all whitespace). */
  lemma SuccessShowsOutput(argv: seq<string>, errorMessage: string, continueOnError: bool, out: string, err: string)
    ensures var c := RunCommand(argv, errorMessage, continueOnError, Completed(0, out, err));
            c.events == if AllSpace(out) then [Exec(argv)] else [Exec(argv), Output(Strip(out))]
  {
    StripEmptyIffAllSpace(out);
  }

  /** A strict failure reports the caller's message followed by the stripped
      stderr when stderr is not empty. */
  lemma StrictFailureShowsStderr(argv: seq<string>, errorMessage: string, code: int, out: string, err: string)
    requires code != 0 && err != []
    ensures RunCommand(argv, errorMessage, false, Completed(code, out, err)).events
            == [Exec(argv), Error(errorMessage + "\nDetalles: " + Strip(err))]
  {
  }

  /** In the text of a failed command, plain arguments stand between
      single quotes, and an argument holding a single quote (and no double
      quote) between double quotes: the walk's `git add ./it's.txt`. */
  lemma ApostropheInListRepr(cmd: string, sub: string, file: string)
    requires '\'' !in cmd && '\\' !in cmd && forall i :: 0 <= i < |cmd| ==> !IsControl(cmd[i])
    requires '\'' !in sub && '\\' !in sub && forall i :: 0 <= i < |sub| ==> !IsControl(sub[i])
    requires '\'' in file && '"' !in file && '\\' !in file
    requires forall i :: 0 <= i < |file| ==> !IsControl(file[i])
    ensures ListRepr([cmd, sub, file])
            == "[" + ("'" + cmd + "'") + ", " + ("'" + sub + "'") + ", " + ("\"" + file + "\"") + "]"
  {
    ReprPlain(cmd);
    ReprPlain(sub);
    ReprApostrophe(file);
    ListReprOfThree(cmd, sub, file);
  }

  lemma ListReprOfThree(x: string, y: string, z: string)
    ensures ListRepr([x, y, z]) == "[" + Repr(x) + ", " + Repr(y) + ", " + Repr(z) + "]"
  {
    var q := Quoted([x, y, z]);
    assert q == [Repr(x), Repr(y), Repr(z)];
    JoinThree(q[0], q[1], q[2], ", ");
  }

  lemma JoinThree(a: string, b: string, c: string, sep: string)
    ensures Join([a, b, c], sep) == a + sep + b + sep + c
  {
    assert [a, b, c][1..] == [b, c];
    assert [b, c][1..] == [c];
    assert Join([b, c], sep) == b + sep + c;
  }

  /** One command of a chain, with the message `run_command` prints if it fails. */
  datatype Step = Step(argv: seq<string>, errorMessage: string)

  /** `["git", "add", target]`: the add of one path, pattern or folder. */
  function AddArgv(target: string): seq<string> {
    ["git", "add", target]
  }

  /** The events of part of a run, and whether the process ended in it. */
  datatype Stage = Stage(events: seq<Event>, exited: bool)

  function Argvs(steps: seq<Step>): (r: seq<seq<string>>)
    ensures |r| == |steps|
    ensures forall i :: 0 <= i < |steps| ==> r[i] == steps[i].argv
  {
    if steps == [] then [] else [steps[0].argv] + Argvs(steps[1..])
  }

  /** The call `run_command` makes for each step, were the step reached. */
  function Calls(steps: seq<Step>, continueOnError: bool, git: Git): (r: seq<Call>)
    ensures |r| == |steps|
  {
    if steps == [] then []
    else
      [RunCommand(steps[0].argv, steps[0].errorMessage, continueOnError, git(steps[0].argv))]
      + Calls(steps[1..], continueOnError, git)
  }

  /** Calls made one after the other: a call is reached only when none
      before it ended the process. */
  function Chain(calls: seq<Call>): Stage {
    if calls == [] then Stage([], false)
    else if calls[0].verdict == Fatal then Stage(calls[0].events, true)
    else
      var rest := Chain(calls[1..]);
      Stage(calls[0].events + rest.events, rest.exited)
  }

  /** A chain of `run_command(...)` calls without `continue_on_error`. */
  function RunStrict(steps: seq<Step>, git: Git): Stage {
    Chain(Calls(steps, false, git))
  }

  /** A chain of `run_command(..., continue_on_error=True)` calls. */
  function RunLenient(steps: seq<Step>, git: Git): Stage {
    Chain(Calls(steps, true, git))
  }

  /** The first step of a chain, then the rest. */
  lemma ChainCons(steps: seq<Step>, continueOnError: bool, git: Git)
    requires steps != []
    ensures var c := RunCommand(steps[0].argv, steps[0].errorMessage, continueOnError, git(steps[0].argv));
            var rest := Chain(Calls(steps[1..], continueOnError, git));
            Chain(Calls(steps, continueOnError, git))
            == if c.verdict == Fatal then Stage(c.events, true) else Stage(c.events + rest.events, rest.exited)
  {
  }

  lemma {:induction false} ChainAppend(x: seq<Call>, y: seq<Call>)
    ensures var cx := Chain(x);
            Chain(x + y) == if cx.exited then cx else Stage(cx.events + Chain(y).events, Chain(y).exited)
    decreases |x|
  {
    if x == [] {
      assert x + y == y;
    } else {
      assert (x + y)[0] == x[0];
      assert (x + y)[1..] == x[1..] + y;
      if x[0].verdict != Fatal {
        ChainAppend(x[1..], y);
        var r1 := Chain(x[1..]);
        var ry := Chain(y);
        if !r1.exited {
          assert x[0].events + (r1.events + ry.events) == (x[0].events + r1.events) + ry.events;
        }
      }
    }
  }

  lemma CallsAppend(a: seq<Step>, b: seq<Step>, continueOnError: bool, git: Git)
    ensures Calls(a + b, continueOnError, git) == Calls(a, continueOnError, git) + Calls(b, continueOnError, git)
  {
    var whole, parts := Calls(a + b, continueOnError, git), Calls(a, continueOnError, git) + Calls(b, continueOnError, git);
    forall i | 0 <= i < |whole|
      ensures whole[i] == parts[i]
    {
      CallAt(a + b, i, continueOnError, git);
      if i < |a| {
        CallAt(a, i, continueOnError, git);
      } else {
        CallAt(b, i - |a|, continueOnError, git);
      }
    }
  }

  /** The i-th call runs the i-th step. */
  lemma {:induction false} CallAt(steps: seq<Step>, i: nat, continueOnError: bool, git: Git)
    requires i < |steps|
    ensures Calls(steps, continueOnError, git)[i]
            == RunCommand(steps[i].argv, steps[i].errorMessage, continueOnError, git(steps[i].argv))
    decreases i
  {
    if i > 0 {
      CallAt(steps[1..], i - 1, continueOnError, git);
    }
  }

  /** The position of the first step whose command does not succeed (the
      number of steps when all do). */
  function FirstFailure(steps: seq<Step>, git: Git): (k: nat)
    ensures k <= |steps|
    ensures forall i :: 0 <= i < k ==> Succeeds(git(steps[i].argv))
    ensures k < |steps| ==> !Succeeds(git(steps[k].argv))
  {
    if steps == [] || !Succeeds(git(steps[0].argv)) then 0
    else 1 + FirstFailure(steps[1..], git)
  }

  /** A strict chain runs its steps in order up to and including the first
      that fails, and exits exactly when one fails: no later step runs. */
  lemma {:induction false} StrictStopsAtFirstFailure(steps: seq<Step>, git: Git)
    ensures var k := FirstFailure(steps, git);
            && RunStrict(steps, git).exited == (k < |steps|)
            && Execs(RunStrict(steps, git).events) == Argvs(steps[..if k < |steps| then k + 1 else k])
  {
    if steps != [] {
      var s0 := steps[0];
      var c := RunCommand(s0.argv, s0.errorMessage, false, git(s0.argv));
      ChainCons(steps, false, git);
      RunCommandVerdict(s0.argv, s0.errorMessage, false, git(s0.argv));
      CallStartsOnlyItsCommand(s0.argv, s0.errorMessage, false, git(s0.argv));
      var k := FirstFailure(steps, git);
      if c.verdict == Fatal {
        assert k == 0;
        assert Argvs(steps[..1]) == [s0.argv];
      } else {
        StrictStopsAtFirstFailure(steps[1..], git);
        var rest := RunStrict(steps[1..], git);
        ExecsAppend(c.events, rest.events);
        var k' := FirstFailure(steps[1..], git);
        assert k == k' + 1;
        var n' := if k' < |steps| - 1 then k' + 1 else k';
        ArgvsOfPrefix(steps, n' + 1);
      }
    }
  }

  lemma ArgvsOfPrefix(steps: seq<Step>, n: nat)
    requires 0 < n <= |steps|
    ensures Argvs(steps[..n]) == [steps[0].argv] + Argvs(steps[1..][..n - 1])
  {
    assert steps[..n][1..] == steps[1..][..n - 1];
  }

  /** A lenient chain always runs every step unless git itself is missing:
      failing commands only produce a warning. It exits exactly when some
      step's command finds no git, and then nothing after it is attempted. */
  lemma {:induction false} LenientRunsAllButMissingGit(steps: seq<Step>, git: Git)
    ensures RunLenient(steps, git).exited <==> exists i :: 0 <= i < |steps| && git(steps[i].argv).NotFound?
    ensures (forall i :: 0 <= i < |steps| ==> git(steps[i].argv).Completed?)
            ==> Execs(RunLenient(steps, git).events) == Argvs(steps)
  {
    if steps != [] {
      var s0 := steps[0];
      var c := RunCommand(s0.argv, s0.errorMessage, true, git(s0.argv));
      ChainCons(steps, true, git);
      RunCommandVerdict(s0.argv, s0.errorMessage, true, git(s0.argv));
      CallStartsOnlyItsCommand(s0.argv, s0.errorMessage, true, git(s0.argv));
      LenientRunsAllButMissingGit(steps[1..], git);
      if c.verdict != Fatal {
        ExecsAppend(c.events, RunLenient(steps[1..], git).events);
        if exists i :: 0 <= i < |steps| && git(steps[i].argv).NotFound? {
          var i :| 0 <= i < |steps| && git(steps[i].argv).NotFound?;
          assert steps[1..][i - 1] == steps[i];
        }
      }
    }
  }

  /** Running two chains one after the other is running their
      concatenation: the second starts only if the first did not exit. */
  lemma RunAppend(a: seq<Step>, b: seq<Step>, continueOnError: bool, git: Git)
    ensures var ra := Chain(Calls(a, continueOnError, git));
            var rb := Chain(Calls(b, continueOnError, git));
            Chain(Calls(a + b, continueOnError, git))
            == if ra.exited then ra else Stage(ra.events + rb.events, rb.exited)
  {
    CallsAppend(a, b, continueOnError, git);
    ChainAppend(Calls(a, continueOnError, git), Calls(b, continueOnError, git));
  }

  /** Once the first steps of a plan have ended the process, the steps
      planned after them change nothing. */
  lemma ChainExitedPrefix(x: seq<Step>, z: seq<Step>, continueOnError: bool, git: Git)
    requires x <= z && Chain(Calls(x, continueOnError, git)).exited
    ensures Chain(Calls(z, continueOnError, git)) == Chain(Calls(x, continueOnError, git))
  {
    var y := z[|x|..];
    assert z == x + y;
    RunAppend(x, y, continueOnError, git);
  }

  /** One more step after steps that did not end the process. */
  lemma RunSnoc(steps: seq<Step>, s: Step, continueOnError: bool, git: Git)
    requires !Chain(Calls(steps, continueOnError, git)).exited
    ensures var c := RunCommand(s.argv, s.errorMessage, continueOnError, git(s.argv));
            Chain(Calls(steps + [s], continueOnError, git))
            == Stage(Chain(Calls(steps, continueOnError, git)).events + c.events, c.verdict == Fatal)
  {
    RunAppend(steps, [s], continueOnError, git);
    ChainCons([s], continueOnError, git);
    assert [s][1..] == [];
    var c := RunCommand(s.argv, s.errorMessage, continueOnError, git(s.argv));
    assert c.events + [] == c.events;
  }

  /** Whatever the outcomes, a chain attempts the commands of a prefix of its
      plan, in plan order, and nothing else. */
  lemma {:induction false} ChainStartsPrefix(steps: seq<Step>, continueOnError: bool, git: Git) returns (n: nat)
    ensures n <= |steps|
    ensures Execs(Chain(Calls(steps, continueOnError, git)).events) == Argvs(steps[..n])
  {
    if steps == [] {
      n := 0;
    } else {
      var s0 := steps[0];
      var c := RunCommand(s0.argv, s0.errorMessage, continueOnError, git(s0.argv));
      ChainCons(steps, continueOnError, git);
      CallStartsOnlyItsCommand(s0.argv, s0.errorMessage, continueOnError, git(s0.argv));
      assert Argvs(steps[..1]) == [s0.argv];
      if c.verdict == Fatal {
        n := 1;
      } else {
        var m := ChainStartsPrefix(steps[1..], continueOnError, git);
        ExecsAppend(c.events, Chain(Calls(steps[1..], continueOnError, git)).events);
        n := m + 1;
        assert steps[..n][1..] == steps[1..][..m];
        assert Argvs(steps[..n]) == [s0.argv] + Argvs(steps[1..][..m]);
      }
    }
  }

}
