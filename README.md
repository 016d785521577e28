# Deployment scripts for a GitHub Pages site, modelled in Dafny

The repository publishes a static site from a phone (Termux) with four small
Python scripts. Each one stages files with `git add`, commits with a
timestamped message, pushes, and then guesses the public address of the site
from the `origin` remote. The four differ in what they stage:

- `subir_html_css.py` stages everything (`git add .`);
- `back_py/subir_html_css.py` stages `*.html` and `*.css` in one command;
- `subir_html_css_2.py` walks the working tree, skips `.git` and
  `__pycache__`, and adds each file whose name passes a filter with its own
  `git add`;
- `back_py/subir_html_css_icon.py` first checks eight essential site files
  and asks the operator whether to go on if some are missing. It then adds
  nine glob patterns and seven resource folders with warnings instead of
  exits, counts the files it added, and stops early when
  `git status --porcelain` shows nothing.

All four share `run_command` and `get_repo_name`: a command either succeeds
(its output is echoed stripped), or fails with a warning
(`continue_on_error`), or ends the script with status 1. The repository name
is the last `/` segment of the remote with every `.git` deleted. An address
`https://<name>` is shown only when that name contains `.github.io`.

The model is split by concern:

| module | file | what it holds |
|---|---|---|
| `PyStr` | `pystr.dfy` | `strip`, `split`, `join`, `replace`, `in`, `startswith`, `endswith`, `lower`, `repr` of a string, and their laws |
| `Process` | `process.dfy` | `run_command` over an oracle for the git tool; strict and lenient chains of calls |
| `RepoName` | `repo_name.dfy` | `get_repo_name`, the address decision, and the derivation the comments describe |
| `Pipeline` | `pipeline.dfy` | commit, push, banner and address, the tail all four scripts share |
| `DeployOneAdd` | `deploy_one_add.dfy` | `subir_html_css.py` and `back_py/subir_html_css.py`, which differ only in their constants |
| `DirWalk`, `DeployWalk` | `dir_walk.dfy`, `deploy_walk.dfy` | `subir_html_css_2.py`: the pruned walk and its run |
| `DeployIcons` | `deploy_icons.dfy` | `back_py/subir_html_css_icon.py` |

The git tool is an input: `Git = seq<string> -> Outcome` answers each
argument vector with `Completed(returncode, stdout, stderr)` or `NotFound`
(no executable). A run is a log of `Event`s (commands attempted, lines
`run_command` prints) and an `Ending`. An attempt that finds no git starts
nothing, but it is logged like any other. The endings are:
- `Exited` (status 1);
- `Cancelled`;
- `NothingToCommit`;
- `Published(page)`, where `page` is the address, if one is shown.

Each script's `main` is a method `Upload` proved equal to a specification
function of its inputs. The lemmas beside it state which commands are
attempted, in which order, and when.

Where the code and the scripts' own documentation disagree, the model follows
the code. The docstrings promise to show the probable address of the site
(`back_py/subir_html_css_icon.py:11`, `subir_html_css.py:8`), and the comment
at `back_py/subir_html_css_icon.py:53` gives `CejasRuben.github.io` as the
name derived from the remote. So for the remote `.../<owner>.github.io.git`
they expect the address `https://<owner>.github.io`. The code deletes every
`.git`, so it derives `<owner>hub.io` and shows no address (see Findings).

## Model

| member | source | states |
|---|---|---|
| PyStr.Strip | subir_html_css.py:20 | `strip()` never lengthens a text and leaves a text with no whitespace at either end as it is |
| PyStr.TrimStartSpec | subir_html_css.py:38 | stripping the front removes exactly a whitespace prefix and leaves a string not starting with whitespace |
| PyStr.TrimEndSpec | subir_html_css.py:38 | stripping the back removes exactly a whitespace suffix and leaves a string not ending with whitespace |
| PyStr.StripSpec | subir_html_css.py:38 | `strip()` gives the part of the text between an all-whitespace prefix and an all-whitespace suffix, with no whitespace at either end |
| PyStr.StripEmptyIffAllSpace | subir_html_css.py:20 | a stripped text is empty exactly when the text is all whitespace |
| PyStr.StripTrimmed | subir_html_css.py:38 | a line with no whitespace at its ends, followed by a newline or other whitespace, strips back to the line |
| PyStr.Split | subir_html_css.py:41 | `split(sep)` always gives at least one piece |
| PyStr.JoinSplit | subir_html_css.py:41 | joining the pieces of `split(sep)` with `sep` gives the original text back |
| PyStr.SplitPiecesAvoid | subir_html_css.py:41 | no piece of a split on a character contains that character |
| PyStr.SplitCount | subir_html_css.py:41 | a text with the separator splits into at least two pieces; one without it is its own single piece |
| PyStr.LastPieceSpec | subir_html_css.py:41 | `split(c)[-1]` holds no `c`, is the whole text when there is no `c`, and otherwise follows the last `c` |
| PyStr.SplitLastAfter | subir_html_css.py:41 | the last piece of `x + c + y` is `y` whenever `y` holds no `c` |
| PyStr.Replace | subir_html_css.py:41 | a text shorter than the pattern is left as it is, and deleting (an empty replacement) never lengthens a text |
| PyStr.ReplaceIsJoinOfSplit | subir_html_css.py:41 | `s.replace(p, r)` equals `r.join(s.split(p))` for every text |
| PyStr.ReplaceAbsent | subir_html_css.py:41 | replacing a pattern that does not occur leaves the text unchanged |
| PyStr.DeleteShortens | subir_html_css.py:41 | deleting a pattern never lengthens a text, and strictly shortens it when the pattern occurs |
| PyStr.DeleteIsIdentityIff | subir_html_css.py:41 | deleting a pattern changes the text exactly when the pattern occurs in it |
| PyStr.DeleteKeepsCharacters | subir_html_css.py:41 | deleting keeps only characters of the original, none more often than before |
| PyStr.DeleteIsSinglePass | subir_html_css.py:41 | the scan does not rescan its output: deleting ".git" from "..gitgit" leaves ".git" |
| PyStr.ReplaceAtFront | subir_html_css.py:41 | an occurrence at the front is replaced and the scan resumes after it |
| PyStr.ReplaceSkipsPrefix | subir_html_css.py:41 | a prefix holding no character that starts the pattern passes through unchanged |
| PyStr.Contains | subir_html_css.py:71 | `sub in s` holds for the empty `sub`, and otherwise only when `sub` is no longer than `s` |
| PyStr.ContainsIff | subir_html_css.py:71 | `sub in s` holds exactly when `sub` occurs at some position of `s` |
| PyStr.ContainsAnchored | subir_html_css.py:71 | a text whose only occurrence of the pattern's first character is too near the end does not contain the pattern |
| PyStr.Repr | subir_html_css.py:24 | `repr` of a string, as the exception text shows each argument: matching quotes around the escaped text, double quotes exactly when the text holds a single quote and no double quote |
| PyStr.ReprRoundTrip | subir_html_css.py:24 | the escapes lose nothing: the text between the quotes reads back as the original string |
| PyStr.EscapedRoundTrip | subir_html_css.py:24 | reading back the escaped text gives the original, whichever quote was chosen |
| PyStr.ReprPlain | subir_html_css.py:24 | a text without a single quote, a backslash or a control character is written as it is, between single quotes |
| PyStr.ReprApostrophe | subir_html_css.py:24 | a text holding a single quote and no double quote (nor a backslash or a control character) is written as it is, between double quotes |
| PyStr.Lower | back_py/subir_html_css_icon.py:102 | `lower()` keeps the length and lower-cases each character on its own |
| Process.RunCommand | back_py/subir_html_css_icon.py:20-39 | one call of `run_command`: it returns True exactly on exit status 0, and ends the script exactly when git is missing or the status is non-zero without `continue_on_error` |
| Process.RunCommandVerdict | back_py/subir_html_css_icon.py:20-39 | `run_command` returns True exactly on exit status 0; it returns False exactly on a non-zero status with `continue_on_error`; it exits when there is a non-zero status without that flag, and always when git is missing |
| Process.CallStartsOnlyItsCommand | back_py/subir_html_css_icon.py:24 | every call attempts exactly its own command, whatever the outcome |
| Process.SuccessShowsOutput | subir_html_css.py:19-22 | a successful command's output is printed stripped, and only when it is not all whitespace |
| Process.StrictFailureShowsStderr | subir_html_css.py:23-26 | a strict failure prints the caller's message, a line break, "Detalles: " and the stripped stderr when stderr is not empty |
| Process.ApostropheInListRepr | subir_html_css_2.py:12 | with empty stderr, the failed add of a file such as `./it's.txt` is reported with plain arguments in single quotes and that file name in double quotes |
| Process.StrictStopsAtFirstFailure | subir_html_css.py:54-64 | a strict chain attempts its commands in order up to and including the first that fails, and exits exactly when one fails |
| Process.LenientRunsAllButMissingGit | back_py/subir_html_css_icon.py:124-142 | a lenient chain exits exactly when some command finds no git; when every command completes, all of them are attempted, in order |
| Process.RunAppend | subir_html_css_2.py:35-50 | running two chains in turn is running their concatenation; the second is attempted only if the first did not exit |
| Process.ChainExitedPrefix | subir_html_css_2.py:11-13 | after an exit, the commands planned later change nothing |
| Process.ChainStartsPrefix | back_py/subir_html_css_icon.py:124-142 | whatever the outcomes, a chain attempts the commands of a prefix of its plan, in plan order, and nothing else |
| RepoName.GetRepoName | back_py/subir_html_css_icon.py:41-58 | a name is returned exactly when the lookup succeeded, and it never contains `/` |
| RepoName.PageUrl | back_py/subir_html_css_icon.py:170-185 | an address is shown exactly when there is a name containing ".github.io", and it is `https://` followed by the name |
| RepoName.DeriveName | back_py/subir_html_css_icon.py:48-51 | the name derived from any lookup output holds no `/` |
| RepoName.AddressHasNoPath | back_py/subir_html_css_icon.py:171-172 | a shown address is "https://" followed by a host name with no path |
| RepoName.FailedLookupFallsBack | subir_html_css.py:70-78 | a failed lookup always leads to the fallback advice |
| RepoName.SegmentOfRemote | back_py/subir_html_css_icon.py:48-51 | for the lookup output `<prefix>/<seg>` plus a newline, the text after the last `/` is exactly `seg` |
| RepoName.SegmentWithoutGitKept | back_py/subir_html_css_icon.py:51 | a last segment without ".git" is kept whole as the name |
| RepoName.DotGithubSuffix | back_py/subir_html_css_icon.py:51 | deleting ".git" from ".github.io.git" leaves "hub.io" |
| RepoName.PagesRemoteLosesDotGithub | back_py/subir_html_css_icon.py:51-53 | every Pages remote `<owner>.github.io.git` with a dot-free owner gives `<owner>hub.io`, and no address is shown |
| RepoName.PagesRemoteWithoutSuffixLosesDotGithub | back_py/subir_html_css_icon.py:51-53 | the same for the remote written without ".git", `<owner>.github.io`: the name is `<owner>hub.io` and no address is shown |
| RepoName.LostNameShowsNoAddress | back_py/subir_html_css_icon.py:171 | a name `<owner>hub.io` with a dot-free owner does not contain ".github.io", so no address is shown |
| RepoName.OwnRemoteGivesNoAddress | back_py/subir_html_css_icon.py:51-53 | this repository's own remote gives "CejasRubenhub.io" and no address |
| RepoName.IntendedKeepsPagesName | back_py/subir_html_css_icon.py:53 | removing only a trailing ".git" turns every Pages remote into `<owner>.github.io` and shows its address |
| RepoName.DerivationsAgreeWithoutGit | back_py/subir_html_css_icon.py:51-53 | the written and the intended derivation agree on every segment without ".git" |
| RepoName.DerivationsAgreeOnGitSuffix | back_py/subir_html_css_icon.py:51-53 | for the ordinary remote `<base>.git` whose base holds no ".git", both derivations give `base`: the written code is right there |
| RepoName.DeleteGitSuffix | back_py/subir_html_css_icon.py:51 | deleting ".git" from `<base>.git` leaves `base` when `base` holds no ".git", since no occurrence can straddle the end of `base` |
| Pipeline.StampedInjective | subir_html_css.py:51-52 | the commit message is the prefix followed by the timestamp; different timestamps give different messages |
| Pipeline.Finish | subir_html_css.py:54-79 | a run of strict steps then the closing lookup ends either with status 1 or with the banner, and a run with the banner ends with the remote lookup |
| Pipeline.Conclude | subir_html_css.py:58-79 | commit, push, banner and address form the closing stage: each command is attempted only after the previous one succeeded |
| Pipeline.FinishAfter | subir_html_css.py:54-64 | commands run before the closing stage only prefix its log, unless they ended the script |
| Pipeline.FinishStopsAtFirstFailure | subir_html_css.py:54-79 | a run exits exactly when one of its commands fails, after attempting the commands up to that one; otherwise it shows the banner, looks up the remote last, and reports the address derived from it |
| Pipeline.StartedIffEarlierSucceed | subir_html_css.py:54-64 | a planned command is attempted exactly when every command planned before it succeeded |
| Pipeline.AddThenConclude | back_py/subir_html_css.py:54-79 | one staging command, then the closing stage |
| Pipeline.ThreeStepsGated | back_py/subir_html_css.py:54-64 | of add, commit and push, each is attempted exactly when those before it succeeded; the success banner and the remote lookup follow exactly when all three succeeded, and the page shown is the one that lookup derives (none for a remote that is not a Pages site) |
| Pipeline.TwoStepsGated | back_py/subir_html_css_icon.py:156-171 | the commit is always attempted; the push exactly when the commit succeeded; the success banner and the remote lookup follow exactly when both succeeded, and the page shown is the one that lookup derives |
| DeployOneAdd.Upload | subir_html_css.py:50-79 | `main` of either script runs its one add (`git add .`, or `git add *.html *.css` in back_py/subir_html_css.py), the commit with its timestamped message, and the push, stopping at the first failure |
| DeployOneAdd.UploadGated | back_py/subir_html_css.py:54-79 | in either script the add is always attempted, the commit exactly when the add succeeded, and the push when both did; the banner appears exactly when all succeeded, else status 1 |
| DirWalk.Staged | subir_html_css_2.py:42 | a file is staged exactly when its name does not start with '.' and does not end in ".pyc" or ".log" |
| DirWalk.RemoveFirst | subir_html_css_2.py:38 | `dirs.remove(name)`, on a list holding the name (the guard on line 37 ensures it): the result keeps only entries of the list |
| DirWalk.RemoveFirstSpec | subir_html_css_2.py:37-40 | `dirs.remove(name)` deletes exactly the first entry with that name and keeps the others in order |
| DirWalk.RemoveFirstAbsent | subir_html_css_2.py:37-40 | without an entry of that name `RemoveFirst` leaves the list as it is. `dirs.remove` would raise there, but the `if ... in dirs` guard skips the call, which also leaves `dirs` as it is |
| DirWalk.Pruned | subir_html_css_2.py:37-40 | the directories left to visit after the two guarded removals are among those listed |
| DirWalk.RemoveFirstMembers | subir_html_css_2.py:38 | removing a name from a list of distinct names keeps exactly the entries with other names |
| DirWalk.PrunedExactly | subir_html_css_2.py:37-40 | the walk skips exactly the directories named `.git` and `__pycache__`; `.github` and other dot-directories are still entered |
| DirWalk.StagedFiles | subir_html_css_2.py:41-43 | the paths staged for a directory's own files all lie below that directory |
| DirWalk.StagedPaths | subir_html_css_2.py:35-44 | every path the walk stages below a directory lies below it |
| DirWalk.StagedDirs | subir_html_css_2.py:35 | the paths staged in the first kept sub-directories all lie below the parent |
| DirWalk.StageFiles | subir_html_css_2.py:41-44 | one strict `git add <root>/<file>` per file passing the filter, in listing order, stopping at the first failure |
| DirWalk.StageTree | subir_html_css_2.py:35-44 | one directory of the walk: prune, add its files, then walk the remaining sub-directories; equal to the strict run of one add per staged path |
| DirWalk.StageDirs | subir_html_css_2.py:35 | the walk descends into the kept sub-directories in order, stopping when an add ends the script |
| DirWalk.StagedFilesIff | subir_html_css_2.py:41-43 | a path is staged for a directory's own files exactly when it joins the root with a listed file that passes the filter |
| DirWalk.StagedPathsIff | subir_html_css_2.py:35-44 | the ordered list of adds holds exactly the paths reachable through files that pass the filter in directories the pruning keeps |
| DeployWalk.Upload | subir_html_css_2.py:28-60 | `main` adds every path the walk stages, commits and pushes, stopping at the first failure |
| DeployWalk.UploadGated | subir_html_css_2.py:35-59 | the commit is attempted exactly when every per-file add succeeded; the push, when the commit succeeded too; the banner, exactly when all succeeded |
| DeployIcons.MissingFrom | back_py/subir_html_css_icon.py:74-81 | the missing list is no longer than the checked list and holds only checked names that do not exist |
| DeployIcons.MissingFromIff | back_py/subir_html_css_icon.py:74-81 | a name is listed missing exactly when it is checked and does not exist |
| DeployIcons.MissingFromEmptyIff | back_py/subir_html_css_icon.py:83-87 | nothing is missing exactly when every checked name exists |
| DeployIcons.CheckEssentialFiles | back_py/subir_html_css_icon.py:60-87 | the missing list is the absent essential files, in list order, and the result is True exactly when all eight exist |
| DeployIcons.Confirms | back_py/subir_html_css_icon.py:102 | an accepted answer has one to three characters |
| DeployIcons.ConfirmsExactly | back_py/subir_html_css_icon.py:99-104 | the operator goes on exactly for the sixteen case variants of "s", "si", "y" and "yes" |
| DeployIcons.PatternSteps | back_py/subir_html_css_icon.py:124-129 | the plan has no more adds than there are patterns, and each is a `git add` of one argument (which patterns get one: the lemmas below) |
| DeployIcons.FolderSteps | back_py/subir_html_css_icon.py:136-140 | the plan has no more adds than there are folders, and each is a `git add` of one argument (which folders get one: the lemmas below) |
| DeployIcons.PatternStepsIff | back_py/subir_html_css_icon.py:124-127 | an add is planned for a pattern exactly when `glob.glob` matches at least one file for it, and every planned add is such a pattern's |
| DeployIcons.FolderStepsIff | back_py/subir_html_css_icon.py:136-138 | an add of `<folder>*` is planned for a folder exactly when it exists, and every planned add is such a folder's |
| DeployIcons.PatternStepsDiffer | back_py/subir_html_css_icon.py:127 | different patterns give different adds |
| DeployIcons.FolderStepsDiffer | back_py/subir_html_css_icon.py:138 | different folders give different adds |
| DeployIcons.PatternStepsOnce | back_py/subir_html_css_icon.py:124-127 | over a list without repetitions, no add appears twice in the plan |
| DeployIcons.FolderStepsOnce | back_py/subir_html_css_icon.py:136-138 | over a list without repetitions, no folder add appears twice in the plan |
| DeployIcons.ScriptAddsOnce | back_py/subir_html_css_icon.py:110-138 | the script's nine patterns and seven folders hold no repetition, so each is added at most once |
| DeployIcons.Added | back_py/subir_html_css_icon.py:123-131 | `archivos_agregados` never exceeds the number of files the patterns match |
| DeployIcons.AddedCountsSuccessfulAdds | back_py/subir_html_css_icon.py:123-132 | the counter never exceeds the matched files, and reaches that number exactly when every matching pattern's add succeeded |
| DeployIcons.AddedZeroIff | back_py/subir_html_css_icon.py:123-145 | the counter stays 0 exactly when no pattern both matched a file and was added |
| DeployIcons.StagePatterns | back_py/subir_html_css_icon.py:122-132 | one lenient add per pattern that matches a file; the counter grows by the matches of each successful add |
| DeployIcons.StageFolders | back_py/subir_html_css_icon.py:134-142 | one lenient add of `<folder>*` per existing folder, in order; the counter is untouched |
| DeployIcons.Deploy | back_py/subir_html_css_icon.py:89-187 | a run is cancelled exactly when the operator declined, and stops with nothing to commit only after a status check that ran |
| DeployIcons.Upload | back_py/subir_html_css_icon.py:89-187 | `main`: check, confirm, stage leniently, check the status, then commit and push strictly; the counter is that of the successful pattern adds |
| DeployIcons.StagedCommands | back_py/subir_html_css_icon.py:106-142 | staging attempts a prefix of the planned adds, and only `git add` commands |
| DeployIcons.CancelStartsNothing | back_py/subir_html_css_icon.py:97-104 | the run is cancelled exactly when an essential file is missing and the answer is not a yes, and then no git command is attempted |
| DeployIcons.NothingToCommitSkipsCommit | back_py/subir_html_css_icon.py:147-154 | the run stops after the status check exactly when its output is all whitespace, whatever its exit status, and neither commit nor push is attempted |
| DeployIcons.CommitGated | back_py/subir_html_css_icon.py:156-171 | the commit is attempted exactly when the run reaches it, the push when the commit then succeeded, and the success banner and the remote lookup follow exactly when the push succeeded too |

## Left out

- The git tool, the index and the remote: each command's outcome is an input oracle, so a command given the same arguments twice is assumed to answer the same.
- `os.walk`, `glob.glob` and `os.path.exists` are inputs: a `Tree` of names, a function from pattern to matched files, and a set of existing paths. Walk errors, symbolic links and the order in which `os.walk` lists entries are not modelled beyond the order of the `Tree`.
- `datetime.now().strftime(...)` is a timestamp parameter; `input()` is an answer parameter.
- Console output other than `run_command`'s own lines is not modelled: banners, emoji, progress lines, the per-file check lines, the missing-file warning, the "no new files" line and the advice after the address. In the lines `run_command` prints, the `Error` and `Warning` event tags stand for the "❌ ERROR: " and "⚠️  Advertencia: " labels: an `Error` event holds the text after "ERROR: ", and a `Warning` event holds only the caller's message.
- The wording of the "git not found" message differs between the scripts; all of them are the single event `GitMissing`.
- The uncaught `FileNotFoundError` at the status check is modelled as a status-1 exit without the traceback.
- `get_repo_name` catches every exception; the model covers the failures of the lookup command (non-zero status, missing git), not decoding errors.
- Process.ProcessErrorText: prints "returned non-zero exit status N." for every failing status, while Python prints "died with <signal>" for a negative status (a process killed by a signal).
- PyStr.Repr: writes every non-ASCII character as it is, while Python escapes the non-printable ones (such as U+0085, U+00A0 or U+2028) as `\xNN`, `\uNNNN` or `\UNNNNNNNN`, because Python's table of printable characters is not modelled.
- PyStr.Lower: lower-cases only `A`–`Z`, while Python lower-cases every cased letter. This does not change which answers the confirmation accepts: no other character lower-cases to a single `s`, `i`, `y` or `e`.
- DeployIcons.StagePatterns: says nothing about the counter when an add ends the script, because the script exits at once and the counter is never read.
- DeployIcons.Upload: the counter is stated for runs that get past the pattern adds; the cancelled run reports 0.
- DirWalk.RemoveFirst: is total, while `dirs.remove` raises `ValueError` on an absent name; the script never calls it without the name present.
- `os.path.join` is modelled as `root + "/" + name`, the POSIX form the walk produces from the root ".".
- Text decoding of command output (`text=True`) is not modelled; output is a sequence of Unicode characters.
- `subo_todos_los_html_a_github_2.py` and `back_py/subo_todos_los_html_a_github.py` are not part of this model: they are an HTML and CSS upload (`git add *.html *.css`) and an HTML-only upload (`git add *.html`), with no missing-git handling and no address lookup.

## Findings

| source | as written | input that shows it | evidently intended | confidence | as-written member | corrected member |
|---|---|---|---|---|---|---|
| back_py/subir_html_css_icon.py:51 | `.replace(".git", "")` deletes every ".git", including the one inside ".github" | the remote `https://github.com/CejasRuben/CejasRuben.github.io.git` gives the name `CejasRubenhub.io`, which lacks ".github.io", so no address is shown; the remote written without ".git", `.../CejasRuben.github.io`, gives the same name | remove only a trailing ".git", giving `CejasRuben.github.io` as the comment on line 53 says, and show `https://CejasRuben.github.io` | not executed | RepoName.PagesRemoteLosesDotGithub | RepoName.IntendedKeepsPagesName |

The same line appears in all four scripts: `subir_html_css.py:41`,
`back_py/subir_html_css.py:41` and `subir_html_css_2.py:23`. The concrete
case is `RepoName.OwnRemoteGivesNoAddress`. `RepoName.DeriveNameIntended`
is the corrected derivation. `RepoName.DerivationsAgreeWithoutGit` and
`RepoName.DerivationsAgreeOnGitSuffix` show that it changes nothing for a
last segment with no ".git", or with one trailing ".git" and no other. The
pipeline modules keep the derivation as written, since they model the
scripts as they run.
