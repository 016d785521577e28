/** The staging walk of `subir_html_css_2.py`: `os.walk(".")` top-down, with
    `.git` and `__pycache__` removed from the directories to visit, and one
    strict `git add <root>/<file>` per file that passes the name filter. */
module DirWalk {
  import opened PyStr
  import opened Process

  /** A directory as the walk lists it: its name, its file names and its
      sub-directories, in listing order. */
  datatype Tree = Dir(name: string, files: seq<string>, subdirs: seq<Tree>)

  /** The file filter: not hidden, not compiled Python, not a log. */
  predicate Staged(file: string): (r: bool)
    ensures r <==> (file == [] || file[0] != '.')
                   && (|file| < 4 || file[|file| - 4..] !in {".pyc", ".log"})
  {
    !StartsWith(file, ".") && !EndsWith(file, ".pyc") && !EndsWith(file, ".log")
  }

  /** `os.path.join(root, name)` for a root without a trailing separator. */
  function PathJoin(root: string, name: string): string {
    root + "/" + name
  }

  function Names(ds: seq<Tree>): (r: seq<string>)
    ensures |r| == |ds|
    ensures forall i :: 0 <= i < |ds| ==> r[i] == ds[i].name
  {
    if ds == [] then [] else [ds[0].name] + Names(ds[1..])
  }

  /** `dirs.remove(name)` on a list that holds the name: drop the first
      directory with that name. Python raises `ValueError` when no entry has
      the name; this function is total and then returns the list as it is,
      a case the scripts' `if name in dirs` guards never let through. */
  function RemoveFirst(ds: seq<Tree>, name: string): (r: seq<Tree>)
    ensures forall d :: d in r ==> d in ds
  {
    if ds == [] then []
    else if ds[0].name == name then ds[1..]
    else [ds[0]] + RemoveFirst(ds[1..], name)
  }

  /** `list.remove` deletes exactly the first entry with the name, keeping
      the order of the others. */
  lemma {:induction false} RemoveFirstSpec(ds: seq<Tree>, name: string, i: nat)
    requires i < |ds| && ds[i].name == name
    requires forall j :: 0 <= j < i ==> ds[j].name != name
    ensures RemoveFirst(ds, name) == ds[..i] + ds[i + 1..]
  {
    if i > 0 {
      RemoveFirstSpec(ds[1..], name, i - 1);
      assert ds[1..][..i - 1] == ds[1..i];
      assert ds[1..][i..] == ds[i + 1..];
      assert [ds[0]] + ds[1..i] == ds[..i];
    }
  }

  /** Without an entry of that name `RemoveFirst` leaves the list as it is.
      `dirs.remove` would raise there instead; the `if name in dirs` guard
      skips the call, and a skipped call also leaves `dirs` as it is, so the
      unguarded `RemoveFirst` stands for the guarded statement. */
  lemma {:induction false} RemoveFirstAbsent(ds: seq<Tree>, name: string)
    requires name !in Names(ds)
    ensures RemoveFirst(ds, name) == ds
  {
    if ds != [] {
      assert Names(ds)[0] == ds[0].name;
      assert Names(ds[1..]) == Names(ds)[1..];
      RemoveFirstAbsent(ds[1..], name);
    }
  }

  /** The directories the walk descends into, after the two removals. */
  function Pruned(ds: seq<Tree>): (r: seq<Tree>)
    ensures forall d :: d in r ==> d in ds
  {
    RemoveFirst(RemoveFirst(ds, ".git"), "__pycache__")
  }

  /** The staged paths of the files listed directly in one directory, in
      listing order. */
  function StagedFiles(root: string, files: seq<string>): (r: seq<string>)
    ensures forall p :: p in r ==> Under(root, p)
  {
    if files == [] then []
    else
      var last := files[|files| - 1];
      StagedFiles(root, files[..|files| - 1]) + (if Staged(last) then [PathJoin(root, last)] else [])
  }

  /** Every path the walk stages below `root`, in the order of its adds: the
      directory's own files first, then each visited sub-directory in turn. */
  function StagedPaths(root: string, t: Tree): (r: seq<string>)
    ensures forall p :: p in r ==> Under(root, p)
    decreases t, 1
  {
    StagedFiles(root, t.files) + StagedDirs(root, t, |Pruned(t.subdirs)|)
  }

  /** The staged paths below the first `n` directories the walk visits
      under `t`. */
  function StagedDirs(root: string, t: Tree, n: nat): (r: seq<string>)
    requires n <= |Pruned(t.subdirs)|
    ensures forall p :: p in r ==> Under(root, p)
    decreases t, 0, n
  {
    if n == 0 then []
    else
      var d := Pruned(t.subdirs)[n - 1];
      assert d in t.subdirs;
      var below := StagedPaths(PathJoin(root, d.name), d);
      UnderParent(root, d.name, below);
      StagedDirs(root, t, n - 1) + below
  }

  /** `p` lies below the directory `root`. */
  predicate Under(root: string, p: string) {
    |root| < |p| && p[..|root| + 1] == root + "/"
  }

  /** What lies below a sub-directory lies below its parent. */
  lemma UnderParent(root: string, name: string, ps: seq<string>)
    requires forall p :: p in ps ==> Under(PathJoin(root, name), p)
    ensures forall p :: p in ps ==> Under(root, p)
  {
    forall p | p in ps ensures Under(root, p) {
      var child := PathJoin(root, name);
      assert p[..|root| + 1] == p[..|child| + 1][..|root| + 1];
    }
  }

  function AddStep(path: string): Step {
    Step(AddArgv(path), "Error al agregar " + path)
  }

  /** One strict add per path, in order. */
  function AddSteps(paths: seq<string>): (r: seq<Step>)
    ensures |r| == |paths|
    ensures forall i :: 0 <= i < |paths| ==> r[i] == AddStep(paths[i])
  {
    if paths == [] then [] else [AddStep(paths[0])] + AddSteps(paths[1..])
  }

  lemma AddStepsAppend(x: seq<string>, y: seq<string>)
    ensures AddSteps(x + y) == AddSteps(x) + AddSteps(y)
  {
    var l := AddSteps(x + y);
    var r := AddSteps(x) + AddSteps(y);
    assert |l| == |r|;
    forall i | 0 <= i < |l| ensures l[i] == r[i] {
      if i < |x| { assert (x + y)[i] == x[i]; } else { assert (x + y)[i] == y[i - |x|]; }
    }
  }

  /** Once the adds of a prefix of the paths have ended the process, adding
      more paths to the plan changes nothing. */
  lemma ExitedPrefix(x: seq<string>, z: seq<string>, git: Git)
    requires x <= z && RunStrict(AddSteps(x), git).exited
    ensures RunStrict(AddSteps(z), git) == RunStrict(AddSteps(x), git)
  {
    var y := z[|x|..];
    assert z == x + y;
    AddStepsAppend(x, y);
    RunAppend(AddSteps(x), AddSteps(y), false, git);
  }

  /** Adds of `x` that all went through, followed by the adds of `y`. */
  lemma AddsThen(x: seq<string>, y: seq<string>, git: Git)
    requires !RunStrict(AddSteps(x), git).exited
    ensures RunStrict(AddSteps(x + y), git)
            == Stage(RunStrict(AddSteps(x), git).events + RunStrict(AddSteps(y), git).events,
                     RunStrict(AddSteps(y), git).exited)
  {
    AddStepsAppend(x, y);
    RunAppend(AddSteps(x), AddSteps(y), false, git);
  }

  lemma StagedFilesStep(root: string, files: seq<string>, i: nat)
    requires i < |files|
    ensures StagedFiles(root, files[..i + 1])
            == StagedFiles(root, files[..i]) + (if Staged(files[i]) then [PathJoin(root, files[i])] else [])
  {
    assert files[..i + 1][..i] == files[..i];
  }

  lemma {:induction false} StagedFilesPrefix(root: string, files: seq<string>, m: nat)
    requires m <= |files|
    ensures StagedFiles(root, files[..m]) <= StagedFiles(root, files)
    decreases |files| - m
  {
    if m < |files| {
      var init := files[..|files| - 1];
      StagedFilesPrefix(root, init, m);
      assert init[..m] == files[..m];
    } else {
      assert files[..m] == files;
    }
  }

  /** The last of the first `n` visited directories comes after the others. */
  lemma StagedDirsStep(root: string, t: Tree, n: nat)
    requires 0 < n <= |Pruned(t.subdirs)|
    ensures var d := Pruned(t.subdirs)[n - 1];
            StagedDirs(root, t, n) == StagedDirs(root, t, n - 1) + StagedPaths(PathJoin(root, d.name), d)
  {
  }

  lemma {:induction false} StagedDirsPrefix(root: string, t: Tree, m: nat, n: nat)
    requires m <= n <= |Pruned(t.subdirs)|
    ensures StagedDirs(root, t, m) <= StagedDirs(root, t, n)
    decreases n
  {
    if m < n {
      StagedDirsPrefix(root, t, m, n - 1);
      StagedDirsStep(root, t, n);
      var d := Pruned(t.subdirs)[n - 1];
      PrefixOfLonger(StagedDirs(root, t, m), StagedDirs(root, t, n - 1), StagedPaths(PathJoin(root, d.name), d));
    }
  }

  lemma PrefixOfLonger<T>(a: seq<T>, b: seq<T>, c: seq<T>)
    requires a <= b
    ensures a <= b + c
  {
    assert (b + c)[..|a|] == b[..|a|];
  }

  /** One more add after adds that all went through. */
  lemma AddOne(before: seq<string>, path: string, git: Git)
    requires !RunStrict(AddSteps(before), git).exited
    ensures var c := RunCommand(AddArgv(path), "Error al agregar " + path, false, git(AddArgv(path)));
            RunStrict(AddSteps(before + [path]), git)
            == Stage(RunStrict(AddSteps(before), git).events + c.events, c.verdict == Fatal)
  {
    AddsThen(before, [path], git);
    var c := RunCommand(AddArgv(path), "Error al agregar " + path, false, git(AddArgv(path)));
    ChainCons(AddSteps([path]), false, git);
    assert AddSteps([path])[1..] == [];
    assert c.events + [] == c.events;
  }

  /** `for file in files`: one strict add per file that passes the filter. */
  method StageFiles(root: string, files: seq<string>, git: Git) returns (stage: Stage)
    ensures stage == RunStrict(AddSteps(StagedFiles(root, files)), git)
  {
    var events: seq<Event> := [];
    var i := 0;
    while i < |files|
      invariant i <= |files|
      invariant RunStrict(AddSteps(StagedFiles(root, files[..i])), git) == Stage(events, false)
    {
      ghost var before := StagedFiles(root, files[..i]);
      StagedFilesStep(root, files, i);
      if Staged(files[i]) {
        var path := PathJoin(root, files[i]);
        var c := RunCommand(AddArgv(path), "Error al agregar " + path, false, git(AddArgv(path)));
        AddOne(before, path, git);
        if c.verdict == Fatal {
          StagedFilesPrefix(root, files, i + 1);
          ExitedPrefix(before + [path], StagedFiles(root, files), git);
          return Stage(events + c.events, true);
        }
        events := events + c.events;
      } else {
        assert before + [] == before;
      }
      i := i + 1;
    }
    assert files[..i] == files;
    stage := Stage(events, false);
  }

  /** One directory of the walk at `root`: prune `t.subdirs` in place, add
      the directory's files, then walk each remaining sub-directory. The
      result is the strict run of one add per staged path below `root`. */
  method StageTree(root: string, t: Tree, git: Git) returns (stage: Stage)
    ensures stage == RunStrict(AddSteps(StagedPaths(root, t)), git)
    decreases t, 1
  {
    var dirs := t.subdirs;
    if ".git" in Names(dirs) {
      dirs := RemoveFirst(dirs, ".git");
    } else {
      RemoveFirstAbsent(dirs, ".git");
    }
    if "__pycache__" in Names(dirs) {
      dirs := RemoveFirst(dirs, "__pycache__");
    } else {
      RemoveFirstAbsent(dirs, "__pycache__");
    }
    assert dirs == Pruned(t.subdirs);
    stage := StageFiles(root, t.files, git);
    if stage.exited {
      ExitedPrefix(StagedFiles(root, t.files), StagedPaths(root, t), git);
      return;
    }
    var rest := StageDirs(root, t, dirs, git);
    AddsThen(StagedFiles(root, t.files), StagedDirs(root, t, |dirs|), git);
    stage := Stage(stage.events + rest.events, rest.exited);
  }

  /** The walk descending into the visited sub-directories `dirs` of `t`, in
      order, stopping when an add ends the process. */
  method StageDirs(root: string, t: Tree, dirs: seq<Tree>, git: Git) returns (stage: Stage)
    requires dirs == Pruned(t.subdirs)
    ensures stage == RunStrict(AddSteps(StagedDirs(root, t, |dirs|)), git)
    decreases t, 0
  {
    var events: seq<Event> := [];
    var j := 0;
    while j < |dirs|
      invariant j <= |dirs|
      invariant RunStrict(AddSteps(StagedDirs(root, t, j)), git) == Stage(events, false)
    {
      assert dirs[j] in t.subdirs;
      var sub := StageTree(PathJoin(root, dirs[j].name), dirs[j], git);
      DirsStep(root, t, j, events, sub, git);
      if sub.exited {
        DirsExited(root, t, j + 1, git);
        return Stage(events + sub.events, true);
      }
      events := events + sub.events;
      j := j + 1;
    }
    stage := Stage(events, false);
  }

  /** The adds below one more visited directory, after those below the
      directories before it went through. */
  lemma DirsStep(root: string, t: Tree, j: nat, events: seq<Event>, sub: Stage, git: Git)
    requires j < |Pruned(t.subdirs)|
    requires RunStrict(AddSteps(StagedDirs(root, t, j)), git) == Stage(events, false)
    requires var d := Pruned(t.subdirs)[j]; sub == RunStrict(AddSteps(StagedPaths(PathJoin(root, d.name), d)), git)
    ensures RunStrict(AddSteps(StagedDirs(root, t, j + 1)), git) == Stage(events + sub.events, sub.exited)
  {
    var d := Pruned(t.subdirs)[j];
    StagedDirsStep(root, t, j + 1);
    AddsThen(StagedDirs(root, t, j), StagedPaths(PathJoin(root, d.name), d), git);
  }

  /** Once the adds below the first `n` visited directories have ended the
      process, the directories after them are never entered. */
  lemma DirsExited(root: string, t: Tree, n: nat, git: Git)
    requires n <= |Pruned(t.subdirs)|
    requires RunStrict(AddSteps(StagedDirs(root, t, n)), git).exited
    ensures RunStrict(AddSteps(StagedDirs(root, t, |Pruned(t.subdirs)|)), git)
            == RunStrict(AddSteps(StagedDirs(root, t, n)), git)
  {
    StagedDirsPrefix(root, t, n, |Pruned(t.subdirs)|);
    ExitedPrefix(StagedDirs(root, t, n), StagedDirs(root, t, |Pruned(t.subdirs)|), git);
  }

  /** Which paths the walk stages, stated without its order: a path is staged
      below `root` when it names a file of `t` that passes the filter, or when
      it is staged inside a sub-directory that survives the pruning. */
  ghost predicate Reaches(root: string, t: Tree, p: string)
    decreases t
  {
    || (exists f :: f in t.files && Staged(f) && p == PathJoin(root, f))
    || (exists d :: d in Pruned(t.subdirs) && Reaches(PathJoin(root, d.name), d, p))
  }

  lemma {:induction false} StagedFilesIff(root: string, files: seq<string>, p: string)
    ensures p in StagedFiles(root, files) <==> exists f :: f in files && Staged(f) && p == PathJoin(root, f)
  {
    if files != [] {
      var init := files[..|files| - 1];
      var last := files[|files| - 1];
      StagedFilesIff(root, init, p);
      assert files == init + [last];
      if f :| f in files && Staged(f) && p == PathJoin(root, f) {
        if f != last {
          assert f in init;
        }
      }
    }
  }

  /** The walk stages exactly the paths it reaches: the order-free
      description above and the ordered list of adds agree. */
  lemma {:induction false} StagedPathsIff(root: string, t: Tree, p: string)
    ensures p in StagedPaths(root, t) <==> Reaches(root, t, p)
    decreases t
  {
    var ds := Pruned(t.subdirs);
    var fromFiles := StagedFiles(root, t.files);
    var fromDirs := StagedDirs(root, t, |ds|);
    assert StagedPaths(root, t) == fromFiles + fromDirs;
    StagedFilesIff(root, t.files, p);
    if p in fromDirs {
      var k := StagedDirsWitness(root, t, |ds|, p);
      assert ds[k] in t.subdirs;
      StagedPathsIff(PathJoin(root, ds[k].name), ds[k], p);
      assert ds[k] in ds;
    }
    if d :| d in ds && Reaches(PathJoin(root, d.name), d, p) {
      var k :| 0 <= k < |ds| && ds[k] == d;
      assert d in t.subdirs;
      StagedPathsIff(PathJoin(root, d.name), d, p);
      StagedDirsHas(root, t, |ds|, k, p);
    }
  }

  /** A path staged below the first `n` visited directories is staged below
      one of them, the `k`-th. */
  lemma {:induction false} StagedDirsWitness(root: string, t: Tree, n: nat, p: string) returns (k: nat)
    requires n <= |Pruned(t.subdirs)|
    requires p in StagedDirs(root, t, n)
    ensures var ds := Pruned(t.subdirs);
            k < n && p in StagedPaths(PathJoin(root, ds[k].name), ds[k])
  {
    var front := StagedDirs(root, t, n - 1);
    StagedDirsStep(root, t, n);
    if p in front {
      k := StagedDirsWitness(root, t, n - 1, p);
    } else {
      k := n - 1;
    }
  }

  /** A path staged below the `k`-th visited directory is among those staged
      below the first `n`, for every `n` past `k`. */
  lemma {:induction false} StagedDirsHas(root: string, t: Tree, n: nat, k: nat, p: string)
    requires k < n <= |Pruned(t.subdirs)|
    requires var ds := Pruned(t.subdirs); p in StagedPaths(PathJoin(root, ds[k].name), ds[k])
    ensures p in StagedDirs(root, t, n)
  {
    var front := StagedDirs(root, t, n - 1);
    StagedDirsStep(root, t, n);
    if k < n - 1 {
      StagedDirsHas(root, t, n - 1, k, p);
    }
  }

  /** No two sub-directories share a name, as in any real directory. */
  predicate UniqueNames(ds: seq<Tree>) {
    forall i, j :: 0 <= i < j < |ds| ==> ds[i].name != ds[j].name
  }

  /** The pruning removes exactly the directories named `.git` and
      `__pycache__`: every other one, `.github` and other hidden ones
      included, is still visited, and neither of the two is. */
  lemma PrunedExactly(ds: seq<Tree>, d: Tree)
    requires UniqueNames(ds) && d in ds
    ensures d in Pruned(ds) <==> d.name != ".git" && d.name != "__pycache__"
  {
    var withoutGit := RemoveFirst(ds, ".git");
    RemoveFirstMembers(ds, ".git", d);
    if d in withoutGit {
      RemoveFirstMembers(withoutGit, "__pycache__", d);
    }
  }

  /** Removing the first entry named `name` from a list with unique names
      keeps exactly the entries with other names, and the names stay
      unique. */
  lemma {:induction false} RemoveFirstMembers(ds: seq<Tree>, name: string, d: Tree)
    requires UniqueNames(ds) && d in ds
    ensures UniqueNames(RemoveFirst(ds, name))
    ensures d in RemoveFirst(ds, name) <==> d.name != name
  {
    var r := RemoveFirst(ds, name);
    var tail := ds[1..];
    assert UniqueNames(tail) by {
      forall i, j | 0 <= i < j < |tail| ensures tail[i].name != tail[j].name {
        assert tail[i] == ds[i + 1] && tail[j] == ds[j + 1];
      }
    }
    assert forall e :: e in tail ==> e.name != ds[0].name by {
      forall e | e in tail ensures e.name != ds[0].name {
        var j :| 0 <= j < |tail| && tail[j] == e;
        assert ds[j + 1] == e;
      }
    }
    if ds[0].name == name {
      assert r == tail;
      if d != ds[0] {
        assert d in tail;
      }
    } else {
      var rest := RemoveFirst(tail, name);
      assert r == [ds[0]] + rest;
      if d != ds[0] {
        assert d in tail;
        RemoveFirstMembers(tail, name, d);
      } else if tail != [] {
        RemoveFirstMembers(tail, name, tail[0]);
      }
      assert UniqueNames(r) by {
        forall i, j | 0 <= i < j < |r| ensures r[i].name != r[j].name {
          assert r[j] == rest[j - 1] && r[j] in tail;
          if i > 0 {
            assert r[i] == rest[i - 1];
          }
        }
      }
    }
  }
}
