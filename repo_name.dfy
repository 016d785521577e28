/** `get_repo_name` and the decision whether to show a GitHub Pages address,
    shared word for word by the four deployment scripts. */
module RepoName {
  import opened PyStr
  import opened Process

  datatype Option<T> = None | Some(value: T)

  /** The command whose output names the remote. */
  const ConfigArgv: seq<string> := ["git", "config", "--get", "remote.origin.url"]

  /** The name the scripts derive from the output of the lookup: strip it,
      keep what follows the last `/`, and delete EVERY occurrence of ".git"
      (a global replace, not the removal of a suffix). */
  function DeriveName(stdout: string): (name: string)
    ensures '/' !in name
  {
    var seg := Last(Split(Strip(stdout), "/"));
    LastPieceSpec(Strip(stdout), '/');
    DeleteKeepsCharacters(seg, ".git");
    assert multiset(seg)['/'] == 0;
    Replace(seg, ".git", "")
  }

  /** `get_repo_name()`, given what the lookup command produced: any failure
      of the command (non-zero status, git missing) is caught and gives None. */
  function GetRepoName(o: Outcome): (name: Option<string>)
    ensures name.Some? <==> Succeeds(o)
    ensures name.Some? ==> '/' !in name.value
  {
    if Succeeds(o) then Some(DeriveName(o.stdout))
    else None
  }

  /** The branch after the success banner: an address `https://<name>` is
      shown exactly when there is a name and it contains ".github.io";
      otherwise the fallback advice is printed. The `repo_name and` test
      excludes nothing more, since the empty name cannot contain the marker. */
  function PageUrl(name: Option<string>): (url: Option<string>)
    ensures url.Some? <==> name.Some? && Contains(name.value, ".github.io")
    ensures url.Some? ==> url.value == "https://" + name.value
  {
    if name.Some? && name.value != [] && Contains(name.value, ".github.io") then Some("https://" + name.value)
    else None
  }

  /** A shown address has no path: after "https://" comes a name without `/`. */
  lemma AddressHasNoPath(o: Outcome)
    requires PageUrl(GetRepoName(o)).Some?
    ensures var url := PageUrl(GetRepoName(o)).value;
            url[..8] == "https://" && '/' !in url[8..]
  {
    var url := PageUrl(GetRepoName(o)).value;
    assert url[8..] == GetRepoName(o).value;
  }

  /** A lookup that fails always ends in the fallback advice. */
  lemma FailedLookupFallsBack(o: Outcome)
    requires !Succeeds(o)
    ensures PageUrl(GetRepoName(o)) == None
  {
  }

  /** The output of the lookup for a remote `<prefix>/<seg>` (a line ending
      in a newline) leads the derivation to exactly `seg`. */
  lemma SegmentOfRemote(prefix: string, seg: string)
    requires '/' !in seg && seg != [] && !IsSpace(seg[|seg| - 1])
    requires prefix == [] || !IsSpace(prefix[0])
    ensures Last(Split(Strip(prefix + "/" + seg + "\n"), "/")) == seg
  {
    var url := prefix + "/" + seg;
    assert url[|url| - 1] == seg[|seg| - 1];
    assert url[0] == if prefix == [] then '/' else prefix[0];
    StripTrimmed(url, "\n");
    assert url + "\n" == prefix + "/" + seg + "\n";
    SplitLastAfter(prefix, seg, '/');
  }

  /** When the last segment holds no ".git" at all, the derivation keeps it
      whole. */
  lemma SegmentWithoutGitKept(prefix: string, seg: string)
    requires '/' !in seg && !Contains(seg, ".git")
    requires seg != [] && !IsSpace(seg[|seg| - 1])
    requires prefix == [] || !IsSpace(prefix[0])
    ensures DeriveName(prefix + "/" + seg + "\n") == seg
  {
    SegmentOfRemote(prefix, seg);
    ReplaceAbsent(seg, ".git", "");
  }

  /** For every GitHub Pages remote `.../<owner>.github.io.git` whose owner
      name has no dot, the derived name is `<owner>hub.io`: deleting ".git"
      also eats the ".git" inside ".github". The name then no longer contains
      ".github.io", so no address is ever shown for such a repository. */
  lemma PagesRemoteLosesDotGithub(prefix: string, owner: string)
    requires '/' !in owner && '.' !in owner
    requires prefix == [] || !IsSpace(prefix[0])
    ensures DeriveName(prefix + "/" + owner + ".github.io.git" + "\n") == owner + "hub.io"
    ensures PageUrl(GetRepoName(Completed(0, prefix + "/" + owner + ".github.io.git" + "\n", ""))) == None
  {
    var seg := PagesSegment(owner);
    var stdout := prefix + "/" + owner + ".github.io.git" + "\n";
    assert stdout == prefix + "/" + seg + "\n";
    SegmentOfRemote(prefix, seg);
    ReplaceSkipsPrefix(owner, ".github.io.git", ".git", "");
    DotGithubSuffix();
    var name := owner + "hub.io";
    assert DeriveName(stdout) == name;
    LostNameShowsNoAddress(owner);
    assert GetRepoName(Completed(0, stdout, "")) == Some(name);
  }

  /** `<owner>.github.io.git`, the last segment of a Pages remote. */
  function PagesSegment(owner: string): (seg: string)
    requires '/' !in owner
    ensures seg == owner + ".github.io.git"
    ensures '/' !in seg && seg != [] && !IsSpace(seg[|seg| - 1])
  {
    var seg := owner + ".github.io.git";
    assert '/' !in ".github.io.git";
    seg
  }

  lemma DotGithubSuffix()
    ensures Replace(".github.io.git", ".git", "") == "hub.io"
  {
    DotGithubParts(".github.io.git", ".git", "hub", "io", "");
  }

  /** `.github.io.git` is `.git` + `hub` + `.` + `io` + `.git`: the scan
      deletes the first `.git`, keeps `hub.io`, and deletes the last `.git`.
      The pieces are parameters, pinned by `requires`, so that the verifier
      reasons about them by name rather than unfolding `Replace` on the
      literals character by character. */
  lemma DotGithubParts(s: string, pat: string, hub: string, io: string, empty: string)
    requires s == ".github.io.git" && pat == ".git" && hub == "hub" && io == "io" && empty == ""
    ensures Replace(s, pat, empty) == hub + "." + io
  {
    var tail := "." + io + pat;
    assert s == pat + (hub + tail);
    ReplaceAtFront(pat, hub + tail, empty);
    assert pat[0] !in hub;
    ReplaceSkipsPrefix(hub, tail, pat, empty);
    assert tail[..4] != pat by { assert tail[1] != pat[1]; }
    assert tail[1..] == io + pat;
    assert pat[0] !in io;
    ReplaceSkipsPrefix(io, pat, pat, empty);
    ReplaceAtFront(pat, [], empty);
    assert pat + [] == pat;
    assert Replace([], pat, empty) == [];
  }

  /** The same loss without the ".git" suffix, the other form GitHub gives
      for a remote: `.../<owner>.github.io` also derives `<owner>hub.io`, so
      the loss comes from the ".git" inside ".github" alone. */
  lemma PagesRemoteWithoutSuffixLosesDotGithub(prefix: string, owner: string)
    requires '/' !in owner && '.' !in owner
    requires prefix == [] || !IsSpace(prefix[0])
    ensures DeriveName(prefix + "/" + owner + ".github.io" + "\n") == owner + "hub.io"
    ensures PageUrl(GetRepoName(Completed(0, prefix + "/" + owner + ".github.io" + "\n", ""))) == None
  {
    var seg := owner + ".github.io";
    var stdout := prefix + "/" + owner + ".github.io" + "\n";
    assert stdout == prefix + "/" + seg + "\n";
    assert '/' !in ".github.io";
    assert seg[|seg| - 1] == 'o';
    SegmentOfRemote(prefix, seg);
    ReplaceSkipsPrefix(owner, ".github.io", ".git", "");
    DotGithubIoParts(".github.io", ".git", "hub.io");
    assert DeriveName(stdout) == owner + "hub.io";
    LostNameShowsNoAddress(owner);
    assert GetRepoName(Completed(0, stdout, "")) == Some(owner + "hub.io");
  }

  /** A name that lost its ".git" holds only one dot, so ".github.io" is not
      in it and no address is shown. */
  lemma LostNameShowsNoAddress(owner: string)
    requires '.' !in owner
    ensures PageUrl(Some(owner + "hub.io")) == None
  {
    var name := owner + "hub.io";
    assert name[|owner| + 3] == '.';
    assert forall k :: 0 <= k < |name| && k != |owner| + 3 ==> name[k] != '.' by {
      forall k | 0 <= k < |name| && k != |owner| + 3 ensures name[k] != '.' {
        if k < |owner| { assert name[k] == owner[k]; } else { assert name[k] == "hub.io"[k - |owner|]; }
      }
    }
    ContainsAnchored(name, ".github.io", |owner| + 3);
  }

  /** `.github.io` is `.git` + `hub` + `.io`: the scan deletes the `.git`
      and keeps the rest, too short to hold another. As in `DotGithubParts`,
      the literals are parameters so that `Replace` is not unfolded on them. */
  lemma DotGithubIoParts(s: string, pat: string, rest: string)
    requires s == ".github.io" && pat == ".git" && rest == "hub.io"
    ensures Replace(s, pat, "") == rest
  {
    var hub, io := rest[..3], rest[3..];
    assert rest == hub + io;
    assert s == pat + (hub + io);
    ReplaceAtFront(pat, hub + io, "");
    assert pat[0] !in hub;
    ReplaceSkipsPrefix(hub, io, pat, "");
  }

  /** This repository's own remote: the derived name is "CejasRubenhub.io",
      not the "CejasRuben.github.io" the comment beside the derivation
      announces, and no address is shown. The output is a parameter pinned
      by `requires`, which keeps the derivation from being unfolded on the
      literal. */
  lemma OwnRemoteGivesNoAddress(stdout: string)
    requires stdout == "https://github.com/CejasRuben/CejasRuben.github.io.git\n"
    ensures DeriveName(stdout) == "CejasRubenhub.io"
    ensures PageUrl(GetRepoName(Completed(0, stdout, ""))) == None
  {
    OwnRemoteParts(stdout, "https://github.com/CejasRuben", "CejasRuben");
  }

  /** The remote split into the prefix and owner that
      `PagesRemoteLosesDotGithub` takes, named as parameters for the same
      reason. */
  lemma OwnRemoteParts(stdout: string, prefix: string, owner: string)
    requires stdout == "https://github.com/CejasRuben/CejasRuben.github.io.git\n"
    requires prefix == "https://github.com/CejasRuben" && owner == "CejasRuben"
    ensures DeriveName(stdout) == "CejasRubenhub.io"
    ensures PageUrl(GetRepoName(Completed(0, stdout, ""))) == None
  {
    assert '/' !in owner && '.' !in owner;
    assert !IsSpace(prefix[0]);
    assert stdout == prefix + "/" + owner + ".github.io.git" + "\n";
    PagesRemoteLosesDotGithub(prefix, owner);
    assert owner + "hub.io" == "CejasRubenhub.io";
  }

  /** The derivation the comment describes: drop one trailing ".git" from the
      last segment and leave the rest of the name alone. */
  function DeriveNameIntended(stdout: string): string {
    var seg := Last(Split(Strip(stdout), "/"));
    if EndsWith(seg, ".git") then seg[..|seg| - 4] else seg
  }

  /** With the suffix-only removal, a Pages remote keeps its name and the
      address `https://<owner>.github.io` is shown, for any owner name. */
  lemma IntendedKeepsPagesName(prefix: string, owner: string)
    requires '/' !in owner
    requires prefix == [] || !IsSpace(prefix[0])
    ensures DeriveNameIntended(prefix + "/" + owner + ".github.io.git" + "\n") == owner + ".github.io"
    ensures PageUrl(Some(DeriveNameIntended(prefix + "/" + owner + ".github.io.git" + "\n")))
            == Some("https://" + owner + ".github.io")
  {
    var seg := PagesSegment(owner);
    var stdout := prefix + "/" + owner + ".github.io.git" + "\n";
    assert stdout == prefix + "/" + seg + "\n";
    SegmentOfRemote(prefix, seg);
    assert seg[|seg| - 4..] == ".git";
    assert seg[..|seg| - 4] == owner + ".github.io";
    var name := owner + ".github.io";
    assert name[|owner|..|owner| + 10] == ".github.io";
    assert OccursAt(name, ".github.io", |owner|);
    ContainsIff(name, ".github.io");
    assert DeriveNameIntended(stdout) == name;
    assert "https://" + name == "https://" + owner + ".github.io";
  }

  /** The two derivations agree on every segment that holds no ".git". */
  lemma DerivationsAgreeWithoutGit(stdout: string)
    requires !Contains(Last(Split(Strip(stdout), "/")), ".git")
    ensures DeriveName(stdout) == DeriveNameIntended(stdout)
  {
    var seg := Last(Split(Strip(stdout), "/"));
    ReplaceAbsent(seg, ".git", "");
    ContainsIff(seg, ".git");
    assert !EndsWith(seg, ".git") by {
      assert EndsWith(seg, ".git") ==> OccursAt(seg, ".git", |seg| - 4);
    }
  }

  /** ".git" cannot overlap itself, so a segment `<base>.git` whose base holds
      no ".git" loses exactly its suffix: on the ordinary remote the written
      derivation is right and agrees with the intended one. */
  lemma DerivationsAgreeOnGitSuffix(stdout: string, base: string)
    requires Last(Split(Strip(stdout), "/")) == base + ".git"
    requires !Contains(base, ".git")
    ensures DeriveName(stdout) == base
    ensures DeriveNameIntended(stdout) == base
  {
    DeleteGitSuffix(base);
    var seg := base + ".git";
    assert seg[|seg| - 4..] == ".git";
    assert seg[..|seg| - 4] == base;
  }

  /** Deleting ".git" from `<base>.git` leaves `base` when `base` holds no
      ".git": no occurrence can straddle the end of `base`, since no proper
      suffix of ".git" starts with '.'. */
  lemma {:induction false} DeleteGitSuffix(base: string)
    requires !Contains(base, ".git")
    ensures Replace(base + ".git", ".git", "") == base
    decreases |base|
  {
    var s := base + ".git";
    if base == [] {
      assert s == ".git";
      assert s[..4] == ".git" && s[4..] == [];
    } else {
      assert s[..4] != ".git" by {
        if |base| >= 4 {
          assert s[..4] == base[..4];
        } else {
          assert s[|base|] == '.';
          assert ".git"[|base|] != '.';
        }
      }
      assert !Contains(base[1..], ".git");
      DeleteGitSuffix(base[1..]);
      assert s[1..] == base[1..] + ".git";
      assert base == [base[0]] + base[1..];
    }
  }
}
