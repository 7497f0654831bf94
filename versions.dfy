/** The version arithmetic of the mojo: `getVersion`, which cuts the MAJOR.MINOR.MICRO part out
    of the project version, and the decision chain of `execute`, which turns that part and the
    branch name into the version handed to the versions plugin. */
module Versions {
  import opened Wrappers
  import opened MojoErrors
  import opened Patterns

  /** getVersion: capturing group 1 of a full match of `versionPattern` against the project
      version. */
  function GetVersion(projectVersion: string, versionPattern: Pattern): (r: Result<string, Error>)
    ensures r.Success? <==>
      versionPattern.fullMatch(projectVersion).Some? && |versionPattern.fullMatch(projectVersion).value| > 0
    ensures r.Success? ==> r.value == versionPattern.fullMatch(projectVersion).value[0]
    ensures versionPattern.fullMatch(projectVersion).None? ==> r == Failure(UnparsableVersion(projectVersion))
    ensures r.Failure? && versionPattern.fullMatch(projectVersion).Some? ==>
      r == Failure(MissingVersionGroup(versionPattern.source))
  {
    match versionPattern.fullMatch(projectVersion)
    case None => Failure(UnparsableVersion(projectVersion))
    case Some(groups) =>
      if |groups| == 0 then Failure(MissingVersionGroup(versionPattern.source)) else Success(groups[0])
  }

  /** With the default `(\d+\.\d+\.\d+).*`, getVersion fails exactly on the versions outside the
      language, never for want of a group, and otherwise yields the longest leading
      MAJOR.MINOR.MICRO. */
  lemma DefaultVersion(projectVersion: string)
    ensures GetVersion(projectVersion, DefaultVersionPattern).Success? <==> FullMatch(projectVersion, IsDigit, '.', 3)
    ensures GetVersion(projectVersion, DefaultVersionPattern).Failure? ==>
      GetVersion(projectVersion, DefaultVersionPattern).error == UnparsableVersion(projectVersion)
    ensures GetVersion(projectVersion, DefaultVersionPattern).Success? ==>
      var v := GetVersion(projectVersion, DefaultVersionPattern).value;
      && v == projectVersion[..|v|]
      && Runs(projectVersion, 0, |v|, IsDigit, '.', 3)
      && forall e :: |v| < e <= |projectVersion| ==> !Runs(projectVersion, 0, e, IsDigit, '.', 3)
  {
    MatchRunsCorrect(projectVersion, IsDigit, '.', 3);
  }

  lemma DefaultVersionStripsQualifier()
    ensures GetVersion("1.2.3-dev", DefaultVersionPattern) == Success("1.2.3")
  {
    DefaultVersionExample();
  }

  // ---------------------------------------------------------------------------------------
  // String.contains

  /** `sub` occurs in `s` at position `i`. */
  predicate OccursAt(s: string, sub: string, i: nat)
    requires i + |sub| <= |s|
  {
    s[i..i + |sub|] == sub
  }

  /** Whether `sub` occurs in `s` at some position from `i` on. */
  function ContainsFrom(s: string, sub: string, i: nat): (r: bool)
    requires i <= |s|
    ensures r <==> exists j :: i <= j && j + |sub| <= |s| && OccursAt(s, sub, j)
    decreases |s| - i
  {
    if i + |sub| > |s| then false else OccursAt(s, sub, i) || ContainsFrom(s, sub, i + 1)
  }

  /** String.contains. */
  function Contains(s: string, sub: string): (r: bool)
    ensures r <==> exists j :: 0 <= j && j + |sub| <= |s| && OccursAt(s, sub, j)
  {
    ContainsFrom(s, sub, 0)
  }

  /** A string in which the first letter of `sub` never appears does not contain `sub`. */
  lemma FirstLetterMissing(s: string, sub: string)
    requires |sub| > 0 && sub[0] !in s
    ensures !Contains(s, sub)
  {
    forall j | 0 <= j && j + |sub| <= |s|
      ensures !OccursAt(s, sub, j)
    {
      assert s[j..j + |sub|][0] == s[j];
    }
  }

  /** A string contains itself inside any context. */
  lemma ContainsInfix(p: string, sub: string, t: string)
    ensures Contains(p + sub + t, sub)
  {
    var s := p + sub + t;
    assert s[|p|..|p| + |sub|] == sub;
    assert OccursAt(s, sub, |p|);
  }

  // ---------------------------------------------------------------------------------------
  // The decision chain of execute

  /** The version `execute` sets for the (already normalised) `branch`: develop and master
      bypass `branchPattern`; any other branch must match it fully and contributes its group 1,
      with an RC marker when it contains "release". */
  function Compose(version: string, branch: string, branchPattern: Pattern): (r: Result<string, Error>)
    ensures r.Success? ==> |version| <= |r.value| && r.value[..|version|] == version
    ensures r.Failure? ==> branch != "develop" && branch != "master"
    ensures r.Failure? ==>
      r.error == UnparsableBranch(branch) || r.error == MissingBranchGroup(branchPattern.source)
    ensures branch != "develop" && branch != "master" && branchPattern.fullMatch(branch).None? ==>
      r == Failure(UnparsableBranch(branch))
  {
    if branch == "develop" then Success(version + "-SNAPSHOT")
    else if branch == "master" then Success(version)
    else match branchPattern.fullMatch(branch)
      case None => Failure(UnparsableBranch(branch))
      case Some(groups) =>
        if |groups| == 0 then Failure(MissingBranchGroup(branchPattern.source))
        else if Contains(branch, "release") then Success(version + "-" + groups[0] + "-RC-SNAPSHOT")
        else Success(version + "-" + groups[0] + "-SNAPSHOT")
  }

  /** develop and master never consult the branch pattern: any two patterns give the same
      version, `version-SNAPSHOT` and `version` respectively. */
  lemma ComposeSpecialBranches(version: string, p: Pattern, q: Pattern)
    ensures Compose(version, "develop", p) == Compose(version, "develop", q) == Success(version + "-SNAPSHOT")
    ensures Compose(version, "master", p) == Compose(version, "master", q) == Success(version)
  {
  }

  /** For any other branch matched with group 1 `issue`, the version is `version-issue-SNAPSHOT`,
      or `version-issue-RC-SNAPSHOT` exactly when the branch contains "release". */
  lemma ComposeMatched(version: string, branch: string, p: Pattern)
    requires branch != "develop" && branch != "master"
    requires p.fullMatch(branch).Some? && |p.fullMatch(branch).value| > 0
    ensures var issue := p.fullMatch(branch).value[0];
      Compose(version, branch, p) ==
        if Contains(branch, "release") then Success(version + "-" + issue + "-RC-SNAPSHOT")
        else Success(version + "-" + issue + "-SNAPSHOT")
  {
  }

  /** An issue key the default branch pattern can capture: exactly one '-', at `m`, with word
      characters on both sides. */
  ghost predicate DashOnlyAt(x: string, m: nat) {
    && 0 < m < |x| - 1 && x[m] == '-'
    && forall k :: 0 <= k < |x| && k != m ==> IsWordChar(x[k])
  }

  ghost predicate IssueShape(x: string) {
    exists m :: DashOnlyAt(x, m)
  }

  /** With `(\w+\-\w+).*`, the group is always an issue-shaped key. */
  lemma DefaultGroupShape(branch: string)
    requires DefaultBranchMatch(branch).Some?
    ensures |DefaultBranchMatch(branch).value| == 1
    ensures IssueShape(DefaultBranchMatch(branch).value[0])
  {
    MatchRunsCorrect(branch, IsWordChar, '-', 2);
    var g := DefaultBranchMatch(branch).value[0];
    var m :| SplitsAt(branch, 0, m, |g|, IsWordChar, '-', 2);
    assert DashOnlyAt(g, m);
  }

  /** Reads the issue key and the RC marker back out of a version composed from `version`. */
  ghost function DecodeComposed(version: string, composed: string): (r: Option<(string, bool)>)
    ensures r.Some? ==> |version| < |composed|
  {
    if |composed| < |version| || composed[..|version|] != version then None
    else
      var rest := composed[|version|..];
      if |rest| >= 13 && rest[0] == '-' && rest[|rest| - 12..] == "-RC-SNAPSHOT" && IssueShape(rest[1..|rest| - 12])
      then Some((rest[1..|rest| - 12], true))
      else if |rest| >= 10 && rest[0] == '-' && rest[|rest| - 9..] == "-SNAPSHOT"
      then Some((rest[1..|rest| - 9], false))
      else None
  }

  lemma DecodeCandidate(version: string, issue: string)
    requires IssueShape(issue)
    ensures DecodeComposed(version, version + "-" + issue + "-RC-SNAPSHOT") == Some((issue, true))
  {
    var composed := version + "-" + issue + "-RC-SNAPSHOT";
    assert composed[..|version|] == version;
    var rest := composed[|version|..];
    assert rest == "-" + issue + "-RC-SNAPSHOT";
    assert rest[1..|rest| - 12] == issue;
    assert rest[|rest| - 12..] == "-RC-SNAPSHOT";
  }

  lemma DecodeSnapshot(version: string, issue: string)
    requires IssueShape(issue)
    ensures DecodeComposed(version, version + "-" + issue + "-SNAPSHOT") == Some((issue, false))
  {
    var composed := version + "-" + issue + "-SNAPSHOT";
    assert composed[..|version|] == version;
    var rest := composed[|version|..];
    assert rest == "-" + issue + "-SNAPSHOT";
    assert rest[1..|rest| - 9] == issue;
    assert rest[|rest| - 9..] == "-SNAPSHOT";
    if |rest| >= 13 && rest[|rest| - 12..] == "-RC-SNAPSHOT" && IssueShape(rest[1..|rest| - 12]) {
      NotCandidateShape(issue, rest);
    }
  }

  /** `-issue-SNAPSHOT` read as `-middle-RC-SNAPSHOT` leaves a middle without a dash. */
  lemma NotCandidateShape(issue: string, rest: string)
    requires IssueShape(issue)
    requires rest == "-" + issue + "-SNAPSHOT"
    requires |rest| >= 13 && rest[|rest| - 12..] == "-RC-SNAPSHOT"
    ensures !IssueShape(rest[1..|rest| - 12])
  {
    var m :| DashOnlyAt(issue, m);
    var mid := rest[1..|rest| - 12];
    assert rest[|rest| - 12] == '-' && rest[|rest| - 12] == issue[|issue| - 3];
    assert m == |issue| - 3;
    assert |mid| == |issue| - 3;
    forall k | 0 <= k < |mid|
      ensures mid[k] != '-'
    {
      assert mid[k] == issue[k];
    }
  }

  /** With the default branch pattern the composed version determines the issue key and
      whether the branch counted as a release branch: no two such branches with different
      keys or different release status share a version. */
  lemma DefaultComposeDecodes(version: string, branch: string)
    requires branch != "develop" && branch != "master"
    requires Compose(version, branch, DefaultBranchPattern).Success?
    ensures DefaultBranchMatch(branch).Some?
    ensures DecodeComposed(version, Compose(version, branch, DefaultBranchPattern).value) ==
      Some((DefaultBranchMatch(branch).value[0], Contains(branch, "release")))
  {
    DefaultGroupShape(branch);
    var issue := DefaultBranchMatch(branch).value[0];
    if Contains(branch, "release") {
      DecodeCandidate(version, issue);
    } else {
      DecodeSnapshot(version, issue);
    }
  }

  /** With the default branch pattern no error names a missing group, and a branch fails
      exactly when it lies outside `\w+\-\w+.*`. */
  lemma DefaultBranchErrors(version: string, branch: string)
    requires branch != "develop" && branch != "master"
    ensures Compose(version, branch, DefaultBranchPattern).Failure? <==> !FullMatch(branch, IsWordChar, '-', 2)
    ensures Compose(version, branch, DefaultBranchPattern).Failure? ==>
      Compose(version, branch, DefaultBranchPattern).error == UnparsableBranch(branch)
  {
    MatchRunsCorrect(branch, IsWordChar, '-', 2);
  }

  /** A branch that does not contain "release" and whose default group is `issue`. */
  lemma DefaultSnapshot(version: string, branch: string, issue: string)
    requires branch != "develop" && branch != "master"
    requires DefaultBranchMatch(branch) == Some([issue]) && !Contains(branch, "release")
    ensures Compose(version, branch, DefaultBranchPattern) == Success(version + "-" + issue + "-SNAPSHOT")
  {
  }

  /** `ABC-42-hotfix` under the default pattern, for any version. */
  lemma ComposeHotfixExample(version: string)
    ensures Compose(version, "ABC-42-hotfix", DefaultBranchPattern) == Success(version + "-" + "ABC-42" + "-SNAPSHOT")
  {
    var branch := "ABC-42-hotfix";
    DefaultBranchExample();
    assert 'r' !in branch;
    FirstLetterMissing(branch, "release");
    DefaultSnapshot(version, branch, "ABC-42");
  }
}
