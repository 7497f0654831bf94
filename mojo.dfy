/** The `set` goal of the mojo: its four parameters, `getBranch`, which picks the branch from
    the environment or from the repository, and `execute`, which chains getVersion, getBranch
    and the version composition. The process environment is a map from names to values; the
    repository is the value `Branches.Repository`. */
module Mojo {
  import opened Wrappers
  import opened MojoErrors
  import opened Patterns
  import opened Branches
  import opened Suggestions
  import opened Versions

  /** The mojo's parameters branchPattern, versionPattern, branchFromEnvironment and
      branchEnvironmentVariable. */
  datatype Config = Config(
    branchPattern: Pattern,
    versionPattern: Pattern,
    branchFromEnvironment: bool,
    branchEnvironmentVariable: string)

  /** The parameters' default values. */
  const DefaultConfig := Config(DefaultBranchPattern, DefaultVersionPattern, true, "GIT_BRANCH")

  type Environment = map<string, string>

  /** What getBranch produces: the branch or the error it throws, and the names it offers in
      its "Did you mean one of" warning (empty when it warns about nothing). */
  datatype BranchLookup = BranchLookup(branch: Result<string, Error>, suggestions: set<string>)

  /** The environment variable decides the branch. */
  predicate FromEnvironment(config: Config, env: Environment) {
    config.branchFromEnvironment && config.branchEnvironmentVariable in env
  }

  /** The fallback of getBranch: the repository's branch, reduced to its last segment. */
  function RepositoryBranch(repo: Repository): (r: Result<string, Error>)
    ensures repo.Unavailable? ==> r == Failure(RepositoryUnavailable)
    ensures ResolveBranch(repo).Failure? ==> r == Failure(ResolveBranch(repo).error)
    ensures r.Success? ==> ResolveBranch(repo).Success? && '/' !in r.value
    ensures ResolveBranch(repo).Success? ==> r == LastPartOfBranch(ResolveBranch(repo).value)
  {
    var branch :- ResolveBranch(repo);
    LastPartOfBranch(branch)
  }

  /** getBranch. */
  function GetBranch(config: Config, env: Environment, repo: Repository): (r: BranchLookup)
    ensures FromEnvironment(config, env) ==>
      r == BranchLookup(LastPartOfBranch(env[config.branchEnvironmentVariable]), {})
    ensures !FromEnvironment(config, env) ==> r.branch == RepositoryBranch(repo)
    ensures forall x :: x in r.suggestions <==>
      && config.branchFromEnvironment && config.branchEnvironmentVariable !in env
      && x in env && Near(x, config.branchEnvironmentVariable)
  {
    var name := config.branchEnvironmentVariable;
    if config.branchFromEnvironment && name in env then
      BranchLookup(LastPartOfBranch(env[name]), {})
    else
      var suggestions := if config.branchFromEnvironment then set x | x in env.Keys && Near(x, name) else {};
      BranchLookup(RepositoryBranch(repo), suggestions)
  }

  /** execute, with the version it hands to the versions plugin as its result. */
  function Execute(config: Config, projectVersion: string, env: Environment, repo: Repository): (r: Result<string, Error>)
    ensures GetVersion(projectVersion, config.versionPattern).Failure? ==>
      r == Failure(GetVersion(projectVersion, config.versionPattern).error)
    ensures GetVersion(projectVersion, config.versionPattern).Success? && GetBranch(config, env, repo).branch.Failure? ==>
      r == Failure(GetBranch(config, env, repo).branch.error)
    ensures r.Success? ==>
      && GetVersion(projectVersion, config.versionPattern).Success?
      && GetBranch(config, env, repo).branch.Success?
      && '/' !in GetBranch(config, env, repo).branch.value
    ensures GetVersion(projectVersion, config.versionPattern).Success? && GetBranch(config, env, repo).branch.Success? ==>
      r == Compose(GetVersion(projectVersion, config.versionPattern).value, GetBranch(config, env, repo).branch.value, config.branchPattern)
  {
    var version :- GetVersion(projectVersion, config.versionPattern);
    var branch :- GetBranch(config, env, repo).branch;
    Compose(version, branch, config.branchPattern)
  }

  /** When the variable is set, the repository is never consulted: any two repositories give
      the same branch and the same version. */
  lemma EnvironmentOverridesRepository(config: Config, projectVersion: string, env: Environment, a: Repository, b: Repository)
    requires FromEnvironment(config, env)
    ensures GetBranch(config, env, a) == GetBranch(config, env, b)
    ensures Execute(config, projectVersion, env, a) == Execute(config, projectVersion, env, b)
  {
  }

  /** With branchFromEnvironment off, the environment is never consulted. */
  lemma DisabledIgnoresEnvironment(config: Config, projectVersion: string, e: Environment, f: Environment, repo: Repository)
    requires !config.branchFromEnvironment
    ensures GetBranch(config, e, repo) == GetBranch(config, f, repo)
    ensures GetBranch(config, e, repo).suggestions == {}
    ensures Execute(config, projectVersion, e, repo) == Execute(config, projectVersion, f, repo)
  {
  }

  /** Whatever the environment variable's value, the branch execute composes with has no '/'
      in it, so an RC version depends only on the last segment containing "release". */
  lemma ExecuteUsesLastSegment(config: Config, projectVersion: string, env: Environment, repo: Repository)
    requires FromEnvironment(config, env)
    requires GetVersion(projectVersion, config.versionPattern).Success?
    requires !NoSegment(env[config.branchEnvironmentVariable])
    ensures var branch := LastPartOfBranch(env[config.branchEnvironmentVariable]).value;
      Execute(config, projectVersion, env, repo) ==
        Compose(GetVersion(projectVersion, config.versionPattern).value, branch, config.branchPattern)
  {
  }

  /** GIT_BRANCH=release/ABC-42-hotfix with the defaults: the check for "release" sees only
      `ABC-42-hotfix`, so the version is a plain snapshot, not a release candidate. */
  lemma ReleasePathExample(repo: Repository)
    ensures Execute(DefaultConfig, "1.2.3-dev", map["GIT_BRANCH" := "release" + "/" + "ABC-42-hotfix"], repo) ==
      Success("1.2.3" + "-" + "ABC-42" + "-SNAPSHOT")
  {
    var env := map["GIT_BRANCH" := "release" + "/" + "ABC-42-hotfix"];
    DefaultVersionStripsQualifier();
    LastPartAfterSlash("release", "ABC-42-hotfix");
    assert GetBranch(DefaultConfig, env, repo).branch == Success("ABC-42-hotfix");
    ComposeHotfixExample("1.2.3");
  }

  /** GIT_BRANCH unset, a misspelling of it such as GIT_BRANCHH (see `NearTypo`) set, and HEAD
      detached at a commit that a local and a remote-tracking branch of the same name point
      at: the misspelling is suggested and the build fails on the two candidates. */
  lemma DetachedWithoutVariableExample(c: CommitId, p: string, q: string, name: string, typo: string)
    requires IsObjectId(c)
    requires name != "" && '/' !in name && name != "HEAD"
    requires typo != "GIT_BRANCH" && Near(typo, "GIT_BRANCH")
    ensures var lookup := GetBranch(DefaultConfig, map[typo := name], Available(c, Some(c), [Ref(p + "/" + name, c), Ref(q + "/" + name, c)]));
      && typo in lookup.suggestions
      && lookup.branch == Failure(AmbiguousBranches([name, name]))
  {
    ResolveDetachedAmbiguous(c, p, name, q, name);
  }

  /** The warning getBranch logs when the variable is missing: getPossibleVariables over the
      environment's names yields exactly the suggestions of the lookup, each once. */
  method MissingVariableWarning(config: Config, env: Environment, repo: Repository) returns (names: seq<string>)
    requires config.branchFromEnvironment && config.branchEnvironmentVariable !in env
    ensures forall x :: x in names <==> x in GetBranch(config, env, repo).suggestions
    ensures forall i, j :: 0 <= i < j < |names| ==> names[i] != names[j]
  {
    names := GetPossibleVariables(env.Keys, config.branchEnvironmentVariable);
  }
}
