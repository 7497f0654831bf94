# git-branch-as-version, modelled in Dafny

The `set` goal of the Maven plugin `SetMavenVersionFromGitBranch` rewrites a project's
version from the git branch it is built on:

- it cuts MAJOR.MINOR.MICRO out of the project version with `versionPattern`;
- it finds the branch, either from an environment variable (`GIT_BRANCH` by default) or
  from the repository;
- it reduces the branch to the last `/`-separated segment of its name;
- it composes the new version:
  - `develop` gives `1.2.3-SNAPSHOT` and `master` gives `1.2.3`;
  - any other branch must match `branchPattern` and contributes its issue key:
    `1.2.3-ABC-42-SNAPSHOT`, or `1.2.3-ABC-42-RC-SNAPSHOT` when the branch contains
    `release`.

When HEAD is detached, the repository reports a commit id. The plugin then looks for the
one branch whose reference points at that commit. When the variable is missing, the plugin
suggests environment names within Levenshtein distance 10 of it.

The model is a set of Dafny modules:

- `Wrappers`: `Option` and `Result`.
- `MojoErrors`: one error kind for each way the goal can fail.
- `Patterns`: the two default regular expressions as concrete matchers over Java's ASCII
  `\w` and `\d`. Each matcher is proved equal to a declarative description of its
  language, with group 1 as the longest prefix in that language. This module also has the
  leftmost-longest search for `ISSUE_KEY_REGEX`.
- `Branches`: `lastPartOfBranch` with Java's `String.split` semantics, `isObjectId`, the
  `branchesForCommit` stream pipeline and detached-HEAD resolution.
- `Suggestions`: the Levenshtein distance as a recursive definition, and
  `getPossibleVariables` as a loop over the environment's names.
- `Versions`: `getVersion`, `String.contains` and the decision chain of `execute`.
- `Mojo`: the configuration, `getBranch` and `execute`.

User-supplied patterns stay abstract. A `Pattern` is its source text together with a
full-match function that returns the capturing groups. The process environment is a map
from names to values. The repository is a value: it holds what `Repository.getBranch`
reports, what `resolve` makes of that name, and the references in the order `getAllRefs`
lists them.

Three consequences of the code that are easy to miss:

- Only `master` is special-cased. There is no `main` alias.
- The `release` test runs on the last segment of the branch name. So
  `GIT_BRANCH=release/ABC-42-hotfix` gives `1.2.3-ABC-42-SNAPSHOT`, not an RC version
  (`Mojo.ReleasePathExample`).
- With the default `GIT_BRANCH`, every environment name of at most 10 characters is
  suggested, `UNRELATED` included (`Suggestions.NearUnrelated`). The distance between two
  strings never exceeds the length of the longer one.

## Model

All source paths are `src/main/java/de/qwizzle/tool/branchinversion/SetMavenVersionFromGitBranch.java`.

| member | source | states |
|---|---|---|
| `Patterns.Span` | src/main/java/de/qwizzle/tool/branchinversion/SetMavenVersionFromGitBranch.java:54 | a greedy `X+` run: every character before the end is in the class, and the character at the end is not |
| `Patterns.RunsEndSound` | src/main/java/de/qwizzle/tool/branchinversion/SetMavenVersionFromGitBranch.java:54-58 | where the greedy parse of `X+(sep X+){n-1}` ends, the prefix belongs to that language |
| `Patterns.RunsEndComplete` | src/main/java/de/qwizzle/tool/branchinversion/SetMavenVersionFromGitBranch.java:54-58 | every prefix in the language ends no later than the greedy parse, so the backtracking matcher never has to give a character back |
| `Patterns.RunsFirstSeparator` | src/main/java/de/qwizzle/tool/branchinversion/SetMavenVersionFromGitBranch.java:54-58 | in a word of the language, the first separator is where the first greedy run stops |
| `Patterns.SpanReaches` | src/main/java/de/qwizzle/tool/branchinversion/SetMavenVersionFromGitBranch.java:54-58 | a greedy run covers every class run that starts at the same place |
| `Patterns.MatchRunsCorrect` | src/main/java/de/qwizzle/tool/branchinversion/SetMavenVersionFromGitBranch.java:84-86 | `matches()` of `(X+(sep X+){n-1}).*` succeeds exactly on that language followed by a line without terminators; its one group is the longest prefix in `X+(sep X+){n-1}` |
| `Patterns.RunsEnd` | src/main/java/de/qwizzle/tool/branchinversion/SetMavenVersionFromGitBranch.java:84-86 | where the greedy parse of `X+(sep X+){n-1}` ends, if it gets through all `n` runs; the end lies strictly after the start and within the input |
| `Patterns.MatchRuns` | src/main/java/de/qwizzle/tool/branchinversion/SetMavenVersionFromGitBranch.java:84-86 | `matches()` with group 1 for `(X+(sep X+){n-1}).*`: on success exactly one group, a non-empty prefix of the input followed by a tail without line terminators |
| `Patterns.DefaultBranchMatch` | src/main/java/de/qwizzle/tool/branchinversion/SetMavenVersionFromGitBranch.java:54 | the default `branchPattern`: matches exactly the language of `(\w+\-\w+).*`, and group 1 is the longest prefix in `\w+\-\w+` |
| `Patterns.DefaultVersionMatch` | src/main/java/de/qwizzle/tool/branchinversion/SetMavenVersionFromGitBranch.java:57 | the default `versionPattern`: matches exactly the language of `(\d+\.\d+\.\d+).*`, and group 1 is the longest prefix in `\d+\.\d+\.\d+` |
| `Patterns.DefaultBranchExample` | src/main/java/de/qwizzle/tool/branchinversion/SetMavenVersionFromGitBranch.java:54-55 | the default branch pattern captures `ABC-42` from `ABC-42-hotfix` |
| `Patterns.DefaultVersionExample` | src/main/java/de/qwizzle/tool/branchinversion/SetMavenVersionFromGitBranch.java:57-58 | the default version pattern captures `1.2.3` from `1.2.3-dev` |
| `Patterns.IssueKeyAt` | src/main/java/de/qwizzle/tool/branchinversion/SetMavenVersionFromGitBranch.java:43 | a match attempt of `\w\w+\-\d+` at one position ends after that position and inside the input |
| `Patterns.IssueKeyAtReaches` | src/main/java/de/qwizzle/tool/branchinversion/SetMavenVersionFromGitBranch.java:43 | every issue key that starts at a position ends no later than the greedy attempt there |
| `Patterns.IssueKeyAtCorrect` | src/main/java/de/qwizzle/tool/branchinversion/SetMavenVersionFromGitBranch.java:43 | the attempt at a position fails only when no issue key starts there, and otherwise finds the longest one |
| `Patterns.FindIssueKey` | src/main/java/de/qwizzle/tool/branchinversion/SetMavenVersionFromGitBranch.java:198-199 | `find()` returns the leftmost issue key, taken as long as possible, and fails only when the input holds none |
| `Patterns.ExtractIssue` | src/main/java/de/qwizzle/tool/branchinversion/SetMavenVersionFromGitBranch.java:196-206 | no result (Java's null) exactly when the branch name holds no issue key; otherwise the result is the issue key `find()` returns: no key starts further left, and none starting at the same place is longer |
| `Branches.Pieces` | src/main/java/de/qwizzle/tool/branchinversion/SetMavenVersionFromGitBranch.java:253 | cutting at every `/` gives at least one piece and no piece holds a `/`; there is one piece exactly when the input has no `/`; the last piece is non-empty when the input does not end in `/` |
| `Branches.JoinPieces` | src/main/java/de/qwizzle/tool/branchinversion/SetMavenVersionFromGitBranch.java:253 | joining the pieces with `/` gives back the input |
| `Branches.DropTrailingEmpty` | src/main/java/de/qwizzle/tool/branchinversion/SetMavenVersionFromGitBranch.java:253 | `split` drops exactly the trailing empty strings: the result is a prefix, everything after it is empty, and its own last element is not |
| `Branches.Split` | src/main/java/de/qwizzle/tool/branchinversion/SetMavenVersionFromGitBranch.java:253 | no element of `branch.split("/")` holds a `/` |
| `Branches.StripTrailingSlashes` | src/main/java/de/qwizzle/tool/branchinversion/SetMavenVersionFromGitBranch.java:253 | the longest prefix that does not end in `/`; what it removes is all slashes |
| `Branches.LastSegment` | src/main/java/de/qwizzle/tool/branchinversion/SetMavenVersionFromGitBranch.java:254 | the longest suffix without `/` |
| `Branches.LastPieceIsLastSegment` | src/main/java/de/qwizzle/tool/branchinversion/SetMavenVersionFromGitBranch.java:253-254 | the last piece is the longest suffix without `/` |
| `Branches.PiecesSlash` | src/main/java/de/qwizzle/tool/branchinversion/SetMavenVersionFromGitBranch.java:253 | one more trailing `/` adds one empty piece |
| `Branches.DropPiecesStrip` | src/main/java/de/qwizzle/tool/branchinversion/SetMavenVersionFromGitBranch.java:253 | trailing slashes do not change the split |
| `Branches.SplitLast` | src/main/java/de/qwizzle/tool/branchinversion/SetMavenVersionFromGitBranch.java:253-254 | the split is empty exactly for a non-empty name made only of slashes; otherwise its last element is the last segment once the trailing slashes are gone |
| `Branches.SplitWithoutSlash` | src/main/java/de/qwizzle/tool/branchinversion/SetMavenVersionFromGitBranch.java:253 | a name without `/` splits into itself alone |
| `Branches.SplitAllSlashes` | src/main/java/de/qwizzle/tool/branchinversion/SetMavenVersionFromGitBranch.java:253 | a name of slashes only splits into nothing |
| `Branches.SplitWithSegment` | src/main/java/de/qwizzle/tool/branchinversion/SetMavenVersionFromGitBranch.java:253-254 | a name with a segment splits into a non-empty array whose last element is the last segment after stripping |
| `Branches.LastSegmentWhole` | src/main/java/de/qwizzle/tool/branchinversion/SetMavenVersionFromGitBranch.java:254 | a name without `/` is its own last segment |
| `Branches.LastPartOfBranch` | src/main/java/de/qwizzle/tool/branchinversion/SetMavenVersionFromGitBranch.java:251-255 | fails (Java's array index -1) exactly for a non-empty name made only of slashes; the result holds no `/`; a name without `/` is returned unchanged |
| `Branches.StripNoSegment` | src/main/java/de/qwizzle/tool/branchinversion/SetMavenVersionFromGitBranch.java:253-254 | stripping leaves nothing of a non-empty input exactly when it is all slashes |
| `Branches.LastPartIsLastOfSplit` | src/main/java/de/qwizzle/tool/branchinversion/SetMavenVersionFromGitBranch.java:253-254 | `LastPartOfBranch` is `split[split.length - 1]` of Java's `split("/")`, and fails exactly when that array is empty |
| `Branches.LastPartNonEmpty` | src/main/java/de/qwizzle/tool/branchinversion/SetMavenVersionFromGitBranch.java:251-255 | the last part is empty only for the empty name |
| `Branches.SegmentEmpty` | src/main/java/de/qwizzle/tool/branchinversion/SetMavenVersionFromGitBranch.java:253-254 | the last segment after stripping is empty exactly for a name made only of slashes |
| `Branches.LastPartIgnoresTrailingSlash` | src/main/java/de/qwizzle/tool/branchinversion/SetMavenVersionFromGitBranch.java:251-255 | for a name not made only of slashes, a trailing `/` does not change the last part |
| `Branches.LastPartIdempotent` | src/main/java/de/qwizzle/tool/branchinversion/SetMavenVersionFromGitBranch.java:251-255 | taking the last part twice is taking it once |
| `Branches.LastPartTrailingSlash` | src/main/java/de/qwizzle/tool/branchinversion/SetMavenVersionFromGitBranch.java:251-255 | `p/x/` gives `x` (`a/b/` gives `b`) |
| `Branches.LastPartSlashExample` | src/main/java/de/qwizzle/tool/branchinversion/SetMavenVersionFromGitBranch.java:253-254 | `/` alone has no last part |
| `Branches.LastPartAfterSlash` | src/main/java/de/qwizzle/tool/branchinversion/SetMavenVersionFromGitBranch.java:251-255 | `p/x` gives `x` for any non-empty `x` without `/` (`refs/heads/feature/ABC-123` gives `ABC-123`) |
| `Branches.LastSegmentAfterSlash` | src/main/java/de/qwizzle/tool/branchinversion/SetMavenVersionFromGitBranch.java:254 | the last segment of `u/x` is `x` |
| `Branches.LastSegmentAt` | src/main/java/de/qwizzle/tool/branchinversion/SetMavenVersionFromGitBranch.java:254 | after the last slash of a name comes its last segment |
| `Branches.LowerChar` | src/main/java/de/qwizzle/tool/branchinversion/SetMavenVersionFromGitBranch.java:238 | `toLowerCase` of one character: upper-case ASCII letters move down by 32, and every other character stays |
| `Branches.ToLowerAscii` | src/main/java/de/qwizzle/tool/branchinversion/SetMavenVersionFromGitBranch.java:238 | lower-casing keeps the length and lower-cases each character |
| `Branches.IsObjectId` | src/main/java/de/qwizzle/tool/branchinversion/SetMavenVersionFromGitBranch.java:236-239 | true exactly for a non-empty name whose every character is a hexadecimal digit, either case |
| `Branches.ObjectIdExamples` | src/main/java/de/qwizzle/tool/branchinversion/SetMavenVersionFromGitBranch.java:236-239 | `deadbeef` and `DEADBEEF` are commit ids |
| `Branches.NotObjectIdExamples` | src/main/java/de/qwizzle/tool/branchinversion/SetMavenVersionFromGitBranch.java:236-239 | `feature/x` and the empty name are not commit ids |
| `Branches.Candidate` | src/main/java/de/qwizzle/tool/branchinversion/SetMavenVersionFromGitBranch.java:244-247 | what one reference adds: its last part, exactly when it points at the commit and that part is not `HEAD` |
| `Branches.BranchesForCommit` | src/main/java/de/qwizzle/tool/branchinversion/SetMavenVersionFromGitBranch.java:241-249 | never more candidates than references |
| `Branches.BranchesForCommitStep` | src/main/java/de/qwizzle/tool/branchinversion/SetMavenVersionFromGitBranch.java:243-248 | the first reference either stops the pipeline with its error or puts its candidate in front of the rest's |
| `Branches.BranchesForCommitSucceeds` | src/main/java/de/qwizzle/tool/branchinversion/SetMavenVersionFromGitBranch.java:243-248 | the pipeline fails exactly when a reference at the commit has a name made only of slashes |
| `Branches.BranchesForCommitMembers` | src/main/java/de/qwizzle/tool/branchinversion/SetMavenVersionFromGitBranch.java:243-248 | a name is a candidate exactly when some reference at the commit has it as its last part and it is not `HEAD` |
| `Branches.BranchesForCommitFailure` | src/main/java/de/qwizzle/tool/branchinversion/SetMavenVersionFromGitBranch.java:243-248 | a failure carries the name of the first reference at the commit that has no last part |
| `Branches.BranchesForCommitAppend` | src/main/java/de/qwizzle/tool/branchinversion/SetMavenVersionFromGitBranch.java:243-248 | reference order is kept: the candidates of `a + b` are those of `a` followed by those of `b` |
| `Branches.BranchesForCommitCons` | src/main/java/de/qwizzle/tool/branchinversion/SetMavenVersionFromGitBranch.java:243-248 | one more reference in front adds its candidate in front |
| `Branches.BranchesForCommitSingle` | src/main/java/de/qwizzle/tool/branchinversion/SetMavenVersionFromGitBranch.java:243-248 | a single reference yields its own candidate |
| `Branches.BranchesForCommitPair` | src/main/java/de/qwizzle/tool/branchinversion/SetMavenVersionFromGitBranch.java:243-248 | two references yield their two candidates in order |
| `Branches.BranchesForCommitDuplicates` | src/main/java/de/qwizzle/tool/branchinversion/SetMavenVersionFromGitBranch.java:243-248 | `HEAD`, a local branch `name`, a reference at another commit and a remote branch `name` give `[name, name]`: duplicates stay, `HEAD` and other commits drop out |
| `Branches.DuplicatesWithoutHead` | src/main/java/de/qwizzle/tool/branchinversion/SetMavenVersionFromGitBranch.java:243-248 | the same list without `HEAD` gives `[name, name]` too |
| `Branches.CandidateHead` | src/main/java/de/qwizzle/tool/branchinversion/SetMavenVersionFromGitBranch.java:247 | a `HEAD` reference contributes nothing |
| `Branches.CandidateAfterSlash` | src/main/java/de/qwizzle/tool/branchinversion/SetMavenVersionFromGitBranch.java:244-247 | a reference `p/x` at the commit contributes `x` |
| `Branches.ResolveBranch` | src/main/java/de/qwizzle/tool/branchinversion/SetMavenVersionFromGitBranch.java:208-234 | an unopenable repository fails; a branch that is not a commit id is returned unchanged; for a commit id, the result is the single candidate, the list of candidates when there is not exactly one, or the pipeline's own error |
| `Branches.ResolveDetachedUnique` | src/main/java/de/qwizzle/tool/branchinversion/SetMavenVersionFromGitBranch.java:219-227 | detached at a commit that one branch points at, that branch is the answer |
| `Branches.ResolveDetachedAmbiguous` | src/main/java/de/qwizzle/tool/branchinversion/SetMavenVersionFromGitBranch.java:219-225 | detached at a commit that two branches point at, the result is the ambiguity error listing both, even for equal names |
| `Branches.ResolveUnresolved` | src/main/java/de/qwizzle/tool/branchinversion/SetMavenVersionFromGitBranch.java:219-225 | a commit id that `resolve` cannot find gives the ambiguity error with no candidates |
| `Branches.UnresolvedMatchesNothing` | src/main/java/de/qwizzle/tool/branchinversion/SetMavenVersionFromGitBranch.java:244 | no reference points at a missing object id |
| `Suggestions.Min3` | src/main/java/de/qwizzle/tool/branchinversion/SetMavenVersionFromGitBranch.java:186-187 | the least of three distances |
| `Suggestions.EditDistance` | src/main/java/de/qwizzle/tool/branchinversion/SetMavenVersionFromGitBranch.java:186-187 | the Levenshtein distance `LevenshteinDistance.apply` computes, by its recursive definition; its properties are the `EditDistance…` lemmas |
| `Suggestions.EditDistanceSelf` | src/main/java/de/qwizzle/tool/branchinversion/SetMavenVersionFromGitBranch.java:186-187 | a name is at distance 0 from itself |
| `Suggestions.EditDistanceZero` | src/main/java/de/qwizzle/tool/branchinversion/SetMavenVersionFromGitBranch.java:186-187 | only equal names are at distance 0 |
| `Suggestions.EditDistanceSymmetric` | src/main/java/de/qwizzle/tool/branchinversion/SetMavenVersionFromGitBranch.java:186-187 | the distance does not depend on argument order |
| `Suggestions.EditDistanceAtMostLonger` | src/main/java/de/qwizzle/tool/branchinversion/SetMavenVersionFromGitBranch.java:186-187 | the distance never exceeds the longer length |
| `Suggestions.EditDistanceAtLeastLengthGap` | src/main/java/de/qwizzle/tool/branchinversion/SetMavenVersionFromGitBranch.java:186-187 | the distance is at least the difference in length |
| `Suggestions.EditDistanceCommonPrefix` | src/main/java/de/qwizzle/tool/branchinversion/SetMavenVersionFromGitBranch.java:186-187 | a common prefix adds nothing to the distance |
| `Suggestions.Near` | src/main/java/de/qwizzle/tool/branchinversion/SetMavenVersionFromGitBranch.java:186-187 | an environment name is suggested when its distance to the variable is at most `MAX_LEVENSHTEIN_EDIT_DISTANCE`; by `ShortNamesAreNear` and `LengthGapExcludes` this admits all short names and no name far longer or shorter |
| `Suggestions.ShortNamesAreNear` | src/main/java/de/qwizzle/tool/branchinversion/SetMavenVersionFromGitBranch.java:41 | with the threshold 10, any two names of at most 10 characters are near |
| `Suggestions.LengthGapExcludes` | src/main/java/de/qwizzle/tool/branchinversion/SetMavenVersionFromGitBranch.java:41 | names whose lengths differ by more than 10 are never near |
| `Suggestions.NearTypo` | src/main/java/de/qwizzle/tool/branchinversion/SetMavenVersionFromGitBranch.java:186-187 | `GIT_BRANCHH` is suggested for `GIT_BRANCH` |
| `Suggestions.NearUnrelated` | src/main/java/de/qwizzle/tool/branchinversion/SetMavenVersionFromGitBranch.java:186-187 | `UNRELATED` is suggested for `GIT_BRANCH` too |
| `Suggestions.GetPossibleVariables` | src/main/java/de/qwizzle/tool/branchinversion/SetMavenVersionFromGitBranch.java:181-194 | the result lists exactly the names within distance 10 of the target, each once |
| `Versions.GetVersion` | src/main/java/de/qwizzle/tool/branchinversion/SetMavenVersionFromGitBranch.java:113-131 | succeeds exactly on a full match that has a group 1, and returns that group; no match and a missing group are two separate errors |
| `Versions.DefaultVersion` | src/main/java/de/qwizzle/tool/branchinversion/SetMavenVersionFromGitBranch.java:113-123 | with the default pattern it succeeds exactly on `\d+\.\d+\.\d+.*`, never reports a missing group, and returns the longest leading MAJOR.MINOR.MICRO |
| `Versions.DefaultVersionStripsQualifier` | src/main/java/de/qwizzle/tool/branchinversion/SetMavenVersionFromGitBranch.java:113-123 | `1.2.3-dev` gives `1.2.3` |
| `Versions.ContainsFrom` | src/main/java/de/qwizzle/tool/branchinversion/SetMavenVersionFromGitBranch.java:91 | true exactly when the substring occurs at some position from `i` on |
| `Versions.Contains` | src/main/java/de/qwizzle/tool/branchinversion/SetMavenVersionFromGitBranch.java:91 | `String.contains`: true exactly when the substring occurs somewhere |
| `Versions.FirstLetterMissing` | src/main/java/de/qwizzle/tool/branchinversion/SetMavenVersionFromGitBranch.java:91 | a name without the substring's first letter does not contain it |
| `Versions.ContainsInfix` | src/main/java/de/qwizzle/tool/branchinversion/SetMavenVersionFromGitBranch.java:91 | a name contains whatever is embedded in it |
| `Versions.Compose` | src/main/java/de/qwizzle/tool/branchinversion/SetMavenVersionFromGitBranch.java:72-102 | every produced version starts with the version; develop and master never fail; a non-matching branch gives the branch-parse error; the only errors are that one and the missing group |
| `Versions.ComposeSpecialBranches` | src/main/java/de/qwizzle/tool/branchinversion/SetMavenVersionFromGitBranch.java:72-82 | `develop` gives `version-SNAPSHOT` and `master` gives `version`, whatever the branch pattern |
| `Versions.ComposeMatched` | src/main/java/de/qwizzle/tool/branchinversion/SetMavenVersionFromGitBranch.java:91-102 | a matched branch gives `version-issue-RC-SNAPSHOT` when it contains `release`, else `version-issue-SNAPSHOT` |
| `Versions.DefaultGroupShape` | src/main/java/de/qwizzle/tool/branchinversion/SetMavenVersionFromGitBranch.java:54-55 | the default branch pattern's one group is a key with exactly one `-` between word characters |
| `Versions.DecodeComposed` | src/main/java/de/qwizzle/tool/branchinversion/SetMavenVersionFromGitBranch.java:94 | decoding succeeds only on a version longer than the base version |
| `Versions.DecodeCandidate` | src/main/java/de/qwizzle/tool/branchinversion/SetMavenVersionFromGitBranch.java:94 | an RC version decodes to its issue key and the RC marker |
| `Versions.DecodeSnapshot` | src/main/java/de/qwizzle/tool/branchinversion/SetMavenVersionFromGitBranch.java:100 | a snapshot version decodes to its issue key without the marker |
| `Versions.NotCandidateShape` | src/main/java/de/qwizzle/tool/branchinversion/SetMavenVersionFromGitBranch.java:100 | a snapshot version of a key cannot be misread as an RC version of another key |
| `Versions.DefaultComposeDecodes` | src/main/java/de/qwizzle/tool/branchinversion/SetMavenVersionFromGitBranch.java:84-102 | with the default pattern the version composed for a matched branch gives back its issue key and whether it contains `release`, so different keys or release status never share a version |
| `Versions.DefaultBranchErrors` | src/main/java/de/qwizzle/tool/branchinversion/SetMavenVersionFromGitBranch.java:84-89 | with the default pattern, a branch other than develop and master fails exactly outside `\w+\-\w+.*`, and only with the branch-parse error |
| `Versions.DefaultSnapshot` | src/main/java/de/qwizzle/tool/branchinversion/SetMavenVersionFromGitBranch.java:97-101 | a branch without `release` whose default group is `issue` gives `version-issue-SNAPSHOT` |
| `Versions.ComposeHotfixExample` | src/main/java/de/qwizzle/tool/branchinversion/SetMavenVersionFromGitBranch.java:84-101 | `ABC-42-hotfix` gives `version-ABC-42-SNAPSHOT` |
| `Mojo.RepositoryBranch` | src/main/java/de/qwizzle/tool/branchinversion/SetMavenVersionFromGitBranch.java:175 | the repository fallback is the last part of the resolved branch and holds no `/`; an unavailable repository gives the repository error, and any error of the resolution (ambiguous candidates, a slash-only name) is passed on unchanged |
| `Mojo.FromEnvironment` | src/main/java/de/qwizzle/tool/branchinversion/SetMavenVersionFromGitBranch.java:153-157 | the variable decides the branch exactly when `branchFromEnvironment` is on and `System.getenv` returns a value for the variable |
| `Mojo.GetBranch` | src/main/java/de/qwizzle/tool/branchinversion/SetMavenVersionFromGitBranch.java:151-179 | with the override on and the variable set, the branch is the variable's last part and nothing is suggested; otherwise the repository decides; the suggestions are exactly the near environment names when the override is on and the variable is missing |
| `Mojo.Execute` | src/main/java/de/qwizzle/tool/branchinversion/SetMavenVersionFromGitBranch.java:67-104 | a version error comes first, then a branch error; success needs both and a branch without `/` |
| `Mojo.EnvironmentOverridesRepository` | src/main/java/de/qwizzle/tool/branchinversion/SetMavenVersionFromGitBranch.java:153-172 | with the variable set, the repository is never consulted: two repositories give the same branch and version |
| `Mojo.DisabledIgnoresEnvironment` | src/main/java/de/qwizzle/tool/branchinversion/SetMavenVersionFromGitBranch.java:153-175 | with the override off, the environment is never consulted and nothing is suggested |
| `Mojo.ExecuteUsesLastSegment` | src/main/java/de/qwizzle/tool/branchinversion/SetMavenVersionFromGitBranch.java:69-100 | the version is composed from the variable's last segment |
| `Mojo.ReleasePathExample` | src/main/java/de/qwizzle/tool/branchinversion/SetMavenVersionFromGitBranch.java:67-104 | defaults, `1.2.3-dev` and `GIT_BRANCH=release/ABC-42-hotfix` give `1.2.3-ABC-42-SNAPSHOT` |
| `Mojo.DetachedWithoutVariableExample` | src/main/java/de/qwizzle/tool/branchinversion/SetMavenVersionFromGitBranch.java:156-175 | with `GIT_BRANCH` unset and a near misspelling set, the misspelling is suggested, and a detached HEAD shared by two equally named branches fails as ambiguous |
| `Mojo.MissingVariableWarning` | src/main/java/de/qwizzle/tool/branchinversion/SetMavenVersionFromGitBranch.java:157-166 | the names `getPossibleVariables` lists for the warning are exactly the lookup's suggestions, each once |

## Left out

- Maven plumbing is not modelled: `setVersion`, `executeMojo` and the versions-maven-plugin configuration (lines 133-149). `execute` returns the version it would set instead.
- Logging is not modelled. Each `getLog()` message is left out, except that the names of the "Did you mean one of" warning are part of `BranchLookup`.
- Error messages are not modelled as text. Each `MojoExecutionException` becomes an `Error` value that carries the data the message shows.
- JGit I/O is replaced by the `Repository` value: opening `.git`, `getBranch`, `resolve` and `getAllRefs`. An `IOException` becomes `Unavailable`, which fails as `RepositoryUnavailable`.
- A reference with a null object id cannot be expressed: every `Ref` has a commit. A `resolve` that returns null is `None`, which no reference matches.
- `System.getenv` is a parameter: a map from names to values.
- The environment's key order is not modelled. Suggestions are a set, and `GetPossibleVariables` walks its set in an arbitrary order. The sorting and joining of the warning (line 165) is not modelled.
- `LevenshteinDistance` from commons-text is not part of this model. `EditDistance` is the textbook recursive definition of that distance.
- Suggestions.EditDistance: counts Unicode scalar values, the elements of a Dafny `string`, while `CharSequence.charAt` counts UTF-16 code units. For names outside the Basic Multilingual Plane the two distances differ: six emoji are 12 units in Java, at distance 12 from `GIT_BRANCH` and not suggested, but 6 characters here, and so near by `ShortNamesAreNear`. For names of BMP characters only, such as every ASCII name, the two agree.
- General Java regular expressions are not modelled. User-supplied patterns are abstract `Pattern` values. Only the two defaults and `ISSUE_KEY_REGEX` are given as matchers.
- A group 1 that did not take part in the match is null in Java. `String.format` would print it as `null`; the abstract matcher always returns strings, so this case is left out.
- A branch pattern without group 1 makes lines 93 and 99 throw an unchecked `IndexOutOfBoundsException`. The model reports it as its own error, `MissingBranchGroup`, kept apart from the version pattern's `MissingVersionGroup`.
- `toLowerCase()` at line 238 depends on the default locale. The model uses ASCII case folding. No lower-cased non-ASCII character is a hex digit, so the result of `isObjectId` is the same.
- `ReleaseBranchDetectionTest` is not modelled. It belongs to another package and exercises `releaseBranchPattern` and `isReleaseBranch`, neither of which exists in `SetMavenVersionFromGitBranch`.
- Branches.BranchesForCommit: its own contract only bounds the number of candidates. Membership, order, first-error propagation and the success condition are stated by the `BranchesForCommit…` lemmas.
- Branches.JoinPieces: only one direction of the round trip is proved. Splitting a joined list of slash-free pieces back into the same list is not proved.
- Versions.DecodeComposed: recovers the key only for keys of the default pattern's shape (one `-` between word characters). Keys of other user-supplied patterns can collide; for example, key `A-RC` without `release` and key `A` with it give the same version.
- Mojo.Execute: its contract ties a successful run to `Versions.Compose` of the version and the branch, whichever way the branch was found; the string `Compose` produces is stated by the `Versions.Compose…` lemmas rather than by `Execute` itself.
