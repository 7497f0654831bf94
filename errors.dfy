/** The ways one run of the `set` goal ends without producing a version. Each kind carries
    the input the Java message names. */
module MojoErrors {

  datatype Error =
      /** The project version does not fully match `versionPattern`. */
    | UnparsableVersion(version: string)
      /** `versionPattern` matched but defines no capturing group 1. */
    | MissingVersionGroup(pattern: string)
      /** The branch is neither `develop` nor `master` and does not fully match `branchPattern`. */
    | UnparsableBranch(branch: string)
      /** `branchPattern` matched but defines no capturing group 1 (an unchecked
          IndexOutOfBoundsException in Java, not wrapped into the goal's own exception). */
    | MissingBranchGroup(pattern: string)
      /** A detached HEAD whose commit is the target of zero or several branches. */
    | AmbiguousBranches(candidates: seq<string>)
      /** The `.git` directory could not be opened or read (an IOException in Java). */
    | RepositoryUnavailable
      /** An input made only of slashes: `split("/")` yields an empty array and taking its
          last element fails (an unchecked ArrayIndexOutOfBoundsException in Java). */
    | NoBranchSegment(input: string)
}
