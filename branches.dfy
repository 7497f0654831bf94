/** Branch names: Java's `String.split("/")` and `lastPartOfBranch`, `isObjectId`, the
    `branchesForCommit` stream pipeline and `getBranchOrRaiseException`, with the git
    repository supplied as a value. */
module Branches {
  import opened Wrappers
  import opened MojoErrors

  // ---------------------------------------------------------------------------------------
  // String.split("/")

  /** Every character of `s` is a slash (true of ""). */
  predicate AllSlashes(s: string) {
    forall k :: 0 <= k < |s| ==> s[k] == '/'
  }

  /** A non-empty name made only of slashes: it splits into nothing. */
  predicate NoSegment(s: string) {
    |s| > 0 && AllSlashes(s)
  }

  /** The pieces of `s` between its '/' characters, empty ones included: what
      `String.split` finds before it drops the trailing empty strings. */
  function Pieces(s: string): (ps: seq<string>)
    ensures |ps| >= 1
    ensures forall k :: 0 <= k < |ps| ==> '/' !in ps[k]
    ensures |ps| == 1 <==> '/' !in s
    ensures |s| > 0 && s[|s| - 1] != '/' ==> ps[|ps| - 1] != ""
    decreases |s|
  {
    if |s| == 0 then [""]
    else
      var ps := Pieces(s[..|s| - 1]);
      if s[|s| - 1] == '/' then ps + [""]
      else ps[..|ps| - 1] + [ps[|ps| - 1] + [s[|s| - 1]]]
  }

  /** The inverse of `Pieces`: the pieces joined with '/'. */
  function Join(ps: seq<string>): string
    requires |ps| >= 1
  {
    if |ps| == 1 then ps[0] else Join(ps[..|ps| - 1]) + "/" + ps[|ps| - 1]
  }

  /** Joining the pieces of `s` gives `s` back. */
  lemma {:induction false} JoinPieces(s: string)
    ensures Join(Pieces(s)) == s
    decreases |s|
  {
    if |s| > 0 {
      var init := s[..|s| - 1];
      var ps := Pieces(init);
      JoinPieces(init);
      if s[|s| - 1] != '/' && |ps| > 1 {
        var front := ps[..|ps| - 1];
        assert (ps[..|ps| - 1] + [ps[|ps| - 1] + [s[|s| - 1]]])[..|ps| - 1] == front;
        assert ps == front + [ps[|ps| - 1]];
      }
      assert init + [s[|s| - 1]] == s;
    }
  }

  /** Drops the empty strings at the end, as `String.split` does with a zero limit. */
  function DropTrailingEmpty(ps: seq<string>): (qs: seq<string>)
    ensures |qs| <= |ps| && qs == ps[..|qs|]
    ensures forall k :: |qs| <= k < |ps| ==> ps[k] == ""
    ensures |qs| == 0 || qs[|qs| - 1] != ""
  {
    if |ps| > 0 && ps[|ps| - 1] == "" then DropTrailingEmpty(ps[..|ps| - 1]) else ps
  }

  /** Java's `s.split("/")`: `[s]` when `s` has no '/', otherwise the pieces without the
      trailing empty ones. */
  function Split(s: string): (parts: seq<string>)
    ensures forall k :: 0 <= k < |parts| ==> '/' !in parts[k]
  {
    if '/' !in s then [s] else DropTrailingEmpty(Pieces(s))
  }

  /** `s` without its trailing slashes. */
  function StripTrailingSlashes(s: string): (t: string)
    ensures |t| <= |s| && t == s[..|t|] && AllSlashes(s[|t|..])
    ensures t == "" || t[|t| - 1] != '/'
  {
    if |s| > 0 && s[|s| - 1] == '/' then StripTrailingSlashes(s[..|s| - 1]) else s
  }

  /** The longest slash-free suffix of `t`. */
  function LastSegment(t: string): (x: string)
    ensures |x| <= |t| && x == t[|t| - |x|..] && '/' !in x
    ensures |x| == |t| || t[|t| - |x| - 1] == '/'
  {
    if |t| == 0 || t[|t| - 1] == '/' then ""
    else
      var x := LastSegment(t[..|t| - 1]);
      assert x + [t[|t| - 1]] == t[|t| - |x| - 1..];
      x + [t[|t| - 1]]
  }

  /** The last piece of `s` is its longest slash-free suffix. */
  lemma {:induction false} LastPieceIsLastSegment(s: string)
    ensures var ps := Pieces(s); ps[|ps| - 1] == LastSegment(s)
    decreases |s|
  {
    if |s| > 0 {
      LastPieceIsLastSegment(s[..|s| - 1]);
    }
  }

  /** Appending a slash appends an empty piece. */
  lemma PiecesSlash(s: string)
    ensures Pieces(s + "/") == Pieces(s) + [""]
  {
    assert (s + "/")[..|s|] == s;
  }

  /** `DropTrailingEmpty` of the pieces ignores trailing slashes. */
  lemma {:induction false} DropPiecesStrip(s: string)
    ensures DropTrailingEmpty(Pieces(s)) == DropTrailingEmpty(Pieces(StripTrailingSlashes(s)))
    decreases |s|
  {
    if |s| > 0 && s[|s| - 1] == '/' {
      var init := s[..|s| - 1];
      DropPiecesStrip(init);
      assert Pieces(s) == Pieces(init) + [""];
      DropSnocEmpty(Pieces(init));
    }
  }

  /** A trailing empty string is dropped. */
  lemma DropSnocEmpty(ps: seq<string>)
    ensures DropTrailingEmpty(ps + [""]) == DropTrailingEmpty(ps)
  {
    assert (ps + [""])[..|ps|] == ps;
  }

  /** For `s` not made only of slashes, the split's last element is the longest slash-free
      suffix of `s` once its trailing slashes are gone; for a non-empty `s` made only of
      slashes the split is empty. */
  lemma SplitLast(s: string)
    ensures var parts := Split(s);
      && (|parts| == 0 <==> NoSegment(s))
      && (|parts| > 0 ==> parts[|parts| - 1] == LastSegment(StripTrailingSlashes(s)))
  {
    if '/' !in s {
      SplitWithoutSlash(s);
    } else if StripTrailingSlashes(s) == "" {
      SplitAllSlashes(s);
    } else {
      SplitWithSegment(s);
    }
  }

  /** Without slashes, the split is the name itself, which is its own last segment. */
  lemma SplitWithoutSlash(s: string)
    requires '/' !in s
    ensures Split(s) == [s] && !NoSegment(s) && LastSegment(StripTrailingSlashes(s)) == s
  {
    StripNoSegment(s);
    if |s| > 0 {
      assert s[|s| - 1] in s;
    }
  }

  /** A name with slashes and nothing else splits into nothing. */
  lemma SplitAllSlashes(s: string)
    requires '/' in s && StripTrailingSlashes(s) == ""
    ensures Split(s) == [] && NoSegment(s)
  {
    DropPiecesStrip(s);
    assert s[|StripTrailingSlashes(s)|..] == s;
  }

  /** A name with a segment splits into pieces whose last is that segment. */
  lemma SplitWithSegment(s: string)
    requires '/' in s && StripTrailingSlashes(s) != ""
    ensures var parts := Split(s);
      |parts| > 0 && parts[|parts| - 1] == LastSegment(StripTrailingSlashes(s))
    ensures !NoSegment(s)
  {
    DropPiecesStrip(s);
    PiecesKept(StripTrailingSlashes(s));
    SegmentNotAllSlashes(s);
  }

  /** What is left after stripping ends in something other than '/'. */
  lemma SegmentNotAllSlashes(s: string)
    requires StripTrailingSlashes(s) != ""
    ensures !AllSlashes(s)
  {
    var t := StripTrailingSlashes(s);
    assert s[|t| - 1] == t[|t| - 1];
  }

  /** Pieces of a name that does not end in '/' lose nothing to `DropTrailingEmpty`, and the
      last of them is the last segment. */
  lemma PiecesKept(t: string)
    requires t != "" && t[|t| - 1] != '/'
    ensures var ps := Pieces(t);
      DropTrailingEmpty(ps) == ps && ps[|ps| - 1] == LastSegment(t)
  {
    LastPieceIsLastSegment(t);
  }

  /** A slash-free string is its own last segment. */
  lemma LastSegmentWhole(s: string)
    requires '/' !in s
    ensures LastSegment(s) == s
  {
  }

  /** `lastPartOfBranch`: the text after the last slash once trailing slashes are gone. A
      non-empty input made only of slashes has none: its split is empty and Java's array access
      fails. `LastPartIsLastOfSplit` shows this is the last element of `branch.split("/")`. */
  function LastPartOfBranch(branch: string): (r: Result<string, Error>)
    ensures r.Failure? <==> NoSegment(branch)
    ensures r.Failure? ==> r.error == NoBranchSegment(branch)
    ensures r.Success? ==> '/' !in r.value
    ensures '/' !in branch ==> r == Success(branch)
  {
    StripNoSegment(branch);
    var stripped := StripTrailingSlashes(branch);
    if stripped == "" && branch != "" then Failure(NoBranchSegment(branch))
    else Success(LastSegment(stripped))
  }

  /** Stripping leaves nothing of a non-empty string exactly when it is all slashes, and
      leaves a slash-free string whole. */
  lemma StripNoSegment(s: string)
    ensures StripTrailingSlashes(s) == "" && s != "" <==> NoSegment(s)
    ensures '/' !in s ==> LastSegment(StripTrailingSlashes(s)) == s
  {
    var t := StripTrailingSlashes(s);
    if t != "" {
      assert s[|t| - 1] == t[|t| - 1];
    }
    if '/' !in s {
      if s != "" {
        assert s[|s| - 1] in s;
      }
      LastSegmentWhole(s);
    }
  }

  /** The last part is the last element of Java's `branch.split("/")`, and the split is empty
      exactly when the last part fails. */
  lemma LastPartIsLastOfSplit(branch: string)
    ensures var parts := Split(branch);
      LastPartOfBranch(branch)
        == if |parts| == 0 then Failure(NoBranchSegment(branch)) else Success(parts[|parts| - 1])
  {
    SplitLast(branch);
  }

  /** The last part is empty only for the empty input. */
  lemma LastPartNonEmpty(branch: string)
    requires LastPartOfBranch(branch).Success?
    ensures LastPartOfBranch(branch).value == "" <==> branch == ""
  {
    SegmentEmpty(branch);
  }

  /** The last segment of the stripped string is empty exactly when `s` is all slashes. */
  lemma SegmentEmpty(s: string)
    ensures LastSegment(StripTrailingSlashes(s)) == "" <==> AllSlashes(s)
  {
    var stripped := StripTrailingSlashes(s);
    if stripped != "" {
      assert s[|stripped| - 1] == stripped[|stripped| - 1];
    }
  }

  /** Trailing slashes do not change the last part (`a/b/` gives `b`). */
  lemma LastPartIgnoresTrailingSlash(branch: string)
    requires !AllSlashes(branch)
    ensures LastPartOfBranch(branch + "/") == LastPartOfBranch(branch)
  {
    var s := branch + "/";
    assert !AllSlashes(s) by {
      var k :| 0 <= k < |branch| && branch[k] != '/';
      assert s[k] == branch[k];
    }
    assert s[..|s| - 1] == branch;
    assert StripTrailingSlashes(s) == StripTrailingSlashes(branch);
  }

  /** Taking the last part twice gives the same as taking it once. */
  lemma LastPartIdempotent(branch: string)
    requires LastPartOfBranch(branch).Success?
    ensures LastPartOfBranch(LastPartOfBranch(branch).value) == LastPartOfBranch(branch)
  {
  }

  /** A trailing slash is ignored: `a/b/` gives `b`. */
  lemma LastPartTrailingSlash(p: string, x: string)
    requires x != "" && '/' !in x
    ensures LastPartOfBranch(p + "/" + x + "/") == Success(x)
  {
    var name := p + "/" + x;
    LastPartAfterSlash(p, x);
    assert name[|name| - 1] == x[|x| - 1];
    assert !AllSlashes(name) by { assert x[|x| - 1] in x; }
    LastPartIgnoresTrailingSlash(name);
  }

  /** A name of slashes only has no last part. */
  lemma LastPartSlashExample()
    ensures LastPartOfBranch("/") == Failure(NoBranchSegment("/"))
  {
    assert NoSegment("/");
  }

  /** Whatever precedes the last slash, a non-empty slash-free tail is the last part
      (`refs/heads/feature/ABC-123` gives `ABC-123`). */
  lemma LastPartAfterSlash(p: string, x: string)
    requires x != "" && '/' !in x
    ensures LastPartOfBranch(p + "/" + x) == Success(x)
  {
    var s := p + "/" + x;
    assert s[|s| - 1] != '/' by { assert s[|s| - 1] == x[|x| - 1]; assert x[|x| - 1] in x; }
    LastSegmentAfterSlash(p, x);
  }

  /** The last segment of `u + "/" + x` is `x` when `x` is slash-free. */
  lemma LastSegmentAfterSlash(u: string, x: string)
    requires '/' !in x
    ensures LastSegment(u + "/" + x) == x
  {
    var t := u + "/" + x;
    assert t[|u|] == '/';
    assert t[|u| + 1..] == x;
    LastSegmentAt(t, |u|);
  }

  /** When `t[j]` is the last slash of `t`, the last segment is everything after it. */
  lemma LastSegmentAt(t: string, j: nat)
    requires j < |t| && t[j] == '/' && '/' !in t[j + 1..]
    ensures LastSegment(t) == t[j + 1..]
  {
    var x := LastSegment(t);
    SlashFreeSuffixAt(t, x, j);
  }

  /** A maximal slash-free suffix `x` of `t` starts right after the last slash `t[j]`. */
  lemma SlashFreeSuffixAt(t: string, x: string, j: nat)
    requires |x| <= |t| && x == t[|t| - |x|..] && '/' !in x
    requires |x| == |t| || t[|t| - |x| - 1] == '/'
    requires j < |t| && t[j] == '/' && '/' !in t[j + 1..]
    ensures x == t[j + 1..]
  {
    var m := |t| - |x|;
    forall k | m <= k < |t|
      ensures t[k] != '/'
    {
      assert t[k] == x[k - m] && x[k - m] in x;
    }
    var after := t[j + 1..];
    forall k | j < k < |t|
      ensures t[k] != '/'
    {
      assert t[k] == after[k - j - 1] && after[k - j - 1] in after;
    }
    assert j < m;
    assert m == j + 1;
  }

  // ---------------------------------------------------------------------------------------
  // isObjectId

  /** ASCII `toLowerCase` of one character. */
  function LowerChar(c: char): (d: char)
    ensures 'A' <= c <= 'Z' ==> d as int == c as int + 32
    ensures !('A' <= c <= 'Z') ==> d == c
  {
    if 'A' <= c <= 'Z' then (c as int + 32) as char else c
  }

  /** `s.toLowerCase()` with ASCII case folding, character by character. */
  function ToLowerAscii(s: string): (t: string)
    ensures |t| == |s|
    ensures forall k :: 0 <= k < |s| ==> t[k] == LowerChar(s[k])
  {
    if |s| == 0 then "" else [LowerChar(s[0])] + ToLowerAscii(s[1..])
  }

  /** A character of `[0123456789abcdef]`. */
  predicate IsLowerHex(c: char) {
    '0' <= c <= '9' || 'a' <= c <= 'f'
  }

  /** A hexadecimal digit in either case. */
  predicate IsHexDigit(c: char) {
    '0' <= c <= '9' || 'a' <= c <= 'f' || 'A' <= c <= 'F'
  }

  /** `isObjectId`: the lower-cased branch fully matches `[0123456789abcdef]+`, that is, it is
      non-empty and all hexadecimal digits in either case. */
  function IsObjectId(branch: string): (r: bool)
    ensures r <==> |branch| > 0 && forall k :: 0 <= k < |branch| ==> IsHexDigit(branch[k])
  {
    var lower := ToLowerAscii(branch);
    |lower| > 0 && forall k :: 0 <= k < |lower| ==> IsLowerHex(lower[k])
  }

  lemma ObjectIdExamples()
    ensures IsObjectId("deadbeef") && IsObjectId("DEADBEEF")
  {
    var lower, upper := "deadbeef", "DEADBEEF";
    assert forall k :: 0 <= k < |lower| ==> IsHexDigit(lower[k]);
    assert forall k :: 0 <= k < |upper| ==> IsHexDigit(upper[k]);
  }

  lemma NotObjectIdExamples()
    ensures !IsObjectId("feature/x") && !IsObjectId("")
  {
    var name := "feature/x";
    assert !IsHexDigit(name[3]);
  }

  // ---------------------------------------------------------------------------------------
  // The repository

  /** A commit's object id, as its hexadecimal name. */
  type CommitId = string

  /** A git reference: its full name (`refs/heads/x`, `refs/remotes/origin/x`, `HEAD`) and the
      commit it points at. */
  datatype Ref = Ref(name: string, commit: CommitId)

  /** What the goal reads from `.git`: nothing when the repository cannot be opened,
      otherwise the current branch as `Repository.getBranch` names it (a commit id when HEAD
      is detached), what `resolve` makes of that name (`None` when it resolves to no
      object), and every reference, in the order `getAllRefs` lists them. */
  datatype Repository =
    | Unavailable
    | Available(head: string, resolved: Option<CommitId>, refs: seq<Ref>)

  /** `ref.getObjectId().equals(objectId)`: false when `objectId` is null. */
  predicate PointsAt(ref: Ref, target: Option<CommitId>) {
    target.Some? && ref.commit == target.value
  }

  /** A reference pointing at `target` whose last part fails (a name of slashes only). */
  predicate Breaks(ref: Ref, target: Option<CommitId>) {
    PointsAt(ref, target) && NoSegment(ref.name)
  }

  /** A candidate `ref` contributes: it points at `target` and its last part is `x`, not
      `HEAD`. */
  predicate Contributes(ref: Ref, target: Option<CommitId>, x: string) {
    PointsAt(ref, target) && LastPartOfBranch(ref.name) == Success(x) && x != "HEAD"
  }

  /** What one reference adds to the candidates: its last part, when it points at `target`
      and that part is not `HEAD`. */
  function Candidate(ref: Ref, target: Option<CommitId>): (c: seq<string>)
    ensures forall x :: x in c <==> Contributes(ref, target, x)
  {
    if PointsAt(ref, target) && LastPartOfBranch(ref.name).Success?
       && LastPartOfBranch(ref.name).value != "HEAD"
    then [LastPartOfBranch(ref.name).value]
    else []
  }

  /** `branchesForCommit`: the references that point at `target`, in order, each reduced to its
      last part, without `HEAD`; duplicates stay. The stream stops at the first reference
      whose last part fails. */
  function BranchesForCommit(refs: seq<Ref>, target: Option<CommitId>): (r: Result<seq<string>, Error>)
    ensures r.Success? ==> |r.value| <= |refs|
  {
    if |refs| == 0 then Success([])
    else
      var ref := refs[0];
      var tail := refs[1..];
      if !PointsAt(ref, target) then BranchesForCommit(tail, target)
      else
        var part :- LastPartOfBranch(ref.name);
        var rest :- BranchesForCommit(tail, target);
        if part == "HEAD" then Success(rest) else Success([part] + rest)
  }

  /** One step of the pipeline: the first reference either stops it or adds its candidate in
      front of those of the rest. */
  lemma BranchesForCommitStep(refs: seq<Ref>, target: Option<CommitId>)
    requires |refs| > 0
    ensures Breaks(refs[0], target) ==>
      BranchesForCommit(refs, target) == Failure(NoBranchSegment(refs[0].name))
    ensures !Breaks(refs[0], target) ==>
      BranchesForCommit(refs, target) ==
        match BranchesForCommit(refs[1..], target)
        case Success(bs) => Success(Candidate(refs[0], target) + bs)
        case Failure(e) => Failure(e)
  {
    match BranchesForCommit(refs[1..], target)
    case Success(bs) =>
      assert [] + bs == bs;
    case Failure(e) =>
  }

  /** The pipeline fails exactly when some reference at `target` has no last part. */
  lemma {:induction false} BranchesForCommitSucceeds(refs: seq<Ref>, target: Option<CommitId>)
    ensures BranchesForCommit(refs, target).Success? <==>
      forall k :: 0 <= k < |refs| ==> !Breaks(refs[k], target)
    decreases |refs|
  {
    if |refs| > 0 {
      var tail := refs[1..];
      BranchesForCommitStep(refs, target);
      BranchesForCommitSucceeds(tail, target);
      assert forall k :: 0 <= k < |tail| ==> tail[k] == refs[k + 1];
      assert forall k :: 1 <= k < |refs| ==> refs[k] == tail[k - 1];
    }
  }

  /** A successful pipeline lists exactly the last parts, other than `HEAD`, of the references
      that point at `target`. */
  lemma {:induction false} BranchesForCommitMembers(refs: seq<Ref>, target: Option<CommitId>, x: string)
    requires BranchesForCommit(refs, target).Success?
    ensures x in BranchesForCommit(refs, target).value <==>
      exists k :: 0 <= k < |refs| && Contributes(refs[k], target, x)
    decreases |refs|
  {
    if |refs| > 0 {
      MembersHead(refs, target, x);
      BranchesForCommitMembers(refs[1..], target, x);
      ContributesShift(refs, target, x);
    }
  }

  /** One step of `BranchesForCommitMembers`: a member comes from the first reference or from
      the rest. */
  lemma MembersHead(refs: seq<Ref>, target: Option<CommitId>, x: string)
    requires |refs| > 0 && BranchesForCommit(refs, target).Success?
    ensures BranchesForCommit(refs[1..], target).Success?
    ensures x in BranchesForCommit(refs, target).value <==>
      Contributes(refs[0], target, x) || x in BranchesForCommit(refs[1..], target).value
  {
    BranchesForCommitStep(refs, target);
    var c, bs := Candidate(refs[0], target), BranchesForCommit(refs[1..], target).value;
    assert x in c + bs <==> x in c || x in bs;
  }

  /** Some reference contributes `x` exactly when the first one or one of the rest does. */
  lemma ContributesShift(refs: seq<Ref>, target: Option<CommitId>, x: string)
    requires |refs| > 0
    ensures (exists k :: 0 <= k < |refs| && Contributes(refs[k], target, x)) <==>
      Contributes(refs[0], target, x) || exists k :: 0 <= k < |refs[1..]| && Contributes(refs[1..][k], target, x)
  {
    var tail := refs[1..];
    if exists k :: 0 <= k < |tail| && Contributes(tail[k], target, x) {
      var k :| 0 <= k < |tail| && Contributes(tail[k], target, x);
      assert tail[k] == refs[k + 1];
    }
    if exists k :: 0 <= k < |refs| && Contributes(refs[k], target, x) {
      var k :| 0 <= k < |refs| && Contributes(refs[k], target, x);
      if k > 0 { assert refs[k] == tail[k - 1]; }
    }
  }

  /** A failed pipeline reports the error of the first reference at `target` whose last part
      fails. */
  lemma {:induction false} BranchesForCommitFailure(refs: seq<Ref>, target: Option<CommitId>)
    requires BranchesForCommit(refs, target).Failure?
    ensures exists k ::
      && 0 <= k < |refs| && Breaks(refs[k], target)
      && BranchesForCommit(refs, target).error == NoBranchSegment(refs[k].name)
      && (forall j :: 0 <= j < k ==> !Breaks(refs[j], target))
    decreases |refs|
  {
    var tail := refs[1..];
    BranchesForCommitStep(refs, target);
    if !Breaks(refs[0], target) {
      BranchesForCommitFailure(tail, target);
      var k :| && 0 <= k < |tail| && Breaks(tail[k], target)
        && BranchesForCommit(tail, target).error == NoBranchSegment(tail[k].name)
        && (forall j :: 0 <= j < k ==> !Breaks(tail[j], target));
      assert refs[k + 1] == tail[k];
      assert forall j :: 1 <= j < k + 1 ==> refs[j] == tail[j - 1];
    }
  }

  /** Candidates `c` in front of a pipeline result; an error stays as it is. */
  function Prepend(c: seq<string>, r: Result<seq<string>, Error>): Result<seq<string>, Error> {
    match r
    case Success(bs) => Success(c + bs)
    case Failure(e) => Failure(e)
  }

  lemma PrependNil(r: Result<seq<string>, Error>)
    ensures Prepend([], r) == r
  {
    if r.Success? {
      assert [] + r.value == r.value;
    }
  }

  lemma PrependPrepend(c: seq<string>, d: seq<string>, r: Result<seq<string>, Error>)
    ensures Prepend(c, Prepend(d, r)) == Prepend(c + d, r)
  {
    if r.Success? {
      assert c + (d + r.value) == c + d + r.value;
    }
  }

  /** The pipeline works reference by reference: the candidates of two lists of references
      are the candidates of the first followed by those of the second. */
  lemma {:induction false} BranchesForCommitAppend(a: seq<Ref>, b: seq<Ref>, target: Option<CommitId>)
    requires BranchesForCommit(a, target).Success?
    ensures BranchesForCommit(a + b, target) == Prepend(BranchesForCommit(a, target).value, BranchesForCommit(b, target))
    decreases |a|
  {
    if |a| == 0 {
      assert a + b == b;
      PrependNil(BranchesForCommit(b, target));
    } else {
      var tail := a[1..];
      AppendHead(a, b, target);
      BranchesForCommitAppend(tail, b, target);
      PrependPrepend(Candidate(a[0], target), BranchesForCommit(tail, target).value, BranchesForCommit(b, target));
    }
  }

  /** The first reference of a successful `a` puts its candidate in front of the rest, also
      when `b` follows. */
  lemma AppendHead(a: seq<Ref>, b: seq<Ref>, target: Option<CommitId>)
    requires |a| > 0 && BranchesForCommit(a, target).Success?
    ensures BranchesForCommit(a[1..], target).Success?
    ensures BranchesForCommit(a, target).value == Candidate(a[0], target) + BranchesForCommit(a[1..], target).value
    ensures BranchesForCommit(a + b, target) == Prepend(Candidate(a[0], target), BranchesForCommit(a[1..] + b, target))
  {
    BranchesForCommitStep(a, target);
    BranchesForCommitStep(a + b, target);
    assert (a + b)[0] == a[0];
    assert (a + b)[1..] == a[1..] + b;
  }

  /** The pipeline on one more reference in front: that reference's candidate, then the rest. */
  lemma BranchesForCommitCons(ref: Ref, rest: seq<Ref>, target: Option<CommitId>)
    requires !Breaks(ref, target)
    ensures BranchesForCommit([ref] + rest, target) ==
      match BranchesForCommit(rest, target)
      case Success(bs) => Success(Candidate(ref, target) + bs)
      case Failure(e) => Failure(e)
  {
    BranchesForCommitStep([ref] + rest, target);
    assert ([ref] + rest)[0] == ref;
    assert ([ref] + rest)[1..] == rest;
  }

  /** A single reference gives its own candidate. */
  lemma BranchesForCommitSingle(ref: Ref, target: Option<CommitId>)
    requires !Breaks(ref, target)
    ensures BranchesForCommit([ref], target) == Success(Candidate(ref, target))
  {
    BranchesForCommitCons(ref, [], target);
    assert [ref] + [] == [ref];
    assert Candidate(ref, target) + [] == Candidate(ref, target);
  }

  /** Two references with the same last part at the target commit (a local and a remote
      branch, say) give that name twice; `HEAD` at the commit is dropped and a reference at
      another commit does not count. */
  lemma BranchesForCommitDuplicates(p: string, q: string, other: string, name: string, c: CommitId, d: CommitId)
    requires name != "" && '/' !in name && name != "HEAD" && c != d
    ensures BranchesForCommit(
      [Ref("HEAD", c), Ref(p + "/" + name, c), Ref(other, d), Ref(q + "/" + name, c)], Some(c))
      == Success([name, name])
  {
    var target := Some(c);
    var head, local, elsewhere, remote := Ref("HEAD", c), Ref(p + "/" + name, c), Ref(other, d), Ref(q + "/" + name, c);
    var refs := [head, local, elsewhere, remote];
    CandidateHead(c);
    DuplicatesWithoutHead(p, q, other, name, c, d);
    assert refs[0] == head && refs[1..] == [local, elsewhere, remote];
    BranchesForCommitStep(refs, target);
  }

  /** `BranchesForCommitDuplicates` without the `HEAD` reference. */
  lemma DuplicatesWithoutHead(p: string, q: string, other: string, name: string, c: CommitId, d: CommitId)
    requires name != "" && '/' !in name && name != "HEAD" && c != d
    ensures BranchesForCommit([Ref(p + "/" + name, c), Ref(other, d), Ref(q + "/" + name, c)], Some(c))
      == Success([name, name])
  {
    var target := Some(c);
    var local, elsewhere, remote := Ref(p + "/" + name, c), Ref(other, d), Ref(q + "/" + name, c);
    CandidateAfterSlash(p, name, c);
    CandidateAfterSlash(q, name, c);
    assert !PointsAt(elsewhere, target) && Candidate(elsewhere, target) == [];
    BranchesForCommitPair(elsewhere, remote, target);
    assert [] + [name] == [name];
    BranchesForCommitCons(local, [elsewhere, remote], target);
    assert [local] + [elsewhere, remote] == [local, elsewhere, remote];
    assert [name] + [name] == [name, name];
  }

  /** A reference named `HEAD` is never a candidate. */
  lemma CandidateHead(c: CommitId)
    ensures Candidate(Ref("HEAD", c), Some(c)) == [] && !Breaks(Ref("HEAD", c), Some(c))
  {
    var headName := "HEAD";
    assert '/' !in headName;
  }

  /** A reference at the target whose name ends in `/x` contributes `x`. */
  lemma CandidateAfterSlash(p: string, x: string, c: CommitId)
    requires x != "" && '/' !in x && x != "HEAD"
    ensures Candidate(Ref(p + "/" + x, c), Some(c)) == [x]
    ensures !Breaks(Ref(p + "/" + x, c), Some(c))
  {
    LastPartAfterSlash(p, x);
  }

  /** `getBranchOrRaiseException`: a branch name that is not a commit id is returned as it
      is; a commit id must have exactly one candidate branch. */
  function ResolveBranch(repo: Repository): (r: Result<string, Error>)
    ensures repo.Unavailable? ==> r == Failure(RepositoryUnavailable)
    ensures repo.Available? && !IsObjectId(repo.head) ==> r == Success(repo.head)
    ensures repo.Available? && IsObjectId(repo.head) ==>
      var candidates := BranchesForCommit(repo.refs, repo.resolved);
      && (r.Success? <==> candidates.Success? && |candidates.value| == 1)
      && (r.Success? ==> candidates.value == [r.value])
      && (candidates.Success? && |candidates.value| != 1 ==>
            r == Failure(AmbiguousBranches(candidates.value)))
      && (candidates.Failure? ==> r == Failure(candidates.error))
  {
    match repo
    case Unavailable => Failure(RepositoryUnavailable)
    case Available(head, resolved, refs) =>
      if !IsObjectId(head) then Success(head)
      else
        var candidates :- BranchesForCommit(refs, resolved);
        if |candidates| != 1 then Failure(AmbiguousBranches(candidates))
        else Success(candidates[0])
  }

  /** With HEAD detached at a commit one branch points at, that branch is the answer. */
  lemma ResolveDetachedUnique(c: CommitId, p: string, a: string)
    requires IsObjectId(c) && a != "" && '/' !in a && a != "HEAD"
    ensures ResolveBranch(Available(c, Some(c), [Ref(p + "/" + a, c)])) == Success(a)
  {
    var refs := [Ref(p + "/" + a, c)];
    LastPartAfterSlash(p, a);
    assert refs[1..] == [] && refs[0] == Ref(p + "/" + a, c);
    assert Contributes(refs[0], Some(c), a) && [a] + [] == [a];
    assert BranchesForCommit(refs[1..], Some(c)) == Success([]);
    assert BranchesForCommit(refs, Some(c)) == Success([a]);
  }

  /** With HEAD detached at a commit two branches point at, the branch is ambiguous, even when
      their last parts are the same. */
  lemma ResolveDetachedAmbiguous(c: CommitId, p: string, a: string, q: string, b: string)
    requires IsObjectId(c)
    requires a != "" && '/' !in a && a != "HEAD" && b != "" && '/' !in b && b != "HEAD"
    ensures ResolveBranch(Available(c, Some(c), [Ref(p + "/" + a, c), Ref(q + "/" + b, c)]))
      == Failure(AmbiguousBranches([a, b]))
  {
    CandidateAfterSlash(p, a, c);
    CandidateAfterSlash(q, b, c);
    BranchesForCommitPair(Ref(p + "/" + a, c), Ref(q + "/" + b, c), Some(c));
    assert [a] + [b] == [a, b];
  }

  /** Two references give their two candidates, in order. */
  lemma BranchesForCommitPair(first: Ref, second: Ref, target: Option<CommitId>)
    requires !Breaks(first, target) && !Breaks(second, target)
    ensures BranchesForCommit([first, second], target) == Success(Candidate(first, target) + Candidate(second, target))
  {
    BranchesForCommitSingle(second, target);
    BranchesForCommitCons(first, [second], target);
    assert [first] + [second] == [first, second];
  }

  /** A commit id that resolves to no object matches no reference. */
  lemma ResolveUnresolved(c: string, refs: seq<Ref>)
    requires IsObjectId(c)
    ensures ResolveBranch(Available(c, None, refs)) == Failure(AmbiguousBranches([]))
  {
    UnresolvedMatchesNothing(refs);
  }

  /** No reference points at a missing object id. */
  lemma {:induction false} UnresolvedMatchesNothing(refs: seq<Ref>)
    ensures BranchesForCommit(refs, None) == Success([])
    decreases |refs|
  {
    if |refs| > 0 {
      UnresolvedMatchesNothing(refs[1..]);
    }
  }
}
