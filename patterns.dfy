/** The regular expressions the goal uses, over Java's ASCII character classes: the two
    default full-match patterns `(\w+\-\w+).*` and `(\d+\.\d+\.\d+).*`, the find-first search
    for ISSUE_KEY_REGEX `\w\w+\-\d+`, and the abstract compiled pattern that user-supplied
    expressions become. */
module Patterns {
  import opened Wrappers

  /** `\w` = [A-Za-z0-9_] (Java's class without UNICODE_CHARACTER_CLASS). */
  predicate IsWordChar(c: char) {
    'a' <= c <= 'z' || 'A' <= c <= 'Z' || '0' <= c <= '9' || c == '_'
  }

  /** `\d` = [0-9]. */
  predicate IsDigit(c: char) {
    '0' <= c <= '9'
  }

  /** The characters Java's `.` does not match outside DOTALL mode. */
  predicate IsLineTerminator(c: char) {
    c == '\n' || c == '\r' || c == '\U{85}' || c == '\U{2028}' || c == '\U{2029}'
  }

  /** `.*` matches all of `t`. */
  predicate NoLineTerminator(t: string) {
    forall k :: 0 <= k < |t| ==> !IsLineTerminator(t[k])
  }

  /** A compiled java.util.regex.Pattern as Matcher.matches() uses it: `Some(groups)` when the
      whole input matches, `groups[k]` being capturing group k + 1; `None` when it does not. */
  datatype Pattern = Pattern(source: string, fullMatch: string -> Option<seq<string>>)

  // ---------------------------------------------------------------------------------------
  // Full match of `(X+(sep X+){n-1}).*`

  /** The end of the longest run of `cls` characters that starts at `i` (a greedy `X+`). */
  function Span(s: string, i: nat, cls: char -> bool): (j: nat)
    requires i <= |s|
    ensures i <= j <= |s|
    ensures forall k :: i <= k < j ==> cls(s[k])
    ensures j == |s| || !cls(s[j])
    decreases |s| - i
  {
    if i < |s| && cls(s[i]) then Span(s, i + 1, cls) else i
  }

  /** `s[i..e]` belongs to the language of `X+(sep X+){n-1}`: `n` non-empty runs of `cls`
      characters joined by `sep`. */
  ghost predicate Runs(s: string, i: nat, e: nat, cls: char -> bool, sep: char, n: nat)
    requires i <= e <= |s|
    decreases n
  {
    if n <= 1 then
      n == 1 && i < e && forall k :: i <= k < e ==> cls(s[k])
    else
      exists m :: SplitsAt(s, i, m, e, cls, sep, n)
  }

  /** `s[i..e]` is a first run `s[i..m]`, the separator at `m`, and `n - 1` further runs. */
  ghost predicate SplitsAt(s: string, i: nat, m: nat, e: nat, cls: char -> bool, sep: char, n: nat)
    requires i <= e <= |s| && n > 1
    decreases n, 0
  {
    && i < m < e && s[m] == sep
    && (forall k :: i <= k < m ==> cls(s[k]))
    && Runs(s, m + 1, e, cls, sep, n - 1)
  }

  /** The inputs on which Matcher.matches() succeeds for `(X+(sep X+){n-1}).*`. */
  ghost predicate FullMatch(s: string, cls: char -> bool, sep: char, n: nat) {
    exists e :: 0 <= e <= |s| && Runs(s, 0, e, cls, sep, n) && NoLineTerminator(s[e..])
  }

  /** Where the backtracking matcher's greedy parse of `X+(sep X+){n-1}` from `i` ends. */
  function RunsEnd(s: string, i: nat, cls: char -> bool, sep: char, n: nat): (r: Option<nat>)
    requires i <= |s| && n >= 1
    ensures r.Some? ==> i < r.value <= |s|
    decreases n
  {
    var j := Span(s, i, cls);
    if j == i then None
    else if n == 1 then Some(j)
    else if j == |s| || s[j] != sep then None
    else RunsEnd(s, j + 1, cls, sep, n - 1)
  }

  /** Matcher.matches() for `(X+(sep X+){n-1}).*`: on success, the one capturing group. */
  function MatchRuns(s: string, cls: char -> bool, sep: char, n: nat): (r: Option<seq<string>>)
    requires n >= 1
    ensures r.Some? ==>
      && |r.value| == 1 && 0 < |r.value[0]| <= |s| && r.value[0] == s[..|r.value[0]|]
      && NoLineTerminator(s[|r.value[0]|..])
  {
    match RunsEnd(s, 0, cls, sep, n)
    case None => None
    case Some(e) => if NoLineTerminator(s[e..]) then Some([s[..e]]) else None
  }

  lemma {:induction false} RunsEndSound(s: string, i: nat, cls: char -> bool, sep: char, n: nat)
    requires i <= |s| && n >= 1
    requires RunsEnd(s, i, cls, sep, n).Some?
    ensures Runs(s, i, RunsEnd(s, i, cls, sep, n).value, cls, sep, n)
    decreases n
  {
    if n > 1 {
      var m := Span(s, i, cls);
      var next, rest := m + 1, n - 1;
      RunsEndSound(s, next, cls, sep, rest);
      assert SplitsAt(s, i, m, RunsEnd(s, i, cls, sep, n).value, cls, sep, n);
    }
  }

  /** Whatever part of the language starts at `i`, the greedy parse from `i` reaches at least
      as far: backtracking never has to give a character back. */
  lemma {:induction false} RunsEndComplete(s: string, i: nat, e: nat, cls: char -> bool, sep: char, n: nat)
    requires i <= e <= |s| && n >= 1
    requires !cls(sep)
    requires Runs(s, i, e, cls, sep, n)
    ensures RunsEnd(s, i, cls, sep, n).Some?
    ensures e <= RunsEnd(s, i, cls, sep, n).value
    decreases n
  {
    if n == 1 {
      SpanReaches(s, i, e, cls);
    } else {
      var m := RunsFirstSeparator(s, i, e, cls, sep, n);
      var next, rest := m + 1, n - 1;
      RunsEndComplete(s, next, e, cls, sep, rest);
      RunsEndStep(s, i, cls, sep, n);
    }
  }

  /** After a non-empty run that stops at a separator, the parse goes on with one run less. */
  lemma RunsEndStep(s: string, i: nat, cls: char -> bool, sep: char, n: nat)
    requires i <= |s| && n > 1
    requires i < Span(s, i, cls) < |s| && s[Span(s, i, cls)] == sep
    ensures RunsEnd(s, i, cls, sep, n) == RunsEnd(s, Span(s, i, cls) + 1, cls, sep, n - 1)
  {
  }

  /** In a word of the language with n > 1 runs, the first separator is where the first greedy
      run stops. */
  lemma RunsFirstSeparator(s: string, i: nat, e: nat, cls: char -> bool, sep: char, n: nat) returns (m: nat)
    requires i <= e <= |s| && n > 1
    requires !cls(sep)
    requires Runs(s, i, e, cls, sep, n)
    ensures i < m < e && s[m] == sep && Span(s, i, cls) == m
    ensures Runs(s, m + 1, e, cls, sep, n - 1)
  {
    m :| SplitsAt(s, i, m, e, cls, sep, n);
    SpanReaches(s, i, m, cls);
  }

  /** A greedy run from `i` covers every run of the class that starts at `i`. */
  lemma SpanReaches(s: string, i: nat, e: nat, cls: char -> bool)
    requires i <= e <= |s|
    requires forall k :: i <= k < e ==> cls(s[k])
    ensures e <= Span(s, i, cls)
    ensures e < |s| && !cls(s[e]) ==> Span(s, i, cls) == e
  {
  }

  /** MatchRuns succeeds exactly on the language of `(X+(sep X+){n-1}).*`, and its group is the
      longest prefix of the input that belongs to `X+(sep X+){n-1}`. */
  lemma MatchRunsCorrect(s: string, cls: char -> bool, sep: char, n: nat)
    requires n >= 1 && !cls(sep)
    ensures MatchRuns(s, cls, sep, n).Some? <==> FullMatch(s, cls, sep, n)
    ensures MatchRuns(s, cls, sep, n).Some? ==>
      var g := MatchRuns(s, cls, sep, n).value;
      && |g| == 1 && g[0] == s[..|g[0]|] && Runs(s, 0, |g[0]|, cls, sep, n)
      && forall e :: |g[0]| < e <= |s| ==> !Runs(s, 0, e, cls, sep, n)
  {
    var r := RunsEnd(s, 0, cls, sep, n);
    if r.Some? {
      var d := r.value;
      RunsEndSound(s, 0, cls, sep, n);
      forall e | d < e <= |s|
        ensures !Runs(s, 0, e, cls, sep, n)
      {
        if Runs(s, 0, e, cls, sep, n) {
          RunsEndComplete(s, 0, e, cls, sep, n);
        }
      }
      if FullMatch(s, cls, sep, n) {
        var e :| 0 <= e <= |s| && Runs(s, 0, e, cls, sep, n) && NoLineTerminator(s[e..]);
        RunsEndComplete(s, 0, e, cls, sep, n);
        assert forall k :: 0 <= k < |s| - d ==> s[d..][k] == s[e..][k + d - e];
      }
    } else if FullMatch(s, cls, sep, n) {
      var e :| 0 <= e <= |s| && Runs(s, 0, e, cls, sep, n) && NoLineTerminator(s[e..]);
      RunsEndComplete(s, 0, e, cls, sep, n);
    }
  }

  /** `(\w+\-\w+).*`, the default `branchPattern`. */
  function DefaultBranchMatch(s: string): (r: Option<seq<string>>)
    ensures r.Some? <==> FullMatch(s, IsWordChar, '-', 2)
    ensures r.Some? ==>
      && |r.value| == 1 && |r.value[0]| <= |s| && r.value[0] == s[..|r.value[0]|] && Runs(s, 0, |r.value[0]|, IsWordChar, '-', 2)
      && forall e :: |r.value[0]| < e <= |s| ==> !Runs(s, 0, e, IsWordChar, '-', 2)
  {
    MatchRunsCorrect(s, IsWordChar, '-', 2);
    MatchRuns(s, IsWordChar, '-', 2)
  }

  /** `(\d+\.\d+\.\d+).*`, the default `versionPattern`. */
  function DefaultVersionMatch(s: string): (r: Option<seq<string>>)
    ensures r.Some? <==> FullMatch(s, IsDigit, '.', 3)
    ensures r.Some? ==>
      && |r.value| == 1 && |r.value[0]| <= |s| && r.value[0] == s[..|r.value[0]|] && Runs(s, 0, |r.value[0]|, IsDigit, '.', 3)
      && forall e :: |r.value[0]| < e <= |s| ==> !Runs(s, 0, e, IsDigit, '.', 3)
  {
    MatchRunsCorrect(s, IsDigit, '.', 3);
    MatchRuns(s, IsDigit, '.', 3)
  }

  const DefaultBranchPattern := Pattern("(\\w+\\-\\w+).*", DefaultBranchMatch)

  const DefaultVersionPattern := Pattern("(\\d+\\.\\d+\\.\\d+).*", DefaultVersionMatch)

  lemma DefaultBranchExample()
    ensures DefaultBranchMatch("ABC-42-hotfix") == Some(["ABC-42"])
  {
    var s := "ABC-42-hotfix";
    assert Span(s, 5, IsWordChar) == 6;
    assert Span(s, 4, IsWordChar) == 6;
    assert Span(s, 0, IsWordChar) == 3;
    assert s[..6] == "ABC-42";
  }

  lemma DefaultVersionExample()
    ensures DefaultVersionMatch("1.2.3-dev") == Some(["1.2.3"])
  {
    var s := "1.2.3-dev";
    assert Span(s, 4, IsDigit) == 5;
    assert Span(s, 2, IsDigit) == 3;
    assert Span(s, 0, IsDigit) == 1;
    assert s[..5] == "1.2.3";
  }

  // ---------------------------------------------------------------------------------------
  // Matcher.find() for ISSUE_KEY_REGEX `\w\w+\-\d+`

  /** `s[a..b]` belongs to the language of `\w\w+\-\d+`. */
  ghost predicate IssueKey(s: string, a: nat, b: nat)
    requires a <= b <= |s|
  {
    exists k :: a + 2 <= k < b - 1 && s[k] == '-' &&
      (forall i :: a <= i < k ==> IsWordChar(s[i])) && (forall i :: k < i < b ==> IsDigit(s[i]))
  }

  /** The greedy attempt of `\w\w+\-\d+` at position `p`: where the match ends, if any. */
  function IssueKeyAt(s: string, p: nat): (r: Option<nat>)
    requires p <= |s|
    ensures r.Some? ==> p < r.value <= |s|
  {
    var w := Span(s, p, IsWordChar);
    if w < p + 2 || w + 1 >= |s| || s[w] != '-' || !IsDigit(s[w + 1]) then None
    else Some(Span(s, w + 1, IsDigit))
  }

  lemma IssueKeyAtReaches(s: string, p: nat, q: nat)
    requires p <= q <= |s| && IssueKey(s, p, q)
    ensures IssueKeyAt(s, p).Some? && q <= IssueKeyAt(s, p).value
  {
    var k :| p + 2 <= k < q - 1 && s[k] == '-' &&
      (forall i :: p <= i < k ==> IsWordChar(s[i])) && (forall i :: k < i < q ==> IsDigit(s[i]));
    SpanReaches(s, p, k, IsWordChar);
    SpanReaches(s, k + 1, q, IsDigit);
  }

  /** The attempt at `p` finds the longest issue key that starts at `p`, and fails only when
      none does. */
  lemma IssueKeyAtCorrect(s: string, p: nat)
    requires p <= |s|
    ensures IssueKeyAt(s, p).None? ==> forall q :: p <= q <= |s| ==> !IssueKey(s, p, q)
    ensures IssueKeyAt(s, p).Some? ==>
      var q := IssueKeyAt(s, p).value;
      && IssueKey(s, p, q)
      && forall q' :: q < q' <= |s| ==> !IssueKey(s, p, q')
  {
    forall q | p <= q <= |s| && IssueKey(s, p, q)
      ensures IssueKeyAt(s, p).Some? && q <= IssueKeyAt(s, p).value
    {
      IssueKeyAtReaches(s, p, q);
    }
    if IssueKeyAt(s, p).Some? {
      var w := Span(s, p, IsWordChar);
      assert forall i :: w < i < IssueKeyAt(s, p).value ==> IsDigit(s[i]);
    }
  }

  /** Matcher.find() from position `p`: the leftmost match of `\w\w+\-\d+`, as (start, end). */
  function FindIssueKey(s: string, p: nat): (r: Option<(nat, nat)>)
    requires p <= |s|
    ensures r.None? ==> forall a, b :: p <= a <= b <= |s| ==> !IssueKey(s, a, b)
    ensures r.Some? ==>
      var (a, b) := r.value;
      && p <= a < b <= |s| && IssueKey(s, a, b)
      && (forall a', b' :: p <= a' < a && a' <= b' <= |s| ==> !IssueKey(s, a', b'))
      && (forall b' :: b < b' <= |s| ==> !IssueKey(s, a, b'))
    decreases |s| - p
  {
    IssueKeyAtCorrect(s, p);
    match IssueKeyAt(s, p)
    case Some(q) => Some((p, q))
    case None => if p == |s| then None else FindIssueKey(s, p + 1)
  }

  /** extractIssue with ISSUE_KEY_REGEX: group 0 of the first match in the branch name, or
      `None` where Java returns null. The match is the leftmost one, taken as long as possible
      at its start. */
  function ExtractIssue(branchName: string): (r: Option<string>)
    ensures r.None? <==> forall a, b :: 0 <= a <= b <= |branchName| ==> !IssueKey(branchName, a, b)
    ensures r.Some? ==>
      exists a, b :: 0 <= a <= b <= |branchName| && IssueKey(branchName, a, b) && branchName[a..b] == r.value
        && (forall a', b' :: 0 <= a' < a && a' <= b' <= |branchName| ==> !IssueKey(branchName, a', b'))
        && (forall b' :: b < b' <= |branchName| ==> !IssueKey(branchName, a, b'))
  {
    match FindIssueKey(branchName, 0)
    case None => None
    case Some((a, b)) => Some(branchName[a..b])
  }
}
