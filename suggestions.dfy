/** Misspelling suggestions for the branch environment variable: the Levenshtein distance, the
    threshold MAX_LEVENSHTEIN_EDIT_DISTANCE and the `getPossibleVariables` loop over the
    environment's names. */
module Suggestions {

  /** MAX_LEVENSHTEIN_EDIT_DISTANCE: the largest distance at which a name is suggested. */
  const MaxLevenshteinEditDistance: nat := 10

  function Min3(x: nat, y: nat, z: nat): (m: nat)
    ensures m <= x && m <= y && m <= z
    ensures m == x || m == y || m == z
  {
    if x <= y && x <= z then x else if y <= z then y else z
  }

  /** The Levenshtein distance: the fewest single-character insertions, deletions and
      substitutions that turn `a` into `b`. */
  function EditDistance(a: string, b: string): nat
    decreases |a| + |b|
  {
    if |a| == 0 then |b|
    else if |b| == 0 then |a|
    else Min3(EditDistance(a[1..], b) + 1,
              EditDistance(a, b[1..]) + 1,
              EditDistance(a[1..], b[1..]) + (if a[0] == b[0] then 0 else 1))
  }

  /** A string is at distance 0 from itself. */
  lemma {:induction false} EditDistanceSelf(a: string)
    ensures EditDistance(a, a) == 0
    decreases |a|
  {
    if |a| > 0 {
      EditDistanceSelf(a[1..]);
    }
  }

  /** Only equal strings are at distance 0. */
  lemma {:induction false} EditDistanceZero(a: string, b: string)
    requires EditDistance(a, b) == 0
    ensures a == b
    decreases |a| + |b|
  {
    if |a| > 0 && |b| > 0 {
      EditDistanceZero(a[1..], b[1..]);
      assert a == [a[0]] + a[1..] && b == [b[0]] + b[1..];
    }
  }

  /** The distance does not depend on the order of its arguments. */
  lemma {:induction false} EditDistanceSymmetric(a: string, b: string)
    ensures EditDistance(a, b) == EditDistance(b, a)
    decreases |a| + |b|
  {
    if |a| > 0 && |b| > 0 {
      EditDistanceSymmetric(a[1..], b);
      EditDistanceSymmetric(a, b[1..]);
      EditDistanceSymmetric(a[1..], b[1..]);
    }
  }

  /** Substituting along the shorter string and inserting the rest never needs more edits than
      the longer string has characters. */
  lemma {:induction false} EditDistanceAtMostLonger(a: string, b: string)
    ensures EditDistance(a, b) <= if |a| <= |b| then |b| else |a|
    decreases |a| + |b|
  {
    if |a| > 0 && |b| > 0 {
      EditDistanceAtMostLonger(a[1..], b[1..]);
    }
  }

  /** Every edit changes the length by at most one. */
  lemma {:induction false} EditDistanceAtLeastLengthGap(a: string, b: string)
    ensures EditDistance(a, b) >= |a| - |b| && EditDistance(a, b) >= |b| - |a|
    decreases |a| + |b|
  {
    if |a| > 0 && |b| > 0 {
      EditDistanceAtLeastLengthGap(a[1..], b);
      EditDistanceAtLeastLengthGap(a, b[1..]);
      EditDistanceAtLeastLengthGap(a[1..], b[1..]);
    }
  }

  /** A common prefix costs nothing. */
  lemma {:induction false} EditDistanceCommonPrefix(p: string, a: string, b: string)
    ensures EditDistance(p + a, p + b) <= EditDistance(a, b)
    decreases |p|
  {
    if |p| > 0 {
      EditDistanceCommonPrefix(p[1..], a, b);
      assert (p + a)[1..] == p[1..] + a;
      assert (p + b)[1..] == p[1..] + b;
    } else {
      assert p + a == a && p + b == b;
    }
  }

  /** `name` is suggested for `target`: their distance is at most the threshold. */
  predicate Near(name: string, target: string) {
    EditDistance(name, target) <= MaxLevenshteinEditDistance
  }

  /** Every name no longer than 10 characters is suggested for a target no longer than 10
      characters, whatever its letters: the threshold is as long as such strings. */
  lemma ShortNamesAreNear(name: string, target: string)
    requires |name| <= MaxLevenshteinEditDistance && |target| <= MaxLevenshteinEditDistance
    ensures Near(name, target)
  {
    EditDistanceAtMostLonger(name, target);
  }

  /** A name whose length differs from the target's by more than 10 is never suggested. */
  lemma LengthGapExcludes(name: string, target: string)
    requires |name| > |target| + MaxLevenshteinEditDistance || |target| > |name| + MaxLevenshteinEditDistance
    ensures !Near(name, target)
  {
    EditDistanceAtLeastLengthGap(name, target);
  }

  /** One stray letter is within reach. */
  lemma NearTypo()
    ensures Near("GIT_BRANCHH", "GIT_BRANCH")
  {
    var p, extra, none := "GIT_BRANCH", "H", "";
    EditDistanceCommonPrefix(p, extra, none);
    assert p + extra == "GIT_BRANCHH" && p + none == p;
  }

  /** An unrelated name of 9 characters is suggested for `GIT_BRANCH` too. */
  lemma NearUnrelated()
    ensures Near("UNRELATED", "GIT_BRANCH")
  {
    ShortNamesAreNear("UNRELATED", "GIT_BRANCH");
  }

  /** `getPossibleVariables`: goes through the environment's names in the unspecified order of
      its key set and keeps those near `target`. */
  method GetPossibleVariables(names: set<string>, target: string) returns (result: seq<string>)
    ensures forall x :: x in result <==> x in names && Near(x, target)
    ensures forall i, j :: 0 <= i < j < |result| ==> result[i] != result[j]
  {
    result := [];
    var remaining := names;
    while remaining != {}
      invariant remaining <= names
      invariant forall x :: x in result <==> x in names - remaining && Near(x, target)
      invariant forall i, j :: 0 <= i < j < |result| ==> result[i] != result[j]
      decreases |remaining|
    {
      var name :| name in remaining;
      if EditDistance(name, target) <= MaxLevenshteinEditDistance {
        assert name !in result;
        result := result + [name];
      }
      remaining := remaining - {name};
    }
  }
}
