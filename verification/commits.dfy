/** Optional values, standing in for Java's null and `Optional`. */
module Wrappers {

  datatype Option<+T> = None | Some(value: T)
}

/**
 * Commit ids and the sequence operations the provider performs on a git log.
 * A log is a sequence of commit ids, newest first; in a linear history the
 * walk that starts at a commit is the suffix of the log from that commit on.
 */
module Commits {

  /** The hex name of a commit. Ids are compared as values and nothing else about them is used. */
  type Id = string

  /** A timeline item, reduced to the one field the provider's algorithms look at. */
  datatype Item = Item(id: Id)

  /** No id occurs twice: a log walk visits every commit once. */
  predicate Distinct(s: seq<Id>)
  {
    forall i, j :: 0 <= i < j < |s| ==> Differ(s, i, j)
  }

  /** The ids at positions `i` and `j` differ. */
  predicate Differ(s: seq<Id>, i: nat, j: nat)
    requires i < |s| && j < |s|
  {
    s[i] != s[j]
  }

  /** Two different positions of a duplicate-free sequence hold different ids. */
  lemma DistinctAt(s: seq<Id>, i: nat, j: nat)
    requires Distinct(s)
    requires i < |s| && j < |s| && i != j
    ensures s[i] != s[j]
  {
    if i < j {
      assert Differ(s, i, j);
    } else {
      assert Differ(s, j, i);
    }
  }

  /** The ids a log walk limited to `n` commits yields from `s`. */
  function Take(s: seq<Id>, n: nat): (r: seq<Id>)
    ensures |r| == if n <= |s| then n else |s|
    ensures r <= s
  {
    if n <= |s| then s[..n] else s
  }

  /**
   * Java's `List.indexOf`: the position of the first occurrence of `x` in
   * `s`, or -1 when `x` does not occur.
   */
  function IndexOf(s: seq<Id>, x: Id): (r: int)
    ensures -1 <= r < |s|
    ensures r == -1 <==> x !in s
    ensures 0 <= r ==> s[r] == x && x !in s[..r]
  {
    if |s| == 0 then -1
    else if s[0] == x then 0
    else
      var k := IndexOf(s[1..], x);
      if k == -1 then -1
      else
        assert s[..k + 1] == [s[0]] + s[1..][..k];
        k + 1
  }

  /**
   * A stream filter keeping every id other than `x`, in order. It removes
   * all occurrences, not only the first.
   */
  function Without(s: seq<Id>, x: Id): (r: seq<Id>)
    ensures x !in r
    ensures x !in s ==> r == s
    ensures x in s ==> |r| < |s|
    ensures |r| <= |s|
  {
    if |s| == 0 then []
    else if s[0] == x then Without(s[1..], x)
    else [s[0]] + Without(s[1..], x)
  }

  /** The filter keeps only ids of the input. */
  lemma {:induction false} WithoutSubset(s: seq<Id>, x: Id)
    ensures forall y :: y in Without(s, x) ==> y in s
  {
    if |s| > 0 {
      WithoutSubset(s[1..], x);
    }
  }

  /** The filter keeps every id other than the one it removes. */
  lemma {:induction false} WithoutKeeps(s: seq<Id>, x: Id, y: Id)
    requires y in s && y != x
    ensures y in Without(s, x)
  {
    if s[0] != y {
      WithoutKeeps(s[1..], x, y);
    }
  }

  /** A walk of `n` commits from position `k` is the stretch of the log that starts at `k`. */
  lemma TakeOfSuffix(s: seq<Id>, k: nat, n: nat)
    requires k <= |s|
    ensures k + |Take(s[k..], n)| <= |s|
    ensures Take(s[k..], n) == s[k..k + |Take(s[k..], n)|]
  {
  }

  /** A walk of `n + 1` commits from position `i` is the commit at `i` followed by a walk of `n` from `i + 1`. */
  lemma TakeFrom(s: seq<Id>, i: nat, n: nat)
    requires i < |s|
    ensures Take(s[i..], n + 1) == [s[i]] + Take(s[i + 1..], n)
  {
    assert s[i..] == [s[i]] + s[i + 1..];
  }

  /** In a log without duplicates, filtering out the head of a walk leaves exactly the rest of the walk. */
  lemma {:induction false} WithoutHead(s: seq<Id>)
    requires |s| > 0
    requires Distinct(s)
    ensures Without(s, s[0]) == s[1..]
  {
    assert s[0] !in s[1..] by {
      forall k | 0 <= k < |s[1..]|
        ensures s[1..][k] != s[0]
      {
        assert s[1..][k] == s[k + 1];
        DistinctAt(s, 0, k + 1);
      }
    }
  }

  /** Two adjacent stretches of a duplicate-free sequence share no id. */
  lemma {:induction false} DistinctSplit(s: seq<Id>, k: nat, e: nat)
    requires Distinct(s)
    requires k <= e <= |s|
    ensures forall y :: y in s[k..e] ==> y !in s[..k]
  {
    forall y | y in s[k..e]
      ensures y !in s[..k]
    {
      var j :| 0 <= j < e - k && s[k..e][j] == y;
      assert s[k + j] == y;
      forall i | 0 <= i < k
        ensures s[..k][i] != y
      {
        assert s[..k][i] == s[i];
        DistinctAt(s, i, k + j);
      }
    }
  }

  /**
   * A prefix of a duplicate-free sequence followed by the stretch after it
   * is the longer prefix, and the two share no id.
   */
  lemma AdjacentStretches(s: seq<Id>, first: seq<Id>, next: seq<Id>)
    requires Distinct(s)
    requires |first| + |next| <= |s|
    requires first == s[..|first|] && next == s[|first|..|first| + |next|]
    ensures first + next == s[..|first| + |next|]
    ensures forall y :: y in next ==> y !in first
  {
    DistinctSplit(s, |first|, |first| + |next|);
  }
}
