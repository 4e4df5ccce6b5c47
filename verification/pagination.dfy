/**
 * What backward pagination returns, stated against the log: the page after a
 * boundary is the stretch of the log that follows it, and consecutive pages
 * tile the log without repeating an id.
 */
module Pagination {

  import opened Wrappers
  import opened Commits
  import opened GitProvider

  /** A stretch of a duplicate-free log has no duplicates either. */
  lemma {:induction false} DistinctSlice(s: seq<Id>, i: nat, j: nat)
    requires i <= j <= |s|
    requires Distinct(s)
    ensures Distinct(s[i..j])
  {
    forall a, b | 0 <= a < b < j - i
      ensures Differ(s[i..j], a, b)
    {
      assert s[i..j][a] == s[i + a] && s[i..j][b] == s[i + b];
      DistinctAt(s, i + a, i + b);
    }
  }

  /** In a duplicate-free log the position of an id is the one `IndexOf` finds. */
  lemma PositionIsIndex(s: seq<Id>, i: nat)
    requires Distinct(s)
    requires i < |s|
    ensures IndexOf(s, s[i]) == i
  {
    var r := IndexOf(s, s[i]);
    if r != i {
      DistinctAt(s, r, i);
    }
  }

  /** With a boundary found at position `i`, the page is the filtered walk from `i`. */
  lemma PageFromWalk(p: Provider, boundary: Item, fetchCount: int, i: nat)
    requires !p.disposed && 0 <= fetchCount
    requires i < |p.log| && IndexOf(p.log, boundary.id) == i
    ensures FetchItems(p, Some(boundary), fetchCount) == Ok(Without(Take(p.log[i..], fetchCount + 1), boundary.id))
  {
  }

  /** Filtering the boundary out of a duplicate-free walk that starts at it leaves the walk after it. */
  lemma {:induction false} WalkWithoutBoundary(s: seq<Id>, i: nat, n: nat)
    requires Distinct(s)
    requires i < |s|
    ensures Without(Take(s[i..], n + 1), s[i]) == Take(s[i + 1..], n)
  {
    var walk := Take(s[i..], n + 1);
    TakeOfSuffix(s, i, n + 1);
    assert walk == s[i..i + |walk|];
    DistinctSlice(s, i, i + |walk|);
    WithoutHead(walk);
    TakeFrom(s, i, n);
  }

  /**
   * With a boundary at position `i` of a duplicate-free log, the page is the
   * next `fetchCount` ids after the boundary, in log order.
   */
  lemma {:induction false} FetchItemsAfterBoundary(p: Provider, boundary: Item, fetchCount: int, i: nat)
    requires !p.disposed && 0 <= fetchCount
    requires Distinct(p.log)
    requires i < |p.log| && p.log[i] == boundary.id
    ensures FetchItems(p, Some(boundary), fetchCount) == Ok(Take(p.log[i + 1..], fetchCount))
  {
    PositionIsIndex(p.log, i);
    PageFromWalk(p, boundary, fetchCount, i);
    WalkWithoutBoundary(p.log, i, fetchCount);
  }

  /** Every id on a page comes from the log. */
  lemma {:induction false} PageIdsFromLog(p: Provider, oldest: Option<Item>, fetchCount: int, page: seq<Id>)
    requires FetchItems(p, oldest, fetchCount) == Ok(page)
    ensures forall x :: x in page ==> x in p.log
  {
    match oldest
    case None =>
      FirstPage(p, fetchCount, page);
      StretchMembers(p.log, 0, page);
    case Some(b) =>
      BoundaryPage(p, b, fetchCount, page);
      FilteredWalkMembers(p.log, IndexOf(p.log, b.id), fetchCount + 1, b.id);
  }

  /** A successful page after a boundary is the filtered walk from the boundary's first occurrence. */
  lemma BoundaryPage(p: Provider, b: Item, fetchCount: int, page: seq<Id>)
    requires FetchItems(p, Some(b), fetchCount) == Ok(page)
    ensures 0 <= fetchCount && 0 <= IndexOf(p.log, b.id)
    ensures page == Without(Take(p.log[IndexOf(p.log, b.id)..], fetchCount + 1), b.id)
  {
  }

  /** Every id of a filtered walk is an id of the log. */
  lemma FilteredWalkMembers(s: seq<Id>, i: int, n: nat, x: Id)
    requires 0 <= i <= |s|
    ensures forall y :: y in Without(Take(s[i..], n), x) ==> y in s
  {
    WithoutSubset(Take(s[i..], n), x);
    TakeOfSuffix(s, i, n);
    StretchMembers(s, i, Take(s[i..], n));
  }

  /** Every id of a stretch of the log is an id of the log. */
  lemma StretchMembers(s: seq<Id>, i: int, w: seq<Id>)
    requires 0 <= i && i + |w| <= |s| && w == s[i..i + |w|]
    ensures forall x :: x in w ==> x in s
  {
    forall x | x in w
      ensures x in s
    {
      var j :| 0 <= j < |w| && w[j] == x;
      assert s[i + j] == x;
    }
  }

  /** A successful page without a boundary is the head of the log. */
  lemma FirstPage(p: Provider, n: int, first: seq<Id>)
    requires FetchItems(p, None, n) == Ok(first)
    ensures !p.disposed && 0 <= n
    ensures |first| <= |p.log| && first == p.log[..|first|]
  {
  }

  /** A successful page after the id at position `k - 1` is the walk of `m` ids from `k`. */
  lemma PageAfter(p: Provider, k: nat, m: int, b: Item, next: seq<Id>)
    requires Distinct(p.log)
    requires 0 < k <= |p.log| && p.log[k - 1] == b.id
    requires FetchItems(p, Some(b), m) == Ok(next)
    ensures 0 <= m && next == Take(p.log[k..], m)
  {
    assert !p.disposed && 0 <= m;
    FetchItemsAfterBoundary(p, b, m, k - 1);
  }

  /**
   * The first page ends at some id; asking for the page after that id
   * continues the log where the first page stopped, so the two pages are
   * disjoint and together form a prefix of the log.
   */
  lemma {:induction false} ConsecutivePages(p: Provider, n: int, m: int, first: seq<Id>, next: seq<Id>)
    requires Distinct(p.log)
    requires FetchItems(p, None, n) == Ok(first) && 0 < |first|
    requires FetchItems(p, Some(Item(first[|first| - 1])), m) == Ok(next)
    ensures first + next <= p.log
    ensures forall x :: x in next ==> x !in first
  {
    PagesFromLog(p, n, m, first, next);
    HeadThenWalk(p.log, first, m, next);
  }

  /** The first page is a head stretch of the log, and the page after it is the walk that follows it. */
  lemma PagesFromLog(p: Provider, n: int, m: int, first: seq<Id>, next: seq<Id>)
    requires Distinct(p.log)
    requires FetchItems(p, None, n) == Ok(first) && 0 < |first|
    requires FetchItems(p, Some(Item(first[|first| - 1])), m) == Ok(next)
    ensures 0 < |first| <= |p.log| && first == p.log[..|first|]
    ensures 0 <= m && next == Take(p.log[|first|..], m)
  {
    FirstPage(p, n, first);
    PageAfterHead(p, m, first, next);
  }

  /** The page after the last id of a head stretch `first` is the walk of `m` ids after `first`. */
  lemma PageAfterHead(p: Provider, m: int, first: seq<Id>, next: seq<Id>)
    requires Distinct(p.log)
    requires 0 < |first| <= |p.log| && first == p.log[..|first|]
    requires FetchItems(p, Some(Item(first[|first| - 1])), m) == Ok(next)
    ensures 0 <= m && next == Take(p.log[|first|..], m)
  {
    LastOfPrefix(p.log, first);
    PageAfter(p, |first|, m, Item(first[|first| - 1]), next);
  }

  /**
   * A head stretch of a duplicate-free log followed by the walk after it is
   * a prefix of the log, and the two share no id.
   */
  lemma HeadThenWalk(s: seq<Id>, first: seq<Id>, m: nat, next: seq<Id>)
    requires Distinct(s)
    requires 0 < |first| <= |s| && first == s[..|first|]
    requires next == Take(s[|first|..], m)
    ensures first + next <= s
    ensures forall x :: x in next ==> x !in first
  {
    WalkIsStretch(s, |first|, m, next);
    AdjacentStretches(s, first, next);
  }

  /** The last id of a non-empty head stretch is the log id at the same position. */
  lemma LastOfPrefix(s: seq<Id>, t: seq<Id>)
    requires 0 < |t| <= |s| && t == s[..|t|]
    ensures s[|t| - 1] == Item(t[|t| - 1]).id
  {
  }

  /** A walk of `m` ids from position `k` is the stretch of the log from `k` on. */
  lemma WalkIsStretch(s: seq<Id>, k: nat, m: nat, w: seq<Id>)
    requires k <= |s| && w == Take(s[k..], m)
    ensures k + |w| <= |s| && w == s[k..k + |w|]
  {
    TakeOfSuffix(s, k, m);
  }
}
