/**
 * The git-backed timeline item provider: backward pagination from a boundary
 * item, detection of the items newer than a latest known one, and the
 * disposed state that makes every later call fail fast.
 *
 * The repository is reduced to its log, a sequence of commit ids, newest
 * first. A pull is an input that prepends the ids it brought in.
 */
module GitProvider {

  import opened Wrappers
  import opened Commits

  /** The number of head commits `fetchNew` reads after pulling. */
  const NewItemsWindow: nat := 100

  /** The failures the provider reports instead of returning items. */
  datatype Error =
    | Disposed                // the provider has been disposed
    | NegativeCount           // `fetchCount` below zero
    | NullItem                // no latest item given to `fetchNew`
    | UnknownItem(item: Item) // the boundary item's commit is not in the repository
    | PullFailed              // the pull before reading new items failed
    | NoHead                  // a log read from the head of a repository without commits

  datatype Result<+T> = Ok(value: T) | Err(error: Error)

  /**
   * The provider's state: the repository log, the disposed flag, and how
   * many times the repository handle has been closed.
   */
  datatype Provider = Provider(log: seq<Id>, disposed: bool, closes: nat)

  /** What a pull does to the repository: prepend the fetched ids, or fail in transport. */
  datatype Pull = Pulled(incoming: seq<Id>) | PullFailure

  /** The result of an operation together with the provider state after it. */
  datatype Step<+T> = Step(provider: Provider, result: Result<T>)

  function Min(a: nat, b: nat): nat
  {
    if a <= b then a else b
  }

  /**
   * The walk that starts at the boundary commit: up to `fetchCount + 1`
   * commits, the boundary first, or an unknown-item error when the
   * repository has no such commit.
   */
  function FetchPredecessors(log: seq<Id>, oldest: Item, fetchCount: nat): (r: Result<seq<Id>>)
    ensures r.Err? <==> oldest.id !in log
    ensures r.Err? ==> r.error == UnknownItem(oldest)
    ensures r.Ok? ==> 0 < |r.value| <= fetchCount + 1 && r.value[0] == oldest.id
    ensures r.Ok? ==> IndexOf(log, oldest.id) + |r.value| <= |log|
    ensures r.Ok? ==> r.value == log[IndexOf(log, oldest.id)..IndexOf(log, oldest.id) + |r.value|]
    ensures r.Ok? ==> |r.value| == Min(fetchCount + 1, |log| - IndexOf(log, oldest.id))
  {
    var i := IndexOf(log, oldest.id);
    if i < 0 then Err(UnknownItem(oldest))
    else Ok(Take(log[i..], fetchCount + 1))
  }

  /**
   * The walk from the head: the newest `fetchCount` commits, or all of them
   * when the log is shorter. A repository without commits has no head to
   * start from, and the read fails.
   */
  function ReadHead(log: seq<Id>, fetchCount: nat): (r: Result<seq<Id>>)
    ensures r.Err? <==> |log| == 0
    ensures r.Err? ==> r.error == NoHead
    ensures r.Ok? ==> r.value == log[..Min(fetchCount, |log|)]
  {
    if |log| == 0 then Err(NoHead)
    else
      assert log[..|log|] == log;
      Ok(Take(log, fetchCount))
  }

  /** The commits `fetchItems` reads: from the head without a boundary, from the boundary with one. */
  function ReadCommits(log: seq<Id>, oldest: Option<Item>, fetchCount: nat): (r: Result<seq<Id>>)
    ensures r.Err? <==> (oldest.Some? && oldest.value.id !in log) || (oldest.None? && |log| == 0)
    ensures r.Err? && oldest.Some? ==> r.error == UnknownItem(oldest.value)
    ensures r.Err? && oldest.None? ==> r.error == NoHead
    ensures oldest.None? && 0 < |log| ==> r == Ok(log[..Min(fetchCount, |log|)])
    ensures r.Ok? && oldest.Some? ==> 0 < |r.value| && r.value[0] == oldest.value.id
    ensures r.Ok? && oldest.Some? ==> IndexOf(log, oldest.value.id) + |r.value| <= |log|
    ensures r.Ok? && oldest.Some? ==>
              r.value == log[IndexOf(log, oldest.value.id)..IndexOf(log, oldest.value.id) + |r.value|]
    ensures r.Ok? && oldest.Some? ==> |r.value| == Min(fetchCount + 1, |log| - IndexOf(log, oldest.value.id))
  {
    match oldest
    case Some(item) => FetchPredecessors(log, item, fetchCount)
    case None => ReadHead(log, fetchCount)
  }

  /**
   * `fetchItems(oldestItem, fetchCount)`: the next page of older items.
   * The state checks come first, then the argument check; the boundary's
   * own commit is removed by a filter on its id.
   */
  function FetchItems(p: Provider, oldest: Option<Item>, fetchCount: int): (r: Result<seq<Id>>)
    ensures p.disposed ==> r == Err(Disposed)
    ensures !p.disposed && fetchCount < 0 ==> r == Err(NegativeCount)
    ensures !p.disposed && 0 <= fetchCount && oldest.None? && |p.log| == 0 ==> r == Err(NoHead)
    ensures !p.disposed && 0 <= fetchCount && oldest.None? && 0 < |p.log| ==> r == Ok(p.log[..Min(fetchCount, |p.log|)])
    ensures !p.disposed && 0 <= fetchCount && oldest.Some? && oldest.value.id !in p.log ==>
              r == Err(UnknownItem(oldest.value))
    ensures r.Err? && r.error.UnknownItem? ==> oldest.Some? && oldest.value.id !in p.log
    ensures r.Ok? ==> |r.value| <= fetchCount
    ensures r.Ok? && oldest.Some? ==> oldest.value.id !in r.value
  {
    if p.disposed then Err(Disposed)
    else if fetchCount < 0 then Err(NegativeCount)
    else
      match ReadCommits(p.log, oldest, fetchCount)
      case Err(e) => Err(e)
      case Ok(commits) =>
        if oldest.None? then Ok(commits)
        else Ok(Without(commits, oldest.value.id))
  }

  /**
   * `findLimiter`: the first commit of the window whose id is the latest
   * item's, if any.
   */
  function FindLimiter(latest: Item, commits: seq<Id>): (r: Option<Id>)
    ensures r.Some? <==> latest.id in commits
    ensures r.Some? ==> r.value == latest.id
  {
    if |commits| == 0 then None
    else if commits[0] == latest.id then Some(commits[0])
    else FindLimiter(latest, commits[1..])
  }

  /**
   * `computeNewCount`: the number of window commits before the latest item,
   * or the whole window when the latest item is not in it.
   */
  function ComputeNewCount(latest: Item, commits: seq<Id>): (n: nat)
    ensures n <= |commits|
    ensures latest.id !in commits[..n]
    ensures n < |commits| ==> commits[n] == latest.id
  {
    match FindLimiter(latest, commits)
    case Some(limiter) => IndexOf(commits, limiter)
    case None => |commits|
  }

  /**
   * `fetchNew(latestItem)`: pull, read the head window, and return the
   * window's commits that come before the latest item. A repository still
   * without commits after the pull has no head window to read.
   */
  function FetchNew(p: Provider, latest: Option<Item>, pull: Pull): (r: Step<seq<Id>>)
    ensures p.disposed ==> r == Step(p, Err(Disposed))
    ensures !p.disposed && latest.None? ==> r == Step(p, Err(NullItem))
    ensures !p.disposed && latest.Some? && pull.PullFailure? ==> r == Step(p, Err(PullFailed))
    ensures r.result.Err? ==> r.provider == p
    ensures r.provider.disposed == p.disposed && r.provider.closes == p.closes
    ensures !p.disposed && latest.Some? && pull.Pulled? && |pull.incoming + p.log| == 0 ==> r == Step(p, Err(NoHead))
    ensures r.result.Ok? <==> !p.disposed && latest.Some? && pull.Pulled? && 0 < |pull.incoming + p.log|
    ensures r.result.Ok? ==> r.provider.log == pull.incoming + p.log
    ensures r.result.Ok? ==> |r.result.value| <= NewItemsWindow
    ensures r.result.Ok? ==> r.result.value <= r.provider.log
    ensures r.result.Ok? ==> latest.value.id !in r.result.value
  {
    if p.disposed then Step(p, Err(Disposed))
    else if latest.None? then Step(p, Err(NullItem))
    else
      match pull
      case PullFailure => Step(p, Err(PullFailed))
      case Pulled(incoming) =>
        var q := p.(log := incoming + p.log);
        if |q.log| == 0 then Step(q, Err(NoHead))
        else
          var commits := Take(q.log, NewItemsWindow);
          Step(q, Ok(commits[..ComputeNewCount(latest.value, commits)]))
  }

  /** `getNewCount(item)`: the size of what `fetchNew` returns, with the same errors and the same pull. */
  function GetNewCount(p: Provider, latest: Option<Item>, pull: Pull): (r: Step<nat>)
    ensures r.provider == FetchNew(p, latest, pull).provider
    ensures r.result.Ok? <==> FetchNew(p, latest, pull).result.Ok?
    ensures r.result.Ok? ==> r.result.value == |FetchNew(p, latest, pull).result.value|
    ensures r.result.Err? ==> r.result.error == FetchNew(p, latest, pull).result.error
    ensures r.result.Ok? ==> r.result.value <= NewItemsWindow
  {
    var s := FetchNew(p, latest, pull);
    match s.result
    case Ok(items) => Step(s.provider, Ok(|items|))
    case Err(e) => Step(s.provider, Err(e))
  }

  /** `dispose()`: close the repository handle unless already disposed. */
  function Dispose(p: Provider): (r: Provider)
    ensures r.disposed
    ensures r.log == p.log
    ensures p.disposed ==> r == p
    ensures !p.disposed ==> r.closes == p.closes + 1
  {
    if p.disposed then p
    else p.(disposed := true, closes := p.closes + 1)
  }
}
