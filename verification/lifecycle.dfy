/**
 * The provider over a sequence of calls: disposal is final and closes the
 * repository handle once, and the log only ever grows at its newest end.
 */
module Lifecycle {

  import opened Wrappers
  import opened Commits
  import opened GitProvider

  /** The public calls a caller can make on a provider. */
  datatype Call =
    | FetchItemsCall(oldest: Option<Item>, fetchCount: int)
    | FetchNewCall(latest: Option<Item>, pull: Pull)
    | GetNewCountCall(latest: Option<Item>, pull: Pull)
    | DisposeCall

  /** The provider state after one call. */
  function Apply(p: Provider, c: Call): (r: Provider)
    ensures p.disposed ==> r == p
    ensures r.disposed <==> p.disposed || c.DisposeCall?
    ensures r.closes == if !p.disposed && c.DisposeCall? then p.closes + 1 else p.closes
    ensures EndsWith(r.log, p.log)
  {
    match c
    case FetchItemsCall(_, _) => p
    case FetchNewCall(latest, pull) => FetchNew(p, latest, pull).provider
    case GetNewCountCall(latest, pull) => GetNewCount(p, latest, pull).provider
    case DisposeCall => Dispose(p)
  }

  /** The provider state after a sequence of calls, first call first. */
  function Run(p: Provider, calls: seq<Call>): Provider
    decreases |calls|
  {
    if |calls| == 0 then p else Run(Apply(p, calls[0]), calls[1..])
  }

  /** The handle has been closed exactly once if the provider is disposed, and never otherwise. */
  predicate ClosedOnceIfDisposed(p: Provider)
  {
    p.closes == if p.disposed then 1 else 0
  }

  /** A pull brings only ids the log does not already hold, none twice. */
  predicate FreshPull(log: seq<Id>, c: Call)
  {
    match c
    case FetchNewCall(_, Pulled(incoming)) => Distinct(incoming + log)
    case GetNewCountCall(_, Pulled(incoming)) => Distinct(incoming + log)
    case _ => true
  }

  /** Every pull of the call sequence is fresh for the log it lands on. */
  predicate FreshPulls(p: Provider, calls: seq<Call>)
    decreases |calls|
  {
    |calls| == 0 || (FreshPull(p.log, calls[0]) && FreshPulls(Apply(p, calls[0]), calls[1..]))
  }

  /**
   * Over any call sequence: the handle is closed at most once and exactly
   * when the provider is disposed, disposal happens iff some call disposes
   * (or it already had), and once disposed nothing changes any more.
   */
  lemma {:induction false} RunKeepsLifecycle(p: Provider, calls: seq<Call>)
    requires ClosedOnceIfDisposed(p)
    ensures ClosedOnceIfDisposed(Run(p, calls))
    ensures Run(p, calls).disposed <==> p.disposed || DisposeCall in calls
    ensures p.disposed ==> Run(p, calls) == p
    decreases |calls|
  {
    if |calls| > 0 {
      RunKeepsLifecycle(Apply(p, calls[0]), calls[1..]);
      assert calls == [calls[0]] + calls[1..];
    }
  }

  /** `t` is the oldest part of `s`. */
  predicate EndsWith(s: seq<Id>, t: seq<Id>)
  {
    |t| <= |s| && s[|s| - |t|..] == t
  }

  lemma EndsWithTransitive(s: seq<Id>, t: seq<Id>, u: seq<Id>)
    requires EndsWith(s, t) && EndsWith(t, u)
    ensures EndsWith(s, u)
  {
    assert s[|s| - |t|..][|t| - |u|..] == s[|s| - |u|..];
  }

  /** One call with a fresh pull keeps the log free of duplicates. */
  lemma ApplyKeepsDistinct(p: Provider, c: Call)
    requires Distinct(p.log)
    requires FreshPull(p.log, c)
    ensures Distinct(Apply(p, c).log)
  {
  }

  /**
   * Over any call sequence whose pulls are fresh, the log stays free of
   * duplicates and the original log remains its oldest part.
   */
  lemma {:induction false} RunKeepsLog(p: Provider, calls: seq<Call>)
    requires Distinct(p.log)
    requires FreshPulls(p, calls)
    ensures Distinct(Run(p, calls).log)
    ensures EndsWith(Run(p, calls).log, p.log)
    decreases |calls|
  {
    if |calls| == 0 {
      assert p.log[|p.log| - |p.log|..] == p.log;
    } else {
      var p' := Apply(p, calls[0]);
      ApplyKeepsDistinct(p, calls[0]);
      RunKeepsLog(p', calls[1..]);
      EndsWithTransitive(Run(p, calls).log, p'.log, p.log);
    }
  }

  /** Disposing twice is disposing once. */
  lemma DisposeIdempotent(p: Provider)
    ensures Dispose(Dispose(p)) == Dispose(p)
    ensures Run(p, [DisposeCall, DisposeCall]) == Run(p, [DisposeCall])
  {
  }

  /** After disposal every call fails with the disposed error and leaves the provider as it is. */
  lemma DisposedFailsFast(p: Provider, oldest: Option<Item>, fetchCount: int, latest: Option<Item>, pull: Pull)
    requires p.disposed
    ensures FetchItems(p, oldest, fetchCount) == Err(Disposed)
    ensures FetchNew(p, latest, pull) == Step(p, Err(Disposed))
    ensures GetNewCount(p, latest, pull) == Step(p, Err(Disposed))
    ensures Dispose(p) == p
  {
  }

  /**
   * The provider as an object: the repository log, the disposed flag and
   * the count of handle closes, with the public operations as methods. Its
   * invariant is that the handle has been closed once if the object is
   * disposed and never otherwise.
   */
  class GitItemProvider {

    var log: seq<Id>
    var disposed: bool
    var closes: nat

    /** A provider over an opened repository whose log is `log`. */
    constructor (log: seq<Id>)
      ensures Valid()
      ensures State() == Provider(log, false, 0)
    {
      this.log := log;
      disposed := false;
      closes := 0;
    }

    function State(): Provider
      reads this
    {
      Provider(log, disposed, closes)
    }

    predicate Valid()
      reads this
    {
      ClosedOnceIfDisposed(State())
    }

    method FetchItems(oldest: Option<Item>, fetchCount: int) returns (r: Result<seq<Id>>)
      ensures r == GitProvider.FetchItems(State(), oldest, fetchCount)
    {
      r := GitProvider.FetchItems(State(), oldest, fetchCount);
    }

    method FetchNew(latest: Option<Item>, pull: Pull) returns (r: Result<seq<Id>>)
      requires Valid()
      modifies this
      ensures Valid()
      ensures var s := GitProvider.FetchNew(old(State()), latest, pull);
              State() == s.provider && r == s.result
    {
      var s := GitProvider.FetchNew(State(), latest, pull);
      log, disposed, closes := s.provider.log, s.provider.disposed, s.provider.closes;
      r := s.result;
    }

    method GetNewCount(latest: Option<Item>, pull: Pull) returns (r: Result<nat>)
      requires Valid()
      modifies this
      ensures Valid()
      ensures var s := GitProvider.GetNewCount(old(State()), latest, pull);
              State() == s.provider && r == s.result
    {
      var s := GitProvider.GetNewCount(State(), latest, pull);
      log, disposed, closes := s.provider.log, s.provider.disposed, s.provider.closes;
      r := s.result;
    }

    method Dispose()
      requires Valid()
      modifies this
      ensures Valid()
      ensures State() == GitProvider.Dispose(old(State()))
    {
      if !disposed {
        closes := closes + 1;
        disposed := true;
      }
    }
  }
}
