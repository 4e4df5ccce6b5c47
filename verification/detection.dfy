/**
 * What new-item detection returns, stated against the log after the pull:
 * the ids before the latest item when it is in the head window, the whole
 * window when it is not.
 */
module Detection {

  import opened Wrappers
  import opened Commits
  import opened GitProvider

  /**
   * When the latest item first occurs at position `k` of the head window,
   * the new items are exactly the `k` ids in front of it.
   */
  lemma FetchNewBeforeLatest(p: Provider, latest: Item, incoming: seq<Id>, k: nat)
    requires !p.disposed
    requires k < NewItemsWindow && k < |incoming + p.log|
    requires (incoming + p.log)[k] == latest.id
    requires latest.id !in (incoming + p.log)[..k]
    ensures FetchNew(p, Some(latest), Pulled(incoming)).result == Ok((incoming + p.log)[..k])
  {
    var log := incoming + p.log;
    var window := Take(log, NewItemsWindow);
    assert window[..k] == log[..k];
    assert window[k] == latest.id;
  }

  /** A latest item at the head of the pulled log means nothing is new. */
  lemma FetchNewAtHead(p: Provider, latest: Item, incoming: seq<Id>)
    requires !p.disposed
    requires 0 < |incoming + p.log| && (incoming + p.log)[0] == latest.id
    ensures FetchNew(p, Some(latest), Pulled(incoming)).result == Ok([])
  {
    FetchNewBeforeLatest(p, latest, incoming, 0);
  }

  /**
   * A latest item missing from the head window makes every id of the
   * window count as new: the result is the whole window, not an empty list.
   * A log that is still empty after the pull has no window at all.
   */
  lemma FetchNewWholeWindow(p: Provider, latest: Item, incoming: seq<Id>)
    requires !p.disposed
    requires latest.id !in Take(incoming + p.log, NewItemsWindow)
    ensures FetchNew(p, Some(latest), Pulled(incoming)).result ==
              if |incoming + p.log| == 0 then Err(NoHead) else Ok(Take(incoming + p.log, NewItemsWindow))
  {
    var window := Take(incoming + p.log, NewItemsWindow);
    assert window[..|window|] == window;
  }

  /**
   * In a duplicate-free log, `fetchNew` reports the ids newer than the
   * latest item, cut to the window size: the newest hundred when more than
   * a hundred arrived.
   */
  lemma {:induction false} FetchNewReportsNewer(p: Provider, latest: Item, incoming: seq<Id>, k: nat)
    requires !p.disposed
    requires Distinct(incoming + p.log)
    requires k < |incoming + p.log| && (incoming + p.log)[k] == latest.id
    ensures FetchNew(p, Some(latest), Pulled(incoming)).result == Ok(Take((incoming + p.log)[..k], NewItemsWindow))
  {
    var log := incoming + p.log;
    assert latest.id !in log[..k] by {
      forall j | 0 <= j < k
        ensures log[..k][j] != latest.id
      {
        assert log[..k][j] == log[j];
        DistinctAt(log, j, k);
      }
    }
    if k < NewItemsWindow {
      FetchNewBeforeLatest(p, latest, incoming, k);
    } else {
      var window := Take(log, NewItemsWindow);
      assert window == log[..k][..NewItemsWindow];
      assert latest.id !in window by {
        forall j | 0 <= j < |window|
          ensures window[j] != latest.id
        {
          assert window[j] == log[j];
          DistinctAt(log, j, k);
        }
      }
      FetchNewWholeWindow(p, latest, incoming);
    }
  }

  /**
   * If the latest item was the head before the pull, the new items are the
   * pulled ids, at most a hundred of them, and `getNewCount` counts them.
   */
  lemma {:induction false} FetchNewAfterHead(p: Provider, latest: Item, incoming: seq<Id>)
    requires !p.disposed
    requires Distinct(incoming + p.log)
    requires 0 < |p.log| && p.log[0] == latest.id
    ensures FetchNew(p, Some(latest), Pulled(incoming)).result == Ok(Take(incoming, NewItemsWindow))
    ensures GetNewCount(p, Some(latest), Pulled(incoming)).result == Ok(Min(|incoming|, NewItemsWindow))
  {
    var log := incoming + p.log;
    assert log[|incoming|] == latest.id;
    assert log[..|incoming|] == incoming;
    FetchNewReportsNewer(p, latest, incoming, |incoming|);
  }
}
