/**
 * A worked example: a five-commit log, two pages of it, and the new items
 * after one more commit is pulled.
 */
module Scenario {

  import opened Wrappers
  import opened Commits
  import opened GitProvider
  import Pagination
  import Detection

  /** The example repository, newest commit first. */
  const Example := Provider(["C5", "C4", "C3", "C2", "C1"], false, 0)

  lemma ExampleDistinct()
    ensures Distinct(Example.log)
  {
    var log := Example.log;
    assert log[0][1] == '5' && log[1][1] == '4' && log[2][1] == '3';
    assert log[3][1] == '2' && log[4][1] == '1';
  }

  lemma FirstPageExample()
    ensures FetchItems(Example, None, 3) == Ok(["C5", "C4", "C3"])
  {
    assert Example.log[..3] == ["C5", "C4", "C3"];
  }

  lemma SecondPageExample()
    ensures FetchItems(Example, Some(Item("C3")), 2) == Ok(["C2", "C1"])
  {
    ExampleDistinct();
    Pagination.FetchItemsAfterBoundary(Example, Item("C3"), 2, 2);
    assert Take(Example.log[3..], 2) == ["C2", "C1"];
  }

  lemma NewItemsExample()
    ensures FetchNew(Example, Some(Item("C3")), Pulled(["C6"])).result == Ok(["C6", "C5", "C4"])
    ensures GetNewCount(Example, Some(Item("C3")), Pulled(["C6"])).result == Ok(3)
  {
    ExampleDistinct();
    var log := ["C6"] + Example.log;
    assert "C6"[1] == '6';
    assert Distinct(log);
    Detection.FetchNewReportsNewer(Example, Item("C3"), ["C6"], 3);
    assert log[..3] == ["C6", "C5", "C4"];
  }
}
