# Git timeline item provider, modelled in Dafny

This project models `GitItemProvider`, the item provider behind the timeline
sample application. The provider turns the commit log of a git repository into
timeline items. It does three things:

- **Backward pagination** (`fetchItems`). Without a boundary item it returns the
  newest `fetchCount` commits. With a boundary it walks `fetchCount + 1` commits
  from the boundary commit, then drops the boundary by filtering on its id.
- **New-item detection** (`fetchNew`, `getNewCount`). It pulls, reads the newest
  100 commits, and returns those before the first occurrence of the latest
  known item. `getNewCount` is the size of that list.
- **Lifecycle**. A `disposed` flag makes every later call fail fast. `dispose`
  closes the repository handle only the first time it is called.

The repository is reduced to its log: a sequence of commit ids, newest first,
in a linear history. A walk "from commit X" is the suffix of the log that starts
at X. A pull is an input to the model. It either prepends the ids it fetched or
fails in transport. An item is reduced to its commit id.

Files:

- `commits.dfy`: `Wrappers.Option`; module `Commits` with the id and item types
  and the sequence operations (`Take` for a walk limited by a maximum count,
  `IndexOf` for `List.indexOf`, `Without` for the id filter).
- `provider.dfy`: module `GitProvider` with the error datatype, the provider
  state and every operation of the class as a pure function.
- `pagination.dfy`, `detection.dfy`: what pagination and detection return,
  stated against the log.
- `lifecycle.dfy`: the provider over arbitrary call sequences, and a thin
  class `GitItemProvider` whose methods delegate to the functions.
- `scenario.dfy`: a worked five-commit example.

Errors are values of `GitProvider.Error`. `Disposed` stands for the
`checkState` failure. `NegativeCount` and `NullItem` stand for the
`checkArgument` failures. `UnknownItem(item)` stands for the missing boundary
commit. `PullFailed` stands for a pull whose transport failed. `NoHead` stands
for a log read from the head of a repository that has no commits yet: JGit's
log command then finds no `HEAD` and throws, and `guarded` rethrows that as an
`IllegalStateException`.

### A latest item outside the window

When the latest item is not among the 100 newest commits, `computeNewCount`
returns `commits.size()` (`GitItemProvider.java:145`), so `fetchNew` returns the
whole window rather than an empty list. The model follows the code
(`Detection.FetchNewWholeWindow`). As a consequence, when more than 100 commits
arrive after the latest item, `fetchNew` reports the newest 100 of them
(`Detection.FetchNewReportsNewer`).

## Model

| member | source | states |
|---|---|---|
| Commits.IndexOf | sample.application/timeline.provider/src/main/java/book/twju/timeline/provider/git/GitItemProvider.java:143 | The index is -1 exactly when the id is absent; otherwise it holds the id and the id does not occur before it (first occurrence). |
| Commits.Without | sample.application/timeline.provider/src/main/java/book/twju/timeline/provider/git/GitItemProvider.java:68 | The filtered list never contains the removed id, is the input unchanged when the id is absent, and is strictly shorter when it is present. |
| Commits.WithoutSubset | sample.application/timeline.provider/src/main/java/book/twju/timeline/provider/git/GitItemProvider.java:68 | The filter only keeps ids of its input. |
| Commits.WithoutKeeps | sample.application/timeline.provider/src/main/java/book/twju/timeline/provider/git/GitItemProvider.java:68 | The filter keeps every id other than the removed one. |
| Commits.WithoutHead | sample.application/timeline.provider/src/main/java/book/twju/timeline/provider/git/GitItemProvider.java:66-68 | On a duplicate-free walk that starts at the boundary, the general filter removes exactly the first element. |
| GitProvider.FetchPredecessors | sample.application/timeline.provider/src/main/java/book/twju/timeline/provider/git/GitItemProvider.java:131-138 | It fails with an unknown-item error naming the item exactly when the boundary id is not in the log. Otherwise it yields the consecutive log ids starting at the boundary's first occurrence, exactly `fetchCount + 1` of them or all that remain when fewer do. |
| GitProvider.ReadHead | sample.application/timeline.provider/src/main/java/book/twju/timeline/provider/git/GitItemProvider.java:128 | The head walk yields the first `fetchCount` ids, or the whole log when it is shorter; it fails with `NoHead` exactly when the log is empty. |
| GitProvider.ReadCommits | sample.application/timeline.provider/src/main/java/book/twju/timeline/provider/git/GitItemProvider.java:124-129 | Without a boundary it yields the first `fetchCount` ids, or the whole log when it is shorter, and fails with `NoHead` exactly when the log is empty. With a boundary it fails with the unknown-item error exactly when the boundary is absent, and otherwise yields the log stretch from the boundary's first occurrence, `fetchCount + 1` long or up to the end of the log. |
| GitProvider.FetchItems | sample.application/timeline.provider/src/main/java/book/twju/timeline/provider/git/GitItemProvider.java:61-71 | Disposed comes before the negative-count check. Without a boundary the page is the first `fetchCount` ids of the log, or all of it when it is shorter; an empty log gives `NoHead`. An unknown boundary gives `UnknownItem(boundary)`, and only then is that error returned. A page is never longer than `fetchCount` and never contains the boundary. |
| GitProvider.FindLimiter | sample.application/timeline.provider/src/main/java/book/twju/timeline/provider/git/GitItemProvider.java:148-153 | A limiter is found exactly when the latest id occurs in the window, and it is that id. |
| GitProvider.ComputeNewCount | sample.application/timeline.provider/src/main/java/book/twju/timeline/provider/git/GitItemProvider.java:140-146 | The count is at most the window size. The latest id does not occur before it. Unless the count is the whole window, the latest id sits at that position. |
| GitProvider.FetchNew | sample.application/timeline.provider/src/main/java/book/twju/timeline/provider/git/GitItemProvider.java:78-90 | Disposed comes before the null check, and both come before the pull. A log still empty after the pull gives `NoHead`, and success happens exactly otherwise. A failed call changes nothing. A successful one prepends the pulled ids. Its result is a prefix of the pulled log, at most 100 long, and never contains the latest id. |
| GitProvider.GetNewCount | sample.application/timeline.provider/src/main/java/book/twju/timeline/provider/git/GitItemProvider.java:73-76 | Same state change, same errors and same success as `FetchNew`; the count is the length of the `FetchNew` list and at most 100. |
| GitProvider.Dispose | sample.application/timeline.provider/src/main/java/book/twju/timeline/provider/git/GitItemProvider.java:92-97 | Afterwards the provider is disposed with its log intact. A second dispose is a no-op, and a first one closes the handle once more. |
| Pagination.FetchItemsAfterBoundary | sample.application/timeline.provider/src/main/java/book/twju/timeline/provider/git/GitItemProvider.java:66-70 | With the boundary at position `i` of a duplicate-free log, the page is exactly the next `fetchCount` ids after `i`, in log order. |
| Pagination.PageIdsFromLog | sample.application/timeline.provider/src/main/java/book/twju/timeline/provider/git/GitItemProvider.java:66-70 | Every id on a page is an id of the log. |
| Pagination.WalkWithoutBoundary | sample.application/timeline.provider/src/main/java/book/twju/timeline/provider/git/GitItemProvider.java:68 | Filtering the boundary id out of a duplicate-free walk that starts at the boundary leaves the walk after it, in order. |
| Pagination.ConsecutivePages | sample.application/timeline.provider/src/main/java/book/twju/timeline/provider/git/GitItemProvider.java:61-71 | A first page and the page after its last id share no id, and together they form a prefix of the log. |
| Detection.FetchNewBeforeLatest | sample.application/timeline.provider/src/main/java/book/twju/timeline/provider/git/GitItemProvider.java:84-89 | When the latest id first occurs at position `k` of the 100-commit window, the new items are exactly the `k` ids before it. |
| Detection.FetchNewAtHead | sample.application/timeline.provider/src/main/java/book/twju/timeline/provider/git/GitItemProvider.java:84-89 | A latest item at the head of the pulled log gives an empty result. |
| Detection.FetchNewWholeWindow | sample.application/timeline.provider/src/main/java/book/twju/timeline/provider/git/GitItemProvider.java:140-146 | A latest id missing from the window gives the whole window, not an empty list (or `NoHead` when the log is empty). |
| Detection.FetchNewReportsNewer | sample.application/timeline.provider/src/main/java/book/twju/timeline/provider/git/GitItemProvider.java:83-89 | In a duplicate-free pulled log, the result is the ids newer than the latest item, cut to the newest 100. |
| Detection.FetchNewAfterHead | sample.application/timeline.provider/src/main/java/book/twju/timeline/provider/git/GitItemProvider.java:73-90 | If the latest item was the head before a fresh pull, `fetchNew` returns the pulled ids (at most 100) and `getNewCount` returns their number. |
| Lifecycle.Apply | sample.application/timeline.provider/src/main/java/book/twju/timeline/provider/git/GitItemProvider.java:61-97 | After a call, a disposed provider is unchanged. The provider is disposed iff it was or the call disposes. The handle closes only when a live provider is disposed. The old log stays the oldest part of the log. |
| Lifecycle.RunKeepsLifecycle | sample.application/timeline.provider/src/main/java/book/twju/timeline/provider/git/GitItemProvider.java:92-97 | Over any call sequence, the handle is closed once if the provider is disposed and never otherwise. Disposal holds iff some call disposed, and `disposed` never returns to false. |
| Lifecycle.RunKeepsLog | sample.application/timeline.provider/src/main/java/book/twju/timeline/provider/git/GitItemProvider.java:83 | Over any call sequence with fresh pulls, the log stays duplicate-free and only grows at its newest end. |
| Lifecycle.DisposeIdempotent | sample.application/timeline.provider/src/main/java/book/twju/timeline/provider/git/GitItemProvider.java:92-97 | Disposing twice equals disposing once. |
| Lifecycle.DisposedFailsFast | sample.application/timeline.provider/src/main/java/book/twju/timeline/provider/git/GitItemProvider.java:62-81 | After disposal, `fetchItems`, `fetchNew` and `getNewCount` fail with the disposed error whatever their arguments, and the state does not change. |
| Lifecycle.GitItemProvider.constructor | sample.application/timeline.provider/src/main/java/book/twju/timeline/provider/git/GitItemProvider.java:48-59 | A new provider is live, has never closed its handle, and holds the opened repository's log; it satisfies the invariant `Valid`. |
| Lifecycle.GitItemProvider.FetchItems | sample.application/timeline.provider/src/main/java/book/twju/timeline/provider/git/GitItemProvider.java:61-71 | Returns what `GitProvider.FetchItems` returns for the object's state and leaves the state alone. |
| Lifecycle.GitItemProvider.FetchNew | sample.application/timeline.provider/src/main/java/book/twju/timeline/provider/git/GitItemProvider.java:78-90 | Moves the object to the state `GitProvider.FetchNew` gives and returns its result, keeping `Valid`. |
| Lifecycle.GitItemProvider.GetNewCount | sample.application/timeline.provider/src/main/java/book/twju/timeline/provider/git/GitItemProvider.java:73-76 | Moves the object to the state `GitProvider.GetNewCount` gives and returns its count, keeping `Valid`. |
| Lifecycle.GitItemProvider.Dispose | sample.application/timeline.provider/src/main/java/book/twju/timeline/provider/git/GitItemProvider.java:92-97 | Sets `disposed` and closes the handle only when the object was live, keeping `Valid`: closed once if disposed, never otherwise. |
| Scenario.FirstPageExample | sample.application/timeline.provider/src/main/java/book/twju/timeline/provider/git/GitItemProvider.java:124-129 | On the log C5..C1, the first page of three is C5, C4, C3. |
| Scenario.SecondPageExample | sample.application/timeline.provider/src/main/java/book/twju/timeline/provider/git/GitItemProvider.java:131-133 | The page of two after C3 is C2, C1. |
| Scenario.NewItemsExample | sample.application/timeline.provider/src/main/java/book/twju/timeline/provider/git/GitItemProvider.java:78-90 | After a pull adds C6, the items newer than C3 are C6, C5, C4, and the new count is 3. |

## Left out

- Construction (lines 48-59, 99-122): cloning when the directory is absent, opening the repository, and the null and "must be a directory" checks. This is file-system and network I/O. The class constructor takes the opened repository's log.
- JGit: the log walk, `pull` and `close`. They are foreign library code. The walk is a suffix of a linear log, a pull is an input, and a close is counted in `closes`.
- Merge history and topological ordering: only linear history is modelled.
- `guarded` and `Exceptions.guard`: this exception wrapping is not part of this model. The wrapped failures the model has are `NoHead`, `UnknownItem` and `PullFailed`; the others are left out, as the next two lines say.
- FetchItems: does not model I/O failures of the log walk (a corrupt or unreadable object database) other than a missing `HEAD` and a missing boundary commit, because they come from JGit's storage layer, which is outside this model.
- FetchNew: does not model I/O failures of the head log read at line 84 other than a missing `HEAD`, for the same reason.
- `GitItem.ofCommit`: it is not part of this model. An item is reduced to its commit id. Author, message and time are not modelled.
- `ObjectId.fromString`: it parses ids as 40-digit hex names. A malformed id would throw, but ids are compared here as plain strings.
- FetchItems: does not model Java's 32-bit `int`. `fetchCount + 1` overflows when `fetchCount` is `Integer.MAX_VALUE`. What follows then depends on how JGit treats a negative maximum count, and JGit is outside this model.
- Concurrency: the source does no locking, and the model assumes calls run one at a time.
- The Swing classes `Header` and `TopItemScroller`, and the UI test `ItemViewerCompoundTest`: they are display code with no provider logic.
