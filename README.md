# Explorer++ tab navigation: history list and navigation lifecycle

This project models two pieces of the way an Explorer++ tab moves between folders, and proves
properties of each.

**The back/forward history (`NavigationController<HistoryEntryType>`).** This is a list of
history entries plus a cursor. The cursor is -1 exactly when the list is empty.
- Adding an entry discards every entry forward of the cursor and appends the new one.
- Replacing the current entry overwrites one slot. On an empty list it adds instead.
- Going back, forward or to an offset never moves the cursor. It only names the entry that the
  owner's `Navigate` hook should load. The owner later moves the cursor with `AddEntry`,
  `ReplaceCurrentEntry` or `SetCurrentIndex`.

The model (module `NavigationHistory`) is a class whose `entries: seq<E>` and `current: int`
fields are updated in place. Back and forward histories are built by loops, as in the source.
The methods are proved against value-level definitions (`EntryAt`, `BackOf`, `ForwardOf`), and
lemmas relate those definitions. For example, `OffsetsMatchHistories` shows that going `k` steps
back reaches the k-th entry of the back menu.

**The navigation manager's lifecycle.** This is specified by its test suite.
- A navigation is started synchronously. It is then pending and active, and `Started` is
  published.
- Its enumeration finishes later, in one completion step. That step publishes `WillCommit` and
  `Committed`, or `Failed`, or `Cancelled`, while the navigation is still pending. The step
  then removes the navigation from the pending list.
- The first navigation of a manager always commits, whether its enumeration failed or it was
  stopped.
- A commit makes every other non-initial pending navigation inactive. That navigation stays
  pending until its own completion step, which then publishes `Cancelled`.
- `StopLoading` makes every navigation but the initial one inactive.
- A manager that has been destroyed publishes nothing more.

The model (module `NavigationManagement`) is a class holding these fields:
- the pending list of `PendingNavigation(request, active)`;
- the event log;
- the number of navigations started;
- a liveness flag;
- ghost bookkeeping: the number finished, and for each event, the pending requests and the
  latest pending navigation at the moment it was delivered.

Its invariant `Valid` says the following:
- the pending list is in start order;
- only navigation 0 is initial, and it is never inactive;
- each started navigation's events in the log form one of four lifecycles;
- a navigation's events are just `[Started]` exactly when it is still pending;
- every event was delivered while its navigation was pending. A navigation is registered
  before its Started event and removed only after its outcome event.

The module `NavigationManagerTest` replays each test case as a client of the class. Each
scenario's `ensures` states the event sequence, or the pending and active lists, that the test
expects.

The executors' completion step is the method `Complete(k, succeeded)`. The enumeration's
outcome is the boolean `succeeded`, an input to that step.

## Model

| member | source | states |
|---|---|---|
| NavigationHistory.NavigationController.constructor | Explorer++/Explorer++/NavigationController.h:15-17 | a new history is empty with cursor -1, and satisfies the invariant |
| NavigationHistory.NavigationController.FromEntries | Explorer++/Explorer++/NavigationController.h:19-30 | needs a non-empty list; keeps the entries; the cursor is `currentEntry` clamped into [0, n-1], each of the three cases stated |
| NavigationHistory.ClampIndex | Explorer++/Explorer++/NavigationController.h:29 | the result lies in [0, n-1]; it is the value itself when in range, 0 below and n-1 above |
| NavigationHistory.EntryAt | Explorer++/Explorer++/NavigationController.h:61-69 | there is an entry exactly when 0 <= index < n, and then it is `entries[index]` |
| NavigationHistory.NavigationController.GetEntryAtIndex | Explorer++/Explorer++/NavigationController.h:61-69 | no entry exactly when the index is outside [0, n); otherwise the entry at that index |
| NavigationHistory.NavigationController.GetEntry | Explorer++/Explorer++/NavigationController.h:49-59 | no entry exactly when cursor+offset is outside [0, n); otherwise the entry at cursor+offset |
| NavigationHistory.NavigationController.GetCurrentEntry | Explorer++/Explorer++/NavigationController.h:39-42 | no entry exactly when the history is empty; otherwise the entry under the cursor |
| NavigationHistory.NavigationController.CanGoBack | Explorer++/Explorer++/NavigationController.h:84-92 | true iff the cursor is above 0, which on a valid history is iff an entry exists at offset -1 |
| NavigationHistory.NavigationController.CanGoForward | Explorer++/Explorer++/NavigationController.h:94-102 | true iff the cursor is not -1 and below n-1, which on a valid history is iff an entry exists at offset +1 |
| NavigationHistory.NavigationController.GetBackHistory | Explorer++/Explorer++/NavigationController.h:104-119 | the loop returns entries cur-1 down to 0, of length max(cur, 0), equal to `BackOf`; it is non-empty iff CanGoBack |
| NavigationHistory.NavigationController.GetForwardHistory | Explorer++/Explorer++/NavigationController.h:121-136 | the loop returns entries cur+1..n-1 in order, of length n-cur-1 (0 when empty), equal to `ForwardOf`; it is non-empty iff CanGoForward |
| NavigationHistory.NavigationController.GetIndexOfEntry | Explorer++/Explorer++/NavigationController.h:71-82 | none exactly when the entry is absent; otherwise the first index holding it |
| NavigationHistory.NavigationController.GoToOffset | Explorer++/Explorer++/NavigationController.h:148-158 | the entry handed to `Navigate` is present exactly when GetEntry(offset) is, and it is that entry; the history is not modified |
| NavigationHistory.NavigationController.GoBack | Explorer++/Explorer++/NavigationController.h:138-141 | navigates exactly when CanGoBack, to the entry before the cursor |
| NavigationHistory.NavigationController.GoForward | Explorer++/Explorer++/NavigationController.h:143-146 | navigates exactly when CanGoForward, to the entry after the cursor |
| NavigationHistory.NavigationController.AddEntry | Explorer++/Explorer++/NavigationController.h:163-172 | entries 0..cur are kept, the forward entries dropped and the new entry appended; the cursor becomes old cur + 1, the last index, and is returned; the invariant is kept |
| NavigationHistory.NavigationController.ReplaceCurrentEntry | Explorer++/Explorer++/NavigationController.h:174-187 | on an empty history, the same as AddEntry; otherwise only slot cur is overwritten and the cursor is unchanged; returns the cursor |
| NavigationHistory.NavigationController.SetCurrentIndex | Explorer++/Explorer++/NavigationController.h:189-194 | needs 0 <= index < n; sets the cursor to index; its frame leaves the entries untouched |
| NavigationHistory.BackOfAt | Explorer++/Explorer++/NavigationController.h:113-116 | the back history has max(cur, 0) entries, the k-th being entry cur-1-k |
| NavigationHistory.BackOfPrefix | Explorer++/Explorer++/NavigationController.h:104-119 | the back history depends only on the entries before the cursor |
| NavigationHistory.OffsetsMatchHistories | Explorer++/Explorer++/NavigationController.h:49-59 | k steps back (forward) reach the k-th entry of the back (forward) history, and there is no entry beyond either end |
| NavigationHistory.AddEntryHistories | Explorer++/Explorer++/NavigationController.h:163-172 | after adding, the old current entry heads the back history, which otherwise is unchanged, and the forward history is empty |
| NavigationHistory.ReplaceKeepsHistories | Explorer++/Explorer++/NavigationController.h:184 | replacing the current entry changes neither the back nor the forward history |
| NavigationHistory.DiscardForwardHistory | Explorer++/Explorer++/NavigationController.h:165-169 | after add, add, back (landing on the first entry) and add, the history is [e1, e3] with cursor 1: the forward entry was discarded |
| NavigationManagement.NavigationManager.constructor | Explorer++/TestExplorer++/NavigationManagerTest.cpp:319-324 | a new manager has no pending navigations and no events, and satisfies the invariant |
| NavigationManagement.NavigationManager.StartNavigation | Explorer++/TestExplorer++/NavigationManagerTest.cpp:229-233 | the new navigation gets the next number, is initial iff it is the first, and joins the end of the pending and active lists; Started is published synchronously, with it already pending and the latest pending navigation |
| NavigationManagement.NavigationManager.StopLoading | Explorer++/TestExplorer++/NavigationManagerTest.cpp:439-458 | every navigation stays pending; only the initial navigation can remain active |
| NavigationManagement.NavigationManager.PublishOutcome | Explorer++/TestExplorer++/NavigationManagerTest.cpp:104-193 | appends exactly the outcome events of the finished navigation, each delivered while the pending list is the unchanged one |
| NavigationManagement.NavigationManager.Complete | Explorer++/TestExplorer++/NavigationManagerTest.cpp:195-219 | on a live manager, publishes the outcome, then removes the navigation and, on a commit, stops every other one; each outcome event is delivered while the pending list is still the old one, which holds the finished navigation; the invariant (including DeliveredWhilePending) is kept; a destroyed manager changes nothing |
| NavigationManagement.NavigationManager.Destroy | Explorer++/TestExplorer++/NavigationManagerTest.cpp:233-239 | the manager is dead and every later completion is a no-op (see Complete) |
| NavigationManagement.NavigationManager.GetPendingNavigations | Explorer++/TestExplorer++/NavigationManagerTest.cpp:319-366 | the pending requests in start order; their number is the number started minus the number finished |
| NavigationManagement.NavigationManager.GetActiveNavigations | Explorer++/TestExplorer++/NavigationManagerTest.cpp:368-437 | a pending request is listed iff it is active; every listed request is pending; the list is in start order |
| NavigationManagement.NavigationManager.GetNumPendingNavigations | Explorer++/TestExplorer++/NavigationManagerTest.cpp:323 | equals the length of the pending list |
| NavigationManagement.NavigationManager.GetNumActiveNavigations | Explorer++/TestExplorer++/NavigationManagerTest.cpp:372 | the number of active flags equals the length of the active list |
| NavigationManagement.NavigationManager.HasAnyPendingNavigations | Explorer++/TestExplorer++/NavigationManagerTest.cpp:324 | true iff the pending list is non-empty |
| NavigationManagement.NavigationManager.HasAnyActiveNavigations | Explorer++/TestExplorer++/NavigationManagerTest.cpp:373 | true iff the active list is non-empty |
| NavigationManagement.NavigationManager.MaybeGetLatestPendingNavigation | Explorer++/TestExplorer++/NavigationManagerTest.cpp:322 | none iff nothing is pending; otherwise the most recently started pending request |
| NavigationManagement.NavigationManager.MaybeGetLatestActiveNavigation | Explorer++/TestExplorer++/NavigationManagerTest.cpp:371 | none iff the active list is empty; otherwise an active request whose number is the largest among the active ones |
| NavigationManagement.Latest | Explorer++/TestExplorer++/NavigationManagerTest.cpp:331-333 | none iff the list is empty; otherwise its last element |
| NavigationManagement.Stop | Explorer++/TestExplorer++/NavigationManagerTest.cpp:439-446 | stopping keeps the request; the result is active iff the navigation is initial and was active |
| NavigationManagement.Resolution | Explorer++/TestExplorer++/NavigationManagerTest.cpp:88-193 | all events are about the finished navigation: WillCommit, Committed when it is initial or active and successful; Failed when active, unsuccessful and not initial; Cancelled when inactive and not initial |
| NavigationManagement.WellFormedPrefixIff | Explorer++/TestExplorer++/NavigationManagerTest.cpp:319-366 | the recursive newest-first form of the pending-list invariant is equivalent to the pairwise start-order statement |
| NavigationManagement.PendingWellFormedIff | Explorer++/TestExplorer++/NavigationManagerTest.cpp:319-366 | the invariant kept in `Valid` is exactly `StartOrdered` |
| NavigationManagement.ActivePrefixMembers | Explorer++/TestExplorer++/NavigationManagerTest.cpp:368-437 | the active prefix holds exactly the active requests among the first n, and is empty iff none of them is active |
| NavigationManagement.ActiveRequestsMembers | Explorer++/TestExplorer++/NavigationManagerTest.cpp:368-437 | a request is in the active list iff it is pending with its active flag set; the list is empty iff no flag is set |
| NavigationManagement.ActivePrefixExtend | Explorer++/TestExplorer++/NavigationManagerTest.cpp:406-416 | appending navigations leaves the active list of the existing prefix unchanged |
| NavigationManagement.ActiveRequestsAppend | Explorer++/TestExplorer++/NavigationManagerTest.cpp:406-416 | a navigation appended to the pending list joins the end of the active list iff it is active |
| NavigationManagement.ActiveRequestsSingle | Explorer++/TestExplorer++/NavigationManagerTest.cpp:418-428 | a lone pending navigation is the whole active list iff it is active |
| NavigationManagement.ActivePrefixInStartOrder | Explorer++/TestExplorer++/NavigationManagerTest.cpp:389-390 | every active prefix of a start-ordered pending list is in start order |
| NavigationManagement.ActivePrefixBelow | Explorer++/TestExplorer++/NavigationManagerTest.cpp:389-390 | when the first n pending navigations are all numbered below a bound, so is every request of their active list |
| NavigationManagement.ActiveInStartOrder | Explorer++/TestExplorer++/NavigationManagerTest.cpp:389-390 | the active list is in start order |
| NavigationManagement.CountActiveIsLength | Explorer++/TestExplorer++/NavigationManagerTest.cpp:383 | the count of active flags equals the length of the active list |
| NavigationManagement.StopAllKeepsRequests | Explorer++/TestExplorer++/NavigationManagerTest.cpp:439-458 | stopping all navigations keeps the pending list's requests, and only initial requests stay active |
| NavigationManagement.PendingAfterCompletionAt | Explorer++/TestExplorer++/NavigationManagerTest.cpp:348-357 | completion shortens the pending list by one and keeps the others in order; no navigation becomes active |
| NavigationManagement.PendingAfterCompletionIds | Explorer++/TestExplorer++/NavigationManagerTest.cpp:348-365 | after completion, a navigation is pending iff it was pending before and is not the finished one |
| NavigationManagement.PendingAfterCompletionWellFormed | Explorer++/TestExplorer++/NavigationManagerTest.cpp:348-365 | completion keeps the pending list start-ordered |
| NavigationManagement.SupersededAreCancelled | Explorer++/TestExplorer++/NavigationManagerTest.cpp:216-218 | after a commit, any other non-initial pending navigation is inactive and publishes Cancelled when it finishes, whatever its enumeration did |
| NavigationManagement.CommitEmptiesActive | Explorer++/TestExplorer++/NavigationManagerTest.cpp:397-404 | after a commit only the initial navigation can remain active; when the oldest navigation commits, the active list is empty |
| NavigationManagement.KindsForAppend | Explorer++/TestExplorer++/NavigationManagerTest.cpp:150-160 | a navigation's events in a concatenated log are its events in each part, in order |
| NavigationManagement.KindsForResolution | Explorer++/TestExplorer++/NavigationManagerTest.cpp:88-193 | an outcome adds events only about the finished navigation, and these are the commit, fail or cancel kinds |
| NavigationManagement.StartKeepsConsistent | Explorer++/TestExplorer++/NavigationManagerTest.cpp:229-233 | starting a navigation keeps the pending list and the log consistent |
| NavigationManagement.StopAllKeepsConsistent | Explorer++/TestExplorer++/NavigationManagerTest.cpp:190-192 | stopping keeps the pending list and the log consistent |
| NavigationManagement.StartDeliveredWhilePending | Explorer++/TestExplorer++/NavigationManagerTest.cpp:473-476 | publishing Started for the newest pending navigation keeps every event delivered while its navigation is pending |
| NavigationManagement.OutcomeDeliveredWhilePending | Explorer++/TestExplorer++/NavigationManagerTest.cpp:473-477 | publishing the outcome of a navigation before removing it keeps every event delivered while its navigation is pending |
| NavigationManagement.CompleteKeepsConsistent | Explorer++/TestExplorer++/NavigationManagerTest.cpp:195-219 | a completion step gives the finished navigation exactly one outcome and keeps the log and the pending list consistent |
| NavigationManagerTest.PendingView | Explorer++/TestExplorer++/NavigationManagerTest.cpp:321-324 | the four pending-list queries together agree with the pending requests |
| NavigationManagerTest.ActiveView | Explorer++/TestExplorer++/NavigationManagerTest.cpp:370-373 | the four active-list queries together agree with the active requests |
| NavigationManagerTest.SuccessfulNavigation | Explorer++/TestExplorer++/NavigationManagerTest.cpp:88-102 | the log is Started, WillCommit, Committed |
| NavigationManagerTest.FailedInitialNavigation | Explorer++/TestExplorer++/NavigationManagerTest.cpp:104-121 | a failed first navigation still logs Started, WillCommit, Committed |
| NavigationManagerTest.CancelledInitialNavigation | Explorer++/TestExplorer++/NavigationManagerTest.cpp:123-140 | a stopped first navigation still logs Started, WillCommit, Committed |
| NavigationManagerTest.FailedSubsequentNavigation | Explorer++/TestExplorer++/NavigationManagerTest.cpp:142-166 | the second navigation fails: the log ends Started, Failed for it |
| NavigationManagerTest.CancelledSubsequentNavigation | Explorer++/TestExplorer++/NavigationManagerTest.cpp:168-193 | the second navigation is stopped: the log ends Started, Cancelled for it |
| NavigationManagerTest.CommitWithPendingNavigation | Explorer++/TestExplorer++/NavigationManagerTest.cpp:195-219 | Started 1, Started 2, WillCommit 1, Committed 1, Cancelled 2 |
| NavigationManagerTest.ManagerDestroyedWithPendingNavigation | Explorer++/TestExplorer++/NavigationManagerTest.cpp:221-240 | only Started is logged, although the completion runs after destruction |
| NavigationManagerTest.PendingNavigations | Explorer++/TestExplorer++/NavigationManagerTest.cpp:319-366 | the pending views after each step are [], [r1], [r1, r2], [r2], [] |
| NavigationManagerTest.ActiveNavigations | Explorer++/TestExplorer++/NavigationManagerTest.cpp:368-437 | the active views after each step are [], [r1], [r1, r2], [], [r3], [r3], [] |
| NavigationManagerTest.ActiveNavigationsBeforeCommit | Explorer++/TestExplorer++/NavigationManagerTest.cpp:370-395 | the first three active views, and both navigations pending and active |
| NavigationManagerTest.ActiveNavigationsAfterCommit | Explorer++/TestExplorer++/NavigationManagerTest.cpp:406-436 | from the superseded navigation alone, the last three active views are [r3], [r3], [] |
| NavigationManagerTest.InitialNavigationActiveWhenStopped | Explorer++/TestExplorer++/NavigationManagerTest.cpp:439-458 | after StopLoading the active view is [r] |
| NavigationManagerTest.LatestNavigationFixture | Explorer++/TestExplorer++/NavigationManagerTest.cpp:463-471 | the committed initial navigation leaves nothing pending, with its three events logged |
| NavigationManagerTest.LatestNavigationLifetimeSuccessful | Explorer++/TestExplorer++/NavigationManagerTest.cpp:513-526 | the second navigation logs Started, WillCommit, Committed, and is the latest pending navigation at each of them |
| NavigationManagerTest.LatestNavigationLifetimeFailed | Explorer++/TestExplorer++/NavigationManagerTest.cpp:528-542 | the second navigation logs Started, Failed, and is the latest pending navigation at each of them |
| NavigationManagerTest.LatestNavigationLifetimeCancelled | Explorer++/TestExplorer++/NavigationManagerTest.cpp:544-559 | the second navigation logs Started, Cancelled, and is the latest pending navigation at each of them |

## Left out

- The `NavigationManager` implementation (`NavigationManager.h`/`.cpp`) is not part of this
  model. The manager is modelled from the behaviour that `NavigationManagerTest.cpp` pins down.
- Executors, background enumeration, the foreground continuation's thread affinity and the
  `CheckThread` test (`NavigationManagerTest.cpp:242-317`) are concurrency plumbing. A completion
  is one atomic step, `Complete`.
- The shell enumerator and shell item identifiers are Windows shell calls. The enumeration
  outcome is the boolean input of `Complete`. A location is an opaque `seq<char>`.
- `NavigateParams` options other than the target are not modelled. Neither is the state that
  a commit installs (the current folder and its items). Only the events show a commit.
- Event scopes (global or per owner) and observer registration are not modelled. Every event is
  appended to one log, which every observer sees.
- `TabEvents.cpp`, `EventSwitcher.cpp`, `ShellBrowser.cpp`, `WindowStorage.h`,
  `DefaultColumnXmlStorageTest.cpp` and the tab-event tests are not part of this model. They
  are signal forwarding, Win32 UI dispatch, or storage whose implementation is not shown.
- `GetCurrentIndex` and `GetNumHistoryEntries` are direct reads of the `current` field and of
  the length of `entries`, so they carry no contract of their own.
- The history's `Navigate` hook is the owner's code. `GoToOffset`, `GoBack` and `GoForward`
  return the entry they would hand to it.
- `std::unique_ptr` ownership is not modelled. Entries are values of an equality type, and
  `GetIndexOfEntry` compares them with `==` rather than by pointer identity.
- NavigationHistory.NavigationController.GetEntry: does not model `int` overflow of
  `m_currentEntry + offset`, because indices are unbounded integers here.
- `DCHECK`/`CHECK` are preconditions: `FromEntries` requires a non-empty list and
  `SetCurrentIndex` a valid index. `ReplaceCurrentEntry` on an empty history follows the
  release-build path, which adds the entry.

## Notes

- The tests show that a commit makes every other non-initial pending navigation inactive,
  including one started after the committing navigation (`NavigationManagerTest.cpp:195-219`).
  This model follows the tests, not the narrower reading that only older navigations are
  superseded.
- The initial navigation is never made inactive, by a commit or by `StopLoading`, and always
  commits. So in this model an initial navigation that finishes after a newer navigation has
  committed still commits, after it. No test covers that order, because the test executors
  finish navigations oldest first.
- The first navigation commits even when its enumeration failed
  (`NavigationManagerTest.cpp:104-121`). So it never publishes `Failed` or `Cancelled`.
- `Complete(k, succeeded)` may finish any pending navigation, not only the oldest. The test
  executors run completions oldest first, which is `k == 0`.
