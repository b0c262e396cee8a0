/**
 * The navigation manager of a shell browser tab, as its tests pin it down: navigations
 * are started synchronously, their enumeration finishes later (one completion step per
 * navigation), and each then commits, fails or is cancelled. The first navigation always
 * commits; a commit stops every other pending navigation, which stays pending (but no
 * longer active) until its own completion step resolves it as cancelled.
 */
module NavigationManagement {
  import opened Options

  /** The location a navigation goes to (an opaque item identity). */
  type Location = seq<char>

  /** A navigation: its start-order number, its target and whether it was the manager's first. */
  datatype NavigationRequest = NavigationRequest(id: nat, target: Location, isInitial: bool)

  datatype EventKind = Started | WillCommit | Committed | Failed | Cancelled

  /** One published notification: its kind and the navigation it is about. */
  datatype NavigationEvent = NavigationEvent(kind: EventKind, request: NavigationRequest)

  /** A navigation that has not finished; `active` says whether it may still commit. */
  datatype PendingNavigation = PendingNavigation(request: NavigationRequest, active: bool)

  // ----- the pending list -----

  function Requests(ps: seq<PendingNavigation>): seq<NavigationRequest> {
    seq(|ps|, i requires 0 <= i < |ps| => ps[i].request)
  }

  /** The navigations among the first `n` pending ones that may still commit, in start order. */
  function ActivePrefix(ps: seq<PendingNavigation>, n: nat): seq<NavigationRequest>
    requires n <= |ps|
  {
    if n == 0 then [] else ActivePrefix(ps, n - 1) + (if ps[n - 1].active then [ps[n - 1].request] else [])
  }

  /** The navigations that may still commit, in start order. */
  function ActiveRequests(ps: seq<PendingNavigation>): seq<NavigationRequest> {
    ActivePrefix(ps, |ps|)
  }

  /** The number of navigations among the first `n` pending ones whose active flag is set. */
  function CountActive(ps: seq<PendingNavigation>, n: nat): nat
    requires n <= |ps|
  {
    if n == 0 then 0 else CountActive(ps, n - 1) + (if ps[n - 1].active then 1 else 0)
  }

  function Latest(rs: seq<NavigationRequest>): (r: Option<NavigationRequest>)
    ensures r.None? <==> rs == []
    ensures r.Some? ==> r.value == rs[|rs| - 1]
  {
    if rs == [] then None else Some(rs[|rs| - 1])
  }

  ghost predicate IsPending(ps: seq<PendingNavigation>, id: nat) {
    exists i :: 0 <= i < |ps| && ps[i].request.id == id
  }

  ghost predicate InStartOrder(rs: seq<NavigationRequest>) {
    forall i, j :: 0 <= i < j < |rs| ==> rs[i].id < rs[j].id
  }

  /**
   * What the manager keeps of its pending list: every request was started (its id is below
   * the number started), ids grow in start order, only the first request is initial, and
   * the initial request is never inactive.
   */
  ghost predicate StartOrdered(ps: seq<PendingNavigation>, started: nat) {
    && (forall i, j :: 0 <= i < j < |ps| ==> ps[i].request.id < ps[j].request.id)
    && forall i :: 0 <= i < |ps| ==>
         && ps[i].request.id < started
         && (ps[i].request.isInitial <==> ps[i].request.id == 0)
         && (ps[i].request.isInitial ==> ps[i].active)
  }

  /**
   * The same condition stated from the newest navigation back: it was started, and every
   * older one was started before it. This recursive form is the one `Valid` keeps because
   * the solver handles it more cheaply than the pairwise quantifiers of StartOrdered;
   * PendingWellFormedIff converts between the two.
   */
  ghost predicate PendingWellFormed(ps: seq<PendingNavigation>, started: nat) {
    WellFormedPrefix(ps, |ps|, started)
  }

  /** PendingWellFormed for the first `n` pending navigations. */
  ghost predicate WellFormedPrefix(ps: seq<PendingNavigation>, n: nat, started: nat)
    requires n <= |ps|
  {
    || n == 0
    || var last := ps[n - 1];
       && last.request.id < started
       && (last.request.isInitial <==> last.request.id == 0)
       && (last.request.isInitial ==> last.active)
       && WellFormedPrefix(ps, n - 1, last.request.id)
  }

  lemma {:induction false} WellFormedPrefixIff(ps: seq<PendingNavigation>, n: nat, started: nat)
    requires n <= |ps|
    ensures WellFormedPrefix(ps, n, started) <==>
      && (forall i, j :: 0 <= i < j < n ==> ps[i].request.id < ps[j].request.id)
      && forall i :: 0 <= i < n ==>
           && ps[i].request.id < started
           && (ps[i].request.isInitial <==> ps[i].request.id == 0)
           && (ps[i].request.isInitial ==> ps[i].active)
  {
    if n != 0 {
      WellFormedPrefixIff(ps, n - 1, ps[n - 1].request.id);
    }
  }

  lemma PendingWellFormedIff(ps: seq<PendingNavigation>, started: nat)
    ensures PendingWellFormed(ps, started) <==> StartOrdered(ps, started)
  {
    WellFormedPrefixIff(ps, |ps|, started);
  }

  /** Stopping a navigation makes it inactive, except the initial one, which must still commit. */
  function Stop(p: PendingNavigation): (r: PendingNavigation)
    ensures r.request == p.request
    ensures r.active <==> p.request.isInitial && p.active
  {
    if p.request.isInitial then p else p.(active := false)
  }

  function StopAll(ps: seq<PendingNavigation>): seq<PendingNavigation> {
    seq(|ps|, i requires 0 <= i < |ps| => Stop(ps[i]))
  }

  /** The pending list without its k-th navigation, the others in their order. */
  function Without(ps: seq<PendingNavigation>, k: nat): seq<PendingNavigation>
    requires k < |ps|
  {
    seq(|ps| - 1, i requires 0 <= i < |ps| - 1 => if i < k then ps[i] else ps[i + 1])
  }

  /** `n` copies of `x`. */
  function Repeat<T>(x: T, n: nat): (r: seq<T>)
    ensures |r| == n
    ensures forall i :: 0 <= i < n ==> r[i] == x
  {
    if n == 0 then [] else Repeat(x, n - 1) + [x]
  }

  // ----- resolving a navigation -----

  /** Whether a finished navigation commits: the initial one always does, others when active and successful. */
  predicate Commits(p: PendingNavigation, succeeded: bool) {
    p.request.isInitial || (p.active && succeeded)
  }

  /** The events published when the navigation `p` finishes, its enumeration having `succeeded` or not. */
  function Resolution(p: PendingNavigation, succeeded: bool): (evs: seq<NavigationEvent>)
    ensures forall e :: e in evs ==> e.request == p.request
    ensures p.request.isInitial ==>
      evs == [NavigationEvent(WillCommit, p.request), NavigationEvent(Committed, p.request)]
    ensures p.active && succeeded ==>
      evs == [NavigationEvent(WillCommit, p.request), NavigationEvent(Committed, p.request)]
    ensures p.active && !succeeded && !p.request.isInitial ==>
      evs == [NavigationEvent(Failed, p.request)]
    ensures !p.active && !p.request.isInitial ==>
      evs == [NavigationEvent(Cancelled, p.request)]
  {
    if Commits(p, succeeded) then
      [NavigationEvent(WillCommit, p.request), NavigationEvent(Committed, p.request)]
    else if p.active then
      [NavigationEvent(Failed, p.request)]
    else
      [NavigationEvent(Cancelled, p.request)]
  }

  /** The pending list after `ps[k]` finishes: it is removed, and a commit stops all the others. */
  function PendingAfterCompletion(ps: seq<PendingNavigation>, k: nat, succeeded: bool): seq<PendingNavigation>
    requires k < |ps|
  {
    if Commits(ps[k], succeeded) then StopAll(Without(ps, k)) else Without(ps, k)
  }

  // ----- the event log -----

  /** The kinds of the events published about the navigation numbered `id`, in order. */
  function KindsFor(log: seq<NavigationEvent>, id: nat): seq<EventKind> {
    if log == [] then []
    else
      KindsFor(log[..|log| - 1], id)
        + (if log[|log| - 1].request.id == id then [log[|log| - 1].kind] else [])
  }

  /** The event sequences a navigation may have: started, then at most one outcome. */
  predicate Lifecycle(ks: seq<EventKind>) {
    || ks == [Started]
    || ks == [Started, WillCommit, Committed]
    || ks == [Started, Failed]
    || ks == [Started, Cancelled]
  }

  /**
   * The log agrees with the pending list: every started navigation has a lifecycle, which
   * is still just [Started] exactly when it is pending; unstarted numbers have no events.
   */
  ghost predicate LogMatches(log: seq<NavigationEvent>, ps: seq<PendingNavigation>, started: nat) {
    forall id: nat {:trigger KindsFor(log, id)} ::
      if id < started then
        Lifecycle(KindsFor(log, id)) && (KindsFor(log, id) == [Started] <==> IsPending(ps, id))
      else
        KindsFor(log, id) == []
  }

  ghost predicate Consistent(log: seq<NavigationEvent>, ps: seq<PendingNavigation>, started: nat) {
    StartOrdered(ps, started) && LogMatches(log, ps, started)
  }

  // ----- lemmas about the pending list -----

  /** The requests of the first `n` pending navigations that are active, and only those. */
  lemma {:induction false} ActivePrefixMembers(ps: seq<PendingNavigation>, n: nat)
    requires n <= |ps|
    ensures |ActivePrefix(ps, n)| <= n
    ensures forall q :: q in ActivePrefix(ps, n) ==>
      exists i :: 0 <= i < n && ps[i].active && ps[i].request == q
    ensures forall i :: 0 <= i < n && ps[i].active ==> ps[i].request in ActivePrefix(ps, n)
    ensures ActivePrefix(ps, n) == [] <==> forall i :: 0 <= i < n ==> !ps[i].active
  {
    if n != 0 {
      ActivePrefixMembers(ps, n - 1);
    }
  }

  /** A request is in the active list exactly when it is pending with its active flag set. */
  lemma ActiveRequestsMembers(ps: seq<PendingNavigation>)
    ensures |ActiveRequests(ps)| <= |ps|
    ensures forall q :: q in ActiveRequests(ps) ==>
      exists i :: 0 <= i < |ps| && ps[i].active && ps[i].request == q
    ensures forall i :: 0 <= i < |ps| && ps[i].active ==> ps[i].request in ActiveRequests(ps)
    ensures ActiveRequests(ps) == [] <==> forall i :: 0 <= i < |ps| ==> !ps[i].active
  {
    ActivePrefixMembers(ps, |ps|);
  }

  /** The active prefix depends only on the navigations in the prefix. */
  lemma {:induction false} ActivePrefixExtend(ps: seq<PendingNavigation>, more: seq<PendingNavigation>, n: nat)
    requires n <= |ps|
    ensures ActivePrefix(ps + more, n) == ActivePrefix(ps, n)
  {
    if n != 0 {
      ActivePrefixExtend(ps, more, n - 1);
    }
  }

  /** A navigation appended to the pending list joins the end of the active list when it is active. */
  lemma ActiveRequestsAppend(ps: seq<PendingNavigation>, p: PendingNavigation)
    ensures ActiveRequests(ps + [p]) == ActiveRequests(ps) + (if p.active then [p.request] else [])
  {
    ActivePrefixExtend(ps, [p], |ps|);
  }

  /** A single pending navigation is the whole active list when it is active. */
  lemma ActiveRequestsSingle(p: PendingNavigation)
    ensures ActiveRequests([p]) == if p.active then [p.request] else []
  {
    ActiveRequestsAppend([], p);
    assert [] + [p] == [p];
  }

  /** The active prefix is in start order, like the pending list it is drawn from. */
  lemma {:induction false} ActivePrefixInStartOrder(ps: seq<PendingNavigation>, n: nat, started: nat)
    requires n <= |ps| && StartOrdered(ps, started)
    ensures InStartOrder(ActivePrefix(ps, n))
  {
    if n != 0 {
      ActivePrefixInStartOrder(ps, n - 1, started);
      var last := ps[n - 1];
      if last.active {
        ActivePrefixBelow(ps, n - 1, last.request.id);
        InStartOrderAppend(ActivePrefix(ps, n - 1), last.request);
      }
    }
  }

  /** When the first `n` pending navigations are all numbered below `bound`, so is their active list. */
  lemma {:induction false} ActivePrefixBelow(ps: seq<PendingNavigation>, n: nat, bound: nat)
    requires n <= |ps|
    requires forall m :: 0 <= m < n ==> ps[m].request.id < bound
    ensures forall i :: 0 <= i < |ActivePrefix(ps, n)| ==> ActivePrefix(ps, n)[i].id < bound
  {
    if n != 0 {
      ActivePrefixBelow(ps, n - 1, bound);
    }
  }

  /** A request numbered above every request of an ordered list extends it in start order. */
  lemma InStartOrderAppend(rs: seq<NavigationRequest>, r: NavigationRequest)
    requires InStartOrder(rs)
    requires forall i :: 0 <= i < |rs| ==> rs[i].id < r.id
    ensures InStartOrder(rs + [r])
  {
  }

  /** The active list is in start order, like the pending list it is drawn from. */
  lemma ActiveInStartOrder(ps: seq<PendingNavigation>, started: nat)
    requires StartOrdered(ps, started)
    ensures InStartOrder(ActiveRequests(ps))
  {
    ActivePrefixInStartOrder(ps, |ps|, started);
  }

  /** The number of active flags among the first `n` pending navigations is the length of their active list. */
  lemma {:induction false} CountActiveIsLength(ps: seq<PendingNavigation>, n: nat)
    requires n <= |ps|
    ensures CountActive(ps, n) == |ActivePrefix(ps, n)|
  {
    if n != 0 {
      CountActiveIsLength(ps, n - 1);
    }
  }

  /** Stopping every navigation keeps the pending list and leaves only the initial navigation active. */
  lemma StopAllKeepsRequests(ps: seq<PendingNavigation>)
    ensures Requests(StopAll(ps)) == Requests(ps)
    ensures forall q :: q in ActiveRequests(StopAll(ps)) ==> q.isInitial
  {
    var ps' := StopAll(ps);
    ActiveRequestsMembers(ps');
    forall q | q in ActiveRequests(ps')
      ensures q.isInitial
    {
      var i :| 0 <= i < |ps'| && ps'[i].active && ps'[i].request == q;
      assert ps'[i] == Stop(ps[i]);
    }
  }

  /** After `ps[k]` finishes, the pending list holds the other navigations, in order, none newly active. */
  lemma PendingAfterCompletionAt(ps: seq<PendingNavigation>, k: nat, succeeded: bool)
    requires k < |ps|
    ensures |PendingAfterCompletion(ps, k, succeeded)| == |ps| - 1
    ensures forall i :: 0 <= i < |ps| - 1 ==>
      && PendingAfterCompletion(ps, k, succeeded)[i].request == ps[if i < k then i else i + 1].request
      && (PendingAfterCompletion(ps, k, succeeded)[i].active ==> ps[if i < k then i else i + 1].active)
  {
  }

  /** Which navigations stay pending after `ps[k]` finishes: exactly the others. */
  lemma PendingAfterCompletionIds(ps: seq<PendingNavigation>, started: nat, k: nat, succeeded: bool, id: nat)
    requires StartOrdered(ps, started) && k < |ps|
    ensures IsPending(PendingAfterCompletion(ps, k, succeeded), id) <==> IsPending(ps, id) && id != ps[k].request.id
  {
    var ps' := PendingAfterCompletion(ps, k, succeeded);
    PendingAfterCompletionAt(ps, k, succeeded);
    if IsPending(ps', id) {
      var i :| 0 <= i < |ps'| && ps'[i].request.id == id;
      var i0 := if i < k then i else i + 1;
      assert ps'[i].request == ps[i0].request;
    }
    if IsPending(ps, id) && id != ps[k].request.id {
      var i :| 0 <= i < |ps| && ps[i].request.id == id;
      var j := if i < k then i else i - 1;
      assert ps'[j].request == ps[if j < k then j else j + 1].request;
    }
  }

  /** A completion step keeps the pending list in start order, with the initial navigation still active. */
  lemma PendingAfterCompletionWellFormed(ps: seq<PendingNavigation>, started: nat, k: nat, succeeded: bool)
    requires StartOrdered(ps, started) && k < |ps|
    ensures StartOrdered(PendingAfterCompletion(ps, k, succeeded), started)
  {
  }

  /**
   * Once a navigation commits, every other pending navigation except the initial one is
   * no longer active, and finishing it later publishes Cancelled whatever its enumeration did.
   */
  lemma SupersededAreCancelled(ps: seq<PendingNavigation>, k: nat, succeeded: bool, j: nat, laterSucceeded: bool)
    requires k < |ps| && Commits(ps[k], succeeded)
    requires j < |PendingAfterCompletion(ps, k, succeeded)|
    requires !PendingAfterCompletion(ps, k, succeeded)[j].request.isInitial
    ensures var q := PendingAfterCompletion(ps, k, succeeded)[j];
      !q.active && Resolution(q, laterSucceeded) == [NavigationEvent(Cancelled, q.request)]
  {
  }

  /**
   * After a navigation commits, the active list holds no navigation but the initial one;
   * when it was the oldest pending navigation (the order the completion steps run in), the
   * active list is empty.
   */
  lemma {:induction false} CommitEmptiesActive(ps: seq<PendingNavigation>, started: nat, k: nat, succeeded: bool)
    requires StartOrdered(ps, started) && k < |ps| && Commits(ps[k], succeeded)
    ensures forall q :: q in ActiveRequests(PendingAfterCompletion(ps, k, succeeded)) ==> q.isInitial
    ensures k == 0 ==> ActiveRequests(PendingAfterCompletion(ps, k, succeeded)) == []
  {
    var rest := Without(ps, k);
    StopAllKeepsRequests(rest);
    var ps' := StopAll(rest);
    ActiveRequestsMembers(ps');
    if k == 0 {
      forall j | 0 <= j < |ps'|
        ensures !ps'[j].active
      {
        assert ps'[j] == Stop(rest[j]) && rest[j] == ps[j + 1];
        assert ps[0].request.id < ps[j + 1].request.id;
      }
    }
  }

  // ----- lemmas about the event log -----

  lemma {:induction false} KindsForAppend(a: seq<NavigationEvent>, b: seq<NavigationEvent>, id: nat)
    ensures KindsFor(a + b, id) == KindsFor(a, id) + KindsFor(b, id)
    decreases |b|
  {
    if b != [] {
      var b' := b[..|b| - 1];
      assert (a + b)[..|a + b| - 1] == a + b';
      KindsForAppend(a, b', id);
    } else {
      assert a + b == a;
    }
  }

  lemma KindsForResolution(p: PendingNavigation, succeeded: bool, id: nat)
    ensures id != p.request.id ==> KindsFor(Resolution(p, succeeded), id) == []
    ensures id == p.request.id ==>
      KindsFor(Resolution(p, succeeded), id) ==
        if Commits(p, succeeded) then [WillCommit, Committed]
        else if p.active then [Failed] else [Cancelled]
  {
    var evs := Resolution(p, succeeded);
    assert KindsFor([evs[0]], id) == KindsFor([], id) + (if p.request.id == id then [evs[0].kind] else []) by {
      assert [evs[0]][..0] == [];
    }
    if |evs| == 2 {
      assert evs[..1] == [evs[0]];
    } else {
      assert evs == [evs[0]];
    }
  }

  /** Starting the navigation numbered `started` keeps the log and the pending list consistent. */
  lemma {:induction false} StartKeepsConsistent(log: seq<NavigationEvent>, ps: seq<PendingNavigation>,
                                                started: nat, target: Location)
    requires Consistent(log, ps, started)
    ensures var request := NavigationRequest(started, target, started == 0);
      Consistent(log + [NavigationEvent(Started, request)],
                 ps + [PendingNavigation(request, true)], started + 1)
  {
    var request := NavigationRequest(started, target, started == 0);
    var log', ps' := log + [NavigationEvent(Started, request)], ps + [PendingNavigation(request, true)];
    forall id: nat
      ensures if id < started + 1 then
          Lifecycle(KindsFor(log', id)) && (KindsFor(log', id) == [Started] <==> IsPending(ps', id))
        else KindsFor(log', id) == []
    {
      assert log'[..|log'| - 1] == log;
      if id == started {
        assert KindsFor(log, id) == [];
        assert ps'[|ps|].request.id == id;
      } else if id < started {
        if IsPending(ps', id) {
          var i :| 0 <= i < |ps'| && ps'[i].request.id == id;
          assert i < |ps| && ps[i].request.id == id;
        }
        if IsPending(ps, id) {
          var i :| 0 <= i < |ps| && ps[i].request.id == id;
          assert ps'[i].request.id == id;
        }
      }
    }
  }

  /** StopLoading keeps every navigation pending and leaves the log alone. */
  lemma {:induction false} StopAllKeepsConsistent(log: seq<NavigationEvent>, ps: seq<PendingNavigation>, started: nat)
    requires Consistent(log, ps, started)
    ensures Consistent(log, StopAll(ps), started)
  {
    var ps' := StopAll(ps);
    forall id: nat
      ensures IsPending(ps', id) <==> IsPending(ps, id)
    {
      if IsPending(ps', id) {
        var i :| 0 <= i < |ps'| && ps'[i].request.id == id;
        assert ps[i].request.id == id;
      }
      if IsPending(ps, id) {
        var i :| 0 <= i < |ps| && ps[i].request.id == id;
        assert ps'[i].request.id == id;
      }
    }
  }

  /**
   * A completion step keeps the log and the pending list consistent: the finished
   * navigation gets exactly one outcome and leaves the pending list, nothing else changes.
   */
  lemma {:induction false} CompleteKeepsConsistent(log: seq<NavigationEvent>, ps: seq<PendingNavigation>,
                                                   started: nat, k: nat, succeeded: bool)
    requires Consistent(log, ps, started) && k < |ps|
    ensures Consistent(log + Resolution(ps[k], succeeded), PendingAfterCompletion(ps, k, succeeded), started)
  {
    var p := ps[k];
    var log' := log + Resolution(p, succeeded);
    var ps' := PendingAfterCompletion(ps, k, succeeded);
    PendingAfterCompletionWellFormed(ps, started, k, succeeded);
    forall id: nat
      ensures if id < started then
          Lifecycle(KindsFor(log', id)) && (KindsFor(log', id) == [Started] <==> IsPending(ps', id))
        else KindsFor(log', id) == []
    {
      KindsForAppend(log, Resolution(p, succeeded), id);
      KindsForResolution(p, succeeded, id);
      PendingAfterCompletionIds(ps, started, k, succeeded, id);
      if id == p.request.id {
        assert IsPending(ps, id);
        assert KindsFor(log, id) == [Started];
      }
    }
  }

  /** Every published event is about a navigation that was pending while the event was delivered. */
  ghost predicate DeliveredWhilePending(log: seq<NavigationEvent>, pendingAtEvent: seq<seq<NavigationRequest>>) {
    |pendingAtEvent| == |log| && forall i :: 0 <= i < |log| ==> log[i].request in pendingAtEvent[i]
  }

  /** Publishing Started for the newest pending navigation keeps every event delivered while its navigation is pending. */
  lemma StartDeliveredWhilePending(log: seq<NavigationEvent>, pendingAtEvent: seq<seq<NavigationRequest>>,
                                   ps: seq<PendingNavigation>, request: NavigationRequest)
    requires DeliveredWhilePending(log, pendingAtEvent) && ps != [] && ps[|ps| - 1].request == request
    ensures DeliveredWhilePending(log + [NavigationEvent(Started, request)], pendingAtEvent + [Requests(ps)])
  {
    assert Requests(ps)[|ps| - 1] == request;
  }

  /**
   * Publishing the outcome of `ps[k]` while the pending list is still `ps` keeps every event
   * delivered while its navigation is pending.
   */
  lemma OutcomeDeliveredWhilePending(log: seq<NavigationEvent>, pendingAtEvent: seq<seq<NavigationRequest>>,
                                     ps: seq<PendingNavigation>, k: nat, succeeded: bool)
    requires DeliveredWhilePending(log, pendingAtEvent) && k < |ps|
    ensures DeliveredWhilePending(log + Resolution(ps[k], succeeded),
                                  pendingAtEvent + Repeat(Requests(ps), |Resolution(ps[k], succeeded)|))
  {
    var evs := Resolution(ps[k], succeeded);
    var seen := Repeat(Requests(ps), |evs|);
    forall i | 0 <= i < |evs|
      ensures evs[i].request in seen[i]
    {
      assert evs[i] in evs;
      assert Requests(ps)[k] == ps[k].request;
    }
  }

  // ----- the manager -----

  class NavigationManager {
    /** Navigations started and not yet finished, in start order. */
    var pending: seq<PendingNavigation>
    /** Every event published so far, in order. */
    var log: seq<NavigationEvent>
    /** How many navigations have been started; the next one gets this number. */
    var started: nat
    /** False once the manager is destroyed; completions arriving after that do nothing. */
    var alive: bool
    /** How many navigations have finished. */
    ghost var finished: nat
    /** For each published event, what MaybeGetLatestPendingNavigation returned while it was delivered. */
    ghost var latestAtEvent: seq<Option<NavigationRequest>>
    /** For each published event, the pending requests while it was delivered. */
    ghost var pendingAtEvent: seq<seq<NavigationRequest>>

    ghost predicate Valid()
      reads this
    {
      && PendingWellFormed(pending, started)
      && LogMatches(log, pending, started)
      && |pending| + finished == started
      && |latestAtEvent| == |log|
      && DeliveredWhilePending(log, pendingAtEvent)
    }

    constructor ()
      ensures Valid() && alive
      ensures pending == [] && log == [] && started == 0
    {
      pending := [];
      log := [];
      started := 0;
      alive := true;
      finished := 0;
      latestAtEvent := [];
      pendingAtEvent := [];
    }

    function GetPendingNavigations(): (r: seq<NavigationRequest>)
      reads this
      requires Valid()
      ensures |r| == |pending| && |r| + finished == started
      ensures forall i :: 0 <= i < |r| ==> r[i] == pending[i].request
      ensures InStartOrder(r)
    {
      PendingWellFormedIff(pending, started);
      Requests(pending)
    }

    function GetActiveNavigations(): (r: seq<NavigationRequest>)
      reads this
      requires Valid()
      ensures forall i :: 0 <= i < |pending| ==> (pending[i].request in r <==> pending[i].active)
      ensures forall q :: q in r ==> q in GetPendingNavigations()
      ensures InStartOrder(r)
    {
      PendingWellFormedIff(pending, started);
      ActiveInStartOrder(pending, started);
      ActiveRequestsMembers(pending);
      ActiveRequests(pending)
    }

    function GetNumPendingNavigations(): (n: nat)
      reads this
      requires Valid()
      ensures n == |GetPendingNavigations()|
    {
      |pending|
    }

    function GetNumActiveNavigations(): (n: nat)
      reads this
      requires Valid()
      ensures n == |GetActiveNavigations()|
    {
      CountActiveIsLength(pending, |pending|);
      CountActive(pending, |pending|)
    }

    function HasAnyPendingNavigations(): (b: bool)
      reads this
      requires Valid()
      ensures b <==> GetPendingNavigations() != []
    {
      pending != []
    }

    function HasAnyActiveNavigations(): (b: bool)
      reads this
      requires Valid()
      ensures b <==> GetActiveNavigations() != []
    {
      CountActiveIsLength(pending, |pending|);
      CountActive(pending, |pending|) > 0
    }

    function MaybeGetLatestPendingNavigation(): (r: Option<NavigationRequest>)
      reads this
      ensures r.None? <==> pending == []
      ensures r.Some? ==> r.value == pending[|pending| - 1].request
    {
      Latest(Requests(pending))
    }

    function MaybeGetLatestActiveNavigation(): (r: Option<NavigationRequest>)
      reads this
      requires Valid()
      ensures r.None? <==> GetActiveNavigations() == []
      ensures r.Some? ==> r.value in GetActiveNavigations()
      ensures r.Some? ==> forall q :: q in GetActiveNavigations() ==> q.id <= r.value.id
    {
      Latest(GetActiveNavigations())
    }

    /** Publishes one event to the observers, who may query the manager while it is delivered. */
    method Publish(kind: EventKind, request: NavigationRequest)
      modifies this`log, this`latestAtEvent, this`pendingAtEvent
      ensures log == old(log) + [NavigationEvent(kind, request)]
      ensures latestAtEvent == old(latestAtEvent) + [MaybeGetLatestPendingNavigation()]
      ensures pendingAtEvent == old(pendingAtEvent) + [Requests(pending)]
    {
      log := log + [NavigationEvent(kind, request)];
      latestAtEvent := latestAtEvent + [MaybeGetLatestPendingNavigation()];
      pendingAtEvent := pendingAtEvent + [Requests(pending)];
    }

    /**
     * Registers a new navigation as pending and active, then publishes Started; the
     * enumeration is left to a later completion step.
     */
    method StartNavigation(target: Location) returns (request: NavigationRequest)
      requires Valid() && alive
      modifies this
      ensures Valid() && alive
      ensures request == NavigationRequest(old(started), target, old(started) == 0)
      ensures pending == old(pending) + [PendingNavigation(request, true)]
      ensures ActiveRequests(pending) == ActiveRequests(old(pending)) + [request]
      ensures log == old(log) + [NavigationEvent(Started, request)]
      ensures latestAtEvent == old(latestAtEvent) + [Some(request)]
      ensures pendingAtEvent == old(pendingAtEvent) + [Requests(pending)]
      ensures started == old(started) + 1 && finished == old(finished)
    {
      PendingWellFormedIff(pending, started);
      StartKeepsConsistent(log, pending, started, target);
      request := NavigationRequest(started, target, started == 0);
      ActiveRequestsAppend(pending, PendingNavigation(request, true));
      pending := pending + [PendingNavigation(request, true)];
      started := started + 1;
      PendingWellFormedIff(pending, started);
      StartDeliveredWhilePending(log, pendingAtEvent, pending, request);
      Publish(Started, request);
    }

    /** Stops every pending navigation; each stays pending until its own completion step. */
    method StopLoading()
      requires Valid() && alive
      modifies this`pending
      ensures Valid()
      ensures pending == StopAll(old(pending))
      ensures Requests(pending) == Requests(old(pending))
      ensures forall q :: q in ActiveRequests(pending) ==> q.isInitial
    {
      PendingWellFormedIff(pending, started);
      StopAllKeepsConsistent(log, pending, started);
      StopAllKeepsRequests(pending);
      pending := StopAll(pending);
      PendingWellFormedIff(pending, started);
    }

    /**
     * Publishes what happened to the finished navigation `p`, while it is still pending:
     * WillCommit then Committed when it commits, otherwise Failed or Cancelled.
     */
    method PublishOutcome(p: PendingNavigation, succeeded: bool)
      modifies this`log, this`latestAtEvent, this`pendingAtEvent
      ensures log == old(log) + Resolution(p, succeeded)
      ensures latestAtEvent == old(latestAtEvent) + Repeat(MaybeGetLatestPendingNavigation(), |Resolution(p, succeeded)|)
      ensures pendingAtEvent == old(pendingAtEvent) + Repeat(Requests(pending), |Resolution(p, succeeded)|)
    {
      if Commits(p, succeeded) {
        Publish(WillCommit, p.request);
        Publish(Committed, p.request);
      } else if p.active {
        Publish(Failed, p.request);
      } else {
        Publish(Cancelled, p.request);
      }
    }

    /**
     * The foreground half of the navigation `pending[k]` finishing, its enumeration having
     * `succeeded` or not: it publishes the outcome while the navigation is still pending,
     * removes it, and on a commit stops every other pending navigation. On a destroyed
     * manager it does nothing.
     */
    method Complete(k: nat, succeeded: bool)
      requires Valid() && k < |pending|
      modifies this`pending, this`log, this`latestAtEvent, this`pendingAtEvent, this`finished
      ensures Valid() && alive == old(alive) && started == old(started)
      ensures !alive ==> pending == old(pending) && log == old(log) && finished == old(finished)
      ensures alive ==> log == old(log) + Resolution(old(pending[k]), succeeded)
      ensures alive ==> pending == PendingAfterCompletion(old(pending), k, succeeded)
      ensures alive ==> finished == old(finished) + 1
      ensures !alive ==> latestAtEvent == old(latestAtEvent) && pendingAtEvent == old(pendingAtEvent)
      ensures alive ==>
                pendingAtEvent == old(pendingAtEvent) + Repeat(Requests(old(pending)), |Resolution(old(pending[k]), succeeded)|)
      ensures alive ==>
                latestAtEvent == old(latestAtEvent) + Repeat(old(MaybeGetLatestPendingNavigation()), |Resolution(old(pending[k]), succeeded)|)
    {
      if !alive {
        return;
      }
      PendingWellFormedIff(pending, started);
      CompleteKeepsConsistent(log, pending, started, k, succeeded);
      var p := pending[k];
      var next := PendingAfterCompletion(pending, k, succeeded);
      PendingWellFormedIff(next, started);
      OutcomeDeliveredWhilePending(log, pendingAtEvent, pending, k, succeeded);
      PublishOutcome(p, succeeded);
      pending := next;
      finished := finished + 1;
    }

    /** Destroys the manager; work still outstanding will find it gone. */
    method Destroy()
      requires Valid()
      modifies this`alive
      ensures Valid() && !alive
    {
      alive := false;
    }
  }
}
