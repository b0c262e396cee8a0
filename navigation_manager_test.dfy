/**
 * The navigation manager's test cases, each replayed against the model as a client of
 * NavigationManager: the ensures clauses state the event sequence, or the pending and
 * active lists, that the test expects.
 */
module NavigationManagerTest {
  import opened Options
  import opened NavigationManagement

  function Event(kind: EventKind, r: NavigationRequest): NavigationEvent {
    NavigationEvent(kind, r)
  }

  /** What a test reads of a list of navigations: the list, its latest entry, its length and whether it is non-empty. */
  datatype View = View(list: seq<NavigationRequest>, latest: Option<NavigationRequest>, count: nat, any: bool)

  /** The view of `rs` the tests expect. */
  function Expected(rs: seq<NavigationRequest>): View {
    View(rs, Latest(rs), |rs|, rs != [])
  }

  method PendingView(m: NavigationManager) returns (v: View)
    requires m.Valid()
    ensures v == Expected(Requests(m.pending))
  {
    v := View(m.GetPendingNavigations(), m.MaybeGetLatestPendingNavigation(),
              m.GetNumPendingNavigations(), m.HasAnyPendingNavigations());
  }

  method ActiveView(m: NavigationManager) returns (v: View)
    requires m.Valid()
    ensures v == Expected(ActiveRequests(m.pending))
  {
    v := View(m.GetActiveNavigations(), m.MaybeGetLatestActiveNavigation(),
              m.GetNumActiveNavigations(), m.HasAnyActiveNavigations());
  }

  method SuccessfulNavigation(target: Location) returns (r: NavigationRequest, log: seq<NavigationEvent>)
    ensures r.target == target
    ensures log == [Event(Started, r), Event(WillCommit, r), Event(Committed, r)]
  {
    var m := new NavigationManager();
    r := m.StartNavigation(target);
    assert m.pending == [PendingNavigation(r, true)];
    m.Complete(0, true);
    log := m.log;
  }

  /** The first navigation commits even though its enumeration failed. */
  method FailedInitialNavigation(target: Location) returns (r: NavigationRequest, log: seq<NavigationEvent>)
    ensures r.target == target
    ensures log == [Event(Started, r), Event(WillCommit, r), Event(Committed, r)]
  {
    var m := new NavigationManager();
    r := m.StartNavigation(target);
    assert m.pending == [PendingNavigation(r, true)];
    m.Complete(0, false);
    log := m.log;
  }

  /** The first navigation commits even though it was stopped. */
  method CancelledInitialNavigation(target: Location) returns (r: NavigationRequest, log: seq<NavigationEvent>)
    ensures r.target == target
    ensures log == [Event(Started, r), Event(WillCommit, r), Event(Committed, r)]
  {
    var m := new NavigationManager();
    r := m.StartNavigation(target);
    m.StopLoading();
    assert m.pending == [PendingNavigation(r, true)];
    m.Complete(0, true);
    log := m.log;
  }

  method FailedSubsequentNavigation(t1: Location, t2: Location)
    returns (r1: NavigationRequest, r2: NavigationRequest, log: seq<NavigationEvent>)
    ensures r1.target == t1 && r2.target == t2
    ensures log == [Event(Started, r1), Event(WillCommit, r1), Event(Committed, r1),
                    Event(Started, r2), Event(Failed, r2)]
  {
    var m := new NavigationManager();
    r1 := m.StartNavigation(t1);
    assert m.pending == [PendingNavigation(r1, true)];
    m.Complete(0, true);
    assert m.log == [Event(Started, r1), Event(WillCommit, r1), Event(Committed, r1)];
    r2 := m.StartNavigation(t2);
    assert m.pending == [PendingNavigation(r2, true)] && !r2.isInitial;
    m.Complete(0, false);
    log := m.log;
  }

  method CancelledSubsequentNavigation(t1: Location, t2: Location)
    returns (r1: NavigationRequest, r2: NavigationRequest, log: seq<NavigationEvent>)
    ensures r1.target == t1 && r2.target == t2
    ensures log == [Event(Started, r1), Event(WillCommit, r1), Event(Committed, r1),
                    Event(Started, r2), Event(Cancelled, r2)]
  {
    var m := new NavigationManager();
    r1 := m.StartNavigation(t1);
    assert m.pending == [PendingNavigation(r1, true)];
    m.Complete(0, true);
    assert m.log == [Event(Started, r1), Event(WillCommit, r1), Event(Committed, r1)];
    r2 := m.StartNavigation(t2);
    assert m.pending == [PendingNavigation(r2, true)] && !r2.isInitial;
    m.StopLoading();
    assert m.pending == [PendingNavigation(r2, false)];
    m.Complete(0, true);
    log := m.log;
  }

  /** The first navigation's commit cancels the second, although the second started later. */
  method CommitWithPendingNavigation(t1: Location, t2: Location)
    returns (r1: NavigationRequest, r2: NavigationRequest, log: seq<NavigationEvent>)
    ensures r1.target == t1 && r2.target == t2
    ensures log == [Event(Started, r1), Event(Started, r2), Event(WillCommit, r1),
                    Event(Committed, r1), Event(Cancelled, r2)]
  {
    var m := new NavigationManager();
    r1 := m.StartNavigation(t1);
    r2 := m.StartNavigation(t2);
    assert m.pending == [PendingNavigation(r1, true), PendingNavigation(r2, true)] && !r2.isInitial;
    m.Complete(0, true);
    assert m.log == [Event(Started, r1), Event(Started, r2), Event(WillCommit, r1), Event(Committed, r1)];
    assert m.pending == [PendingNavigation(r2, false)];
    m.Complete(0, true);
    log := m.log;
  }

  /** Work that finishes after the manager is gone publishes nothing. */
  method ManagerDestroyedWithPendingNavigation(target: Location)
    returns (r: NavigationRequest, log: seq<NavigationEvent>)
    ensures r.target == target
    ensures log == [Event(Started, r)]
  {
    var m := new NavigationManager();
    r := m.StartNavigation(target);
    m.Destroy();
    assert m.log == [Event(Started, r)];
    m.Complete(0, true);
    log := m.log;
  }

  /** The pending list, its latest entry, its length and whether it is non-empty, after each step. */
  method PendingNavigations(t1: Location, t2: Location)
    returns (r1: NavigationRequest, r2: NavigationRequest, views: seq<View>)
    ensures r1.target == t1 && r2.target == t2
    ensures views == [Expected([]), Expected([r1]), Expected([r1, r2]), Expected([r2]), Expected([])]
  {
    var m := new NavigationManager();
    var v0 := PendingView(m);
    r1 := m.StartNavigation(t1);
    assert m.pending == [PendingNavigation(r1, true)];
    var v1 := PendingView(m);
    assert Requests(m.pending) == [r1];
    r2 := m.StartNavigation(t2);
    assert m.pending == [PendingNavigation(r1, true), PendingNavigation(r2, true)] && !r2.isInitial;
    var v2 := PendingView(m);
    assert Requests(m.pending) == [r1, r2];
    m.Complete(0, true);
    assert m.pending == [PendingNavigation(r2, false)];
    var v3 := PendingView(m);
    assert Requests(m.pending) == [r2];
    m.Complete(0, true);
    assert m.pending == [];
    var v4 := PendingView(m);
    views := [v0, v1, v2, v3, v4];
  }

  /**
   * The active list, its latest entry, its length and whether it is non-empty: the first
   * commit empties it, a navigation started afterwards stays active while the superseded
   * one finishes, then completes.
   */
  method ActiveNavigations(t1: Location, t2: Location, t3: Location)
    returns (r1: NavigationRequest, r2: NavigationRequest, r3: NavigationRequest, views: seq<View>)
    ensures r1.target == t1 && r2.target == t2 && r3.target == t3
    ensures views == [Expected([]), Expected([r1]), Expected([r1, r2]), Expected([]),
                      Expected([r3]), Expected([r3]), Expected([])]
  {
    var m, first;
    m, r1, r2, first := ActiveNavigationsBeforeCommit(t1, t2);
    m.Complete(0, true);
    assert m.pending == [PendingNavigation(r2, false)];
    ActiveRequestsSingle(PendingNavigation(r2, false));
    var v3 := ActiveView(m);
    var rest;
    r3, rest := ActiveNavigationsAfterCommit(m, r2, t3);
    views := first + [v3] + rest;
  }

  /** The first half of ActiveNavigations: two navigations are started and both are active. */
  method ActiveNavigationsBeforeCommit(t1: Location, t2: Location)
    returns (m: NavigationManager, r1: NavigationRequest, r2: NavigationRequest, views: seq<View>)
    ensures fresh(m) && m.Valid() && m.alive && !r2.isInitial
    ensures m.pending == [PendingNavigation(r1, true), PendingNavigation(r2, true)]
    ensures r1.target == t1 && r2.target == t2
    ensures views == [Expected([]), Expected([r1]), Expected([r1, r2])]
  {
    m := new NavigationManager();
    assert ActiveRequests(m.pending) == [];
    var v0 := ActiveView(m);
    r1 := m.StartNavigation(t1);
    assert ActiveRequests(m.pending) == [r1];
    var v1 := ActiveView(m);
    r2 := m.StartNavigation(t2);
    assert m.pending == [PendingNavigation(r1, true), PendingNavigation(r2, true)] && !r2.isInitial;
    assert ActiveRequests(m.pending) == [r1, r2];
    var v2 := ActiveView(m);
    views := [v0, v1, v2];
  }

  /**
   * The second half of ActiveNavigations, from the state the first commit leaves: the
   * superseded navigation `r2` is still pending but inactive.
   */
  method ActiveNavigationsAfterCommit(m: NavigationManager, r2: NavigationRequest, t3: Location)
    returns (r3: NavigationRequest, views: seq<View>)
    requires m.Valid() && m.alive && m.pending == [PendingNavigation(r2, false)]
    requires ActiveRequests(m.pending) == []
    modifies m
    ensures r3.target == t3
    ensures views == [Expected([r3]), Expected([r3]), Expected([])]
  {
    r3 := m.StartNavigation(t3);
    assert m.pending == [PendingNavigation(r2, false), PendingNavigation(r3, true)] && !r3.isInitial;
    assert ActiveRequests(m.pending) == [r3];
    var v4 := ActiveView(m);
    m.Complete(0, true);
    assert m.pending == [PendingNavigation(r3, true)];
    ActiveRequestsSingle(PendingNavigation(r3, true));
    var v5 := ActiveView(m);
    m.Complete(0, true);
    assert m.pending == [];
    var v6 := ActiveView(m);
    views := [v4, v5, v6];
  }

  /** A stopped initial navigation can still commit, so it stays in the active list. */
  method InitialNavigationActiveWhenStopped(target: Location)
    returns (r: NavigationRequest, view: View)
    ensures r.target == target
    ensures view == Expected([r])
  {
    var m := new NavigationManager();
    r := m.StartNavigation(target);
    m.StopLoading();
    assert m.pending == [PendingNavigation(r, true)];
    ActiveRequestsSingle(PendingNavigation(r, true));
    view := ActiveView(m);
  }

  /**
   * The fixture of the latest-navigation tests: an initial navigation to `t1` has been
   * started and committed, so later navigations resolve like any subsequent one.
   */
  method LatestNavigationFixture(t1: Location) returns (m: NavigationManager, r1: NavigationRequest)
    ensures fresh(m) && m.Valid() && m.alive && m.pending == [] && m.started == 1 && r1.target == t1
    ensures m.log == [Event(Started, r1), Event(WillCommit, r1), Event(Committed, r1)]
    ensures m.latestAtEvent == Repeat(Some(r1), 3)
  {
    m := new NavigationManager();
    r1 := m.StartNavigation(t1);
    assert m.pending == [PendingNavigation(r1, true)];
    assert m.MaybeGetLatestPendingNavigation() == Some(r1);
    m.Complete(0, true);
  }

  /**
   * A navigation is the latest pending navigation while its Started event and while its
   * Committed event are delivered.
   */
  method LatestNavigationLifetimeSuccessful(t1: Location, t2: Location)
    returns (r1: NavigationRequest, r: NavigationRequest, log: seq<NavigationEvent>,
             ghost seen: seq<Option<NavigationRequest>>)
    ensures r1.target == t1 && r.target == t2
    ensures log == [Event(Started, r1), Event(WillCommit, r1), Event(Committed, r1)] + [Event(Started, r), Event(WillCommit, r), Event(Committed, r)]
    ensures seen == Repeat(Some(r1), 3) + Repeat(Some(r), 3)
  {
    var m;
    m, r1 := LatestNavigationFixture(t1);
    r := m.StartNavigation(t2);
    assert m.pending == [PendingNavigation(r, true)] && !r.isInitial;
    assert m.MaybeGetLatestPendingNavigation() == Some(r);
    m.Complete(0, true);
    log, seen := m.log, m.latestAtEvent;
  }

  /** The same when the enumeration fails: Started, then Failed, both while it is the latest. */
  method LatestNavigationLifetimeFailed(t1: Location, t2: Location)
    returns (r1: NavigationRequest, r: NavigationRequest, log: seq<NavigationEvent>,
             ghost seen: seq<Option<NavigationRequest>>)
    ensures r1.target == t1 && r.target == t2
    ensures log == [Event(Started, r1), Event(WillCommit, r1), Event(Committed, r1)] + [Event(Started, r), Event(Failed, r)]
    ensures seen == Repeat(Some(r1), 3) + Repeat(Some(r), 2)
  {
    var m;
    m, r1 := LatestNavigationFixture(t1);
    r := m.StartNavigation(t2);
    assert m.pending == [PendingNavigation(r, true)] && !r.isInitial;
    assert m.MaybeGetLatestPendingNavigation() == Some(r);
    m.Complete(0, false);
    log, seen := m.log, m.latestAtEvent;
  }

  /** The same when it is stopped: Started, then Cancelled, both while it is the latest. */
  method LatestNavigationLifetimeCancelled(t1: Location, t2: Location)
    returns (r1: NavigationRequest, r: NavigationRequest, log: seq<NavigationEvent>,
             ghost seen: seq<Option<NavigationRequest>>)
    ensures r1.target == t1 && r.target == t2
    ensures log == [Event(Started, r1), Event(WillCommit, r1), Event(Committed, r1)] + [Event(Started, r), Event(Cancelled, r)]
    ensures seen == Repeat(Some(r1), 3) + Repeat(Some(r), 2)
  {
    var m;
    m, r1 := LatestNavigationFixture(t1);
    r := m.StartNavigation(t2);
    m.StopLoading();
    assert m.pending == [PendingNavigation(r, false)] && !r.isInitial;
    assert m.MaybeGetLatestPendingNavigation() == Some(r);
    m.Complete(0, true);
    log, seen := m.log, m.latestAtEvent;
  }
}
