/** How long attempts must be retained for the backoff to keep its promise. */
module AuthRetention {
  import opened Sequences
  import opened AuthStore
  import opened AuthProtocol
  import opened AuthBackoff
  import opened AuthGuessBound
  import opened AuthRuns

  /** Delays longer than the window, and digits that never match. */
  function Strict(window: int): Settings {
    Settings(window, 2 * window, window, true, (seed: string, step: int) => "y")
  }

  /** A failure at second 0; a purge as soon as it is older than `days`; a second failure then. */
  function FirstFailure(): seq<Action> {
    [Enroll("ann", Readable("k"), [])] + Opening(1, Totp, "x") + [ReadClock(1)] + [VerifyCommit(1)]
  }

  function Forgotten(days: int): seq<Action> {
    FirstFailure() + [Tick(Expiry(days) as real)] + [Purge(days, Expiry(days) as real)]
  }

  function Waiting(days: int): seq<Action> {
    Forgotten(days) + Opening(2, Totp, "x") + [ReadClock(2)]
  }

  function SecondFailure(days: int): seq<Action> {
    Waiting(days) + [VerifyCommit(2)]
  }

  function Expiry(days: int): int { days * DAY_SECONDS + 1 }

  lemma NoMatch(s: Settings, window: int, st: Sys, c: int)
    requires s == Strict(window) && c in st.calls && st.calls[c] == Cleared(Totp, 0, "x") && st.db.users == [ANN]
    ensures Do(s, st, ReadClock(c)) == st.(calls := st.calls[c := Stepped(0, "x", st.clock, None)])
  {
    assert MatchStep(s, "k", "x", st.clock) == None;
  }

  lemma OpensFor(s: Settings, window: int, run: seq<Action>, c: int, log: seq<Event>, now: int)
    requires s == Strict(window) && Exec(s, run) == Sys(CLEAN, now as real, map[], log)
    ensures Exec(s, run + Opening(c, Totp, "x") + [ReadClock(c)])
            == Sys(CLEAN, now as real, map[c := Stepped(0, "x", now as real, None)], log)
  {
    assert UserNamed(CLEAN.users, "ann") == Some(0);
    OpenCall(s, run, c, Totp, "x");
    var begun := run + Opening(c, Totp, "x");
    NoMatch(s, window, Exec(s, begun), c);
    Extend(s, begun, ReadClock(c));
    assert map[c := Cleared(Totp, 0, "x")][c := Stepped(0, "x", now as real, None)]
        == map[c := Stepped(0, "x", now as real, None)];
  }

  /** One failing call of the user, from a state with no attempt in the table. */
  lemma FailOnce(s: Settings, window: int, run: seq<Action>, c: int, log: seq<Event>, now: int)
    requires s == Strict(window) && Exec(s, run) == Sys(CLEAN, now as real, map[], log)
    ensures Exec(s, run + Opening(c, Totp, "x") + [ReadClock(c)] + [VerifyCommit(c)])
            == Sys(CLEAN.(attempts := [Attempt(0, now, false, TotpPrint(0, "x"), None)]), now as real, map[],
                   log + [FailureRecorded(0, now)])
  {
    OpensFor(s, window, run, c, log, now);
    Extend(s, run + Opening(c, Totp, "x") + [ReadClock(c)], VerifyCommit(c));
    assert VerifyDecision(CLEAN, 0, "x", None, now as real) == Refused;
  }

  const FAILED := [Enrolled(0, 0)] + [FailureRecorded(0, 0)]

  lemma AfterFirst(window: int)
    ensures Exec(Strict(window), FirstFailure())
            == Sys(CLEAN.(attempts := [Attempt(0, 0, false, TotpPrint(0, "x"), None)]), 0.0, map[], FAILED)
  {
    EnrollAnn(Strict(window), []);
    assert IssuedRows(0, 1, []) == [];
    FailOnce(Strict(window), window, [Enroll("ann", Readable("k"), [])], 1, [Enrolled(0, 0)], 0);
  }

  lemma AfterExpiry(window: int, days: int)
    requires days >= 1
    ensures Exec(Strict(window), Forgotten(days)) == Sys(CLEAN, Expiry(days) as real, map[], FAILED)
  {
    var t := Expiry(days);
    AfterFirst(window);
    Extend(Strict(window), FirstFailure(), Tick(t as real));
    Extend(Strict(window), FirstFailure() + [Tick(t as real)], Purge(days, t as real));
    FilterNone(NotBefore(t - days * DAY_SECONDS), [Attempt(0, 0, false, TotpPrint(0, "x"), None)]);
  }

  lemma AfterSecond(window: int, days: int)
    requires days >= 1
    ensures Exec(Strict(window), SecondFailure(days)).log == FAILED + [FailureRecorded(0, Expiry(days))]
    ensures LogTimes(Exec(Strict(window), SecondFailure(days)).log, 0) == [0, Expiry(days)]
  {
    AfterExpiry(window, days);
    FailOnce(Strict(window), window, Forgotten(days), 2, FAILED, Expiry(days));
    LogTimesQuiet(FAILED, FailureRecorded(0, Expiry(days)), 0);
    LogTimesQuiet([Enrolled(0, 0)], FailureRecorded(0, 0), 0);
    LogTimesQuiet([], Enrolled(0, 0), 0);
    assert [] + [Enrolled(0, 0)] == [Enrolled(0, 0)];
  }

  // ---- the run is fresh ----

  lemma FreshStep(s: Settings, run: seq<Action>, a: Action, user: int)
    requires FreshCommits(s, run, user) && StaleCalls(s, run, user) == {}
    ensures FreshCommits(s, run + [a], user)
    ensures StaleCalls(s, run + [a], user) == NextStale(s, Exec(s, run), a, user, {})
  {
    assert (run + [a])[..|run + [a]| - 1] == run;
  }

  lemma FreshOne(s: Settings, run: seq<Action>, a: Action, longer: seq<Action>, user: int)
    requires FreshCommits(s, run, user) && StaleCalls(s, run, user) == {}
    requires !a.VerifyCommit? && !a.RecoveryCommit? && longer == run + [a]
    ensures FreshCommits(s, longer, user) && StaleCalls(s, longer, user) == {}
  {
    FreshStep(s, run, a, user);
    QuietLog(s, Exec(s, run), a, user);
  }

  lemma {:induction false} FreshQuiet(s: Settings, run: seq<Action>, more: seq<Action>, longer: seq<Action>, user: int)
    requires FreshCommits(s, run, user) && StaleCalls(s, run, user) == {} && longer == run + more
    requires forall a :: a in more ==> !a.VerifyCommit? && !a.RecoveryCommit?
    ensures FreshCommits(s, longer, user) && StaleCalls(s, longer, user) == {}
    decreases |more|
  {
    if more == [] {
      assert longer == run;
    } else {
      var init, a := more[..|more| - 1], more[|more| - 1];
      assert a in more && forall b :: b in init ==> b in more;
      assert longer == run + init + [a];
      FreshQuiet(s, run, init, run + init, user);
      FreshOne(s, run + init, a, longer, user);
    }
  }

  function FirstGuess(): seq<Action> {
    [Enroll("ann", Readable("k"), [])] + Opening(1, Totp, "x") + [ReadClock(1)]
  }

  lemma NoCallLeft(s: Settings, st: Sys, a: Action, user: int)
    requires Do(s, st, a).calls == map[]
    ensures NextStale(s, st, a, user, {}) == {}
  {
  }

  lemma FirstIsFresh(window: int)
    ensures FreshCommits(Strict(window), FirstFailure(), 0) && StaleCalls(Strict(window), FirstFailure(), 0) == {}
  {
    var s := Strict(window);
    assert FirstGuess() == [] + FirstGuess() && FirstFailure() == FirstGuess() + [VerifyCommit(1)];
    FreshQuiet(s, [], FirstGuess(), FirstGuess(), 0);
    FreshStep(s, FirstGuess(), VerifyCommit(1), 0);
    Extend(s, FirstGuess(), VerifyCommit(1));
    AfterFirst(window);
    NoCallLeft(s, Exec(s, FirstGuess()), VerifyCommit(1), 0);
  }

  function SecondGuess(days: int): seq<Action> {
    [Tick(Expiry(days) as real)] + [Purge(days, Expiry(days) as real)] + Opening(2, Totp, "x") + [ReadClock(2)]
  }

  lemma RunIsFresh(window: int, days: int)
    requires days >= 1
    ensures FreshCommits(Strict(window), SecondFailure(days), 0)
  {
    var s := Strict(window);
    FirstIsFresh(window);
    assert Waiting(days) == FirstFailure() + SecondGuess(days);
    FreshQuiet(s, FirstFailure(), SecondGuess(days), Waiting(days), 0);
    FreshStep(s, Waiting(days), VerifyCommit(2), 0);
  }

  predicate PurgesKeep(actions: seq<Action>, days: int) {
    forall a :: a in actions && a.Purge? ==> a.days >= days
  }

  /** What the backoff promises for a window when attempts are kept for at least `days` days. */
  ghost predicate SpacedWhenKept(window: int, days: int) {
    forall s: Settings, actions: seq<Action>, user: int ::
      s.reject && s.window == window && PurgesKeep(actions, days) && FreshCommits(s, actions, user) ==>
        Spaced(s, LogTimes(Exec(s, actions).log, user))
  }

  lemma NotSpaced(s: Settings, times: seq<int>, later: int)
    requires times == [0, later] && later < s.window && later < DelayFor(s, 1)
    ensures !Spaced(s, times)
  {
    assert !SpacedAt(s, times, 1, 1);
  }

  lemma WindowOutlivesPurge(window: int, days: int)
    requires days >= 1 && window > days * DAY_SECONDS + 1
    ensures !SpacedWhenKept(window, days)
  {
    var s, run := Strict(window), SecondFailure(days);
    AfterSecond(window, days);
    RunIsFresh(window, days);
    assert PurgesKeep(run, days);
    DelayOfOne(window);
    NotSpaced(s, LogTimes(Exec(s, run).log, 0), Expiry(days));
  }

  lemma DelayOfOne(window: int)
    ensures DelayFor(Strict(window), 1) == 2 * window
  {
    assert Doubled(window, 1) == 2 * Doubled(window, 0);
  }

  /**
    When every purge keeps attempts for at least `days` days, the backoff spaces failures for a window
    if and only if the window is at most one second longer than those days.
  */
  lemma RetentionExactly(window: int, days: int)
    requires days >= 1
    ensures SpacedWhenKept(window, days) <==> window <= days * DAY_SECONDS + 1
  {
    if window <= days * DAY_SECONDS + 1 {
      forall s: Settings, actions: seq<Action>, user: int
        | s.reject && s.window == window && PurgesKeep(actions, days) && FreshCommits(s, actions, user)
        ensures Spaced(s, LogTimes(Exec(s, actions).log, user))
      {
        assert RetainsWindow(s, actions);
        FailuresAreSpaced(s, actions, user);
      }
    } else {
      WindowOutlivesPurge(window, days);
    }
  }
}
