/** How far the calls of one user may overlap before the backoff stops spacing their failures. */
module AuthOverlap {
  import opened Sequences
  import opened AuthStore
  import opened AuthProtocol
  import opened AuthBackoff
  import opened AuthGuessBound
  import opened AuthRuns

  /** The default delays, and digits that never match. */
  const DEFAULTS := Settings(1, 60, 300, true, (seed: string, step: int) => "y")

  // ---- two calls that overlap ----

  const ONE_WAITING := [Enroll("ann", Readable("k"), [])] + Opening(1, Totp, "x") + [ReadClock(1)]
  const TWO_WAITING := ONE_WAITING + Opening(2, Totp, "x") + [ReadClock(2)]
  const OVERLAP := TWO_WAITING + [VerifyCommit(1)] + [VerifyCommit(2)]
  const WAITING := Stepped(0, "x", 0.0, None)

  lemma TwoGuessesWaiting()
    ensures Exec(DEFAULTS, TWO_WAITING) == Sys(CLEAN, 0.0, map[1 := WAITING, 2 := WAITING], [Enrolled(0, 0)])
  {
    EnrollAnn(DEFAULTS, []);
    assert IssuedRows(0, 1, []) == [];
    var run := [Enroll("ann", Readable("k"), [])];
    assert UserNamed(CLEAN.users, "ann") == Some(0);
    assert StepAt(0.0) == 0 && MatchStep(DEFAULTS, "k", "x", 0.0) == None;
    OpenCall(DEFAULTS, run, 1, Totp, "x");
    Extend(DEFAULTS, run + Opening(1, Totp, "x"), ReadClock(1));
    assert Exec(DEFAULTS, ONE_WAITING) == Sys(CLEAN, 0.0, map[1 := WAITING], [Enrolled(0, 0)]);
    OpenCall(DEFAULTS, ONE_WAITING, 2, Totp, "x");
    Extend(DEFAULTS, ONE_WAITING + Opening(2, Totp, "x"), ReadClock(2));
  }

  const FAILED_ONCE := [Enrolled(0, 0)] + [FailureRecorded(0, 0)]

  lemma OneGuessFails()
    ensures Exec(DEFAULTS, TWO_WAITING + [VerifyCommit(1)]).log == FAILED_ONCE
    ensures Exec(DEFAULTS, TWO_WAITING + [VerifyCommit(1)]).calls == map[2 := WAITING]
    ensures Exec(DEFAULTS, TWO_WAITING + [VerifyCommit(1)]).clock == 0.0
    ensures Exec(DEFAULTS, TWO_WAITING + [VerifyCommit(1)]).db.users == [ANN]
  {
    TwoGuessesWaiting();
    Extend(DEFAULTS, TWO_WAITING, VerifyCommit(1));
  }

  lemma BothGuessesFail()
    ensures Exec(DEFAULTS, OVERLAP).log == FAILED_ONCE + [FailureRecorded(0, 0)]
  {
    OneGuessFails();
    Extend(DEFAULTS, TWO_WAITING + [VerifyCommit(1)], VerifyCommit(2));
  }

  lemma TwoTimes()
    ensures LogTimes(FAILED_ONCE + [FailureRecorded(0, 0)], 0) == [0, 0]
  {
    LogTimesQuiet([], Enrolled(0, 0), 0);
    assert [] + [Enrolled(0, 0)] == [Enrolled(0, 0)];
    LogTimesQuiet([Enrolled(0, 0)], FailureRecorded(0, 0), 0);
    LogTimesQuiet(FAILED_ONCE, FailureRecorded(0, 0), 0);
  }

  lemma TooClose()
    ensures !Spaced(DEFAULTS, [0, 0])
  {
    assert DelayFor(DEFAULTS, 1) == 2;
    assert !SpacedAt(DEFAULTS, [0, 0], 1, 1);
  }

  lemma NeverPurges()
    ensures RetainsWindow(DEFAULTS, OVERLAP)
  {
  }

  /** Two overlapping calls record two failures in one second, without the 2 s delay between them. */
  lemma OverlappingCallsSkipBackoff()
    ensures LogTimes(Exec(DEFAULTS, OVERLAP).log, 0) == [0, 0]
    ensures !Spaced(DEFAULTS, LogTimes(Exec(DEFAULTS, OVERLAP).log, 0))
    ensures !AtMostOneCall(Exec(DEFAULTS, TWO_WAITING), 0) && !FreshCommits(DEFAULTS, OVERLAP, 0)
  {
    TwoGuessesWaiting();
    var calls := Exec(DEFAULTS, TWO_WAITING).calls;
    assert calls[1].user == 0 && calls[2].user == 0;
    BothGuessesFail();
    TwoTimes();
    TooClose();
    NeverPurges();
    if FreshCommits(DEFAULTS, OVERLAP, 0) {
      FailuresAreSpaced(DEFAULTS, OVERLAP, 0);
    }
  }

  // ---- the bound on overlap ----

  ghost function CallsOf(st: Sys, user: int): set<int> {
    set c | c in st.calls && st.calls[c].user == user
  }

  /** At no moment of the run are more than `n` calls of the user in flight. */
  ghost predicate AtMostCalls(s: Settings, actions: seq<Action>, user: int, n: int) {
    && (actions != [] ==> AtMostCalls(s, actions[..|actions| - 1], user, n))
    && |CallsOf(Exec(s, actions), user)| <= n
  }

  lemma LoneCall(st: Sys, user: int)
    requires |CallsOf(st, user)| <= 1
    ensures AtMostOneCall(st, user)
  {
    forall c, d | c in CallsOf(st, user) && d in CallsOf(st, user) ensures c == d {
      if c != d {
        SubsetSize({c, d}, CallsOf(st, user));
      }
    }
    forall c | c in st.calls && st.calls[c].user == user ensures c in CallsOf(st, user) {
    }
  }

  lemma {:induction false} OneAtATime(s: Settings, actions: seq<Action>, user: int, n: int)
    requires AtMostCalls(s, actions, user, n) && n <= 1
    ensures SerialFor(s, actions, user)
  {
    if actions != [] {
      OneAtATime(s, actions[..|actions| - 1], user, n);
    }
    LoneCall(Exec(s, actions), user);
  }

  /** Which callers a run begins. */
  ghost predicate Begins(actions: seq<Action>, callers: set<int>) {
    forall a :: a in actions && a.Begin? ==> a.caller in callers
  }

  lemma {:induction false} CallersBegin(s: Settings, actions: seq<Action>, callers: set<int>)
    requires Begins(actions, callers)
    ensures Exec(s, actions).calls.Keys <= callers
  {
    if actions != [] {
      var init, a := actions[..|actions| - 1], actions[|actions| - 1];
      assert a in actions && forall b :: b in init ==> b in actions;
      CallersBegin(s, init, callers);
    }
  }

  lemma {:induction false} FewCallers(s: Settings, actions: seq<Action>, user: int, callers: set<int>, n: int)
    requires Begins(actions, callers) && |callers| <= n
    ensures AtMostCalls(s, actions, user, n)
  {
    if actions != [] {
      assert forall b :: b in actions[..|actions| - 1] ==> b in actions;
      FewCallers(s, actions[..|actions| - 1], user, callers, n);
    }
    CallersBegin(s, actions, callers);
    SubsetSize(CallsOf(Exec(s, actions), user), callers);
  }

  /** What the backoff promises when at most `n` calls of a user are in flight at a time. */
  ghost predicate SpacedWithOverlap(n: int) {
    forall s: Settings, actions: seq<Action>, user: int ::
      s.reject && RetainsWindow(s, actions) && AtMostCalls(s, actions, user, n) ==>
        Spaced(s, LogTimes(Exec(s, actions).log, user))
  }

  lemma TwoCallers()
    ensures Begins(OVERLAP, {1, 2}) && |{1, 2}| == 2
  {
  }

  lemma TwoAreTooMany(n: int)
    requires n >= 2
    ensures !SpacedWithOverlap(n)
  {
    OverlappingCallsSkipBackoff();
    TwoCallers();
    NeverPurges();
    FewCallers(DEFAULTS, OVERLAP, 0, {1, 2}, n);
  }

  /**
    Every run in reject mode that retains the backoff window and has at most `n` calls of a user in
    flight at a time keeps the user's failures spaced if and only if `n` is at most 1.
  */
  lemma OverlapExactly(n: int)
    ensures SpacedWithOverlap(n) <==> n <= 1
  {
    if n <= 1 {
      forall s: Settings, actions: seq<Action>, user: int
        | s.reject && RetainsWindow(s, actions) && AtMostCalls(s, actions, user, n)
        ensures Spaced(s, LogTimes(Exec(s, actions).log, user))
      {
        OneAtATime(s, actions, user, n);
        SerialCallsAreFresh(s, actions, user);
        FailuresAreSpaced(s, actions, user);
      }
    } else {
      TwoAreTooMany(n);
    }
  }
}
