/** Users do not disturb each other, and a call is accepted exactly when its own user has not used the step. */
module AuthIsolation {
  import opened Sequences
  import opened Decimals
  import opened AuthStore
  import opened AuthProtocol
  import opened AuthSingleUse
  import opened AuthRuns

  // ---- one transaction ----

  /** Two databases hold the same about one user. */
  ghost predicate AgreeOn(d: Db, e: Db, user: int) {
    && (IsActive(d, user) <==> IsActive(e, user))
    && (forall a: Attempt :: a.user == user ==> (a in d.attempts <==> a in e.attempts))
    && (forall k: int :: (user, k) in d.consumed <==> (user, k) in e.consumed)
  }

  /** A verify decision depends on the user's own rows only. */
  lemma DecisionIsOwn(d: Db, e: Db, user: int, token: string, step: Option<int>, clock: real)
    requires AgreeOn(d, e, user)
    ensures VerifyDecision(d, user, token, step, clock) == VerifyDecision(e, user, token, step, clock)
  {
    assert LegacyUse(d.attempts, user, token, clock) <==> LegacyUse(e.attempts, user, token, clock) by {
      LegacyIsOwn(d.attempts, e.attempts, user, token, clock);
      LegacyIsOwn(e.attempts, d.attempts, user, token, clock);
    }
    if step.Some? {
      var k := step.value;
      assert (user, k) in d.consumed <==> (user, k) in e.consumed;
    }
  }

  lemma LegacyIsOwn(d: seq<Attempt>, e: seq<Attempt>, user: int, token: string, clock: real)
    requires forall a: Attempt :: a.user == user ==> (a in d <==> a in e)
    ensures LegacyUse(d, user, token, clock) ==> LegacyUse(e, user, token, clock)
  {
  }

  lemma OtherVerify(db: Db, other: int, token: string, step: Option<int>, now: real, clock: real, user: int)
    requires user != other
    ensures AgreeOn(db, AfterVerify(db, other, token, step, now, clock), user)
  {
  }

  lemma OtherRecovery(db: Db, other: int, code: string, row: Option<int>, clock: real, user: int)
    requires user != other
    ensures AgreeOn(db, AfterRecovery(db, other, code, row, clock), user)
  {
  }

  lemma OtherEnroll(db: Db, name: string, secret: Secret, codes: seq<string>, user: int)
    requires 0 <= user < |db.users|
    ensures AgreeOn(db, AfterEnroll(db, name, secret, codes), user)
    ensures AfterEnroll(db, name, secret, codes).users[user] == db.users[user]
  {
  }

  lemma OtherRevoke(db: Db, name: string, user: int)
    requires UserNamed(db.users, name) != Some(user)
    ensures AgreeOn(db, AfterRevoke(db, name), user)
  {
  }

  /** What another user verifies, redeems, enrolls or has revoked changes no decision about this one. */
  lemma OthersChangeNothing(db: Db, after: Db, user: int, token: string, step: Option<int>, clock: real)
    requires 0 <= user < |db.users|
    requires || (exists other, t, st, now, c :: other != user && after == AfterVerify(db, other, t, st, now, c))
             || (exists other, t, row, c :: other != user && after == AfterRecovery(db, other, t, row, c))
             || (exists name, secret, codes :: after == AfterEnroll(db, name, secret, codes))
             || (exists name :: UserNamed(db.users, name) != Some(user) && after == AfterRevoke(db, name))
    ensures VerifyDecision(after, user, token, step, clock) == VerifyDecision(db, user, token, step, clock)
  {
    if other, t, st, now, c :| other != user && after == AfterVerify(db, other, t, st, now, c) {
      OtherVerify(db, other, t, st, now, c, user);
    } else if other, t, row, c :| other != user && after == AfterRecovery(db, other, t, row, c) {
      OtherRecovery(db, other, t, row, c, user);
    } else if name, secret, codes :| after == AfterEnroll(db, name, secret, codes) {
      OtherEnroll(db, name, secret, codes, user);
    } else {
      var name :| UserNamed(db.users, name) != Some(user) && after == AfterRevoke(db, name);
      OtherRevoke(db, name, user);
    }
    DecisionIsOwn(db, after, user, token, step, clock);
  }

  /** An accepted call consumes its own step, at the time its clock was read, and no other. */
  lemma ConsumesOwnStep(db: Db, user: int, token: string, step: Option<int>, now: real, clock: real, key: (int, int))
    ensures var after := AfterVerify(db, user, token, step, now, clock);
            var accepted := VerifyDecision(db, user, token, step, clock) == Accepted;
            && (key in after.consumed <==> key in db.consumed || (accepted && key == (user, step.value)))
            && (key in after.consumed ==>
                  after.consumed[key] == if accepted && key == (user, step.value) then now else db.consumed[key])
  {
  }

  /** A success from before the upgrade blocks its own token for the rest of its 90 s and nothing else. */
  lemma LegacyBlocksRepeat(db: Db, user: int, token: string, at: int, user': int, token': string, clock: real)
    ensures var row := Attempt(user, at, true, TotpPrint(user, token), None);
            LegacyUse(db.attempts + [row], user', token', clock)
            <==> LegacyUse(db.attempts, user', token', clock)
                 || (user' == user && token' == token && clock.Floor - at < 90)
  {
    var row := Attempt(user, at, true, TotpPrint(user, token), None);
    assert row in db.attempts + [row];
    if LegacyUse(db.attempts, user', token', clock) {
      var a :| a in db.attempts && a.user == user' && a.success && a.token == TotpPrint(user', token')
               && a.totpStep == None && a.at > clock.Floor - 90;
      assert a in db.attempts + [row];
    }
  }

  // ---- runs ----

  ghost predicate UsedStep(log: seq<Event>, user: int, step: int) {
    exists e :: e in log && e.TotpSuccess? && e.user == user && e.step == step
  }

  /** What is consumed was used by that user, and no attempt looks like one from before the upgrade. */
  ghost predicate OnlyOwn(st: Sys) {
    && (forall key :: key in st.db.consumed ==> UsedStep(st.log, key.0, key.1))
    && (forall a :: a in st.db.attempts && a.success && a.token.TotpPrint? ==> a.totpStep.Some?)
  }

  lemma UsedLater(log: seq<Event>, e: Event, user: int, step: int)
    requires UsedStep(log, user, step)
    ensures UsedStep(log + [e], user, step)
  {
    var u :| u in log && u.TotpSuccess? && u.user == user && u.step == step;
    assert u in log + [e];
  }

  lemma LogGrows(s: Settings, st: Sys, a: Action)
    ensures var log := Do(s, st, a).log;
            log == st.log || (|log| == |st.log| + 1 && log == st.log + [log[|st.log|]])
  {
  }

  lemma UsedAfter(s: Settings, st: Sys, a: Action, user: int, step: int)
    requires UsedStep(st.log, user, step)
    ensures UsedStep(Do(s, st, a).log, user, step)
  {
    LogGrows(s, st, a);
    if Do(s, st, a).log != st.log {
      UsedLater(st.log, Do(s, st, a).log[|st.log|], user, step);
    }
  }

  lemma VerifyKeepsOwn(st: Sys, caller: int)
    requires OnlyOwn(st) && caller in st.calls && st.calls[caller].Stepped?
    ensures OnlyOwn(DoVerify(st, caller, st.calls[caller]))
  {
    var p := st.calls[caller];
    var u := DoVerify(st, caller, p);
    var e := u.log[|st.log|];
    assert u.log == st.log + [e] && e in u.log;
    forall key | key in u.db.consumed ensures UsedStep(u.log, key.0, key.1) {
      ConsumesOwnStep(st.db, p.user, p.token, p.step, p.readAt, st.clock, key);
      if key in st.db.consumed {
        UsedLater(st.log, e, key.0, key.1);
      }
    }
  }

  lemma RecoveryKeepsOwn(st: Sys, caller: int)
    requires OnlyOwn(st) && caller in st.calls && st.calls[caller].Scanned?
    ensures OnlyOwn(DoRecovery(st, caller, st.calls[caller]))
  {
    var u := DoRecovery(st, caller, st.calls[caller]);
    var e := u.log[|st.log|];
    assert u.log == st.log + [e];
    forall key | key in u.db.consumed ensures UsedStep(u.log, key.0, key.1) {
      UsedLater(st.log, e, key.0, key.1);
    }
  }

  lemma TablesShrink(s: Settings, st: Sys, a: Action)
    requires !a.VerifyCommit? && !a.RecoveryCommit?
    ensures forall key :: key in Do(s, st, a).db.consumed ==> key in st.db.consumed
    ensures forall x :: x in Do(s, st, a).db.attempts ==> x in st.db.attempts
  {
    if a.Purge? {
      FilterMember(NotBefore(st.clock.Floor - a.days * DAY_SECONDS), st.db.attempts);
    }
  }

  lemma StepKeepsOwn(s: Settings, st: Sys, a: Action)
    requires OnlyOwn(st)
    ensures OnlyOwn(Do(s, st, a))
  {
    if a.VerifyCommit? {
      if a.caller in st.calls && st.calls[a.caller].Stepped? {
        VerifyKeepsOwn(st, a.caller);
      }
    } else if a.RecoveryCommit? {
      if a.caller in st.calls && st.calls[a.caller].Scanned? {
        RecoveryKeepsOwn(st, a.caller);
      }
    } else {
      TablesShrink(s, st, a);
      forall key | key in Do(s, st, a).db.consumed ensures UsedStep(Do(s, st, a).log, key.0, key.1) {
        UsedAfter(s, st, a, key.0, key.1);
      }
    }
  }

  lemma {:induction false} RunKeepsOwn(s: Settings, actions: seq<Action>)
    ensures OnlyOwn(Exec(s, actions))
  {
    if actions != [] {
      RunKeepsOwn(s, actions[..|actions| - 1]);
      StepKeepsOwn(s, Exec(s, actions[..|actions| - 1]), actions[|actions| - 1]);
    }
  }

  /** The verify call of this caller is about to commit. */
  ghost predicate AboutToCommit(st: Sys, c: int) {
    c in st.calls && st.calls[c].Stepped?
  }

  /** This call succeeds at its step. */
  ghost predicate Succeeds(st: Sys, c: int, u: Sys)
    requires AboutToCommit(st, c)
  {
    var p := st.calls[c];
    p.step.Some? && u.log == st.log + [TotpSuccess(p.user, p.step.value, p.readAt, st.clock)]
  }

  /** A matched step of an active user who has not used it is accepted, whatever other users did. */
  lemma FreshStepAccepted(s: Settings, run: seq<Action>, c: int)
    requires AboutToCommit(Exec(s, run), c)
    requires var st := Exec(s, run);
             var p := st.calls[c];
             IsActive(st.db, p.user) && p.step.Some? && !UsedStep(st.log, p.user, p.step.value)
    ensures Succeeds(Exec(s, run), c, Exec(s, run + [VerifyCommit(c)]))
  {
    var st := Exec(s, run);
    var p := st.calls[c];
    RunKeepsOwn(s, run);
    Extend(s, run, VerifyCommit(c));
    assert (p.user, p.step.value) !in st.db.consumed;
    assert !LegacyUse(st.db.attempts, p.user, p.token, st.clock);
    assert VerifyDecision(st.db, p.user, p.token, p.step, st.clock) == Accepted;
  }

  /** A call that is not active, or matched no step, does not succeed. */
  lemma SucceedsActive(st: Sys, c: int)
    requires AboutToCommit(st, c) && Succeeds(st, c, DoVerify(st, c, st.calls[c]))
    ensures IsActive(st.db, st.calls[c].user) && st.calls[c].step.Some?
  {
    var u := DoVerify(st, c, st.calls[c]);
    assert u.log[|st.log|].TotpSuccess?;
  }

  lemma SucceedsOnce(s: Settings, run: seq<Action>, c: int, longer: seq<Action>)
    requires longer == run + [VerifyCommit(c)]
    requires AboutToCommit(Exec(s, run), c) && StallsWithin(s, longer, MAX_STALL)
    requires Succeeds(Exec(s, run), c, Exec(s, longer))
    ensures !UsedStep(Exec(s, run).log, Exec(s, run).calls[c].user, Exec(s, run).calls[c].step.value)
  {
    var st := Exec(s, run);
    var p := st.calls[c];
    AtMostOneSuccessPerStep(s, longer);
    NotUsedTwice(st.log, p.user, p.step.value, p.readAt, st.clock);
  }

  /** The call's user is active, its token matched a step, and that user has not succeeded with the step. */
  ghost predicate Entitled(st: Sys, c: int)
    requires AboutToCommit(st, c)
  {
    var p := st.calls[c];
    IsActive(st.db, p.user) && p.step.Some? && !UsedStep(st.log, p.user, p.step.value)
  }

  /**
    In a run without long stalls a verify call succeeds if and only if its user is active, its token
    matched a step, and that same user has not succeeded with that step before.
  */
  lemma AcceptedExactly(s: Settings, run: seq<Action>, c: int)
    requires AboutToCommit(Exec(s, run), c) && StallsWithin(s, run + [VerifyCommit(c)], MAX_STALL)
    ensures Succeeds(Exec(s, run), c, Exec(s, run + [VerifyCommit(c)])) <==> Entitled(Exec(s, run), c)
  {
    var longer := run + [VerifyCommit(c)];
    if Succeeds(Exec(s, run), c, Exec(s, longer)) {
      SucceedsOnce(s, run, c, longer);
      Extend(s, run, VerifyCommit(c));
      SucceedsActive(Exec(s, run), c);
    }
    if Entitled(Exec(s, run), c) {
      FreshStepAccepted(s, run, c);
    }
  }

  lemma NotUsedTwice(log: seq<Event>, user: int, step: int, readAt: real, at: real)
    requires SingleUse(log + [TotpSuccess(user, step, readAt, at)])
    ensures !UsedStep(log, user, step)
  {
    var all := log + [TotpSuccess(user, step, readAt, at)];
    forall e | e in log ensures !(e.TotpSuccess? && e.user == user && e.step == step) {
      var i :| 0 <= i < |log| && log[i] == e;
      assert !SameUse(all[i], all[|log|]);
    }
  }

  // ---- two users at one step ----

  /** Digits that depend on the step alone, so both users are shown the same ones. */
  const SHARED := Settings(1, 60, 300, true, (seed: string, step: int) => Decimal(step))
  const BOB := User("bob", Readable("b"), true)
  const BOTH := Db([ANN, BOB], [], 0, [], map[])
  const NAMES := [Enrolled(0, 0)] + [Enrolled(1, 0)]

  function Login(c: int, name: string, k: int): seq<Action> {
    OpeningOf(c, name, Totp, Decimal(k)) + [ReadClock(c)] + [VerifyCommit(c)]
  }

  function Enrolling(t: real): seq<Action> {
    [Enroll("ann", Readable("k"), [])] + [Enroll("bob", Readable("b"), [])] + [Tick(t)]
  }

  lemma BothEnrolled(t: real)
    requires t >= 0.0
    ensures Exec(SHARED, Enrolling(t)) == Sys(BOTH, t, map[], NAMES)
  {
    EnrollAnn(SHARED, []);
    assert IssuedRows(0, 1, []) == [] && IssuedRows(1, 1, []) == [];
    Extend(SHARED, [Enroll("ann", Readable("k"), [])], Enroll("bob", Readable("b"), []));
    Extend(SHARED, [Enroll("ann", Readable("k"), [])] + [Enroll("bob", Readable("b"), [])], Tick(t));
  }

  lemma SharedMatch(seed: string, k: int, now: real)
    requires k >= 0 && StepAt(now) - 1 <= k <= StepAt(now) + 1
    ensures MatchStep(SHARED, seed, Decimal(k), now) == Some(k)
  {
    forall j | Matches(SHARED, seed, j, Decimal(k)) ensures j == k {
      DecimalInjective(j, k);
    }
    assert Matches(SHARED, seed, k, Decimal(k));
  }

  /** Nothing in flight, nothing but successes on record, and this user can log in with step `k`. */
  ghost predicate CanLogIn(st: Sys, name: string, user: int, k: int) {
    && st.calls == map[] && UserNamed(st.db.users, name) == Some(user)
    && st.db.users[user].active && st.db.users[user].secret.Readable?
    && (forall a :: a in st.db.attempts ==> a.success)
    && k >= 0 && StepAt(st.clock) - 1 <= k <= StepAt(st.clock) + 1 && !UsedStep(st.log, user, k)
  }

  function OpenedFor(st: Sys, c: int, user: int, k: int): Sys {
    st.(calls := map[c := Cleared(Totp, user, Decimal(k))])
  }

  function SteppedFor(st: Sys, c: int, user: int, k: int): Sys {
    st.(calls := map[c := Stepped(user, Decimal(k), st.clock, Some(k))])
  }

  lemma OpensLogin(run: seq<Action>, c: int, name: string, user: int, k: int)
    requires CanLogIn(Exec(SHARED, run), name, user, k)
    ensures Exec(SHARED, run + OpeningOf(c, name, Totp, Decimal(k))) == OpenedFor(Exec(SHARED, run), c, user, k)
  {
    var st := Exec(SHARED, run);
    FilterNone(FailureSince(user, st.clock.Floor - SHARED.window), st.db.attempts);
    OpenCallOf(SHARED, run, c, name, user, Totp, Decimal(k));
    assert st.calls[c := Cleared(Totp, user, Decimal(k))] == OpenedFor(st, c, user, k).calls;
  }

  lemma ReadsLogin(st: Sys, c: int, name: string, user: int, k: int)
    requires CanLogIn(st, name, user, k)
    ensures Do(SHARED, OpenedFor(st, c, user, k), ReadClock(c)) == SteppedFor(st, c, user, k)
  {
    SharedMatch(st.db.users[user].secret.seed, k, st.clock);
    assert OpenedFor(st, c, user, k).calls[c := Stepped(user, Decimal(k), st.clock, Some(k))]
        == SteppedFor(st, c, user, k).calls;
  }

  lemma CommitLeavesUsers(st: Sys, c: int, user: int, k: int)
    ensures var u := Do(SHARED, SteppedFor(st, c, user, k), VerifyCommit(c));
            && u.db.users == st.db.users && u.calls == map[] && u.clock == st.clock
            && (forall a :: a in u.db.attempts ==> a in st.db.attempts || a.success)
  {
    assert SteppedFor(st, c, user, k).calls - {c} == map[];
  }

  /** One login. */
  lemma LogsIn(run: seq<Action>, c: int, name: string, user: int, k: int, st: Sys)
    requires st == Exec(SHARED, run) && CanLogIn(st, name, user, k)
    ensures var u := Exec(SHARED, run + Login(c, name, k));
            && u.log == st.log + [TotpSuccess(user, k, st.clock, st.clock)]
            && u.db.users == st.db.users && u.calls == map[] && u.clock == st.clock
            && (forall a :: a in u.db.attempts ==> a.success)
  {
    var begun := run + OpeningOf(c, name, Totp, Decimal(k));
    var read := begun + [ReadClock(c)];
    OpensLogin(run, c, name, user, k);
    ReadsLogin(st, c, name, user, k);
    Extend(SHARED, begun, ReadClock(c));
    FreshStepAccepted(SHARED, read, c);
    Extend(SHARED, read, VerifyCommit(c));
    CommitLeavesUsers(st, c, user, k);
    assert run + Login(c, name, k) == read + [VerifyCommit(c)];
  }

  /** At every time, two users can each succeed once with the same step and the same digits. */
  lemma BothSucceed(t: real, k: int)
    requires t >= 0.0 && k >= 0 && StepAt(t) - 1 <= k <= StepAt(t) + 1
    ensures Exec(SHARED, Enrolling(t) + Login(1, "ann", k) + Login(2, "bob", k)).log
            == NAMES + [TotpSuccess(0, k, t, t)] + [TotpSuccess(1, k, t, t)]
  {
    BothEnrolled(t);
    assert UserNamed([ANN], "ann") == Some(0) && [ANN, BOB][..1] == [ANN];
    assert UserNamed([ANN, BOB], "ann") == Some(0) && UserNamed([ANN, BOB], "bob") == Some(1);
    LogsIn(Enrolling(t), 1, "ann", 0, k, Sys(BOTH, t, map[], NAMES));
    var st := Exec(SHARED, Enrolling(t) + Login(1, "ann", k));
    assert st.db.users == [ANN, BOB] && st.log == NAMES + [TotpSuccess(0, k, t, t)];
    LogsIn(Enrolling(t) + Login(1, "ann", k), 2, "bob", 1, k, st);
  }
}
