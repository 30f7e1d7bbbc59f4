/** Runs that show where the protocol's guarantees stop. */
module AuthLimits {
  import opened Sequences
  import opened AuthStore
  import opened AuthProtocol
  import opened AuthSingleUse
  import opened AuthRevocation
  import opened AuthRuns

  const CONFIG := Settings(1, 60, 300, true, (seed: string, step: int) => if step == 9 then "999999" else "000000")
  const CODE := "999999"

  // ---- a verify call that stalls ----

  /** Caller 1 redeems step 9 at second 241, while it is the next step. */
  const READING := [Enroll("ann", Readable("k"), [])] + [Tick(241.0)] + Opening(1, Totp, CODE) + [ReadClock(1)]
  const FIRST := READING + [VerifyCommit(1)]

  /** When caller 2 reads the clock: while step 9 is still the previous step, as late as a stall of `d` needs. */
  function ReadTime(d: real): real {
    if d - MAX_STALL < 1.0 then 330.0 - (d - MAX_STALL) else 329.0
  }

  function Stalled(d: real): seq<Action> {
    FIRST + [Tick(ReadTime(d))] + Opening(2, Totp, CODE) + [ReadClock(2)]
  }

  /** After `d` seconds a purge with one day of retention drops the consumed step, and caller 2 commits. */
  function Purged(d: real): seq<Action> {
    Stalled(d) + [Tick(ReadTime(d) + d)] + [Purge(1, ReadTime(d) + d)]
  }

  function Reuse(d: real): seq<Action> {
    Purged(d) + [VerifyCommit(2)]
  }

  const USED := Attempt(0, 241, true, TotpPrint(0, CODE), Some(9))
  const REDEEMED := Db([ANN], [], 0, [USED], map[(0, 9) := 241.0])
  const FIRST_LOG := [Enrolled(0, 0)] + [TotpSuccess(0, 9, 241.0, 241.0)]

  lemma ReadFirst()
    ensures Exec(CONFIG, READING) == Sys(CLEAN, 241.0, map[1 := Stepped(0, CODE, 241.0, Some(9))], [Enrolled(0, 0)])
  {
    EnrollAnn(CONFIG, []);
    assert IssuedRows(0, 1, []) == [];
    var run := [Enroll("ann", Readable("k"), [])] + [Tick(241.0)];
    Extend(CONFIG, [Enroll("ann", Readable("k"), [])], Tick(241.0));
    assert UserNamed(CLEAN.users, "ann") == Some(0);
    OpenCall(CONFIG, run, 1, Totp, CODE);
    Extend(CONFIG, run + Opening(1, Totp, CODE), ReadClock(1));
    assert StepAt(241.0) == 8 && MatchStep(CONFIG, "k", CODE, 241.0) == Some(9);
  }

  lemma RedeemFirst()
    ensures Exec(CONFIG, FIRST) == Sys(REDEEMED, 241.0, map[], FIRST_LOG)
  {
    ReadFirst();
    Extend(CONFIG, READING, VerifyCommit(1));
    assert VerifyDecision(CLEAN, 0, CODE, Some(9), 241.0) == Accepted;
  }

  function WaitingAt(d: real): Sys {
    Sys(REDEEMED, ReadTime(d), map[2 := Stepped(0, CODE, ReadTime(d), Some(9))], FIRST_LOG)
  }

  lemma AnnHasNoFailure(now: real)
    requires now > 0.0
    ensures UserNamed(REDEEMED.users, "ann") == Some(0) && CountSince(REDEEMED.attempts, 0, now.Floor - 300) == 0
  {
    FilterNone(FailureSince(0, now.Floor - 300), [USED]);
  }

  lemma ReadAsPrevious(st: Sys)
    requires 329.0 <= st.clock < 330.0
    requires st == Sys(REDEEMED, st.clock, map[2 := Cleared(Totp, 0, CODE)], FIRST_LOG)
    ensures Do(CONFIG, st, ReadClock(2)) == st.(calls := map[2 := Stepped(0, CODE, st.clock, Some(9))])
  {
    assert StepAt(st.clock) == 10 && MatchStep(CONFIG, "k", CODE, st.clock) == Some(9);
  }

  lemma Waited(d: real)
    requires d > MAX_STALL
    ensures Exec(CONFIG, FIRST + [Tick(ReadTime(d))]) == Sys(REDEEMED, ReadTime(d), map[], FIRST_LOG)
  {
    RedeemFirst();
    Extend(CONFIG, FIRST, Tick(ReadTime(d)));
  }

  lemma OpenSecond(d: real)
    requires d > MAX_STALL
    ensures Exec(CONFIG, FIRST + [Tick(ReadTime(d))] + Opening(2, Totp, CODE))
            == Sys(REDEEMED, ReadTime(d), map[2 := Cleared(Totp, 0, CODE)], FIRST_LOG)
  {
    Waited(d);
    AnnHasNoFailure(ReadTime(d));
    OpenCall(CONFIG, FIRST + [Tick(ReadTime(d))], 2, Totp, CODE);
  }

  lemma ReadSecond(d: real)
    requires d > MAX_STALL
    ensures Exec(CONFIG, Stalled(d)) == WaitingAt(d)
  {
    OpenSecond(d);
    Extend(CONFIG, FIRST + [Tick(ReadTime(d))] + Opening(2, Totp, CODE), ReadClock(2));
    ReadAsPrevious(Sys(REDEEMED, ReadTime(d), map[2 := Cleared(Totp, 0, CODE)], FIRST_LOG));
  }

  lemma StepForgotten(d: real)
    requires d > MAX_STALL
    ensures AfterPurge(REDEEMED, 1, ReadTime(d) + d, ReadTime(d) + d) == CLEAN
  {
    var now := ReadTime(d) + d;
    var horizon := now - 86400.0;
    assert horizon >= 300.0 && horizon / STEP_SECONDS >= 10.0 && StepAt(horizon) >= 10;
    assert now.Floor - 86400 >= 300;
    FilterNone(NotBefore(now.Floor - 86400), [USED]);
    assert AfterPurge(REDEEMED, 1, now, now).consumed == map[];
  }

  lemma PurgedState(d: real)
    requires d > MAX_STALL
    ensures Exec(CONFIG, Purged(d)) == WaitingAt(d).(db := CLEAN, clock := ReadTime(d) + d)
  {
    var now := ReadTime(d) + d;
    ReadSecond(d);
    StepForgotten(d);
    Extend(CONFIG, Stalled(d), Tick(now));
    Extend(CONFIG, Stalled(d) + [Tick(now)], Purge(1, now));
  }

  lemma SecondSuccess(d: real)
    requires d > MAX_STALL
    ensures Exec(CONFIG, Reuse(d)).log == FIRST_LOG + [TotpSuccess(0, 9, ReadTime(d), ReadTime(d) + d)]
    ensures !SingleUse(Exec(CONFIG, Reuse(d)).log)
  {
    PurgedState(d);
    Extend(CONFIG, Purged(d), VerifyCommit(2));
    assert VerifyDecision(CLEAN, 0, CODE, Some(9), ReadTime(d) + d) == Accepted;
    var log := Exec(CONFIG, Reuse(d)).log;
    assert log == FIRST_LOG + [TotpSuccess(0, 9, ReadTime(d), ReadTime(d) + d)];
    assert SameUse(log[1], log[2]);
  }

  lemma FirstStalls(bound: real)
    requires bound >= 0.0
    ensures StallsWithin(CONFIG, FIRST, bound)
  {
    assert StallsWithin(CONFIG, [], bound);
    StallQuiet(CONFIG, [], READING, bound);
    assert [] + READING == READING;
    ReadFirst();
    StallStep(CONFIG, READING, VerifyCommit(1), bound);
  }

  lemma PurgedStalls(d: real)
    requires d > MAX_STALL
    ensures StallsWithin(CONFIG, Purged(d), d)
  {
    var more := [Tick(ReadTime(d))] + Opening(2, Totp, CODE) + [ReadClock(2)]
                + [Tick(ReadTime(d) + d)] + [Purge(1, ReadTime(d) + d)];
    FirstStalls(d);
    StallQuiet(CONFIG, FIRST, more, d);
    assert FIRST + more == Purged(d);
  }

  lemma ReuseStalls(d: real)
    requires d > MAX_STALL
    ensures StallsWithin(CONFIG, Reuse(d), d)
  {
    PurgedStalls(d);
    PurgedState(d);
    StallStep(CONFIG, Purged(d), VerifyCommit(2), d);
  }

  /** A stall of any length beyond 86370 s, however little, can have a purged step accepted a second time. */
  lemma StalledCallReusesStep(d: real)
    requires d > MAX_STALL
    ensures StallsWithin(CONFIG, Reuse(d), d) && !SingleUse(Exec(CONFIG, Reuse(d)).log)
  {
    ReuseStalls(d);
    SecondSuccess(d);
  }

  /** Every run whose stalls are at most `bound` uses each step once if and only if `bound` is at most 86370 s. */
  lemma SingleUseExactly(bound: real)
    ensures (forall s: Settings, actions: seq<Action> ::
               StallsWithin(s, actions, bound) ==> SingleUse(Exec(s, actions).log))
            <==> bound <= MAX_STALL
  {
    if bound <= MAX_STALL {
      forall s: Settings, actions: seq<Action> | StallsWithin(s, actions, bound)
        ensures SingleUse(Exec(s, actions).log)
      {
        StallsLonger(s, actions, bound, MAX_STALL);
        AtMostOneSuccessPerStep(s, actions);
      }
    } else {
      StalledCallReusesStep(bound);
    }
  }

  lemma {:induction false} StallsLonger(s: Settings, actions: seq<Action>, short: real, long: real)
    requires StallsWithin(s, actions, short) && short <= long
    ensures StallsWithin(s, actions, long)
  {
    if actions != [] {
      StallsLonger(s, actions[..|actions| - 1], short, long);
    }
  }

  // ---- a recovery call already past identity resolution outlives revocation ----

  const REVOKED := [Enroll("ann", Readable("k"), ["r"])] + Opening(1, Recovery, "r") + [Revoke("ann")]
  const REDEEMING := REVOKED + [Screen(1)] + [Scan(1)] + [RecoveryCommit(1)]
  const ROW := CodeRow(1, 0, "r")
  const AFTER_REVOKE := Sys(Db([ANN.(active := false)], [ROW], 1, [], map[]), 0.0,
                            map[1 := Cleared(Recovery, 0, "r")], [Enrolled(0, 1)])

  lemma ClearedThenRevoked()
    ensures Exec(CONFIG, REVOKED) == AFTER_REVOKE
  {
    EnrollAnn(CONFIG, ["r"]);
    assert IssuedRows(0, 1, ["r"]) == [ROW];
    var run := [Enroll("ann", Readable("k"), ["r"])];
    assert UserNamed([ANN], "ann") == Some(0);
    OpenCall(CONFIG, run, 1, Recovery, "r");
    Extend(CONFIG, run + Opening(1, Recovery, "r"), Revoke("ann"));
    assert [ANN][0 := ANN.(active := false)] == [ANN.(active := false)];
  }

  /** A recovery code is accepted after its user's revocation has committed. */
  lemma RevokedUserRedeemsCode()
    ensures IsRevoked(Exec(CONFIG, REVOKED), 0) && CanRedeem(Exec(CONFIG, REVOKED), 0)
    ensures Exec(CONFIG, REDEEMING).log == Exec(CONFIG, REVOKED).log + [RecoverySuccess(0, 1, 0.0)]
  {
    ClearedThenRevoked();
    assert AFTER_REVOKE.calls[1].user == 0;
    Extend(CONFIG, REVOKED, Screen(1));
    Extend(CONFIG, REVOKED + [Screen(1)], Scan(1));
    assert Exec(CONFIG, REVOKED + [Screen(1)] + [Scan(1)])
        == AFTER_REVOKE.(calls := map[1 := Scanned(0, "r", Some(1))]);
    Extend(CONFIG, REVOKED + [Screen(1)] + [Scan(1)], RecoveryCommit(1));
    assert ROW in AFTER_REVOKE.db.codes && HasRow(AFTER_REVOKE.db.codes, 1);
  }
}
