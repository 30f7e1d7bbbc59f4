/** The bound on TOTP successes is reached, and so is the least one. */
module AuthSuccessBound {
  import opened Sequences
  import opened Decimals
  import opened AuthStore
  import opened AuthProtocol
  import opened AuthSingleUse
  import opened AuthRuns

  /** Every step has its own digits. */
  const DISTINCT := Settings(1, 60, 300, true, (seed: string, step: int) => Decimal(step))

  /** One call that presents the digits of step `k`. */
  function Redeem(k: int): seq<Action> {
    Opening(1, Totp, Decimal(k)) + [ReadClock(1)] + [VerifyCommit(1)]
  }

  /** One user, no call in flight, nothing but successes on record, and every consumed step below `next`. */
  ghost predicate Ready(st: Sys, next: int) {
    && st.db.users == [ANN] && st.calls == map[]
    && (forall a :: a in st.db.attempts ==> a.success && a.totpStep.Some?)
    && (forall k :: (0, k) in st.db.consumed ==> k < next)
  }

  lemma MatchesItself(k: int, now: real)
    requires k >= 0 && StepAt(now) - 1 <= k <= StepAt(now) + 1
    ensures MatchStep(DISTINCT, "k", Decimal(k), now) == Some(k)
  {
    forall j | Matches(DISTINCT, "k", j, Decimal(k)) ensures j == k {
      DecimalInjective(j, k);
    }
    assert Matches(DISTINCT, "k", k, Decimal(k));
  }

  lemma NoFailures(attempts: seq<Attempt>, cutoff: int)
    requires forall a :: a in attempts ==> a.success
    ensures CountSince(attempts, 0, cutoff) == 0
  {
    FilterNone(FailureSince(0, cutoff), attempts);
  }

  function OpenedAt(st: Sys, k: int): Sys {
    st.(calls := map[1 := Cleared(Totp, 0, Decimal(k))])
  }

  function SteppedAt(st: Sys, k: int): Sys {
    st.(calls := map[1 := Stepped(0, Decimal(k), st.clock, Some(k))])
  }

  function RedeemedAt(st: Sys, k: int): Sys {
    Sys(AfterVerify(st.db, 0, Decimal(k), Some(k), st.clock, st.clock), st.clock, map[],
        st.log + [TotpSuccess(0, k, st.clock, st.clock)])
  }

  lemma ReadsStep(st: Sys, k: int)
    requires st.db.users == [ANN] && k >= 0 && StepAt(st.clock) - 1 <= k <= StepAt(st.clock) + 1
    ensures Do(DISTINCT, OpenedAt(st, k), ReadClock(1)) == SteppedAt(st, k)
  {
    MatchesItself(k, st.clock);
    assert OpenedAt(st, k).calls[1 := Stepped(0, Decimal(k), st.clock, Some(k))] == SteppedAt(st, k).calls;
  }

  lemma CommitsStep(st: Sys, k: int, next: int)
    requires Ready(st, next) && k >= next
    ensures Do(DISTINCT, SteppedAt(st, k), VerifyCommit(1)) == RedeemedAt(st, k)
    ensures Ready(RedeemedAt(st, k), k + 1)
  {
    assert VerifyDecision(st.db, 0, Decimal(k), Some(k), st.clock) == Accepted;
    assert SteppedAt(st, k).calls - {1} == map[];
  }

  lemma OpensFor(run: seq<Action>, k: int, next: int)
    requires Ready(Exec(DISTINCT, run), next)
    ensures Exec(DISTINCT, run + Opening(1, Totp, Decimal(k))) == OpenedAt(Exec(DISTINCT, run), k)
  {
    var st := Exec(DISTINCT, run);
    assert UserNamed([ANN], "ann") == Some(0);
    NoFailures(st.db.attempts, st.clock.Floor - DISTINCT.window);
    OpenCall(DISTINCT, run, 1, Totp, Decimal(k));
    assert st.calls[1 := Cleared(Totp, 0, Decimal(k))] == OpenedAt(st, k).calls;
  }

  lemma RedeemsFrom(run: seq<Action>, st: Sys, k: int, next: int)
    requires Exec(DISTINCT, run) == OpenedAt(st, k) && Ready(st, next) && k >= next && k >= 0
    requires StepAt(st.clock) - 1 <= k <= StepAt(st.clock) + 1
    ensures Exec(DISTINCT, run + [ReadClock(1)]) == SteppedAt(st, k)
    ensures Exec(DISTINCT, run + [ReadClock(1)] + [VerifyCommit(1)]) == RedeemedAt(st, k)
    ensures Ready(RedeemedAt(st, k), k + 1)
  {
    ReadsStep(st, k);
    CommitsStep(st, k, next);
    Extend(DISTINCT, run, ReadClock(1));
    Extend(DISTINCT, run + [ReadClock(1)], VerifyCommit(1));
  }

  lemma Redeems(run: seq<Action>, k: int, next: int)
    requires Ready(Exec(DISTINCT, run), next) && k >= next && k >= 0
    requires StepAt(Exec(DISTINCT, run).clock) - 1 <= k <= StepAt(Exec(DISTINCT, run).clock) + 1
    requires StallsWithin(DISTINCT, run, MAX_STALL)
    ensures Exec(DISTINCT, run + Redeem(k)) == RedeemedAt(Exec(DISTINCT, run), k)
    ensures Ready(Exec(DISTINCT, run + Redeem(k)), k + 1)
    ensures StallsWithin(DISTINCT, run + Redeem(k), MAX_STALL)
  {
    var begun := run + Opening(1, Totp, Decimal(k));
    OpensFor(run, k, next);
    RedeemsFrom(begun, Exec(DISTINCT, run), k, next);
    RedeemStalls(run, k);
    assert run + Redeem(k) == begun + [ReadClock(1)] + [VerifyCommit(1)];
  }

  lemma RedeemStalls(run: seq<Action>, k: int)
    requires StallsWithin(DISTINCT, run, MAX_STALL)
    requires Exec(DISTINCT, run + Opening(1, Totp, Decimal(k)) + [ReadClock(1)]) == SteppedAt(Exec(DISTINCT, run), k)
    ensures StallsWithin(DISTINCT, run + Redeem(k), MAX_STALL)
  {
    var more := Opening(1, Totp, Decimal(k)) + [ReadClock(1)];
    StallQuiet(DISTINCT, run, more, MAX_STALL);
    assert run + more == run + Opening(1, Totp, Decimal(k)) + [ReadClock(1)];
    StallStep(DISTINCT, run + more, VerifyCommit(1), MAX_STALL);
    assert run + Redeem(k) == run + more + [VerifyCommit(1)];
  }

  // ---- the run ----

  /** Previous, current and next step at `t`, then the next step at the start of each of `m` later steps. */
  function Climb(t: real, m: nat): seq<Action> {
    var c := StepAt(t);
    if m == 0 then Start(t) + Redeem(c - 1) + Redeem(c) + Redeem(c + 1)
    else Climb(t, m - 1) + [Tick(StartOf(c + m))] + Redeem(c + m + 1)
  }

  function Start(t: real): seq<Action> {
    [Enroll("ann", Readable("k"), [])] + [Tick(t)]
  }

  function StartOf(step: int): real { step as real * STEP_SECONDS }

  lemma StartStep(step: int)
    ensures StepAt(StartOf(step)) == step
  {
    assert StartOf(step) / STEP_SECONDS == step as real;
  }

  lemma StepSpan(t: real)
    ensures StartOf(StepAt(t)) <= t < StartOf(StepAt(t) + 1)
  {
    assert StepAt(t) as real <= t / STEP_SECONDS < (StepAt(t) + 1) as real;
  }

  lemma Started(t: real)
    requires t >= 0.0
    ensures Exec(DISTINCT, Start(t)) == Sys(CLEAN, t, map[], [Enrolled(0, 0)])
    ensures StallsWithin(DISTINCT, Start(t), MAX_STALL)
  {
    EnrollAnn(DISTINCT, []);
    assert IssuedRows(0, 1, []) == [];
    Extend(DISTINCT, [Enroll("ann", Readable("k"), [])], Tick(t));
    assert StallsWithin(DISTINCT, [], MAX_STALL);
    StallQuiet(DISTINCT, [], Start(t), MAX_STALL);
    assert [] + Start(t) == Start(t);
  }

  /** After the climb: `m + 3` successes, all read between `t` and `t2`, with nothing in flight. */
  ghost predicate Climbed(run: seq<Action>, t: real, t2: real, now: real, next: int, count: nat) {
    var st := Exec(DISTINCT, run);
    && Ready(st, next) && st.clock == now && StallsWithin(DISTINCT, run, MAX_STALL)
    && |Filter(SuccessBetween(0, t, t2), st.log)| == count
  }

  lemma OneMore(run: seq<Action>, t: real, t2: real, now: real, k: int, next: int, count: nat, count': nat)
    requires Climbed(run, t, t2, now, k, count) && t <= now <= t2 && k >= 0 && next == k + 1 && count' == count + 1
    requires StepAt(now) - 1 <= k <= StepAt(now) + 1
    ensures Climbed(run + Redeem(k), t, t2, now, next, count')
  {
    Redeems(run, k, k);
    var e := TotpSuccess(0, k, now, now);
    var log := Exec(DISTINCT, run).log;
    assert (log + [e])[..|log + [e]| - 1] == log;
  }

  lemma Later(run: seq<Action>, t: real, t2: real, now: real, next: int, count: nat, to: real)
    requires Climbed(run, t, t2, now, next, count) && to >= now
    ensures Climbed(run + [Tick(to)], t, t2, to, next, count)
  {
    Extend(DISTINCT, run, Tick(to));
    StallStep(DISTINCT, run, Tick(to), MAX_STALL);
  }

  lemma ThreeSteps(run: seq<Action>, t: real, t2: real, p: int, c: int, n: int, next: int)
    requires c == StepAt(t) >= 1 && p == c - 1 && n == c + 1 && next == c + 2 && t <= t2
    requires Climbed(run, t, t2, t, p, 0)
    ensures Climbed(run + Redeem(p) + Redeem(c) + Redeem(n), t, t2, t, next, 3)
  {
    OneMore(run, t, t2, t, p, c, 0, 1);
    OneMore(run + Redeem(p), t, t2, t, c, n, 1, 2);
    OneMore(run + Redeem(p) + Redeem(c), t, t2, t, n, next, 2, 3);
  }

  lemma ReadyAtStart(t: real, t2: real, p: int)
    requires t >= 0.0
    ensures Climbed(Start(t), t, t2, t, p, 0)
  {
    Started(t);
    assert [Enrolled(0, 0)][..0] == [];
  }

  lemma SecondStep(t: real)
    requires t >= STEP_SECONDS
    ensures StepAt(t) >= 1
  {
    assert t / STEP_SECONDS >= 1.0;
  }

  /** When the last climbed step is read. */
  function ClimbTime(t: real, m: nat): real {
    if m == 0 then t else StartOf(StepAt(t) + m)
  }

  lemma ClimbTimes(t: real, t2: real, m: nat)
    requires STEP_SECONDS <= t <= t2 && StepAt(t) + m <= StepAt(t2)
    ensures t <= ClimbTime(t, m) <= t2 && StepAt(ClimbTime(t, m)) == StepAt(t) + m
    ensures m > 0 ==> ClimbTime(t, m - 1) <= ClimbTime(t, m)
  {
    StepSpan(t);
    StepSpan(t2);
    StartStep(StepAt(t) + m);
  }

  lemma ClimbStep(run: seq<Action>, t: real, t2: real, now: real, to: real, k: int, next: int, count: nat, count': nat)
    requires Climbed(run, t, t2, now, k, count) && next == k + 1 && count' == count + 1 && k >= 0
    requires t <= now <= to <= t2 && StepAt(to) - 1 <= k <= StepAt(to) + 1
    ensures Climbed(run + [Tick(to)] + Redeem(k), t, t2, to, next, count')
  {
    Later(run, t, t2, now, k, count, to);
    OneMore(run + [Tick(to)], t, t2, to, k, next, count, count');
  }

  lemma ClimbUnfold(t: real, m: nat, n: nat, k: int)
    requires m == n + 1 && k == StepAt(t) + m + 1
    ensures Climb(t, m) == Climb(t, n) + [Tick(ClimbTime(t, m))] + Redeem(k)
  {
  }

  lemma ClimbBase(t: real, p: int, c: int, n: int)
    requires c == StepAt(t) && p == c - 1 && n == c + 1
    ensures Climb(t, 0) == Start(t) + Redeem(p) + Redeem(c) + Redeem(n)
  {
  }

  lemma ClimbStart(t: real, t2: real, next: int)
    requires STEP_SECONDS <= t <= t2 && next == StepAt(t) + 2
    ensures Climbed(Climb(t, 0), t, t2, t, next, 3)
  {
    var c := StepAt(t);
    var p, n := c - 1, c + 1;
    SecondStep(t);
    ReadyAtStart(t, t2, p);
    ThreeSteps(Start(t), t, t2, p, c, n, next);
    ClimbBase(t, p, c, n);
  }

  lemma {:induction false} ClimbCounts(t: real, t2: real, m: nat, next: int, count: nat)
    requires STEP_SECONDS <= t <= t2 && StepAt(t) + m <= StepAt(t2)
    requires next == StepAt(t) + m + 2 && count == m + 3
    ensures Climbed(Climb(t, m), t, t2, ClimbTime(t, m), next, count)
  {
    if m == 0 {
      ClimbStart(t, t2, next);
    } else {
      var n, k := m - 1, next - 1;
      ClimbCounts(t, t2, n, k, count - 1);
      ClimbTimes(t, t2, n);
      ClimbTimes(t, t2, m);
      ClimbUnfold(t, m, n, k);
      SecondStep(t);
      ClimbStep(Climb(t, n), t, t2, ClimbTime(t, n), ClimbTime(t, m), k, next, count - 1, count);
    }
  }

  /** From the second step on, whatever the interval, some run has as many successes as the bound allows. */
  lemma SuccessBoundReached(t1: real, t2: real) returns (run: seq<Action>)
    requires STEP_SECONDS <= t1 <= t2
    ensures StallsWithin(DISTINCT, run, MAX_STALL)
    ensures |Filter(SuccessBetween(0, t1, t2), Exec(DISTINCT, run).log)| == StepAt(t2) - StepAt(t1) + 3
  {
    StepMonotone(t1, t2);
    var m := StepAt(t2) - StepAt(t1);
    ClimbCounts(t1, t2, m, StepAt(t1) + m + 2, m + 3);
    run := Climb(t1, m);
  }

  ghost predicate AtMostSuccesses(bound: int, s: Settings, actions: seq<Action>, user: int, t1: real, t2: real) {
    StallsWithin(s, actions, MAX_STALL) ==> |Filter(SuccessBetween(user, t1, t2), Exec(s, actions).log)| <= bound
  }

  /** A number bounds the successes between t1 and t2 in every such run if and only if it is at least that. */
  lemma SuccessBoundExactly(t1: real, t2: real, bound: int)
    requires STEP_SECONDS <= t1 <= t2
    ensures (forall s: Settings, actions: seq<Action>, user: int :: AtMostSuccesses(bound, s, actions, user, t1, t2))
            <==> bound >= StepAt(t2) - StepAt(t1) + 3
  {
    if bound >= StepAt(t2) - StepAt(t1) + 3 {
      forall s: Settings, actions: seq<Action>, user: int
        ensures AtMostSuccesses(bound, s, actions, user, t1, t2)
      {
        if StallsWithin(s, actions, MAX_STALL) {
          SuccessesBounded(s, actions, user, t1, t2);
        }
      }
    } else {
      var run := SuccessBoundReached(t1, t2);
      assert !AtMostSuccesses(bound, DISTINCT, run, 0, t1, t2);
    }
  }
}
