/** Single use of a time step, over every interleaving of calls and retention purges. */
module AuthSingleUse {
  import opened Sequences
  import opened AuthStore
  import opened AuthProtocol

  /** How long a verify call may wait between its clock reading and its transaction. */
  const MAX_STALL := 86370.0

  /** Every verify transaction of the run commits within `bound` seconds of the call's clock reading. */
  ghost predicate StallsWithin(s: Settings, actions: seq<Action>, bound: real) {
    actions != [] ==>
      var st, a := Exec(s, actions[..|actions| - 1]), actions[|actions| - 1];
      && StallsWithin(s, actions[..|actions| - 1], bound)
      && PromptAt(st, a, bound)
  }

  ghost predicate PromptAt(st: Sys, a: Action, bound: real) {
    a.VerifyCommit? && a.caller in st.calls && st.calls[a.caller].Stepped? ==>
      st.clock - st.calls[a.caller].readAt <= bound
  }

  ghost predicate SameUse(e: Event, f: Event) {
    e.TotpSuccess? && f.TotpSuccess? && e.user == f.user && e.step == f.step
  }

  ghost predicate SingleUse(log: seq<Event>) {
    forall i, j :: 0 <= i < j < |log| ==> !SameUse(log[i], log[j])
  }

  /** A step within one of the step of its clock reading, the validation window. */
  ghost predicate InWindow(step: int, readAt: real) {
    StepAt(readAt) - 1 <= step <= StepAt(readAt) + 1
  }

  /** A consumed step is still recorded, or so old that no prompt call can present it again. */
  ghost predicate Guarded(st: Sys, e: Event) {
    e.TotpSuccess? ==>
      && InWindow(e.step, e.readAt)
      && ((e.user, e.step) in st.db.consumed
          || (e.step + 1) as real * STEP_SECONDS <= st.clock - DAY_SECONDS as real)
  }

  ghost predicate Inv(st: Sys) {
    && SingleUse(st.log)
    && (forall e :: e in st.log ==> Guarded(st, e))
    && (forall c :: c in st.calls && st.calls[c].Stepped? ==>
          st.calls[c].readAt <= st.clock
          && (st.calls[c].step.Some? ==> InWindow(st.calls[c].step.value, st.calls[c].readAt)))
  }

  /** Retention drops a step only when it ended a whole day before the purge. */
  lemma PurgedStepIsOld(db: Db, days: int, readAt: real, clock: real, key: (int, int))
    requires days >= 1 && readAt <= clock && key in db.consumed
    ensures key in AfterPurge(db, days, readAt, clock).consumed
            || (key.1 + 1) as real * STEP_SECONDS <= clock - DAY_SECONDS as real
  {
    var horizon := readAt - (days * DAY_SECONDS) as real;
    if key !in AfterPurge(db, days, readAt, clock).consumed {
      assert key.1 + 1 <= StepAt(horizon);
      assert StepAt(horizon) as real <= horizon / STEP_SECONDS;
      assert (key.1 + 1) as real <= horizon / STEP_SECONDS;
    }
  }

  /** A step a call may present promptly is too recent to have been purged. */
  lemma PromptStepIsRecent(step: int, readAt: real, clock: real)
    requires InWindow(step, readAt) && clock - readAt <= MAX_STALL
    ensures (step + 1) as real * STEP_SECONDS > clock - DAY_SECONDS as real
  {
    assert (StepAt(readAt) + 1) as real > readAt / STEP_SECONDS;
    assert (step + 2) as real >= (StepAt(readAt) + 1) as real;
  }

  lemma VerifyKeepsInv(st: Sys, caller: int)
    requires Inv(st) && caller in st.calls && st.calls[caller].Stepped?
    requires st.clock - st.calls[caller].readAt <= MAX_STALL
    ensures Inv(DoVerify(st, caller, st.calls[caller]))
  {
    var p := st.calls[caller];
    var u := DoVerify(st, caller, p);
    if VerifyDecision(st.db, p.user, p.token, p.step, st.clock) == Accepted {
      PromptStepIsRecent(p.step.value, p.readAt, st.clock);
      forall e | e in st.log ensures Guarded(u, e) && !SameUse(e, u.log[|st.log|]) {
        assert Guarded(st, e);
      }
    }
  }

  lemma StepKeepsInv(s: Settings, st: Sys, a: Action)
    requires Inv(st)
    requires PromptAt(st, a, MAX_STALL)
    ensures Inv(Do(s, st, a))
  {
    if a.VerifyCommit? {
      if a.caller in st.calls && st.calls[a.caller].Stepped? {
        VerifyKeepsInv(st, a.caller);
      }
    } else if a.Purge? {
      if a.days >= 1 && a.readAt <= st.clock {
        forall e | e in st.log ensures Guarded(Do(s, st, a), e) {
          assert Guarded(st, e);
          if e.TotpSuccess? && (e.user, e.step) in st.db.consumed {
            PurgedStepIsOld(st.db, a.days, a.readAt, st.clock, (e.user, e.step));
          }
        }
      }
    } else {
      OtherStepKeepsInv(s, st, a);
    }
  }

  lemma OtherStepTables(s: Settings, st: Sys, a: Action)
    requires !a.VerifyCommit? && !a.Purge?
    ensures var u := Do(s, st, a);
            && u.db.consumed == st.db.consumed && u.clock >= st.clock
            && (u.log == st.log
                || (|u.log| == |st.log| + 1 && u.log == st.log + [u.log[|st.log|]]
                    && !u.log[|st.log|].TotpSuccess?))
  {
  }

  lemma OtherStepCalls(s: Settings, st: Sys, a: Action, c: int)
    requires Inv(st) && !a.VerifyCommit? && !a.Purge?
    requires c in Do(s, st, a).calls && Do(s, st, a).calls[c].Stepped?
    ensures var p := Do(s, st, a).calls[c];
            p.readAt <= Do(s, st, a).clock && (p.step.Some? ==> InWindow(p.step.value, p.readAt))
  {
  }

  lemma OtherStepKeepsInv(s: Settings, st: Sys, a: Action)
    requires Inv(st) && !a.VerifyCommit? && !a.Purge?
    ensures Inv(Do(s, st, a))
  {
    var u := Do(s, st, a);
    OtherStepTables(s, st, a);
    forall c | c in u.calls && u.calls[c].Stepped?
      ensures u.calls[c].readAt <= u.clock
      ensures u.calls[c].step.Some? ==> InWindow(u.calls[c].step.value, u.calls[c].readAt)
    {
      OtherStepCalls(s, st, a, c);
    }
    assert forall e :: e in st.log && Guarded(st, e) ==> Guarded(u, e);
  }

  lemma {:induction false} PromptRunInv(s: Settings, actions: seq<Action>)
    requires StallsWithin(s, actions, MAX_STALL)
    ensures Inv(Exec(s, actions))
  {
    if actions != [] {
      PromptRunInv(s, actions[..|actions| - 1]);
      StepKeepsInv(s, Exec(s, actions[..|actions| - 1]), actions[|actions| - 1]);
    }
  }

  /**
    At most one success per (user, time step), over every interleaving of calls and purges in which
    no verify call stalls for more than 86370 s.
  */
  lemma AtMostOneSuccessPerStep(s: Settings, actions: seq<Action>)
    requires StallsWithin(s, actions, MAX_STALL)
    ensures SingleUse(Exec(s, actions).log)
  {
    PromptRunInv(s, actions);
  }

  /** An invalid code reserves nothing: every later verify transaction is decided as if it had not been tried. */
  lemma InvalidNeverReserves(db: Db, user: int, token: string, now: real, clock: real,
                             user': int, token': string, step: Option<int>, clock': real)
    ensures var after := AfterVerify(db, user, token, None, now, clock);
            VerifyDecision(after, user', token', step, clock') == VerifyDecision(db, user', token', step, clock')
  {
    var after := AfterVerify(db, user, token, None, now, clock);
    if after.attempts != db.attempts {
      var a := Attempt(user, clock.Floor, false, TotpPrint(user, token), None);
      assert after.attempts == db.attempts + [a];
      assert LegacyUse(after.attempts, user', token', clock') <==> LegacyUse(db.attempts, user', token', clock');
    }
  }

  /** A recorded recovery attempt, valid or not, blocks the same code for the rest of its 90 s and no other code. */
  lemma RecoveryAttemptBlocksRepeat(db: Db, user: int, code: string, row: Option<int>, clock: real,
                                    user': int, code': string, clock': real)
    requires row.Some? ==> HasRow(db.codes, row.value)
    ensures var after := AfterRecovery(db, user, code, row, clock);
            RecentRecoveryUse(after.attempts, user', code', clock')
            <==> RecentRecoveryUse(db.attempts, user', code', clock')
                 || (user' == user && code' == code && clock'.Floor - clock.Floor < 90)
  {
    var after := AfterRecovery(db, user, code, row, clock);
    var a := Attempt(user, clock.Floor, row.Some?, RecoveryPrint(user, code), None);
    assert after.attempts == db.attempts + [a];
    assert a in after.attempts;
    if RecentRecoveryUse(db.attempts, user', code', clock') {
      var b :| b in db.attempts && b.user == user' && b.token == RecoveryPrint(user', code')
               && b.at > clock'.Floor - 90;
      assert b in after.attempts;
    }
  }

  // ---- counting bound ----

  function SuccessBetween(user: int, t1: real, t2: real): Event -> bool {
    (e: Event) => e.TotpSuccess? && e.user == user && t1 <= e.readAt <= t2
  }

  lemma {:induction false} DistinctInRange(events: seq<Event>, lo: int, hi: int) returns (steps: set<int>)
    requires SingleUse(events) && lo <= hi + 1
    requires forall e :: e in events ==> e.TotpSuccess? && lo <= e.step <= hi
    requires forall e, f :: e in events && f in events ==> e.user == f.user
    ensures steps == set e | e in events :: e.step
    ensures |steps| == |events|
  {
    steps := set e | e in events :: e.step;
    if events != [] {
      var init, last := events[..|events| - 1], events[|events| - 1];
      var inner := DistinctInRange(init, lo, hi);
      assert events == init + [last];
      forall e | e in init ensures e.step != last.step {
        var i :| 0 <= i < |init| && init[i] == e;
        assert !SameUse(events[i], events[|init|]);
        assert last in events && e in events;
      }
      assert steps == inner + {last.step};
    }
  }

  lemma {:induction false} RangeCardinality(steps: set<int>, lo: int, hi: int)
    requires lo <= hi + 1 && forall k :: k in steps ==> lo <= k <= hi
    ensures |steps| <= hi - lo + 1
    decreases hi + 1 - lo
  {
    if lo == hi + 1 {
      assert forall k :: k !in steps;
      assert steps == {};
    } else {
      RangeCardinality(steps - {hi}, lo, hi - 1);
      assert |steps| <= |steps - {hi}| + 1;
    }
  }

  lemma {:induction false} FilterKeepsSingleUse(p: Event -> bool, log: seq<Event>)
    requires SingleUse(log)
    ensures SingleUse(Filter(p, log))
  {
    if log != [] {
      var init, last := log[..|log| - 1], log[|log| - 1];
      FilterKeepsSingleUse(p, init);
      FilterMember(p, init);
      var kept := Filter(p, init);
      forall e | e in kept ensures !SameUse(e, last) {
        var i :| 0 <= i < |init| && init[i] == e;
        assert !SameUse(log[i], log[|init|]);
      }
    }
  }

  lemma StepMonotone(t: real, u: real)
    requires t <= u
    ensures StepAt(t) <= StepAt(u)
  {
    assert t / STEP_SECONDS <= u / STEP_SECONDS;
  }

  /** For clock readings between t1 and t2 a user gets at most floor(t2/30) - floor(t1/30) + 3 successes. */
  lemma SuccessesBounded(s: Settings, actions: seq<Action>, user: int, t1: real, t2: real)
    requires StallsWithin(s, actions, MAX_STALL) && t1 <= t2
    ensures |Filter(SuccessBetween(user, t1, t2), Exec(s, actions).log)| <= StepAt(t2) - StepAt(t1) + 3
  {
    PromptRunInv(s, actions);
    var log := Exec(s, actions).log;
    var p := SuccessBetween(user, t1, t2);
    var found := Filter(p, log);
    FilterMember(p, log);
    FilterKeepsSingleUse(p, log);
    StepMonotone(t1, t2);
    var lo, hi := StepAt(t1) - 1, StepAt(t2) + 1;
    forall e | e in found ensures lo <= e.step <= hi {
      assert Guarded(Exec(s, actions), e);
      StepMonotone(t1, e.readAt);
      StepMonotone(e.readAt, t2);
    }
    var steps := DistinctInRange(found, lo, hi);
    RangeCardinality(steps, lo, hi);
  }
}
