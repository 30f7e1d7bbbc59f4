/** Over whole runs: what a rejection in reject mode promises, whatever else happens meanwhile. */
module AuthCooldown {
  import opened Sequences
  import opened AuthStore
  import opened AuthProtocol
  import opened AuthBackoff
  import opened AuthGuessBound

  /** The user's cooldown has not been extended: neither the delay owed nor the last failure grew. */
  ghost predicate Eases(s: Settings, st: Sys, u: Sys, user: int) {
    && u.clock >= st.clock
    && (Need(s, u, user) <= 0 || Need(s, u, user) <= Need(s, st, user))
    && LastFailure(u.db.attempts, user) <= LastFailure(st.db.attempts, user)
  }

  ghost predicate TimesCounted(st: Sys) {
    st.clock >= 0.0 && forall a :: a in st.db.attempts ==> a.at >= 0
  }

  lemma TimesStayCounted(s: Settings, st: Sys, a: Action)
    requires TimesCounted(st)
    ensures TimesCounted(Do(s, st, a))
  {
    var u := Do(s, st, a);
    if a.Purge? {
      FilterMember(NotBefore(st.clock.Floor - a.days * DAY_SECONDS), st.db.attempts);
    } else if u.db.attempts != st.db.attempts {
      CommitEffect(s, st, a);
    }
  }

  lemma {:induction false} RunTimesCounted(s: Settings, actions: seq<Action>)
    ensures TimesCounted(Exec(s, actions))
  {
    if actions != [] {
      RunTimesCounted(s, actions[..|actions| - 1]);
      TimesStayCounted(s, Exec(s, actions[..|actions| - 1]), actions[|actions| - 1]);
    }
  }

  /** Retention never moves the last failure forward. */
  lemma PurgeLowersLast(attempts: seq<Attempt>, user: int, cutoff: int)
    requires forall a :: a in attempts ==> a.at >= 0
    ensures LastFailure(Filter(NotBefore(cutoff), attempts), user) <= LastFailure(attempts, user)
  {
    var kept := Filter(NotBefore(cutoff), attempts);
    FilterMember(NotBefore(cutoff), attempts);
    FilterMember(FailureOf(user), attempts);
    FilterMember(FailureOf(user), kept);
    LatestIsMaximum(Filter(FailureOf(user), attempts));
    LatestIsMaximum(Filter(FailureOf(user), kept));
  }

  lemma EasesQuiet(s: Settings, st: Sys, a: Action, user: int)
    requires TimesCounted(st) && !a.VerifyCommit? && !a.RecoveryCommit?
    ensures Eases(s, st, Do(s, st, a), user)
  {
    var u := Do(s, st, a);
    QuietTables(s, st, a);
    NeedShrinks(s, st, u, user);
    if u.db.attempts != st.db.attempts {
      var cutoff :| u.db.attempts == Filter(NotBefore(cutoff), st.db.attempts);
      PurgeLowersLast(st.db.attempts, user, cutoff);
    }
  }

  lemma EasesCommit(s: Settings, st: Sys, u: Sys, row: Attempt, user: int)
    requires u.clock == st.clock && u.db.attempts == st.db.attempts + [row] && (row.user != user || row.success)
    ensures Eases(s, st, u, user)
  {
    OtherAttempt(st.db.attempts, row, user, st.clock.Floor - s.window);
  }

  /** A commit that adds a row to the attempts, but no failure of the user to the log. */
  lemma AddedRow(s: Settings, st: Sys, a: Action, user: int) returns (row: Attempt)
    requires a.VerifyCommit? || a.RecoveryCommit?
    requires Do(s, st, a).db.attempts != st.db.attempts
    requires LogTimes(Do(s, st, a).log, user) == LogTimes(st.log, user)
    ensures Do(s, st, a).clock == st.clock && Do(s, st, a).db.attempts == st.db.attempts + [row]
    ensures row.user != user || row.success
  {
    var u := Do(s, st, a);
    CommitEffect(s, st, a);
    LogTimesQuiet(st.log, u.log[|st.log|], user);
    row := u.db.attempts[|st.db.attempts|];
  }

  lemma CommitKeepsClock(s: Settings, st: Sys, a: Action)
    requires a.VerifyCommit? || a.RecoveryCommit?
    ensures Do(s, st, a).clock == st.clock
  {
  }

  lemma EasesSame(s: Settings, st: Sys, u: Sys, user: int)
    requires u.clock == st.clock && u.db.attempts == st.db.attempts
    ensures Eases(s, st, u, user)
  {
  }

  /** A step that records no failure of the user extends no cooldown of the user. */
  lemma EasesStep(s: Settings, st: Sys, a: Action, user: int)
    requires TimesCounted(st) && LogTimes(Do(s, st, a).log, user) == LogTimes(st.log, user)
    ensures Eases(s, st, Do(s, st, a), user)
  {
    if !a.VerifyCommit? && !a.RecoveryCommit? {
      EasesQuiet(s, st, a, user);
    } else if Do(s, st, a).db.attempts != st.db.attempts {
      var row := AddedRow(s, st, a, user);
      EasesCommit(s, st, Do(s, st, a), row, user);
    } else {
      CommitKeepsClock(s, st, a);
      EasesSame(s, st, Do(s, st, a), user);
    }
  }

  lemma EasesTrans(s: Settings, st: Sys, t: Sys, u: Sys, user: int)
    requires Eases(s, st, t, user) && Eases(s, t, u, user)
    ensures Eases(s, st, u, user)
  {
  }

  // ---- runs ----

  lemma LogTimesStep(s: Settings, st: Sys, a: Action, user: int)
    ensures LogTimes(st.log, user) <= LogTimes(Do(s, st, a).log, user)
  {
    var log := Do(s, st, a).log;
    if !a.VerifyCommit? && !a.RecoveryCommit? {
      QuietLog(s, st, a, user);
    } else if log != st.log {
      CommitEffect(s, st, a);
      LogTimesQuiet(st.log, log[|st.log|], user);
    }
  }

  /** One more step of a run. */
  lemma NextState(s: Settings, run: seq<Action>, a: Action, longer: seq<Action>)
    requires longer == run + [a]
    ensures Exec(s, longer) == Do(s, Exec(s, run), a)
  {
    assert longer[..|longer| - 1] == run;
  }

  lemma {:induction false} LogTimesGrow(s: Settings, before: seq<Action>, after: seq<Action>, now: seq<Action>,
                                        user: int)
    requires now == before + after
    ensures LogTimes(Exec(s, before).log, user) <= LogTimes(Exec(s, now).log, user)
    decreases |after|
  {
    if after == [] {
      assert now == before;
    } else {
      var shorter, a := after[..|after| - 1], after[|after| - 1];
      var mid := before + shorter;
      assert now == mid + [a];
      LogTimesGrow(s, before, shorter, mid, user);
      NextState(s, mid, a, now);
      LogTimesStep(s, Exec(s, mid), a, user);
    }
  }

  /** No failure of the user was recorded between two moments of a run. */
  ghost predicate NoFailureSince(s: Settings, before: seq<Action>, now: seq<Action>, user: int) {
    LogTimes(Exec(s, now).log, user) == LogTimes(Exec(s, before).log, user)
  }

  lemma Pinched(a: seq<int>, b: seq<int>, c: seq<int>)
    requires a <= b <= c && c == a
    ensures a == b == c
  {
  }

  /** Nor was any recorded before or after a moment in between. */
  lemma NoneInside(s: Settings, before: seq<Action>, left: seq<Action>, mid: seq<Action>, right: seq<Action>,
                   now: seq<Action>, user: int)
    requires mid == before + left && now == mid + right && NoFailureSince(s, before, now, user)
    ensures NoFailureSince(s, before, mid, user) && NoFailureSince(s, mid, now, user)
  {
    LogTimesGrow(s, before, left, mid, user);
    LogTimesGrow(s, mid, right, now, user);
    Pinched(LogTimes(Exec(s, before).log, user), LogTimes(Exec(s, mid).log, user), LogTimes(Exec(s, now).log, user));
  }

  lemma EasesNext(s: Settings, mid: seq<Action>, a: Action, now: seq<Action>, user: int)
    requires now == mid + [a] && NoFailureSince(s, mid, now, user)
    ensures Eases(s, Exec(s, mid), Exec(s, now), user)
  {
    NextState(s, mid, a, now);
    RunTimesCounted(s, mid);
    EasesStep(s, Exec(s, mid), a, user);
  }

  /**
    Over any continuation in which no failure of the user is recorded, whatever rejections, other
    users, successes and retention do, the cooldown is not extended.
  */
  lemma {:induction false} CooldownNeverGrows(s: Settings, before: seq<Action>, after: seq<Action>, now: seq<Action>,
                                              user: int)
    requires now == before + after && NoFailureSince(s, before, now, user)
    ensures Eases(s, Exec(s, before), Exec(s, now), user)
    decreases |after|
  {
    if after == [] {
      assert now == before;
    } else {
      var shorter, a := after[..|after| - 1], after[|after| - 1];
      var mid := before + shorter;
      assert now == mid + [a];
      NoneInside(s, before, shorter, mid, [a], now, user);
      CooldownNeverGrows(s, before, shorter, mid, user);
      EasesNext(s, mid, a, now, user);
      EasesTrans(s, Exec(s, before), Exec(s, mid), Exec(s, now), user);
    }
  }

  // ---- a rejected call ----

  /** The call's decision if it reached the gate now. */
  function GateOf(s: Settings, st: Sys, c: int): Gate
    requires c in st.calls && st.calls[c].Counted?
  {
    GateAt(s, st.db.attempts, st.calls[c].user, st.calls[c].backoff, st.clock)
  }

  ghost predicate Rejected(s: Settings, st: Sys, c: int) {
    c in st.calls && st.calls[c].Counted? && GateOf(s, st, c).Reject?
  }

  lemma RejectedStep(s: Settings, st: Sys, c: int, user: int)
    requires Rejected(s, st, c)
    ensures Do(s, st, Gated(c)).db == st.db
    ensures LogTimes(Do(s, st, Gated(c)).log, user) == LogTimes(st.log, user)
    ensures Do(s, st, Gated(c)).clock == st.clock
  {
    QuietLog(s, st, Gated(c), user);
  }

  /** A rejection records nothing for any user, so neither it nor what follows it extends a cooldown by itself. */
  lemma RejectionRecordsNothing(s: Settings, run: seq<Action>, c: int, after: seq<Action>, user: int)
    requires Rejected(s, Exec(s, run), c)
    requires NoFailureSince(s, run + [Gated(c)], run + [Gated(c)] + after, user)
    ensures Exec(s, run + [Gated(c)]).db == Exec(s, run).db
    ensures Eases(s, Exec(s, run), Exec(s, run + [Gated(c)] + after), user)
  {
    var gated := run + [Gated(c)];
    NextState(s, run, Gated(c), gated);
    RejectedStep(s, Exec(s, run), c, user);
    CooldownNeverGrows(s, gated, after, gated + after, user);
    SameCooldown(s, Exec(s, run), Exec(s, gated), Exec(s, gated + after), user);
  }

  lemma SameCooldown(s: Settings, st: Sys, t: Sys, u: Sys, user: int)
    requires t.db == st.db && t.clock == st.clock && Eases(s, t, u, user)
    ensures Eases(s, st, u, user)
  {
  }

  /** Between its count and its gate a call only waits. */
  lemma {:induction false} CountedStays(s: Settings, run: seq<Action>, mid: seq<Action>, now: seq<Action>, c: int)
    requires now == run + mid
    requires c in Exec(s, run).calls && Exec(s, run).calls[c].Counted? && Gated(c) !in mid
    ensures c in Exec(s, now).calls && Exec(s, now).calls[c] == Exec(s, run).calls[c]
    decreases |mid|
  {
    if mid == [] {
      assert now == run;
    } else {
      var shorter, a := mid[..|mid| - 1], mid[|mid| - 1];
      assert a in mid && Gated(c) !in shorter;
      assert now == run + shorter + [a];
      CountedStays(s, run, shorter, run + shorter, c);
      NextState(s, run + shorter, a, now);
    }
  }

  /** The run up to a call's gate: the call counts its failures, and other things happen. */
  function ToGate(run: seq<Action>, c: int, mid: seq<Action>): seq<Action> {
    run + [Count(c)] + mid
  }

  /** A call that is about to count its failures. */
  ghost predicate AboutToCount(st: Sys, c: int, user: int) {
    c in st.calls && st.calls[c].Resolved? && st.calls[c].user == user
  }

  lemma AtGate(s: Settings, run: seq<Action>, c: int, mid: seq<Action>, user: int)
    requires AboutToCount(Exec(s, run), c, user) && Gated(c) !in mid
    ensures var p, q := Exec(s, run).calls[c], Exec(s, ToGate(run, c, mid));
            && c in q.calls
            && q.calls[c] == Counted(p.kind, user, p.text, Need(s, Exec(s, run), user))
  {
    NextState(s, run, Count(c), run + [Count(c)]);
    CountedStays(s, run + [Count(c)], mid, ToGate(run, c, mid), c);
  }

  /** A delay that has not grown since the rejection has elapsed once the returned seconds have. */
  lemma GateOpensLater(s: Settings, attempts: seq<Attempt>, user: int, next: int, last: int, backoff: int,
                       gateAt: real, now: real)
    requires var remaining := (last + backoff) as real - gateAt;
             now >= gateAt + Ceil(remaining) as real
    requires (next <= 0 || next <= backoff) && LastFailure(attempts, user) <= last
    ensures GateAt(s, attempts, user, next, now) == Pass
  {
  }

  /**
    A call is rejected with a number of seconds. The next call that counts its failures at least so
    much later gets past the gate, if no failure of the user was recorded since the rejected call
    counted its own, whatever other users, successes, rejections and retention do in between.
  */
  lemma WaitSuffices(s: Settings, run: seq<Action>, c: int, mid: seq<Action>, after: seq<Action>,
                     d: int, mid': seq<Action>, user: int)
    requires AboutToCount(Exec(s, run), c, user) && Gated(c) !in mid && Gated(d) !in mid'
    requires Rejected(s, Exec(s, ToGate(run, c, mid)), c)
    requires var wait := GateOf(s, Exec(s, ToGate(run, c, mid)), c).wait;
             var waited := ToGate(run, c, mid) + [Gated(c)] + after;
             && Exec(s, waited).clock >= Exec(s, ToGate(run, c, mid)).clock + wait as real
             && AboutToCount(Exec(s, waited), d, user)
             && NoFailureSince(s, run, ToGate(waited, d, mid'), user)
    ensures var waited := ToGate(run, c, mid) + [Gated(c)] + after;
            var st := Exec(s, ToGate(waited, d, mid') + [Gated(d)]);
            d in st.calls && st.calls[d].Cleared? && st.calls[d].user == user
  {
    var gate := ToGate(run, c, mid);
    var waited := gate + [Gated(c)] + after;
    var last := ToGate(waited, d, mid');
    AtGate(s, run, c, mid, user);
    AtGate(s, waited, d, mid', user);
    RunParts(run, c, mid, after, d, mid');
    WaitEases(s, run, [Count(c)] + mid, gate, [Gated(c)] + after, waited, [Count(d)] + mid', last, user);
    NextPasses(s, Exec(s, gate), c, Exec(s, last), d, user);
    NextState(s, last, Gated(d), last + [Gated(d)]);
  }

  lemma RunParts(run: seq<Action>, c: int, mid: seq<Action>, after: seq<Action>, d: int, mid': seq<Action>)
    ensures var gate := ToGate(run, c, mid);
            var waited := gate + [Gated(c)] + after;
            && gate == run + ([Count(c)] + mid)
            && waited == gate + ([Gated(c)] + after)
            && ToGate(waited, d, mid') == waited + ([Count(d)] + mid')
  {
  }

  /** A call that is owed no more than the rejected one was passes once the returned seconds have gone by. */
  lemma NextPasses(s: Settings, st: Sys, c: int, u: Sys, d: int, user: int)
    requires Rejected(s, st, c) && st.calls[c].user == user
    requires u.clock >= st.clock + GateOf(s, st, c).wait as real
    requires d in u.calls && u.calls[d].Counted? && u.calls[d].user == user
    requires u.calls[d].backoff <= 0 || u.calls[d].backoff <= st.calls[c].backoff
    requires LastFailure(u.db.attempts, user) <= LastFailure(st.db.attempts, user)
    ensures var v := Do(s, u, Gated(d)); d in v.calls && v.calls[d].Cleared? && v.calls[d].user == user
  {
    GateOpensLater(s, u.db.attempts, user, u.calls[d].backoff, LastFailure(st.db.attempts, user),
                   st.calls[c].backoff, st.clock, u.clock);
  }

  /** Three stretches of a run in which no failure of the user is recorded. */
  lemma WaitEases(s: Settings, run: seq<Action>, a: seq<Action>, gate: seq<Action>, b: seq<Action>,
                  waited: seq<Action>, c: seq<Action>, last: seq<Action>, user: int)
    requires gate == run + a && waited == gate + b && last == waited + c && NoFailureSince(s, run, last, user)
    ensures Eases(s, Exec(s, run), Exec(s, waited), user)
    ensures Eases(s, Exec(s, gate), Exec(s, last), user)
    ensures Eases(s, Exec(s, waited), Exec(s, last), user)
  {
    assert last == gate + (b + c);
    NoneInside(s, run, a, gate, b + c, last, user);
    NoneInside(s, gate, b, waited, c, last, user);
    CooldownNeverGrows(s, run, a, gate, user);
    CooldownNeverGrows(s, gate, b, waited, user);
    CooldownNeverGrows(s, waited, c, last, user);
    EasesTrans(s, Exec(s, run), Exec(s, gate), Exec(s, waited), user);
    EasesTrans(s, Exec(s, gate), Exec(s, waited), Exec(s, last), user);
  }
}
