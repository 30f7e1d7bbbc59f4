/** What the authentication tables hold after any run, and what retention takes from them. */
module AuthTables {
  import opened Sequences
  import opened AuthStore
  import opened AuthProtocol

  // ---- retention ----

  /** An attempt of the last `days` days, counted from the whole second of the purge. */
  function KeptAttempt(days: int, clock: real): Attempt -> bool {
    (a: Attempt) => clock.Floor - a.at <= days * 86400
  }

  /** A step used and over more than `days` days before the purge read its clock. */
  predicate LongOver(usedAt: real, step: int, days: int, readAt: real) {
    && usedAt < readAt - days as real * 86400.0
    && (step + 1) as real * 30.0 <= readAt - days as real * 86400.0
  }

  /** Retention keeps the attempts of the last days and drops the steps both used and over before them. */
  lemma PurgeExactly(db: Db, days: int, readAt: real, clock: real)
    ensures var after := AfterPurge(db, days, readAt, clock);
            && after.users == db.users && after.codes == db.codes && after.lastCode == db.lastCode
            && after.attempts == Filter(KeptAttempt(days, clock), db.attempts)
            && (forall k :: k in after.consumed <==> k in db.consumed && !LongOver(db.consumed[k], k.1, days, readAt))
            && (forall k :: k in after.consumed ==> after.consumed[k] == db.consumed[k])
  {
    FilterSame(NotBefore(clock.Floor - days * DAY_SECONDS), KeptAttempt(days, clock), db.attempts);
    var horizon := readAt - (days * DAY_SECONDS) as real;
    assert horizon == readAt - days as real * 86400.0;
    forall k | k in db.consumed
      ensures db.consumed[k] < horizon && k.1 < StepAt(horizon) <==> LongOver(db.consumed[k], k.1, days, readAt)
    {
      StepOver(k.1, horizon);
    }
  }

  lemma StepOver(step: int, horizon: real)
    ensures step < StepAt(horizon) <==> (step + 1) as real * 30.0 <= horizon
  {
    var q := horizon / STEP_SECONDS;
    assert q * 30.0 == horizon;
    assert step < q.Floor <==> (step + 1) as real <= q;
  }

  // ---- names ----

  ghost predicate UniqueNames(users: seq<User>) {
    forall i, j :: 0 <= i < j < |users| ==> users[i].name != users[j].name
  }

  lemma StepKeepsNames(s: Settings, st: Sys, a: Action)
    requires UniqueNames(st.db.users)
    ensures UniqueNames(Do(s, st, a).db.users)
    ensures |Do(s, st, a).db.users| >= |st.db.users|
    ensures forall i :: 0 <= i < |st.db.users| ==> Do(s, st, a).db.users[i].name == st.db.users[i].name
                                                   && Do(s, st, a).db.users[i].secret == st.db.users[i].secret
  {
  }

  lemma {:induction false} RunKeepsNames(s: Settings, actions: seq<Action>)
    ensures UniqueNames(Exec(s, actions).db.users)
  {
    if actions != [] {
      RunKeepsNames(s, actions[..|actions| - 1]);
      StepKeepsNames(s, Exec(s, actions[..|actions| - 1]), actions[|actions| - 1]);
    }
  }

  /** In every run no two users have one name, so a name resolves to its only user. */
  lemma NamesUnique(s: Settings, actions: seq<Action>, user: int)
    requires 0 <= user < |Exec(s, actions).db.users|
    ensures var users := Exec(s, actions).db.users;
            && UniqueNames(users)
            && UserNamed(users, users[user].name) == Some(user)
  {
    RunKeepsNames(s, actions);
  }

  // ---- attempts ----

  /** What an attempt row says about a login: whose, in which second, and whether it succeeded. */
  datatype Outline = Outline(user: int, at: int, success: bool)

  ghost function Outlines(attempts: seq<Attempt>): seq<Outline> {
    if attempts == [] then []
    else var a := attempts[|attempts| - 1];
         Outlines(attempts[..|attempts| - 1]) + [Outline(a.user, a.at, a.success)]
  }

  ghost function OutlineOf(e: Event): seq<Outline> {
    match e
    case TotpSuccess(user, _, _, at) => [Outline(user, at.Floor, true)]
    case RecoverySuccess(user, _, at) => [Outline(user, at.Floor, true)]
    case FailureRecorded(user, second) => [Outline(user, second, false)]
    case _ => []
  }

  /** The logins a log tells of, successes and recorded failures, in order. */
  ghost function TrailOf(log: seq<Event>): seq<Outline> {
    if log == [] then [] else TrailOf(log[..|log| - 1]) + OutlineOf(log[|log| - 1])
  }

  function From(second: int): Outline -> bool { (o: Outline) => o.at >= second }

  /** The second from which attempts are kept after one more action. */
  ghost function NextKept(st: Sys, a: Action, second: int): int {
    if a.Purge? && a.days >= 1 && a.readAt <= st.clock && st.clock.Floor - a.days * 86400 > second
    then st.clock.Floor - a.days * 86400 else second
  }

  /** The latest second before which some purge of the run dropped the attempts. */
  ghost function KeptFrom(s: Settings, actions: seq<Action>): int {
    if actions == [] then 0
    else var init := actions[..|actions| - 1];
         NextKept(Exec(s, init), actions[|actions| - 1], KeptFrom(s, init))
  }

  lemma {:induction false} OutlinesFilter(attempts: seq<Attempt>, second: int)
    ensures Outlines(Filter(NotBefore(second), attempts)) == Filter(From(second), Outlines(attempts))
  {
    if attempts != [] {
      var init, a := attempts[..|attempts| - 1], attempts[|attempts| - 1];
      OutlinesFilter(init, second);
      FilterAppend(From(second), Outlines(init), [Outline(a.user, a.at, a.success)]);
      OutlinesNext(Filter(NotBefore(second), init), a);
      FilterOne(From(second), Outline(a.user, a.at, a.success));
      var kept := Filter(NotBefore(second), init);
      assert Filter(NotBefore(second), attempts) == if a.at >= second then kept + [a] else kept;
    }
  }

  lemma OutlinesNext(attempts: seq<Attempt>, a: Attempt)
    ensures Outlines(attempts + [a]) == Outlines(attempts) + [Outline(a.user, a.at, a.success)]
  {
    assert (attempts + [a])[..|attempts + [a]| - 1] == attempts;
  }

  lemma FilterOne<T(!new)>(p: T -> bool, x: T)
    ensures Filter(p, [x]) == if p(x) then [x] else []
  {
    assert [x][..0] == [];
  }

  lemma TrailNext(log: seq<Event>, e: Event)
    ensures TrailOf(log + [e]) == TrailOf(log) + OutlineOf(e)
  {
    assert (log + [e])[..|log + [e]| - 1] == log;
  }

  /** Keeping from one second and then from another is keeping from the later one. */
  lemma {:induction false} FromBoth(rows: seq<Outline>, k: int, l: int)
    ensures Filter(From(l), Filter(From(k), rows)) == Filter(From(if k < l then l else k), rows)
  {
    FilterBoth(From(k), From(l), From(if k < l then l else k), rows);
  }

  /** The table holds exactly the trail from a second on, and the clock has reached that second. */
  ghost predicate HoldsTrail(st: Sys, second: int) {
    && 0 <= second <= st.clock.Floor
    && Outlines(st.db.attempts) == Filter(From(second), TrailOf(st.log))
  }

  /** A step that writes one attempt and logs the same login. */
  ghost predicate Logs(st: Sys, u: Sys, a: Attempt, e: Event) {
    && u.clock == st.clock && a.at == st.clock.Floor
    && u.log == st.log + [e] && u.db.attempts == st.db.attempts + [a]
    && OutlineOf(e) == [Outline(a.user, a.at, a.success)]
  }

  /** A step that writes no attempt and logs no login. */
  ghost predicate Quiet(st: Sys, u: Sys) {
    && u.clock >= st.clock && u.db.attempts == st.db.attempts
    && st.log <= u.log && |u.log| <= |st.log| + 1
    && (|u.log| > |st.log| ==> OutlineOf(u.log[|st.log|]) == [])
  }

  lemma LogsKeeps(st: Sys, u: Sys, second: int, a: Attempt, e: Event)
    requires HoldsTrail(st, second) && Logs(st, u, a, e)
    ensures HoldsTrail(u, second)
  {
    TrailNext(st.log, e);
    OutlinesNext(st.db.attempts, a);
    FilterAppend(From(second), TrailOf(st.log), [Outline(a.user, a.at, a.success)]);
    FilterOne(From(second), Outline(a.user, a.at, a.success));
  }

  lemma QuietKeeps(st: Sys, u: Sys, second: int)
    requires HoldsTrail(st, second) && Quiet(st, u)
    ensures HoldsTrail(u, second)
  {
    QuietTrail(st.log, u.log);
  }

  lemma QuietTrail(log: seq<Event>, longer: seq<Event>)
    requires log <= longer && |longer| <= |log| + 1 && (|longer| > |log| ==> OutlineOf(longer[|log|]) == [])
    ensures TrailOf(longer) == TrailOf(log)
  {
    if |longer| > |log| {
      var e := longer[|log|];
      assert longer == log + [e];
      TrailNext(log, e);
      assert TrailOf(log) + [] == TrailOf(log);
    } else {
      assert longer == log;
    }
  }

  lemma VerifyLogs(st: Sys, c: int, p: Phase)
    requires p.Stepped?
    ensures var u := DoVerify(st, c, p);
            Quiet(st, u)
            || (|u.db.attempts| > |st.db.attempts| && |u.log| > |st.log|
                && Logs(st, u, u.db.attempts[|st.db.attempts|], u.log[|st.log|]))
  {
  }

  lemma RecoveryLogs(st: Sys, c: int, p: Phase)
    requires p.Scanned?
    ensures var u := DoRecovery(st, c, p);
            Quiet(st, u)
            || (|u.db.attempts| > |st.db.attempts| && |u.log| > |st.log|
                && Logs(st, u, u.db.attempts[|st.db.attempts|], u.log[|st.log|]))
  {
  }

  lemma OthersQuiet(s: Settings, st: Sys, a: Action)
    requires !a.VerifyCommit? && !a.RecoveryCommit? && !a.Purge?
    ensures Quiet(st, Do(s, st, a))
  {
  }

  lemma VerifyLogged(st: Sys, c: int, p: Phase, second: int)
    requires HoldsTrail(st, second) && p.Stepped?
    ensures HoldsTrail(DoVerify(st, c, p), second)
  {
    var u := DoVerify(st, c, p);
    VerifyLogs(st, c, p);
    if Quiet(st, u) {
      QuietKeeps(st, u, second);
    } else {
      LogsKeeps(st, u, second, u.db.attempts[|st.db.attempts|], u.log[|st.log|]);
    }
  }

  lemma RecoveryLogged(st: Sys, c: int, p: Phase, second: int)
    requires HoldsTrail(st, second) && p.Scanned?
    ensures HoldsTrail(DoRecovery(st, c, p), second)
  {
    var u := DoRecovery(st, c, p);
    RecoveryLogs(st, c, p);
    if Quiet(st, u) {
      QuietKeeps(st, u, second);
    } else {
      LogsKeeps(st, u, second, u.db.attempts[|st.db.attempts|], u.log[|st.log|]);
    }
  }

  lemma PurgeTrail(st: Sys, second: int, days: int, readAt: real)
    requires HoldsTrail(st, second) && days >= 1
    ensures var cutoff := st.clock.Floor - days * 86400;
            HoldsTrail(st.(db := AfterPurge(st.db, days, readAt, st.clock)), if second < cutoff then cutoff else second)
  {
    var cutoff := st.clock.Floor - days * DAY_SECONDS;
    OutlinesFilter(st.db.attempts, cutoff);
    FromBoth(TrailOf(st.log), second, cutoff);
  }

  lemma CommitResult(s: Settings, st: Sys, a: Action)
    requires a.VerifyCommit? || a.RecoveryCommit?
    ensures || Do(s, st, a) == st
            || (a.caller in st.calls && st.calls[a.caller].Stepped?
                && Do(s, st, a) == DoVerify(st, a.caller, st.calls[a.caller]))
            || (a.caller in st.calls && st.calls[a.caller].Scanned?
                && Do(s, st, a) == DoRecovery(st, a.caller, st.calls[a.caller]))
  {
  }

  lemma CommitLogged(s: Settings, st: Sys, a: Action, second: int)
    requires HoldsTrail(st, second) && (a.VerifyCommit? || a.RecoveryCommit?)
    ensures HoldsTrail(Do(s, st, a), second)
  {
    CommitResult(s, st, a);
    if Do(s, st, a) != st {
      var p := st.calls[a.caller];
      if p.Stepped? {
        VerifyLogged(st, a.caller, p, second);
      } else {
        RecoveryLogged(st, a.caller, p, second);
      }
    }
  }

  lemma OtherLogged(s: Settings, st: Sys, a: Action, second: int)
    requires HoldsTrail(st, second) && !a.VerifyCommit? && !a.RecoveryCommit? && !a.Purge?
    ensures HoldsTrail(Do(s, st, a), second)
  {
    OthersQuiet(s, st, a);
    QuietKeeps(st, Do(s, st, a), second);
  }

  lemma PurgeLogged(s: Settings, st: Sys, a: Action, second: int)
    requires HoldsTrail(st, second) && a.Purge?
    ensures HoldsTrail(Do(s, st, a), NextKept(st, a, second))
  {
    if a.days >= 1 && a.readAt <= st.clock {
      PurgeTrail(st, second, a.days, a.readAt);
    }
  }

  lemma StepLogged(s: Settings, st: Sys, a: Action, second: int)
    requires HoldsTrail(st, second)
    ensures HoldsTrail(Do(s, st, a), NextKept(st, a, second))
  {
    if a.Purge? {
      PurgeLogged(s, st, a, second);
    } else {
      assert NextKept(st, a, second) == second;
      if a.VerifyCommit? || a.RecoveryCommit? {
        CommitLogged(s, st, a, second);
      } else {
        OtherLogged(s, st, a, second);
      }
    }
  }

  /**
    After any run the attempts table tells exactly of the logins of the log from the last retention
    cutoff on: every success and every recorded failure once, in order, and nothing else.
  */
  lemma {:induction false} AttemptsAreTrail(s: Settings, actions: seq<Action>)
    ensures HoldsTrail(Exec(s, actions), KeptFrom(s, actions))
  {
    if actions != [] {
      AttemptsAreTrail(s, actions[..|actions| - 1]);
      StepLogged(s, Exec(s, actions[..|actions| - 1]), actions[|actions| - 1], KeptFrom(s, actions[..|actions| - 1]));
    }
  }
}
