/** The rate at which one user's failures can be recorded, over TOTP and recovery attempts together. */
module AuthGuessBound {
  import opened Sequences
  import opened AuthStore
  import opened AuthProtocol
  import opened AuthBackoff

  lemma PhaseOkLater(s: Settings, st: Sys, u: Sys, user: int, p: Phase)
    requires u.clock >= st.clock
    requires u.db.attempts == st.db.attempts
             || exists cutoff :: u.db.attempts == Filter(NotBefore(cutoff), st.db.attempts)
    requires PhaseOk(s, st, user, p)
    ensures PhaseOk(s, u, user, p)
  {
    NeedShrinks(s, st, u, user);
  }

  lemma {:induction false} LogTimesQuiet(log: seq<Event>, e: Event, user: int)
    ensures LogTimes(log + [e], user)
            == LogTimes(log, user) + (if e.FailureRecorded? && e.user == user then [e.second] else [])
  {
    assert (log + [e])[..|log + [e]| - 1] == log;
  }

  /** The attempts of `u` are those of `st`, less some that no later backoff window reaches. */
  ghost predicate Kept(s: Settings, st: Sys, u: Sys) {
    || u.db.attempts == st.db.attempts
    || exists cutoff :: cutoff <= KeptFrom(s, st) && u.db.attempts == Filter(NotBefore(cutoff), st.db.attempts)
  }

  lemma FilterLater(table: seq<int>, table': seq<int>, times: seq<int>, k: int, l: int)
    requires k <= l && Filter(AtLeast(k), table') == Filter(AtLeast(k), table) == Filter(AtLeast(k), times)
    ensures Filter(AtLeast(l), table') == Filter(AtLeast(l), times)
  {
    FilterTwice(k, l, table');
    FilterTwice(k, l, times);
  }

  lemma TableFaithfulLater(s: Settings, st: Sys, u: Sys, user: int)
    requires TableFaithful(s, st, user) && u.clock >= st.clock && Kept(s, st, u)
    requires LogTimes(u.log, user) == LogTimes(st.log, user)
    ensures TableFaithful(s, u, user)
  {
    var before, after := TableTimes(st.db.attempts, user), TableTimes(u.db.attempts, user);
    if u.db.attempts != st.db.attempts {
      var cutoff :| cutoff <= KeptFrom(s, st) && u.db.attempts == Filter(NotBefore(cutoff), st.db.attempts);
      PurgeTimes(st.db.attempts, user, cutoff);
      FilterTwice(cutoff, KeptFrom(s, st), before);
    }
    FilterLater(before, after, LogTimes(st.log, user), KeptFrom(s, st), KeptFrom(s, u));
  }

  /** A step that records nothing and advances calls only in ways their phase is owed. */
  lemma QuietStepInv(s: Settings, st: Sys, u: Sys, user: int, stale: set<int>, stale': set<int>)
    requires BackoffInv(s, st, user, stale) && u.clock >= st.clock && Kept(s, st, u)
    requires LogTimes(u.log, user) == LogTimes(st.log, user)
    requires forall c :: c in u.calls && c !in stale' && u.calls[c].user == user ==> PhaseOk(s, st, user, u.calls[c])
    ensures BackoffInv(s, u, user, stale')
  {
    TableFaithfulLater(s, st, u, user);
    forall c | c in u.calls && c !in stale' && u.calls[c].user == user
      ensures PhaseOk(s, u, user, u.calls[c])
    {
      PhaseOkLater(s, st, u, user, u.calls[c]);
    }
  }

  /** The gate in reject mode turns the computed delay into an elapsed one. */
  lemma GatePasses(s: Settings, st: Sys, user: int, p: Phase)
    requires s.reject && p.Counted? && PhaseOk(s, st, user, p)
    requires GateAt(s, st.db.attempts, user, p.backoff, st.clock) == Pass
    ensures CooledDown(s, st, user)
  {
  }

  lemma QuietEvents(s: Settings, st: Sys, a: Action)
    requires !a.VerifyCommit? && !a.RecoveryCommit?
    ensures var log := Do(s, st, a).log;
            log == st.log
            || (|log| == |st.log| + 1 && log == st.log + [log[|st.log|]] && !log[|st.log|].FailureRecorded?)
  {
  }

  lemma QuietLog(s: Settings, st: Sys, a: Action, user: int)
    requires !a.VerifyCommit? && !a.RecoveryCommit?
    ensures LogTimes(Do(s, st, a).log, user) == LogTimes(st.log, user)
  {
    var log := Do(s, st, a).log;
    QuietEvents(s, st, a);
    if log != st.log {
      LogTimesQuiet(st.log, log[|st.log|], user);
    }
  }

  lemma QuietTables(s: Settings, st: Sys, a: Action)
    requires !a.VerifyCommit? && !a.RecoveryCommit?
    ensures var u := Do(s, st, a);
            && u.clock >= st.clock
            && (u.db.attempts == st.db.attempts
                || exists cutoff :: u.db.attempts == Filter(NotBefore(cutoff), st.db.attempts))
    ensures KeepsWindow(s, a) ==> Kept(s, st, Do(s, st, a))
  {
    if a.Purge? && a.days >= 1 {
      var cutoff := st.clock.Floor - a.days * DAY_SECONDS;
      assert KeepsWindow(s, a) ==> cutoff <= KeptFrom(s, st);
    }
  }

  lemma QuietPhases(s: Settings, st: Sys, a: Action, user: int, stale: set<int>, c: int)
    requires GateHolds(s, st, user, stale) && s.reject
    requires !a.VerifyCommit? && !a.RecoveryCommit?
    requires c in Do(s, st, a).calls && Do(s, st, a).calls[c].user == user
    requires c in st.calls ==> c !in stale
    ensures PhaseOk(s, st, user, Do(s, st, a).calls[c])
  {
    var u := Do(s, st, a);
    if c in st.calls {
      var p := st.calls[c];
      assert p.user == user && PhaseOk(s, st, user, p);
      if a.Gated? && a.caller == c && p.Counted? {
        GatePasses(s, st, user, p);
      }
    } else {
      assert u.calls[c].Resolved?;
    }
  }

  lemma PhaseStepInv(s: Settings, st: Sys, a: Action, user: int, stale: set<int>, stale': set<int>)
    requires BackoffInv(s, st, user, stale) && s.reject && KeepsWindow(s, a)
    requires !a.VerifyCommit? && !a.RecoveryCommit?
    requires forall c :: c in stale && c in st.calls && c in Do(s, st, a).calls ==> c in stale'
    ensures BackoffInv(s, Do(s, st, a), user, stale')
  {
    var u := Do(s, st, a);
    QuietTables(s, st, a);
    QuietLog(s, st, a, user);
    forall c | c in u.calls && c !in stale' && u.calls[c].user == user
      ensures PhaseOk(s, st, user, u.calls[c])
    {
      QuietPhases(s, st, a, user, stale, c);
    }
    QuietStepInv(s, st, u, user, stale, stale');
  }

  // ---- recording an attempt ----

  /** An attempt that is no failure of the user changes nothing the user's backoff looks at. */
  lemma OtherAttempt(attempts: seq<Attempt>, a: Attempt, user: int, cutoff: int)
    requires a.user != user || a.success
    ensures CountSince(attempts + [a], user, cutoff) == CountSince(attempts, user, cutoff)
    ensures LastFailure(attempts + [a], user) == LastFailure(attempts, user)
    ensures TableTimes(attempts + [a], user) == TableTimes(attempts, user)
  {
    assert (attempts + [a])[..|attempts + [a]| - 1] == attempts;
    assert Filter(FailureOf(user), attempts + [a]) == Filter(FailureOf(user), attempts);
  }

  lemma SameNeed(s: Settings, st: Sys, u: Sys, a: Attempt, user: int)
    requires u.clock == st.clock && u.db.attempts == st.db.attempts + [a] && (a.user != user || a.success)
    ensures Need(s, u, user) == Need(s, st, user)
    ensures LastFailure(u.db.attempts, user) == LastFailure(st.db.attempts, user)
    ensures TableTimes(u.db.attempts, user) == TableTimes(st.db.attempts, user)
  {
    OtherAttempt(st.db.attempts, a, user, st.clock.Floor - s.window);
  }

  lemma OtherAttemptInv(s: Settings, st: Sys, u: Sys, a: Attempt, user: int, stale: set<int>, stale': set<int>)
    requires BackoffInv(s, st, user, stale) && u.clock == st.clock
    requires LogTimes(u.log, user) == LogTimes(st.log, user)
    requires u.db.attempts == st.db.attempts + [a] && (a.user != user || a.success)
    requires forall c :: c in u.calls && u.calls[c].user == user ==> c in st.calls && u.calls[c] == st.calls[c]
    requires forall c :: c in stale && c in u.calls ==> c in stale'
    ensures BackoffInv(s, u, user, stale')
  {
    SameNeed(s, st, u, a, user);
    forall c | c in u.calls && c !in stale' && u.calls[c].user == user
      ensures PhaseOk(s, u, user, u.calls[c])
    {
      assert PhaseOk(s, st, user, st.calls[c]);
      PhaseOkSame(s, st, u, user, u.calls[c]);
    }
  }

  lemma PhaseOkSame(s: Settings, st: Sys, u: Sys, user: int, p: Phase)
    requires u.clock == st.clock && PhaseOk(s, st, user, p)
    requires Need(s, u, user) == Need(s, st, user)
    requires LastFailure(u.db.attempts, user) == LastFailure(st.db.attempts, user)
    ensures PhaseOk(s, u, user, p)
  {
  }

  /** Two lists that agree from `k` on agree on how many entries reach a later bound. */
  lemma AgreeLater(table: seq<int>, times: seq<int>, k: int, l: int, i: nat)
    requires Filter(AtLeast(k), table) == Filter(AtLeast(k), times) && k <= l
    requires Sorted(times) && i < |times| && times[i] >= l
    ensures |Filter(AtLeast(l), table)| >= |times| - i
    ensures times[|times| - 1] in table
  {
    var last := times[|times| - 1];
    SortedCount(times, i, l);
    FilterTwice(k, l, times);
    FilterTwice(k, l, table);
    assert last in times && last >= times[i];
    FilterMember(AtLeast(k), times);
    FilterMember(AtLeast(k), table);
    assert last in Filter(AtLeast(k), table);
  }

  /** The failures counted by the table include the last `j` logged ones when those fall in the window. */
  lemma CountCovers(attempts: seq<Attempt>, times: seq<int>, user: int, k: int, cutoff: int, j: nat)
    requires Filter(AtLeast(k), TableTimes(attempts, user)) == Filter(AtLeast(k), times)
    requires Sorted(times) && k <= cutoff + 1 && 1 <= j <= |times| && times[|times| - j] > cutoff
    ensures CountSince(attempts, user, cutoff) >= j && LastFailure(attempts, user) >= times[|times| - 1]
  {
    AgreeLater(TableTimes(attempts, user), times, k, cutoff + 1, |times| - j);
    TableCount(attempts, user, cutoff);
    LastCovers(attempts, user, times[|times| - 1]);
  }

  lemma LastCovers(attempts: seq<Attempt>, user: int, t: int)
    requires t in TableTimes(attempts, user)
    ensures LastFailure(attempts, user) >= t
  {
    TableMember(attempts, user);
    LastFailureIsMaximum(attempts, user);
  }

  /** With `j` failures in the window, the time since the last one has reached the j-th delay. */
  lemma DelayElapsed(s: Settings, attempts: seq<Attempt>, times: seq<int>, user: int, k: int, cutoff: int, now: int,
                     j: nat)
    requires Filter(AtLeast(k), TableTimes(attempts, user)) == Filter(AtLeast(k), times)
    requires Sorted(times) && k <= cutoff + 1 && 1 <= j <= |times| && times[|times| - j] > cutoff
    requires times[|times| - 1] <= now
    requires var need := DelayFor(s, CountSince(attempts, user, cutoff));
             need <= 0 || now >= LastFailure(attempts, user) + need
    ensures now - times[|times| - 1] >= DelayFor(s, j)
  {
    CountCovers(attempts, times, user, k, cutoff, j);
    LongerWait(s, j, CountSince(attempts, user, cutoff), times[|times| - 1], LastFailure(attempts, user), now);
  }

  lemma LongerWait(s: Settings, j: nat, n: nat, last: int, latest: int, now: int)
    requires j <= n && last <= latest && last <= now
    requires DelayFor(s, n) <= 0 || now >= latest + DelayFor(s, n)
    ensures now - last >= DelayFor(s, j)
  {
    DelayMonotone(s, j, n);
  }

  /** The same for every `j` at once. */
  lemma AllElapsed(s: Settings, attempts: seq<Attempt>, times: seq<int>, user: int, k: int, cutoff: int, now: int)
    requires Filter(AtLeast(k), TableTimes(attempts, user)) == Filter(AtLeast(k), times)
    requires Sorted(times) && k <= cutoff + 1 && (times != [] ==> times[|times| - 1] <= now)
    requires var need := DelayFor(s, CountSince(attempts, user, cutoff));
             need <= 0 || now >= LastFailure(attempts, user) + need
    ensures forall j :: 1 <= j <= |times| && times[|times| - j] > cutoff ==> now - times[|times| - 1] >= DelayFor(s, j)
  {
    forall j | 1 <= j <= |times| && times[|times| - j] > cutoff
      ensures now - times[|times| - 1] >= DelayFor(s, j)
    {
      DelayElapsed(s, attempts, times, user, k, cutoff, now, j);
    }
  }

  /** The next recorded failure of a run is spaced from the earlier ones. */
  lemma NextIsSpaced(s: Settings, st: Sys, user: int, times: seq<int>)
    requires times == LogTimes(st.log, user) && Sorted(times)
    requires TableFaithful(s, st, user) && CooledDown(s, st, user)
    requires forall t :: t in times ==> t <= st.clock.Floor
    ensures forall j :: 1 <= j <= |times| && times[|times| - j] > st.clock.Floor - s.window ==>
              st.clock.Floor - times[|times| - 1] >= DelayFor(s, j)
  {
    assert times != [] ==> times[|times| - 1] in times;
    AllElapsed(s, st.db.attempts, times, user, KeptFrom(s, st), st.clock.Floor - s.window, st.clock.Floor);
  }

  lemma SortedAppend(times: seq<int>, now: int)
    requires Sorted(times) && forall t :: t in times ==> t <= now
    ensures Sorted(times + [now])
  {
    assert forall i :: 0 <= i < |times| ==> times[i] in times;
  }

  lemma SpacedAppend(s: Settings, times: seq<int>, now: int)
    requires Spaced(s, times)
    requires forall j :: 1 <= j <= |times| && now - times[|times| - j] < s.window ==>
               now - times[|times| - 1] >= DelayFor(s, j)
    ensures Spaced(s, times + [now])
  {
    var times' := times + [now];
    forall m, j | 1 <= j <= m < |times'|
      ensures SpacedAt(s, times', m, j)
    {
      if m < |times| {
        assert SpacedAt(s, times, m, j);
      }
    }
  }

  lemma FaithfulAppend(table: seq<int>, times: seq<int>, k: int, now: int)
    requires Filter(AtLeast(k), table) == Filter(AtLeast(k), times)
    ensures Filter(AtLeast(k), table + [now]) == Filter(AtLeast(k), times + [now])
  {
    FilterAppend(AtLeast(k), table, [now]);
    FilterAppend(AtLeast(k), times, [now]);
  }

  lemma RecordTables(s: Settings, st: Sys, u: Sys, a: Attempt, user: int)
    requires TableFaithful(s, st, user)
    requires u.clock == st.clock && u.db.attempts == st.db.attempts + [a]
    requires a.user == user && !a.success && a.at == st.clock.Floor
    requires u.log == st.log + [FailureRecorded(user, st.clock.Floor)]
    ensures LogTimes(u.log, user) == LogTimes(st.log, user) + [st.clock.Floor]
    ensures TableFaithful(s, u, user)
  {
    var now := st.clock.Floor;
    var table, times := TableTimes(st.db.attempts, user), LogTimes(st.log, user);
    LogTimesQuiet(st.log, FailureRecorded(user, now), user);
    assert u.db.attempts[..|u.db.attempts| - 1] == st.db.attempts;
    assert TableTimes(u.db.attempts, user) == table + [now];
    FaithfulAppend(table, times, KeptFrom(s, st), now);
  }

  lemma RecordTimes(s: Settings, times: seq<int>, now: int)
    requires Spaced(s, times) && Sorted(times) && forall t :: t in times ==> t <= now
    requires forall j :: 1 <= j <= |times| && now - times[|times| - j] < s.window ==>
               now - times[|times| - 1] >= DelayFor(s, j)
    ensures Spaced(s, times + [now])
    ensures Sorted(times + [now]) && forall t :: t in times + [now] ==> t <= now
  {
    SpacedAppend(s, times, now);
    SortedAppend(times, now);
  }

  lemma RecordFailureInv(s: Settings, st: Sys, u: Sys, a: Attempt, user: int, stale: set<int>, stale': set<int>)
    requires BackoffInv(s, st, user, stale) && CooledDown(s, st, user)
    requires u.clock == st.clock && u.db.attempts == st.db.attempts + [a]
    requires a.user == user && !a.success && a.at == st.clock.Floor
    requires u.log == st.log + [FailureRecorded(user, st.clock.Floor)]
    requires forall c :: c in u.calls && u.calls[c].user == user && !u.calls[c].Resolved? ==> c in stale'
    ensures BackoffInv(s, u, user, stale')
  {
    var times, now := LogTimes(st.log, user), st.clock.Floor;
    RecordTables(s, st, u, a, user);
    NextIsSpaced(s, st, user, times);
    RecordTimes(s, times, now);
  }

  /** What a commit of either kind does to the attempts and to the log. */
  lemma CommitEffect(s: Settings, st: Sys, a: Action)
    requires (a.VerifyCommit? && a.caller in st.calls && st.calls[a.caller].Stepped?)
             || (a.RecoveryCommit? && a.caller in st.calls && st.calls[a.caller].Scanned?)
    ensures var u, p := Do(s, st, a), st.calls[a.caller];
            && u.calls == st.calls - {a.caller} && u.clock == st.clock
            && |u.log| == |st.log| + 1 && u.log == st.log + [u.log[|st.log|]]
            && (if u.db.attempts == st.db.attempts then !u.log[|st.log|].FailureRecorded?
                else
                  && |u.db.attempts| == |st.db.attempts| + 1
                  && var row := u.db.attempts[|st.db.attempts|];
                     && u.db.attempts == st.db.attempts + [row]
                     && row.user == p.user && row.at == st.clock.Floor
                     && (if row.success then !u.log[|st.log|].FailureRecorded?
                         else u.log[|st.log|] == FailureRecorded(p.user, st.clock.Floor)))
  {
    var p := st.calls[a.caller];
    if a.VerifyCommit? {
      assert Do(s, st, a) == DoVerify(st, a.caller, p);
    } else {
      assert Do(s, st, a) == DoRecovery(st, a.caller, p);
    }
  }

  lemma CommitInv(s: Settings, st: Sys, a: Action, user: int, stale: set<int>, stale': set<int>)
    requires BackoffInv(s, st, user, stale)
    requires (a.VerifyCommit? && a.caller in st.calls && st.calls[a.caller].Stepped?)
             || (a.RecoveryCommit? && a.caller in st.calls && st.calls[a.caller].Scanned?)
    requires Records(s, st, a, user) ==> a.caller !in stale
    requires stale' == NextStale(s, st, a, user, stale)
    ensures BackoffInv(s, Do(s, st, a), user, stale')
  {
    var u, p := Do(s, st, a), st.calls[a.caller];
    CommitEffect(s, st, a);
    var e := u.log[|st.log|];
    LogTimesQuiet(st.log, e, user);
    if u.db.attempts == st.db.attempts {
      QuietStepInv(s, st, u, user, stale, stale');
    } else {
      var row := u.db.attempts[|st.db.attempts|];
      if p.user == user && !row.success {
        assert PhaseOk(s, st, user, p);
        RecordFailureInv(s, st, u, row, user, stale, stale');
      } else {
        OtherAttemptInv(s, st, u, row, user, stale, stale');
      }
    }
  }

  lemma IdleStepInv(s: Settings, st: Sys, user: int, stale: set<int>, stale': set<int>)
    requires BackoffInv(s, st, user, stale) && forall c :: c in stale && c in st.calls ==> c in stale'
    ensures BackoffInv(s, st, user, stale')
  {
  }

  lemma BackoffStep(s: Settings, st: Sys, a: Action, user: int, stale: set<int>, stale': set<int>)
    requires BackoffInv(s, st, user, stale) && s.reject && KeepsWindow(s, a)
    requires (a.VerifyCommit? || a.RecoveryCommit?) && Records(s, st, a, user) ==> a.caller !in stale
    requires stale' == NextStale(s, st, a, user, stale)
    ensures BackoffInv(s, Do(s, st, a), user, stale')
  {
    if !a.VerifyCommit? && !a.RecoveryCommit? {
      QuietLog(s, st, a, user);
      PhaseStepInv(s, st, a, user, stale, stale');
    } else if Do(s, st, a) == st {
      IdleStepInv(s, st, user, stale, stale');
    } else {
      CommitInv(s, st, a, user, stale, stale');
    }
  }

  lemma {:induction false} FreshRunInv(s: Settings, actions: seq<Action>, user: int)
    requires s.reject && RetainsWindow(s, actions) && FreshCommits(s, actions, user)
    ensures BackoffInv(s, Exec(s, actions), user, StaleCalls(s, actions, user))
  {
    if actions != [] {
      var init, a := actions[..|actions| - 1], actions[|actions| - 1];
      assert a in actions && forall b :: b in init ==> b in actions;
      FreshRunInv(s, init, user);
      BackoffStep(s, Exec(s, init), a, user, StaleCalls(s, init, user), StaleCalls(s, actions, user));
    }
  }

  /**
    In reject mode, when purges keep what the backoff window reaches and no failure of the user is
    recorded while another call of the user is between its count and its own failure: across TOTP and
    recovery attempts together, once j failures fall in one window the next recorded failure comes at
    least min(base * 2^j, max) seconds after the latest of them.
  */
  lemma FailuresAreSpaced(s: Settings, actions: seq<Action>, user: int)
    requires s.reject && RetainsWindow(s, actions) && FreshCommits(s, actions, user)
    ensures Sorted(LogTimes(Exec(s, actions).log, user))
    ensures Spaced(s, LogTimes(Exec(s, actions).log, user))
  {
    FreshRunInv(s, actions, user);
  }

  lemma SerialStep(s: Settings, st: Sys, a: Action, user: int)
    requires AtMostOneCall(st, user)
    ensures NextStale(s, st, a, user, {}) == {}
  {
    if Records(s, st, a, user) {
      if !a.VerifyCommit? && !a.RecoveryCommit? {
        QuietLog(s, st, a, user);
      } else {
        CommitEffect(s, st, a);
        LogTimesQuiet(st.log, Do(s, st, a).log[|st.log|], user);
        var calls := Do(s, st, a).calls;
        assert st.calls[a.caller].user == user && calls == st.calls - {a.caller};
        forall c | c in calls ensures calls[c].user != user {
          assert calls[c] == st.calls[c] && c != a.caller;
        }
      }
    }
  }

  /** Calls that do not overlap at all are such calls. */
  lemma {:induction false} SerialCallsAreFresh(s: Settings, actions: seq<Action>, user: int)
    requires SerialFor(s, actions, user)
    ensures FreshCommits(s, actions, user) && StaleCalls(s, actions, user) == {}
  {
    if actions != [] {
      var init := actions[..|actions| - 1];
      SerialCallsAreFresh(s, init, user);
      SerialNow(s, init, user);
      SerialStep(s, Exec(s, init), actions[|actions| - 1], user);
    }
  }

  lemma SerialNow(s: Settings, actions: seq<Action>, user: int)
    requires SerialFor(s, actions, user)
    ensures AtMostOneCall(Exec(s, actions), user)
  {
  }

  lemma DefaultDelays(s: Settings)
    requires s.baseDelay == 1 && s.maxDelay == 60
    ensures DelayFor(s, 1) == 2 && DelayFor(s, 2) == 4 && DelayFor(s, 3) == 8
    ensures DelayFor(s, 4) == 16 && DelayFor(s, 5) == 32
    ensures forall j: nat :: 6 <= j ==> DelayFor(s, j) == 60
  {
    assert Doubled(1, 3) == 8;
    assert Doubled(1, 6) == 64;
    forall j: nat | 6 <= j ensures DelayFor(s, j) == 60 {
      DoubledMonotone(1, 6, j);
    }
  }

  /** The delays after one to `n` failures, added up. */
  function SumDelays(s: Settings, n: nat): int {
    if n == 0 then 0 else SumDelays(s, n - 1) + DelayFor(s, n)
  }

  lemma {:induction false} SpanCoversDelays(s: Settings, t: seq<int>, i: nat, n: nat)
    requires Sorted(t) && Spaced(s, t) && i + n < |t| && t[i + n] - t[i] < s.window
    ensures t[i + n] - t[i] >= SumDelays(s, n)
  {
    if n > 0 {
      SpanCoversDelays(s, t, i, n - 1);
      assert SpacedAt(s, t, i + n, n);
    }
  }

  /** However the backoff is configured: n + 1 recorded failures inside one window span all n delays. */
  lemma FailuresPerWindow(s: Settings, actions: seq<Action>, user: int, i: nat, n: nat)
    requires s.reject && RetainsWindow(s, actions) && FreshCommits(s, actions, user)
    requires i + n < |LogTimes(Exec(s, actions).log, user)|
    ensures var t := LogTimes(Exec(s, actions).log, user);
            t[i + n] - t[i] < s.window ==> SumDelays(s, n) <= t[i + n] - t[i]
  {
    FailuresAreSpaced(s, actions, user);
    var t := LogTimes(Exec(s, actions).log, user);
    if t[i + n] - t[i] < s.window {
      SpanCoversDelays(s, t, i, n);
    }
  }

  lemma DefaultSum(s: Settings)
    requires s.baseDelay == 1 && s.maxDelay == 60
    ensures SumDelays(s, 9) == 302
  {
    DefaultDelays(s);
    assert SumDelays(s, 1) == 2 && SumDelays(s, 2) == 6 && SumDelays(s, 3) == 14;
    assert SumDelays(s, 4) == 30 && SumDelays(s, 5) == 62 && SumDelays(s, 6) == 122;
    assert SumDelays(s, 7) == 182 && SumDelays(s, 8) == 242;
  }

  /** With the default delays any 300 s window holds at most nine recorded failures. */
  lemma NinePerWindow(s: Settings, actions: seq<Action>, user: int, i: nat)
    requires s.baseDelay == 1 && s.maxDelay == 60 && s.window == 300
    requires s.reject && FreshCommits(s, actions, user)
    requires i + 9 < |LogTimes(Exec(s, actions).log, user)|
    ensures LogTimes(Exec(s, actions).log, user)[i + 9] - LogTimes(Exec(s, actions).log, user)[i] >= 300
  {
    assert RetainsWindow(s, actions);
    FailuresPerWindow(s, actions, user, i, 9);
    DefaultSum(s);
  }
}
