/** Exponential backoff in reject mode: what a rejection promises and how fast guesses can be recorded. */
module AuthBackoff {
  import opened Sequences
  import opened AuthStore
  import opened AuthProtocol

  // ---- the delay ----

  lemma {:induction false} DoubledMonotone(base: int, m: nat, n: nat)
    requires m <= n
    ensures base >= 0 ==> base <= Doubled(base, m) <= Doubled(base, n)
    ensures base < 0 ==> Doubled(base, m) < 0
    decreases n
  {
    if m < n {
      DoubledMonotone(base, m, n - 1);
    } else if m > 0 {
      DoubledMonotone(base, m - 1, n - 1);
    }
  }

  /** Fewer counted failures never mean a longer wait. */
  lemma DelayMonotone(s: Settings, m: nat, n: nat)
    requires m <= n
    ensures DelayFor(s, m) <= DelayFor(s, n) || DelayFor(s, m) <= 0
  {
    DoubledMonotone(s.baseDelay, m, n);
  }

  lemma CountShrinks(attempts: seq<Attempt>, user: int, c: int, d: int)
    requires c <= d
    ensures CountSince(attempts, user, d) <= CountSince(attempts, user, c)
  {
    FilterWeaker(FailureSince(user, d), FailureSince(user, c), attempts);
  }

  /** The latest failure bounds all of them and, if there is one, is one of them. */
  lemma {:induction false} LatestIsMaximum(failures: seq<Attempt>)
    ensures forall a :: a in failures ==> a.at <= LatestOf(failures)
    ensures failures != [] ==> exists a :: a in failures && a.at == LatestOf(failures)
  {
    if |failures| == 1 {
      assert failures[0] in failures;
    } else if |failures| > 1 {
      var init, last := failures[..|failures| - 1], failures[|failures| - 1];
      LatestIsMaximum(init);
      assert failures == init + [last] && last in failures;
      var a :| a in init && a.at == LatestOf(init);
      assert a in failures;
    }
  }

  lemma LastFailureIsMaximum(attempts: seq<Attempt>, user: int)
    ensures forall a :: a in attempts && a.user == user && !a.success ==> a.at <= LastFailure(attempts, user)
    ensures (exists a :: a in attempts && a.user == user && !a.success) ==>
              exists a :: a in attempts && a.user == user && !a.success && a.at == LastFailure(attempts, user)
  {
    FilterMember(FailureOf(user), attempts);
    LatestIsMaximum(Filter(FailureOf(user), attempts));
    if a :| a in attempts && a.user == user && !a.success {
      assert a in Filter(FailureOf(user), attempts);
    }
  }

  // ---- what a rejection promises ----

  /** No rejection happens at or after the last failure plus the maximum delay, and none without a counted failure. */
  lemma RejectionBounds(s: Settings, attempts: seq<Attempt>, user: int, countAt: real, gateAt: real)
    requires var b := Backoff(s, attempts, user, countAt);
             GateAt(s, attempts, user, b, gateAt).Reject?
    ensures gateAt < (LastFailure(attempts, user) + s.maxDelay) as real
    ensures CountSince(attempts, user, countAt.Floor - s.window) > 0
    ensures var wait := GateAt(s, attempts, user, Backoff(s, attempts, user, countAt), gateAt).wait;
            && wait >= 1
            && gateAt + wait as real >= (LastFailure(attempts, user) + Backoff(s, attempts, user, countAt)) as real
  {
  }

  /** There is a delay exactly when a failure of the user lies inside the window, and never more than the maximum. */
  lemma DelayExactly(s: Settings, attempts: seq<Attempt>, user: int, now: real)
    requires s.baseDelay >= 1 && s.maxDelay >= 1
    ensures Backoff(s, attempts, user, now) > 0
            <==> exists a :: a in attempts && a.user == user && !a.success && a.at > now.Floor - s.window
    ensures Backoff(s, attempts, user, now) <= s.maxDelay
  {
    var p := FailureSince(user, now.Floor - s.window);
    FilterMember(p, attempts);
    DoubledMonotone(s.baseDelay, 0, |Filter(p, attempts)|);
    if Filter(p, attempts) != [] {
      assert Filter(p, attempts)[0] in Filter(p, attempts);
    }
  }

  /** A call is rejected exactly while its delay after the last failure runs, for the least whole seconds left. */
  lemma RejectsExactly(s: Settings, attempts: seq<Attempt>, user: int, backoff: int, now: real)
    ensures var end := (LastFailure(attempts, user) + backoff) as real;
            && (GateAt(s, attempts, user, backoff, now).Reject? <==> s.reject && backoff > 0 && now < end)
            && (GateAt(s, attempts, user, backoff, now).Reject? ==>
                  var wait := GateAt(s, attempts, user, backoff, now).wait;
                  now + (wait - 1) as real < end <= now + wait as real)
  {
  }

  // ---- recorded failures of one user ----

  /** Recorded failure times of a user in a log, in order. */
  ghost function LogTimes(log: seq<Event>, user: int): seq<int> {
    if log == [] then []
    else var e := log[|log| - 1];
         LogTimes(log[..|log| - 1], user) + (if e.FailureRecorded? && e.user == user then [e.second] else [])
  }

  /** Failure times of a user that retention has left in the table. */
  ghost function TableTimes(attempts: seq<Attempt>, user: int): seq<int> {
    if attempts == [] then []
    else var a := attempts[|attempts| - 1];
         TableTimes(attempts[..|attempts| - 1], user) + (if a.user == user && !a.success then [a.at] else [])
  }

  function AtLeast(k: int): int -> bool { (t: int) => t >= k }

  ghost predicate Sorted(times: seq<int>) {
    forall i, j :: 0 <= i < j < |times| ==> times[i] <= times[j]
  }

  /** After `j` failures within one backoff window, failure `m` has waited for the j-th delay. */
  ghost predicate SpacedAt(s: Settings, times: seq<int>, m: int, j: int)
    requires 1 <= j <= m < |times|
  {
    times[m] - times[m - j] < s.window ==> times[m] - times[m - 1] >= DelayFor(s, j)
  }

  ghost predicate Spaced(s: Settings, times: seq<int>) {
    forall m, j :: 1 <= j <= m < |times| ==> SpacedAt(s, times, m, j)
  }

  lemma {:induction false} TableCount(attempts: seq<Attempt>, user: int, cutoff: int)
    ensures CountSince(attempts, user, cutoff) == |Filter(AtLeast(cutoff + 1), TableTimes(attempts, user))|
  {
    if attempts != [] {
      var init, a := attempts[..|attempts| - 1], attempts[|attempts| - 1];
      TableCount(init, user, cutoff);
      var times := TableTimes(init, user);
      assert (times + [a.at])[..|times + [a.at]| - 1] == times;
      assert TableTimes(attempts, user) == if a.user == user && !a.success then times + [a.at] else times;
    }
  }

  lemma {:induction false} TableMember(attempts: seq<Attempt>, user: int)
    ensures forall t :: t in TableTimes(attempts, user)
                        <==> exists a :: a in attempts && a.user == user && !a.success && a.at == t
  {
    if attempts != [] {
      var init, a := attempts[..|attempts| - 1], attempts[|attempts| - 1];
      TableMember(init, user);
      assert attempts == init + [a];
      forall t
        ensures t in TableTimes(attempts, user)
                <==> exists b :: b in attempts && b.user == user && !b.success && b.at == t
      {
        if t in TableTimes(init, user) {
          var b :| b in init && b.user == user && !b.success && b.at == t;
          assert b in attempts;
        } else if t in TableTimes(attempts, user) {
          assert a in attempts && a.at == t;
        }
      }
    }
  }

  lemma {:induction false} PurgeTimes(attempts: seq<Attempt>, user: int, cutoff: int)
    ensures TableTimes(Filter(NotBefore(cutoff), attempts), user) == Filter(AtLeast(cutoff), TableTimes(attempts, user))
  {
    if attempts != [] {
      var init, a := attempts[..|attempts| - 1], attempts[|attempts| - 1];
      PurgeTimes(init, user, cutoff);
      var kept, times := Filter(NotBefore(cutoff), init), TableTimes(init, user);
      assert (kept + [a])[..|kept + [a]| - 1] == kept;
      assert (times + [a.at])[..|times + [a.at]| - 1] == times;
      assert TableTimes(attempts, user) == if a.user == user && !a.success then times + [a.at] else times;
      assert Filter(NotBefore(cutoff), attempts) == if a.at >= cutoff then kept + [a] else kept;
    }
  }

  lemma {:induction false} FilterTwice(k: int, l: int, times: seq<int>)
    requires k <= l
    ensures Filter(AtLeast(l), Filter(AtLeast(k), times)) == Filter(AtLeast(l), times)
  {
    if times != [] {
      var init, t := times[..|times| - 1], times[|times| - 1];
      FilterTwice(k, l, init);
      var kept := Filter(AtLeast(k), init);
      assert (kept + [t])[..|kept + [t]| - 1] == kept;
      assert Filter(AtLeast(k), times) == if t >= k then kept + [t] else kept;
    }
  }

  /** A failure late in a sorted list brings everything after it into any count that includes it. */
  lemma {:induction false} SortedCount(times: seq<int>, i: nat, k: int)
    requires Sorted(times) && i <= |times| && (i < |times| ==> times[i] >= k)
    ensures |Filter(AtLeast(k), times)| >= |times| - i
  {
    if i < |times| {
      var n := |times| - 1;
      if i < n {
        SortedCount(times[..n], i, k);
      }
      assert times[n] >= times[i];
    }
  }

  // ---- the run ----

  /** A step at which a failure of the user is recorded. */
  ghost predicate Records(s: Settings, st: Sys, a: Action, user: int) {
    LogTimes(Do(s, st, a).log, user) != LogTimes(st.log, user)
  }

  /** A recorded failure makes stale every call of the user that has counted; a finished call is stale no more. */
  ghost function NextStale(s: Settings, st: Sys, a: Action, user: int, stale: set<int>): set<int> {
    var calls := Do(s, st, a).calls;
    if Records(s, st, a, user) then set c | c in calls && calls[c].user == user && !calls[c].Resolved?
    else set c | c in stale && c in calls
  }

  /** The user's calls that counted their failures before the last one was recorded. */
  ghost function StaleCalls(s: Settings, actions: seq<Action>, user: int): set<int> {
    if actions == [] then {}
    else
      var init := actions[..|actions| - 1];
      NextStale(s, Exec(s, init), actions[|actions| - 1], user, StaleCalls(s, init, user))
  }

  /** No failure of the user is recorded between another failure's call counting and recording. */
  ghost predicate FreshCommits(s: Settings, actions: seq<Action>, user: int) {
    actions != [] ==>
      var init, a := actions[..|actions| - 1], actions[|actions| - 1];
      && FreshCommits(s, init, user)
      && ((a.VerifyCommit? || a.RecoveryCommit?) && Records(s, Exec(s, init), a, user) ==>
            a.caller !in StaleCalls(s, init, user))
  }

  /** A purge keeps every attempt the backoff window reaches. */
  predicate KeepsWindow(s: Settings, a: Action) {
    a.Purge? && a.days >= 1 ==> s.window <= a.days * DAY_SECONDS + 1
  }

  predicate RetainsWindow(s: Settings, actions: seq<Action>) {
    forall a :: a in actions ==> KeepsWindow(s, a)
  }

  /** The calls of one user do not overlap: at most one is in flight at any moment of the run. */
  ghost predicate SerialFor(s: Settings, actions: seq<Action>, user: int) {
    && (actions != [] ==> SerialFor(s, actions[..|actions| - 1], user))
    && AtMostOneCall(Exec(s, actions), user)
  }

  ghost predicate AtMostOneCall(st: Sys, user: int) {
    forall c, d :: c in st.calls && d in st.calls && st.calls[c].user == user && st.calls[d].user == user ==> c == d
  }

  ghost function Need(s: Settings, st: Sys, user: int): int {
    Backoff(s, st.db.attempts, user, st.clock)
  }

  ghost predicate CooledDown(s: Settings, st: Sys, user: int) {
    Need(s, st, user) <= 0 || st.clock >= (LastFailure(st.db.attempts, user) + Need(s, st, user)) as real
  }

  /** What a call of the user is owed: once past the gate it still has nothing left to wait for. */
  ghost predicate PhaseOk(s: Settings, st: Sys, user: int, p: Phase) {
    match p
    case Resolved(_, _, _) => true
    case Counted(_, _, _, backoff) => Need(s, st, user) <= 0 || Need(s, st, user) <= backoff
    case _ => CooledDown(s, st, user)
  }

  /** Every call of the user that is not stale is owed what its phase says. */
  ghost predicate GateHolds(s: Settings, st: Sys, user: int, stale: set<int>) {
    forall c :: c in st.calls && c !in stale && st.calls[c].user == user ==> PhaseOk(s, st, user, st.calls[c])
  }

  /** The first second whose failures still count. */
  function KeptFrom(s: Settings, st: Sys): int {
    st.clock.Floor - s.window + 1
  }

  /** Over the backoff window, the table and the log agree on the user's failures. */
  ghost predicate TableFaithful(s: Settings, st: Sys, user: int) {
    Filter(AtLeast(KeptFrom(s, st)), TableTimes(st.db.attempts, user))
    == Filter(AtLeast(KeptFrom(s, st)), LogTimes(st.log, user))
  }

  ghost predicate TimesSound(st: Sys, user: int) {
    && Sorted(LogTimes(st.log, user))
    && (forall t :: t in LogTimes(st.log, user) ==> t <= st.clock.Floor)
  }

  ghost predicate BackoffInv(s: Settings, st: Sys, user: int, stale: set<int>) {
    && GateHolds(s, st, user, stale) && TableFaithful(s, st, user) && TimesSound(st, user)
    && Spaced(s, LogTimes(st.log, user))
  }

  /** The wait only shrinks when the clock advances or retention drops rows older than the window. */
  lemma NeedShrinks(s: Settings, st: Sys, u: Sys, user: int)
    requires u.clock >= st.clock
    requires u.db.attempts == st.db.attempts
             || exists cutoff :: u.db.attempts == Filter(NotBefore(cutoff), st.db.attempts)
    ensures Need(s, u, user) <= 0
            || (Need(s, u, user) <= Need(s, st, user)
                && LastFailure(u.db.attempts, user) == LastFailure(st.db.attempts, user))
  {
    var c, d := st.clock.Floor - s.window, u.clock.Floor - s.window;
    CountShrinks(st.db.attempts, user, c, d);
    var n, m := CountSince(st.db.attempts, user, c), CountSince(u.db.attempts, user, d);
    if u.db.attempts != st.db.attempts {
      var cutoff :| u.db.attempts == Filter(NotBefore(cutoff), st.db.attempts);
      PurgeCount(st.db.attempts, user, d, cutoff);
      if m > 0 {
        PurgeKeepsLast(st.db.attempts, user, d, cutoff);
      }
    }
    DelayMonotone(s, m, n);
  }

  lemma {:induction false} PurgeCount(attempts: seq<Attempt>, user: int, d: int, cutoff: int)
    ensures CountSince(Filter(NotBefore(cutoff), attempts), user, d) <= CountSince(attempts, user, d)
  {
    if attempts != [] {
      var init, a := attempts[..|attempts| - 1], attempts[|attempts| - 1];
      PurgeCount(init, user, d, cutoff);
      var kept := Filter(NotBefore(cutoff), init);
      assert (kept + [a])[..|kept + [a]| - 1] == kept;
      assert Filter(NotBefore(cutoff), attempts) == if a.at >= cutoff then kept + [a] else kept;
    }
  }

  lemma PurgeKeepsLast(attempts: seq<Attempt>, user: int, d: int, cutoff: int)
    requires CountSince(Filter(NotBefore(cutoff), attempts), user, d) > 0
    ensures LastFailure(Filter(NotBefore(cutoff), attempts), user) == LastFailure(attempts, user)
  {
    var kept := Filter(NotBefore(cutoff), attempts);
    FilterMember(NotBefore(cutoff), attempts);
    FilterMember(FailureSince(user, d), kept);
    var found := Filter(FailureSince(user, d), kept);
    assert found[0] in found;
    LastFailureIsMaximum(kept, user);
    LastFailureIsMaximum(attempts, user);
    var last :| last in attempts && last.user == user && !last.success && last.at == LastFailure(attempts, user);
    assert last in kept;
  }
}
