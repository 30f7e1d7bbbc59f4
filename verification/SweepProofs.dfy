/** Sweeping is idempotent: keys stay unique, and a repeated sweep inserts nothing. */
module SweepProofs {
  import opened Sequences
  import opened StableSort
  import opened WindowRules
  import opened WindowRuleProofs
  import opened DedupeKeys
  import opened ChainRules
  import opened CorrelationSweep

  /** What the sweep's own audit row normalizes to: a system event that mentions nothing. */
  ghost predicate Silent(e: Event) {
    e.category == "system" && e.name == "SYSTEM_EVENT" && e.entity == "" && e.context == map[]
  }

  lemma OwnRowIsSilent(c: Config, id: int, now: real, message: string)
    ensures Silent(Normalize(c, SweepRow(id, now, message)))
  {
  }

  // ---- no rule reacts to a silent event ----

  lemma {:induction false} UsersByFilter(es: seq<Event>)
    ensures Users(es) == Users(Filter(AnyFailure(), es))
  {
    if es != [] {
      var init, e := es[..|es| - 1], es[|es| - 1];
      UsersByFilter(init);
      var kept := Filter(AnyFailure(), init);
      assert (kept + [e])[..|kept + [e]| - 1] == kept;
      assert Filter(AnyFailure(), es) == if AnyFailure()(e) then kept + [e] else kept;
    }
  }

  lemma {:induction false} BurstsSkip(es: seq<Event>, fs: seq<Event>, users: seq<string>, threshold: int, window: int)
    requires forall u :: Filter(FailureBy(u), es) == Filter(FailureBy(u), fs)
    ensures BurstsOf(es, users, threshold, window) == BurstsOf(fs, users, threshold, window)
  {
    if users != [] {
      BurstsSkip(es, fs, users[..|users| - 1], threshold, window);
      assert Filter(FailureBy(users[|users| - 1]), es) == Filter(FailureBy(users[|users| - 1]), fs);
    }
  }

  lemma BruteForceSkips(a: seq<Event>, x: Event, b: seq<Event>, threshold: int, window: int)
    requires Silent(x)
    ensures BruteForce(a + [x] + b, threshold, window) == BruteForce(a + b, threshold, window)
  {
    forall u ensures Filter(FailureBy(u), a + [x] + b) == Filter(FailureBy(u), a + b) {
      FilterSkips(FailureBy(u), a, x, b);
    }
    UsersByFilter(a + [x] + b);
    UsersByFilter(a + b);
    FilterSkips(AnyFailure(), a, x, b);
    BurstsSkip(a + [x] + b, a + b, Users(a + b), threshold, window);
  }

  lemma SpraySkips(a: seq<Event>, x: Event, b: seq<Event>, threshold: int, window: int)
    requires Silent(x)
    ensures Spray(a + [x] + b, threshold, window) == Spray(a + b, threshold, window)
  {
    FilterSkips(AnyFailure(), a, x, b);
  }

  lemma SilentMentionsNothing(watched: string -> bool, groups: seq<Candidate>, x: Event)
    requires Silent(x)
    ensures AddMatches(watched, groups, Mentioned(x), x) == groups
  {
    assert Mentioned(x) == [];
  }

  lemma IocSkips(watched: string -> bool, a: seq<Event>, x: Event, b: seq<Event>)
    requires Silent(x)
    ensures IocMatches(watched, a + [x] + b) == IocMatches(watched, a + b)
  {
    var step := AddMentioned(watched);
    FoldLeftAppend(step, [], a + [x], b);
    FoldLeftAppend(step, [], a, b);
    assert (a + [x])[..|a + [x]| - 1] == a;
    SilentMentionsNothing(watched, FoldLeft(step, [], a), x);
  }

  lemma ChainsSkip(c: Config, a: seq<Event>, x: Event, b: seq<Event>)
    requires Silent(x)
    ensures ChainCandidates(c, a + [x] + b) == ChainCandidates(c, a + b)
  {
    FilterSkips(IsSuccess(), a, x, b);
    FilterSkips(AnyFailure(), a, x, b);
    FilterSkips(Named("REPLAY_ATTACK"), a, x, b);
    FilterSkips(IsRecon(), a, x, b);
    FilterSkips(Named("AUTH_FAILURE"), a, x, b);
    FilterSkips(IsNetworkCritical(), a, x, b);
    FilterSkips(IsFim(), a, x, b);
    IocSkips(c.watched, a, x, b);
  }

  /** Whatever stands around it, a silent event changes no rule's candidates. */
  lemma RulesIgnoreSilent(c: Config, a: seq<Event>, x: Event, b: seq<Event>)
    requires Silent(x)
    ensures Candidates(c, a + [x] + b) == Candidates(c, a + b)
  {
    BruteForceSkips(a, x, b, c.bruteThreshold, c.bruteWindow);
    SpraySkips(a, x, b, c.sprayThreshold, c.sprayWindow);
    ChainsSkip(c, a, x, b);
  }

  lemma {:induction false} PlaceSplits<T(!new)>(key: T -> real, sorted: seq<T>, x: T) returns (k: nat)
    ensures k <= |sorted| && Place(key, sorted, x) == sorted[..k] + [x] + sorted[k..]
  {
    if sorted == [] || key(sorted[|sorted| - 1]) <= key(x) {
      k := |sorted|;
    } else {
      var init, last := sorted[..|sorted| - 1], sorted[|sorted| - 1];
      k := PlaceSplits(key, init, x);
      assert sorted[..k] == init[..k] && sorted[k..] == init[k..] + [last];
    }
  }

  lemma LoadOneMore(c: Config, rows: seq<AuditRow>, row: AuditRow, since: real) returns (a: seq<Event>, b: seq<Event>)
    requires row.timestamp >= since
    ensures LoadEvents(c, rows, since) == a + b
    ensures LoadEvents(c, rows + [row], since) == a + [Normalize(c, row)] + b
  {
    var kept := Filter(NotOlder(since), rows);
    assert (rows + [row])[..|rows + [row]| - 1] == rows;
    assert Filter(NotOlder(since), rows + [row]) == kept + [row];
    var es, x := NormalizeAll(c, kept), Normalize(c, row);
    assert NormalizeAll(c, kept + [row]) == es + [x];
    assert (es + [x])[..|es + [x]| - 1] == es;
    var sorted := SortBy(TimeOf(), es);
    var k := PlaceSplits(TimeOf(), sorted, x);
    a, b := sorted[..k], sorted[k..];
    assert sorted == a + b;
  }

  /** Logging a silent row leaves the next sweep's candidates as they were, wherever it sorts. */
  lemma OwnRowChangesNothing(c: Config, rows: seq<AuditRow>, row: AuditRow, since: real)
    requires Silent(Normalize(c, row))
    ensures Candidates(c, LoadEvents(c, rows + [row], since)) == Candidates(c, LoadEvents(c, rows, since))
  {
    if row.timestamp >= since {
      var a, b := LoadOneMore(c, rows, row, since);
      RulesIgnoreSilent(c, a, Normalize(c, row), b);
    } else {
      assert (rows + [row])[..|rows + [row]| - 1] == rows;
      assert Filter(NotOlder(since), rows + [row]) == Filter(NotOlder(since), rows);
    }
  }

  // ---- insertion ----

  ghost predicate UniqueKeys(incidents: seq<Incident>) {
    forall i, j :: 0 <= i < j < |incidents| ==> incidents[i].key != incidents[j].key
  }

  lemma PrefixNonempty(cs: seq<Candidate>)
    requires AllNonempty(cs) && cs != []
    ensures AllNonempty(cs[..|cs| - 1]) && cs[|cs| - 1].events != []
  {
    assert cs[|cs| - 1] in cs;
  }

  /** What one insert does, whatever the key. */
  lemma InsertOne(before: seq<Incident>, c: Candidate)
    requires c.events != []
    ensures var after := Insert(before, c);
            && before <= after && HasKey(after, DedupeKey(c))
            && (UniqueKeys(before) ==> UniqueKeys(after))
            && (forall k :: HasKey(before, k) ==> HasKey(after, k))
            && (forall i :: i in after ==> i in before || i.key == DedupeKey(c))
  {
    KeyAppend(before, Incident(DedupeKey(c), c.rule, c.events));
  }

  lemma KeyAppend(before: seq<Incident>, i: Incident)
    ensures before <= before + [i] && HasKey(before + [i], i.key)
    ensures UniqueKeys(before) && !HasKey(before, i.key) ==> UniqueKeys(before + [i])
    ensures forall k :: HasKey(before, k) ==> HasKey(before + [i], k)
  {
    assert i in before + [i];
    assert forall n :: 0 <= n < |before| ==> before[n] in before;
    forall k | HasKey(before, k) ensures HasKey(before + [i], k) {
      var x :| x in before && x.key == k;
      assert x in before + [i];
    }
  }

  /** Every candidate's key ends up present, earlier incidents stay, and keys stay unique. */
  lemma {:induction false} InsertAllFacts(incidents: seq<Incident>, cs: seq<Candidate>)
    requires AllNonempty(cs)
    ensures var after := InsertAll(incidents, cs);
            && incidents <= after
            && (UniqueKeys(incidents) ==> UniqueKeys(after))
            && (forall c :: c in cs ==> HasKey(after, DedupeKey(c)))
            && (forall i :: i in after ==> i in incidents || exists c :: c in cs && DedupeKey(c) == i.key)
  {
    if cs != [] {
      var init, last := cs[..|cs| - 1], cs[|cs| - 1];
      PrefixNonempty(cs);
      InsertAllFacts(incidents, init);
      InsertOne(InsertAll(incidents, init), last);
      assert forall c :: c in cs ==> c in init || c == last;
      assert last in cs && forall c :: c in init ==> c in cs;
    }
  }

  /** Inserting candidates whose keys are all present changes nothing. */
  lemma {:induction false} InsertPresent(incidents: seq<Incident>, cs: seq<Candidate>)
    requires AllNonempty(cs) && forall c :: c in cs ==> HasKey(incidents, DedupeKey(c))
    ensures InsertAll(incidents, cs) == incidents
  {
    if cs != [] {
      PrefixNonempty(cs);
      assert cs[|cs| - 1] in cs;
      InsertPresent(incidents, cs[..|cs| - 1]);
    }
  }

  lemma RowsAfter(t: Store, cs: seq<Candidate>, now: real, message: string)
    ensures var u := AfterPersist(t, cs, now, message);
            u.rows == t.rows || u.rows == t.rows + [SweepRow(t.lastId + 1, now, message)]
  {
  }

  /** The candidates of a sweep are the same after an earlier sweep logged its own audit row. */
  lemma SameDetection(c: Config, t: Store, cs: seq<Candidate>, since: real, now: real, message: string)
    ensures Detected(c, AfterPersist(t, cs, now, message), since) == Detected(c, t, since)
  {
    RowsAfter(t, cs, now, message);
    var row := SweepRow(t.lastId + 1, now, message);
    if AfterPersist(t, cs, now, message).rows == t.rows + [row] {
      OwnRowIsSilent(c, t.lastId + 1, now, message);
      OwnRowChangesNothing(c, t.rows, row, since);
    }
  }

  lemma PersistAgain(t: Store, cs: seq<Candidate>, now: real, later: real, message: string)
    ensures var u := AfterPersist(t, cs, now, message);
            && AfterPersist(u, cs, later, message) == u
            && NewCount(u, u, cs) == if AllNonempty(cs) then Some(0) else None
  {
    if AllNonempty(cs) {
      InsertAllFacts(t.incidents, cs);
      InsertPresent(InsertAll(t.incidents, cs), cs);
    }
  }

  /**
    A second sweep with the same horizon over otherwise unchanged data inserts nothing, reports
    nothing and logs nothing, even though the first one logged its own audit row.
  */
  lemma ResweepInsertsNothing(c: Config, t: Store, since: real, now: real, later: real, message: string)
    ensures var u := AfterPersist(t, Detected(c, t, since), now, message);
            var again := Detected(c, u, since);
            && AfterPersist(u, again, later, message) == u
            && NewCount(u, u, again) == if AllNonempty(again) then Some(0) else None
  {
    var cs := Detected(c, t, since);
    SameDetection(c, t, cs, since, now, message);
    PersistAgain(t, cs, now, later, message);
  }

  /** Two sweeps in a row with the same horizon: the second changes nothing. */
  method SweepTwice(engine: CorrelationEngine, since: real, now: real, later: real, message: string)
    returns (first: Option<int>, second: Option<int>)
    modifies engine
    ensures var t := old(engine.View());
            engine.View() == AfterPersist(t, Detected(engine.config, t, since), now, message)
    ensures second.Some? ==> second == Some(0)
  {
    ResweepInsertsNothing(engine.config, engine.View(), since, now, later, message);
    first := engine.Sweep(since, now, message);
    second := engine.Sweep(since, later, message);
  }

  // ---- the brute-force key ----

  lemma {:induction false} EarliestOfOrdered(es: seq<Event>)
    requires Ordered(TimeOf(), es) && es != []
    ensures Earliest(es) == es[0]
  {
    if |es| > 1 {
      var init := es[..|es| - 1];
      assert forall i :: 0 <= i < |init| ==> init[i] == es[i];
      EarliestOfOrdered(init);
      assert TimeOf()(es[0]) <= TimeOf()(es[|es| - 1]);
    }
  }

  lemma {:induction false} FilterOrdered(p: Event -> bool, es: seq<Event>)
    requires Ordered(TimeOf(), es)
    ensures Ordered(TimeOf(), Filter(p, es))
  {
    if es != [] {
      var init, last := es[..|es| - 1], es[|es| - 1];
      assert forall i :: 0 <= i < |init| ==> init[i] == es[i];
      FilterOrdered(p, init);
      FilterMember(p, init);
      forall e | e in Filter(p, init) ensures TimeOf()(e) <= TimeOf()(last) {
        var i :| 0 <= i < |init| && init[i] == e;
        assert TimeOf()(es[i]) <= TimeOf()(es[|init|]);
      }
    }
  }

  /** A cluster of time-sorted events that starts at its anchor. */
  lemma ClusterFacts(all: seq<Event>, i: nat, window: int)
    requires i < |all| && Ordered(TimeOf(), all)
    ensures Ordered(TimeOf(), Cluster(all, i, window))
    ensures forall e :: e in Cluster(all, i, window) ==> e in all
  {
    var rest := all[i..];
    assert forall j :: 0 <= j < |rest| ==> rest[j] == all[i + j];
    FilterOrdered(Reaching(all[i].timestamp, window), rest);
    FilterMember(Reaching(all[i].timestamp, window), rest);
  }

  predicate AllOf(es: seq<Event>, user: string) {
    forall e :: e in es ==> e.entity == user && user != ""
  }

  lemma {:induction false} OneName(es: seq<Event>, user: string)
    requires es != [] && AllOf(es, user)
    ensures EventNames(es) == [user]
  {
    assert es[|es| - 1] in es;
    if |es| > 1 {
      var init := es[..|es| - 1];
      assert forall e :: e in init ==> e in es;
      OneName(init, user);
    } else {
      assert es[..0] == [];
    }
  }

  lemma OneUserKey(es: seq<Event>, user: string)
    requires es != [] && Ordered(TimeOf(), es) && AllOf(es, user)
    ensures DedupeKey(Candidate("brute_force_burst", es, [])) == Key(KeyText("brute_force_burst", [user], es[0].id))
  {
    EarliestOfOrdered(es);
    OneName(es, user);
  }

  lemma UserBurstFacts(events: seq<Event>, user: string, threshold: int, window: int)
    requires UserBurst(events, user, threshold, window).Some?
    ensures var es := UserBurst(events, user, threshold, window).value;
            Ordered(TimeOf(), es) && AllOf(es, user)
  {
    var mine := Filter(FailureBy(user), events);
    var all := SortBy(TimeOf(), mine);
    SortFacts(TimeOf(), mine);
    FilterMember(FailureBy(user), events);
    var i := FirstAnchor(Failures, all, threshold, window, 0);
    ClusterFacts(all, i, window);
    var es := Cluster(all, i, window);
    forall e | e in es ensures e.entity == user && user != "" {
      assert e in all;
      assert e in mine;
      assert FailureBy(user)(e);
    }
  }

  /** The key of a brute-force incident: its one user, and the id of the first event of its cluster. */
  lemma BruteForceKey(events: seq<Event>, user: string, threshold: int, window: int)
    requires UserBurst(events, user, threshold, window).Some? && UserBurst(events, user, threshold, window).value != []
    ensures var es := UserBurst(events, user, threshold, window).value;
            DedupeKey(Candidate("brute_force_burst", es, [])) == Key(KeyText("brute_force_burst", [user], es[0].id))
  {
    UserBurstFacts(events, user, threshold, window);
    OneUserKey(UserBurst(events, user, threshold, window).value, user);
  }

  /**
    Appending events no earlier than all existing ones never changes the dedupe key of a
    brute-force incident already raised, so the sweep keeps recognising it.
  */
  lemma BruteForceKeyStays(events: seq<Event>, more: seq<Event>, user: string, threshold: int, window: int)
    requires forall e, x :: e in events && x in more ==> e.timestamp <= x.timestamp
    requires UserBurst(events, user, threshold, window).Some? && UserBurst(events, user, threshold, window).value != []
    ensures var before := UserBurst(events, user, threshold, window);
            var after := UserBurst(events + more, user, threshold, window);
            && after.Some? && after.value != []
            && DedupeKey(Candidate("brute_force_burst", after.value, []))
               == DedupeKey(Candidate("brute_force_burst", before.value, []))
  {
    BruteForceAnchorStays(events, more, user, threshold, window);
    BruteForceKey(events, user, threshold, window);
    BruteForceKey(events + more, user, threshold, window);
  }

  // ---- a burst is reported once ----

  lemma NormalizeAppend(c: Config, a: seq<AuditRow>, b: seq<AuditRow>)
    ensures NormalizeAll(c, a + b) == NormalizeAll(c, a) + NormalizeAll(c, b)
  {
  }

  lemma NormalizedTimes(c: Config, a: seq<AuditRow>, e: Event)
    requires e in NormalizeAll(c, a)
    ensures exists r :: r in a && r.timestamp == e.timestamp
  {
    var i :| 0 <= i < |a| && NormalizeAll(c, a)[i] == e;
    assert a[i] in a;
  }

  lemma NormalizedBehind(c: Config, a: seq<AuditRow>, b: seq<AuditRow>)
    requires forall r, x :: r in a && x in b ==> r.timestamp <= x.timestamp
    ensures forall e, x :: e in NormalizeAll(c, a) && x in NormalizeAll(c, b) ==> e.timestamp <= x.timestamp
  {
    forall e, x | e in NormalizeAll(c, a) && x in NormalizeAll(c, b) ensures e.timestamp <= x.timestamp {
      NormalizedTimes(c, a, e);
      NormalizedTimes(c, b, x);
    }
  }

  /** Rows no earlier than all earlier ones load behind them. */
  lemma LoadsBehind(c: Config, rows: seq<AuditRow>, more: seq<AuditRow>, since: real)
    requires forall r, x :: r in rows && x in more ==> r.timestamp <= x.timestamp
    ensures LoadEvents(c, rows + more, since) == LoadEvents(c, rows, since) + LoadEvents(c, more, since)
    ensures forall e, x :: e in LoadEvents(c, rows, since) && x in LoadEvents(c, more, since)
                           ==> e.timestamp <= x.timestamp
  {
    var a, b := Filter(NotOlder(since), rows), Filter(NotOlder(since), more);
    FilterAppend(NotOlder(since), rows, more);
    FilterMember(NotOlder(since), rows);
    FilterMember(NotOlder(since), more);
    NormalizeAppend(c, a, b);
    NormalizedBehind(c, a, b);
    SortBehind(NormalizeAll(c, a), NormalizeAll(c, b));
  }

  lemma SortBehind(a: seq<Event>, b: seq<Event>)
    requires forall e, x :: e in a && x in b ==> e.timestamp <= x.timestamp
    ensures SortBy(TimeOf(), a + b) == SortBy(TimeOf(), a) + SortBy(TimeOf(), b)
    ensures forall e, x :: e in SortBy(TimeOf(), a) && x in SortBy(TimeOf(), b) ==> e.timestamp <= x.timestamp
  {
    SortAppend(TimeOf(), a, b);
    SortFacts(TimeOf(), a);
    SortFacts(TimeOf(), b);
  }

  /** The sweep's own row is in no user's burst. */
  lemma OwnRowInNoBurst(c: Config, t: Store, cs: seq<Candidate>, since: real, now: real, message: string, user: string)
    ensures UserBurst(LoadEvents(c, AfterPersist(t, cs, now, message).rows, since), user, c.bruteThreshold,
                      c.bruteWindow)
            == UserBurst(LoadEvents(c, t.rows, since), user, c.bruteThreshold, c.bruteWindow)
  {
    RowsAfter(t, cs, now, message);
    var row := SweepRow(t.lastId + 1, now, message);
    if AfterPersist(t, cs, now, message).rows == t.rows + [row] {
      OwnRowIsSilent(c, t.lastId + 1, now, message);
      if row.timestamp >= since {
        var a, b := LoadOneMore(c, t.rows, row, since);
        FilterSkips(FailureBy(user), a, Normalize(c, row), b);
      } else {
        assert (t.rows + [row])[..|t.rows + [row]| - 1] == t.rows;
        assert Filter(NotOlder(since), t.rows + [row]) == Filter(NotOlder(since), t.rows);
      }
    }
  }

  /** Only the brute-force rule raises candidates under its name. */
  lemma OnlyBruteForce(c: Config, es: seq<Event>, x: Candidate)
    requires x in Candidates(c, es) && x.rule == "brute_force_burst"
    ensures x in BruteForce(es, c.bruteThreshold, c.bruteWindow)
  {
    SuccessRule(Filter(IsSuccess(), es), Filter(AnyFailure(), es), c.successThreshold, c.successWindow);
    ReconRule(Filter(IsRecon(), es), Filter(Named("AUTH_FAILURE"), es), c.chainWindow);
    FimRule(Filter(IsNetworkCritical(), es), Filter(IsFim(), es), c.chainWindow);
    IocRule(c.watched, es);
    var replays := Filter(Named("REPLAY_ATTACK"), es);
    assert forall y :: y in ReplayCandidates(replays) ==> y.rule == "replay_attack";
  }

  ghost predicate AllNamed(cs: seq<Candidate>, rule: string) {
    forall y :: y in cs ==> y.rule == rule
  }

  lemma {:induction false} SuccessRule(successes: seq<Event>, failures: seq<Event>, threshold: int, window: int)
    ensures AllNamed(SuccessChains(successes, failures, threshold, window), "auth_success_after_failures")
  {
    if successes != [] {
      SuccessRule(successes[..|successes| - 1], failures, threshold, window);
    }
  }

  lemma {:induction false} ReconRule(recon: seq<Event>, failures: seq<Event>, window: int)
    ensures AllNamed(ReconChains(recon, failures, window), "recon_then_auth")
  {
    if recon != [] {
      ReconRule(recon[..|recon| - 1], failures, window);
    }
  }

  lemma {:induction false} FimRule(network: seq<Event>, fim: seq<Event>, window: int)
    ensures AllNamed(FimChains(network, fim, window), "network_then_fim")
  {
    if network != [] {
      FimRule(network[..|network| - 1], fim, window);
    }
  }

  lemma {:induction false} MatchRule(groups: seq<Candidate>, name: string, e: Event)
    requires AllNamed(groups, "ioc_match")
    ensures AllNamed(AddMatch(groups, name, e), "ioc_match")
  {
    if groups != [] {
      assert groups[0] in groups && forall y :: y in groups[1..] ==> y in groups;
      MatchRule(groups[1..], name, e);
    }
  }

  lemma {:induction false} MatchesRule(watched: string -> bool, groups: seq<Candidate>, names: seq<string>, e: Event)
    requires AllNamed(groups, "ioc_match")
    ensures AllNamed(AddMatches(watched, groups, names, e), "ioc_match")
    decreases |names|
  {
    if names != [] {
      MatchRule(groups, names[0], e);
      MatchesRule(watched, if watched(names[0]) then AddMatch(groups, names[0], e) else groups, names[1..], e);
    }
  }

  lemma {:induction false} IocRule(watched: string -> bool, es: seq<Event>)
    ensures AllNamed(IocMatches(watched, es), "ioc_match")
  {
    if es != [] {
      var init, e := es[..|es| - 1], es[|es| - 1];
      IocRule(watched, init);
      MatchesRule(watched, IocMatches(watched, init), Mentioned(e), e);
    }
  }

  /** An incident that was not there before is a candidate whose key was not. */
  lemma {:induction false} NewIncident(incidents: seq<Incident>, cs: seq<Candidate>, i: Incident) returns (x: Candidate)
    requires AllNonempty(cs) && i in InsertAll(incidents, cs) && i !in incidents
    ensures x in cs && i == Incident(DedupeKey(x), x.rule, x.events) && !HasKey(incidents, DedupeKey(x))
  {
    var init, last := cs[..|cs| - 1], cs[|cs| - 1];
    PrefixNonempty(cs);
    assert cs == init + [last];
    InsertAllFacts(incidents, init);
    if i in InsertAll(incidents, init) {
      x := NewIncident(incidents, init, i);
    } else {
      x := last;
      assert forall k :: k in incidents ==> k in InsertAll(incidents, init);
    }
  }

  /** A brute-force incident about this user. */
  ghost predicate AboutUser(i: Incident, user: string) {
    i.rule == "brute_force_burst" && i.events != [] && AllOf(i.events, user)
  }

  /** The sweep raised a brute-force incident for the user from these rows. */
  ghost predicate Raised(c: Config, rows: seq<AuditRow>, since: real, user: string) {
    var burst := UserBurst(LoadEvents(c, rows, since), user, c.bruteThreshold, c.bruteWindow);
    burst.Some? && burst.value != []
  }

  lemma BurstInRule(es: seq<Event>, user: string, threshold: int, window: int, burst: seq<Event>)
    requires UserBurst(es, user, threshold, window) == Some(burst)
    ensures Candidate("brute_force_burst", burst, []) in BruteForce(es, threshold, window)
  {
    BruteForceCandidates(es, threshold, window);
  }

  lemma InFirstRule(c: Config, es: seq<Event>, x: Candidate, brute: seq<Candidate>)
    requires brute == BruteForce(es, c.bruteThreshold, c.bruteWindow) && x in brute
    ensures x in Candidates(c, es)
  {
  }

  lemma BurstIsCandidate(c: Config, t: Store, since: real, user: string)
    requires Raised(c, t.rows, since, user)
    ensures var es := UserBurst(LoadEvents(c, t.rows, since), user, c.bruteThreshold, c.bruteWindow).value;
            Candidate("brute_force_burst", es, []) in Detected(c, t, since)
  {
    var es := LoadEvents(c, t.rows, since);
    var burst := UserBurst(es, user, c.bruteThreshold, c.bruteWindow).value;
    BurstInRule(es, user, c.bruteThreshold, c.bruteWindow, burst);
    InFirstRule(c, es, Candidate("brute_force_burst", burst, []), BruteForce(es, c.bruteThreshold, c.bruteWindow));
  }

  lemma BurstOfUser(c: Config, es: seq<Event>, x: Candidate, user: string)
    requires x in Candidates(c, es) && x.rule == "brute_force_burst" && x.events != [] && AllOf(x.events, user)
    ensures UserBurst(es, user, c.bruteThreshold, c.bruteWindow) == Some(x.events)
    ensures x == Candidate("brute_force_burst", x.events, [])
  {
    OnlyBruteForce(c, es, x);
    BruteForceCandidates(es, c.bruteThreshold, c.bruteWindow);
    var u :| UserBurst(es, u, c.bruteThreshold, c.bruteWindow) == Some(x.events);
    UserBurstFacts(es, u, c.bruteThreshold, c.bruteWindow);
    assert x.events[0] in x.events;
  }

  /** The key of the user's burst after later rows is the one the first sweep stored. */
  lemma SameBurstKey(c: Config, t: Store, more: seq<AuditRow>, since: real, now: real, message: string, user: string)
    requires Raised(c, t.rows, since, user) && AllNonempty(Detected(c, t, since))
    requires var u := AfterPersist(t, Detected(c, t, since), now, message);
             forall r, x :: r in u.rows && x in more ==> r.timestamp <= x.timestamp
    ensures var u := AfterPersist(t, Detected(c, t, since), now, message);
            var burst := UserBurst(LoadEvents(c, u.rows + more, since), user, c.bruteThreshold, c.bruteWindow);
            && burst.Some? && burst.value != []
            && HasKey(u.incidents, DedupeKey(Candidate("brute_force_burst", burst.value, [])))
  {
    var cs := Detected(c, t, since);
    var u := AfterPersist(t, cs, now, message);
    OwnRowInNoBurst(c, t, cs, since, now, message, user);
    LoadsBehind(c, u.rows, more, since);
    BruteForceKeyStays(LoadEvents(c, u.rows, since), LoadEvents(c, more, since), user, c.bruteThreshold, c.bruteWindow);
    BurstIsCandidate(c, t, since, user);
    InsertAllFacts(t.incidents, cs);
  }

  /** A new incident about the user would carry a key that is not stored yet. */
  lemma FreshKey(c: Config, es: seq<Event>, incidents: seq<Incident>, cs: seq<Candidate>, user: string,
                 burst: seq<Event>, i: Incident)
    requires cs == Candidates(c, es) && AllNonempty(cs) && i in InsertAll(incidents, cs) && i !in incidents
    requires AboutUser(i, user) && burst != []
    requires UserBurst(es, user, c.bruteThreshold, c.bruteWindow) == Some(burst)
    ensures !HasKey(incidents, DedupeKey(Candidate("brute_force_burst", burst, [])))
  {
    var x := NewIncident(incidents, cs, i);
    BurstOfUser(c, es, x, user);
  }

  /** A store that already holds the key of the user's burst stores no further incident about the user. */
  lemma BurstNotAgain(c: Config, v: Store, since: real, later: real, message: string, user: string, burst: seq<Event>)
    requires UserBurst(LoadEvents(c, v.rows, since), user, c.bruteThreshold, c.bruteWindow) == Some(burst)
    requires burst != []
    requires HasKey(v.incidents, DedupeKey(Candidate("brute_force_burst", burst, [])))
    ensures forall i :: i in AfterPersist(v, Detected(c, v, since), later, message).incidents && AboutUser(i, user)
                        ==> i in v.incidents
  {
    var es, cs := LoadEvents(c, v.rows, since), Detected(c, v, since);
    if AllNonempty(cs) {
      assert AfterPersist(v, cs, later, message).incidents == InsertAll(v.incidents, cs);
      forall i | i in InsertAll(v.incidents, cs) && AboutUser(i, user) ensures i in v.incidents {
        if i !in v.incidents {
          FreshKey(c, es, v.incidents, cs, user, burst, i);
        }
      }
    }
  }

  /**
    After a sweep that raised a brute-force incident for a user, and any rows no earlier than those
    there, the next sweep with the same horizon stores no further brute-force incident for that user.
  */
  lemma BurstReportedOnce(c: Config, t: Store, more: seq<AuditRow>, lastId: int, since: real,
                          now: real, later: real, message: string, message': string, user: string)
    requires Raised(c, t.rows, since, user) && AllNonempty(Detected(c, t, since))
    requires var u := AfterPersist(t, Detected(c, t, since), now, message);
             forall r, x :: r in u.rows && x in more ==> r.timestamp <= x.timestamp
    ensures var u := AfterPersist(t, Detected(c, t, since), now, message);
            var v := u.(rows := u.rows + more, lastId := lastId);
            forall i :: i in AfterPersist(v, Detected(c, v, since), later, message').incidents && AboutUser(i, user)
                        ==> i in u.incidents
  {
    var u := AfterPersist(t, Detected(c, t, since), now, message);
    var v := u.(rows := u.rows + more, lastId := lastId);
    SameBurstKey(c, t, more, since, now, message, user);
    var burst := UserBurst(LoadEvents(c, u.rows + more, since), user, c.bruteThreshold, c.bruteWindow);
    BurstNotAgain(c, v, since, later, message', user, burst.value);
  }
}
