/** What one sweep loads, raises, stores, counts and logs, read off its tables. */
module SweepExact {
  import opened Sequences
  import opened StableSort
  import opened WindowRules
  import opened ChainRules
  import opened DedupeKeys
  import opened CorrelationSweep
  import opened SweepProofs

  // ---- loading ----

  /** The event a row stands for: only the six sensor modules are parsed. */
  function EventOf(c: Config, r: AuditRow): Event {
    if || r.source == "network_sensor" || r.source == "network" || r.source == "auth_core"
       || r.source == "auth" || r.source == "fim_monitor" || r.source == "fim"
    then Event(r.id, r.timestamp, r.level, c.parse(r).0, c.parse(r).1, c.parse(r).2, r.context)
    else Event(r.id, r.timestamp, r.level, "system", "SYSTEM_EVENT", "", r.context)
  }

  /** A row since the horizon whose event satisfies `p`. */
  function Loading(c: Config, since: real, p: Event -> bool): AuditRow -> bool {
    (r: AuditRow) => since <= r.timestamp && p(EventOf(c, r))
  }

  lemma {:induction false} NormalizedCount(c: Config, rows: seq<AuditRow>, since: real, p: Event -> bool)
    ensures |Filter(p, NormalizeAll(c, Filter(NotOlder(since), rows)))| == |Filter(Loading(c, since, p), rows)|
  {
    if rows != [] {
      var init, r := rows[..|rows| - 1], rows[|rows| - 1];
      var recent := Filter(NotOlder(since), init);
      NormalizedCount(c, init, since, p);
      NormalizeAppend(c, recent, [r]);
      FilterAppend(p, NormalizeAll(c, recent), NormalizeAll(c, [r]));
      assert NormalizeAll(c, [r]) == [EventOf(c, r)];
      assert [EventOf(c, r)][..0] == [];
      assert NormalizeAll(c, recent + []) == NormalizeAll(c, recent);
    }
  }

  /** A sweep loads the event of every row since the horizon, as often as there are such rows, by time. */
  lemma LoadsExactly(c: Config, rows: seq<AuditRow>, since: real, p: Event -> bool)
    ensures |Filter(p, LoadEvents(c, rows, since))| == |Filter(Loading(c, since, p), rows)|
    ensures forall i, j :: 0 <= i < j < |LoadEvents(c, rows, since)| ==>
              LoadEvents(c, rows, since)[i].timestamp <= LoadEvents(c, rows, since)[j].timestamp
  {
    var events := NormalizeAll(c, Filter(NotOlder(since), rows));
    SortCount(TimeOf(), p, events);
    SortFacts(TimeOf(), events);
    NormalizedCount(c, rows, since, p);
    var sorted := SortBy(TimeOf(), events);
    forall i, j | 0 <= i < j < |sorted| ensures sorted[i].timestamp <= sorted[j].timestamp {
      assert TimeOf()(sorted[i]) <= TimeOf()(sorted[j]);
    }
  }

  // ---- detection ----

  function OfRule(rule: string): Candidate -> bool { (x: Candidate) => x.rule == rule }

  lemma FilterNamed(cs: seq<Candidate>, rule: string, wanted: string)
    requires SweepProofs.AllNamed(cs, rule)
    ensures Filter(OfRule(wanted), cs) == if wanted == rule then cs else []
  {
    if wanted == rule {
      FilterAll(OfRule(wanted), cs);
    } else {
      FilterNone(OfRule(wanted), cs);
    }
  }

  lemma {:induction false} BurstsRule(events: seq<Event>, users: seq<string>, threshold: int, window: int)
    ensures SweepProofs.AllNamed(BurstsOf(events, users, threshold, window), "brute_force_burst")
  {
    if users != [] {
      BurstsRule(events, users[..|users| - 1], threshold, window);
    }
  }

  lemma WindowRuleNamed(c: Config, es: seq<Event>, rule: string)
    ensures var brute := BruteForce(es, c.bruteThreshold, c.bruteWindow);
            var spray := Spray(es, c.sprayThreshold, c.sprayWindow);
            Filter(OfRule(rule), brute + spray) == if OfWindow(rule) then FoundBy(c, es, rule) else []
  {
    var brute := BruteForce(es, c.bruteThreshold, c.bruteWindow);
    var spray := Spray(es, c.sprayThreshold, c.sprayWindow);
    BurstsRule(es, Users(es), c.bruteThreshold, c.bruteWindow);
    FilterNamed(brute, "brute_force_burst", rule);
    FilterMore(brute, spray, "password_spray", rule);
  }

  lemma ChainRuleNamed(c: Config, es: seq<Event>, rule: string)
    ensures Filter(OfRule(rule), ChainCandidates(c, es)) == if OfWindow(rule) then [] else FoundBy(c, es, rule)
  {
    var success := SuccessChains(Filter(IsSuccess(), es), Filter(AnyFailure(), es),
                                 c.successThreshold, c.successWindow);
    var replay := ReplayCandidates(Filter(Named("REPLAY_ATTACK"), es));
    var recon := ReconChains(Filter(IsRecon(), es), Filter(Named("AUTH_FAILURE"), es), c.chainWindow);
    var fim := FimChains(Filter(IsNetworkCritical(), es), Filter(IsFim(), es), c.chainWindow);
    var ioc := IocMatches(c.watched, es);
    SuccessRule(Filter(IsSuccess(), es), Filter(AnyFailure(), es), c.successThreshold, c.successWindow);
    ReconRule(Filter(IsRecon(), es), Filter(Named("AUTH_FAILURE"), es), c.chainWindow);
    FimRule(Filter(IsNetworkCritical(), es), Filter(IsFim(), es), c.chainWindow);
    IocRule(c.watched, es);
    FilterFive(success, replay, recon, fim, ioc, rule);
  }

  lemma FilterFive(success: seq<Candidate>, replay: seq<Candidate>, recon: seq<Candidate>, fim: seq<Candidate>,
                   ioc: seq<Candidate>, rule: string)
    requires SweepProofs.AllNamed(success, "auth_success_after_failures")
    requires SweepProofs.AllNamed(replay, "replay_attack") && SweepProofs.AllNamed(recon, "recon_then_auth")
    requires SweepProofs.AllNamed(fim, "network_then_fim") && SweepProofs.AllNamed(ioc, "ioc_match")
    ensures Filter(OfRule(rule), success + replay + recon + fim + ioc)
            == if rule == "auth_success_after_failures" then success
               else if rule == "replay_attack" then replay
               else if rule == "recon_then_auth" then recon
               else if rule == "network_then_fim" then fim
               else if rule == "ioc_match" then ioc
               else []
  {
    FilterNamed(success, "auth_success_after_failures", rule);
    FilterMore(success, replay, "replay_attack", rule);
    FilterMore(success + replay, recon, "recon_then_auth", rule);
    FilterMore(success + replay + recon, fim, "network_then_fim", rule);
    FilterMore(success + replay + recon + fim, ioc, "ioc_match", rule);
  }

  lemma FilterMore(cs: seq<Candidate>, more: seq<Candidate>, rule: string, wanted: string)
    requires SweepProofs.AllNamed(more, rule)
    ensures wanted != rule ==> Filter(OfRule(wanted), cs + more) == Filter(OfRule(wanted), cs)
    ensures wanted == rule && Filter(OfRule(wanted), cs) == [] ==> Filter(OfRule(wanted), cs + more) == more
  {
    FilterNamed(more, rule, wanted);
    FilterAppend(OfRule(wanted), cs, more);
  }

  /** What the rule of a name raises, with the thresholds and windows of that rule. */
  function FoundBy(c: Config, es: seq<Event>, rule: string): seq<Candidate> {
    if rule == "brute_force_burst" then BruteForce(es, c.bruteThreshold, c.bruteWindow)
    else if rule == "password_spray" then Spray(es, c.sprayThreshold, c.sprayWindow)
    else if rule == "auth_success_after_failures" then
      SuccessChains(Filter(IsSuccess(), es), Filter(AnyFailure(), es), c.successThreshold, c.successWindow)
    else if rule == "replay_attack" then ReplayCandidates(Filter(Named("REPLAY_ATTACK"), es))
    else if rule == "recon_then_auth" then
      ReconChains(Filter(IsRecon(), es), Filter(Named("AUTH_FAILURE"), es), c.chainWindow)
    else if rule == "network_then_fim" then
      FimChains(Filter(IsNetworkCritical(), es), Filter(IsFim(), es), c.chainWindow)
    else if rule == "ioc_match" then IocMatches(c.watched, es)
    else []
  }

  predicate OfWindow(rule: string) { rule == "brute_force_burst" || rule == "password_spray" }

  /** The candidates under a rule's name are what that rule raises. */
  lemma DetectedByRule(c: Config, es: seq<Event>, rule: string)
    ensures Filter(OfRule(rule), Candidates(c, es)) == FoundBy(c, es, rule)
  {
    var windows := BruteForce(es, c.bruteThreshold, c.bruteWindow) + Spray(es, c.sprayThreshold, c.sprayWindow);
    FilterAppend(OfRule(rule), windows, ChainCandidates(c, es));
    WindowRuleNamed(c, es, rule);
    ChainRuleNamed(c, es, rule);
    JoinParts(Filter(OfRule(rule), windows), Filter(OfRule(rule), ChainCandidates(c, es)), OfWindow(rule),
              FoundBy(c, es, rule));
  }

  lemma JoinParts(a: seq<Candidate>, b: seq<Candidate>, first: bool, found: seq<Candidate>)
    requires a == (if first then found else []) && b == (if first then [] else found)
    ensures a + b == found
  {
  }

  // ---- storing ----

  /** The keys of the candidates that no stored incident has yet. */
  ghost function NewKeys(incidents: seq<Incident>, cs: seq<Candidate>): set<Key>
    requires AllNonempty(cs)
  {
    set x | x in cs && !HasKey(incidents, DedupeKey(x)) :: DedupeKey(x)
  }

  /** The k-th candidate is the first one with its key, and no incident had that key. */
  ghost predicate FirstOfKey(incidents: seq<Incident>, cs: seq<Candidate>, k: nat)
    requires k < |cs| && AllNonempty(cs)
  {
    assert forall j :: 0 <= j < |cs| ==> cs[j] in cs;
    !HasKey(incidents, DedupeKey(cs[k])) && forall j :: 0 <= j < k ==> DedupeKey(cs[j]) != DedupeKey(cs[k])
  }

  ghost predicate Stores(incidents: seq<Incident>, cs: seq<Candidate>, i: Incident)
    requires AllNonempty(cs)
  {
    assert forall j :: 0 <= j < |cs| ==> cs[j] in cs;
    exists k :: 0 <= k < |cs| && FirstOfKey(incidents, cs, k)
                && i == Incident(DedupeKey(cs[k]), cs[k].rule, cs[k].events)
  }

  lemma StoresLater(incidents: seq<Incident>, init: seq<Candidate>, last: Candidate, i: Incident)
    requires AllNonempty(init) && last.events != [] && Stores(incidents, init, i)
    ensures Stores(incidents, init + [last], i)
  {
    var k :| 0 <= k < |init| && FirstOfKey(incidents, init, k)
             && i == Incident(DedupeKey(init[k]), init[k].rule, init[k].events);
    assert FirstOfKey(incidents, init + [last], k);
  }

  lemma StoresLast(incidents: seq<Incident>, init: seq<Candidate>, last: Candidate)
    requires AllNonempty(init) && last.events != [] && !HasKey(InsertAll(incidents, init), DedupeKey(last))
    ensures Stores(incidents, init + [last], Incident(DedupeKey(last), last.rule, last.events))
  {
    InsertAllFacts(incidents, init);
    forall i | i in incidents ensures i.key != DedupeKey(last) {
      assert i in InsertAll(incidents, init);
    }
    forall j | 0 <= j < |init| ensures DedupeKey(init[j]) != DedupeKey(last) {
      assert init[j] in init;
    }
    assert FirstOfKey(incidents, init + [last], |init|);
  }

  lemma NewKeysNext(incidents: seq<Incident>, init: seq<Candidate>, last: Candidate)
    requires AllNonempty(init) && last.events != []
    ensures var before, key := NewKeys(incidents, init), DedupeKey(last);
            && NewKeys(incidents, init + [last])
               == (if HasKey(InsertAll(incidents, init), key) then before else before + {key})
            && (!HasKey(InsertAll(incidents, init), key) ==> key !in before)
  {
    InsertAllFacts(incidents, init);
    var after, key := InsertAll(incidents, init), DedupeKey(last);
    assert forall x :: x in init + [last] <==> x in init || x == last;
    if HasKey(after, key) {
      var i :| i in after && i.key == key;
      if i !in incidents {
        var x :| x in init && DedupeKey(x) == key;
      }
    }
  }

  lemma StoresNext(incidents: seq<Incident>, init: seq<Candidate>, last: Candidate, before: seq<Incident>)
    requires AllNonempty(init) && last.events != [] && before == InsertAll(incidents, init)
    requires forall n :: |incidents| <= n < |before| ==> Stores(incidents, init, before[n])
    ensures forall n :: |incidents| <= n < |Insert(before, last)| ==>
              Stores(incidents, init + [last], Insert(before, last)[n])
  {
    forall n | |incidents| <= n < |before| ensures Stores(incidents, init + [last], before[n]) {
      StoresLater(incidents, init, last, before[n]);
    }
    if !HasKey(before, DedupeKey(last)) {
      StoresLast(incidents, init, last);
    }
  }

  /**
    INSERT OR IGNORE stores, behind what is there, the first candidate of each key that no incident
    had, and as many incidents as there are such keys.
  */
  lemma {:induction false} StoresExactly(incidents: seq<Incident>, cs: seq<Candidate>)
    requires AllNonempty(cs)
    ensures incidents <= InsertAll(incidents, cs)
    ensures forall n :: |incidents| <= n < |InsertAll(incidents, cs)| ==>
              Stores(incidents, cs, InsertAll(incidents, cs)[n])
    ensures |InsertAll(incidents, cs)| == |incidents| + |NewKeys(incidents, cs)|
  {
    if cs != [] {
      var init, last := cs[..|cs| - 1], cs[|cs| - 1];
      PrefixNonempty(cs);
      assert cs == init + [last];
      StoresExactly(incidents, init);
      NewKeysNext(incidents, init, last);
      StoresNext(incidents, init, last, InsertAll(incidents, init));
    }
  }

  /** A sweep aborts exactly when some candidate has no events, and then changes nothing. */
  lemma AbortsExactly(t: Store, cs: seq<Candidate>, now: real, message: string)
    ensures var u := AfterPersist(t, cs, now, message);
            && (NewCount(t, u, cs) == None <==> exists x :: x in cs && x.events == [])
            && (NewCount(t, u, cs) == None ==> u == t)
  {
  }

  /** Otherwise it reports the number of new keys and logs its one row exactly when there is a new key. */
  lemma SweepExactly(t: Store, cs: seq<Candidate>, now: real, message: string)
    requires AllNonempty(cs)
    ensures var u, added := AfterPersist(t, cs, now, message), NewKeys(t.incidents, cs);
            && NewCount(t, u, cs) == Some(|added|)
            && u.rows == (if added == {} then t.rows else t.rows + [OwnRow(t, now, message)])
            && u.lastId == (if added == {} then t.lastId else t.lastId + 1)
  {
    CountsKeys(t.incidents, cs);
    var added := NewKeys(t.incidents, cs);
    PersistCounts(t, cs, now, message, |added|, added == {});
  }

  lemma PersistCounts(t: Store, cs: seq<Candidate>, now: real, message: string, n: nat, none: bool)
    requires AllNonempty(cs)
    requires |InsertAll(t.incidents, cs)| - |t.incidents| == n
    requires |InsertAll(t.incidents, cs)| > |t.incidents| <==> !none
    ensures var u := AfterPersist(t, cs, now, message);
            && NewCount(t, u, cs) == Some(n)
            && u.rows == (if none then t.rows else t.rows + [OwnRow(t, now, message)])
            && u.lastId == (if none then t.lastId else t.lastId + 1)
  {
  }

  function OwnRow(t: Store, now: real, message: string): AuditRow {
    AuditRow(id := t.lastId + 1, timestamp := now, level := "WARNING", source := "detection_engine",
             message := message, context := map[])
  }

  lemma CountsKeys(incidents: seq<Incident>, cs: seq<Candidate>)
    requires AllNonempty(cs)
    ensures |InsertAll(incidents, cs)| - |incidents| == |NewKeys(incidents, cs)|
    ensures |InsertAll(incidents, cs)| > |incidents| <==> NewKeys(incidents, cs) != {}
  {
    StoresExactly(incidents, cs);
    var added := NewKeys(incidents, cs);
    assert added == {} <==> |added| == 0;
  }
}
