/** A sweep that loses an incident, because two candidates it raises spell the same key. */
module SweepLimits {
  import opened Sequences
  import opened StableSort
  import opened WindowRules
  import opened DedupeKeys
  import opened ChainRules
  import opened CorrelationSweep

  /** Watched: the domain "b" and the address "b|c". The two rows name users "a" and "c". */
  const CONFIG := Config(1, 60, 1, 60, 1, 60, 60, (x: string) => x == "b" || x == "b|c",
                         (r: AuditRow) => ("auth", "AUTH_EVENT", r.message))
  const ROW1 := AuditRow(1, 10.0, "INFO", "auth", "a", map["domain" := "b", "source_ip" := "b|c"])
  const ROW2 := AuditRow(2, 11.0, "INFO", "auth", "c", map["domain" := "b"])
  const STORE := Store([ROW1, ROW2], 2, [])

  const FIRST := Event(1, 10.0, "INFO", "auth", "AUTH_EVENT", "a", map["domain" := "b", "source_ip" := "b|c"])
  const SECOND := Event(2, 11.0, "INFO", "auth", "AUTH_EVENT", "c", map["domain" := "b"])

  const BY_DOMAIN := Candidate("ioc_match", [FIRST, SECOND], ["b"])
  const BY_ADDRESS := Candidate("ioc_match", [FIRST], ["b|c"])

  lemma Loaded()
    ensures LoadEvents(CONFIG, STORE.rows, 0.0) == [FIRST, SECOND]
  {
    FilterAll(NotOlder(0.0), STORE.rows);
    assert NormalizeAll(CONFIG, STORE.rows) == [FIRST, SECOND];
    assert [FIRST, SECOND][..1] == [FIRST] && [FIRST][..0] == [];
    assert SortBy(TimeOf(), [FIRST]) == [FIRST];
  }

  // ---- the watchlist rule ----

  lemma FirstMatches()
    ensures AddMatches(CONFIG.watched, [], Mentioned(FIRST), FIRST)
            == [Candidate("ioc_match", [FIRST], ["b"]), BY_ADDRESS]
  {
    var g := [Candidate("ioc_match", [FIRST], ["b"])];
    assert Mentioned(FIRST) == ["a", "b", "b|c"];
    assert ["a", "b", "b|c"][1..] == ["b", "b|c"] && ["b", "b|c"][1..] == ["b|c"] && ["b|c"][1..] == [];
    assert AddMatch([], "b", FIRST) == g;
    assert g[1..] == [] && AddMatch(g, "b|c", FIRST) == g + [BY_ADDRESS];
    assert AddMatches(CONFIG.watched, g, ["b|c"], FIRST) == g + [BY_ADDRESS];
    assert AddMatches(CONFIG.watched, [], ["b", "b|c"], FIRST) == g + [BY_ADDRESS];
  }

  lemma SecondMatches()
    ensures AddMatches(CONFIG.watched, [Candidate("ioc_match", [FIRST], ["b"]), BY_ADDRESS], Mentioned(SECOND), SECOND)
            == [BY_DOMAIN, BY_ADDRESS]
  {
    var g := [Candidate("ioc_match", [FIRST], ["b"]), BY_ADDRESS];
    assert Mentioned(SECOND) == ["c", "b"];
    assert ["c", "b"][1..] == ["b"] && ["b"][1..] == [];
    assert g[1..] == [BY_ADDRESS] && [FIRST] + [SECOND] == [FIRST, SECOND];
    assert AddMatch(g, "b", SECOND) == [BY_DOMAIN] + [BY_ADDRESS];
    assert AddMatches(CONFIG.watched, g, ["b"], SECOND) == [BY_DOMAIN, BY_ADDRESS];
  }

  lemma Matches()
    ensures IocMatches(CONFIG.watched, [FIRST, SECOND]) == [BY_DOMAIN, BY_ADDRESS]
  {
    FirstMatches();
    SecondMatches();
    var step := AddMentioned(CONFIG.watched);
    assert [FIRST, SECOND][..1] == [FIRST] && [FIRST][..0] == [];
    assert FoldLeft(step, [], [FIRST]) == step([], FIRST);
  }

  // ---- no other rule ----

  lemma NoneSelected(p: Event -> bool)
    requires !p(FIRST) && !p(SECOND)
    ensures Filter(p, [FIRST, SECOND]) == []
  {
    FilterNone(p, [FIRST, SECOND]);
  }

  lemma NoBruteForce()
    ensures BruteForce([FIRST, SECOND], 1, 60) == [] && Spray([FIRST, SECOND], 1, 60) == []
  {
    assert [FIRST, SECOND][..1] == [FIRST] && [FIRST][..0] == [];
    assert Users([FIRST]) == [] && Users([FIRST, SECOND]) == [];
    NoneSelected(AnyFailure());
    assert Entities([]) == {};
  }

  lemma OnlyMatches()
    ensures Detected(CONFIG, STORE, 0.0) == [BY_DOMAIN, BY_ADDRESS]
  {
    Loaded();
    Matches();
    NoBruteForce();
    NoneSelected(IsSuccess());
    NoneSelected(AnyFailure());
    NoneSelected(Named("REPLAY_ATTACK"));
    NoneSelected(IsRecon());
    NoneSelected(Named("AUTH_FAILURE"));
    NoneSelected(IsNetworkCritical());
    NoneSelected(IsFim());
  }

  // ---- one key for two candidates ----

  lemma DomainNames()
    ensures EntitiesOf(BY_DOMAIN) == ["a", "c", "b"] && Earliest(BY_DOMAIN.events) == FIRST
  {
    assert [FIRST, SECOND][..1] == [FIRST] && [FIRST][..0] == [] && ["b"][..0] == [];
    assert AddOnce(["a"], "c") == ["a", "c"] && FIRST.entity == "a" && SECOND.entity == "c";
    assert EventNames([FIRST]) == ["a"];
    assert EventNames([FIRST, SECOND]) == AddOnce(EventNames([FIRST]), "c");
    assert WithExtra(["a", "c"], ["b"]) == AddOnce(WithExtra(["a", "c"], []), "b");
    assert Earliest([FIRST]) == FIRST;
  }

  lemma DomainText()
    ensures JoinNames(SortNames(["a", "c", "b"])) == "a|b|c"
  {
    TwoSorted("a", "c");
    assert ["a", "c", "b"][..2] == ["a", "c"] && ["a", "c"][1..] == ["c"];
    assert InsertName(["c"], "b") == ["b"] + ["c"];
    assert InsertName(["a", "c"], "b") == ["a"] + InsertName(["c"], "b");
    assert ["a", "b", "c"][1..] == ["b", "c"] && ["b", "c"][1..] == ["c"];
    assert JoinNames(["b", "c"]) == "b|c";
  }

  lemma SameText()
    ensures DedupeKey(BY_DOMAIN) == DedupeKey(BY_ADDRESS)
    ensures !SameNames(EntitiesOf(BY_DOMAIN), EntitiesOf(BY_ADDRESS))
  {
    DomainNames();
    DomainText();
    OneName("ioc_match", FIRST);
    TwoNames("ioc_match", FIRST, "b|c");
    TwoSorted("a", "b|c");
    assert "c" in ["a", "c", "b"];
  }

  /** Of two candidates with one key only the first is inserted. */
  lemma SecondIgnored(c: Candidate, d: Candidate)
    requires c.events != [] && d.events != [] && DedupeKey(c) == DedupeKey(d)
    ensures AllNonempty([c, d]) && InsertAll([], [c, d]) == [Incident(DedupeKey(c), c.rule, c.events)]
  {
    var i := Incident(DedupeKey(c), c.rule, c.events);
    assert [c, d][..1] == [c] && [c][..0] == [];
    assert Insert([], c) == [i];
    assert InsertAll([], [c]) == [i];
    assert i in [i];
  }

  /** Two watchlist incidents are raised, about different entities, and only one is stored. */
  lemma LostIncident(now: real, message: string)
    ensures Detected(CONFIG, STORE, 0.0) == [BY_DOMAIN, BY_ADDRESS]
    ensures !SameNames(EntitiesOf(BY_DOMAIN), EntitiesOf(BY_ADDRESS))
    ensures AfterPersist(STORE, Detected(CONFIG, STORE, 0.0), now, message).incidents
            == [Incident(DedupeKey(BY_DOMAIN), "ioc_match", BY_DOMAIN.events)]
  {
    OnlyMatches();
    SameText();
    SecondIgnored(BY_DOMAIN, BY_ADDRESS);
  }
}
