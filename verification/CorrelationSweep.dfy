/** The correlation sweep: all seven rules over the loaded events, persisted under a unique key. */
module CorrelationSweep {
  import opened Sequences
  import opened StableSort
  import opened WindowRules
  import opened ChainRules
  import opened DedupeKeys

  /** A row of `audit_events`; the context keeps its string-valued entries. */
  datatype AuditRow = AuditRow(id: int, timestamp: real, level: string, source: string, message: string,
                               context: map<string, string>)

  /** Thresholds, windows and the watchlist; `parse` classifies rows of the known modules. */
  datatype Config = Config(bruteThreshold: int, bruteWindow: int, sprayThreshold: int, sprayWindow: int,
                           successThreshold: int, successWindow: int, chainWindow: int,
                           watched: string -> bool, parse: AuditRow -> (string, string, string))

  // ---- loading ----

  predicate KnownModule(source: string) {
    source in {"network_sensor", "network", "auth_core", "auth", "fim_monitor", "fim"}
  }

  /** Category, event name and entity; rows of any other module are system events with no entity. */
  function Classify(c: Config, r: AuditRow): (string, string, string) {
    if KnownModule(r.source) then c.parse(r) else ("system", "SYSTEM_EVENT", "")
  }

  function Normalize(c: Config, r: AuditRow): Event {
    var (category, name, entity) := Classify(c, r);
    Event(r.id, r.timestamp, r.level, category, name, entity, r.context)
  }

  function NotOlder(since: real): AuditRow -> bool { (r: AuditRow) => r.timestamp >= since }

  function NormalizeAll(c: Config, rows: seq<AuditRow>): seq<Event> {
    seq(|rows|, i requires 0 <= i < |rows| => Normalize(c, rows[i]))
  }

  /** Rows since the horizon, normalized and ordered by time, then by id. */
  function LoadEvents(c: Config, rows: seq<AuditRow>, since: real): seq<Event> {
    SortBy(TimeOf(), NormalizeAll(c, Filter(NotOlder(since), rows)))
  }

  // ---- all rules ----

  /** The candidates of all rules, in the order the rules run. */
  function Candidates(c: Config, es: seq<Event>): seq<Candidate> {
    BruteForce(es, c.bruteThreshold, c.bruteWindow)
    + Spray(es, c.sprayThreshold, c.sprayWindow)
    + ChainCandidates(c, es)
  }

  function ChainCandidates(c: Config, es: seq<Event>): seq<Candidate> {
    SuccessChains(Filter(IsSuccess(), es), Filter(AnyFailure(), es), c.successThreshold, c.successWindow)
    + ReplayCandidates(Filter(Named("REPLAY_ATTACK"), es))
    + ReconChains(Filter(IsRecon(), es), Filter(Named("AUTH_FAILURE"), es), c.chainWindow)
    + FimChains(Filter(IsNetworkCritical(), es), Filter(IsFim(), es), c.chainWindow)
    + IocMatches(c.watched, es)
  }

  // ---- persistence ----

  /** A row of `incidents`, identified by its unique key. */
  datatype Incident = Incident(key: Key, rule: string, events: seq<Event>)

  predicate HasKey(incidents: seq<Incident>, key: Key) {
    exists i :: i in incidents && i.key == key
  }

  predicate AllNonempty(cs: seq<Candidate>) {
    forall c :: c in cs ==> c.events != []
  }

  /** INSERT OR IGNORE of one candidate. */
  function Insert(incidents: seq<Incident>, c: Candidate): seq<Incident>
    requires c.events != []
  {
    if HasKey(incidents, DedupeKey(c)) then incidents
    else incidents + [Incident(DedupeKey(c), c.rule, c.events)]
  }

  function InsertAll(incidents: seq<Incident>, cs: seq<Candidate>): seq<Incident>
    requires AllNonempty(cs)
  {
    if cs == [] then incidents
    else assert cs[|cs| - 1] in cs;
         assert forall c :: c in cs[..|cs| - 1] ==> c in cs;
         Insert(InsertAll(incidents, cs[..|cs| - 1]), cs[|cs| - 1])
  }

  lemma InsertNext(incidents: seq<Incident>, cs: seq<Candidate>, k: nat)
    requires AllNonempty(cs) && k < |cs|
    ensures AllNonempty(cs[..k]) && AllNonempty(cs[..k + 1]) && cs[k].events != []
    ensures InsertAll(incidents, cs[..k + 1]) == Insert(InsertAll(incidents, cs[..k]), cs[k])
  {
    assert cs[k] in cs && cs[..k + 1][..k] == cs[..k];
    assert forall c :: c in cs[..k + 1] ==> c in cs;
  }

  /** The audit row a sweep logs about itself; its context holds only numbers. */
  function SweepRow(id: int, now: real, message: string): AuditRow {
    AuditRow(id, now, "WARNING", "detection_engine", message, map[])
  }

  /** The tables a sweep works on. */
  datatype Store = Store(rows: seq<AuditRow>, lastId: int, incidents: seq<Incident>)

  /**
    Persisting candidates: INSERT OR IGNORE of each, and one audit row if any was new. A candidate
    with no events (a negative window with a threshold of 0) aborts, leaving everything unchanged.
  */
  function AfterPersist(t: Store, cs: seq<Candidate>, now: real, message: string): Store {
    if !AllNonempty(cs) then t
    else
      var incidents := InsertAll(t.incidents, cs);
      if |incidents| > |t.incidents|
      then Store(t.rows + [SweepRow(t.lastId + 1, now, message)], t.lastId + 1, incidents)
      else t.(incidents := incidents)
  }

  function NewCount(before: Store, after: Store, cs: seq<Candidate>): Option<int> {
    if AllNonempty(cs) then Some(|after.incidents| - |before.incidents|) else None
  }

  /** The candidates a sweep raises from a store. */
  function Detected(c: Config, t: Store, since: real): seq<Candidate> {
    Candidates(c, LoadEvents(c, t.rows, since))
  }

  class CorrelationEngine {
    const config: Config
    var rows: seq<AuditRow>
    var lastId: int
    var incidents: seq<Incident>

    function View(): Store
      reads this
    {
      Store(rows, lastId, incidents)
    }

    constructor (config: Config)
      ensures this.config == config && View() == Store([], 0, [])
    {
      this.config := config;
      rows, lastId, incidents := [], 0, [];
    }

    method Detect(since: real) returns (cs: seq<Candidate>)
      ensures cs == Detected(config, View(), since)
    {
      var events := LoadEvents(config, rows, since);
      var brute := RuleBruteForce(events, config.bruteThreshold, config.bruteWindow);
      var spray := RulePasswordSpray(events, config.sprayThreshold, config.sprayWindow);
      var success := RuleAuthSuccessAfterFailures(events, config.successThreshold, config.successWindow);
      var replay := ReplayCandidates(Filter(Named("REPLAY_ATTACK"), events));
      var recon := RuleReconThenAuth(events, config.chainWindow);
      var fim := RuleNetworkThenFim(events, config.chainWindow);
      var ioc := RuleIocMatch(events, config.watched);
      cs := brute + spray + (success + replay + recon + fim + ioc);
    }

    method InsertOrIgnore(cs: seq<Candidate>) returns (newCount: nat)
      requires AllNonempty(cs)
      modifies this`incidents
      ensures incidents == InsertAll(old(incidents), cs)
      ensures newCount == |incidents| - |old(incidents)|
    {
      newCount := 0;
      for k := 0 to |cs|
        invariant AllNonempty(cs[..k])
        invariant incidents == InsertAll(old(incidents), cs[..k])
        invariant |incidents| == |old(incidents)| + newCount
      {
        InsertNext(old(incidents), cs, k);
        if !HasKey(incidents, DedupeKey(cs[k])) {
          incidents := incidents + [Incident(DedupeKey(cs[k]), cs[k].rule, cs[k].events)];
          newCount := newCount + 1;
        }
      }
      assert cs[..|cs|] == cs;
    }

    method Persist(cs: seq<Candidate>, now: real, message: string) returns (newCount: Option<int>)
      modifies this`rows, this`lastId, this`incidents
      ensures View() == AfterPersist(old(View()), cs, now, message)
      ensures newCount == NewCount(old(View()), View(), cs)
    {
      if !AllNonempty(cs) {
        return None;
      }
      var count := InsertOrIgnore(cs);
      if count > 0 {
        lastId := lastId + 1;
        rows := rows + [SweepRow(lastId, now, message)];
      }
      newCount := Some(count);
    }

    /** The number of new incidents, or nothing when the sweep aborts. */
    method Sweep(since: real, now: real, message: string) returns (newCount: Option<int>)
      modifies this`rows, this`lastId, this`incidents
      ensures View() == AfterPersist(old(View()), Detected(config, old(View()), since), now, message)
      ensures newCount == NewCount(old(View()), View(), Detected(config, old(View()), since))
    {
      var cs := Detect(since);
      newCount := Persist(cs, now, message);
    }
  }
}
