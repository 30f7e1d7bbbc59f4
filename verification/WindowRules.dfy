/** The two window rules of detection/correlation.py: brute force per user and password spraying. */
module WindowRules {
  import opened Sequences
  import opened StableSort

  /** A normalized event; the empty entity stands for none. */
  datatype Event = Event(id: int, timestamp: real, severity: string, category: string, name: string,
                         entity: string, context: map<string, string>)

  datatype Candidate = Candidate(rule: string, events: seq<Event>, extraEntities: seq<string>)

  function TimeOf(): Event -> real { (e: Event) => e.timestamp }

  predicate FailureNamed(name: string) {
    name == "AUTH_FAILURE" || name == "RATE_LIMITED"
  }

  function AnyFailure(): Event -> bool { (e: Event) => FailureNamed(e.name) && e.entity != "" }

  function FailureBy(user: string): Event -> bool {
    (e: Event) => FailureNamed(e.name) && e.entity != "" && e.entity == user
  }

  function Entities(es: seq<Event>): set<string> {
    set e | e in es :: e.entity
  }

  /** What a rule measures in a window: its failures, or the distinct users they target. */
  datatype Measure = Failures | DistinctUsers

  function Amount(m: Measure, es: seq<Event>): nat {
    match m case Failures => |es| case DistinctUsers => |Entities(es)|
  }

  function Reaching(anchor: real, window: int): Event -> bool {
    (e: Event) => e.timestamp - anchor <= window as real
  }

  /** The events from the anchor on that fit in its window. */
  function Cluster(es: seq<Event>, i: nat, window: int): seq<Event>
    requires i < |es|
  {
    Filter(Reaching(es[i].timestamp, window), es[i..])
  }

  /** The first anchor from `i` on whose cluster reaches the threshold. */
  function FirstAnchor(m: Measure, es: seq<Event>, threshold: int, window: int, i: nat): (r: nat)
    requires i <= |es|
    ensures i <= r <= |es|
    ensures forall j :: i <= j < r ==> Amount(m, Cluster(es, j, window)) < threshold
    ensures r < |es| ==> Amount(m, Cluster(es, r, window)) >= threshold
    decreases |es| - i
  {
    if i == |es| || Amount(m, Cluster(es, i, window)) >= threshold then i
    else FirstAnchor(m, es, threshold, window, i + 1)
  }

  /** The cluster of the earliest qualifying anchor of time-sorted events. */
  function Burst(m: Measure, es: seq<Event>, threshold: int, window: int): Option<seq<Event>> {
    var i := FirstAnchor(m, es, threshold, window, 0);
    if i < |es| then Some(Cluster(es, i, window)) else None
  }

  // ---- brute force ----

  function UserBurst(events: seq<Event>, user: string, threshold: int, window: int): Option<seq<Event>> {
    Burst(Failures, SortBy(TimeOf(), Filter(FailureBy(user), events)), threshold, window)
  }

  /** Users with failures, in order of their first one. */
  function Users(events: seq<Event>): seq<string> {
    if events == [] then []
    else var users, e := Users(events[..|events| - 1]), events[|events| - 1];
         if AnyFailure()(e) && e.entity !in users then users + [e.entity] else users
  }

  function BurstsOf(events: seq<Event>, users: seq<string>, threshold: int, window: int): seq<Candidate> {
    if users == [] then []
    else var before, u := BurstsOf(events, users[..|users| - 1], threshold, window), users[|users| - 1];
         match UserBurst(events, u, threshold, window)
         case None => before
         case Some(es) => before + [Candidate("brute_force_burst", es, [])]
  }

  function BruteForce(events: seq<Event>, threshold: int, window: int): seq<Candidate> {
    BurstsOf(events, Users(events), threshold, window)
  }

  // ---- password spray ----

  function SprayScan(events: seq<Event>, threshold: int, window: int): Option<seq<Event>> {
    Burst(DistinctUsers, SortBy(TimeOf(), Filter(AnyFailure(), events)), threshold, window)
  }

  /** The rule as coded: too few users in all returns early, before the anchor scan. */
  function Spray(events: seq<Event>, threshold: int, window: int): seq<Candidate> {
    if |Entities(Filter(AnyFailure(), events))| < threshold then []
    else match SprayScan(events, threshold, window)
         case None => []
         case Some(es) => [Candidate("password_spray", es, [])]
  }

  // ---- the rules as loops ----

  method FindBurst(m: Measure, es: seq<Event>, threshold: int, window: int) returns (r: Option<seq<Event>>)
    ensures r == Burst(m, es, threshold, window)
  {
    var i := 0;
    while i < |es|
      invariant 0 <= i <= |es|
      invariant FirstAnchor(m, es, threshold, window, 0) == FirstAnchor(m, es, threshold, window, i)
    {
      var cluster := Filter(Reaching(es[i].timestamp, window), es[i..]);
      if Amount(m, cluster) >= threshold {
        return Some(cluster);
      }
      i := i + 1;
    }
    r := None;
  }

  function GroupOf(failures: map<string, seq<Event>>, user: string): seq<Event> {
    if user in failures then failures[user] else []
  }

  /** The grouping dictionary: its keys in insertion order, each with its user's failures. */
  ghost predicate Grouped(events: seq<Event>, users: seq<string>, failures: map<string, seq<Event>>) {
    && users == Users(events)
    && (forall u :: u in failures <==> u in users)
    && (forall u {:trigger GroupOf(failures, u)} :: Filter(FailureBy(u), events) == GroupOf(failures, u))
  }

  lemma GroupSkip(events: seq<Event>, e: Event, users: seq<string>, failures: map<string, seq<Event>>)
    requires Grouped(events, users, failures) && !AnyFailure()(e)
    ensures Grouped(events + [e], users, failures)
  {
    assert (events + [e])[..|events + [e]| - 1] == events;
    forall u ensures Filter(FailureBy(u), events + [e]) == GroupOf(failures, u) {
      assert Filter(FailureBy(u), events) == GroupOf(failures, u);
    }
  }

  lemma GroupAdd(events: seq<Event>, e: Event, users: seq<string>, failures: map<string, seq<Event>>)
    requires Grouped(events, users, failures) && AnyFailure()(e)
    ensures Grouped(events + [e], if e.entity in failures then users else users + [e.entity],
                    failures[e.entity := GroupOf(failures, e.entity) + [e]])
  {
    assert (events + [e])[..|events + [e]| - 1] == events;
    forall u
      ensures Filter(FailureBy(u), events + [e]) == GroupOf(failures[e.entity := GroupOf(failures, e.entity) + [e]], u)
    {
      assert Filter(FailureBy(u), events) == GroupOf(failures, u);
    }
  }

  method GroupFailures(events: seq<Event>) returns (users: seq<string>, failures: map<string, seq<Event>>)
    ensures Grouped(events, users, failures)
  {
    users, failures := [], map[];
    for i := 0 to |events|
      invariant Grouped(events[..i], users, failures)
    {
      var e := events[i];
      assert events[..i + 1] == events[..i] + [e];
      if FailureNamed(e.name) && e.entity != "" {
        GroupAdd(events[..i], e, users, failures);
        if e.entity !in failures {
          users := users + [e.entity];
        }
        failures := failures[e.entity := GroupOf(failures, e.entity) + [e]];
      } else {
        GroupSkip(events[..i], e, users, failures);
      }
    }
    assert events[..|events|] == events;
  }

  method RuleBruteForce(events: seq<Event>, threshold: int, window: int) returns (candidates: seq<Candidate>)
    ensures candidates == BruteForce(events, threshold, window)
  {
    var users, failures := GroupFailures(events);
    candidates := [];
    for k := 0 to |users|
      invariant candidates == BurstsOf(events, users[..k], threshold, window)
    {
      assert users[..k + 1][..k] == users[..k];
      var u := users[k];
      assert Filter(FailureBy(u), events) == GroupOf(failures, u);
      var evts := SortBy(TimeOf(), failures[u]);
      var burst := FindBurst(Failures, evts, threshold, window);
      if burst.Some? {
        candidates := candidates + [Candidate("brute_force_burst", burst.value, [])];
      }
    }
    assert users[..|users|] == users;
  }

  method RulePasswordSpray(events: seq<Event>, threshold: int, window: int) returns (candidates: seq<Candidate>)
    ensures candidates == Spray(events, threshold, window)
  {
    var failures := Filter(AnyFailure(), events);
    if |Entities(failures)| < threshold {
      return [];
    }
    failures := SortBy(TimeOf(), failures);
    var burst := FindBurst(DistinctUsers, failures, threshold, window);
    candidates := if burst.Some? then [Candidate("password_spray", burst.value, [])] else [];
  }
}
