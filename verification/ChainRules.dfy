/** The five rules beside the window rules: single events, chains of events, and the watchlist. */
module ChainRules {
  import opened Sequences
  import opened StableSort
  import opened WindowRules

  function Named(name: string): Event -> bool { (e: Event) => e.name == name }

  function IsRecon(): Event -> bool { (e: Event) => e.name in {"syn_scan", "arp_spoofing", "icmp_sweep"} }

  function IsNetworkCritical(): Event -> bool { (e: Event) => e.category == "network" && e.severity == "CRITICAL" }

  function IsFim(): Event -> bool { (e: Event) => e.category == "fim" }

  function IsSuccess(): Event -> bool { (e: Event) => e.name == "AUTH_SUCCESS" && e.entity != "" }

  function ContextOf(e: Event, key: string): string {
    if key in e.context then e.context[key] else ""
  }

  predicate SameHost(a: Event, b: Event) {
    ContextOf(a, "host_id") != "" && ContextOf(a, "host_id") == ContextOf(b, "host_id")
  }

  function SourceIp(e: Event): string {
    if ContextOf(e, "source_ip") != "" then ContextOf(e, "source_ip") else ContextOf(e, "ip_address")
  }

  function AuthFollower(r: Event, window: int): Event -> bool {
    (a: Event) => 0.0 <= a.timestamp - r.timestamp <= window as real && SameHost(r, a)
                  && SourceIp(r) != "" && SourceIp(r) == SourceIp(a)
  }

  function FimFollower(n: Event, window: int): Event -> bool {
    (f: Event) => 0.0 <= f.timestamp - n.timestamp <= window as real && SameHost(n, f)
  }

  function PriorFailure(s: Event, window: int): Event -> bool {
    (f: Event) => f.entity == s.entity && 0.0 <= s.timestamp - f.timestamp <= window as real
  }

  function ReplayCandidates(replays: seq<Event>): seq<Candidate> {
    seq(|replays|, i requires 0 <= i < |replays| => Candidate("replay_attack", [replays[i]], []))
  }

  function ReconChains(recon: seq<Event>, failures: seq<Event>, window: int): seq<Candidate> {
    if recon == [] then []
    else var before, r := ReconChains(recon[..|recon| - 1], failures, window), recon[|recon| - 1];
         var followers := Filter(AuthFollower(r, window), failures);
         if followers == [] then before else before + [Candidate("recon_then_auth", [r] + followers, [])]
  }

  function FimChains(network: seq<Event>, fim: seq<Event>, window: int): seq<Candidate> {
    if network == [] then []
    else var before, n := FimChains(network[..|network| - 1], fim, window), network[|network| - 1];
         var tampering := Filter(FimFollower(n, window), fim);
         if tampering == [] then before else before + [Candidate("network_then_fim", [n] + tampering, [])]
  }

  function SuccessChains(successes: seq<Event>, failures: seq<Event>, threshold: int, window: int): seq<Candidate> {
    if successes == [] then []
    else var s := successes[|successes| - 1];
         var before := SuccessChains(successes[..|successes| - 1], failures, threshold, window);
         var prior := Filter(PriorFailure(s, window), failures);
         if |prior| < threshold then before
         else before + [Candidate("auth_success_after_failures", SortBy(TimeOf(), prior) + [s], [])]
  }

  function AddNew(names: seq<string>, name: string): seq<string> {
    if name == "" || name in names then names else names + [name]
  }

  /** The distinct indicators an event mentions, in the order the rule looks at them. */
  function Mentioned(e: Event): seq<string> {
    AddNew(AddNew(AddNew(AddNew([], e.entity), ContextOf(e, "domain")), ContextOf(e, "source_ip")),
           ContextOf(e, "ip_address"))
  }

  function AddMatch(groups: seq<Candidate>, name: string, e: Event): seq<Candidate> {
    if groups == [] then [Candidate("ioc_match", [e], [name])]
    else if groups[0].extraEntities == [name] then [groups[0].(events := groups[0].events + [e])] + groups[1..]
    else [groups[0]] + AddMatch(groups[1..], name, e)
  }

  function AddMatches(watched: string -> bool, groups: seq<Candidate>, names: seq<string>, e: Event): seq<Candidate>
    decreases |names|
  {
    if names == [] then groups
    else AddMatches(watched, if watched(names[0]) then AddMatch(groups, names[0], e) else groups, names[1..], e)
  }

  function AddMentioned(watched: string -> bool): (seq<Candidate>, Event) -> seq<Candidate> {
    (groups: seq<Candidate>, e: Event) => AddMatches(watched, groups, Mentioned(e), e)
  }

  /** One candidate per watched name, with every event that mentions it. */
  function IocMatches(watched: string -> bool, es: seq<Event>): seq<Candidate> {
    FoldLeft(AddMentioned(watched), [], es)
  }

  // ---- the rules as loops ----

  method RuleReconThenAuth(events: seq<Event>, window: int) returns (candidates: seq<Candidate>)
    ensures candidates == ReconChains(Filter(IsRecon(), events), Filter(Named("AUTH_FAILURE"), events), window)
  {
    var recon, failures := Filter(IsRecon(), events), Filter(Named("AUTH_FAILURE"), events);
    candidates := [];
    for k := 0 to |recon|
      invariant candidates == ReconChains(recon[..k], failures, window)
    {
      assert recon[..k + 1][..k] == recon[..k];
      var r := recon[k];
      var followers := Filter(AuthFollower(r, window), failures);
      if followers != [] {
        candidates := candidates + [Candidate("recon_then_auth", [r] + followers, [])];
      }
    }
    assert recon[..|recon|] == recon;
  }

  method RuleNetworkThenFim(events: seq<Event>, window: int) returns (candidates: seq<Candidate>)
    ensures candidates == FimChains(Filter(IsNetworkCritical(), events), Filter(IsFim(), events), window)
  {
    var network, fim := Filter(IsNetworkCritical(), events), Filter(IsFim(), events);
    candidates := [];
    for k := 0 to |network|
      invariant candidates == FimChains(network[..k], fim, window)
    {
      assert network[..k + 1][..k] == network[..k];
      var n := network[k];
      var tampering := Filter(FimFollower(n, window), fim);
      if tampering != [] {
        candidates := candidates + [Candidate("network_then_fim", [n] + tampering, [])];
      }
    }
    assert network[..|network|] == network;
  }

  /** Every user's failures, under that user. */
  ghost predicate ByUser(events: seq<Event>, failures: map<string, seq<Event>>) {
    forall u {:trigger GroupOf(failures, u)} :: Filter(FailureBy(u), events) == GroupOf(failures, u)
  }

  lemma FailuresNext(events: seq<Event>, e: Event, u: string)
    ensures Filter(FailureBy(u), events + [e])
            == if FailureBy(u)(e) then Filter(FailureBy(u), events) + [e] else Filter(FailureBy(u), events)
  {
    assert (events + [e])[..|events + [e]| - 1] == events;
  }

  lemma ByUserSkips(events: seq<Event>, e: Event, failures: map<string, seq<Event>>)
    requires ByUser(events, failures) && !AnyFailure()(e)
    ensures ByUser(events + [e], failures)
  {
    forall u {:trigger GroupOf(failures, u)} ensures Filter(FailureBy(u), events + [e]) == GroupOf(failures, u) {
      FailuresNext(events, e, u);
    }
  }

  lemma ByUserAdds(events: seq<Event>, e: Event, failures: map<string, seq<Event>>)
    requires ByUser(events, failures) && AnyFailure()(e)
    ensures ByUser(events + [e], failures[e.entity := GroupOf(failures, e.entity) + [e]])
  {
    var after := failures[e.entity := GroupOf(failures, e.entity) + [e]];
    forall u {:trigger GroupOf(after, u)} ensures Filter(FailureBy(u), events + [e]) == GroupOf(after, u) {
      FailuresNext(events, e, u);
      assert Filter(FailureBy(u), events) == GroupOf(failures, u);
    }
  }

  method SplitByOutcome(events: seq<Event>) returns (successes: seq<Event>, failures: map<string, seq<Event>>)
    ensures successes == Filter(IsSuccess(), events) && ByUser(events, failures)
  {
    successes, failures := [], map[];
    for i := 0 to |events|
      invariant successes == Filter(IsSuccess(), events[..i]) && ByUser(events[..i], failures)
    {
      var e := events[i];
      assert events[..i + 1] == events[..i] + [e] && events[..i + 1][..i] == events[..i];
      if !AnyFailure()(e) {
        ByUserSkips(events[..i], e, failures);
      }
      if e.entity != "" {
        if FailureNamed(e.name) {
          ByUserAdds(events[..i], e, failures);
          failures := failures[e.entity := GroupOf(failures, e.entity) + [e]];
        } else if e.name == "AUTH_SUCCESS" {
          successes := successes + [e];
        }
      }
    }
    assert events[..|events|] == events;
  }

  function Preceding(s: Event, window: int): Event -> bool {
    (f: Event) => 0.0 <= s.timestamp - f.timestamp <= window as real
  }

  function PriorOf(s: Event, window: int): Event -> bool {
    (f: Event) => FailureNamed(f.name) && f.entity != "" && f.entity == s.entity
                  && 0.0 <= s.timestamp - f.timestamp <= window as real
  }

  /** Looking only at the user's own failures finds the same ones. */
  lemma PriorByUser(events: seq<Event>, s: Event, window: int)
    requires s.entity != ""
    ensures Filter(Preceding(s, window), Filter(FailureBy(s.entity), events))
            == Filter(PriorFailure(s, window), Filter(AnyFailure(), events))
  {
    FilterBoth(FailureBy(s.entity), Preceding(s, window), PriorOf(s, window), events);
    FilterBoth(AnyFailure(), PriorFailure(s, window), PriorOf(s, window), events);
  }

  method RuleAuthSuccessAfterFailures(events: seq<Event>, threshold: int, window: int)
    returns (candidates: seq<Candidate>)
    ensures candidates
            == SuccessChains(Filter(IsSuccess(), events), Filter(AnyFailure(), events), threshold, window)
  {
    var successes, failures := SplitByOutcome(events);
    candidates := ChainSuccesses(events, successes, failures, threshold, window);
  }

  lemma PriorFound(events: seq<Event>, failures: map<string, seq<Event>>, s: Event, window: int)
    requires ByUser(events, failures) && s in Filter(IsSuccess(), events)
    ensures Filter(Preceding(s, window), GroupOf(failures, s.entity))
            == Filter(PriorFailure(s, window), Filter(AnyFailure(), events))
  {
    FilterMember(IsSuccess(), events);
    PriorByUser(events, s, window);
    assert Filter(FailureBy(s.entity), events) == GroupOf(failures, s.entity);
  }

  lemma SuccessNext(successes: seq<Event>, all: seq<Event>, k: nat, threshold: int, window: int)
    requires k < |successes|
    ensures var before, prior := SuccessChains(successes[..k], all, threshold, window),
                                 Filter(PriorFailure(successes[k], window), all);
            SuccessChains(successes[..k + 1], all, threshold, window)
            == if |prior| < threshold then before
               else before + [Candidate("auth_success_after_failures",
                                        SortBy(TimeOf(), prior) + [successes[k]], [])]
  {
    assert successes[..k + 1][..k] == successes[..k] && successes[..k + 1][k] == successes[k];
  }

  method ChainSuccesses(ghost events: seq<Event>, successes: seq<Event>, failures: map<string, seq<Event>>,
                        threshold: int, window: int)
    returns (candidates: seq<Candidate>)
    requires successes == Filter(IsSuccess(), events) && ByUser(events, failures)
    ensures candidates == SuccessChains(successes, Filter(AnyFailure(), events), threshold, window)
  {
    ghost var all := Filter(AnyFailure(), events);
    candidates := [];
    for k := 0 to |successes|
      invariant candidates == SuccessChains(successes[..k], all, threshold, window)
    {
      var s := successes[k];
      SuccessNext(successes, all, k, threshold, window);
      PriorFound(events, failures, s, window);
      var prior := Filter(Preceding(s, window), GroupOf(failures, s.entity));
      if |prior| >= threshold {
        candidates := candidates + [Candidate("auth_success_after_failures", SortBy(TimeOf(), prior) + [s], [])];
      }
    }
    assert successes[..|successes|] == successes;
  }

  method RuleIocMatch(events: seq<Event>, watched: string -> bool) returns (matched: seq<Candidate>)
    ensures matched == IocMatches(watched, events)
  {
    matched := [];
    for i := 0 to |events|
      invariant matched == IocMatches(watched, events[..i])
    {
      assert events[..i + 1][..i] == events[..i];
      matched := MatchNames(matched, watched, Mentioned(events[i]), events[i]);
    }
    assert events[..|events|] == events;
  }

  method MatchNames(groups: seq<Candidate>, watched: string -> bool, names: seq<string>, e: Event)
    returns (matched: seq<Candidate>)
    ensures matched == AddMatches(watched, groups, names, e)
  {
    matched := groups;
    for j := 0 to |names|
      invariant AddMatches(watched, matched, names[j..], e) == AddMatches(watched, groups, names, e)
    {
      assert names[j..][1..] == names[j + 1..];
      if watched(names[j]) {
        matched := AddMatch(matched, names[j], e);
      }
    }
  }
}
