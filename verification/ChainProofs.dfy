/** Exactly which candidates the chain rules raise, in which order and with which events. */
module ChainProofs {
  import opened Sequences
  import opened StableSort
  import opened WindowRules
  import opened ChainRules

  // ---- what the rules look at, read off the events ----

  function Field(e: Event, key: string): Option<string> {
    if key in e.context && e.context[key] != "" then Some(e.context[key]) else None
  }

  /** Both events name the same host. */
  predicate OneHost(a: Event, b: Event) {
    Field(a, "host_id").Some? && Field(a, "host_id") == Field(b, "host_id")
  }

  /** The address an event comes from: its source, or else the address it is about. */
  function Origin(e: Event): Option<string> {
    if Field(e, "source_ip").Some? then Field(e, "source_ip") else Field(e, "ip_address")
  }

  predicate OneOrigin(a: Event, b: Event) {
    Origin(a).Some? && Origin(a) == Origin(b)
  }

  /** `b` happens at `a` or within `window` seconds after it. */
  predicate Follows(a: Event, b: Event, window: int) {
    a.timestamp <= b.timestamp <= a.timestamp + window as real
  }

  lemma FieldIsContext(e: Event, key: string)
    ensures ContextOf(e, key) == match Field(e, key) case None => "" case Some(v) => v
    ensures Field(e, key).Some? ==> Field(e, key).value != ""
  {
  }

  lemma HostMeaning(a: Event, b: Event)
    ensures SameHost(a, b) <==> OneHost(a, b)
  {
    FieldIsContext(a, "host_id");
    FieldIsContext(b, "host_id");
  }

  lemma SourceMeaning(e: Event)
    ensures SourceIp(e) == match Origin(e) case None => "" case Some(v) => v
    ensures Origin(e).Some? ==> Origin(e).value != ""
  {
    FieldIsContext(e, "source_ip");
    FieldIsContext(e, "ip_address");
  }

  // ---- network attack, then file tampering ----

  /** A file event on the attacked host, at or within the window after the attack. */
  function TamperedAfter(n: Event, window: int): Event -> bool {
    (f: Event) => f.category == "fim" && Follows(n, f, window) && OneHost(n, f)
  }

  /** A critical network event that some file event follows. */
  function AttackedThenTampered(events: seq<Event>, window: int): Event -> bool {
    (n: Event) => n.category == "network" && n.severity == "CRITICAL"
                  && exists f :: f in events && TamperedAfter(n, window)(f)
  }

  function FimFollowed(fim: seq<Event>, window: int): Event -> bool {
    (n: Event) => Filter(FimFollower(n, window), fim) != []
  }

  lemma {:induction false} FimShape(network: seq<Event>, fim: seq<Event>, window: int)
    ensures var heads, out := Filter(FimFollowed(fim, window), network), FimChains(network, fim, window);
            && |out| == |heads|
            && forall i :: 0 <= i < |out| ==>
                 out[i] == Candidate("network_then_fim", [heads[i]] + Filter(FimFollower(heads[i], window), fim), [])
  {
    if network != [] {
      FimShape(network[..|network| - 1], fim, window);
    }
  }

  lemma FimFollowers(events: seq<Event>, n: Event, window: int)
    ensures Filter(FimFollower(n, window), Filter(IsFim(), events)) == Filter(TamperedAfter(n, window), events)
    ensures Filter(TamperedAfter(n, window), events) != []
            <==> exists f :: f in events && TamperedAfter(n, window)(f)
  {
    forall f ensures TamperedAfter(n, window)(f) <==> IsFim()(f) && FimFollower(n, window)(f) {
      HostMeaning(n, f);
    }
    FilterBoth(IsFim(), FimFollower(n, window), TamperedAfter(n, window), events);
    FilterSome(TamperedAfter(n, window), events);
  }

  lemma FilterSome<T(!new)>(p: T -> bool, s: seq<T>)
    ensures Filter(p, s) != [] <==> exists x :: x in s && p(x)
  {
    FilterMember(p, s);
    var kept := Filter(p, s);
    assert kept != [] ==> kept[0] in kept;
  }

  /**
    One candidate for each critical network event that a file event of the same host follows within
    the window, in order, with that event and all such file events.
  */
  lemma NetworkThenFimExact(events: seq<Event>, window: int)
    ensures var heads := Filter(AttackedThenTampered(events, window), events);
            var out := FimChains(Filter(IsNetworkCritical(), events), Filter(IsFim(), events), window);
            && |out| == |heads|
            && forall i :: 0 <= i < |out| ==>
                 out[i] == Candidate("network_then_fim",
                                     [heads[i]] + Filter(TamperedAfter(heads[i], window), events), [])
  {
    var fim := Filter(IsFim(), events);
    forall n
      ensures AttackedThenTampered(events, window)(n) <==> IsNetworkCritical()(n) && FimFollowed(fim, window)(n)
    {
      FimFollowers(events, n, window);
    }
    FilterBoth(IsNetworkCritical(), FimFollowed(fim, window), AttackedThenTampered(events, window), events);
    FimShape(Filter(IsNetworkCritical(), events), fim, window);
    forall n: Event ensures Filter(FimFollower(n, window), fim) == Filter(TamperedAfter(n, window), events) {
      FimFollowers(events, n, window);
    }
  }

  // ---- reconnaissance, then failed logins ----

  /** A failed login on the probed host from the probing address, at or within the window after the probe. */
  function FailedAfter(r: Event, window: int): Event -> bool {
    (a: Event) => a.name == "AUTH_FAILURE" && Follows(r, a, window) && OneHost(r, a) && OneOrigin(r, a)
  }

  function ProbedThenFailed(events: seq<Event>, window: int): Event -> bool {
    (r: Event) => (r.name == "syn_scan" || r.name == "arp_spoofing" || r.name == "icmp_sweep")
                  && exists a :: a in events && FailedAfter(r, window)(a)
  }

  function ReconFollowed(failures: seq<Event>, window: int): Event -> bool {
    (r: Event) => Filter(AuthFollower(r, window), failures) != []
  }

  lemma {:induction false} ReconShape(recon: seq<Event>, failures: seq<Event>, window: int)
    ensures var heads, out := Filter(ReconFollowed(failures, window), recon), ReconChains(recon, failures, window);
            && |out| == |heads|
            && forall i :: 0 <= i < |out| ==>
                 out[i] == Candidate("recon_then_auth",
                                     [heads[i]] + Filter(AuthFollower(heads[i], window), failures), [])
  {
    if recon != [] {
      ReconShape(recon[..|recon| - 1], failures, window);
    }
  }

  lemma ReconFollowers(events: seq<Event>, r: Event, window: int)
    ensures Filter(AuthFollower(r, window), Filter(Named("AUTH_FAILURE"), events))
            == Filter(FailedAfter(r, window), events)
    ensures Filter(FailedAfter(r, window), events) != [] <==> exists a :: a in events && FailedAfter(r, window)(a)
  {
    forall a ensures FailedAfter(r, window)(a) <==> Named("AUTH_FAILURE")(a) && AuthFollower(r, window)(a) {
      HostMeaning(r, a);
      SourceMeaning(r);
      SourceMeaning(a);
    }
    FilterBoth(Named("AUTH_FAILURE"), AuthFollower(r, window), FailedAfter(r, window), events);
    FilterSome(FailedAfter(r, window), events);
  }

  /** One candidate for each probe that failed logins of its host and address follow, with all of them. */
  lemma ReconThenAuthExact(events: seq<Event>, window: int)
    ensures var heads := Filter(ProbedThenFailed(events, window), events);
            var out := ReconChains(Filter(IsRecon(), events), Filter(Named("AUTH_FAILURE"), events), window);
            && |out| == |heads|
            && forall i :: 0 <= i < |out| ==>
                 out[i] == Candidate("recon_then_auth", [heads[i]] + Filter(FailedAfter(heads[i], window), events), [])
  {
    var failures := Filter(Named("AUTH_FAILURE"), events);
    forall r ensures ProbedThenFailed(events, window)(r) <==> IsRecon()(r) && ReconFollowed(failures, window)(r) {
      ReconFollowers(events, r, window);
    }
    FilterBoth(IsRecon(), ReconFollowed(failures, window), ProbedThenFailed(events, window), events);
    ReconShape(Filter(IsRecon(), events), failures, window);
    forall r: Event ensures Filter(AuthFollower(r, window), failures) == Filter(FailedAfter(r, window), events) {
      ReconFollowers(events, r, window);
    }
  }

  // ---- success after failures ----

  /** A failure of the user who then succeeded, at or within the window before the success. */
  function FailedBefore(s: Event, window: int): Event -> bool {
    (f: Event) => (f.name == "AUTH_FAILURE" || f.name == "RATE_LIMITED") && f.entity == s.entity && f.entity != ""
                  && Follows(f, s, window)
  }

  function SucceededAfter(events: seq<Event>, threshold: int, window: int): Event -> bool {
    (s: Event) => s.name == "AUTH_SUCCESS" && s.entity != ""
                  && |Filter(FailedBefore(s, window), events)| >= threshold
  }

  function EnoughPrior(failures: seq<Event>, threshold: int, window: int): Event -> bool {
    (s: Event) => |Filter(PriorFailure(s, window), failures)| >= threshold
  }

  lemma {:induction false} SuccessShape(successes: seq<Event>, failures: seq<Event>, threshold: int, window: int)
    ensures var heads := Filter(EnoughPrior(failures, threshold, window), successes);
            var out := SuccessChains(successes, failures, threshold, window);
            && |out| == |heads|
            && forall i :: 0 <= i < |out| ==>
                 out[i] == Candidate("auth_success_after_failures",
                                     SortBy(TimeOf(), Filter(PriorFailure(heads[i], window), failures)) + [heads[i]],
                                     [])
  {
    if successes != [] {
      SuccessShape(successes[..|successes| - 1], failures, threshold, window);
    }
  }

  lemma SuccessPrior(events: seq<Event>, s: Event, window: int)
    ensures Filter(PriorFailure(s, window), Filter(AnyFailure(), events)) == Filter(FailedBefore(s, window), events)
  {
    FilterBoth(AnyFailure(), PriorFailure(s, window), FailedBefore(s, window), events);
  }

  /** One candidate for each success preceded by enough failures of its user, with those failures by time. */
  lemma SuccessAfterFailuresExact(events: seq<Event>, threshold: int, window: int)
    ensures var heads := Filter(SucceededAfter(events, threshold, window), events);
            var out := SuccessChains(Filter(IsSuccess(), events), Filter(AnyFailure(), events), threshold, window);
            && |out| == |heads|
            && forall i :: 0 <= i < |out| ==>
                 out[i] == Candidate("auth_success_after_failures",
                                     SortBy(TimeOf(), Filter(FailedBefore(heads[i], window), events)) + [heads[i]], [])
  {
    var failures := Filter(AnyFailure(), events);
    forall s: Event
      ensures Filter(PriorFailure(s, window), failures) == Filter(FailedBefore(s, window), events)
    {
      SuccessPrior(events, s, window);
    }
    FilterBoth(IsSuccess(), EnoughPrior(failures, threshold, window), SucceededAfter(events, threshold, window),
               events);
    SuccessShape(Filter(IsSuccess(), events), failures, threshold, window);
  }

  // ---- replays ----

  /** One candidate for each replay event, in order, with that event alone. */
  lemma ReplayExact(events: seq<Event>)
    ensures var heads := Filter((e: Event) => e.name == "REPLAY_ATTACK", events);
            var out := ReplayCandidates(Filter(Named("REPLAY_ATTACK"), events));
            && |out| == |heads|
            && forall i :: 0 <= i < |out| ==> out[i] == Candidate("replay_attack", [heads[i]], [])
  {
    FilterSame(Named("REPLAY_ATTACK"), (e: Event) => e.name == "REPLAY_ATTACK", events);
  }

  // ---- the watchlist ----

  /** An event mentions a name as its entity, a domain or an address. */
  function Mentioning(name: string): Event -> bool {
    (e: Event) => name != "" && (name == e.entity || Field(e, "domain") == Some(name)
                                 || Field(e, "source_ip") == Some(name) || Field(e, "ip_address") == Some(name))
  }

  ghost predicate DistinctNames(names: seq<string>) {
    forall i, j :: 0 <= i < j < |names| ==> names[i] != names[j]
  }

  lemma AddNewFacts(names: seq<string>, name: string)
    requires DistinctNames(names)
    ensures DistinctNames(AddNew(names, name))
    ensures forall x :: x in AddNew(names, name) <==> x in names || (x == name && name != "")
  {
  }

  lemma MentionedMeaning(e: Event)
    ensures DistinctNames(Mentioned(e)) && forall x :: x in Mentioned(e) <==> Mentioning(x)(e)
  {
    var a := AddNew([], e.entity);
    var b := AddNew(a, ContextOf(e, "domain"));
    var c := AddNew(b, ContextOf(e, "source_ip"));
    AddNewFacts([], e.entity);
    AddNewFacts(a, ContextOf(e, "domain"));
    AddNewFacts(b, ContextOf(e, "source_ip"));
    AddNewFacts(c, ContextOf(e, "ip_address"));
    FieldIsContext(e, "domain");
    FieldIsContext(e, "source_ip");
    FieldIsContext(e, "ip_address");
  }

  /** A group of events under each name. */
  function NamedGroups(names: seq<string>, has: string -> seq<Event>): seq<Candidate> {
    seq(|names|, i requires 0 <= i < |names| => Candidate("ioc_match", has(names[i]), [names[i]]))
  }

  function With(has: string -> seq<Event>, name: string, e: Event): string -> seq<Event> {
    (x: string) => if x == name then has(x) + [e] else has(x)
  }

  function WithAll(has: string -> seq<Event>, names: seq<string>, e: Event): string -> seq<Event> {
    (x: string) => if x in names then has(x) + [e] else has(x)
  }

  function Unseen(watched: string -> bool, names: seq<string>): string -> bool {
    (x: string) => watched(x) && x !in names
  }

  /** The watched names that some event mentions, by first mention. */
  function WatchedNames(watched: string -> bool, es: seq<Event>): seq<string> {
    if es == [] then []
    else var names := WatchedNames(watched, es[..|es| - 1]);
         names + Filter(Unseen(watched, names), Mentioned(es[|es| - 1]))
  }

  function MentionsIn(es: seq<Event>): string -> seq<Event> { (x: string) => Filter(Mentioning(x), es) }

  lemma {:induction false} AddToGroup(names: seq<string>, has: string -> seq<Event>, name: string, e: Event)
    requires DistinctNames(names) && name != "" && (name in names || has(name) == [])
    ensures AddMatch(NamedGroups(names, has), name, e) == NamedGroups(AddNew(names, name), With(has, name, e))
  {
    if names == [] {
      assert has(name) + [e] == [e];
    } else {
      var x, rest := names[0], names[1..];
      assert names == [x] + rest;
      GroupsSplit(x, rest, has);
      GroupsSplit(x, rest, With(has, name, e));
      assert [x][0] == x && [name][0] == name;
      if x == name {
        GroupedSame(rest, has, With(has, name, e));
      } else {
        AddToGroup(rest, has, name, e);
        AddNewBehind(x, rest, name);
        GroupsSplit(x, AddNew(rest, name), With(has, name, e));
      }
    }
  }

  lemma GroupsSplit(x: string, rest: seq<string>, has: string -> seq<Event>)
    ensures NamedGroups([x] + rest, has) == [Candidate("ioc_match", has(x), [x])] + NamedGroups(rest, has)
    ensures NamedGroups([x] + rest, has)[0] == Candidate("ioc_match", has(x), [x])
    ensures NamedGroups([x] + rest, has)[1..] == NamedGroups(rest, has)
  {
  }

  lemma AddNewBehind(x: string, rest: seq<string>, name: string)
    requires name != x
    ensures AddNew([x] + rest, name) == [x] + AddNew(rest, name)
  {
  }

  lemma FilterHead(watched: string -> bool, names: seq<string>, m: string, rest: seq<string>)
    requires m !in rest
    ensures names + Filter(Unseen(watched, names), [m] + rest)
            == if !watched(m) then names + Filter(Unseen(watched, names), rest)
               else if m in names then names + Filter(Unseen(watched, names), rest)
               else names + [m] + Filter(Unseen(watched, names + [m]), rest)
  {
    FilterAppend(Unseen(watched, names), [m], rest);
    FilterSame(Unseen(watched, names), Unseen(watched, names + [m]), rest);
    assert [m][..0] == [];
  }

  lemma GroupedSame(names: seq<string>, has: string -> seq<Event>, other: string -> seq<Event>)
    requires forall x :: x in names ==> has(x) == other(x)
    ensures NamedGroups(names, has) == NamedGroups(names, other)
  {
  }

  ghost predicate Watching(watched: string -> bool, names: seq<string>, has: string -> seq<Event>) {
    DistinctNames(names) && forall x :: x in names <==> watched(x) && has(x) != []
  }

  lemma WatchingOne(watched: string -> bool, names: seq<string>, has: string -> seq<Event>, m: string, e: Event)
    requires Watching(watched, names, has) && watched(m) && m != ""
    ensures Watching(watched, AddNew(names, m), With(has, m, e))
  {
    AddNewFacts(names, m);
    forall x ensures x in AddNew(names, m) <==> watched(x) && With(has, m, e)(x) != [] {
    }
  }

  lemma {:induction false} FilterDistinct(p: string -> bool, names: seq<string>)
    requires DistinctNames(names)
    ensures DistinctNames(Filter(p, names))
  {
    if names != [] {
      FilterDistinct(p, names[..|names| - 1]);
      FilterMember(p, names[..|names| - 1]);
    }
  }

  lemma WatchingAll(
    watched: string -> bool, names: seq<string>, has: string -> seq<Event>, ms: seq<string>, e: Event
  )
    requires Watching(watched, names, has) && DistinctNames(ms)
    ensures Watching(watched, names + Filter(Unseen(watched, names), ms), WithAll(has, ms, e))
  {
    var more := Filter(Unseen(watched, names), ms);
    FilterMember(Unseen(watched, names), ms);
    FilterDistinct(Unseen(watched, names), ms);
    DistinctJoin(names, more);
    forall x ensures x in names + more <==> watched(x) && WithAll(has, ms, e)(x) != [] {
      NowWatched(watched, names, has, ms, e, x);
    }
  }

  lemma DistinctJoin(a: seq<string>, b: seq<string>)
    requires DistinctNames(a) && DistinctNames(b) && forall x :: x in b ==> x !in a
    ensures DistinctNames(a + b)
  {
    forall i, j | 0 <= i < j < |a + b| ensures (a + b)[i] != (a + b)[j] {
      if i < |a| <= j {
        assert b[j - |a|] in b && a[i] in a;
      }
    }
  }

  lemma NowWatched(
    watched: string -> bool, names: seq<string>, has: string -> seq<Event>, ms: seq<string>, e: Event, x: string
  )
    requires x in names <==> watched(x) && has(x) != []
    ensures x in names || (x in ms && watched(x) && x !in names) <==> watched(x) && WithAll(has, ms, e)(x) != []
  {
  }

  lemma {:induction false} AddToGroups(
    watched: string -> bool, names: seq<string>, has: string -> seq<Event>, ms: seq<string>, e: Event
  )
    requires Watching(watched, names, has) && DistinctNames(ms) && "" !in ms
    ensures AddMatches(watched, NamedGroups(names, has), ms, e)
            == NamedGroups(names + Filter(Unseen(watched, names), ms), WithAll(has, ms, e))
    decreases |ms|
  {
    if ms == [] {
      GroupedSame(names, has, WithAll(has, ms, e));
      assert names + [] == names;
    } else {
      var m, rest := ms[0], ms[1..];
      assert ms == [m] + rest && m !in rest;
      if watched(m) {
        WatchingOne(watched, names, has, m, e);
        AddToGroups(watched, AddNew(names, m), With(has, m, e), rest, e);
        AddWatched(watched, names, has, m, rest, e);
      } else {
        AddToGroups(watched, names, has, rest, e);
        AddUnwatched(watched, names, has, m, rest, e);
      }
    }
  }

  lemma AddUnwatched(
    watched: string -> bool, names: seq<string>, has: string -> seq<Event>, m: string, rest: seq<string>, e: Event
  )
    requires Watching(watched, names, has) && !watched(m) && m !in rest
    ensures NamedGroups(names + Filter(Unseen(watched, names), rest), WithAll(has, rest, e))
            == NamedGroups(names + Filter(Unseen(watched, names), [m] + rest), WithAll(has, [m] + rest, e))
  {
    FilterHead(watched, names, m, rest);
    FilterMember(Unseen(watched, names), rest);
    GroupedSame(names + Filter(Unseen(watched, names), rest), WithAll(has, rest, e), WithAll(has, [m] + rest, e));
  }

  lemma AddWatched(
    watched: string -> bool, names: seq<string>, has: string -> seq<Event>, m: string, rest: seq<string>, e: Event
  )
    requires Watching(watched, names, has) && watched(m) && m != "" && m !in rest
    ensures AddMatch(NamedGroups(names, has), m, e) == NamedGroups(AddNew(names, m), With(has, m, e))
    ensures NamedGroups(AddNew(names, m) + Filter(Unseen(watched, AddNew(names, m)), rest),
                        WithAll(With(has, m, e), rest, e))
            == NamedGroups(names + Filter(Unseen(watched, names), [m] + rest), WithAll(has, [m] + rest, e))
  {
    AddToGroup(names, has, m, e);
    FilterHead(watched, names, m, rest);
    GroupedSame(names + Filter(Unseen(watched, names), [m] + rest), WithAll(With(has, m, e), rest, e),
                WithAll(has, [m] + rest, e));
  }

  /**
    One candidate for each watched name that some event mentions, by first mention, with every event
    that mentions it, in order.
  */
  lemma IocMatchExact(watched: string -> bool, es: seq<Event>)
    ensures IocMatches(watched, es) == NamedGroups(WatchedNames(watched, es), MentionsIn(es))
    ensures DistinctNames(WatchedNames(watched, es))
    ensures forall x :: x in WatchedNames(watched, es) <==> watched(x) && exists e :: e in es && Mentioning(x)(e)
  {
    WatchedSoFar(watched, es);
    forall x ensures MentionsIn(es)(x) != [] <==> exists e :: e in es && Mentioning(x)(e) {
      FilterSome(Mentioning(x), es);
    }
  }

  lemma {:induction false} WatchedSoFar(watched: string -> bool, es: seq<Event>)
    ensures IocMatches(watched, es) == NamedGroups(WatchedNames(watched, es), MentionsIn(es))
    ensures Watching(watched, WatchedNames(watched, es), MentionsIn(es))
  {
    if es != [] {
      var init, e := es[..|es| - 1], es[|es| - 1];
      var names := WatchedNames(watched, init);
      WatchedSoFar(watched, init);
      MentionedMeaning(e);
      AddToGroups(watched, names, MentionsIn(init), Mentioned(e), e);
      WatchingAll(watched, names, MentionsIn(init), Mentioned(e), e);
      MentionsNext(watched, WatchedNames(watched, es), es);
    }
  }

  lemma MentionsNext(watched: string -> bool, names: seq<string>, es: seq<Event>)
    requires es != []
    ensures var init, e := es[..|es| - 1], es[|es| - 1];
            && NamedGroups(names, WithAll(MentionsIn(init), Mentioned(e), e)) == NamedGroups(names, MentionsIn(es))
            && (Watching(watched, names, WithAll(MentionsIn(init), Mentioned(e), e))
                ==> Watching(watched, names, MentionsIn(es)))
  {
    var init, e := es[..|es| - 1], es[|es| - 1];
    MentionedMeaning(e);
    forall x ensures WithAll(MentionsIn(init), Mentioned(e), e)(x) == MentionsIn(es)(x) {
    }
    GroupedSame(names, WithAll(MentionsIn(init), Mentioned(e), e), MentionsIn(es));
  }
}
