/** The window rules are exact, report the earliest maximal cluster, and keep an incident's key. */
module WindowRuleProofs {
  import opened Sequences
  import opened StableSort
  import opened WindowRules

  /** A closed span of `window` seconds from `t`. */
  function InSpan(t: real, window: int): Event -> bool {
    (e: Event) => t <= e.timestamp <= t + window as real
  }

  function FailureInSpan(user: string, t: real, window: int): Event -> bool {
    (e: Event) => FailureBy(user)(e) && t <= e.timestamp <= t + window as real
  }

  function AnyFailureInSpan(t: real, window: int): Event -> bool {
    (e: Event) => AnyFailure()(e) && t <= e.timestamp <= t + window as real
  }

  lemma AmountWeaker(m: Measure, p: Event -> bool, q: Event -> bool, es: seq<Event>)
    requires forall e :: e in es && p(e) ==> q(e)
    ensures Amount(m, Filter(p, es)) <= Amount(m, Filter(q, es))
  {
    FilterWeaker(p, q, es);
    FilterMember(p, es);
    FilterMember(q, es);
    SubsetSize(Entities(Filter(p, es)), Entities(Filter(q, es)));
  }

  lemma AmountSorted(m: Measure, p: Event -> bool, es: seq<Event>)
    ensures Amount(m, Filter(p, SortBy(TimeOf(), es))) == Amount(m, Filter(p, es))
  {
    SortCount(TimeOf(), p, es);
    SortFacts(TimeOf(), es);
    FilterMember(p, es);
    FilterMember(p, SortBy(TimeOf(), es));
    assert Entities(Filter(p, SortBy(TimeOf(), es))) == Entities(Filter(p, es));
  }

  lemma AmountSuffix(m: Measure, p: Event -> bool, es: seq<Event>, i: nat)
    requires i <= |es|
    ensures Amount(m, Filter(p, es[i..])) <= Amount(m, Filter(p, es))
  {
    assert es == es[..i] + es[i..];
    FilterAppend(p, es[..i], es[i..]);
    SubsetSize(Entities(Filter(p, es[i..])), Entities(Filter(p, es)));
  }

  /** From a qualifying anchor, the span that starts at the anchor qualifies. */
  lemma AnchorGivesSpan(m: Measure, es: seq<Event>, i: nat, window: int)
    requires Ordered(TimeOf(), es) && i < |es|
    ensures Amount(m, Filter(InSpan(es[i].timestamp, window), es)) >= Amount(m, Cluster(es, i, window))
  {
    var t := es[i].timestamp;
    forall e | e in es[i..] ensures e.timestamp >= t {
      var j :| 0 <= j < |es[i..]| && es[i..][j] == e;
      assert TimeOf()(es[i]) <= TimeOf()(es[i + j]);
    }
    AmountWeaker(m, Reaching(t, window), InSpan(t, window), es[i..]);
    AmountSuffix(m, InSpan(t, window), es, i);
  }

  lemma {:induction false} FirstFrom(es: seq<Event>, t: real) returns (i: nat)
    ensures i <= |es| && (forall j :: 0 <= j < i ==> es[j].timestamp < t) && (i < |es| ==> es[i].timestamp >= t)
  {
    i := 0;
    while i < |es| && es[i].timestamp < t
      invariant i <= |es| && forall j :: 0 <= j < i ==> es[j].timestamp < t
    {
      i := i + 1;
    }
  }

  /** From a qualifying span, its first event is a qualifying anchor. */
  lemma SpanGivesAnchor(m: Measure, es: seq<Event>, t: real, threshold: int, window: int) returns (i: nat)
    requires Ordered(TimeOf(), es) && es != []
    requires Amount(m, Filter(InSpan(t, window), es)) >= threshold
    ensures i < |es| && Amount(m, Cluster(es, i, window)) >= threshold
  {
    i := FirstFrom(es, t);
    assert es == es[..i] + es[i..];
    FilterAppend(InSpan(t, window), es[..i], es[i..]);
    FilterNone(InSpan(t, window), es[..i]);
    assert Filter(InSpan(t, window), es) == Filter(InSpan(t, window), es[i..]);
    if i == |es| {
      assert Amount(m, Filter(InSpan(t, window), es)) == 0;
      i := 0;
    } else {
      AmountWeaker(m, InSpan(t, window), Reaching(es[i].timestamp, window), es[i..]);
    }
  }

  /** A burst is found exactly when some span of the window length holds enough. */
  lemma BurstExact(m: Measure, es: seq<Event>, threshold: int, window: int)
    requires Ordered(TimeOf(), es)
    ensures Burst(m, es, threshold, window).Some?
            <==> es != [] && exists t: real :: Amount(m, Filter(InSpan(t, window), es)) >= threshold
  {
    var i := FirstAnchor(m, es, threshold, window, 0);
    if i < |es| {
      AnchorGivesSpan(m, es, i, window);
    }
    if es != [] && exists t: real :: Amount(m, Filter(InSpan(t, window), es)) >= threshold {
      var t: real :| Amount(m, Filter(InSpan(t, window), es)) >= threshold;
      var j := SpanGivesAnchor(m, es, t, threshold, window);
    }
  }

  /**
    Brute force raises an incident for a user exactly when the user has a failure and some span of
    `window` seconds holds at least `threshold` of the user's failures.
  */
  lemma BruteForceExact(events: seq<Event>, user: string, threshold: int, window: int)
    ensures UserBurst(events, user, threshold, window).Some?
            <==> (exists e :: e in events && FailureBy(user)(e))
                 && exists t: real :: |Filter(FailureInSpan(user, t, window), events)| >= threshold
  {
    var fs := Filter(FailureBy(user), events);
    var sorted := SortBy(TimeOf(), fs);
    SortFacts(TimeOf(), fs);
    FilterMember(FailureBy(user), events);
    BurstExact(Failures, sorted, threshold, window);
    forall t: real
      ensures Amount(Failures, Filter(InSpan(t, window), sorted)) == |Filter(FailureInSpan(user, t, window), events)|
    {
      AmountSorted(Failures, InSpan(t, window), fs);
      FilterBoth(FailureBy(user), InSpan(t, window), FailureInSpan(user, t, window), events);
    }
    assert sorted != [] <==> fs != [];
    if fs != [] {
      assert fs[0] in fs;
    }
    if UserBurst(events, user, threshold, window).Some? {
      var t: real :| Amount(Failures, Filter(InSpan(t, window), sorted)) >= threshold;
      assert |Filter(FailureInSpan(user, t, window), events)| >= threshold;
    }
    if t: real :| |Filter(FailureInSpan(user, t, window), events)| >= threshold {
      assert Amount(Failures, Filter(InSpan(t, window), sorted)) >= threshold;
    }
  }

  lemma {:induction false} UsersMember(events: seq<Event>)
    ensures forall u :: u in Users(events) <==> exists e :: e in events && FailureBy(u)(e)
  {
    if events != [] {
      var init, e := events[..|events| - 1], events[|events| - 1];
      UsersMember(init);
      assert events == init + [e];
      forall u ensures u in Users(events) <==> exists x :: x in events && FailureBy(u)(x) {
        if u in Users(init) {
          var x :| x in init && FailureBy(u)(x);
          assert x in events;
        } else if u in Users(events) {
          assert e in events && FailureBy(u)(e);
        }
      }
    }
  }

  lemma {:induction false} BurstsMember(events: seq<Event>, users: seq<string>, threshold: int, window: int)
    ensures forall c :: c in BurstsOf(events, users, threshold, window) <==>
              c == Candidate("brute_force_burst", c.events, [])
              && exists u :: u in users && UserBurst(events, u, threshold, window) == Some(c.events)
  {
    if users != [] {
      var init, last := users[..|users| - 1], users[|users| - 1];
      BurstsMember(events, init, threshold, window);
      assert users == init + [last];
      assert forall u :: u in users <==> u in init || u == last;
    }
  }

  /** The rule's candidates are one burst per user who has one, and nothing else. */
  lemma BruteForceCandidates(events: seq<Event>, threshold: int, window: int)
    ensures forall c :: c in BruteForce(events, threshold, window) <==>
              c == Candidate("brute_force_burst", c.events, [])
              && exists u :: UserBurst(events, u, threshold, window) == Some(c.events)
  {
    BurstsMember(events, Users(events), threshold, window);
    UsersMember(events);
    forall u | UserBurst(events, u, threshold, window).Some?
      ensures u in Users(events)
    {
      BruteForceExact(events, u, threshold, window);
    }
  }

  function HasBurst(events: seq<Event>, threshold: int, window: int): string -> bool {
    (u: string) => UserBurst(events, u, threshold, window).Some?
  }

  lemma {:induction false} BurstsShape(events: seq<Event>, users: seq<string>, threshold: int, window: int)
    ensures var heads, out := Filter(HasBurst(events, threshold, window), users),
                              BurstsOf(events, users, threshold, window);
            && |out| == |heads|
            && forall i :: 0 <= i < |out| ==>
                 UserBurst(events, heads[i], threshold, window) == Some(out[i].events)
  {
    if users != [] {
      var init, u := users[..|users| - 1], users[|users| - 1];
      BurstsShape(events, init, threshold, window);
      assert HasBurst(events, threshold, window)(u) <==> UserBurst(events, u, threshold, window).Some?;
    }
  }

  lemma {:induction false} UsersDistinct(events: seq<Event>)
    ensures forall i, j :: 0 <= i < j < |Users(events)| ==> Users(events)[i] != Users(events)[j]
  {
    if events != [] {
      UsersDistinct(events[..|events| - 1]);
    }
  }

  lemma {:induction false} UsersGrow(events: seq<Event>, n: nat)
    requires n <= |events|
    ensures Users(events[..n]) <= Users(events)
  {
    if n < |events| {
      var init := events[..|events| - 1];
      UsersGrow(init, n);
      assert init[..n] == events[..n];
    } else {
      assert events[..n] == events;
    }
  }

  /** No two candidates for one user: they are the bursts of distinct users, in order of their first failures. */
  lemma OneBurstPerUser(events: seq<Event>, threshold: int, window: int)
    ensures var heads, out := Filter(HasBurst(events, threshold, window), Users(events)),
                              BruteForce(events, threshold, window);
            && |out| == |heads|
            && (forall i :: 0 <= i < |out| ==>
                  UserBurst(events, heads[i], threshold, window) == Some(out[i].events))
            && (forall i, j :: 0 <= i < j < |Users(events)| ==> Users(events)[i] != Users(events)[j])
            && (forall n: nat :: n <= |events| ==> Users(events[..n]) <= Users(events))
  {
    BurstsShape(events, Users(events), threshold, window);
    UsersDistinct(events);
    forall n: nat | n <= |events| ensures Users(events[..n]) <= Users(events) {
      UsersGrow(events, n);
    }
  }

  /** What a span measures on the sorted failures is what it measures on the events. */
  lemma SpanUsers(events: seq<Event>, t: real, window: int)
    ensures var fs := Filter(AnyFailure(), events);
            Amount(DistinctUsers, Filter(InSpan(t, window), SortBy(TimeOf(), fs)))
            == |Entities(Filter(AnyFailureInSpan(t, window), events))| <= |Entities(fs)|
  {
    var fs := Filter(AnyFailure(), events);
    AmountSorted(DistinctUsers, InSpan(t, window), fs);
    FilterBoth(AnyFailure(), InSpan(t, window), AnyFailureInSpan(t, window), events);
    FilterMember(InSpan(t, window), fs);
    SubsetSize(Entities(Filter(InSpan(t, window), fs)), Entities(fs));
  }

  lemma ScanExact(events: seq<Event>, threshold: int, window: int)
    ensures SprayScan(events, threshold, window).Some?
            <==> (exists e :: e in events && AnyFailure()(e))
                 && exists t: real :: |Entities(Filter(AnyFailureInSpan(t, window), events))| >= threshold
  {
    var fs := Filter(AnyFailure(), events);
    var sorted := SortBy(TimeOf(), fs);
    SortFacts(TimeOf(), fs);
    SomeFailure(events);
    BurstExact(DistinctUsers, sorted, threshold, window);
    if SprayScan(events, threshold, window).Some? {
      var t: real :| Amount(DistinctUsers, Filter(InSpan(t, window), sorted)) >= threshold;
      SpanUsers(events, t, window);
    }
    if t: real :| |Entities(Filter(AnyFailureInSpan(t, window), events))| >= threshold {
      SpanUsers(events, t, window);
    }
  }

  lemma SomeFailure(events: seq<Event>)
    ensures Filter(AnyFailure(), events) != [] <==> exists e :: e in events && AnyFailure()(e)
  {
    var fs := Filter(AnyFailure(), events);
    FilterMember(AnyFailure(), events);
    if fs != [] {
      assert fs[0] in fs;
    }
  }

  /** Spray raises its incident exactly when some span targets enough distinct users; the early exit never matters. */
  lemma SprayExact(events: seq<Event>, threshold: int, window: int)
    ensures Spray(events, threshold, window) != []
            <==> (exists e :: e in events && AnyFailure()(e))
                 && exists t: real :: |Entities(Filter(AnyFailureInSpan(t, window), events))| >= threshold
    ensures (Spray(events, threshold, window) != []) == SprayScan(events, threshold, window).Some?
    ensures SprayScan(events, threshold, window).Some? ==>
              Spray(events, threshold, window)
              == [Candidate("password_spray", SprayScan(events, threshold, window).value, [])]
  {
    ScanExact(events, threshold, window);
    if SprayScan(events, threshold, window).Some? {
      var t: real :| |Entities(Filter(AnyFailureInSpan(t, window), events))| >= threshold;
      SpanUsers(events, t, window);
    }
  }

  lemma ClusterMember(es: seq<Event>, i: nat, window: int)
    requires Ordered(TimeOf(), es) && i < |es|
    ensures forall e :: e in Cluster(es, i, window) <==> e in es[i..] && e.timestamp <= es[i].timestamp + window as real
    ensures forall e :: e in es[i..] ==> e.timestamp >= es[i].timestamp
  {
    FilterMember(Reaching(es[i].timestamp, window), es[i..]);
    forall e | e in es[i..] ensures e.timestamp >= es[i].timestamp {
      var j :| 0 <= j < |es[i..]| && es[i..][j] == e;
      assert TimeOf()(es[i]) <= TimeOf()(es[i + j]);
    }
  }

  /** A cluster is empty exactly for a negative window; otherwise it starts with its anchor. */
  lemma ClusterHead(es: seq<Event>, i: nat, window: int)
    requires Ordered(TimeOf(), es) && i < |es|
    ensures Cluster(es, i, window) != [] <==> window >= 0
    ensures window >= 0 ==> Cluster(es, i, window)[0] == es[i]
  {
    var p := Reaching(es[i].timestamp, window);
    if window >= 0 {
      assert es[i..] == [es[i]] + es[i + 1..];
      FilterAppend(p, [es[i]], es[i + 1..]);
      FilterAll(p, [es[i]]);
    } else {
      ClusterMember(es, i, window);
      FilterNone(p, es[i..]);
    }
  }

  /** A reported cluster is everything from the earliest qualifying anchor that fits in its window. */
  lemma BurstIsEarliestAndMaximal(m: Measure, es: seq<Event>, threshold: int, window: int) returns (i: nat)
    requires Ordered(TimeOf(), es) && Burst(m, es, threshold, window).Some?
    ensures i < |es|
    ensures var cluster := Burst(m, es, threshold, window).value;
            && Amount(m, cluster) >= threshold
            && (forall e :: e in cluster <==> e in es[i..] && e.timestamp <= es[i].timestamp + window as real)
            && (window >= 0 ==> cluster != [] && cluster[0] == es[i])
    ensures forall j :: 0 <= j < i ==> Amount(m, Cluster(es, j, window)) < threshold
  {
    i := FirstAnchor(m, es, threshold, window, 0);
    ClusterMember(es, i, window);
    ClusterHead(es, i, window);
  }

  // ---- key stability ----

  /** An anchor that did not qualify still does not, if a later one already does. */
  lemma StillBelow(es: seq<Event>, more: seq<Event>, j: nat, i: nat, threshold: int, window: int)
    requires Ordered(TimeOf(), es) && forall e, x :: e in es && x in more ==> e.timestamp <= x.timestamp
    requires j < i < |es| && |Cluster(es, j, window)| < threshold <= |Cluster(es, i, window)|
    ensures Filter(Reaching(es[j].timestamp, window), more) == []
  {
    var p := Reaching(es[j].timestamp, window);
    FilterBound(Reaching(es[i].timestamp, window), es[i..]);
    if Filter(p, more) != [] {
      FilterMember(p, more);
      var x := Filter(p, more)[0];
      assert x in more && p(x);
      ReachesAll(es, j, x, window);
    }
  }

  lemma ClusterGrows(es: seq<Event>, more: seq<Event>, j: nat, window: int)
    requires j < |es|
    ensures Cluster(es + more, j, window) == Cluster(es, j, window) + Filter(Reaching(es[j].timestamp, window), more)
  {
    assert (es + more)[j..] == es[j..] + more;
    FilterAppend(Reaching(es[j].timestamp, window), es[j..], more);
  }

  /** Later events appended behind a qualifying burst leave its anchor where it was. */
  lemma AnchorStays(es: seq<Event>, more: seq<Event>, threshold: int, window: int)
    requires Ordered(TimeOf(), es) && forall e, x :: e in es && x in more ==> e.timestamp <= x.timestamp
    requires FirstAnchor(Failures, es, threshold, window, 0) < |es|
    ensures FirstAnchor(Failures, es + more, threshold, window, 0) == FirstAnchor(Failures, es, threshold, window, 0)
  {
    var i := FirstAnchor(Failures, es, threshold, window, 0);
    forall j | 0 <= j <= i
      ensures Amount(Failures, Cluster(es + more, j, window)) >= threshold <==> j == i
    {
      ClusterGrows(es, more, j, window);
      if j < i {
        StillBelow(es, more, j, i, threshold, window);
      }
    }
    AnchorIs(es + more, i, threshold, window);
  }

  lemma AnchorIs(es: seq<Event>, i: nat, threshold: int, window: int)
    requires i < |es| && forall j :: 0 <= j <= i ==> (Amount(Failures, Cluster(es, j, window)) >= threshold <==> j == i)
    ensures FirstAnchor(Failures, es, threshold, window, 0) == i
  {
    assert Amount(Failures, Cluster(es, i, window)) >= threshold;
  }

  lemma FilterBound(p: Event -> bool, es: seq<Event>)
    ensures |Filter(p, es)| <= |es|
  {
  }

  lemma ReachesAll(es: seq<Event>, j: nat, x: Event, window: int)
    requires j < |es| && Reaching(es[j].timestamp, window)(x) && forall e :: e in es ==> e.timestamp <= x.timestamp
    ensures Cluster(es, j, window) == es[j..]
  {
    forall e | e in es[j..] ensures Reaching(es[j].timestamp, window)(e) {
      assert e in es;
    }
    FilterAll(Reaching(es[j].timestamp, window), es[j..]);
  }

  /**
    Appending events no earlier than all existing ones keeps an already raised brute-force incident,
    with the same first event: its user and its anchor, so its key, do not move.
  */
  lemma BruteForceAnchorStays(events: seq<Event>, more: seq<Event>, user: string, threshold: int, window: int)
    requires forall e, x :: e in events && x in more ==> e.timestamp <= x.timestamp
    requires UserBurst(events, user, threshold, window).Some?
    requires UserBurst(events, user, threshold, window).value != []
    ensures var after := UserBurst(events + more, user, threshold, window);
            after.Some? && after.value != [] && after.value[0] == UserBurst(events, user, threshold, window).value[0]
  {
    var p := FailureBy(user);
    var fs, gs := Filter(p, events), Filter(p, more);
    FilterAppend(p, events, more);
    FilterMember(p, events);
    FilterMember(p, more);
    SortAppend(TimeOf(), fs, gs);
    SortFacts(TimeOf(), fs);
    SortFacts(TimeOf(), gs);
    SortFacts(TimeOf(), fs + gs);
    BurstStays(SortBy(TimeOf(), fs), SortBy(TimeOf(), gs), threshold, window);
  }

  lemma BurstStays(es: seq<Event>, more: seq<Event>, threshold: int, window: int)
    requires Ordered(TimeOf(), es + more) && Ordered(TimeOf(), es)
    requires forall e, x :: e in es && x in more ==> e.timestamp <= x.timestamp
    requires Burst(Failures, es, threshold, window).Some? && Burst(Failures, es, threshold, window).value != []
    ensures var after := Burst(Failures, es + more, threshold, window);
            after.Some? && after.value != [] && after.value[0] == Burst(Failures, es, threshold, window).value[0]
  {
    AnchorStays(es, more, threshold, window);
    var i := FirstAnchor(Failures, es, threshold, window, 0);
    ClusterHead(es, i, window);
    ClusterHead(es + more, i, window);
  }
}
