/**
  The sliding-window distinct counter shared by the SYN-scan and ICMP-sweep detectors, against a
  naive recount of the whole packet history. `K` is the port, or the destination address.
*/
module DistinctWindow {
  import opened Sequences

  datatype Packet<K> = Packet(source: string, key: K, time: real)

  function Fresh<K>(now: real, window: int): Packet<K> -> bool {
    (p: Packet<K>) => now - p.time <= window as real
  }

  ghost function Keys<K(!new)>(ps: seq<Packet<K>>): set<K> {
    set p | p in ps :: p.key
  }

  /** Keys with their multiplicities, the abstract value of a counter. */
  ghost function Tally<K>(ps: seq<Packet<K>>): multiset<K> {
    if ps == [] then multiset{} else multiset{ps[0].key} + Tally(ps[1..])
  }

  // ---- the naive detector ----

  /** What the naive detector recounts when the last packet of `h` arrives. */
  ghost function Recount<K(!new)>(h: seq<Packet<K>>, threshold: int, window: int): set<K>
    requires h != []
    decreases |h|, 0
  {
    var p := h[|h| - 1];
    Keys(Filter(Fresh(p.time, window), SinceAlert(h[..|h| - 1], p.source, threshold, window) + [p]))
  }

  /** Every packet of the source since its last alert, however old. */
  ghost function SinceAlert<K(!new)>(h: seq<Packet<K>>, source: string, threshold: int, window: int): seq<Packet<K>>
    decreases |h|, 1
  {
    if h == [] then []
    else
      var p := h[|h| - 1];
      var before := SinceAlert(h[..|h| - 1], source, threshold, window);
      if p.source != source then before
      else if |Recount(h, threshold, window)| > threshold then []
      else before + [p]
  }

  ghost predicate InOrder<K(!new)>(h: seq<Packet<K>>) {
    forall i, j :: 0 <= i < j < |h| ==> h[i].time <= h[j].time
  }

  /** Time of the source's latest packet. */
  ghost function LastSeen<K(!new)>(h: seq<Packet<K>>, source: string): real {
    if h == [] then 0.0
    else if h[|h| - 1].source == source then h[|h| - 1].time
    else LastSeen(h[..|h| - 1], source)
  }

  // ---- facts about the naive detector ----

  /** Of one source, in order, and no later than its latest packet, which is one of them or older history. */
  ghost predicate Since<K(!new)>(s: seq<Packet<K>>, h: seq<Packet<K>>, source: string) {
    && InOrder(s)
    && (forall p :: p in s ==> p in h && p.source == source && p.time <= LastSeen(h, source))
    && (s != [] ==> exists p :: p in h && p.time == LastSeen(h, source))
  }

  lemma LatestInOrder<K(!new)>(init: seq<Packet<K>>, last: Packet<K>)
    requires InOrder(init + [last])
    ensures InOrder(init) && forall p :: p in init ==> p.time <= last.time
  {
    var h := init + [last];
    assert forall i :: 0 <= i < |init| ==> h[i] == init[i];
    forall p | p in init ensures p.time <= last.time {
      var i :| 0 <= i < |init| && init[i] == p;
      assert h[i].time <= h[|init|].time;
    }
  }

  lemma SinceOther<K(!new)>(s: seq<Packet<K>>, init: seq<Packet<K>>, last: Packet<K>, source: string)
    requires Since(s, init, source) && last.source != source
    ensures Since(s, init + [last], source)
  {
    var h := init + [last];
    assert h[..|h| - 1] == init;
    if s != [] {
      var p :| p in init && p.time == LastSeen(init, source);
      assert p in h;
    }
  }

  lemma SinceOwn<K(!new)>(s: seq<Packet<K>>, init: seq<Packet<K>>, last: Packet<K>)
    requires InOrder(init + [last]) && Since(s, init, last.source)
    ensures Since(s + [last], init + [last], last.source)
  {
    var h := init + [last];
    LatestInOrder(init, last);
    assert last in h && forall p :: p in init ==> p in h;
    AppendInOrder(s, last);
  }

  lemma AppendInOrder<K(!new)>(s: seq<Packet<K>>, last: Packet<K>)
    requires InOrder(s) && forall p :: p in s ==> p.time <= last.time
    ensures InOrder(s + [last])
  {
    assert forall i :: 0 <= i < |s| ==> s[i] in s;
  }

  lemma SinceNext<K(!new)>(s: seq<Packet<K>>, init: seq<Packet<K>>, last: Packet<K>, source: string)
    requires InOrder(init + [last]) && Since(s, init, source)
    ensures last.source != source ==> Since(s, init + [last], source)
    ensures last.source == source ==> Since(s + [last], init + [last], source)
  {
    if last.source != source {
      SinceOther(s, init, last, source);
    } else {
      SinceOwn(s, init, last);
    }
  }

  lemma {:induction false} SinceAlertFacts<K(!new)>(h: seq<Packet<K>>, source: string, threshold: int, window: int)
    requires InOrder(h)
    ensures Since(SinceAlert(h, source, threshold, window), h, source)
  {
    if h != [] {
      var init, last := h[..|h| - 1], h[|h| - 1];
      assert h == init + [last];
      LatestInOrder(init, last);
      SinceAlertFacts(init, source, threshold, window);
      var before := SinceAlert(init, source, threshold, window);
      SinceNext(before, init, last, source);
      var s := SinceAlert(h, source, threshold, window);
      assert s == [] || s == before + [last] || (last.source != source && s == before);
    }
  }

  /** A later window selects the same packets from an earlier selection as from everything. */
  lemma {:induction false} FreshTwice<K(!new)>(ps: seq<Packet<K>>, earlier: real, later: real, window: int)
    requires earlier <= later
    ensures Filter(Fresh(later, window), Filter(Fresh(earlier, window), ps)) == Filter(Fresh(later, window), ps)
  {
    if ps != [] {
      var init, p := ps[..|ps| - 1], ps[|ps| - 1];
      FreshTwice(init, earlier, later, window);
      var kept := Filter(Fresh(earlier, window), init);
      assert (kept + [p])[..|kept + [p]| - 1] == kept;
      assert Filter(Fresh(earlier, window), ps)
          == if Fresh<K>(earlier, window)(p) then kept + [p] else kept;
    }
  }

  /** In time order the stale packets are a prefix, so eviction from the front is a selection. */
  lemma EvictionIsSelection<K(!new)>(stale: seq<Packet<K>>, rest: seq<Packet<K>>, now: real, window: int)
    requires InOrder(stale + rest)
    requires forall p :: p in stale ==> !Fresh<K>(now, window)(p)
    requires rest != [] ==> Fresh<K>(now, window)(rest[0])
    ensures Filter(Fresh(now, window), stale + rest) == rest
  {
    FilterAppend(Fresh(now, window), stale, rest);
    FilterNone(Fresh(now, window), stale);
    forall p | p in rest ensures Fresh<K>(now, window)(p) {
      var i :| 0 <= i < |rest| && rest[i] == p;
      assert (stale + rest)[|stale|].time <= (stale + rest)[|stale| + i].time;
    }
    FilterAll(Fresh(now, window), rest);
  }

  lemma {:induction false} TallyKeys<K(!new)>(ps: seq<Packet<K>>)
    ensures forall k :: k in Tally(ps) <==> k in Keys(ps)
  {
    if ps != [] {
      TallyKeys(ps[1..]);
      assert ps == [ps[0]] + ps[1..];
      assert Keys(ps) == {ps[0].key} + Keys(ps[1..]);
    }
  }

  lemma {:induction false} TallyAppend<K(!new)>(ps: seq<Packet<K>>, p: Packet<K>)
    ensures Tally(ps + [p]) == Tally(ps) + multiset{p.key}
  {
    if ps == [] {
      assert [] + [p] == [p] && [p][1..] == [];
    } else {
      TallyAppend(ps[1..], p);
      assert (ps + [p])[1..] == ps[1..] + [p];
    }
  }

  lemma KeysAppend<K(!new)>(ps: seq<Packet<K>>, p: Packet<K>)
    ensures Keys(ps + [p]) == Keys(ps) + {p.key}
  {
  }

  /** A reference-counting map holds exactly the multiplicities of a multiset. */
  ghost predicate Counts<K(!new)>(counter: map<K, nat>, tally: multiset<K>) {
    (forall k :: k in counter <==> k in tally) && (forall k :: k in counter ==> counter[k] == tally[k])
  }

  function Increment<K>(counter: map<K, nat>, k: K): map<K, nat> {
    counter[k := (if k in counter then counter[k] else 0) + 1]
  }

  /** Decrement, deleting the entry when it reaches zero. */
  function Decrement<K>(counter: map<K, nat>, k: K): map<K, nat>
    requires k in counter && counter[k] > 0
  {
    if counter[k] == 1 then counter - {k} else counter[k := counter[k] - 1]
  }

  function Most(a: int, b: int): int { if a >= b then a else b }

  // ---- the incremental state ----

  function DequeOf<K>(deques: map<string, seq<Packet<K>>>, source: string): seq<Packet<K>> {
    if source in deques then deques[source] else []
  }

  /** A source's counter is the multiset of its deque, with no more distinct keys than the threshold. */
  ghost predicate Consistent<K(!new)>(deques: map<string, seq<Packet<K>>>, counters: map<string, map<K, nat>>,
                                      threshold: int)
  {
    && deques.Keys == counters.Keys
    && (forall s :: s in deques ==> Counts(counters[s], Tally(deques[s])) && |Keys(deques[s])| <= Most(threshold, 0))
  }

  /** A source's deque is its packets since its last alert within the window of its latest packet. */
  ghost predicate Exact<K(!new)>(deques: map<string, seq<Packet<K>>>, h: seq<Packet<K>>, threshold: int, window: int) {
    forall s :: DequeOf(deques, s) == Filter(Fresh(LastSeen(h, s), window), SinceAlert(h, s, threshold, window))
  }

  class Detector<K(==, !new)> {
    const threshold: int
    const window: int
    var deques: map<string, seq<Packet<K>>>
    var counters: map<string, map<K, nat>>
    ghost var history: seq<Packet<K>>

    ghost predicate Valid()
      reads this
    {
      && Consistent(deques, counters, threshold)
      && (window >= 0 && InOrder(history) ==> Exact(deques, history, threshold, window))
    }

    constructor (threshold: int, window: int)
      ensures Valid() && history == [] && this.threshold == threshold && this.window == window
    {
      this.threshold, this.window := threshold, window;
      deques, counters, history := map[], map[], [];
    }

    /** Returns the reported distinct count when the detector alerts. */
    method ProcessPacket(source: string, key: K, time: real) returns (alert: Option<nat>)
      requires Valid()
      modifies this
      ensures Valid() && history == old(history) + [Packet(source, key, time)]
      ensures alert.Some? ==> alert.value == Most(threshold, 0) + 1
      ensures window >= 0 && InOrder(history) ==>
                var found := Recount(history, threshold, window);
                && (alert.Some? <==> |found| > threshold)
                && (alert.Some? ==> alert.value == |found|)
    {
      var p := Packet(source, key, time);
      var deque := DequeOf(deques, source);
      var counter := if source in counters then counters[source] else map[];
      ghost var before, oldDeques, oldCounters := deque, deques, counters;
      assert Counts(counter, Tally(deque));
      deque, counter := Evict(deque, counter, time, window);
      ghost var kept := deque;
      CountsIncrement(counter, kept, p);
      deque := deque + [p];
      counter := Increment(counter, key);
      var uniqueCount := |counter|;
      if uniqueCount > threshold {
        deques, counters := deques - {source}, counters - {source};
        alert := Some(uniqueCount);
      } else {
        deques, counters := deques[source := deque], counters[source := counter];
        alert := None;
      }
      ConsistentStep(oldDeques, oldCounters, threshold, p, before, kept, counter);
      ExactIfInOrder(oldDeques, deques, history, p, kept, threshold, window);
      history := history + [p];
    }
  }

  /** Stale packets leave the front of the deque, and the counter with them. */
  method Evict<K(==, !new)>(deque: seq<Packet<K>>, counter: map<K, nat>, now: real, window: int)
    returns (deque': seq<Packet<K>>, counter': map<K, nat>)
    requires Counts(counter, Tally(deque))
    ensures Counts(counter', Tally(deque'))
    ensures exists n :: 0 <= n <= |deque| && deque' == deque[n..]
    ensures InOrder(deque) ==> deque' == Filter(Fresh(now, window), deque)
  {
    deque', counter' := deque, counter;
    ghost var n := 0;
    while deque' != [] && now - deque'[0].time > window as real
      invariant 0 <= n <= |deque| && deque' == deque[n..]
      invariant Counts(counter', Tally(deque'))
      invariant forall p :: p in deque[..n] ==> !Fresh<K>(now, window)(p)
      decreases |deque'|
    {
      var oldKey := deque'[0].key;
      CountsDecrement(counter', deque');
      assert deque[..n + 1] == deque[..n] + [deque[n]];
      counter' := Decrement(counter', oldKey);
      deque' := deque'[1..];
      n := n + 1;
    }
    EvictedIsSelection(deque, n, now, window);
  }

  lemma CountsDecrement<K(!new)>(counter: map<K, nat>, deque: seq<Packet<K>>)
    requires deque != [] && Counts(counter, Tally(deque))
    ensures deque[0].key in counter && counter[deque[0].key] > 0
    ensures Counts(Decrement(counter, deque[0].key), Tally(deque[1..]))
  {
    assert Tally(deque) == multiset{deque[0].key} + Tally(deque[1..]);
    assert deque[0].key in Tally(deque);
  }

  lemma EvictedIsSelection<K(!new)>(deque: seq<Packet<K>>, n: nat, now: real, window: int)
    requires n <= |deque| && forall p :: p in deque[..n] ==> !Fresh<K>(now, window)(p)
    requires n < |deque| ==> Fresh<K>(now, window)(deque[n])
    ensures InOrder(deque) ==> deque[n..] == Filter(Fresh(now, window), deque)
  {
    assert deque == deque[..n] + deque[n..];
    if InOrder(deque) {
      EvictionIsSelection(deque[..n], deque[n..], now, window);
    }
  }

  lemma CountsIncrement<K(!new)>(counter: map<K, nat>, kept: seq<Packet<K>>, p: Packet<K>)
    requires Counts(counter, Tally(kept))
    ensures Counts(Increment(counter, p.key), Tally(kept + [p]))
  {
    TallyAppend(kept, p);
  }

  /** Counting a packet and resetting on alert keeps the counters within the threshold. */
  lemma ConsistentStep<K(!new)>(deques: map<string, seq<Packet<K>>>, counters: map<string, map<K, nat>>, threshold: int,
                                p: Packet<K>, before: seq<Packet<K>>, kept: seq<Packet<K>>, counter: map<K, nat>)
    requires Consistent(deques, counters, threshold) && before == DequeOf(deques, p.source)
    requires exists n :: 0 <= n <= |before| && kept == before[n..]
    requires Counts(counter, Tally(kept + [p]))
    ensures |counter| == |Keys(kept + [p])|
    ensures |counter| > threshold ==> |counter| == Most(threshold, 0) + 1
    ensures |counter| > threshold ==> Consistent(deques - {p.source}, counters - {p.source}, threshold)
    ensures |counter| <= threshold ==>
              Consistent(deques[p.source := kept + [p]], counters[p.source := counter], threshold)
  {
    CounterSize(counter, kept + [p]);
    KeptKeys(before, kept, p);
    assert |Keys(before)| <= Most(threshold, 0);
  }

  lemma ExactIfInOrder<K(!new)>(deques: map<string, seq<Packet<K>>>, deques': map<string, seq<Packet<K>>>,
                                h: seq<Packet<K>>, p: Packet<K>, kept: seq<Packet<K>>, threshold: int, window: int)
    requires window >= 0 && InOrder(h) ==> Exact(deques, h, threshold, window)
    requires InOrder(DequeOf(deques, p.source)) ==> kept == Filter(Fresh(p.time, window), DequeOf(deques, p.source))
    requires deques' == if |Keys(kept + [p])| > threshold then deques - {p.source} else deques[p.source := kept + [p]]
    ensures window >= 0 && InOrder(h + [p]) ==>
              Recount(h + [p], threshold, window) == Keys(kept + [p]) && Exact(deques', h + [p], threshold, window)
  {
    if window >= 0 && InOrder(h + [p]) {
      PrefixInOrder(h, p);
      ExactStep(deques, deques', h, p, kept, threshold, window);
    }
  }

  /** The incremental step keeps every deque equal to the naive selection. */
  lemma ExactStep<K(!new)>(deques: map<string, seq<Packet<K>>>, deques': map<string, seq<Packet<K>>>,
                           h: seq<Packet<K>>, p: Packet<K>, kept: seq<Packet<K>>, threshold: int, window: int)
    requires window >= 0 && InOrder(h + [p]) && Exact(deques, h, threshold, window)
    requires InOrder(DequeOf(deques, p.source)) ==> kept == Filter(Fresh(p.time, window), DequeOf(deques, p.source))
    requires deques' == if |Keys(kept + [p])| > threshold then deques - {p.source} else deques[p.source := kept + [p]]
    ensures Recount(h + [p], threshold, window) == Keys(kept + [p])
    ensures Exact(deques', h + [p], threshold, window)
  {
    Refines(h, p, DequeOf(deques, p.source), kept, threshold, window);
    assert (h + [p])[..|h + [p]| - 1] == h;
    forall s
      ensures DequeOf(deques', s)
              == Filter(Fresh(LastSeen(h + [p], s), window), SinceAlert(h + [p], s, threshold, window))
    {
      if s != p.source {
        assert DequeOf(deques', s) == DequeOf(deques, s);
      }
    }
  }

  /** The size of a counter is the number of distinct keys, read without a scan. */
  lemma CounterSize<K(!new)>(counter: map<K, nat>, deque: seq<Packet<K>>)
    requires Counts(counter, Tally(deque))
    ensures |counter| == |Keys(deque)|
  {
    TallyKeys(deque);
    assert counter.Keys == Keys(deque);
  }

  lemma KeptKeys<K(!new)>(before: seq<Packet<K>>, kept: seq<Packet<K>>, p: Packet<K>)
    requires exists n :: 0 <= n <= |before| && kept == before[n..]
    ensures 1 <= |Keys(kept + [p])| <= |Keys(before)| + 1
  {
    KeysAppend(kept, p);
    assert Keys(kept) <= Keys(before);
    SubsetSize(Keys(kept), Keys(before));
    assert p.key in Keys(kept + [p]);
  }

  lemma PrefixInOrder<K(!new)>(h: seq<Packet<K>>, p: Packet<K>)
    requires InOrder(h + [p])
    ensures InOrder(h)
  {
    assert forall i :: 0 <= i < |h| ==> h[i] == (h + [p])[i];
  }

  /** One packet: the evicted deque plus the packet is what the naive detector recounts. */
  lemma Refines<K(!new)>(h: seq<Packet<K>>, p: Packet<K>, before: seq<Packet<K>>, kept: seq<Packet<K>>,
                         threshold: int, window: int)
    requires window >= 0 && InOrder(h + [p])
    requires before == Filter(Fresh(LastSeen(h, p.source), window), SinceAlert(h, p.source, threshold, window))
    requires InOrder(before) ==> kept == Filter(Fresh(p.time, window), before)
    ensures var all := SinceAlert(h, p.source, threshold, window);
            && Filter(Fresh(p.time, window), all + [p]) == kept + [p]
            && Recount(h + [p], threshold, window) == Keys(kept + [p])
  {
    var all, seen := SinceAlert(h, p.source, threshold, window), LastSeen(h, p.source);
    PrefixInOrder(h, p);
    SinceAlertFacts(h, p.source, threshold, window);
    LatestInOrder(h, p);
    KeptIsFresh(all, p, seen, before, kept, window);
    assert (h + [p])[..|h + [p]| - 1] == h;
  }

  lemma KeptIsFresh<K(!new)>(all: seq<Packet<K>>, p: Packet<K>, seen: real, before: seq<Packet<K>>,
                             kept: seq<Packet<K>>, window: int)
    requires window >= 0 && InOrder(all) && (all != [] ==> seen <= p.time)
    requires before == Filter(Fresh(seen, window), all)
    requires InOrder(before) ==> kept == Filter(Fresh(p.time, window), before)
    ensures Filter(Fresh(p.time, window), all + [p]) == kept + [p]
  {
    FreshInOrder(all, seen, window);
    if all != [] {
      FreshTwice(all, seen, p.time, window);
    }
    FilterAppend(Fresh(p.time, window), all, [p]);
    FilterAll(Fresh(p.time, window), [p]);
  }

  lemma {:induction false} FreshInOrder<K(!new)>(ps: seq<Packet<K>>, now: real, window: int)
    requires InOrder(ps)
    ensures InOrder(Filter(Fresh(now, window), ps))
  {
    if ps != [] {
      var init, p := ps[..|ps| - 1], ps[|ps| - 1];
      FreshInOrder(init, now, window);
      FilterMember(Fresh(now, window), init);
      var kept := Filter(Fresh(now, window), init);
      forall i | 0 <= i < |kept| ensures kept[i].time <= p.time {
        assert kept[i] in kept && kept[i] in init;
        var j :| 0 <= j < |init| && init[j] == kept[i];
        assert ps[j].time <= ps[|init|].time;
      }
    }
  }
}
