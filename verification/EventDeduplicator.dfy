/** The bounded duplicate suppressor of detection/dedup.py against an unbounded table. */
module EventDeduplicator {
  import opened Sequences
  import opened StableSort

  datatype Entry = Entry(fp: string, at: real)

  /** One call: the fingerprint, its time, and whether it was admitted as new. */
  datatype Call = Call(fp: string, at: real, admitted: bool)

  // ---- the table, in insertion order like the dictionary it models ----

  function Lookup(seen: seq<Entry>, fp: string): Option<real> {
    if seen == [] then None
    else if seen[0].fp == fp then Some(seen[0].at)
    else Lookup(seen[1..], fp)
  }

  /** Assigning a key keeps its place when it is already there. */
  function Put(seen: seq<Entry>, fp: string, at: real): seq<Entry> {
    if seen == [] then [Entry(fp, at)]
    else if seen[0].fp == fp then [Entry(fp, at)] + seen[1..]
    else [seen[0]] + Put(seen[1..], fp, at)
  }

  function Since(cutoff: real): Entry -> bool { (e: Entry) => e.at >= cutoff }

  function TimeOf(): Entry -> real { (e: Entry) => e.at }

  ghost predicate DistinctKeys(es: seq<Entry>) {
    forall i, j :: 0 <= i < j < |es| ==> es[i].fp != es[j].fp
  }

  lemma {:induction false} PlaceDistinct(sorted: seq<Entry>, e: Entry)
    requires DistinctKeys(sorted) && forall x :: x in sorted ==> x.fp != e.fp
    ensures DistinctKeys(Place(TimeOf(), sorted, e))
  {
    if !(sorted == [] || TimeOf()(sorted[|sorted| - 1]) <= TimeOf()(e)) {
      var init, last := sorted[..|sorted| - 1], sorted[|sorted| - 1];
      PlaceDistinct(init, e);
      PlaceMember(TimeOf(), init, e);
      forall x | x in Place(TimeOf(), init, e) ensures x.fp != last.fp {
        if x in init {
          var i :| 0 <= i < |init| && init[i] == x;
          assert sorted[i].fp != sorted[|init|].fp;
        } else {
          assert last in sorted;
        }
      }
    }
  }

  lemma {:induction false} SortDistinct(seen: seq<Entry>)
    requires DistinctKeys(seen)
    ensures DistinctKeys(SortBy(TimeOf(), seen))
  {
    if seen != [] {
      var init, last := seen[..|seen| - 1], seen[|seen| - 1];
      SortDistinct(init);
      SortFacts(TimeOf(), init);
      forall x | x in SortBy(TimeOf(), init) ensures x.fp != last.fp {
        var i :| 0 <= i < |init| && init[i] == x;
        assert seen[i].fp != seen[|init|].fp;
      }
      PlaceDistinct(SortBy(TimeOf(), init), last);
    }
  }

  /** What is left after dropping the older half, ties broken by insertion order. */
  function NewerHalf(seen: seq<Entry>): seq<Entry> {
    SortBy(TimeOf(), seen)[|seen| / 2..]
  }

  /** Halving drops `n / 2` entries, none of them newer than an entry it keeps. */
  lemma HalvingKeepsNewest(seen: seq<Entry>)
    requires DistinctKeys(seen)
    ensures |NewerHalf(seen)| == |seen| - |seen| / 2 && DistinctKeys(NewerHalf(seen))
    ensures forall x :: x in NewerHalf(seen) ==> x in seen
    ensures forall x, y :: x in seen && x !in NewerHalf(seen) && y in NewerHalf(seen) ==> x.at <= y.at
  {
    SortFacts(TimeOf(), seen);
    SortDistinct(seen);
    var ordered, half := SortBy(TimeOf(), seen), |seen| / 2;
    assert ordered == ordered[..half] + ordered[half..];
    OrderedHalves(ordered, half);
  }

  lemma OrderedHalves(ordered: seq<Entry>, half: nat)
    requires Ordered(TimeOf(), ordered) && half <= |ordered|
    ensures forall x, y :: x in ordered[..half] && y in ordered[half..] ==> x.at <= y.at
  {
    forall x, y | x in ordered[..half] && y in ordered[half..]
      ensures x.at <= y.at
    {
      var i :| 0 <= i < half && ordered[i] == x;
      var back := ordered[half..];
      var j :| 0 <= j < |back| && back[j] == y;
      assert TimeOf()(ordered[i]) <= TimeOf()(ordered[half + j]);
    }
  }

  // ---- the reference ----

  /** When the fingerprint was last admitted. */
  ghost function LastAdmitted(h: seq<Call>, fp: string): Option<real> {
    if h == [] then None
    else var c := h[|h| - 1];
         if c.fp == fp && c.admitted then Some(c.at) else LastAdmitted(h[..|h| - 1], fp)
  }

  predicate Within(last: Option<real>, now: real, window: real) {
    last.Some? && now - last.value < window
  }

  ghost predicate Monotone(h: seq<Call>) {
    forall i, j :: 0 <= i < j < |h| ==> h[i].at <= h[j].at
  }

  /** Every call is answered as by a table that forgets nothing. */
  ghost predicate Unbounded(h: seq<Call>, window: real) {
    forall i :: 0 <= i < |h| ==> (h[i].admitted <==> !Within(LastAdmitted(h[..i], h[i].fp), h[i].at, window))
  }

  /** The fingerprints admitted within the window of a call at time `now`. */
  ghost function Recent(h: seq<Call>, now: real, window: real): set<string> {
    set c | c in h && c.admitted && now - c.at <= window :: c.fp
  }

  /** Some call found `limit` fingerprints or more admitted within its window. */
  ghost predicate Crowded(h: seq<Call>, window: real, limit: int) {
    exists i :: 0 <= i < |h| && |Recent(h[..i], h[i].at, window)| >= limit
  }

  lemma CrowdedNext(h: seq<Call>, c: Call, window: real, limit: int)
    ensures Crowded(h + [c], window, limit)
            <==> Crowded(h, window, limit) || |Recent(h, c.at, window)| >= limit
  {
    var h' := h + [c];
    assert h'[..|h|] == h && h'[|h|] == c;
    assert forall i :: 0 <= i < |h| ==> h'[..i] == h[..i] && h'[i] == h[i];
  }

  /** The fingerprints of a table. */
  ghost function Keys(es: seq<Entry>): set<string> {
    set e | e in es :: e.fp
  }

  lemma {:induction false} KeysSize(es: seq<Entry>)
    requires DistinctKeys(es)
    ensures |Keys(es)| == |es|
  {
    if es != [] {
      var init, last := es[..|es| - 1], es[|es| - 1];
      KeysSize(init);
      assert es == init + [last];
      assert Keys(es) == Keys(init) + {last.fp};
      assert forall e :: e in init ==> e.fp != last.fp;
    }
  }

  /** The fresh entries of a table were all admitted within the window. */
  lemma FreshAreRecent(seen: seq<Entry>, h: seq<Call>, now: real, window: real)
    requires DistinctKeys(seen) && Recorded(seen, h)
    ensures |Filter(Since(now - window), seen)| <= |Recent(h, now, window)|
  {
    var kept := Filter(Since(now - window), seen);
    SinceDistinct(seen, now - window);
    KeysSize(kept);
    FilterMember(Since(now - window), seen);
    forall fp | fp in Keys(kept) ensures fp in Recent(h, now, window) {
      var e :| e in kept && e.fp == fp;
      assert Call(e.fp, e.at, true) in h;
    }
    SubsetSize(Keys(kept), Recent(h, now, window));
  }

  lemma {:induction false} LastIsLatest(h: seq<Call>, c: Call)
    requires Monotone(h) && c in h && c.admitted
    ensures LastAdmitted(h, c.fp).Some? && LastAdmitted(h, c.fp).value >= c.at
  {
    var init, last := h[..|h| - 1], h[|h| - 1];
    if last.fp == c.fp && last.admitted {
      var i :| 0 <= i < |h| && h[i] == c;
    } else {
      LastIsLatest(init, c);
    }
  }

  /** As long as the table forgets nothing that matters, it holds every fingerprint admitted within the window. */
  lemma RecentAreFresh(seen: seq<Entry>, h: seq<Call>, now: real, window: real)
    requires DistinctKeys(seen) && AgreesAt(seen, h, window, now) && Monotone(h)
    ensures |Recent(h, now, window)| <= |Filter(Since(now - window), seen)|
  {
    var kept := Filter(Since(now - window), seen);
    SinceDistinct(seen, now - window);
    KeysSize(kept);
    forall fp | fp in Recent(h, now, window) ensures fp in Keys(kept) {
      var c :| c in h && c.admitted && now - c.at <= window && c.fp == fp;
      LastIsLatest(h, c);
      SinceLookup(seen, now - window, fp);
      LookupMember(kept, fp);
    }
    SubsetSize(Recent(h, now, window), Keys(kept));
  }

  /** What an eviction leaves: everything below the limit, else the fresh entries, else the newer half of those. */
  ghost predicate Evicted(before: seq<Entry>, after: seq<Entry>, now: real, window: real, limit: int) {
    var kept := Filter(Since(now - window), before);
    if |before| < limit then after == before
    else if |kept| < limit then after == kept
    else
      && |after| == |kept| - |kept| / 2
      && (forall x :: x in after ==> x in kept)
      && (forall x, y :: x in kept && x !in after && y in after ==> x.at <= y.at)
  }


  ghost predicate Recorded(seen: seq<Entry>, h: seq<Call>) {
    forall e :: e in seen ==> Call(e.fp, e.at, true) in h
  }

  lemma {:induction false} LookupMember(seen: seq<Entry>, fp: string)
    ensures Lookup(seen, fp).Some? ==> Entry(fp, Lookup(seen, fp).value) in seen
    ensures Lookup(seen, fp).None? ==> forall e :: e in seen ==> e.fp != fp
  {
    if seen != [] {
      LookupMember(seen[1..], fp);
      assert seen == [seen[0]] + seen[1..];
    }
  }

  lemma LookupDistinct(seen: seq<Entry>, e: Entry)
    requires DistinctKeys(seen) && e in seen
    ensures Lookup(seen, e.fp) == Some(e.at)
  {
    LookupMember(seen, e.fp);
    var i :| 0 <= i < |seen| && seen[i] == e;
    var j :| 0 <= j < |seen| && seen[j] == Entry(e.fp, Lookup(seen, e.fp).value);
    assert i == j;
  }

  lemma {:induction false} PutLookup(seen: seq<Entry>, fp: string, at: real, k: string)
    ensures Lookup(Put(seen, fp, at), k) == if k == fp then Some(at) else Lookup(seen, k)
    ensures |Put(seen, fp, at)| == if Lookup(seen, fp).Some? then |seen| else |seen| + 1
  {
    if seen != [] {
      PutLookup(seen[1..], fp, at, k);
    }
  }

  lemma {:induction false} PutMember(seen: seq<Entry>, fp: string, at: real)
    ensures forall e :: e in Put(seen, fp, at) ==> e in seen || e == Entry(fp, at)
  {
    if seen != [] {
      PutMember(seen[1..], fp, at);
    }
  }

  lemma ConsDistinct(x: Entry, es: seq<Entry>)
    requires DistinctKeys(es) && forall e :: e in es ==> e.fp != x.fp
    ensures DistinctKeys([x] + es)
  {
  }

  lemma {:induction false} PutDistinct(seen: seq<Entry>, fp: string, at: real)
    requires DistinctKeys(seen)
    ensures DistinctKeys(Put(seen, fp, at))
  {
    if seen != [] {
      PutDistinct(seen[1..], fp, at);
      PutMember(seen[1..], fp, at);
      forall e | e in seen[1..] ensures e.fp != seen[0].fp {
        var i :| 0 <= i < |seen[1..]| && seen[1..][i] == e;
        assert seen[i + 1].fp != seen[0].fp;
      }
      if seen[0].fp == fp {
        ConsDistinct(Entry(fp, at), seen[1..]);
      } else {
        ConsDistinct(seen[0], Put(seen[1..], fp, at));
      }
    }
  }

  lemma PutFacts(seen: seq<Entry>, fp: string, at: real)
    requires DistinctKeys(seen)
    ensures forall e :: e in Put(seen, fp, at) ==> e in seen || e == Entry(fp, at)
    ensures DistinctKeys(Put(seen, fp, at))
    ensures |Put(seen, fp, at)| == if Lookup(seen, fp).Some? then |seen| else |seen| + 1
    ensures forall k :: Lookup(Put(seen, fp, at), k) == if k == fp then Some(at) else Lookup(seen, k)
  {
    PutMember(seen, fp, at);
    PutDistinct(seen, fp, at);
    PutLookup(seen, fp, at, fp);
    forall k ensures Lookup(Put(seen, fp, at), k) == if k == fp then Some(at) else Lookup(seen, k) {
      PutLookup(seen, fp, at, k);
    }
  }

  lemma {:induction false} SinceDistinct(seen: seq<Entry>, cutoff: real)
    requires DistinctKeys(seen)
    ensures DistinctKeys(Filter(Since(cutoff), seen))
  {
    if seen != [] {
      var init, last := seen[..|seen| - 1], seen[|seen| - 1];
      SinceDistinct(init, cutoff);
      FilterMember(Since(cutoff), init);
      forall x | x in Filter(Since(cutoff), init) ensures x.fp != last.fp {
        var i :| 0 <= i < |init| && init[i] == x;
        assert seen[i].fp != seen[|init|].fp;
      }
    }
  }

  /** Dropping expired entries leaves every lookup that could still matter. */
  lemma SinceLookup(seen: seq<Entry>, cutoff: real, fp: string)
    requires DistinctKeys(seen)
    ensures Lookup(Filter(Since(cutoff), seen), fp)
            == if Lookup(seen, fp).Some? && Lookup(seen, fp).value >= cutoff then Lookup(seen, fp) else None
  {
    var left := Filter(Since(cutoff), seen);
    SinceDistinct(seen, cutoff);
    FilterMember(Since(cutoff), seen);
    LookupMember(seen, fp);
    LookupMember(left, fp);
    if Lookup(left, fp).Some? {
      LookupDistinct(seen, Entry(fp, Lookup(left, fp).value));
    } else if Lookup(seen, fp).Some? {
      assert Entry(fp, Lookup(seen, fp).value) !in left;
    }
  }

  /** The table as the next call at time `now` will look it up, entries within the window included. */
  ghost predicate AgreesAt(seen: seq<Entry>, h: seq<Call>, window: real, now: real) {
    forall fp :: match Lookup(seen, fp)
                 case Some(t) => LastAdmitted(h, fp) == Some(t)
                 case None => forall t :: LastAdmitted(h, fp) == Some(t) ==> now - t > window
  }

  lemma CallStep(seen: seq<Entry>, h: seq<Call>, fp: string, now: real, window: real)
    requires DistinctKeys(seen) && AgreesAt(seen, h, window, now)
    ensures var dup := Within(Lookup(seen, fp), now, window);
            && dup == Within(LastAdmitted(h, fp), now, window)
            && AgreesAt(if dup then seen else Put(seen, fp, now), h + [Call(fp, now, !dup)], window, now)
  {
    PutFacts(seen, fp, now);
    var dup := Within(Lookup(seen, fp), now, window);
    var c := Call(fp, now, !dup);
    assert (h + [c])[..|h + [c]| - 1] == h;
  }

  lemma AgreesLater(seen: seq<Entry>, h: seq<Call>, window: real, t: real, now: real)
    requires AgreesAt(seen, h, window, t) && t <= now
    ensures AgreesAt(seen, h, window, now)
  {
  }

  lemma EvictionAgrees(seen: seq<Entry>, h: seq<Call>, window: real, now: real)
    requires DistinctKeys(seen) && AgreesAt(seen, h, window, now)
    ensures AgreesAt(Filter(Since(now - window), seen), h, window, now)
  {
    forall fp
      ensures Lookup(Filter(Since(now - window), seen), fp)
              == if Lookup(seen, fp).Some? && Lookup(seen, fp).value >= now - window then Lookup(seen, fp) else None
    {
      SinceLookup(seen, now - window, fp);
    }
  }

  /** With a clock that never runs back, every answer so far and the next lookups forget nothing. */
  ghost predicate Settled(seen: seq<Entry>, h: seq<Call>, window: real) {
    Monotone(h) ==>
      && Unbounded(h, window)
      && (if h == [] then seen == [] else AgreesAt(seen, h, window, h[|h| - 1].at))
  }

  /** An eviction halves the table exactly when this many fresh entries remain. */
  ghost predicate Halves(before: seq<Entry>, now: real, window: real, limit: int) {
    |before| >= limit && |Filter(Since(now - window), before)| >= limit
  }

  /**
    What a table knows of the calls so far: every entry was admitted; the next lookups forget nothing
    until a halving; and with a clock that never runs back, halvings come exactly with crowded calls.
  */
  ghost predicate Sound(seen: seq<Entry>, h: seq<Call>, halved: bool, window: real, limit: int) {
    && DistinctKeys(seen)
    && Recorded(seen, h)
    && (!halved ==> Settled(seen, h, window))
    && (halved ==> Crowded(h, window, limit))
    && (Monotone(h) && Crowded(h, window, limit) ==> halved)
  }

  class Deduplicator {
    const window: real
    const maxEntries: int
    var seen: seq<Entry>
    ghost var history: seq<Call>
    ghost var halved: bool

    ghost predicate Valid()
      reads this
    {
      Sound(seen, history, halved, window, maxEntries) && (maxEntries >= 2 ==> |seen| <= maxEntries)
    }

    constructor (window: real, maxEntries: int)
      ensures Valid() && history == [] && !halved && this.window == window && this.maxEntries == maxEntries
    {
      this.window, this.maxEntries := window, maxEntries;
      seen, history, halved := [], [], false;
    }

    method Evict(now: real)
      modifies this`seen, this`halved
      requires DistinctKeys(seen) && Recorded(seen, history)
      requires maxEntries >= 2 ==> |seen| <= maxEntries
      ensures DistinctKeys(seen) && Recorded(seen, history)
      ensures maxEntries >= 2 ==> |seen| < maxEntries
      ensures Evicted(old(seen), seen, now, window, maxEntries)
      ensures halved <==> old(halved) || Halves(old(seen), now, window, maxEntries)
    {
      if |seen| < maxEntries {
        return;
      }
      FilterMember(Since(now - window), seen);
      SinceDistinct(seen, now - window);
      seen := Filter(Since(now - window), seen);
      if |seen| >= maxEntries {
        HalvingKeepsNewest(seen);
        seen := NewerHalf(seen);
        halved := true;
      }
    }

    /**
      A duplicate is reported only for a fingerprint admitted less than a window earlier. As long as
      every call finds fewer than `maxEntries` fingerprints admitted within its window, nothing is
      halved and, with a clock that never runs back, all answers are those of an unbounded table.
    */
    method IsDuplicate(fp: string, now: real) returns (duplicate: bool)
      requires Valid()
      modifies this
      ensures Valid() && history == old(history) + [Call(fp, now, !duplicate)]
      ensures duplicate ==> exists t :: Call(fp, t, true) in old(history) && now - t < window
      ensures exists mid :: Answers(old(seen), mid, seen, fp, now, window, maxEntries, duplicate)
      ensures halved ==> old(halved) || |Recent(old(history), now, window)| >= maxEntries
      ensures !Crowded(history, window, maxEntries) ==> !halved
      ensures !Crowded(history, window, maxEntries) && Monotone(history) ==>
                && (duplicate <==> Within(LastAdmitted(old(history), fp), now, window))
                && Unbounded(history, window)
    {
      ghost var h, before, was := history, seen, halved;
      Evict(now);
      duplicate := Within(Lookup(seen, fp), now, window);
      CallKeeps(before, seen, h, was, fp, now, window, maxEntries);
      if !halved {
        CallAnswers(before, seen, h, fp, now, window, maxEntries);
      }
      ghost var mid := seen;
      if !duplicate {
        seen := Put(seen, fp, now);
      }
      history := history + [Call(fp, now, !duplicate)];
      assert Answers(before, mid, seen, fp, now, window, maxEntries, duplicate);
    }
  }

  /** A call keeps what the table knows. */
  lemma CallKeeps(before: seq<Entry>, mid: seq<Entry>, h: seq<Call>, was: bool, fp: string, now: real, window: real,
                  limit: int)
    requires Sound(before, h, was, window, limit) && DistinctKeys(mid) && Recorded(mid, h)
    requires Evicted(before, mid, now, window, limit)
    ensures var c, halved := CallOf(mid, fp, now, window), was || Halves(before, now, window, limit);
            && |TableAfter(mid, fp, now, window)| <= |mid| + 1
            && Sound(TableAfter(mid, fp, now, window), h + [c], halved, window, limit)
            && (!c.admitted ==> exists t :: Call(fp, t, true) in h && now - t < window)
            && (halved ==> was || |Recent(h, now, window)| >= limit)
  {
    var c := CallOf(mid, fp, now, window);
    RecordedAfter(mid, h, fp, now, window);
    HalvedExactly(before, h, was, c, window, limit);
    if !(was || Halves(before, now, window, limit)) {
      EvictedGently(before, mid, now, window, limit);
      SettledThroughCall(before, mid, h, fp, now, window);
    }
  }

  lemma EvictedGently(before: seq<Entry>, mid: seq<Entry>, now: real, window: real, limit: int)
    requires Evicted(before, mid, now, window, limit) && !Halves(before, now, window, limit)
    ensures mid == before || mid == Filter(Since(now - window), before)
  {
  }

  /** Without a halving, its answer is the unbounded table's. */
  lemma CallAnswers(before: seq<Entry>, mid: seq<Entry>, h: seq<Call>, fp: string, now: real, window: real, limit: int)
    requires DistinctKeys(before) && DistinctKeys(mid) && Settled(before, h, window)
    requires Evicted(before, mid, now, window, limit) && !Halves(before, now, window, limit)
    ensures var c := CallOf(mid, fp, now, window);
            Monotone(h + [c]) ==>
              && (c.admitted <==> !Within(LastAdmitted(h, fp), now, window))
              && Unbounded(h + [c], window)
  {
    EvictedGently(before, mid, now, window, limit);
    SettledThroughCall(before, mid, h, fp, now, window);
  }

  /** A call answers by the evicted table, and enters the fingerprint unless it reports a duplicate. */
  ghost predicate Answers(before: seq<Entry>, mid: seq<Entry>, after: seq<Entry>, fp: string, now: real, window: real,
                          limit: int, duplicate: bool) {
    && Evicted(before, mid, now, window, limit)
    && (duplicate <==> Within(Lookup(mid, fp), now, window))
    && after == if duplicate then mid else Put(mid, fp, now)
  }

  /** Over a clock that never runs back, halvings and crowded calls coincide; without it, halvings are crowded. */
  lemma HalvedExactly(seen: seq<Entry>, h: seq<Call>, halved: bool, c: Call, window: real, limit: int)
    requires DistinctKeys(seen) && Recorded(seen, h) && (!halved ==> Settled(seen, h, window))
    requires halved ==> Crowded(h, window, limit)
    requires Monotone(h) && Crowded(h, window, limit) ==> halved
    ensures Halves(seen, c.at, window, limit) ==> |Recent(h, c.at, window)| >= limit
    ensures halved || Halves(seen, c.at, window, limit) ==> Crowded(h + [c], window, limit)
    ensures Monotone(h + [c]) && Crowded(h + [c], window, limit) ==> halved || Halves(seen, c.at, window, limit)
  {
    HalvesCrowded(seen, h, c.at, window, limit);
    CrowdedNext(h, c, window, limit);
    if Monotone(h + [c]) && !halved {
      MonotonePrefix(h, c);
      CrowdedHalves(seen, h, c.at, window, limit);
    }
  }

  lemma HalvesCrowded(seen: seq<Entry>, h: seq<Call>, now: real, window: real, limit: int)
    requires DistinctKeys(seen) && Recorded(seen, h)
    ensures Halves(seen, now, window, limit) ==> |Recent(h, now, window)| >= limit
  {
    FreshAreRecent(seen, h, now, window);
  }

  lemma CrowdedHalves(seen: seq<Entry>, h: seq<Call>, now: real, window: real, limit: int)
    requires DistinctKeys(seen) && Settled(seen, h, window) && Monotone(h) && forall x :: x in h ==> x.at <= now
    ensures |Recent(h, now, window)| >= limit ==> Halves(seen, now, window, limit)
  {
    HeldExactly(seen, h, now, window);
  }

  lemma MonotonePrefix(h: seq<Call>, c: Call)
    requires Monotone(h + [c])
    ensures Monotone(h) && forall x :: x in h ==> x.at <= c.at
  {
    var h' := h + [c];
    assert forall i :: 0 <= i < |h| ==> h[i] == h'[i];
    assert forall i :: 0 <= i < |h| ==> h'[i].at <= h'[|h|].at;
  }

  lemma HeldExactly(seen: seq<Entry>, h: seq<Call>, now: real, window: real)
    requires DistinctKeys(seen) && Settled(seen, h, window) && Monotone(h) && forall x :: x in h ==> x.at <= now
    ensures |Recent(h, now, window)| <= |Filter(Since(now - window), seen)| <= |seen|
  {
    if h != [] {
      assert h[|h| - 1] in h;
      AgreesLater(seen, h, window, h[|h| - 1].at, now);
    }
    RecentAreFresh(seen, h, now, window);
  }

  function TableAfter(seen: seq<Entry>, fp: string, now: real, window: real): seq<Entry> {
    if Within(Lookup(seen, fp), now, window) then seen else Put(seen, fp, now)
  }

  ghost function CallOf(seen: seq<Entry>, fp: string, now: real, window: real): Call {
    Call(fp, now, !Within(Lookup(seen, fp), now, window))
  }

  lemma RecordedAfter(seen: seq<Entry>, h: seq<Call>, fp: string, now: real, window: real)
    requires DistinctKeys(seen) && Recorded(seen, h)
    ensures DistinctKeys(TableAfter(seen, fp, now, window)) && |TableAfter(seen, fp, now, window)| <= |seen| + 1
    ensures Recorded(TableAfter(seen, fp, now, window), h + [CallOf(seen, fp, now, window)])
    ensures Within(Lookup(seen, fp), now, window) ==> exists t :: Call(fp, t, true) in h && now - t < window
  {
    PutFacts(seen, fp, now);
    LookupMember(seen, fp);
  }

  lemma SettledThroughCall(before: seq<Entry>, seen: seq<Entry>, h: seq<Call>, fp: string, now: real, window: real)
    requires DistinctKeys(before) && DistinctKeys(seen) && Settled(before, h, window)
    requires seen == before || seen == Filter(Since(now - window), before)
    ensures var c := CallOf(seen, fp, now, window);
            && Settled(TableAfter(seen, fp, now, window), h + [c], window)
            && (Monotone(h + [c]) ==> (c.admitted <==> !Within(LastAdmitted(h, fp), now, window)))
  {
    var c := CallOf(seen, fp, now, window);
    if Monotone(h + [c]) {
      AgreesThroughCall(before, seen, h, fp, now, window);
    }
  }

  lemma AgreesThroughCall(before: seq<Entry>, seen: seq<Entry>, h: seq<Call>, fp: string, now: real, window: real)
    requires DistinctKeys(before) && DistinctKeys(seen)
    requires seen == before || seen == Filter(Since(now - window), before)
    requires Settled(before, h, window) && Monotone(h + [CallOf(seen, fp, now, window)])
    ensures var c := CallOf(seen, fp, now, window);
            && (c.admitted <==> !Within(LastAdmitted(h, fp), now, window))
            && Unbounded(h + [c], window)
            && AgreesAt(TableAfter(seen, fp, now, window), h + [c], window, now)
  {
    var c := CallOf(seen, fp, now, window);
    var h' := h + [c];
    assert forall i :: 0 <= i < |h| ==> h[i] == h'[i];
    if h != [] {
      assert h'[|h| - 1].at <= h'[|h|].at;
      AgreesLater(before, h, window, h[|h| - 1].at, now);
    }
    EvictionAgrees(before, h, window, now);
    CallStep(seen, h, fp, now, window);
    UnboundedNext(h, c, window);
  }

  lemma UnboundedNext(h: seq<Call>, c: Call, window: real)
    requires Unbounded(h, window) && (c.admitted <==> !Within(LastAdmitted(h, c.fp), c.at, window))
    ensures Unbounded(h + [c], window)
  {
    var h' := h + [c];
    forall i | 0 <= i < |h'|
      ensures h'[i].admitted <==> !Within(LastAdmitted(h'[..i], h'[i].fp), h'[i].at, window)
    {
      if i < |h| {
        assert h'[..i] == h[..i];
      } else {
        assert h'[..i] == h;
      }
    }
  }
}
