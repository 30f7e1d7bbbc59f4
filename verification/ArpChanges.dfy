/**
  The ARP-spoofing detector: a lazily evicted list of address changes per IP, and how far it falls
  short of counting the changes inside the window. A packet's `key` is its MAC address.
*/
module ArpChanges {
  import opened Sequences
  import opened DistinctWindow

  type Claim = Packet<string>

  // ---- what the detector remembers ----

  /** The `i`-th packet of an address claims a different MAC from the one before it. */
  predicate ChangeAt(ps: seq<Claim>, i: nat) {
    0 < i < |ps| && ps[i].key != ps[i - 1].key
  }

  /** How many packets claim a different MAC from their predecessor: a naive count of changes. */
  function ChangeCount(ps: seq<Claim>): nat {
    if |ps| < 2 then 0
    else ChangeCount(ps[..|ps| - 1]) + (if ChangeAt(ps, |ps| - 1) then 1 else 0)
  }

  /** The first change after packet `k`, or the end. */
  function NextChange(ps: seq<Claim>, k: nat): (r: nat)
    requires k < |ps|
    ensures k < r <= |ps|
    ensures forall i :: k < i < r ==> !ChangeAt(ps, i)
    ensures r < |ps| ==> ChangeAt(ps, r)
    decreases |ps| - k
  {
    if k + 1 == |ps| || ChangeAt(ps, k + 1) then k + 1 else NextChange(ps, k + 1)
  }

  /** Packet `k`, and every later one that changes the MAC. */
  function Records(ps: seq<Claim>, k: nat): seq<Claim>
    requires k <= |ps|
    decreases |ps| - k
  {
    if k == |ps| then [] else [ps[k]] + Records(ps, NextChange(ps, k))
  }

  /** From a record on, the oldest one that is not stale; past the end when all are. */
  function Advance(ps: seq<Claim>, k: nat, now: real, window: int): (r: nat)
    requires k <= |ps|
    ensures k <= r <= |ps|
    decreases |ps| - k
  {
    if k < |ps| && !Fresh<string>(now, window)(ps[k]) then Advance(ps, NextChange(ps, k), now, window) else k
  }

  /** Index of the oldest packet the detector still holds a record of, after all of `ps`. */
  function Oldest(ps: seq<Claim>, window: int): (r: nat)
    ensures ps != [] ==> r < |ps|
    ensures ps == [] ==> r == 0
  {
    if ps == [] then 0
    else Advance(ps[..|ps| - 1], Oldest(ps[..|ps| - 1], window), ps[|ps| - 1].time, window)
  }

  /** The changes the detector sees after all of `ps`. */
  function Seen(ps: seq<Claim>, window: int): nat {
    ChangeCount(ps[Oldest(ps, window)..])
  }

  /** The packets of an address since the detector's last alert about it. */
  function SinceReport(h: seq<Claim>, source: string, maxChanges: int, window: int): seq<Claim> {
    if h == [] then []
    else
      var p := h[|h| - 1];
      var before := SinceReport(h[..|h| - 1], source, maxChanges, window);
      if p.source != source then before
      else if Seen(before + [p], window) > maxChanges then []
      else before + [p]
  }

  // ---- facts about records ----

  lemma {:induction false} RecordsFacts(ps: seq<Claim>, k: nat)
    requires k < |ps|
    ensures var rs := Records(ps, k);
            && |rs| == ChangeCount(ps[k..]) + 1
            && rs[0] == ps[k] && rs[|rs| - 1].key == ps[|ps| - 1].key
            && forall i :: 0 < i < |rs| ==> ChangeAt(rs, i)
    decreases |ps| - k
  {
    var j := NextChange(ps, k);
    SameUntil(ps, k, j);
    RecordsCount(ps, k, j);
    if j < |ps| {
      RecordsFacts(ps, j);
      RecordsDiffer(ps[k], Records(ps, j));
    }
  }

  /** The records from packet `k` on are that packet and every later one that changes the MAC. */
  lemma {:induction false} RecordsMember(ps: seq<Claim>, k: nat)
    requires k < |ps|
    ensures forall p :: p in Records(ps, k) <==> exists i :: k <= i < |ps| && (i == k || ChangeAt(ps, i)) && ps[i] == p
    decreases |ps| - k
  {
    var j := NextChange(ps, k);
    if j < |ps| {
      RecordsMember(ps, j);
    }
    forall p ensures p in Records(ps, k) <==> exists i :: k <= i < |ps| && (i == k || ChangeAt(ps, i)) && ps[i] == p {
      if i :| k <= i < |ps| && (i == k || ChangeAt(ps, i)) && ps[i] == p {
        assert i == k || i >= j;
      }
    }
  }

  lemma RecordsCount(ps: seq<Claim>, k: nat, j: nat)
    requires k < j <= |ps| && (j < |ps| ==> ChangeAt(ps, j))
    requires forall i :: k < i < j ==> !ChangeAt(ps, i)
    ensures j < |ps| ==> ChangeCount(ps[k..]) == ChangeCount(ps[j..]) + 1
    ensures j == |ps| ==> ChangeCount(ps[k..]) == 0
  {
    if j < |ps| {
      CountAcross(ps, k, j);
    } else {
      CountAcross(ps, k, |ps| - 1);
      assert ps[|ps| - 1..] == [ps[|ps| - 1]];
    }
  }

  lemma RecordsDiffer(p: Claim, rs: seq<Claim>)
    requires rs != [] && forall i :: 0 < i < |rs| ==> ChangeAt(rs, i)
    requires p.key != rs[0].key
    ensures forall i :: 0 < i < |rs| + 1 ==> ChangeAt([p] + rs, i)
  {
    forall i | 0 < i < |rs| + 1 ensures ChangeAt([p] + rs, i) {
      if i > 1 {
        assert ChangeAt(rs, i - 1);
      }
    }
  }

  /** Up to the next change the MAC stays the same. */
  lemma {:induction false} SameUntil(ps: seq<Claim>, k: nat, j: nat)
    requires k < j <= |ps| && forall i :: k < i < j ==> !ChangeAt(ps, i)
    ensures ps[j - 1].key == ps[k].key
  {
    if k + 1 < j {
      SameUntil(ps, k, j - 1);
      assert !ChangeAt(ps, j - 1);
    }
  }

  lemma {:induction false} RecordsAppend(ps: seq<Claim>, k: nat, p: Claim)
    requires k <= |ps|
    ensures Records(ps + [p], k)
            == Records(ps, k) + if k < |ps| && ps[|ps| - 1].key == p.key then [] else [p]
    decreases |ps| - k
  {
    if k < |ps| {
      NextChangeInit(ps + [p], k);
      assert (ps + [p])[..|ps|] == ps;
      RecordsAppend(ps, NextChange(ps, k), p);
    }
  }

  lemma {:induction false} NextChangeInit(ps: seq<Claim>, k: nat)
    requires k + 1 < |ps|
    ensures var n := |ps| - 1;
            NextChange(ps, k) == if NextChange(ps[..n], k) < n then NextChange(ps[..n], k)
                                 else if ChangeAt(ps, n) then n else n + 1
    decreases |ps| - k
  {
    var n := |ps| - 1;
    assert k + 1 < n ==> (ChangeAt(ps, k + 1) <==> ChangeAt(ps[..n], k + 1));
    if k + 1 < n && !ChangeAt(ps, k + 1) {
      NextChangeInit(ps, k + 1);
    }
  }

  // ---- against a naive count ----

  /** Before packet `k`, no packet still in the window was followed by a change. */
  ghost predicate Quiet(ps: seq<Claim>, k: nat, now: real, window: int)
    requires k <= |ps|
  {
    forall i :: 0 < i < k && Fresh<string>(now, window)(ps[i - 1]) ==> !ChangeAt(ps, i)
  }

  lemma {:induction false} AdvanceQuiet(ps: seq<Claim>, k: nat, now: real, window: int)
    requires InOrder(ps) && k <= |ps| && Quiet(ps, k, now, window)
    ensures var r := Advance(ps, k, now, window);
            Quiet(ps, r, now, window) && (r < |ps| ==> Fresh<string>(now, window)(ps[r]))
    decreases |ps| - k
  {
    if k < |ps| && !Fresh<string>(now, window)(ps[k]) {
      var j := NextChange(ps, k);
      forall i | 0 < i < j && Fresh<string>(now, window)(ps[i - 1]) ensures !ChangeAt(ps, i) {
        assert i > k ==> !ChangeAt(ps, i);
      }
      AdvanceQuiet(ps, j, now, window);
    }
  }

  lemma QuietLater(ps: seq<Claim>, k: nat, t: real, now: real, window: int)
    requires k <= |ps| && t <= now && Quiet(ps, k, t, window)
    ensures Quiet(ps, k, now, window)
  {
  }

  lemma QuietAppend(ps: seq<Claim>, p: Claim, k: nat, now: real, window: int)
    requires k <= |ps| && Quiet(ps, k, now, window)
    ensures Quiet(ps + [p], k, now, window)
  {
    forall i | 0 < i < k && Fresh<string>(now, window)((ps + [p])[i - 1]) ensures !ChangeAt(ps + [p], i) {
      assert !ChangeAt(ps, i);
    }
  }

  lemma {:induction false} OldestQuiet(ps: seq<Claim>, window: int)
    requires InOrder(ps) && ps != [] && window >= 0
    ensures Quiet(ps, Oldest(ps, window), ps[|ps| - 1].time, window)
    ensures Fresh<string>(ps[|ps| - 1].time, window)(ps[Oldest(ps, window)])
  {
    var init, p := ps[..|ps| - 1], ps[|ps| - 1];
    var k := Oldest(init, window);
    assert ps == init + [p];
    PrefixInOrder(init, p);
    if init != [] {
      OldestQuiet(init, window);
      assert ps[|init| - 1].time <= ps[|init|].time;
      QuietLater(init, k, init[|init| - 1].time, p.time, window);
    }
    AdvanceQuiet(init, k, p.time, window);
    QuietAppend(init, p, Advance(init, k, p.time, window), p.time, window);
  }

  lemma {:induction false} CountSplit(ps: seq<Claim>, k: nat)
    requires k < |ps|
    ensures ChangeCount(ps) == ChangeCount(ps[..k + 1]) + ChangeCount(ps[k..])
    decreases |ps|
  {
    var n := |ps| - 1;
    if k < n {
      CountSplit(ps[..n], k);
      assert ps[..n][..k + 1] == ps[..k + 1] && ps[..n][k..] == ps[k..][..n - k];
      assert ChangeAt(ps[k..], n - k) <==> ChangeAt(ps, n);
    } else {
      assert ps[..k + 1] == ps;
    }
  }

  lemma {:induction false} QuietCount(ps: seq<Claim>)
    requires forall i :: 0 < i < |ps| - 1 ==> !ChangeAt(ps, i)
    ensures ChangeCount(ps) == if ps != [] && ChangeAt(ps, |ps| - 1) then 1 else 0
  {
    if |ps| >= 2 {
      var init := ps[..|ps| - 1];
      forall i | 0 < i < |init| ensures !ChangeAt(init, i) {
        assert !ChangeAt(ps, i);
      }
      QuietCount(init);
    }
  }

  /** The packets inside the window of the last one. */
  function InWindow(ps: seq<Claim>, window: int): seq<Claim>
    requires ps != []
  {
    Filter(Fresh(ps[|ps| - 1].time, window), ps)
  }

  /** The oldest record is itself a change, away from a packet that is still in the window. */
  predicate MissesOne(ps: seq<Claim>, window: int)
    requires ps != []
  {
    var k := Oldest(ps, window);
    ChangeAt(ps, k) && Fresh<string>(ps[|ps| - 1].time, window)(ps[k - 1])
  }

  lemma {:induction false} WindowIsSuffix(ps: seq<Claim>, now: real, window: int) returns (f: nat)
    requires InOrder(ps)
    ensures f <= |ps| && Filter(Fresh(now, window), ps) == ps[f..]
    ensures forall i :: 0 <= i < |ps| ==> (Fresh<string>(now, window)(ps[i]) <==> i >= f)
  {
    f := 0;
    while f < |ps| && !Fresh<string>(now, window)(ps[f])
      invariant f <= |ps| && forall i :: 0 <= i < f ==> !Fresh<string>(now, window)(ps[i])
    {
      f := f + 1;
    }
    assert ps == ps[..f] + ps[f..];
    EvictionIsSelection(ps[..f], ps[f..], now, window);
  }

  /**
    The detector sees every change inside the window except possibly the oldest one, and misses that
    one exactly when its record is the oldest held while the packet it changed from is still inside.
  */
  lemma SeenAgainstNaive(ps: seq<Claim>, window: int)
    requires InOrder(ps) && ps != [] && window >= 0
    ensures ChangeCount(InWindow(ps, window)) == Seen(ps, window) + if MissesOne(ps, window) then 1 else 0
  {
    var now, k := ps[|ps| - 1].time, Oldest(ps, window);
    OldestQuiet(ps, window);
    var f := WindowIsSuffix(ps, now, window);
    CountAcross(ps, f, k);
  }

  lemma QuietFront(ps: seq<Claim>, f: nat, k: nat)
    requires f <= k < |ps| && forall i :: f < i < k ==> !ChangeAt(ps, i)
    ensures ChangeCount(ps[f..k + 1]) == if k > f && ChangeAt(ps, k) then 1 else 0
  {
    var front := ps[f..k + 1];
    forall i | 0 < i < |front| - 1 ensures !ChangeAt(front, i) {
      assert !ChangeAt(ps, f + i);
    }
    QuietCount(front);
  }

  lemma CountAcross(ps: seq<Claim>, f: nat, k: nat)
    requires f <= k < |ps|
    requires forall i :: f < i < k ==> !ChangeAt(ps, i)
    ensures ChangeCount(ps[f..]) == ChangeCount(ps[k..]) + if k > f && ChangeAt(ps, k) then 1 else 0
  {
    QuietFront(ps, f, k);
    assert ps[f..][k - f..] == ps[k..] && ps[f..][..k - f + 1] == ps[f..k + 1];
    CountSplit(ps[f..], k - f);
  }

  const HOST := "10.0.0.1"
  const FIRST := [Packet(HOST, "A", 0.0)]
  const SECOND := FIRST + [Packet(HOST, "A", 50.0)]
  const CHANGED := SECOND + [Packet(HOST, "B", 61.0)]

  lemma OldestOfRun()
    ensures Oldest(FIRST, 60) == 0 && Oldest(SECOND, 60) == 0 && Oldest(CHANGED, 60) == 2
  {
    assert FIRST[..0] == [] && SECOND[..1] == FIRST && CHANGED[..2] == SECOND;
    assert NextChange(SECOND, 0) == 2;
  }

  lemma SeenOfRun()
    ensures Seen(FIRST, 60) == 0 && Seen(SECOND, 60) == 0 && Seen(CHANGED, 60) == 0
  {
    OldestOfRun();
    assert FIRST[0..] == FIRST && SECOND[0..] == SECOND && CHANGED[2..] == [Packet(HOST, "B", 61.0)];
    assert SECOND[..1] == FIRST;
  }

  lemma ReportsNone()
    ensures SinceReport(FIRST, HOST, 0, 60) == FIRST && SinceReport(SECOND, HOST, 0, 60) == SECOND
  {
    SeenOfRun();
    assert [] + FIRST == FIRST;
    SinceStep([], Packet(HOST, "A", 0.0), HOST, 0, 60);
    SinceStep(FIRST, Packet(HOST, "A", 50.0), HOST, 0, 60);
  }

  lemma ReportsNoChange()
    ensures SinceReport(CHANGED, HOST, 0, 60) == CHANGED
  {
    ReportsNone();
    SeenOfRun();
    SinceStep(SECOND, Packet(HOST, "B", 61.0), HOST, 0, 60);
  }

  lemma RunInOrder()
    ensures InOrder(CHANGED) && |CHANGED| == 3
  {
  }

  lemma OneMissed()
    ensures MissesOne(CHANGED, 60)
  {
    OldestOfRun();
    assert CHANGED[1] == Packet(HOST, "A", 50.0) && CHANGED[2] == Packet(HOST, "B", 61.0);
  }

  /** A run the naive count would report and the detector does not: one change in 60 s, none allowed. */
  lemma MissedChange()
    ensures InOrder(CHANGED) && SinceReport(CHANGED, HOST, 0, 60) == CHANGED
    ensures ChangeCount(InWindow(CHANGED, 60)) == 1 && Seen(CHANGED, 60) == 0
  {
    ReportsNoChange();
    SeenOfRun();
    RunInOrder();
    OneMissed();
    SeenAgainstNaive(CHANGED, 60);
  }

  // ---- the detector ----

  function HistoryOf(state: map<string, seq<Claim>>, source: string): seq<Claim> {
    if source in state then state[source] else []
  }

  /** A list holds the records from the oldest fresh one on, never more than allowed. */
  predicate Holds(held: seq<Claim>, ps: seq<Claim>, maxChanges: int, window: int) {
    held == Records(ps, Oldest(ps, window)) && |held| <= Most(maxChanges, -1) + 1
  }

  ghost predicate Faithful(state: map<string, seq<Claim>>, h: seq<Claim>, maxChanges: int, window: int) {
    forall s {:trigger HistoryOf(state, s)} ::
      Holds(HistoryOf(state, s), SinceReport(h, s, maxChanges, window), maxChanges, window)
  }

  lemma SinceStep(h: seq<Claim>, p: Claim, source: string, maxChanges: int, window: int)
    ensures var before := SinceReport(h, source, maxChanges, window);
            SinceReport(h + [p], source, maxChanges, window)
            == if p.source != source then before
               else if Seen(before + [p], window) > maxChanges then [] else before + [p]
  {
    assert (h + [p])[..|h + [p]| - 1] == h;
  }

  /** The records of one address after a packet about it, forgotten when reported. */
  lemma HoldsStep(before: seq<Claim>, p: Claim, held: seq<Claim>, maxChanges: int, window: int)
    requires held == Records(before + [p], Oldest(before + [p], window))
    requires |held| == Seen(before + [p], window) + 1
    ensures |held| - 1 > maxChanges ==> Holds([], [], maxChanges, window)
    ensures |held| - 1 <= maxChanges ==> Holds(held, before + [p], maxChanges, window)
  {
  }

  lemma FaithfulStep(state: map<string, seq<Claim>>, h: seq<Claim>, p: Claim, held: seq<Claim>,
                     maxChanges: int, window: int)
    requires Faithful(state, h, maxChanges, window)
    requires var ps := SinceReport(h, p.source, maxChanges, window) + [p];
             held == Records(ps, Oldest(ps, window)) && |held| == Seen(ps, window) + 1
    ensures Faithful(state[p.source := if |held| - 1 > maxChanges then [] else held], h + [p], maxChanges, window)
  {
    var after := if |held| - 1 > maxChanges then [] else held;
    var state' := state[p.source := after];
    HoldsStep(SinceReport(h, p.source, maxChanges, window), p, held, maxChanges, window);
    forall s {:trigger HistoryOf(state', s)}
      ensures Holds(HistoryOf(state', s), SinceReport(h + [p], s, maxChanges, window), maxChanges, window)
    {
      SinceStep(h, p, s, maxChanges, window);
      if s == p.source {
        assert HistoryOf(state', s) == after;
      } else {
        assert HistoryOf(state', s) == HistoryOf(state, s);
      }
    }
  }

  /**
    What a call reports after the packets `ps` of one address: it alerts exactly when the naive count
    exceeds the limit, allowing for the one change it may miss, and then always names one MAC change
    more than allowed.
  */
  ghost predicate Reports(alert: Option<seq<string>>, ps: seq<Claim>, maxChanges: int, window: int)
    requires ps != []
  {
    && (alert.Some? <==> Seen(ps, window) > maxChanges)
    && (InOrder(ps) && window >= 0 ==>
          (alert.Some? <==> ChangeCount(InWindow(ps, window)) > maxChanges + if MissesOne(ps, window) then 1 else 0))
    && (alert.Some? ==> alert.value == MacsOf(Held(ps, window)) && |alert.value| == Most(maxChanges, -1) + 2
                        && forall i :: 0 < i < |alert.value| ==> Switches(alert.value, i))
  }

  predicate Switches(macs: seq<string>, i: nat) {
    0 < i < |macs| && macs[i] != macs[i - 1]
  }

  function MacsOf(held: seq<Claim>): seq<string> {
    seq(|held|, i requires 0 <= i < |held| => held[i].key)
  }

  class ArpDetector {
    const maxChanges: int
    const window: int
    var state: map<string, seq<Claim>>
    ghost var history: seq<Claim>

    ghost function Since(source: string): seq<Claim>
      reads this
    {
      SinceReport(history, source, maxChanges, window)
    }

    ghost predicate Valid()
      reads this
    {
      Faithful(state, history, maxChanges, window)
    }

    constructor (maxChanges: int, window: int)
      ensures Valid() && history == [] && this.maxChanges == maxChanges && this.window == window
    {
      this.maxChanges, this.window := maxChanges, window;
      state, history := map[], [];
    }

    /** Returns the reported MAC history when the detector alerts. */
    method ProcessPacket(source: string, mac: string, now: real) returns (alert: Option<seq<string>>)
      requires Valid()
      modifies this
      ensures Valid() && history == old(history) + [Packet(source, mac, now)]
      ensures Reports(alert, old(Since(source)) + [Packet(source, mac, now)], maxChanges, window)
    {
      ghost var before := Since(source);
      var p := Packet(source, mac, now);
      var held := HistoryOf(state, source);
      assert Holds(held, before, maxChanges, window);
      held := EvictOld(held, before, Oldest(before, window), now, window);
      held, alert := Record(held, before, p, maxChanges, window);
      FaithfulStep(state, history, p, held, maxChanges, window);
      state := state[source := if |held| - 1 > maxChanges then [] else held];
      history := history + [p];
    }
  }

  /** The packet is recorded only when the list is empty or ends in another MAC. */
  method Record(kept: seq<Claim>, ghost before: seq<Claim>, p: Claim, maxChanges: int, ghost window: int)
    returns (held: seq<Claim>, alert: Option<seq<string>>)
    requires kept == Kept(before, p.time, window) && |kept| <= Most(maxChanges, -1) + 1
    ensures held == Held(before + [p], window) && |held| == Seen(before + [p], window) + 1
    ensures Reports(alert, before + [p], maxChanges, window)
  {
    HeldStep(before, p, window);
    held := if kept == [] || kept[|kept| - 1].key != p.key then kept + [p] else kept;
    var changes := |held| - 1;
    alert := if changes > maxChanges then Some(MacsOf(held)) else None;
    HeldReports(before + [p], held, maxChanges, window);
  }

  /** Records outside the window leave the front of the list. */
  method EvictOld(history: seq<Claim>, ghost ps: seq<Claim>, ghost k: nat, now: real, window: int)
    returns (held: seq<Claim>)
    requires k <= |ps| && history == Records(ps, k)
    ensures held == Records(ps, Advance(ps, k, now, window)) && |held| <= |history|
  {
    held := history;
    ghost var j := k;
    while held != [] && held[0].time < now - window as real
      invariant k <= j <= |ps| && held == Records(ps, j) && |held| <= |history|
      invariant Advance(ps, j, now, window) == Advance(ps, k, now, window)
      decreases |held|
    {
      held := held[1..];
      j := NextChange(ps, j);
    }
  }

  function Kept(before: seq<Claim>, now: real, window: int): seq<Claim> {
    Records(before, Advance(before, Oldest(before, window), now, window))
  }

  function Held(ps: seq<Claim>, window: int): seq<Claim> {
    Records(ps, Oldest(ps, window))
  }

  /** Recording a packet only when the list is empty or ends in another MAC. */
  lemma HeldStep(before: seq<Claim>, p: Claim, window: int)
    ensures var kept := Kept(before, p.time, window);
            Held(before + [p], window) == if kept == [] || kept[|kept| - 1].key != p.key then kept + [p] else kept
  {
    var ps, k := before + [p], Advance(before, Oldest(before, window), p.time, window);
    assert ps[..|ps| - 1] == before;
    RecordsAppend(before, k, p);
    if k < |before| {
      RecordsFacts(before, k);
    }
  }

  lemma HeldReports(ps: seq<Claim>, held: seq<Claim>, maxChanges: int, window: int)
    requires ps != [] && held == Held(ps, window) && |held| <= Most(maxChanges, -1) + 2
    ensures |held| == Seen(ps, window) + 1
    ensures Reports(if |held| - 1 > maxChanges then Some(MacsOf(held)) else None, ps, maxChanges, window)
  {
    RecordsFacts(ps, Oldest(ps, window));
    forall i | 0 < i < |held| ensures Switches(MacsOf(held), i) {
      assert ChangeAt(held, i);
    }
    if InOrder(ps) && window >= 0 {
      SeenAgainstNaive(ps, window);
    }
  }
}
