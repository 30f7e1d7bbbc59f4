/** The fixed-window login limiter of dashboard/security.py against one that never cleans up. */
module LoginRateLimiter {
  import opened Sequences

  const CLEANUP_SIZE := 10000

  datatype Attempt = Attempt(ip: string, at: real)
  datatype Slot = Slot(start: real, count: int)
  datatype Answer = Answer(allowed: bool, retryAfter: int)

  /** The window an attempt falls into: a fresh one when the last has run out. */
  function NextSlot(slot: Option<Slot>, ts: real, window: int): Slot {
    match slot
    case None => Slot(ts, 1)
    case Some(w) => if ts - w.start >= window as real then Slot(ts, 1) else Slot(w.start, w.count + 1)
  }

  function Decide(slot: Slot, ts: real, maxAttempts: int, window: int): Answer {
    if slot.count > maxAttempts then Answer(false, (window as real - (ts - slot.start)).Floor + 1)
    else Answer(true, 0)
  }

  // ---- the reference: every attempt ever made, no cleanup ----

  ghost function SlotAfter(h: seq<Attempt>, ip: string, window: int): Option<Slot> {
    if h == [] then None
    else var last := h[|h| - 1];
         var before := SlotAfter(h[..|h| - 1], ip, window);
         if last.ip == ip then Some(NextSlot(before, last.at, window)) else before
  }

  ghost function ReferenceAnswer(h: seq<Attempt>, a: Attempt, maxAttempts: int, window: int): Answer {
    Decide(NextSlot(SlotAfter(h, a.ip, window), a.at, window), a.at, maxAttempts, window)
  }

  ghost predicate Monotone(h: seq<Attempt>) {
    forall i, j :: 0 <= i < j < |h| ==> h[i].at <= h[j].at
  }

  ghost function LastTime(h: seq<Attempt>): real {
    if h == [] then 0.0 else h[|h| - 1].at
  }

  // ---- the limiter ----

  function NotBefore(windows: map<string, Slot>, cutoff: real): map<string, Slot> {
    map ip | ip in windows && windows[ip].start >= cutoff :: windows[ip]
  }

  /** Every missing entry is one the reference would already treat as run out. */
  ghost predicate Agrees(windows: map<string, Slot>, h: seq<Attempt>, window: int) {
    forall ip {:trigger SlotAfter(h, ip, window)} ::
      if ip in windows then SlotAfter(h, ip, window) == Some(windows[ip])
      else match SlotAfter(h, ip, window)
           case None => true
           case Some(w) => w.start < LastTime(h) - window as real
  }

  function SlotOf(windows: map<string, Slot>, ip: string): Option<Slot> {
    if ip in windows then Some(windows[ip]) else None
  }

  lemma PrefixMonotone(h: seq<Attempt>, a: Attempt)
    requires Monotone(h + [a])
    ensures Monotone(h) && (h != [] ==> LastTime(h) <= a.at)
  {
    assert forall i :: 0 <= i < |h| ==> h[i] == (h + [a])[i];
    assert h != [] ==> (h + [a])[|h| - 1].at <= (h + [a])[|h|].at;
  }

  lemma SlotStep(h: seq<Attempt>, a: Attempt, ip: string, window: int)
    ensures SlotAfter(h + [a], ip, window)
            == if ip == a.ip then Some(NextSlot(SlotAfter(h, ip, window), a.at, window)) else SlotAfter(h, ip, window)
  {
    assert (h + [a])[..|h + [a]| - 1] == h;
  }

  lemma AgreesPut(windows: map<string, Slot>, h: seq<Attempt>, a: Attempt, window: int, slot: Slot)
    requires Agrees(windows, h, window) && (h != [] ==> LastTime(h) <= a.at)
    requires slot == NextSlot(SlotOf(windows, a.ip), a.at, window)
    ensures slot == NextSlot(SlotAfter(h, a.ip, window), a.at, window)
    ensures Agrees(windows[a.ip := slot], h + [a], window)
  {
    assert SlotAfter(h, a.ip, window).Some? ==> h != [];
    forall ip
      ensures SlotAfter(h + [a], ip, window)
              == if ip == a.ip then Some(NextSlot(SlotAfter(h, ip, window), a.at, window))
                 else SlotAfter(h, ip, window)
      ensures SlotAfter(h, ip, window).Some? ==> h != []
    {
      SlotStep(h, a, ip, window);
    }
  }

  lemma AgreesCleaned(windows: map<string, Slot>, h: seq<Attempt>, window: int)
    requires Agrees(windows, h, window)
    ensures Agrees(NotBefore(windows, LastTime(h) - window as real), h, window)
  {
  }

  /** An attempt keeps the limiter in agreement with the reference, with or without a cleanup. */
  lemma AgreesStep(windows: map<string, Slot>, h: seq<Attempt>, a: Attempt, window: int, slot: Slot)
    requires Agrees(windows, h, window) && (h != [] ==> LastTime(h) <= a.at)
    requires slot == NextSlot(SlotOf(windows, a.ip), a.at, window)
    ensures slot == NextSlot(SlotAfter(h, a.ip, window), a.at, window)
    ensures Agrees(windows[a.ip := slot], h + [a], window)
    ensures Agrees(NotBefore(windows[a.ip := slot], a.at - window as real), h + [a], window)
  {
    AgreesPut(windows, h, a, window, slot);
    AgreesCleaned(windows[a.ip := slot], h + [a], window);
  }

  /**
    After an attempt the address has its window and the others keep theirs; but when more than the
    cleanup size are held, exactly those that began more than a window ago are gone.
  */
  ghost predicate Tracked(before: map<string, Slot>, after: map<string, Slot>, ip: string, ts: real, window: int) {
    var held := before[ip := NextSlot(SlotOf(before, ip), ts, window)];
    && (forall k :: k in after ==> k in held && after[k] == held[k])
    && (forall k :: k in held ==> (k in after <==> |held| <= 10000 || ts - held[k].start <= window as real))
  }

  class Limiter {
    const maxAttempts: int
    const windowSeconds: int
    var windows: map<string, Slot>
    ghost var history: seq<Attempt>

    ghost predicate Valid()
      reads this
    {
      Monotone(history) ==> Agrees(windows, history, windowSeconds)
    }

    constructor (maxAttempts: int, windowSeconds: int)
      ensures Valid() && history == []
      ensures this.maxAttempts == maxAttempts && this.windowSeconds == windowSeconds
    {
      this.maxAttempts, this.windowSeconds := maxAttempts, windowSeconds;
      windows, history := map[], [];
    }

    /** For a clock that never runs back, the answer is the one a limiter with no cleanup gives. */
    method Check(clientIp: string, ts: real) returns (r: Answer)
      requires Valid()
      modifies this
      ensures Valid() && history == old(history) + [Attempt(clientIp, ts)]
      ensures Monotone(history) ==>
                r == ReferenceAnswer(old(history), Attempt(clientIp, ts), maxAttempts, windowSeconds)
      ensures r == Decide(NextSlot(SlotOf(old(windows), clientIp), ts, windowSeconds), ts, maxAttempts, windowSeconds)
      ensures Tracked(old(windows), windows, clientIp, ts, windowSeconds)
    {
      var windowStart, count := ts, 0;
      if clientIp in windows {
        windowStart, count := windows[clientIp].start, windows[clientIp].count;
      }
      if ts - windowStart >= windowSeconds as real {
        windowStart, count := ts, 0;
      }
      count := count + 1;
      var slot := Slot(windowStart, count);
      assert slot == NextSlot(SlotOf(windows, clientIp), ts, windowSeconds);
      ghost var a := Attempt(clientIp, ts);
      if Monotone(history + [a]) {
        PrefixMonotone(history, a);
        AgreesStep(windows, history, a, windowSeconds, slot);
      }
      windows := windows[clientIp := slot];
      if |windows| > CLEANUP_SIZE {
        windows := NotBefore(windows, ts - windowSeconds as real);
      }
      history := history + [a];
      r := Decide(slot, ts, maxAttempts, windowSeconds);
    }
  }

  // ---- what the reference guarantees ----

  /** A denied attempt is told the least whole number of seconds that passes the end of its window. */
  lemma RetryAfterLeast(slot: Slot, ts: real, maxAttempts: int, window: int)
    requires !Decide(slot, ts, maxAttempts, window).allowed
    ensures var end, after := slot.start + window as real, Decide(slot, ts, maxAttempts, window).retryAfter;
            ts + (after - 1) as real <= end < ts + after as real
  {
  }

  /** Attempts of an address allowed at times in the half-open interval [a, b). */
  ghost function AllowedIn(h: seq<Attempt>, ip: string, a: real, b: real, maxAttempts: int, window: int): nat {
    if h == [] then 0
    else
      var init, last := h[..|h| - 1], h[|h| - 1];
      AllowedIn(init, ip, a, b, maxAttempts, window)
      + (if last.ip == ip && a <= last.at < b && ReferenceAnswer(init, last, maxAttempts, window).allowed then 1 else 0)
  }

  function Least(a: int, b: int): int { if a <= b then a else b }

  ghost function LastOf(h: seq<Attempt>, ip: string): real {
    if h == [] then 0.0
    else if h[|h| - 1].ip == ip then h[|h| - 1].at
    else LastOf(h[..|h| - 1], ip)
  }

  lemma {:induction false} SlotHoldsLast(h: seq<Attempt>, ip: string, window: int)
    requires Monotone(h) && window >= 1
    ensures SlotAfter(h, ip, window).Some? ==>
              var w := SlotAfter(h, ip, window).value;
              && w.count >= 1 && w.start <= LastOf(h, ip) < w.start + window as real
              && LastOf(h, ip) <= LastTime(h)
  {
    if h != [] {
      var init := h[..|h| - 1];
      SlotHoldsLast(init, ip, window);
      assert init != [] ==> LastTime(init) == h[|init| - 1].at <= h[|init|].at;
      assert SlotAfter(init, ip, window).Some? ==> init != [];
    }
  }

  /** How many attempts are allowed so far in [a, a + window), by where the current window began. */
  ghost predicate IntervalBound(h: seq<Attempt>, ip: string, a: real, maxAttempts: int, window: int) {
    var n := AllowedIn(h, ip, a, a + window as real, maxAttempts, window);
    match SlotAfter(h, ip, window)
    case None => n == 0
    case Some(w) =>
      if LastOf(h, ip) < a then n == 0
      else if w.start < a then n <= Least(w.count, maxAttempts) - 1
      else if w.start < a + window as real then n <= maxAttempts - 1 + Least(w.count, maxAttempts)
      else n <= 2 * maxAttempts - 1
  }

  lemma {:induction false} IntervalBounded(h: seq<Attempt>, ip: string, a: real, maxAttempts: int, window: int)
    requires Monotone(h) && window >= 1 && maxAttempts >= 1
    ensures IntervalBound(h, ip, a, maxAttempts, window)
  {
    if h != [] {
      var init := h[..|h| - 1];
      IntervalBounded(init, ip, a, maxAttempts, window);
      SlotHoldsLast(init, ip, window);
      assert init != [] ==> LastTime(init) == h[|init| - 1].at <= h[|init|].at;
      assert SlotAfter(init, ip, window).Some? ==> init != [];
    }
  }

  /** Fewer than twice the limit are allowed in any half-open interval of one window's length. */
  lemma BelowTwicePerInterval(h: seq<Attempt>, ip: string, a: real, maxAttempts: int, window: int)
    requires Monotone(h) && window >= 1 && maxAttempts >= 1
    ensures AllowedIn(h, ip, a, a + window as real, maxAttempts, window) <= 2 * maxAttempts - 1
  {
    IntervalBounded(h, ip, a, maxAttempts, window);
  }

  lemma {:induction false} NoneAfterLast(h: seq<Attempt>, ip: string, a: real, b: real, maxAttempts: int, window: int)
    requires Monotone(h) && LastOf(h, ip) < a && SlotAfter(h, ip, window).Some?
    ensures AllowedIn(h, ip, a, b, maxAttempts, window) == 0
  {
    var init, last := h[..|h| - 1], h[|h| - 1];
    if SlotAfter(init, ip, window).Some? {
      OlderLast(init, last, ip, window);
      NoneAfterLast(init, ip, a, b, maxAttempts, window);
    } else {
      NeverSeen(init, ip, a, b, maxAttempts, window);
    }
  }

  lemma {:induction false} NeverSeen(h: seq<Attempt>, ip: string, a: real, b: real, maxAttempts: int, window: int)
    requires SlotAfter(h, ip, window).None?
    ensures AllowedIn(h, ip, a, b, maxAttempts, window) == 0
  {
    if h != [] {
      NeverSeen(h[..|h| - 1], ip, a, b, maxAttempts, window);
    }
  }

  lemma {:induction false} OlderLast(init: seq<Attempt>, last: Attempt, ip: string, window: int)
    requires Monotone(init + [last]) && SlotAfter(init, ip, window).Some?
    ensures LastOf(init, ip) <= LastOf(init + [last], ip) && LastOf(init, ip) <= LastTime(init) <= last.at
  {
    PrefixMonotone(init, last);
    assert (init + [last])[..|init + [last]| - 1] == init;
    var older := init[..|init| - 1];
    assert init == older + [init[|init| - 1]];
    if init[|init| - 1].ip != ip {
      OlderLast(older, init[|init| - 1], ip, window);
    }
  }

  /** A window that has just begun holds nothing but the attempt that began it. */
  lemma FreshWindow(init: seq<Attempt>, last: Attempt, maxAttempts: int, window: int)
    requires Monotone(init + [last]) && window >= 1
    requires SlotAfter(init + [last], last.ip, window) == Some(Slot(last.at, 1))
    ensures AllowedIn(init, last.ip, last.at, last.at + window as real, maxAttempts, window) == 0
  {
    var ip := last.ip;
    PrefixMonotone(init, last);
    SlotStep(init, last, ip, window);
    if SlotAfter(init, ip, window).None? {
      NeverSeen(init, ip, last.at, last.at + window as real, maxAttempts, window);
    } else {
      SlotHoldsLast(init, ip, window);
      NoneAfterLast(init, ip, last.at, last.at + window as real, maxAttempts, window);
    }
  }

  lemma AllowedStep(init: seq<Attempt>, last: Attempt, ip: string, a: real, b: real, maxAttempts: int, window: int)
    ensures AllowedIn(init + [last], ip, a, b, maxAttempts, window)
            == AllowedIn(init, ip, a, b, maxAttempts, window)
               + (if last.ip == ip && a <= last.at < b && ReferenceAnswer(init, last, maxAttempts, window).allowed
                  then 1 else 0)
  {
    assert (init + [last])[..|init + [last]| - 1] == init;
  }

  /** An attempt inside the running window is allowed exactly when the count before it is below the limit. */
  lemma InsideWindow(init: seq<Attempt>, last: Attempt, maxAttempts: int, window: int, w: Slot)
    requires SlotAfter(init, last.ip, window) == Some(w) && last.at - w.start < window as real
    ensures ReferenceAnswer(init, last, maxAttempts, window).allowed <==> w.count < maxAttempts
    ensures SlotAfter(init + [last], last.ip, window) == Some(Slot(w.start, w.count + 1))
  {
    SlotStep(init, last, last.ip, window);
  }

  /** Of the `w.count` attempts made in a window, exactly the first `maxAttempts` were allowed. */
  ghost predicate LimitHolds(h: seq<Attempt>, ip: string, w: Slot, maxAttempts: int, window: int) {
    AllowedIn(h, ip, w.start, w.start + window as real, maxAttempts, window) == Least(w.count, maxAttempts)
  }

  lemma LimitFresh(init: seq<Attempt>, last: Attempt, maxAttempts: int, window: int)
    requires Monotone(init + [last]) && window >= 1 && maxAttempts >= 1
    requires SlotAfter(init + [last], last.ip, window) == Some(Slot(last.at, 1))
    requires NextSlot(SlotAfter(init, last.ip, window), last.at, window) == Slot(last.at, 1)
    ensures LimitHolds(init + [last], last.ip, Slot(last.at, 1), maxAttempts, window)
  {
    FreshWindow(init, last, maxAttempts, window);
    AllowedStep(init, last, last.ip, last.at, last.at + window as real, maxAttempts, window);
  }

  lemma LimitInside(init: seq<Attempt>, last: Attempt, maxAttempts: int, window: int, w: Slot)
    requires Monotone(init + [last]) && window >= 1 && maxAttempts >= 1
    requires SlotAfter(init, last.ip, window) == Some(w) && last.at - w.start < window as real
    requires LimitHolds(init, last.ip, w, maxAttempts, window)
    ensures LimitHolds(init + [last], last.ip, Slot(w.start, w.count + 1), maxAttempts, window)
  {
    PrefixMonotone(init, last);
    InsideWindow(init, last, maxAttempts, window, w);
    SlotHoldsLast(init, last.ip, window);
    OlderLast(init, last, last.ip, window);
    AllowedStep(init, last, last.ip, w.start, w.start + window as real, maxAttempts, window);
  }

  lemma LimitOther(init: seq<Attempt>, last: Attempt, ip: string, maxAttempts: int, window: int, w: Slot)
    requires last.ip != ip && LimitHolds(init, ip, w, maxAttempts, window)
    ensures LimitHolds(init + [last], ip, w, maxAttempts, window)
  {
    AllowedStep(init, last, ip, w.start, w.start + window as real, maxAttempts, window);
  }

  lemma LimitStep(init: seq<Attempt>, last: Attempt, ip: string, maxAttempts: int, window: int)
    requires Monotone(init + [last]) && window >= 1 && maxAttempts >= 1
    requires SlotAfter(init, ip, window).Some? ==>
               LimitHolds(init, ip, SlotAfter(init, ip, window).value, maxAttempts, window)
    ensures SlotAfter(init + [last], ip, window).Some? ==>
              LimitHolds(init + [last], ip, SlotAfter(init + [last], ip, window).value, maxAttempts, window)
  {
    var before := SlotAfter(init, ip, window);
    SlotStep(init, last, ip, window);
    if last.ip != ip {
      if before.Some? {
        LimitOther(init, last, ip, maxAttempts, window, before.value);
      }
    } else if before.None? || last.at - before.value.start >= window as real {
      LimitFresh(init, last, maxAttempts, window);
    } else {
      LimitInside(init, last, maxAttempts, window, before.value);
    }
  }

  /** In every fixed window exactly the first `maxAttempts` attempts are allowed. */
  lemma {:induction false} LimitPerWindow(h: seq<Attempt>, ip: string, maxAttempts: int, window: int)
    requires Monotone(h) && window >= 1 && maxAttempts >= 1
    ensures SlotAfter(h, ip, window).Some? ==>
              LimitHolds(h, ip, SlotAfter(h, ip, window).value, maxAttempts, window)
  {
    if h != [] {
      var init, last := h[..|h| - 1], h[|h| - 1];
      assert h == init + [last];
      PrefixMonotone(init, last);
      LimitPerWindow(init, ip, maxAttempts, window);
      LimitStep(init, last, ip, maxAttempts, window);
    }
  }

  lemma {:induction false} OthersKeepSlot(h: seq<Attempt>, g: seq<Attempt>, ip: string, window: int)
    requires forall x :: x in g ==> x.ip != ip
    ensures SlotAfter(h + g, ip, window) == SlotAfter(h, ip, window)
  {
    if g == [] {
      assert h + g == h;
    } else {
      var init, last := g[..|g| - 1], g[|g| - 1];
      assert g == init + [last];
      OthersKeepSlot(h, init, ip, window);
      SlotStep(h + init, last, ip, window);
      assert h + g == (h + init) + [last];
    }
  }

  /** A blocked address that stays away for `retryAfter` seconds is allowed again. */
  lemma RetryAfterEndsBlock(h: seq<Attempt>, a: Attempt, others: seq<Attempt>, later: real, maxAttempts: int,
                            window: int)
    requires window >= 1 && maxAttempts >= 1 && Monotone(h + [a])
    requires !ReferenceAnswer(h, a, maxAttempts, window).allowed
    requires forall x :: x in others ==> x.ip != a.ip
    requires later >= a.at + ReferenceAnswer(h, a, maxAttempts, window).retryAfter as real
    ensures ReferenceAnswer(h + [a] + others, Attempt(a.ip, later), maxAttempts, window) == Answer(true, 0)
    ensures ReferenceAnswer(h, a, maxAttempts, window).retryAfter >= 1
  {
    SlotStep(h, a, a.ip, window);
    OthersKeepSlot(h + [a], others, a.ip, window);
    SlotHoldsLast(h + [a], a.ip, window);
    assert LastOf(h + [a], a.ip) == a.at;
  }

  // ---- the interval bound is reached ----

  /** `n` attempts of one address at one time. */
  function Burst(ip: string, t: real, n: nat): seq<Attempt> {
    if n == 0 then [] else Burst(ip, t, n - 1) + [Attempt(ip, t)]
  }

  lemma OneAllowed(h: seq<Attempt>, last: Attempt, start: real, count: int, next: int, a: real,
                   maxAttempts: int, window: int)
    requires SlotAfter(h, last.ip, window) == Some(Slot(start, count)) && last.at - start < window as real
    requires next == count + 1 <= maxAttempts && a <= last.at < a + window as real
    ensures SlotAfter(h + [last], last.ip, window) == Some(Slot(start, next))
    ensures AllowedIn(h + [last], last.ip, a, a + window as real, maxAttempts, window)
            == AllowedIn(h, last.ip, a, a + window as real, maxAttempts, window) + 1
  {
    InsideWindow(h, last, maxAttempts, window, Slot(start, count));
    AllowedStep(h, last, last.ip, a, a + window as real, maxAttempts, window);
  }

  lemma BurstSplit(h: seq<Attempt>, ip: string, t: real, n: nat, m: nat)
    requires n == m + 1
    ensures h + Burst(ip, t, n) == h + Burst(ip, t, m) + [Attempt(ip, t)]
  {
  }

  /** A burst inside a running window that the limit still allows counts in full. */
  lemma {:induction false} BurstAllowed(h: seq<Attempt>, ip: string, t: real, n: nat, start: real, count: int,
                                        next: int, a: real, maxAttempts: int, window: int)
    requires SlotAfter(h, ip, window) == Some(Slot(start, count)) && t - start < window as real
    requires next == count + n <= maxAttempts && a <= t < a + window as real
    ensures SlotAfter(h + Burst(ip, t, n), ip, window) == Some(Slot(start, next))
    ensures AllowedIn(h + Burst(ip, t, n), ip, a, a + window as real, maxAttempts, window)
            == AllowedIn(h, ip, a, a + window as real, maxAttempts, window) + n
  {
    if n == 0 {
      assert h + Burst(ip, t, n) == h;
    } else {
      var m, before := n - 1, next - 1;
      BurstAllowed(h, ip, t, m, start, count, before, a, maxAttempts, window);
      OneAllowed(h + Burst(ip, t, m), Attempt(ip, t), start, before, next, a, maxAttempts, window);
      BurstSplit(h, ip, t, n, m);
    }
  }

  /** An attempt that opens a window is allowed. */
  lemma OpensWindow(h: seq<Attempt>, ip: string, t: real, a: real, maxAttempts: int, window: int)
    requires maxAttempts >= 1 && window >= 1
    requires SlotAfter(h, ip, window).Some? ==> t - SlotAfter(h, ip, window).value.start >= window as real
    ensures SlotAfter(h + [Attempt(ip, t)], ip, window) == Some(Slot(t, 1))
    ensures AllowedIn(h + [Attempt(ip, t)], ip, a, a + window as real, maxAttempts, window)
            == AllowedIn(h, ip, a, a + window as real, maxAttempts, window)
               + (if a <= t < a + window as real then 1 else 0)
  {
    SlotStep(h, Attempt(ip, t), ip, window);
    AllowedStep(h, Attempt(ip, t), ip, a, a + window as real, maxAttempts, window);
  }

  /** One attempt, the rest of its window's limit half a second before it ends, then a full window at once. */
  function Crowd(ip: string, maxAttempts: int, window: int): seq<Attempt>
    requires maxAttempts >= 1
  {
    [Attempt(ip, 0.0)] + Burst(ip, window as real - 0.5, maxAttempts - 1)
    + [Attempt(ip, window as real)] + Burst(ip, window as real, maxAttempts - 1)
  }

  lemma {:induction false} BurstTimes(ip: string, t: real, n: nat)
    ensures |Burst(ip, t, n)| == n && forall x :: x in Burst(ip, t, n) ==> x.at == t
  {
    if n > 0 {
      BurstTimes(ip, t, n - 1);
    }
  }

  lemma JoinMonotone(h: seq<Attempt>, g: seq<Attempt>, mid: real)
    requires Monotone(h) && Monotone(g)
    requires (forall x :: x in h ==> x.at <= mid) && (forall x :: x in g ==> mid <= x.at)
    ensures Monotone(h + g)
  {
    forall i, j | 0 <= i < j < |h + g| ensures (h + g)[i].at <= (h + g)[j].at {
      if i < |h| <= j {
        assert h[i] in h && g[j - |h|] in g;
      }
    }
  }

  lemma FlatMonotone(g: seq<Attempt>, t: real)
    requires forall x :: x in g ==> x.at == t
    ensures Monotone(g)
  {
    assert forall i :: 0 <= i < |g| ==> g[i] in g;
  }

  lemma CrowdMonotone(ip: string, maxAttempts: int, window: int)
    requires maxAttempts >= 1 && window >= 1
    ensures Monotone(Crowd(ip, maxAttempts, window))
  {
    var t, w := window as real - 0.5, window as real;
    var first, next, last := Burst(ip, t, maxAttempts - 1), [Attempt(ip, w)], Burst(ip, w, maxAttempts - 1);
    BurstTimes(ip, t, maxAttempts - 1);
    BurstTimes(ip, w, maxAttempts - 1);
    FlatMonotone(first, t);
    FlatMonotone(last, w);
    JoinMonotone([Attempt(ip, 0.0)], first, t);
    JoinMonotone([Attempt(ip, 0.0)] + first, next, w);
    JoinMonotone([Attempt(ip, 0.0)] + first + next, last, w);
  }

  lemma OpeningAllowed(ip: string, maxAttempts: int, window: int, a: real)
    requires maxAttempts >= 1 && window >= 1 && a == window as real - 0.5
    ensures var h := [Attempt(ip, 0.0)] + Burst(ip, a, maxAttempts - 1);
            && SlotAfter(h, ip, window) == Some(Slot(0.0, maxAttempts))
            && AllowedIn(h, ip, a, a + window as real, maxAttempts, window) == maxAttempts - 1
  {
    OpensWindow([], ip, 0.0, a, maxAttempts, window);
    assert [] + [Attempt(ip, 0.0)] == [Attempt(ip, 0.0)];
    BurstAllowed([Attempt(ip, 0.0)], ip, a, maxAttempts - 1, 0.0, 1, maxAttempts, a, maxAttempts, window);
  }

  lemma NextAllowed(h: seq<Attempt>, ip: string, maxAttempts: int, window: int, a: real, w: real)
    requires maxAttempts >= 1 && window >= 1 && w == window as real && a == w - 0.5
    requires SlotAfter(h, ip, window) == Some(Slot(0.0, maxAttempts))
    ensures AllowedIn(h + [Attempt(ip, w)] + Burst(ip, w, maxAttempts - 1), ip, a, a + window as real, maxAttempts,
                      window)
            == AllowedIn(h, ip, a, a + window as real, maxAttempts, window) + maxAttempts
  {
    OpensWindow(h, ip, w, a, maxAttempts, window);
    BurstAllowed(h + [Attempt(ip, w)], ip, w, maxAttempts - 1, w, 1, maxAttempts, a, maxAttempts, window);
  }

  /** For every limit and window, some run has 2 * max_attempts - 1 attempts allowed within one window's length. */
  lemma IntervalBoundIsSharp(ip: string, maxAttempts: int, window: int)
    requires maxAttempts >= 1 && window >= 1
    ensures Monotone(Crowd(ip, maxAttempts, window))
    ensures var a := window as real - 0.5;
            AllowedIn(Crowd(ip, maxAttempts, window), ip, a, a + window as real, maxAttempts, window)
            == 2 * maxAttempts - 1
  {
    var a, w := window as real - 0.5, window as real;
    CrowdMonotone(ip, maxAttempts, window);
    OpeningAllowed(ip, maxAttempts, window, a);
    NextAllowed([Attempt(ip, 0.0)] + Burst(ip, a, maxAttempts - 1), ip, maxAttempts, window, a, w);
  }

  /** At most `bound` attempts of the address are allowed in the interval of one window's length from `a`. */
  ghost predicate AtMost(bound: int, h: seq<Attempt>, ip: string, a: real, maxAttempts: int, window: int) {
    Monotone(h) ==> AllowedIn(h, ip, a, a + window as real, maxAttempts, window) <= bound
  }

  /** A bound holds for every run, address and interval if and only if it is at least 2 * max_attempts - 1. */
  lemma IntervalBoundExactly(maxAttempts: int, window: int, bound: int)
    requires maxAttempts >= 1 && window >= 1
    ensures (forall h: seq<Attempt>, ip: string, a: real :: AtMost(bound, h, ip, a, maxAttempts, window))
            <==> bound >= 2 * maxAttempts - 1
  {
    if bound >= 2 * maxAttempts - 1 {
      forall h: seq<Attempt>, ip: string, a: real
        ensures AtMost(bound, h, ip, a, maxAttempts, window)
      {
        if Monotone(h) {
          BelowTwicePerInterval(h, ip, a, maxAttempts, window);
        }
      }
    } else {
      IntervalBoundIsSharp("x", maxAttempts, window);
      assert !AtMost(bound, Crowd("x", maxAttempts, window), "x", window as real - 0.5, maxAttempts, window);
    }
  }
}
