/** What the counters and findings of a verification say, checkpoint by checkpoint, for any store. */
module AuditReport {
  import opened Sequences
  import opened RowFingerprint
  import opened AuditChain
  import opened AuditAnchor

  /** A row is still live in the range of checkpoint `k`. */
  ghost predicate HasLive(t: Tables, k: nat)
    requires k < |t.checkpoints|
  {
    exists r :: r in t.events && t.checkpoints[k].fromId <= r.id <= t.checkpoints[k].throughId
  }

  /** A fingerprint is retired in the range of checkpoint `k`. */
  ghost predicate HasRetired(t: Tables, k: nat)
    requires k < |t.checkpoints|
  {
    exists e :: e in t.retired && t.checkpoints[k].fromId <= e.id <= t.checkpoints[k].throughId
  }

  /** As many entries as were sealed, under different ids. */
  ghost predicate CountHolds(t: Tables, k: nat)
    requires k < |t.checkpoints|
  {
    var es := Segment(t, t.checkpoints[k]);
    |es| == t.checkpoints[k].rowCount && |Ids(es)| == |es|
  }

  ghost predicate HashHolds(t: Tables, k: nat)
    requires k < |t.checkpoints|
  {
    FoldAll(t.checkpoints[k].prevChainHash, Segment(t, t.checkpoints[k])) == t.checkpoints[k].chainHash
  }

  ghost predicate Sound(t: Tables, k: nat)
    requires k < |t.checkpoints|
  {
    CountHolds(t, k) && HashHolds(t, k)
  }

  lemma LiveMeaning(t: Tables, k: nat)
    requires k < |t.checkpoints|
    ensures LiveRows(t, t.checkpoints[k]) != [] <==> HasLive(t, k)
    ensures RetiredEntries(t, t.checkpoints[k]) != [] <==> HasRetired(t, k)
  {
    var cp := t.checkpoints[k];
    var live, gone := LiveRows(t, cp), RetiredEntries(t, cp);
    FilterMember(RowWithin(cp.fromId, cp.throughId), t.events);
    FilterMember(EntryWithin(cp.fromId, cp.throughId), t.retired);
    assert live != [] ==> live[0] in live;
    assert gone != [] ==> gone[0] in gone;
  }

  // ---- the counters ----

  /** A checkpoint that holds and still has a live row. */
  ghost function IsVerified(t: Tables): nat -> bool {
    (k: nat) => k < |t.checkpoints| && Sound(t, k) && HasLive(t, k)
  }

  /** One that holds without a live row. */
  ghost function IsAgedOut(t: Tables): nat -> bool {
    (k: nat) => k < |t.checkpoints| && Sound(t, k) && !HasLive(t, k)
  }

  /** One that holds with a live row and a retired fingerprint. */
  ghost function IsPartial(t: Tables): nat -> bool {
    (k: nat) => k < |t.checkpoints| && Sound(t, k) && HasLive(t, k) && HasRetired(t, k)
  }

  ghost function Chosen(p: nat -> bool, n: nat): set<nat> {
    set k: nat | k < n && p(k)
  }

  lemma ChosenNext(p: nat -> bool, k: nat, n: nat)
    requires n == k + 1
    ensures |Chosen(p, n)| == |Chosen(p, k)| + if p(k) then 1 else 0
  {
    assert Chosen(p, n) == Chosen(p, k) + if p(k) then {k} else {};
    assert k !in Chosen(p, k);
  }

  ghost predicate Counted(t: Tables, n: nat, r: VerifyResult) {
    && r.verified == |Chosen(IsVerified(t), n)|
    && r.agedOut == |Chosen(IsAgedOut(t), n)|
    && r.partial == |Chosen(IsPartial(t), n)|
  }

  lemma CountedNext(t: Tables, k: nat, n: nat, r: VerifyResult, next: VerifyResult)
    requires n == k + 1 && Counted(t, k, r)
    requires next.verified == r.verified + if IsVerified(t)(k) then 1 else 0
    requires next.agedOut == r.agedOut + if IsAgedOut(t)(k) then 1 else 0
    requires next.partial == r.partial + if IsPartial(t)(k) then 1 else 0
    ensures Counted(t, n, next)
  {
    ChosenNext(IsVerified(t), k, n);
    ChosenNext(IsAgedOut(t), k, n);
    ChosenNext(IsPartial(t), k, n);
  }

  lemma SegmentCounts(t: Tables, k: nat, r: VerifyResult, seeded: VerifyResult, next: VerifyResult)
    requires k < |t.checkpoints| && seeded == CheckSeed(t, k, r) && next == CheckSegment(t, k, seeded)
    ensures next.verified == r.verified + if IsVerified(t)(k) then 1 else 0
    ensures next.agedOut == r.agedOut + if IsAgedOut(t)(k) then 1 else 0
    ensures next.partial == r.partial + if IsPartial(t)(k) then 1 else 0
  {
    LiveMeaning(t, k);
  }

  lemma CountsNone(t: Tables)
    ensures Counted(t, 0, Checked(t, 0))
  {
    assert Chosen(IsVerified(t), 0) == {} && Chosen(IsAgedOut(t), 0) == {} && Chosen(IsPartial(t), 0) == {};
  }

  lemma StepCounts(t: Tables, k: nat, n: nat, r: VerifyResult, seeded: VerifyResult, next: VerifyResult)
    requires n == k + 1 && k < |t.checkpoints| && Counted(t, k, r)
    requires seeded == CheckSeed(t, k, r) && next == CheckSegment(t, k, seeded)
    ensures Counted(t, n, next)
  {
    SegmentCounts(t, k, r, seeded, next);
    CountedNext(t, k, n, r, next);
  }

  lemma CheckedAfter(t: Tables, k: nat, n: nat, r: VerifyResult, next: VerifyResult)
    requires n == k + 1 <= |t.checkpoints| && r == Checked(t, k) && next == Checked(t, n)
    ensures next == CheckSegment(t, k, CheckSeed(t, k, r))
  {
    CheckedUnfold(t, n);
  }

  lemma {:induction false} CheckedCounts(t: Tables, n: nat)
    requires n <= |t.checkpoints|
    ensures Counted(t, n, Checked(t, n))
  {
    if n == 0 {
      CountsNone(t);
    } else {
      var k: nat := n - 1;
      var r, next := Checked(t, k), Checked(t, n);
      CheckedCounts(t, k);
      CheckedAfter(t, k, n, r, next);
      StepCounts(t, k, n, r, CheckSeed(t, k, r), next);
    }
  }

  // ---- the findings ----

  /** What a finding claims about its checkpoint. */
  ghost predicate Justified(t: Tables, n: nat, f: Finding)
    requires n <= |t.checkpoints|
  {
    match f
    case SeedBroken(k) => k < n && !SeedHolds(t, k)
    case CountMismatch(k, found) => k < n && !CountHolds(t, k) && found == |Segment(t, t.checkpoints[k])|
    case HashMismatch(k) => k < n && CountHolds(t, k) && !HashHolds(t, k)
  }

  /** Findings come in checkpoint order, a broken seed before what else is wrong with its checkpoint. */
  function Rank(f: Finding): int {
    match f
    case SeedBroken(k) => 2 * k
    case CountMismatch(k, _) => 2 * k + 1
    case HashMismatch(k) => 2 * k + 1
  }

  ghost predicate Ranked(fs: seq<Finding>) {
    forall i, j :: 0 <= i < j < |fs| ==> Rank(fs[i]) < Rank(fs[j])
  }

  ghost predicate Reported(t: Tables, n: nat, fs: seq<Finding>)
    requires n <= |t.checkpoints|
  {
    (forall f :: f in fs <==> Justified(t, n, f)) && Ranked(fs)
  }

  /** The findings about one checkpoint. */
  ghost function About(t: Tables, k: nat): seq<Finding>
    requires k < |t.checkpoints|
  {
    (if SeedHolds(t, k) then [] else [SeedBroken(k)])
    + (if !CountHolds(t, k) then [CountMismatch(k, |Segment(t, t.checkpoints[k])|)]
       else if !HashHolds(t, k) then [HashMismatch(k)] else [])
  }

  lemma SegmentFindings(t: Tables, k: nat, r: VerifyResult, seeded: VerifyResult, next: VerifyResult)
    requires k < |t.checkpoints| && seeded == CheckSeed(t, k, r) && next == CheckSegment(t, k, seeded)
    ensures next.failures == r.failures + About(t, k)
  {
  }

  lemma AboutMeaning(t: Tables, k: nat, n: nat, f: Finding)
    requires n == k + 1 <= |t.checkpoints|
    ensures Justified(t, n, f) <==> Justified(t, k, f) || f in About(t, k)
    ensures f in About(t, k) ==> 2 * k <= Rank(f) <= 2 * k + 1
    ensures Justified(t, k, f) ==> Rank(f) < 2 * k
  {
  }

  lemma ReportedNext(t: Tables, k: nat, n: nat, fs: seq<Finding>)
    requires n == k + 1 <= |t.checkpoints| && Reported(t, k, fs)
    ensures Reported(t, n, fs + About(t, k))
  {
    var all := fs + About(t, k);
    forall f ensures f in all <==> Justified(t, n, f) {
      AboutMeaning(t, k, n, f);
    }
    forall i, j | 0 <= i < j < |all| ensures Rank(all[i]) < Rank(all[j]) {
      if i < |fs| <= j {
        assert fs[i] in fs && About(t, k)[j - |fs|] in About(t, k);
        AboutMeaning(t, k, n, fs[i]);
        AboutMeaning(t, k, n, About(t, k)[j - |fs|]);
      }
    }
  }

  lemma {:induction false} CheckedFindings(t: Tables, n: nat)
    requires n <= |t.checkpoints|
    ensures Reported(t, n, Checked(t, n).failures)
  {
    if n > 0 {
      var k: nat := n - 1;
      var r, next := Checked(t, k), Checked(t, n);
      CheckedFindings(t, k);
      CheckedAfter(t, k, n, r, next);
      SegmentFindings(t, k, r, CheckSeed(t, k, r), next);
      ReportedNext(t, k, n, r.failures);
    }
  }

  // ---- the report ----

  /** In any store: which checkpoints are counted as verified, as aged out and as partial. */
  lemma VerifyCounts(t: Tables)
    ensures Counted(t, |t.checkpoints|, Verify(t))
  {
    CheckedCounts(t, |t.checkpoints|);
  }

  /** In any store: the total, the exported hash and the number of live rows behind the last checkpoint. */
  lemma VerifyTotals(t: Tables)
    requires forall i, j :: 0 <= i < j < |t.events| ==> t.events[i].id < t.events[j].id
    ensures var r, n := Verify(t), |t.checkpoints|;
            && r.checkpointsTotal == n
            && (n == 0 ==> r.ok && r.failures == [] && r.unsealedEvents == 0)
            && (n > 0 ==>
                  && r.lastChainHash == t.checkpoints[n - 1].chainHash
                  && r.unsealedEvents == |Filter((x: Row) => x.id > t.checkpoints[n - 1].throughId, t.events)|)
  {
    CheckedTotal(t, |t.checkpoints|);
    if t.checkpoints != [] {
      var through := PrevThrough(t.checkpoints);
      var above := (x: Row) => x.id > t.checkpoints[|t.checkpoints| - 1].throughId;
      FilterSame(RowAbove(through), above, t.events);
      if t.events != [] && t.events[|t.events| - 1].id <= through {
        NoneAbove(t.events, through);
      }
    }
  }

  lemma NoneAbove(rows: seq<Row>, through: int)
    requires forall i, j :: 0 <= i < j < |rows| ==> rows[i].id < rows[j].id
    requires rows != [] && rows[|rows| - 1].id <= through
    ensures Filter(RowAbove(through), rows) == []
  {
    var n: nat := |rows| - 1;
    forall i: nat | i < |rows| ensures !RowAbove(through)(rows[i]) {
      assert i < n ==> rows[i].id < rows[n].id;
    }
    FilterNone(RowAbove(through), rows);
  }

  lemma {:induction false} CheckedTotal(t: Tables, n: nat)
    requires n <= |t.checkpoints|
    ensures Checked(t, n).checkpointsTotal == |t.checkpoints|
  {
    if n > 0 {
      var k: nat := n - 1;
      CheckedTotal(t, k);
      CheckedAfter(t, k, n, Checked(t, k), Checked(t, n));
    }
  }

  /** In any store: each finding is reported exactly when its test fails, once, in checkpoint order. */
  lemma VerifyFindings(t: Tables)
    ensures Reported(t, |t.checkpoints|, Verify(t).failures)
  {
    CheckedFindings(t, |t.checkpoints|);
  }

  /** In a store that passes, every checkpoint is counted, by whether a row of it is still live. */
  lemma PassingCounts(t: Tables)
    requires Verify(t).ok
    ensures var r, n := Verify(t), |t.checkpoints|;
            && r.verified == |set k: nat | k < n && HasLive(t, k)|
            && r.agedOut == |set k: nat | k < n && !HasLive(t, k)|
            && r.partial == |set k: nat | k < n && HasLive(t, k) && HasRetired(t, k)|
  {
    VerifyMeaning(t);
    VerifyCounts(t);
    forall k: nat | k < |t.checkpoints| ensures Sound(t, k) {
      assert SegmentHolds(t, k);
    }
    var n := |t.checkpoints|;
    assert Chosen(IsVerified(t), n) == set k: nat | k < n && HasLive(t, k);
    assert Chosen(IsAgedOut(t), n) == set k: nat | k < n && !HasLive(t, k);
    assert Chosen(IsPartial(t), n) == set k: nat | k < n && HasLive(t, k) && HasRetired(t, k);
  }
}
