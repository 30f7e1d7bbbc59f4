/** What a passing verification proves about ANY store, however it came to be. */
module AuditAnchor {
  import opened RowFingerprint
  import opened AuditChain

  ghost function Fps(es: seq<Entry>): seq<Fingerprint> {
    seq(|es|, i requires 0 <= i < |es| => es[i].fp)
  }

  /** The fingerprints a store claims for its first `k` checkpoints, in chain order. */
  ghost function ChainEntries(t: Tables, k: nat): seq<Entry>
    requires k <= |t.checkpoints|
  {
    if k == 0 then [] else ChainEntries(t, k - 1) + Segment(t, t.checkpoints[k - 1])
  }

  ghost predicate SeedHolds(t: Tables, k: nat)
    requires k < |t.checkpoints|
  {
    t.checkpoints[k].prevChainHash == PrevChain(t.checkpoints[..k])
  }

  ghost predicate SegmentHolds(t: Tables, k: nat)
    requires k < |t.checkpoints|
  {
    var cp := t.checkpoints[k];
    var es := Segment(t, cp);
    |es| == cp.rowCount && |Ids(es)| == |es| && FoldAll(cp.prevChainHash, es) == cp.chainHash
  }

  ghost predicate AllHold(t: Tables, k: nat)
    requires k <= |t.checkpoints|
  {
    forall i :: 0 <= i < k ==> SeedHolds(t, i) && SegmentHolds(t, i)
  }

  /** An accumulated result, read as a statement about the first `k` checkpoints. */
  ghost predicate Means(t: Tables, k: nat, r: VerifyResult)
    requires k <= |t.checkpoints|
  {
    && (r.ok <==> AllHold(t, k))
    && (r.ok <==> r.failures == [])
    && r.checkpointsTotal == |t.checkpoints| && r.unsealedEvents == 0
    && r.partial <= r.verified
    && (r.ok ==> r.verified + r.agedOut == k)
    && r.lastChainHash == ForeignHash("")
  }

  /** A later result says of one more checkpoint whether it holds. */
  ghost predicate Extends(t: Tables, k: nat, r: VerifyResult, next: VerifyResult)
    requires k < |t.checkpoints|
  {
    && (next.ok <==> r.ok && SeedHolds(t, k) && SegmentHolds(t, k))
    && (next.ok <==> next.failures == [])
    && next.partial <= next.verified
    && (next.ok ==> next.verified + next.agedOut == r.verified + r.agedOut + 1)
    && next.checkpointsTotal == r.checkpointsTotal && next.unsealedEvents == r.unsealedEvents
    && next.lastChainHash == r.lastChainHash
  }

  lemma SeedMeaning(t: Tables, k: nat, r: VerifyResult)
    requires k < |t.checkpoints| && (r.ok <==> r.failures == [])
    ensures var s := CheckSeed(t, k, r);
            && (s.ok <==> r.ok && SeedHolds(t, k)) && (s.ok <==> s.failures == [])
            && s.partial == r.partial && s.verified == r.verified && s.agedOut == r.agedOut
            && s.checkpointsTotal == r.checkpointsTotal && s.unsealedEvents == r.unsealedEvents
            && s.lastChainHash == r.lastChainHash
  {
  }

  lemma SegmentMeaning(t: Tables, k: nat, r: VerifyResult)
    requires k < |t.checkpoints| && (r.ok <==> r.failures == []) && r.partial <= r.verified
    ensures var s := CheckSegment(t, k, r);
            && (s.ok <==> r.ok && SegmentHolds(t, k)) && (s.ok <==> s.failures == [])
            && s.partial <= s.verified
            && (s.ok ==> s.verified + s.agedOut == r.verified + r.agedOut + 1)
            && s.checkpointsTotal == r.checkpointsTotal && s.unsealedEvents == r.unsealedEvents
            && s.lastChainHash == r.lastChainHash
  {
  }

  lemma StepMeaning(t: Tables, k: nat, r: VerifyResult, seeded: VerifyResult, next: VerifyResult)
    requires k < |t.checkpoints| && seeded == CheckSeed(t, k, r) && next == CheckSegment(t, k, seeded)
    requires (r.ok <==> r.failures == []) && r.partial <= r.verified
    ensures Extends(t, k, r, next)
  {
    SeedMeaning(t, k, r);
    SegmentMeaning(t, k, seeded);
  }

  lemma AllHoldNext(t: Tables, k: nat)
    requires 0 < k <= |t.checkpoints|
    ensures AllHold(t, k) <==> AllHold(t, k - 1) && SeedHolds(t, k - 1) && SegmentHolds(t, k - 1)
  {
  }

  lemma MeansNext(t: Tables, k: nat, r: VerifyResult, next: VerifyResult)
    requires 0 < k <= |t.checkpoints| && Means(t, k - 1, r) && Extends(t, k - 1, r, next)
    ensures Means(t, k, next)
  {
    AllHoldNext(t, k);
  }

  lemma CheckedUnfold(t: Tables, k: nat)
    requires 0 < k <= |t.checkpoints|
    ensures Checked(t, k) == CheckSegment(t, k - 1, CheckSeed(t, k - 1, Checked(t, k - 1)))
  {
  }

  lemma MeansStep(t: Tables, k: nat, r: VerifyResult, seeded: VerifyResult, next: VerifyResult)
    requires 0 < k <= |t.checkpoints| && Means(t, k - 1, r)
    requires seeded == CheckSeed(t, k - 1, r) && next == CheckSegment(t, k - 1, seeded)
    ensures Means(t, k, next)
  {
    StepMeaning(t, k - 1, r, seeded, next);
    MeansNext(t, k, r, next);
  }

  lemma MeansFirst(t: Tables)
    ensures Means(t, 0, Checked(t, 0))
  {
  }

  /** The result accumulated over `k` checkpoints, read as a statement about each of them. */
  lemma {:induction false} CheckedMeaning(t: Tables, k: nat)
    requires k <= |t.checkpoints|
    ensures Means(t, k, Checked(t, k))
  {
    if k == 0 {
      MeansFirst(t);
    } else {
      var r, next := Checked(t, k - 1), Checked(t, k);
      CheckedMeaning(t, k - 1);
      CheckedUnfold(t, k);
      MeansStep(t, k, r, CheckSeed(t, k - 1, r), next);
    }
  }

  /** Verification passes exactly when every checkpoint's seed, count and chain hash hold. */
  lemma VerifyMeaning(t: Tables)
    ensures var r := Verify(t);
            && (r.ok <==> AllHold(t, |t.checkpoints|))
            && (r.ok <==> r.failures == [])
            && (r.ok ==> r.verified + r.agedOut == r.checkpointsTotal == |t.checkpoints|)
            && r.partial <= r.verified
  {
    CheckedMeaning(t, |t.checkpoints|);
  }

  ghost function Depth(h: Hash): nat {
    if h.Folded? then 1 + Depth(h.running) else 0
  }

  lemma {:induction false} FoldDepth(seed: Hash, es: seq<Entry>)
    ensures Depth(FoldAll(seed, es)) == Depth(seed) + |es|
  {
    if es != [] {
      FoldDepth(seed, es[..|es| - 1]);
    }
  }

  lemma {:induction false} FoldAppend(seed: Hash, a: seq<Entry>, b: seq<Entry>)
    ensures FoldAll(seed, a + b) == FoldAll(FoldAll(seed, a), b)
  {
    if b == [] {
      assert a + b == a;
    } else {
      FoldAppend(seed, a, b[..|b| - 1]);
      assert (a + b)[..|a + b| - 1] == a + b[..|b| - 1];
    }
  }

  /** From one seed, two folds agree exactly when they folded the same fingerprints in the same order. */
  lemma {:induction false} FoldInjective(seed: Hash, a: seq<Entry>, b: seq<Entry>)
    ensures FoldAll(seed, a) == FoldAll(seed, b) <==> Fps(a) == Fps(b)
  {
    FoldDepth(seed, a);
    FoldDepth(seed, b);
    if |a| == |b| && a != [] {
      var n := |a| - 1;
      FoldInjective(seed, a[..n], b[..n]);
      assert Fps(a) == Fps(a[..n]) + [a[n].fp] && Fps(b) == Fps(b[..n]) + [b[n].fp];
      assert Fps(a)[..n] == Fps(a[..n]) && Fps(a)[n] == a[n].fp;
      assert Fps(b)[..n] == Fps(b[..n]) && Fps(b)[n] == b[n].fp;
    } else {
      assert |Fps(a)| == |a| && |Fps(b)| == |b|;
    }
  }

  lemma PrevChainAt(cps: seq<Checkpoint>, k: nat)
    requires k < |cps|
    ensures PrevChain(cps[..k + 1]) == cps[k].chainHash
  {
  }

  /** What a checkpoint that holds says about the hash it was seeded with. */
  lemma HeldSegment(t: Tables, k: nat)
    requires k < |t.checkpoints| && SeedHolds(t, k) && SegmentHolds(t, k)
    ensures PrevChain(t.checkpoints[..k + 1]) == FoldAll(PrevChain(t.checkpoints[..k]), Segment(t, t.checkpoints[k]))
  {
    PrevChainAt(t.checkpoints, k);
  }

  lemma HeldBefore(t: Tables, k: nat)
    requires 0 < k <= |t.checkpoints| && AllHold(t, k)
    ensures AllHold(t, k - 1) && SeedHolds(t, k - 1) && SegmentHolds(t, k - 1)
  {
  }

  lemma FoldJoin(before: seq<Entry>, es: seq<Entry>, mid: Hash, last: Hash)
    requires mid == FoldAll(Genesis, before) && last == FoldAll(mid, es)
    ensures last == FoldAll(Genesis, before + es)
  {
    FoldAppend(Genesis, before, es);
  }

  /** If the first `k` checkpoints hold, the chain hash they end in is one fold from GENESIS. */
  lemma {:induction false} ChainIsFold(t: Tables, k: nat)
    requires k <= |t.checkpoints|
    requires AllHold(t, k)
    ensures PrevChain(t.checkpoints[..k]) == FoldAll(Genesis, ChainEntries(t, k))
  {
    if k > 0 {
      HeldBefore(t, k);
      ChainIsFold(t, k - 1);
      HeldSegment(t, k - 1);
      FoldJoin(ChainEntries(t, k - 1), Segment(t, t.checkpoints[k - 1]),
               PrevChain(t.checkpoints[..k - 1]), PrevChain(t.checkpoints[..k]));
    }
  }

  /**
    Anchor theorem: two stores that verify and report the same last chain hash hold the same
    fingerprints, in the same order, over all their checkpoints, however the segments are cut.
  */
  lemma AnchorDeterminesFingerprints(s: Tables, t: Tables)
    requires Verify(s).ok && Verify(t).ok
    requires Verify(s).lastChainHash == Verify(t).lastChainHash
    ensures Fps(ChainEntries(s, |s.checkpoints|)) == Fps(ChainEntries(t, |t.checkpoints|))
  {
    VerifyMeaning(s);
    VerifyMeaning(t);
    CheckedMeaning(s, |s.checkpoints|);
    CheckedMeaning(t, |t.checkpoints|);
    ChainIsFold(s, |s.checkpoints|);
    ChainIsFold(t, |t.checkpoints|);
    assert s.checkpoints[..|s.checkpoints|] == s.checkpoints;
    assert t.checkpoints[..|t.checkpoints|] == t.checkpoints;
    FoldInjective(Genesis, ChainEntries(s, |s.checkpoints|), ChainEntries(t, |t.checkpoints|));
    FoldDepth(Genesis, ChainEntries(s, |s.checkpoints|));
    FoldDepth(Genesis, ChainEntries(t, |t.checkpoints|));
    NeverForeign(ChainEntries(s, |s.checkpoints|));
    NeverForeign(ChainEntries(t, |t.checkpoints|));
  }

  lemma NeverForeign(es: seq<Entry>)
    ensures !FoldAll(Genesis, es).ForeignHash?
  {
  }
}
