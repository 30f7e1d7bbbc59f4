/** Main results about sealed, purged and possibly altered audit stores. */
module AuditTheorems {
  import opened Sequences
  import opened RowFingerprint
  import opened AuditChain
  import opened AuditAnchor
  import opened AuditHistory

  lemma HonestHolds(t: Tables, segs: seq<seq<Row>>, k: nat)
    requires Honest(t, segs) && k < |segs|
    ensures SeedHolds(t, k) && SegmentHolds(t, k)
  {
    SegmentIsSealed(t, segs, k);
    IdsCardinality(Entries(segs[k]));
  }

  lemma NothingAbove(rows: seq<Row>, through: int)
    requires RowsIncreasing(rows) && (rows == [] || LastId(rows) <= through)
    ensures Filter(RowAbove(through), rows) == []
  {
    forall r | r in rows ensures r.id <= through {
      RowsBounded(rows, r);
    }
    FilterNone(RowAbove(through), rows);
  }

  lemma UnsealedCount(t: Tables)
    requires RowsIncreasing(t.events) && t.checkpoints != []
    ensures Verify(t).unsealedEvents == |Unsealed(t)|
  {
    var through := PrevThrough(t.checkpoints);
    CheckedMeaning(t, |t.checkpoints|);
    if t.events == [] || LastId(t.events) <= through {
      NothingAbove(t.events, through);
    }
  }

  /** An honest store passes, and its counters add up. */
  lemma HonestPasses(t: Tables, segs: seq<seq<Row>>)
    requires Honest(t, segs)
    ensures var r := Verify(t);
            && r.ok && r.failures == [] && r.partial <= r.verified
            && r.verified + r.agedOut == r.checkpointsTotal == |t.checkpoints| == |segs|
            && (t.checkpoints != [] ==>
                  r.unsealedEvents == |Unsealed(t)| && r.lastChainHash == PrevChain(t.checkpoints))
  {
    VerifyMeaning(t);
    forall k | 0 <= k < |segs| ensures SeedHolds(t, k) && SegmentHolds(t, k) {
      HonestHolds(t, segs, k);
    }
    if t.checkpoints != [] {
      UnsealedCount(t);
    }
  }

  /**
    Every run of append, seal and purge verifies with no finding. The rows each seal covered are
    partitioned by those that survive and the retired fingerprints, no purge ever hits a key
    conflict, and the counters add up.
  */
  lemma HonestRunVerifies(ops: seq<Op>)
    ensures var t, segs := Exec(ops), SealedBy(ops);
            var r := Verify(t);
            && r.ok && r.failures == []
            && r.verified + r.agedOut == r.checkpointsTotal == |t.checkpoints| == |segs|
            && r.partial <= r.verified
            && (t.checkpoints != [] ==>
                  r.unsealedEvents == |Unsealed(t)| && r.lastChainHash == PrevChain(t.checkpoints))
            && (forall horizon :: !PurgeConflict(t, horizon))
    ensures forall k :: 0 <= k < |SealedBy(ops)| ==> Partitioned(Exec(ops), k, SealedBy(ops)[k])
  {
    var t, segs := Exec(ops), SealedBy(ops);
    HonestRun(ops);
    HonestPasses(t, segs);
    forall k | 0 <= k < |segs| ensures Partitioned(t, k, segs[k]) {
      SegmentIsSealed(t, segs, k);
    }
    forall horizon ensures !PurgeConflict(t, horizon) {
      HonestPurge(t, segs, horizon);
    }
  }

  /** Surviving rows and retired fingerprints are disjoint and together are the given rows, in order. */
  ghost predicate Partitioned(t: Tables, k: nat, rows: seq<Row>) {
    && k < |t.checkpoints|
    && var live, gone := Entries(LiveRows(t, t.checkpoints[k])), RetiredEntries(t, t.checkpoints[k]);
       Merge(live, gone) == Entries(rows) && DisjointIds(live, gone)
  }

  /** A segment of a possibly altered store that still carries exactly the sealed fingerprints. */
  ghost predicate Intact(u: Tables, segs: seq<seq<Row>>, k: nat)
    requires |segs| == |u.checkpoints| && k < |segs|
  {
    var es := Segment(u, u.checkpoints[k]);
    Fps(es) == Fps(Entries(segs[k])) && |Ids(es)| == |es|
  }

  lemma SegmentIffIntact(t: Tables, segs: seq<seq<Row>>, u: Tables, k: nat)
    requires Honest(t, segs) && u.checkpoints == t.checkpoints && k < |segs|
    ensures SeedHolds(u, k) && SegmentHolds(u, k) <==> Intact(u, segs, k)
  {
    HonestHolds(t, segs, k);
    SegmentIsSealed(t, segs, k);
    SegmentHoldsIffSame(u, k, Entries(segs[k]));
  }

  /** A checkpoint that is right for some entries holds exactly for stores with their fingerprints. */
  lemma SegmentHoldsIffSame(u: Tables, k: nat, entries: seq<Entry>)
    requires k < |u.checkpoints| && u.checkpoints[k].rowCount == |entries|
    requires FoldAll(u.checkpoints[k].prevChainHash, entries) == u.checkpoints[k].chainHash
    ensures SegmentHolds(u, k)
            <==> Fps(Segment(u, u.checkpoints[k])) == Fps(entries)
                 && |Ids(Segment(u, u.checkpoints[k]))| == |Segment(u, u.checkpoints[k])|
  {
    var es := Segment(u, u.checkpoints[k]);
    FoldInjective(u.checkpoints[k].prevChainHash, es, entries);
    assert |Fps(es)| == |es| && |Fps(entries)| == |entries|;
  }

  /**
    With its checkpoints unchanged, a store passes verification exactly when every segment carries
    the fingerprints that were sealed, in order, under ids that do not repeat.
  */
  lemma VerifyIffIntact(t: Tables, segs: seq<seq<Row>>, u: Tables)
    requires Honest(t, segs) && u.checkpoints == t.checkpoints
    ensures Verify(u).ok <==> forall k :: 0 <= k < |segs| ==> Intact(u, segs, k)
  {
    VerifyMeaning(u);
    forall k | 0 <= k < |segs|
      ensures SeedHolds(u, k) && SegmentHolds(u, k) <==> Intact(u, segs, k)
    {
      SegmentIffIntact(t, segs, u, k);
    }
  }

  /** In a store that passes, a live row inside a sealed range is one of the sealed rows, unmodified. */
  lemma SurvivorUnmodified(t: Tables, segs: seq<seq<Row>>, u: Tables, k: nat, r: Row) returns (x: Row)
    requires Honest(t, segs) && u.checkpoints == t.checkpoints && Verify(u).ok
    requires k < |segs| && r in u.events
    requires u.checkpoints[k].fromId <= r.id <= u.checkpoints[k].throughId
    ensures x in segs[k] && x.id == r.id && FingerprintOf(x) == FingerprintOf(r)
    ensures SeparatorFree(x) || SeparatorFree(r) ==> SameRow(x, r)
  {
    VerifyIffIntact(t, segs, u);
    assert Intact(u, segs, k);
    var cp := u.checkpoints[k];
    var live, gone := Entries(LiveRows(u, cp)), RetiredEntries(u, cp);
    FilterMember(RowWithin(cp.fromId, cp.throughId), u.events);
    EntriesMember(LiveRows(u, cp));
    MergeMember(live, gone);
    var es := Segment(u, cp);
    assert EntryOf(r) in es;
    var j :| 0 <= j < |es| && es[j] == EntryOf(r);
    assert Fps(es)[j] == Fps(Entries(segs[k]))[j];
    x := segs[k][j];
    RawPrefix(x, r);
    if SeparatorFree(x) {
      FingerprintInjective(x, r);
    } else if SeparatorFree(r) {
      FingerprintInjective(r, x);
    }
  }

  /** In a store that passes, a sealed row is still live, or its fingerprint is in the retention table. */
  lemma MissingRowRetained(t: Tables, segs: seq<seq<Row>>, u: Tables, k: nat, x: Row)
    requires Honest(t, segs) && u.checkpoints == t.checkpoints && Verify(u).ok
    requires k < |segs| && x in segs[k]
    ensures (exists r :: r in u.events && r.id == x.id && FingerprintOf(r) == FingerprintOf(x))
            || (exists e :: e in u.retired && e.fp == FingerprintOf(x)
                            && u.checkpoints[k].fromId <= e.id <= u.checkpoints[k].throughId)
  {
    VerifyIffIntact(t, segs, u);
    assert Intact(u, segs, k);
    var cp := u.checkpoints[k];
    var live, gone := Entries(LiveRows(u, cp)), RetiredEntries(u, cp);
    FilterMember(RowWithin(cp.fromId, cp.throughId), u.events);
    FilterMember(EntryWithin(cp.fromId, cp.throughId), u.retired);
    EntriesMember(LiveRows(u, cp));
    MergeMember(live, gone);
    var es := Segment(u, cp);
    var j :| 0 <= j < |segs[k]| && segs[k][j] == x;
    assert Fps(es)[j] == Fps(Entries(segs[k]))[j];
    assert es[j] in es;
    if es[j] in live {
      var r :| r in LiveRows(u, cp) && EntryOf(r) == es[j];
      RawPrefix(r, x);
    }
  }

  // ---- split invariance ----

  /** Every row ever appended, in id order, whatever was sealed or purged meanwhile. */
  function Appended(ops: seq<Op>): seq<Row> {
    if ops == [] then []
    else var before := Appended(ops[..|ops| - 1]);
         match ops[|ops| - 1]
         case Append(timestamp, level, source, message, context) =>
           before + [Row(|before| + 1, timestamp, level, source, message, context)]
         case _ => before
  }

  /** No purge in the run removes a row that has not been sealed yet. */
  ghost predicate KeepsUnsealed(ops: seq<Op>) {
    ops != [] ==>
      var init, op := ops[..|ops| - 1], ops[|ops| - 1];
      && KeepsUnsealed(init)
      && (op.Purge? ==> forall r :: r in Unsealed(Exec(init)) ==> r.timestamp >= op.horizon)
  }

  lemma {:induction false} LastIdCounts(ops: seq<Op>)
    ensures Exec(ops).lastId == |Appended(ops)|
  {
    if ops != [] {
      LastIdCounts(ops[..|ops| - 1]);
    }
  }

  lemma {:induction false} KeptCommutes(rows: seq<Row>, n: int, horizon: int)
    requires forall r :: r in rows && r.id > n ==> r.timestamp >= horizon
    ensures Filter(RowAbove(n), Filter(Kept(horizon), rows)) == Filter(RowAbove(n), rows)
  {
    if rows != [] {
      var init, x := rows[..|rows| - 1], rows[|rows| - 1];
      KeptCommutes(init, n, horizon);
      assert x in rows && forall r :: r in init ==> r in rows;
      if x.timestamp >= horizon {
        var kept := Filter(Kept(horizon), init);
        assert Filter(Kept(horizon), rows) == kept + [x];
        assert (kept + [x])[..|kept + [x]| - 1] == kept;
      } else {
        assert Filter(Kept(horizon), rows) == Filter(Kept(horizon), init);
      }
    }
  }

  lemma NothingAboveLast(rows: seq<Row>, n: int)
    requires RowsIncreasing(rows) && Filter(RowAbove(n), rows) != []
    ensures Filter(RowAbove(LastId(Filter(RowAbove(n), rows))), rows) == []
  {
    var above := Filter(RowAbove(n), rows);
    FilterMember(RowAbove(n), rows);
    FilterRowsIncreasing(RowAbove(n), rows);
    forall r | r in rows ensures r.id <= LastId(above) {
      if r.id > n {
        RowsBounded(above, r);
      } else {
        assert above[|above| - 1] in above;
      }
    }
    FilterNone(RowAbove(LastId(above)), rows);
  }

  /** Sealing again when nothing new was appended changes nothing. */
  lemma SealIdempotent(t: Tables)
    requires RowsIncreasing(t.events)
    ensures AfterSeal(AfterSeal(t)) == AfterSeal(t)
  {
    if Unsealed(t) != [] {
      NothingAboveLast(t.events, PrevThrough(t.checkpoints));
    }
  }

  /** The last chain hash after sealing whatever is still unsealed. */
  ghost function FinalChain(t: Tables): Hash {
    FoldAll(PrevChain(t.checkpoints), Entries(Unsealed(t)))
  }

  lemma FinalChainIsNextSeal(t: Tables)
    ensures FinalChain(t) == PrevChain(AfterSeal(t).checkpoints)
  {
  }

  lemma FinalAppend(t: Tables, u: Tables, r: Row)
    requires u.checkpoints == t.checkpoints && u.events == t.events + [r] && r.id > PrevThrough(t.checkpoints)
    ensures FinalChain(u) == Fold(FinalChain(t), FingerprintOf(r))
  {
    var p := PrevThrough(t.checkpoints);
    FilterAppend(RowAbove(p), t.events, [r]);
    FilterAll(RowAbove(p), [r]);
    FoldOneMore(PrevChain(t.checkpoints), Unsealed(t), r);
  }

  lemma FinalSeal(t: Tables)
    requires RowsIncreasing(t.events)
    ensures FinalChain(AfterSeal(t)) == FinalChain(t)
  {
    if Unsealed(t) != [] {
      NothingAboveLast(t.events, PrevThrough(t.checkpoints));
      assert Unsealed(AfterSeal(t)) == [];
    }
  }

  lemma FinalPurge(t: Tables, horizon: int)
    requires forall r :: r in Unsealed(t) ==> r.timestamp >= horizon
    ensures FinalChain(AfterPurge(t, horizon)) == FinalChain(t)
  {
    FilterMember(RowAbove(PrevThrough(t.checkpoints)), t.events);
    KeptCommutes(t.events, PrevThrough(t.checkpoints), horizon);
  }

  /** One operation folds one more fingerprint if it appends a row, and nothing otherwise. */
  lemma FinalStep(t: Tables, op: Op, segs: seq<seq<Row>>)
    requires Honest(t, segs)
    requires op.Purge? ==> forall r :: r in Unsealed(t) ==> r.timestamp >= op.horizon
    ensures FinalChain(Step(t, op))
            == if op.Append? then Fold(FinalChain(t), FingerprintOf(Step(t, op).events[|t.events|])) else FinalChain(t)
  {
    match op
    case Append(_, _, _, _, _) => FinalAppend(t, Step(t, op), Step(t, op).events[|t.events|]);
    case Seal => FinalSeal(t);
    case Purge(horizon) => FinalPurge(t, horizon);
  }

  lemma HistoryStep(init: seq<Op>, op: Op)
    ensures op.Append? ==> Appended(init + [op]) == Appended(init) + [Step(Exec(init), op).events[|Exec(init).events|]]
    ensures !op.Append? ==> Appended(init + [op]) == Appended(init)
  {
    LastIdCounts(init);
    assert (init + [op])[..|init + [op]| - 1] == init;
  }

  /** The chain depends only on the appended rows: not on where seals fall or what purges retire. */
  lemma {:induction false} ChainIsHistoryFold(ops: seq<Op>)
    requires KeepsUnsealed(ops)
    ensures FinalChain(Exec(ops)) == FoldAll(Genesis, Entries(Appended(ops)))
  {
    if ops != [] {
      var init, op := ops[..|ops| - 1], ops[|ops| - 1];
      assert ops == init + [op];
      ChainIsHistoryFold(init);
      HonestRun(init);
      FinalStep(Exec(init), op, SealedBy(init));
      HistoryStep(init, op);
      if op.Append? {
        FoldOneMore(Genesis, Appended(init), Step(Exec(init), op).events[|Exec(init).events|]);
      }
    }
  }

  lemma FoldOneMore(seed: Hash, rows: seq<Row>, r: Row)
    ensures FoldAll(seed, Entries(rows + [r])) == Fold(FoldAll(seed, Entries(rows)), FingerprintOf(r))
  {
    EntriesPrefix(rows + [r], |rows|);
    assert (rows + [r])[..|rows|] == rows;
  }

  /**
    Split invariance: two runs that append the same rows end in the same chain hash once sealed,
    however the seals are batched and whatever sealed rows are purged in between.
  */
  lemma SplitInvariance(ops: seq<Op>, ops': seq<Op>)
    requires KeepsUnsealed(ops) && KeepsUnsealed(ops')
    requires Appended(ops) == Appended(ops')
    ensures PrevChain(AfterSeal(Exec(ops)).checkpoints) == PrevChain(AfterSeal(Exec(ops')).checkpoints)
  {
    ChainIsHistoryFold(ops);
    ChainIsHistoryFold(ops');
    FinalChainIsNextSeal(Exec(ops));
    FinalChainIsNextSeal(Exec(ops'));
  }

  /**
    An anchor exported after sealing pins the history: any store that later verifies with that hash
    carries the fingerprints of exactly the rows appended, in order.
  */
  lemma AnchorPinsHistory(ops: seq<Op>, u: Tables)
    requires KeepsUnsealed(ops) && Appended(ops) != []
    requires Verify(u).ok && Verify(u).lastChainHash == PrevChain(AfterSeal(Exec(ops)).checkpoints)
    ensures Fps(ChainEntries(u, |u.checkpoints|)) == Fps(Entries(Appended(ops)))
  {
    ChainIsHistoryFold(ops);
    FinalChainIsNextSeal(Exec(ops));
    VerifyMeaning(u);
    CheckedMeaning(u, |u.checkpoints|);
    NeverForeign(Entries(Appended(ops)));
    ChainIsFold(u, |u.checkpoints|);
    assert u.checkpoints[..|u.checkpoints|] == u.checkpoints;
    FoldInjective(Genesis, ChainEntries(u, |u.checkpoints|), Entries(Appended(ops)));
  }
}
