/**
  What a store that passes verification says about the rows a run appended: row by row, each under
  its own id.
*/
module AuditEvidence {
  import opened Sequences
  import opened RowFingerprint
  import opened AuditChain
  import opened AuditAnchor
  import opened AuditHistory
  import opened AuditTheorems

  // ---- the rows a run sealed ----

  /** A row of the run, at its own id. */
  ghost predicate IsAppended(ops: seq<Op>, r: Row) {
    1 <= r.id <= |Appended(ops)| && Appended(ops)[r.id - 1] == r
  }

  lemma AppendedStays(init: seq<Op>, op: Op, r: Row)
    requires IsAppended(init, r)
    ensures IsAppended(init + [op], r)
  {
    assert (init + [op])[..|init + [op]| - 1] == init;
  }

  /** Every live row and every sealed row of a run is one it appended, unchanged. */
  lemma {:induction false} RowsAreAppended(ops: seq<Op>)
    ensures forall r :: r in Exec(ops).events || SealedRow(SealedBy(ops), r) ==> IsAppended(ops, r)
  {
    if ops != [] {
      var init, op := ops[..|ops| - 1], ops[|ops| - 1];
      assert ops == init + [op];
      var t := Exec(init);
      RowsAreAppended(init);
      LastIdCounts(init);
      FilterMember(RowAbove(PrevThrough(t.checkpoints)), t.events);
      SealedExtends(SealedBy(init), Unsealed(t));
      if op.Purge? {
        FilterMember(Kept(op.horizon), t.events);
      }
      forall r | r in Exec(ops).events || SealedRow(SealedBy(ops), r) ensures IsAppended(ops, r) {
        if IsAppended(init, r) {
          AppendedStays(init, op, r);
        }
      }
    }
  }

  /** What is still unsealed is the tail of the run's rows. */
  ghost predicate TailUnsealed(t: Tables, rows: seq<Row>) {
    var p := PrevThrough(t.checkpoints);
    0 <= p <= |rows| && Unsealed(t) == rows[p..]
  }

  lemma TailAppend(t: Tables, rows: seq<Row>, r: Row)
    requires TailUnsealed(t, rows) && r.id > PrevThrough(t.checkpoints)
    ensures TailUnsealed(t.(events := t.events + [r], lastId := r.id), rows + [r])
  {
    var p := PrevThrough(t.checkpoints);
    FilterAppend(RowAbove(p), t.events, [r]);
    FilterAll(RowAbove(p), [r]);
    assert (rows + [r])[p..] == rows[p..] + [r];
  }

  lemma TailSeal(t: Tables, rows: seq<Row>)
    requires TailUnsealed(t, rows) && RowsIncreasing(t.events)
    requires forall n :: 0 <= n < |rows| ==> rows[n].id == n + 1
    ensures TailUnsealed(AfterSeal(t), rows)
  {
    if Unsealed(t) != [] {
      NothingAboveLast(t.events, PrevThrough(t.checkpoints));
      assert LastId(Unsealed(t)) == |rows|;
    }
  }

  lemma TailPurge(t: Tables, rows: seq<Row>, horizon: int)
    requires TailUnsealed(t, rows) && forall r :: r in Unsealed(t) ==> r.timestamp >= horizon
    ensures TailUnsealed(AfterPurge(t, horizon), rows)
  {
    FilterMember(RowAbove(PrevThrough(t.checkpoints)), t.events);
    KeptCommutes(t.events, PrevThrough(t.checkpoints), horizon);
  }

  lemma ExecStep(init: seq<Op>, op: Op)
    ensures Exec(init + [op]) == Step(Exec(init), op)
    ensures SealedBy(init + [op]) == if op.Seal? then AddSegment(Exec(init), SealedBy(init)) else SealedBy(init)
    ensures KeepsUnsealed(init + [op]) ==>
              && KeepsUnsealed(init)
              && (op.Purge? ==> forall r :: r in Unsealed(Exec(init)) ==> r.timestamp >= op.horizon)
  {
    assert (init + [op])[..|init + [op]| - 1] == init;
  }

  function RowOf(id: int, op: Op): Row
    requires op.Append?
  {
    Row(id, op.timestamp, op.level, op.source, op.message, op.context)
  }

  lemma AppendedRows(init: seq<Op>, op: Op)
    ensures Appended(init + [op])
            == if op.Append? then Appended(init) + [RowOf(|Appended(init)| + 1, op)] else Appended(init)
  {
    assert (init + [op])[..|init + [op]| - 1] == init;
  }

  lemma TailNext(t: Tables, rows: seq<Row>, op: Op)
    requires RowsIncreasing(t.events) && TailUnsealed(t, rows) && t.lastId == |rows|
    requires forall n :: 0 <= n < |rows| ==> rows[n].id == n + 1
    requires op.Purge? ==> forall r :: r in Unsealed(t) ==> r.timestamp >= op.horizon
    ensures TailUnsealed(Step(t, op), if op.Append? then rows + [RowOf(|rows| + 1, op)] else rows)
  {
    match op
    case Append(_, _, _, _, _) => TailAppend(t, rows, RowOf(|rows| + 1, op));
    case Seal => TailSeal(t, rows);
    case Purge(horizon) => TailPurge(t, rows, horizon);
  }

  lemma RunInOrder(ops: seq<Op>)
    ensures RowsIncreasing(Exec(ops).events) && Exec(ops).lastId == |Appended(ops)|
    ensures forall n :: 0 <= n < |Appended(ops)| ==> Appended(ops)[n].id == n + 1
  {
    HonestRun(ops);
    LastIdCounts(ops);
    AppendedIds(ops);
  }

  lemma TailMoved(t: Tables, rows: seq<Row>, op: Op, u: Tables, longer: seq<Row>)
    requires RowsIncreasing(t.events) && TailUnsealed(t, rows) && t.lastId == |rows|
    requires forall n :: 0 <= n < |rows| ==> rows[n].id == n + 1
    requires op.Purge? ==> forall r :: r in Unsealed(t) ==> r.timestamp >= op.horizon
    requires u == Step(t, op) && longer == if op.Append? then rows + [RowOf(|rows| + 1, op)] else rows
    ensures TailUnsealed(u, longer)
  {
    TailNext(t, rows, op);
  }

  lemma TailStep(init: seq<Op>, op: Op)
    requires KeepsUnsealed(init + [op]) && TailUnsealed(Exec(init), Appended(init))
    ensures TailUnsealed(Exec(init + [op]), Appended(init + [op]))
  {
    ExecStep(init, op);
    AppendedRows(init, op);
    RunInOrder(init);
    TailMoved(Exec(init), Appended(init), op, Exec(init + [op]), Appended(init + [op]));
  }

  /** A run that spares unsealed rows has them all live. */
  lemma {:induction false} UnsealedAreAppended(ops: seq<Op>)
    requires KeepsUnsealed(ops)
    ensures TailUnsealed(Exec(ops), Appended(ops))
  {
    if ops != [] {
      var init, op := ops[..|ops| - 1], ops[|ops| - 1];
      assert ops == init + [op];
      UnsealedAreAppended(init);
      TailStep(init, op);
    }
  }

  lemma {:induction false} AppendedIds(ops: seq<Op>)
    ensures forall n :: 0 <= n < |Appended(ops)| ==> Appended(ops)[n].id == n + 1
  {
    if ops != [] {
      AppendedIds(ops[..|ops| - 1]);
    }
  }

  /** Checkpoints that cut the rows of a run into consecutive slices. */
  ghost predicate Slices(cps: seq<Checkpoint>, segs: seq<seq<Row>>, rows: seq<Row>) {
    && |segs| == |cps|
    && forall k :: 0 <= k < |cps| ==>
         && cps[k].fromId == PrevThrough(cps[..k]) + 1
         && 1 <= cps[k].fromId <= cps[k].throughId <= |rows|
         && segs[k] == rows[cps[k].fromId - 1..cps[k].throughId]
  }

  lemma {:induction false} SegmentsAreSlices(ops: seq<Op>)
    requires KeepsUnsealed(ops)
    ensures Slices(Exec(ops).checkpoints, SealedBy(ops), Appended(ops))
  {
    if ops != [] {
      var init, op := ops[..|ops| - 1], ops[|ops| - 1];
      var t := Exec(init);
      SegmentsAreSlices(init);
      if op.Append? {
        SlicesLonger(t.checkpoints, SealedBy(init), Appended(init), Appended(ops)[|Appended(init)|]);
      } else if op.Seal? && Unsealed(t) != [] {
        UnsealedAreAppended(init);
        AppendedIds(init);
        SlicesNext(t.checkpoints, SealedBy(init), Appended(init));
      }
    }
  }

  lemma SlicesLonger(cps: seq<Checkpoint>, segs: seq<seq<Row>>, rows: seq<Row>, r: Row)
    requires Slices(cps, segs, rows)
    ensures Slices(cps, segs, rows + [r])
  {
    forall k | 0 <= k < |cps|
      ensures segs[k] == (rows + [r])[cps[k].fromId - 1..cps[k].throughId]
    {
      assert rows[cps[k].fromId - 1..cps[k].throughId] == (rows + [r])[cps[k].fromId - 1..cps[k].throughId];
    }
  }

  lemma SlicesNext(cps: seq<Checkpoint>, segs: seq<seq<Row>>, rows: seq<Row>)
    requires Slices(cps, segs, rows) && 0 <= PrevThrough(cps) < |rows|
    requires forall n :: 0 <= n < |rows| ==> rows[n].id == n + 1
    ensures var last := rows[PrevThrough(cps)..];
            Slices(cps + [CheckpointFor(last, PrevChain(cps))], segs + [last], rows)
  {
    var p := PrevThrough(cps);
    var last := rows[p..];
    var cp := CheckpointFor(last, PrevChain(cps));
    assert cp.fromId == p + 1 && cp.throughId == |rows|;
    assert rows[p..|rows|] == last;
    SlicesAdd(cps, segs, rows, cp, last);
  }

  lemma SlicesAdd(cps: seq<Checkpoint>, segs: seq<seq<Row>>, rows: seq<Row>, cp: Checkpoint, last: seq<Row>)
    requires Slices(cps, segs, rows) && cp.fromId == PrevThrough(cps) + 1
    requires 1 <= cp.fromId <= cp.throughId <= |rows| && last == rows[cp.fromId - 1..cp.throughId]
    ensures Slices(cps + [cp], segs + [last], rows)
  {
    var cps' := cps + [cp];
    assert cps'[..|cps|] == cps;
    assert forall k :: 0 <= k < |cps| ==> cps'[..k] == cps[..k];
  }

  // ---- ids in a segment without gaps ----

  /** The ids a checkpoint covers are as many as the rows it sealed. */
  predicate Gapless(cp: Checkpoint) {
    cp.rowCount == cp.throughId - cp.fromId + 1
  }

  /** A store as SQLite returns it: both tables in key order, keys unique. */
  ghost predicate InKeyOrder(t: Tables) {
    RowsIncreasing(t.events) && Increasing(t.retired)
  }

  lemma {:induction false} FullRange(es: seq<Entry>, lo: int, hi: int)
    requires Increasing(es) && |es| == hi - lo + 1 && forall e :: e in es ==> lo <= e.id <= hi
    ensures forall j :: 0 <= j < |es| ==> es[j].id == lo + j
  {
    if es != [] {
      var init, last := es[..|es| - 1], es[|es| - 1];
      assert last in es;
      RoomBelow(es, lo);
      forall e | e in init ensures lo <= e.id <= hi - 1 {
        assert e in es;
        PrefixMember(es);
      }
      FullRange(init, lo, hi - 1);
    }
  }

  lemma {:induction false} RoomBelow(es: seq<Entry>, lo: int)
    requires Increasing(es) && es != [] && forall e :: e in es ==> lo <= e.id
    ensures es[|es| - 1].id >= lo + |es| - 1
  {
    assert es[0] in es;
    if |es| > 1 {
      var init := es[..|es| - 1];
      assert forall e :: e in init ==> e in es;
      RoomBelow(init, lo);
      assert es[|es| - 2].id < es[|es| - 1].id;
    }
  }

  lemma {:induction false} IdsAtMost(es: seq<Entry>)
    ensures |Ids(es)| <= |es|
  {
    if es != [] {
      IdsAtMost(es[..|es| - 1]);
      assert es == es[..|es| - 1] + [es[|es| - 1]];
      assert Ids(es) == Ids(es[..|es| - 1]) + {es[|es| - 1].id};
    }
  }

  /** A merge whose ids are all different joins disjoint lists. */
  lemma DistinctMerge(a: seq<Entry>, b: seq<Entry>)
    requires |Ids(Merge(a, b))| == |Merge(a, b)|
    ensures DisjointIds(a, b)
  {
    MergeMember(a, b);
    IdsAtMost(a);
    IdsAtMost(b);
    assert Ids(Merge(a, b)) == Ids(a) + Ids(b);
    assert |Ids(a) + Ids(b)| == |Ids(a)| + |Ids(b)| - |Ids(a) * Ids(b)|;
    assert Ids(a) * Ids(b) == {};
    forall x, y | x in a && y in b ensures x.id != y.id {
      assert x.id in Ids(a) && y.id in Ids(b);
      assert x.id !in Ids(a) * Ids(b);
    }
  }

  lemma SegmentInRange(u: Tables, cp: Checkpoint)
    ensures forall e :: e in Segment(u, cp) ==> cp.fromId <= e.id <= cp.throughId
    ensures forall e :: e in Segment(u, cp) <==> e in Entries(LiveRows(u, cp)) || e in RetiredEntries(u, cp)
    ensures forall e :: e in RetiredEntries(u, cp) ==> e in u.retired
    ensures forall e :: e in Entries(LiveRows(u, cp)) ==> exists r :: r in u.events && EntryOf(r) == e
  {
    FilterMember(RowWithin(cp.fromId, cp.throughId), u.events);
    FilterMember(EntryWithin(cp.fromId, cp.throughId), u.retired);
    EntriesMember(LiveRows(u, cp));
    MergeMember(Entries(LiveRows(u, cp)), RetiredEntries(u, cp));
  }

  lemma SegmentIncreasing(u: Tables, cp: Checkpoint)
    requires InKeyOrder(u) && |Ids(Segment(u, cp))| == |Segment(u, cp)|
    ensures Increasing(Segment(u, cp))
  {
    var live, gone := LiveRows(u, cp), RetiredEntries(u, cp);
    FilterRowsIncreasing(RowWithin(cp.fromId, cp.throughId), u.events);
    FilterIncreasing(EntryWithin(cp.fromId, cp.throughId), u.retired);
    EntriesMember(live);
    DistinctMerge(Entries(live), gone);
    MergeIncreasing(Entries(live), gone);
  }

  lemma SameEntries(a: seq<Entry>, b: seq<Entry>, lo: int, hi: int)
    requires Fps(a) == Fps(b) && Increasing(a) && Increasing(b) && |a| == hi - lo + 1
    requires (forall e :: e in a ==> lo <= e.id <= hi) && (forall e :: e in b ==> lo <= e.id <= hi)
    ensures a == b
  {
    assert |Fps(a)| == |a| && |Fps(b)| == |b|;
    FullRange(a, lo, hi);
    FullRange(b, lo, hi);
    forall j | 0 <= j < |a| ensures a[j] == b[j] {
      assert Fps(a)[j] == Fps(b)[j];
    }
  }

  lemma IntactSegment(u: Tables, segs: seq<seq<Row>>, k: nat, t: Tables)
    requires Honest(t, segs) && u.checkpoints == t.checkpoints && Verify(u).ok && k < |segs|
    ensures Intact(u, segs, k)
  {
    VerifyIffIntact(t, segs, u);
  }

  lemma SealedEntries(t: Tables, segs: seq<seq<Row>>, k: nat)
    requires Honest(t, segs) && k < |segs|
    ensures Increasing(Entries(segs[k])) && t.checkpoints[k].rowCount == |segs[k]|
    ensures forall e :: e in Entries(segs[k]) ==> t.checkpoints[k].fromId <= e.id <= t.checkpoints[k].throughId
  {
    SegmentIsSealed(t, segs, k);
    SegmentInRange(t, t.checkpoints[k]);
  }

  /** In a store that passes, a segment without gaps holds exactly the sealed entries, ids included. */
  lemma SegmentPinned(t: Tables, segs: seq<seq<Row>>, u: Tables, k: nat)
    requires Honest(t, segs) && u.checkpoints == t.checkpoints && Verify(u).ok && InKeyOrder(u)
    requires k < |segs| && Gapless(t.checkpoints[k])
    ensures Segment(u, t.checkpoints[k]) == Entries(segs[k])
  {
    var cp := t.checkpoints[k];
    IntactSegment(u, segs, k, t);
    SegmentIncreasing(u, cp);
    SegmentInRange(u, cp);
    SealedEntries(t, segs, k);
    assert |Fps(Segment(u, cp))| == |Segment(u, cp)| && |Fps(Entries(segs[k]))| == |segs[k]|;
    SameEntries(Segment(u, cp), Entries(segs[k]), cp.fromId, cp.throughId);
  }

  /** The store still holds the row, or its fingerprint under its id. */
  ghost predicate Accounted(u: Tables, x: Row) {
    (exists r :: r in u.events && EntryOf(r) == EntryOf(x)) || EntryOf(x) in u.retired
  }

  ghost predicate AllAccounted(u: Tables, rows: seq<Row>) {
    forall x :: x in rows ==> Accounted(u, x)
  }

  lemma GaplessAccounted(t: Tables, segs: seq<seq<Row>>, u: Tables, k: nat)
    requires Honest(t, segs) && u.checkpoints == t.checkpoints && Verify(u).ok && InKeyOrder(u)
    requires k < |segs| && Gapless(t.checkpoints[k])
    ensures AllAccounted(u, segs[k])
  {
    SegmentPinned(t, segs, u, k);
    SegmentInRange(u, t.checkpoints[k]);
    EntriesMember(segs[k]);
    forall x | x in segs[k] ensures Accounted(u, x) {
      assert EntryOf(x) in Segment(u, t.checkpoints[k]);
    }
  }

  // ---- a segment with a gap ----

  lemma {:induction false} FindGap(rows: seq<Row>) returns (j: nat)
    requires RowsIncreasing(rows) && rows != [] && LastId(rows) - rows[0].id + 1 > |rows|
    ensures j + 1 < |rows| && rows[j].id + 1 < rows[j + 1].id
  {
    var n := |rows| - 1;
    if n > 0 && rows[n - 1].id + 1 < rows[n].id {
      j := n - 1;
    } else {
      assert n > 0;
      j := FindGap(rows[..n]);
    }
  }

  lemma {:induction false} IdsSpread(rows: seq<Row>)
    requires RowsIncreasing(rows) && rows != []
    ensures LastId(rows) - rows[0].id + 1 >= |rows|
  {
    if |rows| > 1 {
      IdsSpread(rows[..|rows| - 1]);
      assert rows[|rows| - 2].id < rows[|rows| - 1].id;
    }
  }

  /** The entries of a segment with the `j`-th one moved up by one id. */
  function Moved(rows: seq<Row>, j: nat): seq<Entry>
    requires j < |rows|
  {
    Entries(rows)[j := Entry(rows[j].id + 1, FingerprintOf(rows[j]))]
  }

  /** The entries of all segments, the `j`-th of segment `k` moved. */
  function Parts(segs: seq<seq<Row>>, k: nat, j: nat): seq<seq<Entry>>
    requires k < |segs| && j < |segs[k]|
  {
    seq(|segs|, i requires 0 <= i < |segs| => if i == k then Moved(segs[i], j) else Entries(segs[i]))
  }

  function Concat(parts: seq<seq<Entry>>): seq<Entry> {
    if parts == [] then [] else Concat(parts[..|parts| - 1]) + parts[|parts| - 1]
  }

  ghost predicate Between(es: seq<Entry>, lo: int, hi: int) {
    Increasing(es) && forall e :: e in es ==> lo <= e.id <= hi
  }

  lemma MovedId(rows: seq<Row>, j: nat, i: nat)
    requires j < |rows| && i < |rows|
    ensures Moved(rows, j)[i] == Entry(if i == j then rows[j].id + 1 else rows[i].id, FingerprintOf(rows[i]))
  {
  }

  lemma MovedFps(rows: seq<Row>, j: nat)
    requires j < |rows|
    ensures Fps(Moved(rows, j)) == Fps(Entries(rows))
  {
    forall i | 0 <= i < |rows| ensures Moved(rows, j)[i].fp == Entries(rows)[i].fp {
      MovedId(rows, j, i);
    }
  }

  lemma MovedPair(rows: seq<Row>, j: nat, i: nat, k: nat)
    requires RowsIncreasing(rows) && j + 1 < |rows| && rows[j].id + 1 < rows[j + 1].id && i < k < |rows|
    ensures Moved(rows, j)[i].id < Moved(rows, j)[k].id
  {
    MovedId(rows, j, i);
    MovedId(rows, j, k);
    if i == j && k > j + 1 {
      assert rows[j + 1].id < rows[k].id;
    }
  }

  lemma MovedInside(rows: seq<Row>, j: nat, i: nat)
    requires RowsIncreasing(rows) && j + 1 < |rows| && rows[j].id + 1 < rows[j + 1].id && i < |rows|
    ensures rows[0].id <= Moved(rows, j)[i].id <= LastId(rows) && Moved(rows, j)[i].id != rows[j].id
  {
    MovedId(rows, j, i);
    RowsBounded(rows, rows[i]);
    RowsBounded(rows, rows[j + 1]);
  }

  lemma MovedFacts(rows: seq<Row>, j: nat)
    requires RowsIncreasing(rows) && j + 1 < |rows| && rows[j].id + 1 < rows[j + 1].id
    ensures Fps(Moved(rows, j)) == Fps(Entries(rows))
    ensures Between(Moved(rows, j), rows[0].id, LastId(rows))
    ensures forall e :: e in Moved(rows, j) ==> e.id != rows[j].id
  {
    var es := Moved(rows, j);
    MovedFps(rows, j);
    forall i, k | 0 <= i < k < |es| ensures es[i].id < es[k].id {
      MovedPair(rows, j, i, k);
    }
    forall e | e in es ensures rows[0].id <= e.id <= LastId(rows) && e.id != rows[j].id {
      var i :| 0 <= i < |es| && es[i] == e;
      MovedInside(rows, j, i);
    }
  }

  ghost predicate GapAt(segs: seq<seq<Row>>, k: nat, j: nat) {
    k < |segs| && j + 1 < |segs[k]| && segs[k][j].id + 1 < segs[k][j + 1].id
  }

  lemma PartFacts(cps: seq<Checkpoint>, segs: seq<seq<Row>>, k: nat, j: nat, i: nat)
    requires Ranged(cps, segs) && GapAt(segs, k, j) && i < |segs|
    ensures Between(Parts(segs, k, j)[i], cps[i].fromId, cps[i].throughId)
    ensures Fps(Parts(segs, k, j)[i]) == Fps(Entries(segs[i]))
  {
    EntriesMember(segs[i]);
    if i == k {
      MovedFacts(segs[i], j);
    }
  }

  lemma JoinBetween(a: seq<Entry>, b: seq<Entry>, mid: int, lo: int, hi: int)
    requires Between(a, 1, mid) && Between(b, lo, hi) && 1 <= lo <= hi && mid < lo
    ensures Between(a + b, 1, hi)
  {
    forall i, j | 0 <= i < j < |a + b| ensures (a + b)[i].id < (a + b)[j].id {
      if i < |a| <= j {
        assert a[i] in a && b[j - |a|] in b;
      }
    }
  }

  lemma SelectBack(a: seq<Entry>, b: seq<Entry>, mid: int, lo: int, hi: int)
    requires Between(a, 1, mid) && Between(b, lo, hi) && mid < lo
    ensures Filter(EntryWithin(lo, hi), a + b) == b
  {
    FilterAppend(EntryWithin(lo, hi), a, b);
    FilterNone(EntryWithin(lo, hi), a);
    FilterAll(EntryWithin(lo, hi), b);
  }

  lemma SelectFront(a: seq<Entry>, b: seq<Entry>, l: int, h: int, lo: int, hi: int)
    requires Between(b, lo, hi) && h < lo
    ensures Filter(EntryWithin(l, h), a + b) == Filter(EntryWithin(l, h), a)
  {
    FilterAppend(EntryWithin(l, h), a, b);
    FilterNone(EntryWithin(l, h), b);
  }

  /** Lists inside the ranges of checkpoints that follow one another. */
  ghost predicate Tiled(cps: seq<Checkpoint>, parts: seq<seq<Entry>>) {
    && |parts| == |cps|
    && (forall i :: 0 <= i < |parts| ==>
          1 <= cps[i].fromId <= cps[i].throughId && Between(parts[i], cps[i].fromId, cps[i].throughId))
    && (forall i, j :: 0 <= i < j < |cps| ==> cps[i].throughId < cps[j].fromId)
  }

  function Within(cp: Checkpoint): Entry -> bool { EntryWithin(cp.fromId, cp.throughId) }

  lemma {:induction false} ConcatBetween(cps: seq<Checkpoint>, parts: seq<seq<Entry>>)
    requires Tiled(cps, parts)
    ensures Between(Concat(parts), 1, PrevThrough(cps))
  {
    if parts != [] {
      var n := |parts| - 1;
      ConcatBetween(cps[..n], parts[..n]);
      JoinBetween(Concat(parts[..n]), parts[n], PrevThrough(cps[..n]), cps[n].fromId, cps[n].throughId);
    }
  }

  lemma {:induction false} ConcatSelects(cps: seq<Checkpoint>, parts: seq<seq<Entry>>, i: nat)
    requires Tiled(cps, parts) && i < |parts|
    ensures Filter(Within(cps[i]), Concat(parts)) == parts[i]
  {
    var n := |parts| - 1;
    if i == n {
      ConcatBetween(cps[..n], parts[..n]);
      SelectBack(Concat(parts[..n]), parts[n], PrevThrough(cps[..n]), cps[n].fromId, cps[n].throughId);
    } else {
      ConcatSelects(cps[..n], parts[..n], i);
      SelectFront(Concat(parts[..n]), parts[n], cps[i].fromId, cps[i].throughId, cps[n].fromId, cps[n].throughId);
    }
  }

  lemma PartsTiled(cps: seq<Checkpoint>, segs: seq<seq<Row>>, k: nat, j: nat)
    requires Ranged(cps, segs) && GapAt(segs, k, j)
    ensures Tiled(cps, Parts(segs, k, j))
  {
    forall i | 0 <= i < |segs|
      ensures 1 <= cps[i].fromId <= cps[i].throughId
      ensures Between(Parts(segs, k, j)[i], cps[i].fromId, cps[i].throughId)
    {
      PartFacts(cps, segs, k, j, i);
      RangeBelow(cps, segs, i);
    }
  }

  /** Rows all gone, their fingerprints retained, one of them under an id that was never sealed. */
  function ForgedStore(t: Tables, segs: seq<seq<Row>>, k: nat, j: nat): Tables
    requires k < |segs| && j < |segs[k]|
  {
    Tables([], t.lastId, t.checkpoints, Concat(Parts(segs, k, j)))
  }

  lemma ForgedIntact(t: Tables, segs: seq<seq<Row>>, k: nat, j: nat, i: nat)
    requires Ranged(t.checkpoints, segs) && GapAt(segs, k, j) && i < |segs|
    ensures Intact(ForgedStore(t, segs, k, j), segs, i)
  {
    var u, cp, part := ForgedStore(t, segs, k, j), t.checkpoints[i], Parts(segs, k, j)[i];
    PartsTiled(t.checkpoints, segs, k, j);
    ConcatSelects(t.checkpoints, Parts(segs, k, j), i);
    PartFacts(t.checkpoints, segs, k, j, i);
    IdsCardinality(part);
    assert LiveRows(u, cp) == [] && RetiredEntries(u, cp) == part;
    assert Segment(u, cp) == part;
  }

  lemma ForgedPasses(t: Tables, segs: seq<seq<Row>>, k: nat, j: nat)
    requires Honest(t, segs) && GapAt(segs, k, j)
    ensures Verify(ForgedStore(t, segs, k, j)).ok && InKeyOrder(ForgedStore(t, segs, k, j))
  {
    var u := ForgedStore(t, segs, k, j);
    PartsTiled(t.checkpoints, segs, k, j);
    ConcatBetween(t.checkpoints, Parts(segs, k, j));
    forall i | 0 <= i < |segs| ensures Intact(u, segs, i) {
      ForgedIntact(t, segs, k, j, i);
    }
    VerifyIffIntact(t, segs, u);
  }

  lemma ForgedLoses(t: Tables, segs: seq<seq<Row>>, k: nat, j: nat)
    requires Ranged(t.checkpoints, segs) && GapAt(segs, k, j)
    ensures !AllAccounted(ForgedStore(t, segs, k, j), segs[k])
  {
    var u, x, cp := ForgedStore(t, segs, k, j), segs[k][j], t.checkpoints[k];
    PartsTiled(t.checkpoints, segs, k, j);
    ConcatSelects(t.checkpoints, Parts(segs, k, j), k);
    MovedFacts(segs[k], j);
    RowsBounded(segs[k], x);
    NotSelected(u.retired, cp, Moved(segs[k], j), EntryOf(x));
    assert x in segs[k] && !Accounted(u, x);
  }

  lemma NotSelected(es: seq<Entry>, cp: Checkpoint, selected: seq<Entry>, e: Entry)
    requires Filter(Within(cp), es) == selected
    requires cp.fromId <= e.id <= cp.throughId && forall d :: d in selected ==> d.id != e.id
    ensures e !in es
  {
    FilterMember(Within(cp), es);
  }

  /**
    Every store in key order that passes with these checkpoints accounts for each row of a segment
    under its own id, live or retired, if and only if the segment's ids have no gap.
  */
  lemma OwnIdsExactly(t: Tables, segs: seq<seq<Row>>, k: nat)
    requires Honest(t, segs) && k < |segs|
    ensures (forall u: Tables :: u.checkpoints == t.checkpoints && Verify(u).ok && InKeyOrder(u)
                                 ==> AllAccounted(u, segs[k]))
            <==> Gapless(t.checkpoints[k])
  {
    if Gapless(t.checkpoints[k]) {
      forall u: Tables | u.checkpoints == t.checkpoints && Verify(u).ok && InKeyOrder(u)
        ensures AllAccounted(u, segs[k])
      {
        GaplessAccounted(t, segs, u, k);
      }
    } else {
      IdsSpread(segs[k]);
      var j := FindGap(segs[k]);
      ForgedPasses(t, segs, k, j);
      ForgedLoses(t, segs, k, j);
    }
  }

  // ---- the evidence of a run ----

  /** The row with this id is live or its fingerprint is retained, exactly one of the two. */
  ghost predicate ExactlyOnce(u: Tables, x: Row) {
    && Accounted(u, x)
    && (forall r, e :: r in u.events && e in u.retired && r.id == x.id ==> e.id != x.id)
  }

  lemma SliceGapless(cps: seq<Checkpoint>, segs: seq<seq<Row>>, rows: seq<Row>, k: nat)
    requires Slices(cps, segs, rows) && Chained(cps, segs) && k < |cps|
    ensures Gapless(cps[k])
  {
  }

  /** Every sealed id lies in one of the slices. */
  lemma {:induction false} SliceOf(cps: seq<Checkpoint>, segs: seq<seq<Row>>, rows: seq<Row>, n: nat, id: int)
    returns (k: nat)
    requires Slices(cps, segs, rows) && n <= |cps| && 1 <= id <= PrevThrough(cps[..n])
    ensures k < n && cps[k].fromId <= id <= cps[k].throughId
  {
    if id >= cps[n - 1].fromId {
      k := n - 1;
    } else {
      k := SliceOf(cps, segs, rows, n - 1, id);
    }
  }

  lemma UniqueEntries(es: seq<Entry>, d: Entry, e: Entry)
    requires Increasing(es) && d in es && e in es && d.id == e.id
    ensures d == e
  {
    var i :| 0 <= i < |es| && es[i] == d;
    var j :| 0 <= j < |es| && es[j] == e;
  }

  /** Of a row held exactly once, whatever the store has under its id is that row's entry. */
  lemma OnceIsIt(u: Tables, x: Row)
    requires InKeyOrder(u) && ExactlyOnce(u, x)
    ensures forall r :: r in u.events && r.id == x.id ==> EntryOf(r) == EntryOf(x)
    ensures forall e :: e in u.retired && e.id == x.id ==> e == EntryOf(x)
  {
    forall r | r in u.events && r.id == x.id ensures EntryOf(r) == EntryOf(x) {
      if EntryOf(x) !in u.retired {
        var q :| q in u.events && EntryOf(q) == EntryOf(x);
        UniqueIds(u.events, q, r);
      }
    }
    forall e | e in u.retired && e.id == x.id ensures e == EntryOf(x) {
      if EntryOf(x) in u.retired {
        UniqueEntries(u.retired, e, EntryOf(x));
      }
    }
  }

  ghost predicate FillsRange(rows: seq<Row>, cp: Checkpoint) {
    |rows| == cp.throughId - cp.fromId + 1 && forall j :: 0 <= j < |rows| ==> rows[j].id == cp.fromId + j
  }

  lemma SegmentMembers(u: Tables, cp: Checkpoint, rows: seq<Row>, e: Entry)
    requires InKeyOrder(u) && FillsRange(rows, cp) && forall x :: x in rows ==> ExactlyOnce(u, x)
    ensures e in Entries(rows) <==> e in Entries(LiveRows(u, cp)) || e in RetiredEntries(u, cp)
  {
    FilterMember(RowWithin(cp.fromId, cp.throughId), u.events);
    FilterMember(EntryWithin(cp.fromId, cp.throughId), u.retired);
    EntriesMember(LiveRows(u, cp));
    EntriesMember(rows);
    if cp.fromId <= e.id <= cp.throughId {
      var x := rows[e.id - cp.fromId];
      assert x in rows;
      OnceIsIt(u, x);
      assert EntryOf(x) in Entries(rows);
    } else {
      assert e !in Entries(rows);
    }
  }

  lemma SegmentExact(u: Tables, cp: Checkpoint, rows: seq<Row>)
    requires InKeyOrder(u) && FillsRange(rows, cp) && forall x :: x in rows ==> ExactlyOnce(u, x)
    ensures Segment(u, cp) == Entries(rows)
  {
    var live, gone := Entries(LiveRows(u, cp)), RetiredEntries(u, cp);
    FilterRowsIncreasing(RowWithin(cp.fromId, cp.throughId), u.events);
    FilterIncreasing(EntryWithin(cp.fromId, cp.throughId), u.retired);
    FilterMember(RowWithin(cp.fromId, cp.throughId), u.events);
    FilterMember(EntryWithin(cp.fromId, cp.throughId), u.retired);
    EntriesMember(LiveRows(u, cp));
    EntriesMember(rows);
    forall e ensures e in Entries(rows) <==> e in live || e in gone {
      SegmentMembers(u, cp, rows, e);
    }
    forall d, e | d in live && e in gone ensures d.id != e.id {
      var r :| r in LiveRows(u, cp) && EntryOf(r) == d;
      var x := rows[r.id - cp.fromId];
      assert x in rows && ExactlyOnce(u, x);
    }
    SegmentMerge(live, gone, Entries(rows));
  }

  lemma SliceFills(cps: seq<Checkpoint>, segs: seq<seq<Row>>, ops: seq<Op>, k: nat)
    requires Slices(cps, segs, Appended(ops)) && k < |cps|
    ensures FillsRange(segs[k], cps[k])
    ensures forall x :: x in segs[k] ==> IsAppended(ops, x) && x.id <= cps[k].throughId
  {
    AppendedIds(ops);
  }

  /** Sealed rows up to an id, each held exactly once. */
  ghost predicate AllOnce(u: Tables, rows: seq<Row>, through: int) {
    forall n :: 0 <= n < |rows| && n < through ==> ExactlyOnce(u, rows[n])
  }

  /** Within one segment that passes, no id is both live and retired. */
  lemma NeverBoth(u: Tables, cp: Checkpoint, r: Row, e: Entry)
    requires |Ids(Segment(u, cp))| == |Segment(u, cp)|
    requires r in u.events && e in u.retired && cp.fromId <= r.id <= cp.throughId
    ensures r.id != e.id
  {
    DistinctMerge(Entries(LiveRows(u, cp)), RetiredEntries(u, cp));
    FilterMember(RowWithin(cp.fromId, cp.throughId), u.events);
    FilterMember(EntryWithin(cp.fromId, cp.throughId), u.retired);
    EntriesMember(LiveRows(u, cp));
    assert EntryOf(r) in Entries(LiveRows(u, cp));
    assert e.id == r.id ==> e in RetiredEntries(u, cp);
  }

  lemma SegmentOnce(t: Tables, segs: seq<seq<Row>>, u: Tables, k: nat, x: Row)
    requires Honest(t, segs) && u.checkpoints == t.checkpoints && Verify(u).ok && InKeyOrder(u)
    requires k < |segs| && Gapless(t.checkpoints[k]) && x in segs[k]
    ensures ExactlyOnce(u, x)
  {
    var cp := u.checkpoints[k];
    GaplessAccounted(t, segs, u, k);
    RowsBounded(segs[k], x);
    VerifyIffIntact(t, segs, u);
    assert Intact(u, segs, k);
    forall r, e | r in u.events && e in u.retired && r.id == x.id ensures e.id != x.id {
      NeverBoth(u, cp, r, e);
    }
  }

  lemma SliceHolding(cps: seq<Checkpoint>, segs: seq<seq<Row>>, rows: seq<Row>, n: nat) returns (k: nat)
    requires Slices(cps, segs, rows) && n < |rows| && n < PrevThrough(cps)
    ensures k < |segs| == |cps| && rows[n] in segs[k]
  {
    assert cps[..|cps|] == cps;
    k := SliceOf(cps, segs, rows, |cps|, n + 1);
    assert segs[k][n + 1 - cps[k].fromId] == rows[n];
  }

  lemma OnceFromVerify(ops: seq<Op>, u: Tables, n: nat)
    requires KeepsUnsealed(ops) && u.checkpoints == Exec(ops).checkpoints && InKeyOrder(u) && Verify(u).ok
    requires n < |Appended(ops)| && n < PrevThrough(u.checkpoints)
    ensures ExactlyOnce(u, Appended(ops)[n])
  {
    HonestRun(ops);
    SegmentsAreSlices(ops);
    OnceInSlices(Exec(ops), SealedBy(ops), Appended(ops), u, n);
  }

  lemma OnceInSlices(t: Tables, segs: seq<seq<Row>>, rows: seq<Row>, u: Tables, n: nat)
    requires Honest(t, segs) && Slices(t.checkpoints, segs, rows)
    requires u.checkpoints == t.checkpoints && InKeyOrder(u) && Verify(u).ok
    requires n < |rows| && n < PrevThrough(t.checkpoints)
    ensures ExactlyOnce(u, rows[n])
  {
    var k := SliceHolding(t.checkpoints, segs, rows, n);
    SliceGapless(t.checkpoints, segs, rows, k);
    SegmentOnce(t, segs, u, k, rows[n]);
  }

  lemma VerifyFromOnce(ops: seq<Op>, u: Tables)
    requires KeepsUnsealed(ops) && u.checkpoints == Exec(ops).checkpoints && InKeyOrder(u)
    requires AllOnce(u, Appended(ops), PrevThrough(u.checkpoints))
    ensures Verify(u).ok
  {
    var t, segs := Exec(ops), SealedBy(ops);
    HonestRun(ops);
    SegmentsAreSlices(ops);
    forall k | 0 <= k < |segs| ensures Intact(u, segs, k) {
      SliceFills(u.checkpoints, segs, ops, k);
      RangeBelow(u.checkpoints, segs, k);
      forall x | x in segs[k] ensures ExactlyOnce(u, x) {
        assert ExactlyOnce(u, Appended(ops)[x.id - 1]);
      }
      SegmentExact(u, u.checkpoints[k], segs[k]);
      EntriesMember(segs[k]);
      IdsCardinality(Entries(segs[k]));
    }
    VerifyIffIntact(t, segs, u);
  }

  /**
    The evidence of a run whose purges spare unsealed rows: an altered store with its checkpoints
    passes if and only if each appended row up to the last seal is held exactly once, live with its
    fingerprint or retained under its id.
  */
  lemma RunEvidence(ops: seq<Op>, u: Tables)
    requires KeepsUnsealed(ops) && u.checkpoints == Exec(ops).checkpoints && InKeyOrder(u)
    ensures Verify(u).ok <==> AllOnce(u, Appended(ops), PrevThrough(u.checkpoints))
  {
    if Verify(u).ok {
      forall n | 0 <= n < |Appended(ops)| && n < PrevThrough(u.checkpoints)
        ensures ExactlyOnce(u, Appended(ops)[n])
      {
        OnceFromVerify(ops, u, n);
      }
    } else if AllOnce(u, Appended(ops), PrevThrough(u.checkpoints)) {
      VerifyFromOnce(ops, u);
    }
  }

  lemma RunSurvivor(ops: seq<Op>, u: Tables, k: nat, r: Row) returns (x: Row)
    requires u.checkpoints == Exec(ops).checkpoints && Verify(u).ok && r in u.events
    requires k < |u.checkpoints| && u.checkpoints[k].fromId <= r.id <= u.checkpoints[k].throughId
    ensures k < |SealedBy(ops)| && x in SealedBy(ops)[k] && x.id == r.id && FingerprintOf(x) == FingerprintOf(r)
    ensures SeparatorFree(x) || SeparatorFree(r) ==> SameRow(x, r)
  {
    HonestRun(ops);
    x := SurvivorUnmodified(Exec(ops), SealedBy(ops), u, k, r);
  }

  /** In a store that passes, whatever the purges removed, a live row in a sealed range is an appended one. */
  lemma SurvivorIsAppended(ops: seq<Op>, u: Tables, k: nat, r: Row) returns (x: Row)
    requires u.checkpoints == Exec(ops).checkpoints && Verify(u).ok && r in u.events
    requires k < |u.checkpoints| && u.checkpoints[k].fromId <= r.id <= u.checkpoints[k].throughId
    ensures IsAppended(ops, x) && x.id == r.id && FingerprintOf(x) == FingerprintOf(r)
    ensures SeparatorFree(x) || SeparatorFree(r) ==> SameRow(x, r)
  {
    x := RunSurvivor(ops, u, k, r);
    SealedIsAppended(ops, k, x);
  }

  lemma SealedIsAppended(ops: seq<Op>, k: nat, x: Row)
    requires k < |SealedBy(ops)| && x in SealedBy(ops)[k]
    ensures IsAppended(ops, x)
  {
    RowsAreAppended(ops);
    assert SealedRow(SealedBy(ops), x);
  }
}
