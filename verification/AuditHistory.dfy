/** Honest histories: every run of append, seal and purge leaves a store that verifies. */
module AuditHistory {
  import opened Sequences
  import opened RowFingerprint
  import opened AuditChain

  datatype Op =
    | Append(timestamp: int, level: string, source: string, message: string, context: Option<string>)
    | Seal
    | Purge(horizon: int)

  function Step(t: Tables, op: Op): Tables {
    match op
    case Append(timestamp, level, source, message, context) =>
      AfterAppend(t, timestamp, level, source, message, context)
    case Seal => AfterSeal(t)
    case Purge(horizon) => AfterPurge(t, horizon)
  }

  function Exec(ops: seq<Op>): Tables {
    if ops == [] then EMPTY else Step(Exec(ops[..|ops| - 1]), ops[|ops| - 1])
  }

  // ---- key order ----

  ghost predicate Increasing(es: seq<Entry>) {
    forall i, j :: 0 <= i < j < |es| ==> es[i].id < es[j].id
  }

  ghost predicate RowsIncreasing(rows: seq<Row>) {
    forall i, j :: 0 <= i < j < |rows| ==> rows[i].id < rows[j].id
  }

  lemma {:induction false} FilterRowsIncreasing(p: Row -> bool, rows: seq<Row>)
    requires RowsIncreasing(rows)
    ensures RowsIncreasing(Filter(p, rows))
  {
    if rows != [] {
      var n := |rows| - 1;
      FilterRowsIncreasing(p, rows[..n]);
      FilterMember(p, rows[..n]);
      assert forall x :: x in Filter(p, rows[..n]) ==> x.id < rows[n].id;
    }
  }

  lemma {:induction false} FilterIncreasing(p: Entry -> bool, es: seq<Entry>)
    requires Increasing(es)
    ensures Increasing(Filter(p, es))
  {
    if es != [] {
      var n := |es| - 1;
      FilterIncreasing(p, es[..n]);
      FilterMember(p, es[..n]);
      assert forall x :: x in Filter(p, es[..n]) ==> x.id < es[n].id;
    }
  }

  lemma {:induction false} MergeMember(a: seq<Entry>, b: seq<Entry>)
    ensures forall e :: e in Merge(a, b) <==> e in a || e in b
    decreases |a| + |b|
  {
    if a != [] && b != [] {
      if a[0].id <= b[0].id {
        MergeMember(a[1..], b);
        assert a == [a[0]] + a[1..];
      } else {
        MergeMember(a, b[1..]);
        assert b == [b[0]] + b[1..];
      }
    }
  }

  ghost predicate DisjointIds(a: seq<Entry>, b: seq<Entry>) {
    forall x, y :: x in a && y in b ==> x.id != y.id
  }

  lemma ConsIncreasing(x: Entry, es: seq<Entry>)
    requires Increasing(es) && forall e :: e in es ==> x.id < e.id
    ensures Increasing([x] + es)
  {
  }

  lemma TailFacts(a: seq<Entry>)
    requires Increasing(a) && a != []
    ensures Increasing(a[1..]) && (forall e :: e in a[1..] ==> e in a && a[0].id < e.id) && a[0] in a
  {
  }

  lemma {:induction false} MergeIncreasing(a: seq<Entry>, b: seq<Entry>)
    requires Increasing(a) && Increasing(b) && DisjointIds(a, b)
    ensures Increasing(Merge(a, b))
    decreases |a| + |b|
  {
    if a != [] && b != [] {
      TailFacts(a);
      TailFacts(b);
      if a[0].id < b[0].id {
        MergeIncreasing(a[1..], b);
        MergeMember(a[1..], b);
        ConsIncreasing(a[0], Merge(a[1..], b));
      } else {
        MergeIncreasing(a, b[1..]);
        MergeMember(a, b[1..]);
        ConsIncreasing(b[0], Merge(a, b[1..]));
      }
    }
  }

  lemma PrefixMember(a: seq<Entry>)
    requires Increasing(a) && a != []
    ensures forall e :: e in a[..|a| - 1] <==> e in a && e.id < a[|a| - 1].id
    ensures a[|a| - 1] in a && forall e :: e in a ==> e.id <= a[|a| - 1].id
    ensures forall e :: e in a && e.id == a[|a| - 1].id ==> e == a[|a| - 1]
  {
    forall e | e in a && e.id < a[|a| - 1].id
      ensures e in a[..|a| - 1]
    {
      var i :| 0 <= i < |a| && a[i] == e;
      assert a[..|a| - 1][i] == e;
    }
  }

  lemma HasMember(a: seq<Entry>)
    ensures a != [] ==> exists e :: e in a
  {
    if a != [] {
      assert a[0] in a;
    }
  }

  /** A table in key order is determined by which rows it holds. */
  lemma {:induction false} IncreasingUnique(a: seq<Entry>, b: seq<Entry>)
    requires Increasing(a) && Increasing(b)
    requires forall e :: e in a <==> e in b
    ensures a == b
  {
    if a == [] {
      HasMember(b);
    } else {
      assert a[0] in b;
      PrefixMember(a);
      PrefixMember(b);
      var a', b' := a[..|a| - 1], b[..|b| - 1];
      IncreasingUnique(a', b');
      assert a == a' + [a[|a| - 1]] && b == b' + [b[|b| - 1]];
    }
  }

  lemma {:induction false} IdsCardinality(es: seq<Entry>)
    requires Increasing(es)
    ensures |Ids(es)| == |es|
  {
    if es != [] {
      var init, last := es[..|es| - 1], es[|es| - 1];
      IdsCardinality(init);
      PrefixMember(es);
      assert es == init + [last];
      assert last.id !in Ids(init);
      assert Ids(es) == Ids(init) + {last.id};
    }
  }

  // ---- the invariant ----

  ghost predicate SealedRow(segs: seq<seq<Row>>, r: Row) {
    exists i :: 0 <= i < |segs| && r in segs[i]
  }

  ghost predicate RetiredFrom(segs: seq<seq<Row>>, e: Entry) {
    exists r :: SealedRow(segs, r) && EntryOf(r) == e
  }

  ghost predicate Keyed(t: Tables) {
    && RowsIncreasing(t.events) && Increasing(t.retired)
    && (forall r :: r in t.events ==> 1 <= r.id <= t.lastId)
    && 0 <= PrevThrough(t.checkpoints) <= t.lastId
  }

  function LastId(rows: seq<Row>): int
    requires rows != []
  {
    rows[|rows| - 1].id
  }

  ghost predicate Ranged(cps: seq<Checkpoint>, segs: seq<seq<Row>>) {
    && |segs| == |cps|
    && (forall i :: 0 <= i < |segs| ==>
          && segs[i] != [] && RowsIncreasing(segs[i]) && segs[i][0].id >= 1
          && cps[i].fromId == segs[i][0].id && cps[i].throughId == LastId(segs[i]))
    && (forall i, j :: 0 <= i < j < |segs| ==> cps[i].throughId < cps[j].fromId)
  }

  ghost predicate Chained(cps: seq<Checkpoint>, segs: seq<seq<Row>>) {
    && |segs| == |cps|
    && (forall i :: 0 <= i < |segs| ==>
          && cps[i].rowCount == |segs[i]|
          && cps[i].prevChainHash == PrevChain(cps[..i])
          && cps[i].chainHash == FoldAll(cps[i].prevChainHash, Entries(segs[i])))
  }

  ghost predicate NothingLost(t: Tables, segs: seq<seq<Row>>) {
    forall r :: SealedRow(segs, r) ==> r in t.events || EntryOf(r) in t.retired
  }

  ghost predicate NothingAdded(t: Tables, segs: seq<seq<Row>>) {
    && (forall r :: r in t.events && r.id <= PrevThrough(t.checkpoints) ==> SealedRow(segs, r))
    && (forall e :: e in t.retired ==> RetiredFrom(segs, e))
  }

  ghost predicate LiveNotRetired(events: seq<Row>, retired: seq<Entry>) {
    forall r, e :: r in events && e in retired ==> r.id != e.id
  }

  /**
    `segs[k]` is the list of rows that checkpoint `k` sealed. Every sealed row is either still live
    or has its fingerprint retired, never both, and nothing else is live below the last seal.
  */
  ghost predicate Honest(t: Tables, segs: seq<seq<Row>>) {
    && Keyed(t)
    && Ranged(t.checkpoints, segs)
    && Chained(t.checkpoints, segs)
    && NothingLost(t, segs)
    && NothingAdded(t, segs)
    && LiveNotRetired(t.events, t.retired)
  }

  lemma EntriesMember(rows: seq<Row>)
    ensures forall e :: e in Entries(rows) ==> exists r :: r in rows && EntryOf(r) == e
    ensures forall r :: r in rows ==> EntryOf(r) in Entries(rows)
    ensures RowsIncreasing(rows) ==> Increasing(Entries(rows))
  {
    forall r | r in rows ensures EntryOf(r) in Entries(rows) {
      var i :| 0 <= i < |rows| && rows[i] == r;
      assert Entries(rows)[i] == EntryOf(r);
    }
  }

  lemma RowsBounded(rows: seq<Row>, r: Row)
    requires RowsIncreasing(rows) && r in rows
    ensures rows[0].id <= r.id <= LastId(rows)
  {
    var n :| 0 <= n < |rows| && rows[n] == r;
  }

  /** Ids of a sealed row stay inside its segment's range and outside every other segment's. */
  lemma SealedRange(cps: seq<Checkpoint>, segs: seq<seq<Row>>, k: nat, r: Row)
    requires Ranged(cps, segs) && k < |segs| && SealedRow(segs, r)
    ensures r in segs[k] <==> cps[k].fromId <= r.id <= cps[k].throughId
  {
    var i :| 0 <= i < |segs| && r in segs[i];
    RowsBounded(segs[i], r);
    if r in segs[k] {
      RowsBounded(segs[k], r);
    }
  }

  lemma SealedBelow(cps: seq<Checkpoint>, segs: seq<seq<Row>>, r: Row)
    requires Ranged(cps, segs) && SealedRow(segs, r)
    ensures 1 <= r.id <= PrevThrough(cps)
  {
    var i :| 0 <= i < |segs| && r in segs[i];
    RowsBounded(segs[i], r);
    var m := |segs| - 1;
    assert segs[m][0] in segs[m];
    RowsBounded(segs[m], segs[m][0]);
  }

  lemma RangeBelow(cps: seq<Checkpoint>, segs: seq<seq<Row>>, k: nat)
    requires Ranged(cps, segs) && k < |segs|
    ensures 1 <= cps[k].fromId <= cps[k].throughId <= PrevThrough(cps)
  {
    assert segs[k][0] in segs[k];
    RowsBounded(segs[k], segs[k][0]);
    assert segs[k][|segs[k]| - 1] in segs[k] && SealedRow(segs, segs[k][|segs[k]| - 1]);
    SealedBelow(cps, segs, segs[k][|segs[k]| - 1]);
  }

  lemma SegmentElements(t: Tables, segs: seq<seq<Row>>, k: nat, e: Entry)
    requires Keyed(t) && Ranged(t.checkpoints, segs) && NothingLost(t, segs) && NothingAdded(t, segs)
    requires k < |segs|
    ensures e in Entries(segs[k]) <==>
            e in Entries(LiveRows(t, t.checkpoints[k])) || e in RetiredEntries(t, t.checkpoints[k])
  {
    var cp := t.checkpoints[k];
    var live, gone := LiveRows(t, cp), RetiredEntries(t, cp);
    FilterMember(RowWithin(cp.fromId, cp.throughId), t.events);
    FilterMember(EntryWithin(cp.fromId, cp.throughId), t.retired);
    EntriesMember(live);
    EntriesMember(segs[k]);
    if e in Entries(segs[k]) {
      var r :| r in segs[k] && EntryOf(r) == e;
      assert SealedRow(segs, r);
      SealedRange(t.checkpoints, segs, k, r);
      assert r in t.events ==> r in live;
    } else if e in Entries(live) {
      var r :| r in live && EntryOf(r) == e;
      RangeBelow(t.checkpoints, segs, k);
      assert SealedRow(segs, r);
      SealedRange(t.checkpoints, segs, k, r);
    } else if e in gone {
      var r :| SealedRow(segs, r) && EntryOf(r) == e;
      SealedRange(t.checkpoints, segs, k, r);
    }
  }

  /** Live rows and retired fingerprints partition each sealed segment, exactly. */
  lemma SegmentIsSealed(t: Tables, segs: seq<seq<Row>>, k: nat)
    requires Honest(t, segs) && k < |segs|
    ensures Segment(t, t.checkpoints[k]) == Entries(segs[k])
    ensures DisjointIds(Entries(LiveRows(t, t.checkpoints[k])), RetiredEntries(t, t.checkpoints[k]))
    ensures Increasing(Entries(segs[k]))
  {
    var cp := t.checkpoints[k];
    var live, gone := LiveRows(t, cp), RetiredEntries(t, cp);
    FilterRowsIncreasing(RowWithin(cp.fromId, cp.throughId), t.events);
    FilterMember(RowWithin(cp.fromId, cp.throughId), t.events);
    FilterIncreasing(EntryWithin(cp.fromId, cp.throughId), t.retired);
    FilterMember(EntryWithin(cp.fromId, cp.throughId), t.retired);
    EntriesMember(live);
    EntriesMember(segs[k]);
    SegmentMerge(Entries(live), gone, Entries(segs[k])) by {
      forall e ensures e in Entries(segs[k]) <==> e in Entries(live) || e in gone {
        SegmentElements(t, segs, k, e);
      }
    }
  }

  lemma SegmentMerge(a: seq<Entry>, b: seq<Entry>, c: seq<Entry>)
    requires Increasing(a) && Increasing(b) && Increasing(c) && DisjointIds(a, b)
    requires forall e :: e in c <==> e in a || e in b
    ensures Merge(a, b) == c
  {
    MergeIncreasing(a, b);
    MergeMember(a, b);
    IncreasingUnique(c, Merge(a, b));
  }

  // ---- preservation ----

  lemma AppendKeyed(t: Tables, u: Tables, r: Row)
    requires Keyed(t) && r.id == t.lastId + 1
    requires u == t.(events := t.events + [r], lastId := r.id)
    ensures Keyed(u)
  {
    forall i | 0 <= i < |t.events| ensures t.events[i].id < r.id {
      assert t.events[i] in t.events;
    }
  }

  lemma AppendAccounts(t: Tables, u: Tables, segs: seq<seq<Row>>, r: Row)
    requires NothingLost(t, segs) && NothingAdded(t, segs) && r.id > PrevThrough(t.checkpoints)
    requires u == t.(events := t.events + [r], lastId := r.id)
    ensures NothingLost(u, segs) && NothingAdded(u, segs)
  {
    forall x | SealedRow(segs, x) ensures x in u.events || EntryOf(x) in u.retired {
      assert x in t.events || EntryOf(x) in t.retired;
    }
  }

  lemma AppendNotRetired(t: Tables, segs: seq<seq<Row>>, r: Row)
    requires Honest(t, segs) && r.id == t.lastId + 1
    ensures LiveNotRetired(t.events + [r], t.retired)
  {
    forall e | e in t.retired ensures e.id < r.id {
      var z :| SealedRow(segs, z) && EntryOf(z) == e;
      SealedBelow(t.checkpoints, segs, z);
    }
  }

  lemma HonestAppend(t: Tables, segs: seq<seq<Row>>, op: Op)
    requires Honest(t, segs) && op.Append?
    ensures Honest(Step(t, op), segs)
  {
    var r := Row(t.lastId + 1, op.timestamp, op.level, op.source, op.message, op.context);
    var u := t.(events := t.events + [r], lastId := r.id);
    AppendKeyed(t, u, r);
    AppendAccounts(t, u, segs, r);
    AppendNotRetired(t, segs, r);
  }

  lemma SealRanged(cps: seq<Checkpoint>, segs: seq<seq<Row>>, rows: seq<Row>)
    requires Ranged(cps, segs) && rows != [] && RowsIncreasing(rows)
    requires rows[0].id > PrevThrough(cps) >= 0
    ensures Ranged(cps + [CheckpointFor(rows, PrevChain(cps))], segs + [rows])
  {
    var cps', segs' := cps + [CheckpointFor(rows, PrevChain(cps))], segs + [rows];
    forall i, j | 0 <= i < j < |segs'| ensures cps'[i].throughId < cps'[j].fromId {
      if j == |segs| {
        RangeBelow(cps, segs, i);
      }
    }
  }

  lemma SealChained(cps: seq<Checkpoint>, segs: seq<seq<Row>>, rows: seq<Row>)
    requires Chained(cps, segs) && rows != []
    ensures Chained(cps + [CheckpointFor(rows, PrevChain(cps))], segs + [rows])
  {
    var cps', segs' := cps + [CheckpointFor(rows, PrevChain(cps))], segs + [rows];
    forall i | 0 <= i < |segs'|
      ensures cps'[i].prevChainHash == PrevChain(cps'[..i])
      ensures cps'[i].chainHash == FoldAll(cps'[i].prevChainHash, Entries(segs'[i]))
    {
      assert cps'[..i] == cps[..i];
      assert cps[..|cps|] == cps;
    }
  }

  lemma SealedExtends(segs: seq<seq<Row>>, rows: seq<Row>)
    ensures forall r :: SealedRow(segs + [rows], r) <==> SealedRow(segs, r) || r in rows
    ensures forall e :: RetiredFrom(segs, e) ==> RetiredFrom(segs + [rows], e)
  {
    var segs' := segs + [rows];
    forall r ensures SealedRow(segs', r) <==> SealedRow(segs, r) || r in rows {
      assert segs'[|segs|] == rows;
      if SealedRow(segs, r) {
        var i :| 0 <= i < |segs| && r in segs[i];
        assert r in segs'[i];
      }
    }
  }

  lemma SealAccounts(t: Tables, segs: seq<seq<Row>>, rows: seq<Row>, u: Tables)
    requires NothingLost(t, segs) && NothingAdded(t, segs)
    requires u.events == t.events && u.retired == t.retired
    requires forall r :: r in rows <==> r in t.events && r.id > PrevThrough(t.checkpoints)
    ensures NothingLost(u, segs + [rows]) && NothingAdded(u, segs + [rows])
  {
    SealedExtends(segs, rows);
  }

  /** The segments after a seal: one more, the rows just sealed, unless there were none. */
  function AddSegment(t: Tables, segs: seq<seq<Row>>): seq<seq<Row>> {
    if Unsealed(t) == [] then segs else segs + [Unsealed(t)]
  }

  lemma HonestSeal(t: Tables, segs: seq<seq<Row>>)
    requires Honest(t, segs)
    ensures Honest(AfterSeal(t), AddSegment(t, segs))
  {
    var rows, p := Unsealed(t), PrevThrough(t.checkpoints);
    if rows != [] {
      FilterRowsIncreasing(RowAbove(p), t.events);
      FilterMember(RowAbove(p), t.events);
      assert rows[0] in rows && rows[|rows| - 1] in rows;
      SealRanged(t.checkpoints, segs, rows);
      SealChained(t.checkpoints, segs, rows);
      SealAccounts(t, segs, rows, AfterSeal(t));
    }
  }

  lemma {:induction false} LastSealedIsLast(cps: seq<Checkpoint>)
    requires forall i, j :: 0 <= i < j < |cps| ==> cps[i].throughId < cps[j].throughId
    ensures LastSealed(cps) == PrevThrough(cps)
  {
    if |cps| > 1 {
      LastSealedIsLast(cps[..|cps| - 1]);
    }
  }

  lemma RetiringMember(t: Tables, horizon: int, p: int)
    requires LastSealed(t.checkpoints) == p && RowsIncreasing(t.events)
    ensures forall e :: e in Retiring(t, horizon) ==>
              exists r :: r in t.events && r.timestamp < horizon && r.id <= p && EntryOf(r) == e
    ensures forall r :: r in t.events && r.timestamp < horizon && r.id <= p ==> EntryOf(r) in Retiring(t, horizon)
    ensures Increasing(Retiring(t, horizon))
  {
    FilterMember(ExpiredSealed(horizon, p), t.events);
    FilterRowsIncreasing(ExpiredSealed(horizon, p), t.events);
    EntriesMember(Filter(ExpiredSealed(horizon, p), t.events));
  }

  lemma UniqueIds(rows: seq<Row>, r: Row, s: Row)
    requires RowsIncreasing(rows) && r in rows && s in rows && r.id == s.id
    ensures r == s
  {
    var i :| 0 <= i < |rows| && rows[i] == r;
    var j :| 0 <= j < |rows| && rows[j] == s;
  }

  lemma PurgeTables(t: Tables, horizon: int)
    requires Keyed(t) && LiveNotRetired(t.events, t.retired)
    requires LastSealed(t.checkpoints) == PrevThrough(t.checkpoints)
    ensures !PurgeConflict(t, horizon)
    ensures Keyed(AfterPurge(t, horizon))
    ensures LiveNotRetired(AfterPurge(t, horizon).events, AfterPurge(t, horizon).retired)
  {
    var p := PrevThrough(t.checkpoints);
    var stored, kept := Retiring(t, horizon), Filter(Kept(horizon), t.events);
    RetiringMember(t, horizon, p);
    FilterMember(Kept(horizon), t.events);
    FilterRowsIncreasing(Kept(horizon), t.events);
    assert DisjointIds(t.retired, stored);
    assert Ids(t.retired) * Ids(stored) == {};
    MergeMember(t.retired, stored);
    MergeIncreasing(t.retired, stored);
    forall r, e | r in kept && e in Merge(t.retired, stored)
      ensures r.id != e.id
    {
      if e in stored {
        var s :| s in t.events && s.timestamp < horizon && s.id <= p && EntryOf(s) == e;
        if r.id == s.id {
          UniqueIds(t.events, r, s);
        }
      }
    }
  }

  lemma HonestPurge(t: Tables, segs: seq<seq<Row>>, horizon: int)
    requires Honest(t, segs)
    ensures !PurgeConflict(t, horizon)
    ensures Honest(AfterPurge(t, horizon), segs)
  {
    forall i, j | 0 <= i < j < |segs|
      ensures t.checkpoints[i].throughId < t.checkpoints[j].throughId
    {
      RangeBelow(t.checkpoints, segs, j);
    }
    LastSealedIsLast(t.checkpoints);
    PurgeTables(t, horizon);
    var u := AfterPurge(t, horizon);
    RetiringMember(t, horizon, PrevThrough(t.checkpoints));
    FilterMember(Kept(horizon), t.events);
    MergeMember(t.retired, Retiring(t, horizon));
    forall r | SealedRow(segs, r) ensures r in u.events || EntryOf(r) in u.retired {
      SealedBelow(t.checkpoints, segs, r);
    }
    forall e | e in u.retired ensures RetiredFrom(segs, e) {
      if e in Retiring(t, horizon) {
        var r :| r in t.events && r.id <= PrevThrough(t.checkpoints) && EntryOf(r) == e;
        assert SealedRow(segs, r);
      }
    }
    assert NothingLost(u, segs);
    assert NothingAdded(u, segs);
  }

  /** For each checkpoint of a run, the rows that were live above the last seal when it was made. */
  function SealedBy(ops: seq<Op>): seq<seq<Row>> {
    if ops == [] then []
    else var init := ops[..|ops| - 1];
         if ops[|ops| - 1].Seal? then AddSegment(Exec(init), SealedBy(init)) else SealedBy(init)
  }

  lemma {:induction false} HonestRun(ops: seq<Op>)
    ensures Honest(Exec(ops), SealedBy(ops))
  {
    if ops != [] {
      var init, op := ops[..|ops| - 1], ops[|ops| - 1];
      HonestRun(init);
      match op
      case Append(_, _, _, _, _) => HonestAppend(Exec(init), SealedBy(init), op);
      case Seal => HonestSeal(Exec(init), SealedBy(init));
      case Purge(horizon) => HonestPurge(Exec(init), SealedBy(init), horizon);
    }
  }
}
