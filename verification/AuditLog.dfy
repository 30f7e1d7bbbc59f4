/** The audit store as the program keeps it: tables updated in place, loops and all. */
module AuditLog {
  import opened Sequences
  import opened RowFingerprint
  import opened AuditChain
  import opened AuditHistory
  import opened AuditTheorems
  import opened AuditAnchor
  import opened AuditReport

  /** No row, live, retired or sealed, has ever had this id. */
  ghost predicate NeverUsed(t: Tables, segs: seq<seq<Row>>, id: int) {
    && (forall r :: r in t.events || SealedRow(segs, r) ==> r.id < id)
    && (forall e :: e in t.retired ==> e.id < id)
  }

  lemma NextIdIsNew(t: Tables, segs: seq<seq<Row>>)
    requires Honest(t, segs)
    ensures NeverUsed(t, segs, t.lastId + 1)
  {
    forall r | SealedRow(segs, r) ensures r.id <= t.lastId {
      SealedBelow(t.checkpoints, segs, r);
    }
    forall e | e in t.retired ensures e.id <= t.lastId {
      var r :| SealedRow(segs, r) && EntryOf(r) == e;
    }
  }

  // ---- what a purge does ----

  /** At or below the highest id any checkpoint covers. */
  ghost predicate BelowLastSeal(t: Tables, r: Row) {
    if t.checkpoints == [] then r.id <= 0 else exists cp :: cp in t.checkpoints && r.id <= cp.throughId
  }

  /** A row old enough to go, whose fingerprint is to be kept. */
  ghost predicate ToRetire(t: Tables, r: Row, horizon: int) {
    r in t.events && r.timestamp < horizon && BelowLastSeal(t, r)
  }

  /** Exactly the old rows are gone, and exactly the sealed ones among them left their fingerprints. */
  ghost predicate PurgedExactly(t: Tables, u: Tables, horizon: int) {
    && u.events == Filter((r: Row) => r.timestamp >= horizon, t.events)
    && (forall r :: r in u.events <==> r in t.events && r.timestamp >= horizon)
    && (forall e :: e in u.retired <==> e in t.retired || exists r :: ToRetire(t, r, horizon) && e == EntryOf(r))
    && |u.retired| == |t.retired| + |Filter(ExpiredSealed(horizon, LastSealed(t.checkpoints)), t.events)|
    && u.checkpoints == t.checkpoints && u.lastId == t.lastId
  }

  lemma {:induction false} LastSealedMeaning(cps: seq<Checkpoint>)
    ensures cps == [] ==> LastSealed(cps) == 0
    ensures forall cp :: cp in cps ==> cp.throughId <= LastSealed(cps)
    ensures cps != [] ==> exists cp :: cp in cps && cp.throughId == LastSealed(cps)
  {
    if cps != [] {
      var init, last := cps[..|cps| - 1], cps[|cps| - 1];
      assert cps == init + [last] && last in cps;
      LastSealedMeaning(init);
      if |cps| > 1 {
        var cp :| cp in init && cp.throughId == LastSealed(init);
        assert cp in cps;
      }
    }
  }

  lemma SealedMeaning(t: Tables, r: Row)
    ensures r.id <= LastSealed(t.checkpoints) <==> BelowLastSeal(t, r)
  {
    LastSealedMeaning(t.checkpoints);
  }

  lemma RetiringMeaning(t: Tables, horizon: int, e: Entry)
    ensures e in Retiring(t, horizon) <==> exists r :: ToRetire(t, r, horizon) && e == EntryOf(r)
  {
    var going := Filter(ExpiredSealed(horizon, LastSealed(t.checkpoints)), t.events);
    FilterMember(ExpiredSealed(horizon, LastSealed(t.checkpoints)), t.events);
    EntriesMember(going);
    if e in Retiring(t, horizon) {
      var r :| r in going && EntryOf(r) == e;
      SealedMeaning(t, r);
      assert ToRetire(t, r, horizon);
    }
    if r :| ToRetire(t, r, horizon) && e == EntryOf(r) {
      SealedMeaning(t, r);
      assert r in going;
    }
  }

  /** Some row to retire has the id of a fingerprint retired before. */
  ghost predicate Clash(t: Tables, horizon: int) {
    exists r, e :: ToRetire(t, r, horizon) && e in t.retired && e.id == r.id
  }

  /** The purge transaction, row by row; a conflict is a row to retire whose id is already retired. */
  lemma PurgeMeaning(t: Tables, retentionDays: int, now: int)
    ensures var horizon := Horizon(retentionDays, now);
            && horizon == now - retentionDays * 86400 * 4194304
            && (PurgeConflict(t, horizon) <==> Clash(t, horizon))
            && (!PurgeConflict(t, horizon) ==> PurgedExactly(t, AfterPurge(t, horizon), horizon))
            && (PurgeConflict(t, horizon) ==> AfterPurge(t, horizon) == t)
  {
    var horizon := Horizon(retentionDays, now);
    ConflictMeaning(t, horizon);
    if !PurgeConflict(t, horizon) {
      PurgeRows(t, horizon);
    }
  }

  lemma PurgeReport(t: Tables, retentionDays: int, now: int)
    ensures var horizon, outcome := now - retentionDays * 86400 * 4194304, PurgeOutcome(t, Horizon(retentionDays, now));
            && (outcome == ConstraintFailed <==> Clash(t, horizon))
            && (outcome == ConstraintFailed ==> AfterPurge(t, Horizon(retentionDays, now)) == t)
            && (outcome != ConstraintFailed ==>
                  && PurgedExactly(t, AfterPurge(t, Horizon(retentionDays, now)), horizon)
                  && outcome == Purged(|t.events| - |AfterPurge(t, Horizon(retentionDays, now)).events|))
  {
    PurgeMeaning(t, retentionDays, now);
  }

  lemma ConflictMeaning(t: Tables, horizon: int)
    ensures PurgeConflict(t, horizon) <==> Clash(t, horizon)
  {
    if PurgeConflict(t, horizon) {
      var id :| id in Ids(t.retired) * Ids(Retiring(t, horizon));
      var e :| e in t.retired && e.id == id;
      var d :| d in Retiring(t, horizon) && d.id == id;
      RetiringMeaning(t, horizon, d);
      var r :| ToRetire(t, r, horizon) && d == EntryOf(r);
      assert ToRetire(t, r, horizon) && e in t.retired && e.id == r.id;
    }
    if r, e :| ToRetire(t, r, horizon) && e in t.retired && e.id == r.id {
      RetiringMeaning(t, horizon, EntryOf(r));
      assert r.id in Ids(t.retired) && r.id in Ids(Retiring(t, horizon));
      assert r.id in Ids(t.retired) * Ids(Retiring(t, horizon));
    }
  }

  lemma PurgeRows(t: Tables, horizon: int)
    requires !PurgeConflict(t, horizon)
    ensures PurgedExactly(t, AfterPurge(t, horizon), horizon)
  {
    FilterMember(Kept(horizon), t.events);
    FilterSame(Kept(horizon), (r: Row) => r.timestamp >= horizon, t.events);
    MergeMember(t.retired, Retiring(t, horizon));
    forall e
      ensures e in AfterPurge(t, horizon).retired
              <==> e in t.retired || exists r :: ToRetire(t, r, horizon) && e == EntryOf(r)
    {
      RetiringMeaning(t, horizon, e);
    }
  }

  // ---- what a seal does ----

  /** The new checkpoint spans exactly the live rows above the last one, linked to its chain hash. */
  ghost predicate SealedExactly(t: Tables, u: Tables, rows: seq<Row>) {
    if rows == [] then u == t
    else
      && |u.checkpoints| == |t.checkpoints| + 1
      && u == t.(checkpoints := t.checkpoints + [u.checkpoints[|t.checkpoints|]])
      && var cp := u.checkpoints[|t.checkpoints|];
         && cp.rowCount == |rows| && cp.fromId == rows[0].id && cp.throughId == rows[|rows| - 1].id
         && cp.prevChainHash == (if t.checkpoints == [] then Genesis else t.checkpoints[|t.checkpoints| - 1].chainHash)
         && cp.chainHash == FoldAll(cp.prevChainHash, Entries(rows))
  }

  /** Sealing covers the live rows above the highest id of the last checkpoint, or above 0. */
  lemma SealMeaning(t: Tables)
    ensures var through := if t.checkpoints == [] then 0 else t.checkpoints[|t.checkpoints| - 1].throughId;
            SealedExactly(t, AfterSeal(t), Filter((r: Row) => r.id > through, t.events))
  {
    var through := if t.checkpoints == [] then 0 else t.checkpoints[|t.checkpoints| - 1].throughId;
    FilterSame(RowAbove(PrevThrough(t.checkpoints)), (r: Row) => r.id > through, t.events);
  }

  /** The SQLite tables behind logs/integrity.py and logs/maintenance.py. */
  class AuditStore {
    var events: seq<Row>
    var lastId: int
    var checkpoints: seq<Checkpoint>
    var retired: seq<Entry>
    /** For each checkpoint, the rows it sealed. */
    ghost var segments: seq<seq<Row>>

    function View(): Tables
      reads this
    {
      Tables(events, lastId, checkpoints, retired)
    }

    /** No hand but the methods below has touched the tables. */
    ghost predicate Valid()
      reads this
    {
      Honest(View(), segments)
    }

    constructor ()
      ensures View() == EMPTY && segments == [] && Valid()
    {
      events, lastId, checkpoints, retired := [], 0, [], [];
      segments := [];
    }

    method Append(timestamp: int, level: string, source: string, message: string, context: Option<string>)
      modifies this
      ensures View() == AfterAppend(old(View()), timestamp, level, source, message, context)
      ensures segments == old(segments)
      ensures old(Valid()) ==> Valid() && NeverUsed(old(View()), old(segments), lastId)
    {
      ghost var t := View();
      if Valid() {
        HonestAppend(t, segments, Op.Append(timestamp, level, source, message, context));
        NextIdIsNew(t, segments);
      }
      lastId := lastId + 1;
      events := events + [Row(lastId, timestamp, level, source, message, context)];
    }

    method Seal() returns (r: SealResult)
      modifies this`checkpoints, this`segments
      ensures View() == AfterSeal(old(View())) && segments == AddSegment(old(View()), old(segments))
      ensures old(Valid()) ==> Valid()
      ensures r == if Unsealed(old(View())) == [] then NothingToSeal
                   else var cp := checkpoints[|checkpoints| - 1];
                        Sealed(cp.fromId, cp.throughId, cp.rowCount, cp.chainHash)
    {
      if Valid() {
        HonestSeal(View(), segments);
      }
      segments := AddSegment(View(), segments);
      r := SealNew();
    }

    method SealNew() returns (r: SealResult)
      modifies this`checkpoints
      ensures View() == AfterSeal(old(View()))
      ensures r == if Unsealed(old(View())) == [] then NothingToSeal
                   else var cp := checkpoints[|checkpoints| - 1];
                        Sealed(cp.fromId, cp.throughId, cp.rowCount, cp.chainHash)
    {
      ghost var t := View();
      var prevThrough, prevChain := 0, Genesis;
      if checkpoints != [] {
        var last := checkpoints[|checkpoints| - 1];
        prevThrough, prevChain := last.throughId, last.chainHash;
      }
      assert prevThrough == PrevThrough(checkpoints) && prevChain == PrevChain(checkpoints);
      var rows := Filter(RowAbove(prevThrough), events);
      assert rows == Unsealed(t);
      if rows == [] {
        return NothingToSeal;
      }
      var running := FoldRows(prevChain, rows);
      var fromId, throughId := rows[0].id, rows[|rows| - 1].id;
      var cp := Checkpoint(fromId, throughId, |rows|, running, prevChain);
      checkpoints := checkpoints + [cp];
      r := Sealed(fromId, throughId, |rows|, running);
    }

    method PurgeOldEvents(retentionDays: int, now: int) returns (r: PurgeResult)
      modifies this`events, this`retired
      ensures old(Valid()) ==> Valid() && r != ConstraintFailed
      ensures retentionDays < 1 ==> r == InvalidRetention && View() == old(View())
      ensures retentionDays >= 1 ==>
        && View() == AfterPurge(old(View()), Horizon(retentionDays, now))
        && r == PurgeOutcome(old(View()), Horizon(retentionDays, now))
      ensures retentionDays >= 1 ==>
        (r == ConstraintFailed <==> Clash(old(View()), now - retentionDays * 86400 * 4194304))
      ensures r == ConstraintFailed ==> View() == old(View())
      ensures retentionDays >= 1 && r != ConstraintFailed ==>
        PurgedExactly(old(View()), View(), now - retentionDays * 86400 * 4194304)
        && r == Purged(|old(events)| - |events|)
    {
      if retentionDays < 1 {
        return InvalidRetention;
      }
      var horizon := Horizon(retentionDays, now);
      ghost var t := View();
      if Valid() {
        HonestPurge(t, segments, horizon);
      }
      PurgeReport(t, retentionDays, now);
      r := Retire(horizon);
      assert View() == AfterPurge(t, horizon);
    }

    method Retire(horizon: int) returns (r: PurgeResult)
      modifies this`events, this`retired
      ensures View() == AfterPurge(old(View()), horizon)
      ensures r == PurgeOutcome(old(View()), horizon)
    {
      var rows := Filter(ExpiredSealed(horizon, LastSealed(checkpoints)), events);
      var stored := Fingerprints(rows);
      if Ids(retired) * Ids(stored) != {} {
        return ConstraintFailed;
      }
      retired := Merge(retired, stored);
      var before := |events|;
      events := Filter(Kept(horizon), events);
      r := Purged(before - |events|);
    }

    method VerifySegment(k: nat, seeded: VerifyResult) returns (r: VerifyResult)
      requires k < |checkpoints|
      ensures r == CheckSegment(View(), k, seeded)
    {
      r := seeded;
      var cp := checkpoints[k];
      var rows := Filter(RowWithin(cp.fromId, cp.throughId), events);
      var gone := Filter(EntryWithin(cp.fromId, cp.throughId), retired);
      var fingerprints := Merge(Entries(rows), gone);
      var running := FoldEntries(cp.prevChainHash, fingerprints);
      if |fingerprints| != cp.rowCount || |Ids(fingerprints)| != |fingerprints| {
        r := r.(ok := false, failures := r.failures + [CountMismatch(k, |fingerprints|)]);
      } else if running != cp.chainHash {
        r := r.(ok := false, failures := r.failures + [HashMismatch(k)]);
      } else if rows == [] {
        r := r.(agedOut := r.agedOut + 1);
      } else {
        r := r.(verified := r.verified + 1);
        if gone != [] {
          r := r.(partial := r.partial + 1);
        }
      }
    }

    method VerifyAuditLog() returns (r: VerifyResult)
      ensures r == Verify(View())
      ensures Valid() ==> r.ok && r.failures == [] && r.verified + r.agedOut == |checkpoints|
      ensures Counted(View(), |checkpoints|, r) && Reported(View(), |checkpoints|, r.failures)
    {
      VerifyCounts(View());
      VerifyFindings(View());
      if Valid() {
        HonestPasses(View(), segments);
      }
      r := CheckAll();
    }

    method CheckAll() returns (r: VerifyResult)
      ensures r == Verify(View())
    {
      ghost var t := View();
      r := VerifyResult(true, |checkpoints|, 0, 0, 0, 0, [], ForeignHash(""));
      if checkpoints == [] {
        return;
      }
      var prevChain := Genesis;
      for k := 0 to |checkpoints|
        invariant prevChain == PrevChain(t.checkpoints[..k])
        invariant r == Checked(t, k) && r.unsealedEvents == 0
      {
        var cp := checkpoints[k];
        if cp.prevChainHash != prevChain {
          r := r.(ok := false, failures := r.failures + [SeedBroken(k)]);
        }
        assert r == CheckSeed(t, k, Checked(t, k));
        prevChain := cp.chainHash;
        r := VerifySegment(k, r);
      }
      assert t.checkpoints[..|checkpoints|] == t.checkpoints;
      var last := checkpoints[|checkpoints| - 1];
      r := r.(lastChainHash := last.chainHash);
      assert last.throughId == PrevThrough(t.checkpoints);
      assert r == Checked(t, |t.checkpoints|).(lastChainHash := PrevChain(t.checkpoints));
      if events != [] && events[|events| - 1].id > last.throughId {
        r := r.(unsealedEvents := |Filter(RowAbove(last.throughId), events)|);
      }
    }
  }

  /** The fingerprints of the rows a purge retires. */
  method Fingerprints(rows: seq<Row>) returns (stored: seq<Entry>)
    ensures stored == Entries(rows)
  {
    stored := [];
    for i := 0 to |rows|
      invariant |stored| == i && forall j :: 0 <= j < i ==> stored[j] == EntryOf(rows[j])
    {
      stored := stored + [Entry(rows[i].id, FingerprintOf(rows[i]))];
    }
  }

  lemma FoldPrefix(seed: Hash, rows: seq<Row>, i: nat)
    requires i < |rows|
    ensures FoldAll(seed, Entries(rows[..i + 1])) == Fold(FoldAll(seed, Entries(rows[..i])), FingerprintOf(rows[i]))
  {
    assert rows[..i + 1] == rows[..i] + [rows[i]];
    FoldOneMore(seed, rows[..i], rows[i]);
  }

  /** The fold of newly sealed rows. */
  method FoldRows(seed: Hash, rows: seq<Row>) returns (running: Hash)
    ensures running == FoldAll(seed, Entries(rows))
  {
    running := seed;
    for i := 0 to |rows|
      invariant running == FoldAll(seed, Entries(rows[..i]))
    {
      running := Fold(running, FingerprintOf(rows[i]));
      FoldPrefix(seed, rows, i);
    }
    assert rows[..|rows|] == rows;
  }

  /** The inner fold of one segment. */
  method FoldEntries(seed: Hash, es: seq<Entry>) returns (running: Hash)
    ensures running == FoldAll(seed, es)
  {
    running := seed;
    for i := 0 to |es|
      invariant running == FoldAll(seed, es[..i])
    {
      running := Fold(running, es[i].fp);
      assert es[..i + 1][..i] == es[..i];
    }
    assert es[..|es|] == es;
  }
}
