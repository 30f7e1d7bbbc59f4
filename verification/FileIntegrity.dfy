/** CREATED events of the file-integrity monitor, over checkers that interleave. */
module FileIntegrity {
  import opened Sequences

  /**
    A new file as a checker finds it; `None` when its digest could not be read, and `fails` when
    persisting it raises, which rolls its transaction back.
  */
  datatype Found = Found(path: string, severity: string, digest: Option<string>, fails: bool)

  datatype FimEvent = Created(file: Found) | Reported(path: string, kind: string)

  /** Baselines by path, every event ever persisted, and the audit rows written with them. */
  datatype Db = Db(baselines: map<string, string>, events: seq<FimEvent>, audit: seq<FimEvent>)

  const EMPTY := Db(map[], [], [])

  datatype Outcome = RolledBack | AlreadyKnown | Persisted

  function SeverityOf(severity: string): string {
    if severity == "" then "WARNING" else severity
  }

  function WithBaseline(baselines: map<string, string>, path: string, digest: Option<string>): map<string, string> {
    match digest case None => baselines case Some(d) => baselines[path := d]
  }

  /** An event row and an audit row. */
  function AfterPersist(db: Db, e: FimEvent): Db {
    db.(events := db.events + [e], audit := db.audit + [e])
  }

  function OutcomeOf(db: Db, f: Found): Outcome {
    if f.fails then RolledBack else if f.path in db.baselines then AlreadyKnown else Persisted
  }

  /** The CREATED transaction: it re-reads the baseline, then writes event, audit row and baseline together. */
  function AfterCreated(db: Db, f: Found): Db {
    if OutcomeOf(db, f) != Persisted then db
    else AfterPersist(db, Created(f.(severity := SeverityOf(f.severity)))).(
           baselines := WithBaseline(db.baselines, f.path, f.digest))
  }

  /** What a checker knows after a transaction: the path too, if it has just been given a baseline. */
  function KnownAfter(db: Db, known: set<string>, f: Found): set<string> {
    if OutcomeOf(db, f) == Persisted && f.digest.Some? then known + {f.path} else known
  }

  function AfterInitialize(db: Db, hashes: seq<(string, Option<string>)>): Db {
    if hashes == [] then db
    else var before, h := AfterInitialize(db, hashes[..|hashes| - 1]), hashes[|hashes| - 1];
         before.(baselines := WithBaseline(before.baselines, h.0, h.1))
  }

  /** One directory pass that runs alone: what it skips, and what it has learned on the way. */
  function AfterCheck(db: Db, known: set<string>, listing: seq<Found>): Db
    decreases |listing|
  {
    if listing == [] then db
    else
      var f := listing[0];
      if f.path in known then AfterCheck(db, known, listing[1..])
      else AfterCheck(AfterCreated(db, f), KnownAfter(db, known, f), listing[1..])
  }

  /** What a check reads of one baseline row: the current digest, and whether persisting a finding raises. */
  datatype Checked = Checked(path: string, digest: Option<string>, fails: bool)

  /** One row of the integrity pass: a missing or changed file is reported, the baseline stays. */
  function AfterRow(db: Db, baselines: map<string, string>, c: Checked): Db
    requires c.path in baselines
  {
    if c.digest == Some(baselines[c.path]) || c.fails then db
    else AfterPersist(db, Reported(c.path, if c.digest.None? then "DELETED" else "MODIFIED"))
  }

  function AfterRows(db: Db, baselines: map<string, string>, rows: seq<Checked>): Db
    requires forall c :: c in rows ==> c.path in baselines
  {
    if rows == [] then db
    else
      assert rows[|rows| - 1] in rows;
      assert forall c :: c in rows[..|rows| - 1] ==> c in rows;
      AfterRow(AfterRows(db, baselines, rows[..|rows| - 1]), baselines, rows[|rows| - 1])
  }

  lemma RowsNext(db: Db, baselines: map<string, string>, rows: seq<Checked>, i: nat)
    requires i < |rows| && forall c :: c in rows ==> c.path in baselines
    ensures (forall c :: c in rows[..i] ==> c.path in baselines) && rows[i].path in baselines
    ensures forall c :: c in rows[..i + 1] ==> c.path in baselines
    ensures AfterRows(db, baselines, rows[..i + 1]) == AfterRow(AfterRows(db, baselines, rows[..i]), baselines, rows[i])
  {
    assert rows[i] in rows && rows[..i + 1][..i] == rows[..i];
    assert forall c :: c in rows[..i + 1] ==> c in rows;
  }

  class FileMonitor {
    var baselines: map<string, string>
    var events: seq<FimEvent>
    var audit: seq<FimEvent>

    function View(): Db
      reads this
    {
      Db(baselines, events, audit)
    }

    constructor ()
      ensures View() == EMPTY
    {
      baselines, events, audit := map[], [], [];
    }

    method InitializeBaselines(hashes: seq<(string, Option<string>)>)
      modifies this`baselines
      ensures View() == AfterInitialize(old(View()), hashes)
    {
      for i := 0 to |hashes|
        invariant View() == AfterInitialize(old(View()), hashes[..i])
      {
        assert hashes[..i + 1][..i] == hashes[..i];
        if hashes[i].1.Some? {
          baselines := baselines[hashes[i].0 := hashes[i].1.value];
        }
      }
      assert hashes[..|hashes|] == hashes;
    }

    method PersistFimEvent(e: FimEvent)
      modifies this`events, this`audit
      ensures View() == AfterPersist(old(View()), e)
    {
      events := events + [e];
      audit := audit + [e];
    }

    method PersistCreated(f: Found) returns (outcome: Outcome)
      modifies this
      ensures View() == AfterCreated(old(View()), f)
      ensures outcome == OutcomeOf(old(View()), f)
    {
      if f.fails {
        return RolledBack;
      }
      if f.path in baselines {
        return AlreadyKnown;
      }
      PersistFimEvent(Created(f.(severity := SeverityOf(f.severity))));
      if f.digest.Some? {
        baselines := baselines[f.path := f.digest.value];
      }
      outcome := Persisted;
    }

    /** The rows are the baselines in the order they are read; every file's digest is read as the loop reaches it. */
    method CheckBaselines(rows: seq<Checked>)
      requires forall c :: c in rows ==> c.path in baselines
      modifies this`events, this`audit
      ensures View() == AfterRows(old(View()), baselines, rows)
    {
      for i := 0 to |rows|
        invariant forall c :: c in rows[..i] ==> c.path in baselines
        invariant View() == AfterRows(old(View()), baselines, rows[..i])
      {
        var c := rows[i];
        RowsNext(old(View()), baselines, rows, i);
        if c.digest.None? {
          DispatchFimEvent(Reported(c.path, "DELETED"), c.fails);
        } else if c.digest.value != baselines[c.path] {
          DispatchFimEvent(Reported(c.path, "MODIFIED"), c.fails);
        }
      }
      assert rows[..|rows|] == rows;
    }

    /** A failed write is logged and otherwise ignored. */
    method DispatchFimEvent(e: FimEvent, fails: bool)
      modifies this`events, this`audit
      ensures View() == if fails then old(View()) else AfterPersist(old(View()), e)
    {
      if !fails {
        PersistFimEvent(e);
      }
    }

    method CheckIntegrity(rows: seq<Checked>, listing: seq<Found>)
      requires forall c :: c in rows ==> c.path in baselines
      modifies this
      ensures View() == AfterCheck(AfterRows(old(View()), old(baselines), rows), old(baselines).Keys, listing)
    {
      CheckBaselines(rows);
      CheckDirectoriesForCreated(listing);
    }

    method CheckDirectoriesForCreated(listing: seq<Found>)
      modifies this
      ensures View() == AfterCheck(old(View()), old(baselines).Keys, listing)
    {
      var known := baselines.Keys;
      for i := 0 to |listing|
        invariant AfterCheck(View(), known, listing[i..]) == AfterCheck(old(View()), old(baselines).Keys, listing)
      {
        var f := listing[i];
        assert listing[i..][0] == f && listing[i..][1..] == listing[i + 1..];
        if f.path !in known {
          var outcome := PersistCreated(f);
          if outcome == Persisted && f.digest.Some? {
            known := known + {f.path};
          }
        }
      }
    }
  }

  // ---- interleaved checkers ----

  /** A checker's known paths, read at its start, and the file whose digest it has just read. */
  datatype Checker = Checker(known: set<string>, pending: Option<Found>)

  datatype Sys = Sys(db: Db, checkers: map<int, Checker>)

  /** `Visit` reads a digest; `Commit` is the transaction, committed or rolled back. */
  datatype Action =
    | Initialize(hashes: seq<(string, Option<string>)>)
    | Report(path: string, kind: string)
    | Start(checker: int)
    | Visit(checker: int, file: Found)
    | Commit(checker: int)
    | Stop(checker: int)

  function Do(st: Sys, a: Action): Sys {
    match a
    case Initialize(hashes) => st.(db := AfterInitialize(st.db, hashes))
    case Report(path, kind) => st.(db := AfterPersist(st.db, Reported(path, kind)))
    case Start(c) => st.(checkers := st.checkers[c := Checker(st.db.baselines.Keys, None)])
    case Visit(c, f) =>
      if c in st.checkers && st.checkers[c].pending.None? && f.path !in st.checkers[c].known
      then st.(checkers := st.checkers[c := st.checkers[c].(pending := Some(f))]) else st
    case Commit(c) =>
      if c in st.checkers && st.checkers[c].pending.Some? then
        var k := st.checkers[c];
        var f := k.pending.value;
        Sys(AfterCreated(st.db, f), st.checkers[c := Checker(KnownAfter(st.db, k.known, f), None)])
      else st
    case Stop(c) => st.(checkers := st.checkers - {c})
  }

  function Exec(actions: seq<Action>): Sys {
    if actions == [] then Sys(EMPTY, map[])
    else Do(Exec(actions[..|actions| - 1]), actions[|actions| - 1])
  }

  ghost predicate ReadCreated(e: FimEvent, path: string) {
    e.Created? && e.file.path == path && e.file.digest.Some?
  }

  /** Paths whose digest was read when their CREATED event was persisted. */
  ghost function ReadPaths(events: seq<FimEvent>): set<string> {
    set e | e in events && e.Created? && e.file.digest.Some? :: e.file.path
  }

  /** Paths given a baseline by initialization, over the whole run. */
  ghost function Initialized(actions: seq<Action>): set<string> {
    if actions == [] then {}
    else Initialized(actions[..|actions| - 1])
         + (if actions[|actions| - 1].Initialize? then Readable(actions[|actions| - 1].hashes) else {})
  }

  ghost function Readable(hashes: seq<(string, Option<string>)>): set<string> {
    set h | h in hashes && h.1.Some? :: h.0
  }

  ghost predicate AtMostOnce(events: seq<FimEvent>) {
    forall i, j, path :: 0 <= i < j < |events| && ReadCreated(events[i], path) ==> !ReadCreated(events[j], path)
  }

  lemma {:induction false} InitializeKeys(db: Db, hashes: seq<(string, Option<string>)>)
    ensures AfterInitialize(db, hashes).baselines.Keys == db.baselines.Keys + Readable(hashes)
    ensures AfterInitialize(db, hashes).events == db.events && AfterInitialize(db, hashes).audit == db.audit
  {
    if hashes != [] {
      var init, last := hashes[..|hashes| - 1], hashes[|hashes| - 1];
      InitializeKeys(db, init);
      assert hashes == init + [last];
      assert Readable(hashes) == Readable(init) + (if last.1.Some? then {last.0} else {});
    }
  }

  lemma CreatedFacts(db: Db, f: Found)
    requires AtMostOnce(db.events) && ReadPaths(db.events) <= db.baselines.Keys
    ensures var after := AfterCreated(db, f);
            && AtMostOnce(after.events)
            && (OutcomeOf(db, f) != Persisted ==> after == db)
            && (OutcomeOf(db, f) == Persisted ==>
                  && after.baselines.Keys == db.baselines.Keys + (if f.digest.Some? then {f.path} else {})
                  && ReadPaths(after.events) == ReadPaths(db.events) + (if f.digest.Some? then {f.path} else {}))
  {
    if OutcomeOf(db, f) == Persisted {
      var after := AfterCreated(db, f);
      var e := after.events[|db.events|];
      assert after.events == db.events + [e];
      forall i, path | 0 <= i < |db.events| && ReadCreated(db.events[i], path)
        ensures !ReadCreated(e, path)
      {
        assert db.events[i] in db.events;
        assert path in ReadPaths(db.events);
      }
    }
  }

  /**
    Over every interleaving of checkers: each path gets at most one CREATED event whose digest was
    read; the baselines are exactly the initialized paths plus the paths of those events, so such an
    event and its baseline are there together or not at all; and every event has its audit row.
  */
  lemma {:induction false} CreatedOncePerPath(actions: seq<Action>)
    ensures var db := Exec(actions).db;
            && AtMostOnce(db.events)
            && db.baselines.Keys == Initialized(actions) + ReadPaths(db.events)
            && db.audit == db.events
  {
    if actions != [] {
      var init, a := actions[..|actions| - 1], actions[|actions| - 1];
      var st := Exec(init);
      CreatedOncePerPath(init);
      match a
      case Initialize(hashes) => InitializeKeys(st.db, hashes);
      case Report(path, kind) =>
        assert ReadPaths(Exec(actions).db.events) == ReadPaths(st.db.events);
      case Commit(c) =>
        if c in st.checkers && st.checkers[c].pending.Some? {
          CreatedFacts(st.db, st.checkers[c].pending.value);
        }
      case _ =>
    }
  }

  // ---- what baselines and events hold ----

  /** The last readable digest listed for a path. */
  ghost function LastDigest(hashes: seq<(string, Option<string>)>, path: string): Option<string> {
    if hashes == [] then None
    else var h := hashes[|hashes| - 1];
         if h.0 == path && h.1.Some? then h.1 else LastDigest(hashes[..|hashes| - 1], path)
  }

  /** The digest a path was last initialized with. */
  ghost function LastInit(actions: seq<Action>, path: string): Option<string> {
    if actions == [] then None
    else var a := actions[|actions| - 1];
         if a.Initialize? && LastDigest(a.hashes, path).Some? then LastDigest(a.hashes, path)
         else LastInit(actions[..|actions| - 1], path)
  }

  lemma {:induction false} InitializeDigests(db: Db, hashes: seq<(string, Option<string>)>, path: string)
    ensures var after, last := AfterInitialize(db, hashes).baselines, LastDigest(hashes, path);
            && (path in after <==> path in db.baselines || last.Some?)
            && (last.Some? ==> after[path] == last.value)
            && (last.None? && path in after ==> after[path] == db.baselines[path])
    ensures AfterInitialize(db, hashes).events == db.events
  {
    if hashes != [] {
      InitializeDigests(db, hashes[..|hashes| - 1], path);
    }
  }

  ghost predicate CreatedWith(events: seq<FimEvent>, path: string, digest: string) {
    exists e :: e in events && e.Created? && e.file.path == path && e.file.digest == Some(digest)
  }

  lemma CreatedLater(events: seq<FimEvent>, more: FimEvent, path: string, digest: string)
    requires CreatedWith(events, path, digest)
    ensures CreatedWith(events + [more], path, digest)
  {
    var e :| e in events && e.Created? && e.file.path == path && e.file.digest == Some(digest);
    assert e in events + [more];
  }

  lemma CommitBaseline(db: Db, f: Found, path: string, initialized: Option<string>)
    requires path in db.baselines ==> HeldDigest(db, path, initialized)
    requires initialized.Some? ==> path in db.baselines
    ensures path in AfterCreated(db, f).baselines ==> HeldDigest(AfterCreated(db, f), path, initialized)
    ensures initialized.Some? ==> path in AfterCreated(db, f).baselines
  {
    if OutcomeOf(db, f) == Persisted {
      var e := Created(f.(severity := SeverityOf(f.severity)));
      if path in db.baselines && initialized.None? {
        CreatedLater(db.events, e, path, db.baselines[path]);
      }
      assert e in db.events + [e];
    }
  }

  ghost predicate HeldDigest(db: Db, path: string, initialized: Option<string>)
    requires path in db.baselines
  {
    if initialized.Some? then db.baselines[path] == initialized.value
    else CreatedWith(db.events, path, db.baselines[path])
  }

  /** A baseline holds the digest last initialized for its path, or else that of the path's CREATED event. */
  lemma {:induction false} BaselineDigest(actions: seq<Action>, path: string)
    ensures var db := Exec(actions).db;
            && (path in db.baselines ==> HeldDigest(db, path, LastInit(actions, path)))
            && (LastInit(actions, path).Some? ==> path in db.baselines)
  {
    if actions != [] {
      var init, a := actions[..|actions| - 1], actions[|actions| - 1];
      var st := Exec(init);
      BaselineDigest(init, path);
      match a
      case Initialize(hashes) => InitializeDigests(st.db, hashes, path);
      case Report(p, kind) =>
        if path in st.db.baselines && LastInit(init, path).None? {
          CreatedLater(st.db.events, Reported(p, kind), path, st.db.baselines[path]);
        }
      case Commit(c) =>
        if c in st.checkers && st.checkers[c].pending.Some? {
          CommitBaseline(st.db, st.checkers[c].pending.value, path, LastInit(init, path));
        }
      case _ =>
    }
  }

  ghost predicate Visited(actions: seq<Action>, f: Found) {
    exists a :: a in actions && a.Visit? && a.file == f
  }

  /** The CREATED event of a visited file: its path and digest, and the given severity or WARNING. */
  ghost predicate TellsOf(e: FimEvent, f: Found) {
    e.Created? && e.file.path == f.path && e.file.digest == f.digest && !f.fails
    && e.file.severity == if f.severity == "" then "WARNING" else f.severity
  }

  lemma VisitedLater(actions: seq<Action>, a: Action)
    ensures forall f :: Visited(actions, f) ==> Visited(actions + [a], f)
    ensures a.Visit? ==> Visited(actions + [a], a.file)
  {
    assert forall x :: x in actions ==> x in actions + [a];
    assert a in actions + [a];
  }

  ghost predicate AllVisited(actions: seq<Action>, st: Sys) {
    && (forall c :: c in st.checkers && st.checkers[c].pending.Some? ==> Visited(actions, st.checkers[c].pending.value))
    && (forall e :: e in st.db.events && e.Created? ==> exists f :: Visited(actions, f) && TellsOf(e, f))
  }

  /** Every CREATED event of a run tells of a file some checker visited and could persist. */
  lemma {:induction false} CreatedWasVisited(actions: seq<Action>)
    ensures AllVisited(actions, Exec(actions))
  {
    if actions != [] {
      var init, a := actions[..|actions| - 1], actions[|actions| - 1];
      assert actions == init + [a];
      CreatedWasVisited(init);
      VisitedLater(init, a);
      VisitedStep(init, Exec(init), a);
    }
  }

  lemma VisitedStep(actions: seq<Action>, st: Sys, a: Action)
    requires AllVisited(actions, st)
    ensures AllVisited(actions + [a], Do(st, a))
  {
    VisitedLater(actions, a);
    match a
    case Initialize(hashes) => InitializeDigests(st.db, hashes, "");
    case Commit(c) =>
      if c in st.checkers && st.checkers[c].pending.Some? {
        var f := st.checkers[c].pending.value;
        var e := Created(f.(severity := SeverityOf(f.severity)));
        assert Visited(actions, f) && (f.fails || TellsOf(e, f));
      }
    case _ =>
  }

  // ---- the integrity pass ----

  function Altered(baselines: map<string, string>): Checked -> bool {
    (c: Checked) => !c.fails && c.path in baselines && c.digest != Some(baselines[c.path])
  }

  /**
    The integrity pass raises one event for each baseline row whose file no longer has its digest, in
    order: DELETED when it cannot be read and MODIFIED otherwise; it changes no baseline.
  */
  lemma {:induction false} AlterationsExactly(db: Db, rows: seq<Checked>)
    requires forall c :: c in rows ==> c.path in db.baselines
    ensures var after, altered := AfterRows(db, db.baselines, rows), Filter(Altered(db.baselines), rows);
            && after.baselines == db.baselines
            && db.events <= after.events && |after.events| == |db.events| + |altered|
            && forall i :: 0 <= i < |altered| ==>
                 after.events[|db.events| + i]
                 == Reported(altered[i].path, if altered[i].digest.None? then "DELETED" else "MODIFIED")
  {
    if rows != [] {
      assert forall c :: c in rows[..|rows| - 1] ==> c in rows;
      AlterationsExactly(db, rows[..|rows| - 1]);
    }
  }

  // ---- a check that runs alone ----

  /** The listed paths that a pass can give a baseline. */
  ghost function Recordable(listing: seq<Found>): set<string> {
    set f | f in listing && f.digest.Some? && !f.fails :: f.path
  }

  lemma CreatedKeys(db: Db, f: Found)
    ensures AfterCreated(db, f).baselines.Keys == db.baselines.Keys + Recordable([f])
  {
    assert forall g :: g in [f] <==> g == f;
  }

  /** A pass leaves a baseline for exactly the paths that had one and those it could record. */
  lemma {:induction false} CheckCovers(db: Db, known: set<string>, listing: seq<Found>)
    requires known <= db.baselines.Keys
    ensures AfterCheck(db, known, listing).baselines.Keys == db.baselines.Keys + Recordable(listing)
    decreases |listing|
  {
    if listing != [] {
      var f := listing[0];
      assert listing == [f] + listing[1..];
      assert Recordable(listing) == Recordable([f]) + Recordable(listing[1..]);
      CreatedKeys(db, f);
      if f.path in known {
        CheckCovers(db, known, listing[1..]);
      } else {
        CheckCovers(AfterCreated(db, f), KnownAfter(db, known, f), listing[1..]);
      }
    }
  }

  /** Every path has a baseline, or its transaction rolls back. */
  ghost predicate NothingNew(db: Db, listing: seq<Found>) {
    forall f :: f in listing ==> f.path in db.baselines || f.fails
  }

  /** A pass raises no event if and only if it lists nothing new. */
  lemma {:induction false} SilentExactly(db: Db, known: set<string>, listing: seq<Found>)
    requires known <= db.baselines.Keys
    ensures |AfterCheck(db, known, listing).events| >= |db.events|
    ensures AfterCheck(db, known, listing) == db <==> NothingNew(db, listing)
    ensures |AfterCheck(db, known, listing).events| == |db.events| <==> NothingNew(db, listing)
    decreases |listing|
  {
    if listing != [] {
      var f := listing[0];
      assert listing == [f] + listing[1..];
      if f.path in known {
        SilentExactly(db, known, listing[1..]);
      } else {
        SilentExactly(AfterCreated(db, f), KnownAfter(db, known, f), listing[1..]);
      }
    }
  }

  /** Re-checking files that were all listed, readable and recorded before raises no event at all. */
  lemma RecheckRaisesNothing(db: Db, listing: seq<Found>, again: seq<Found>)
    requires forall g :: g in again ==> exists f :: f in listing && f.path == g.path && f.digest.Some? && !f.fails
    ensures var after := AfterCheck(db, db.baselines.Keys, listing);
            AfterCheck(after, after.baselines.Keys, again) == after
  {
    var after := AfterCheck(db, db.baselines.Keys, listing);
    CheckCovers(db, db.baselines.Keys, listing);
    SilentExactly(after, after.baselines.Keys, again);
  }

  /**
    After any pass, the next one raises an event if and only if it lists a file, persisted without
    error, that had no baseline and that the pass before could not record: unreadable, say, so that
    every pass reports it anew.
  */
  lemma UnreadableIsReportedAgain(db: Db, listing: seq<Found>, again: seq<Found>)
    ensures var after := AfterCheck(db, db.baselines.Keys, listing);
            |AfterCheck(after, after.baselines.Keys, again).events| > |after.events|
            <==> exists f :: f in again && !f.fails && f.path !in db.baselines && f.path !in Recordable(listing)
  {
    var after := AfterCheck(db, db.baselines.Keys, listing);
    CheckCovers(db, db.baselines.Keys, listing);
    SilentExactly(after, after.baselines.Keys, again);
    assert forall path :: path in after.baselines <==> path in db.baselines || path in Recordable(listing);
  }
}
