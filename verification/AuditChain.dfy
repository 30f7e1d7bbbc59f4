/**
  The audit tables, with append, seal, purge and verify as functions on them.
  The methods of `AuditLog.AuditStore` are proved against these functions.
*/
module AuditChain {
  import opened Sequences
  import opened RowFingerprint

  const TICKS_PER_DAY := 86400 * 4194304

  /** The chained SHA-256 as a free term; `ForeignHash` is any stored text that is no fold result. */
  datatype Hash = Genesis | Folded(running: Hash, fp: Fingerprint) | ForeignHash(text: string)

  /** A fingerprint with the row id it stands for: a row of `audit_retention_hashes`. */
  datatype Entry = Entry(id: int, fp: Fingerprint)

  datatype Checkpoint = Checkpoint(fromId: int, throughId: int, rowCount: int,
                                   chainHash: Hash, prevChainHash: Hash)

  /** The three tables, each in primary-key order, and the AUTOINCREMENT high-water mark. */
  datatype Tables = Tables(events: seq<Row>, lastId: int, checkpoints: seq<Checkpoint>,
                           retired: seq<Entry>)

  const EMPTY := Tables([], 0, [], [])

  datatype SealResult = NothingToSeal | Sealed(fromId: int, throughId: int, rowCount: nat, chainHash: Hash)

  datatype PurgeResult = InvalidRetention | ConstraintFailed | Purged(auditEvents: nat)

  datatype Finding = SeedBroken(checkpoint: nat) | CountMismatch(checkpoint: nat, found: nat)
    | HashMismatch(checkpoint: nat)

  datatype VerifyResult = VerifyResult(ok: bool, checkpointsTotal: nat, verified: nat, agedOut: nat,
                                       partial: nat, unsealedEvents: nat, failures: seq<Finding>,
                                       lastChainHash: Hash)

  function EntryOf(r: Row): Entry {
    Entry(r.id, FingerprintOf(r))
  }

  function Entries(rows: seq<Row>): seq<Entry> {
    seq(|rows|, i requires 0 <= i < |rows| => EntryOf(rows[i]))
  }

  function Fold(running: Hash, fp: Fingerprint): Hash {
    Folded(running, fp)
  }

  function FoldAll(seed: Hash, es: seq<Entry>): Hash {
    if es == [] then seed else Fold(FoldAll(seed, es[..|es| - 1]), es[|es| - 1].fp)
  }

  function RowAbove(n: int): Row -> bool { (r: Row) => r.id > n }

  function RowWithin(lo: int, hi: int): Row -> bool { (r: Row) => lo <= r.id <= hi }

  function EntryWithin(lo: int, hi: int): Entry -> bool { (e: Entry) => lo <= e.id <= hi }

  function Kept(horizon: int): Row -> bool { (r: Row) => r.timestamp >= horizon }

  function ExpiredSealed(horizon: int, lastSealed: int): Row -> bool {
    (r: Row) => r.timestamp < horizon && r.id <= lastSealed
  }

  function Ids(es: seq<Entry>): set<int> {
    set e | e in es :: e.id
  }

  /** Two id-ordered lists as one: `sorted(fingerprints)`, or an insert into a keyed table. */
  function Merge(a: seq<Entry>, b: seq<Entry>): (r: seq<Entry>)
    ensures |r| == |a| + |b|
    decreases |a| + |b|
  {
    if a == [] then b
    else if b == [] then a
    else if a[0].id <= b[0].id then [a[0]] + Merge(a[1..], b)
    else [b[0]] + Merge(a, b[1..])
  }

  // ---- append ----

  function AfterAppend(t: Tables, timestamp: int, level: string, source: string, message: string,
                       context: Option<string>): Tables
  {
    t.(events := t.events + [Row(t.lastId + 1, timestamp, level, source, message, context)],
       lastId := t.lastId + 1)
  }

  // ---- seal ----

  function PrevThrough(cps: seq<Checkpoint>): int {
    if cps == [] then 0 else cps[|cps| - 1].throughId
  }

  function PrevChain(cps: seq<Checkpoint>): Hash {
    if cps == [] then Genesis else cps[|cps| - 1].chainHash
  }

  function Unsealed(t: Tables): seq<Row> {
    Filter(RowAbove(PrevThrough(t.checkpoints)), t.events)
  }

  function CheckpointFor(rows: seq<Row>, prev: Hash): Checkpoint
    requires rows != []
  {
    Checkpoint(rows[0].id, rows[|rows| - 1].id, |rows|, FoldAll(prev, Entries(rows)), prev)
  }

  function AfterSeal(t: Tables): Tables {
    if Unsealed(t) == [] then t
    else t.(checkpoints := t.checkpoints + [CheckpointFor(Unsealed(t), PrevChain(t.checkpoints))])
  }

  // ---- purge ----

  /** SQL's MAX(through_id), or 0 when there is no checkpoint or the maximum is 0. */
  function LastSealed(cps: seq<Checkpoint>): int {
    if cps == [] then 0
    else if |cps| == 1 then cps[0].throughId
    else var rest := LastSealed(cps[..|cps| - 1]);
         if cps[|cps| - 1].throughId > rest then cps[|cps| - 1].throughId else rest
  }

  function Retiring(t: Tables, horizon: int): seq<Entry> {
    Entries(Filter(ExpiredSealed(horizon, LastSealed(t.checkpoints)), t.events))
  }

  /** A fingerprint is already stored under the id of a row about to be retired. */
  predicate PurgeConflict(t: Tables, horizon: int) {
    Ids(t.retired) * Ids(Retiring(t, horizon)) != {}
  }

  /** The purge transaction; a primary-key conflict rolls all of it back. */
  function AfterPurge(t: Tables, horizon: int): Tables {
    if PurgeConflict(t, horizon) then t
    else t.(retired := Merge(t.retired, Retiring(t, horizon)), events := Filter(Kept(horizon), t.events))
  }

  /** The moment before which rows are too old. */
  function Horizon(retentionDays: int, now: int): int {
    now - retentionDays * TICKS_PER_DAY
  }

  function PurgeOutcome(t: Tables, horizon: int): PurgeResult {
    if PurgeConflict(t, horizon) then ConstraintFailed
    else Purged(|t.events| - |Filter(Kept(horizon), t.events)|)
  }

  // ---- verify ----

  function LiveRows(t: Tables, cp: Checkpoint): seq<Row> {
    Filter(RowWithin(cp.fromId, cp.throughId), t.events)
  }

  function RetiredEntries(t: Tables, cp: Checkpoint): seq<Entry> {
    Filter(EntryWithin(cp.fromId, cp.throughId), t.retired)
  }

  /** The segment a checkpoint covers, rebuilt from surviving rows and retired fingerprints. */
  function Segment(t: Tables, cp: Checkpoint): seq<Entry> {
    Merge(Entries(LiveRows(t, cp)), RetiredEntries(t, cp))
  }

  function CheckSeed(t: Tables, k: nat, r: VerifyResult): VerifyResult
    requires k < |t.checkpoints|
  {
    if t.checkpoints[k].prevChainHash != PrevChain(t.checkpoints[..k])
    then r.(ok := false, failures := r.failures + [SeedBroken(k)])
    else r
  }

  function CheckSegment(t: Tables, k: nat, r: VerifyResult): VerifyResult
    requires k < |t.checkpoints|
  {
    var cp := t.checkpoints[k];
    var es := Segment(t, cp);
    if |es| != cp.rowCount || |Ids(es)| != |es| then
      r.(ok := false, failures := r.failures + [CountMismatch(k, |es|)])
    else if FoldAll(cp.prevChainHash, es) != cp.chainHash then
      r.(ok := false, failures := r.failures + [HashMismatch(k)])
    else if LiveRows(t, cp) == [] then r.(agedOut := r.agedOut + 1)
    else r.(verified := r.verified + 1,
            partial := if RetiredEntries(t, cp) != [] then r.partial + 1 else r.partial)
  }

  /** The result after the first `k` checkpoints. */
  function Checked(t: Tables, k: nat): VerifyResult
    requires k <= |t.checkpoints|
  {
    if k == 0 then VerifyResult(true, |t.checkpoints|, 0, 0, 0, 0, [], ForeignHash(""))
    else CheckSegment(t, k - 1, CheckSeed(t, k - 1, Checked(t, k - 1)))
  }

  function Verify(t: Tables): VerifyResult {
    var r := Checked(t, |t.checkpoints|);
    if t.checkpoints == [] then r
    else
      var through := PrevThrough(t.checkpoints);
      r.(lastChainHash := PrevChain(t.checkpoints),
         unsealedEvents := if t.events != [] && t.events[|t.events| - 1].id > through
                           then |Filter(RowAbove(through), t.events)| else 0)
  }

  lemma {:induction false} EntriesPrefix(rows: seq<Row>, n: nat)
    requires n <= |rows|
    ensures Entries(rows)[..n] == Entries(rows[..n])
  {
  }
}
