/**
  The authentication tables and the atomic steps of auth/core.py on them. Each transaction is a
  function on `Db`; the methods of `AuthDatabase` update the tables in place and are proved
  against those functions.
*/
module AuthStore {
  import opened Sequences

  const STEP_SECONDS := 30.0
  const DAY_SECONDS := 86400

  /** A stored TOTP secret; decryption may fail in the two ways the code tells apart. */
  datatype Secret = Readable(seed: string) | InvalidToken | Unusable

  /** A row of `users`; its id is its position, since rows are never deleted. */
  datatype User = User(name: string, secret: Secret, active: bool)

  /** A row of `recovery_codes`; salted hashing is a comparison of the codes themselves. */
  datatype CodeRow = CodeRow(id: int, user: int, code: string)

  /** Token fingerprints as free terms. */
  datatype TokenPrint = TotpPrint(user: int, token: string) | RecoveryPrint(user: int, code: string)

  /** A row of `auth_attempts`; timestamps are whole seconds. */
  datatype Attempt = Attempt(user: int, at: int, success: bool, token: TokenPrint, totpStep: Option<int>)

  datatype Db = Db(users: seq<User>, codes: seq<CodeRow>, lastCode: int, attempts: seq<Attempt>,
                   consumed: map<(int, int), real>)

  const EMPTY := Db([], [], 0, [], map[])

  /** Backoff configuration and the TOTP digits of a seed at a time step. */
  datatype Settings = Settings(baseDelay: int, maxDelay: int, window: int, reject: bool,
                               totp: (string, int) -> string)

  // ---- identity ----

  function UserNamed(users: seq<User>, name: string): (r: Option<int>)
    ensures r.Some? ==> 0 <= r.value < |users| && users[r.value].name == name
    ensures r.None? ==> forall i :: 0 <= i < |users| ==> users[i].name != name
  {
    if users == [] then None
    else if users[|users| - 1].name == name then Some(|users| - 1)
    else UserNamed(users[..|users| - 1], name)
  }

  function IssuedRows(user: int, firstId: int, codes: seq<string>): seq<CodeRow> {
    seq(|codes|, i requires 0 <= i < |codes| => CodeRow(firstId + i, user, codes[i]))
  }

  /** The enrollment transaction; the unique user name makes a second enrollment fail. */
  function AfterEnroll(db: Db, name: string, secret: Secret, codes: seq<string>): Db {
    if UserNamed(db.users, name).Some? then db
    else db.(users := db.users + [User(name, secret, true)],
             codes := db.codes + IssuedRows(|db.users|, db.lastCode + 1, codes),
             lastCode := db.lastCode + |codes|)
  }

  function AfterRevoke(db: Db, name: string): Db {
    match UserNamed(db.users, name)
    case None => db
    case Some(u) => db.(users := db.users[u := db.users[u].(active := false)])
  }

  predicate IsActive(db: Db, user: int) {
    0 <= user < |db.users| && db.users[user].active
  }

  // ---- backoff ----

  function FailureOf(user: int): Attempt -> bool { (a: Attempt) => a.user == user && !a.success }

  function FailureSince(user: int, cutoff: int): Attempt -> bool {
    (a: Attempt) => a.user == user && !a.success && a.at > cutoff
  }

  function CountSince(attempts: seq<Attempt>, user: int, cutoff: int): nat {
    |Filter(FailureSince(user, cutoff), attempts)|
  }

  function Power2(n: nat): int {
    if n == 0 then 1 else 2 * Power2(n - 1)
  }

  /** `base` doubled `n` times. */
  function Doubled(base: int, n: nat): int {
    if n == 0 then base else 2 * Doubled(base, n - 1)
  }

  lemma {:induction false} DoubledIsPower(base: int, n: nat)
    ensures Doubled(base, n) == base * Power2(n)
  {
    if n > 0 {
      DoubledIsPower(base, n - 1);
      assert base * (2 * Power2(n - 1)) == 2 * (base * Power2(n - 1));
    }
  }

  function Min(a: int, b: int): int { if a <= b then a else b }

  function DelayFor(s: Settings, failures: nat): int {
    if failures == 0 then 0 else Min(Doubled(s.baseDelay, failures), s.maxDelay)
  }

  /** The delay computed by counting at time `now`. */
  function Backoff(s: Settings, attempts: seq<Attempt>, user: int, now: real): int {
    DelayFor(s, CountSince(attempts, user, now.Floor - s.window))
  }

  /** SQL's MAX over the failures of a user, or 0 when there is none. */
  function LastFailure(attempts: seq<Attempt>, user: int): int {
    LatestOf(Filter(FailureOf(user), attempts))
  }

  function LatestOf(failures: seq<Attempt>): int {
    if failures == [] then 0
    else if |failures| == 1 then failures[0].at
    else var rest := LatestOf(failures[..|failures| - 1]);
         if failures[|failures| - 1].at > rest then failures[|failures| - 1].at else rest
  }

  function Ceil(x: real): int { -((-x).Floor) }

  datatype Gate = Pass | Reject(wait: int)

  /** The decision taken with a computed delay at time `now`; sleeping is a delay before passing. */
  function GateAt(s: Settings, attempts: seq<Attempt>, user: int, backoff: int, now: real): Gate {
    if backoff <= 0 || !s.reject then Pass
    else var remaining := (LastFailure(attempts, user) + backoff) as real - now;
         if remaining <= 0.0 then Pass else Reject(Ceil(remaining))
  }

  // ---- TOTP ----

  function StepAt(now: real): int { (now / STEP_SECONDS).Floor }

  predicate Matches(s: Settings, seed: string, step: int, token: string) {
    step >= 0 && s.totp(seed, step) == token
  }

  /** The first of current, previous and next step whose digits equal the token. */
  function MatchStep(s: Settings, seed: string, token: string, now: real): (r: Option<int>)
    ensures Matches(s, seed, StepAt(now), token) ==> r == Some(StepAt(now))
    ensures r == Some(StepAt(now) + 1) ==> !Matches(s, seed, StepAt(now) - 1, token)
    ensures r.Some? ==> r.value >= 0
    ensures r.Some? ==> StepAt(now) - 1 <= r.value <= StepAt(now) + 1 && s.totp(seed, r.value) == token
    ensures r.None? ==> forall k :: 0 <= k && StepAt(now) - 1 <= k <= StepAt(now) + 1 ==> s.totp(seed, k) != token
  {
    var c := StepAt(now);
    if Matches(s, seed, c, token) then Some(c)
    else if Matches(s, seed, c - 1, token) then Some(c - 1)
    else if Matches(s, seed, c + 1, token) then Some(c + 1)
    else None
  }

  /** A success recorded by an older version, still inside its 90 s replay window. */
  predicate LegacyUse(attempts: seq<Attempt>, user: int, token: string, clock: real) {
    exists a :: a in attempts && a.user == user && a.success && a.token == TotpPrint(user, token)
                && a.totpStep == None && a.at > clock.Floor - 90
  }

  datatype VerifyOutcome = Revoked | Replayed | Accepted | Refused

  predicate IsReplay(db: Db, user: int, token: string, step: Option<int>, clock: real) {
    step.Some? && (LegacyUse(db.attempts, user, token, clock) || (user, step.value) in db.consumed)
  }

  function VerifyDecision(db: Db, user: int, token: string, step: Option<int>, clock: real): VerifyOutcome {
    if !IsActive(db, user) then Revoked
    else if IsReplay(db, user, token, step, clock) then Replayed
    else if step.Some? then Accepted else Refused
  }

  /** The verify transaction, committed at `clock` for a step matched with the clock reading `now`. */
  function AfterVerify(db: Db, user: int, token: string, step: Option<int>, now: real, clock: real): Db {
    match VerifyDecision(db, user, token, step, clock)
    case Revoked => db
    case Replayed => db
    case _ =>
      db.(consumed := if step.Some? then db.consumed[(user, step.value) := now] else db.consumed,
          attempts := db.attempts + [Attempt(user, clock.Floor, step.Some?, TotpPrint(user, token), step)])
  }

  // ---- recovery codes ----

  predicate RecentRecoveryUse(attempts: seq<Attempt>, user: int, code: string, clock: real) {
    exists a :: a in attempts && a.user == user && a.token == RecoveryPrint(user, code)
                && a.at > clock.Floor - 90
  }

  function OwnedBy(user: int): CodeRow -> bool { (c: CodeRow) => c.user == user }

  function OtherRow(id: int): CodeRow -> bool { (c: CodeRow) => c.id != id }

  /** Id of the first stored row of the user that matches the code. */
  function MatchCode(rows: seq<CodeRow>, user: int, code: string): (r: Option<int>)
    ensures r.Some? ==> exists c :: c in rows && c.id == r.value && c.user == user && c.code == code
    ensures r.None? ==> forall c :: c in rows && c.user == user ==> c.code != code
  {
    if rows == [] then None
    else if rows[0].user == user && rows[0].code == code then Some(rows[0].id)
    else assert rows == [rows[0]] + rows[1..]; MatchCode(rows[1..], user, code)
  }

  /** The id is that of the first row of the user with the code. */
  ghost predicate FirstMatch(rows: seq<CodeRow>, user: int, code: string, i: nat) {
    && i < |rows| && rows[i].user == user && rows[i].code == code
    && forall j: nat :: j < i ==> rows[j].user != user || rows[j].code != code
  }

  lemma {:induction false} MatchesFirst(rows: seq<CodeRow>, user: int, code: string) returns (i: nat)
    requires MatchCode(rows, user, code).Some?
    ensures FirstMatch(rows, user, code, i) && rows[i].id == MatchCode(rows, user, code).value
  {
    if rows[0].user == user && rows[0].code == code {
      i := 0;
    } else {
      var k := MatchesFirst(rows[1..], user, code);
      i := k + 1;
      forall j: nat | j < i ensures rows[j].user != user || rows[j].code != code {
        if j > 0 {
          var n: nat := j - 1;
          assert rows[1..][n] == rows[j];
        }
      }
    }
  }

  predicate HasRow(rows: seq<CodeRow>, id: int) {
    exists c :: c in rows && c.id == id
  }

  /** The consuming transaction; deleting a row that is already gone rolls everything back. */
  function AfterRecovery(db: Db, user: int, code: string, row: Option<int>, clock: real): Db {
    var attempt := Attempt(user, clock.Floor, row.Some?, RecoveryPrint(user, code), None);
    match row
    case None => db.(attempts := db.attempts + [attempt])
    case Some(id) =>
      if HasRow(db.codes, id)
      then db.(codes := Filter(OtherRow(id), db.codes), attempts := db.attempts + [attempt])
      else db
  }

  // ---- retention ----

  function NotBefore(cutoff: int): Attempt -> bool { (a: Attempt) => a.at >= cutoff }

  function AfterPurge(db: Db, days: int, readAt: real, clock: real): Db {
    var horizon := readAt - (days * DAY_SECONDS) as real;
    db.(attempts := Filter(NotBefore(clock.Floor - days * DAY_SECONDS), db.attempts),
        consumed := map k | k in db.consumed && !(db.consumed[k] < horizon && k.1 < StepAt(horizon))
                    :: db.consumed[k])
  }

  /** The SQLite tables behind auth/core.py. */
  class AuthDatabase {
    const settings: Settings
    var users: seq<User>
    var codes: seq<CodeRow>
    var lastCode: int
    var attempts: seq<Attempt>
    var consumed: map<(int, int), real>

    function View(): Db
      reads this
    {
      Db(users, codes, lastCode, attempts, consumed)
    }

    constructor (settings: Settings)
      ensures View() == EMPTY && this.settings == settings
    {
      this.settings := settings;
      users, codes, lastCode, attempts, consumed := [], [], 0, [], map[];
    }

    method EnrollUser(name: string, secret: Secret, newCodes: seq<string>) returns (created: bool)
      modifies this`users, this`codes, this`lastCode
      ensures View() == AfterEnroll(old(View()), name, secret, newCodes)
      ensures created <==> UserNamed(old(users), name).None?
      ensures !created ==> View() == old(View())
      ensures created ==>
        && users == old(users) + [User(name, secret, true)] && |codes| == |old(codes)| + |newCodes|
        && old(codes) <= codes
        && forall i :: 0 <= i < |newCodes| ==>
             codes[|old(codes)| + i] == CodeRow(old(lastCode) + 1 + i, |old(users)|, newCodes[i])
    {
      if UserNamed(users, name).Some? {
        return false;
      }
      var userId := |users|;
      users := users + [User(name, secret, true)];
      for i := 0 to |newCodes|
        invariant users == old(users) + [User(name, secret, true)]
        invariant lastCode == old(lastCode) + i
        invariant codes == old(codes) + IssuedRows(userId, old(lastCode) + 1, newCodes[..i])
      {
        lastCode := lastCode + 1;
        codes := codes + [CodeRow(lastCode, userId, newCodes[i])];
        assert IssuedRows(userId, old(lastCode) + 1, newCodes[..i + 1])
            == IssuedRows(userId, old(lastCode) + 1, newCodes[..i]) + [CodeRow(lastCode, userId, newCodes[i])];
      }
      assert newCodes[..|newCodes|] == newCodes;
      created := true;
    }

    method RevokeUser(name: string) returns (revoked: bool)
      modifies this`users
      ensures View() == AfterRevoke(old(View()), name)
      ensures revoked <==> exists u :: UserNamed(old(users), name) == Some(u) && old(users)[u].active
      ensures |users| == |old(users)|
      ensures forall i :: 0 <= i < |users| ==>
                users[i] == if UserNamed(old(users), name) == Some(i) then old(users)[i].(active := false)
                            else old(users)[i]
    {
      var found := UserNamed(users, name);
      if found.None? || !users[found.value].active {
        assert found.Some? ==> users[found.value := users[found.value].(active := false)] == users;
        return false;
      }
      users := users[found.value := users[found.value].(active := false)];
      revoked := true;
    }

    method CalculateBackoffDelay(user: int, now: real) returns (delay: int, failureCount: nat)
      ensures delay == Backoff(settings, attempts, user, now)
      ensures failureCount == CountSince(attempts, user, now.Floor - settings.window)
    {
      failureCount := |Filter(FailureSince(user, now.Floor - settings.window), attempts)|;
      if failureCount == 0 {
        return 0, 0;
      }
      delay := Min(settings.baseDelay * Power2(failureCount), settings.maxDelay);
      DoubledIsPower(settings.baseDelay, failureCount);
    }

    method VerifyTransaction(user: int, token: string, step: Option<int>, now: real, clock: real)
      returns (outcome: VerifyOutcome)
      modifies this`consumed, this`attempts
      ensures View() == AfterVerify(old(View()), user, token, step, now, clock)
      ensures outcome == VerifyDecision(old(View()), user, token, step, clock)
      ensures outcome.Revoked? || outcome.Replayed? ==> View() == old(View())
      ensures outcome.Accepted? || outcome.Refused? ==>
        && attempts == old(attempts) + [Attempt(user, clock.Floor, outcome.Accepted?, TotpPrint(user, token), step)]
        && consumed == if outcome.Accepted? then old(consumed)[(user, step.value) := now] else old(consumed)
    {
      if !(0 <= user < |users| && users[user].active) {
        return Revoked;
      }
      if step.Some? {
        if LegacyUse(attempts, user, token, clock) || (user, step.value) in consumed {
          return Replayed;
        }
        consumed := consumed[(user, step.value) := now];
      }
      attempts := attempts + [Attempt(user, clock.Floor, step.Some?, TotpPrint(user, token), step)];
      outcome := if step.Some? then Accepted else Refused;
    }

    method ScanRecoveryCodes(user: int, code: string) returns (matched: Option<int>)
      ensures matched == MatchCode(codes, user, code)
    {
      matched := None;
      var i := 0;
      while i < |codes|
        invariant 0 <= i <= |codes|
        invariant MatchCode(codes, user, code) == MatchCode(codes[i..], user, code)
      {
        if codes[i].user == user && codes[i].code == code {
          return Some(codes[i].id);
        }
        i := i + 1;
      }
    }

    method ConsumeRecoveryCode(user: int, code: string, row: Option<int>, clock: real) returns (outcome: VerifyOutcome)
      modifies this`codes, this`attempts
      ensures View() == AfterRecovery(old(View()), user, code, row, clock)
      ensures outcome == if row.None? then Refused else if HasRow(old(codes), row.value) then Accepted else Replayed
      ensures outcome.Replayed? ==> View() == old(View())
      ensures !outcome.Replayed? ==>
        attempts == old(attempts) + [Attempt(user, clock.Floor, outcome.Accepted?, RecoveryPrint(user, code), None)]
      ensures forall c :: c in codes <==> c in old(codes) && !(outcome.Accepted? && c.id == row.value)
    {
      FilterMember(OtherRow(if row.Some? then row.value else 0), codes);
      if row.Some? {
        if !HasRow(codes, row.value) {
          return Replayed;
        }
        codes := Filter(OtherRow(row.value), codes);
      }
      attempts := attempts + [Attempt(user, clock.Floor, row.Some?, RecoveryPrint(user, code), None)];
      outcome := if row.Some? then Accepted else Refused;
    }

    method PurgeOldEvents(days: int, readAt: real, clock: real) returns (done: bool)
      modifies this`attempts, this`consumed
      ensures done <==> days >= 1
      ensures View() == if days >= 1 then AfterPurge(old(View()), days, readAt, clock) else old(View())
    {
      if days < 1 {
        return false;
      }
      var horizon := readAt - (days * DAY_SECONDS) as real;
      attempts := Filter(NotBefore(clock.Floor - days * DAY_SECONDS), attempts);
      var lastStep := StepAt(horizon);
      consumed := map k | k in consumed && !(consumed[k] < horizon && k.1 < lastStep) :: consumed[k];
      done := true;
    }
  }
}
