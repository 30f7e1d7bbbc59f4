/**
  The authentication calls as phases that interleave freely: any number of callers, each of whose
  phases is one atomic step, together with enrollment, revocation, retention and a clock that
  never runs backwards.
*/
module AuthProtocol {
  import opened Sequences
  import opened AuthStore

  datatype Kind = Totp | Recovery

  /** What an unfinished call knows after its last phase. */
  datatype Phase =
    | Resolved(kind: Kind, user: int, text: string)
    | Counted(kind: Kind, user: int, text: string, backoff: int)
    | Cleared(kind: Kind, user: int, text: string)
    | Stepped(user: int, token: string, readAt: real, step: Option<int>)
    | Screened(user: int, code: string)
    | Scanned(user: int, code: string, row: Option<int>)

  datatype Reason = UserNotFound | UserRevoked | RateLimited(wait: int) | ReplayAttack | CryptoError | SystemError

  datatype Event =
    | Enrolled(user: int, issued: nat)
    | TotpSuccess(user: int, step: int, readAt: real, at: real)
    | RecoverySuccess(user: int, row: int, at: real)
    | FailureRecorded(user: int, second: int)
    | Declined(reason: Reason)

  datatype Sys = Sys(db: Db, clock: real, calls: map<int, Phase>, log: seq<Event>)

  const INITIAL := Sys(EMPTY, 0.0, map[], [])

  datatype Action =
    | Tick(to: real)
    | Enroll(name: string, secret: Secret, codes: seq<string>)
    | Revoke(name: string)
    | Purge(days: int, readAt: real)
    | Begin(caller: int, kind: Kind, name: string, text: string)
    | Count(caller: int)
    | Gated(caller: int)
    | ReadClock(caller: int)
    | VerifyCommit(caller: int)
    | Screen(caller: int)
    | Scan(caller: int)
    | RecoveryCommit(caller: int)

  function Advance(st: Sys, caller: int, phase: Phase): Sys {
    st.(calls := st.calls[caller := phase])
  }

  /** The call returns after emitting an event. */
  function Finish(st: Sys, caller: int, event: Event): Sys {
    st.(calls := st.calls - {caller}, log := st.log + [event])
  }

  function DoBegin(st: Sys, caller: int, kind: Kind, name: string, text: string): Sys
    requires caller !in st.calls
  {
    match UserNamed(st.db.users, name)
    case None => Finish(st, caller, Declined(UserNotFound))
    case Some(u) =>
      if st.db.users[u].active then Advance(st, caller, Resolved(kind, u, text))
      else Finish(st, caller, Declined(UserRevoked))
  }

  function DoGate(s: Settings, st: Sys, caller: int, p: Phase): Sys
    requires p.Counted?
  {
    match GateAt(s, st.db.attempts, p.user, p.backoff, st.clock)
    case Reject(wait) => Finish(st, caller, Declined(RateLimited(wait)))
    case Pass => Advance(st, caller, Cleared(p.kind, p.user, p.text))
  }

  function DoReadClock(s: Settings, st: Sys, caller: int, p: Phase): Sys
    requires p.Cleared?
  {
    if !(0 <= p.user < |st.db.users|) then st
    else match st.db.users[p.user].secret
         case InvalidToken => Finish(st, caller, Declined(CryptoError))
         case Unusable => Finish(st, caller, Declined(SystemError))
         case Readable(seed) =>
           Advance(st, caller, Stepped(p.user, p.text, st.clock, MatchStep(s, seed, p.text, st.clock)))
  }

  function DoVerify(st: Sys, caller: int, p: Phase): Sys
    requires p.Stepped?
  {
    var db := AfterVerify(st.db, p.user, p.token, p.step, p.readAt, st.clock);
    match VerifyDecision(st.db, p.user, p.token, p.step, st.clock)
    case Revoked => Finish(st, caller, Declined(UserRevoked))
    case Replayed => Finish(st, caller, Declined(ReplayAttack))
    case Accepted => Finish(st.(db := db), caller, TotpSuccess(p.user, p.step.value, p.readAt, st.clock))
    case Refused => Finish(st.(db := db), caller, FailureRecorded(p.user, st.clock.Floor))
  }

  function DoScreen(st: Sys, caller: int, p: Phase): Sys
    requires p.Cleared?
  {
    if RecentRecoveryUse(st.db.attempts, p.user, p.text, st.clock)
    then Finish(st, caller, Declined(ReplayAttack))
    else Advance(st, caller, Screened(p.user, p.text))
  }

  function DoRecovery(st: Sys, caller: int, p: Phase): Sys
    requires p.Scanned?
  {
    var db := AfterRecovery(st.db, p.user, p.code, p.row, st.clock);
    match p.row
    case None => Finish(st.(db := db), caller, FailureRecorded(p.user, st.clock.Floor))
    case Some(id) =>
      if HasRow(st.db.codes, id) then Finish(st.(db := db), caller, RecoverySuccess(p.user, id, st.clock))
      else Finish(st, caller, Declined(ReplayAttack))
  }

  /** One atomic step; an action whose caller is in another phase does nothing. */
  function Do(s: Settings, st: Sys, a: Action): Sys {
    match a
    case Tick(to) => if to >= st.clock then st.(clock := to) else st
    case Enroll(name, secret, codes) =>
      if UserNamed(st.db.users, name).Some? then st
      else st.(db := AfterEnroll(st.db, name, secret, codes),
               log := st.log + [Enrolled(|st.db.users|, |codes|)])
    case Revoke(name) => st.(db := AfterRevoke(st.db, name))
    case Purge(days, readAt) =>
      if days >= 1 && readAt <= st.clock then st.(db := AfterPurge(st.db, days, readAt, st.clock)) else st
    case Begin(c, kind, name, text) =>
      if c in st.calls then st else DoBegin(st, c, kind, name, text)
    case Count(c) =>
      if c in st.calls && st.calls[c].Resolved? then
        var p := st.calls[c];
        Advance(st, c, Counted(p.kind, p.user, p.text, Backoff(s, st.db.attempts, p.user, st.clock)))
      else st
    case Gated(c) =>
      if c in st.calls && st.calls[c].Counted? then DoGate(s, st, c, st.calls[c]) else st
    case ReadClock(c) =>
      if c in st.calls && st.calls[c].Cleared? && st.calls[c].kind.Totp?
      then DoReadClock(s, st, c, st.calls[c]) else st
    case VerifyCommit(c) =>
      if c in st.calls && st.calls[c].Stepped? then DoVerify(st, c, st.calls[c]) else st
    case Screen(c) =>
      if c in st.calls && st.calls[c].Cleared? && st.calls[c].kind.Recovery?
      then DoScreen(st, c, st.calls[c]) else st
    case Scan(c) =>
      if c in st.calls && st.calls[c].Screened? then
        var p := st.calls[c];
        Advance(st, c, Scanned(p.user, p.code, MatchCode(st.db.codes, p.user, p.code)))
      else st
    case RecoveryCommit(c) =>
      if c in st.calls && st.calls[c].Scanned? then DoRecovery(st, c, st.calls[c]) else st
  }

  function Exec(s: Settings, actions: seq<Action>): Sys {
    if actions == [] then INITIAL
    else Do(s, Exec(s, actions[..|actions| - 1]), actions[|actions| - 1])
  }
}
