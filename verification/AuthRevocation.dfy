/** What revocation stops, and exactly which calls in flight it does not stop. */
module AuthRevocation {
  import opened Sequences
  import opened AuthStore
  import opened AuthProtocol
  import opened AuthLedger

  ghost predicate IsRevoked(st: Sys, user: int) {
    0 <= user < |st.db.users| && !st.db.users[user].active
  }

  ghost predicate SuccessOf(e: Event, user: int) {
    (e.TotpSuccess? || e.RecoverySuccess?) && e.user == user
  }

  ghost predicate HasCode(db: Db, user: int, code: string) {
    exists r :: r in db.codes && r.user == user && r.code == code
  }

  /** A recovery call that carries a stored code of its user, or has found a row that is still stored. */
  ghost predicate Redeemable(db: Db, p: Phase) {
    match p
    case Resolved(kind, user, text) => kind.Recovery? && HasCode(db, user, text)
    case Counted(kind, user, text, _) => kind.Recovery? && HasCode(db, user, text)
    case Cleared(kind, user, text) => kind.Recovery? && HasCode(db, user, text)
    case Screened(user, code) => HasCode(db, user, code)
    case Scanned(_, _, row) => row.Some? && HasRow(db.codes, row.value)
    case Stepped(_, _, _, _) => false
  }

  ghost predicate CanRedeem(st: Sys, user: int) {
    exists c :: c in st.calls && st.calls[c].user == user && Redeemable(st.db, st.calls[c])
  }

  // ---- nothing else succeeds ----

  lemma RevokedStays(s: Settings, st: Sys, a: Action, user: int)
    requires IsRevoked(st, user)
    ensures IsRevoked(Do(s, st, a), user)
  {
  }

  lemma RevokedBeginsNothing(s: Settings, st: Sys, a: Action, user: int)
    requires IsRevoked(st, user)
    ensures var u := Do(s, st, a);
            forall c :: c in u.calls && u.calls[c].user == user ==> c in st.calls && st.calls[c].user == user
  {
  }

  lemma RevokedVerifiesNothing(s: Settings, st: Sys, a: Action, user: int)
    requires IsRevoked(st, user)
    ensures var u := Do(s, st, a);
            u.log == st.log
            || (|u.log| == |st.log| + 1 && u.log == st.log + [u.log[|st.log|]]
                && !(u.log[|st.log|].TotpSuccess? && u.log[|st.log|].user == user))
  {
  }

  /** At a step, a revoked user stays revoked, begins no call and completes no verify call. */
  lemma StaysRevoked(s: Settings, st: Sys, a: Action, user: int)
    requires IsRevoked(st, user)
    ensures var u := Do(s, st, a);
            && IsRevoked(u, user)
            && (forall c :: c in u.calls && u.calls[c].user == user ==> c in st.calls && st.calls[c].user == user)
            && (u.log == st.log
                || (|u.log| == |st.log| + 1 && u.log == st.log + [u.log[|st.log|]]
                    && !(u.log[|st.log|].TotpSuccess? && u.log[|st.log|].user == user)))
  {
    RevokedStays(s, st, a, user);
    RevokedBeginsNothing(s, st, a, user);
    RevokedVerifiesNothing(s, st, a, user);
  }

  /** The codes of an existing user only ever become fewer, and no row id is issued twice. */
  lemma CodesShrink(s: Settings, st: Sys, a: Action, user: int, code: string, id: int)
    requires 0 <= user < |st.db.users| && id <= st.db.lastCode
    ensures var u := Do(s, st, a);
            && (HasCode(u.db, user, code) ==> HasCode(st.db, user, code))
            && (HasRow(u.db.codes, id) ==> HasRow(st.db.codes, id))
  {
    var u := Do(s, st, a);
    if a.RecoveryCommit? && a.caller in st.calls && st.calls[a.caller].Scanned? && st.calls[a.caller].row.Some? {
      FilterMember(OtherRow(st.calls[a.caller].row.value), st.db.codes);
    } else if a.Enroll? && UserNamed(st.db.users, a.name).None? {
      var rows := IssuedRows(|st.db.users|, st.db.lastCode + 1, a.codes);
      assert u.db.codes == st.db.codes + rows;
      forall r | r in rows ensures r.user == |st.db.users| && r.id > st.db.lastCode {
        var i :| 0 <= i < |rows| && rows[i] == r;
      }
    }
  }

  lemma NoNewScanned(s: Settings, st: Sys, a: Action, c: int)
    requires LedgerInv(st) && c in st.calls && c in Do(s, st, a).calls && Do(s, st, a).calls[c].Scanned?
    requires 0 <= st.calls[c].user < |st.db.users| && Redeemable(Do(s, st, a).db, Do(s, st, a).calls[c])
    ensures Redeemable(st.db, st.calls[c])
  {
    var p, q := st.calls[c], Do(s, st, a).calls[c];
    if p.Screened? {
      FoundHasCode(s, st, a, c);
    } else {
      assert p == q && q.row.value <= st.db.lastCode;
      CodesShrink(s, st, a, p.user, "", q.row.value);
    }
  }

  lemma FoundHasCode(s: Settings, st: Sys, a: Action, c: int)
    requires c in st.calls && c in Do(s, st, a).calls && st.calls[c].Screened? && Do(s, st, a).calls[c].Scanned?
    ensures Do(s, st, a).calls[c].row.Some? ==> HasCode(st.db, st.calls[c].user, st.calls[c].code)
  {
    assert a == Scan(c);
  }

  lemma NoNewScreened(s: Settings, st: Sys, a: Action, c: int)
    requires LedgerInv(st) && c in st.calls && c in Do(s, st, a).calls && Do(s, st, a).calls[c].Screened?
    requires 0 <= st.calls[c].user < |st.db.users| && Redeemable(Do(s, st, a).db, Do(s, st, a).calls[c])
    ensures Redeemable(st.db, st.calls[c])
  {
    CodesShrink(s, st, a, st.calls[c].user, Do(s, st, a).calls[c].code, 0);
  }

  /** A call that can redeem after a step could already redeem before it. */
  lemma NoNewRedeemer(s: Settings, st: Sys, a: Action, user: int, c: int)
    requires LedgerInv(st) && IsRevoked(st, user)
    requires c in Do(s, st, a).calls && Do(s, st, a).calls[c].user == user
    requires Redeemable(Do(s, st, a).db, Do(s, st, a).calls[c])
    ensures c in st.calls && st.calls[c].user == user && Redeemable(st.db, st.calls[c])
  {
    StaysRevoked(s, st, a, user);
    var q := Do(s, st, a).calls[c];
    if q.Scanned? {
      NoNewScanned(s, st, a, c);
    } else if q.Screened? {
      NoNewScreened(s, st, a, c);
    } else {
      CodesShrink(s, st, a, user, q.text, 0);
    }
  }

  /** A recovery success of the user at this step is a call that could redeem. */
  lemma SuccessRedeems(s: Settings, st: Sys, a: Action, user: int)
    requires IsRevoked(st, user)
    requires var u := Do(s, st, a);
             |u.log| == |st.log| + 1 && SuccessOf(u.log[|st.log|], user)
    ensures CanRedeem(st, user)
  {
    StaysRevoked(s, st, a, user);
    var e := Do(s, st, a).log[|st.log|];
    assert a.RecoveryCommit? && a.caller in st.calls && st.calls[a.caller].Scanned?;
    assert st.calls[a.caller].user == user && Redeemable(st.db, st.calls[a.caller]);
  }

  // ---- from one moment of a run to a later one ----

  /** Every call of the user in flight later was in flight before. */
  ghost predicate NoNewCalls(st: Sys, u: Sys, user: int) {
    forall c :: c in u.calls && u.calls[c].user == user ==> c in st.calls && st.calls[c].user == user
  }

  /** Between the two moments no verify call of the user succeeded, and nothing did unless a call could redeem. */
  ghost predicate NoNewSuccess(st: Sys, u: Sys, user: int) {
    && |u.log| >= |st.log| && u.log[..|st.log|] == st.log
    && (forall i :: |st.log| <= i < |u.log| ==> Harmless(st, u.log[i], user))
  }

  ghost predicate Harmless(st: Sys, e: Event, user: int) {
    && !(e.TotpSuccess? && e.user == user)
    && (SuccessOf(e, user) ==> CanRedeem(st, user))
  }

  ghost predicate Silenced(st: Sys, u: Sys, user: int) {
    && IsRevoked(u, user) && NoNewCalls(st, u, user) && NoNewSuccess(st, u, user)
    && (CanRedeem(u, user) ==> CanRedeem(st, user))
  }

  lemma StepRedeemers(s: Settings, st: Sys, a: Action, user: int)
    requires LedgerInv(st) && IsRevoked(st, user) && CanRedeem(Do(s, st, a), user)
    ensures CanRedeem(st, user)
  {
    var u := Do(s, st, a);
    var c :| c in u.calls && u.calls[c].user == user && Redeemable(u.db, u.calls[c]);
    NoNewRedeemer(s, st, a, user, c);
  }

  lemma StepSuccess(s: Settings, st: Sys, a: Action, user: int)
    requires IsRevoked(st, user)
    ensures NoNewSuccess(st, Do(s, st, a), user)
  {
    var u := Do(s, st, a);
    StaysRevoked(s, st, a, user);
    if |u.log| == |st.log| + 1 && SuccessOf(u.log[|st.log|], user) {
      SuccessRedeems(s, st, a, user);
    }
  }

  lemma StepSilenced(s: Settings, st: Sys, a: Action, user: int)
    requires LedgerInv(st) && IsRevoked(st, user)
    ensures Silenced(st, Do(s, st, a), user)
  {
    StaysRevoked(s, st, a, user);
    StepSuccess(s, st, a, user);
    if CanRedeem(Do(s, st, a), user) {
      StepRedeemers(s, st, a, user);
    }
  }

  lemma SilencedTrans(st: Sys, t: Sys, u: Sys, user: int)
    requires Silenced(st, t, user) && Silenced(t, u, user)
    ensures Silenced(st, u, user)
  {
    assert u.log[..|st.log|] == t.log[..|st.log|];
    forall i | |st.log| <= i < |u.log| ensures Harmless(st, u.log[i], user) {
      if i < |t.log| {
        assert u.log[i] == t.log[i] && Harmless(st, t.log[i], user);
      } else {
        assert Harmless(t, u.log[i], user);
      }
    }
  }

  /**
    After a revocation commits, no call of the user begins and no verify transaction of the user
    succeeds; and nothing at all succeeds unless a recovery call then in flight can redeem.
  */
  lemma {:induction false} RevocationIsFinal(s: Settings, before: seq<Action>, after: seq<Action>, user: int)
    requires IsRevoked(Exec(s, before), user)
    ensures Silenced(Exec(s, before), Exec(s, before + after), user)
    decreases |after|
  {
    if after == [] {
      assert before + after == before;
    } else {
      var shorter, a := after[..|after| - 1], after[|after| - 1];
      RevocationIsFinal(s, before, shorter, user);
      RunKeepsLedger(s, before + shorter);
      assert before + after == (before + shorter) + [a];
      After(s, before + shorter, a);
      StepSilenced(s, Exec(s, before + shorter), a, user);
      SilencedTrans(Exec(s, before), Exec(s, before + shorter), Exec(s, before + after), user);
    }
  }

  // ---- every redeemable call can still succeed ----

  /** The log of `u` is that of `st` and one success of the user. */
  ghost predicate OneMoreSuccess(st: Sys, u: Sys, user: int) {
    |u.log| == |st.log| + 1 && u.log[..|st.log|] == st.log && SuccessOf(u.log[|st.log|], user)
  }

  lemma After(s: Settings, run: seq<Action>, a: Action)
    ensures Exec(s, run + [a]) == Do(s, Exec(s, run), a)
  {
    assert (run + [a])[..|run|] == run;
  }

  lemma FinishScanned(s: Settings, run: seq<Action>, c: int) returns (more: seq<Action>)
    requires var st := Exec(s, run); c in st.calls && st.calls[c].Scanned? && Redeemable(st.db, st.calls[c])
    ensures OneMoreSuccess(Exec(s, run), Exec(s, run + more), Exec(s, run).calls[c].user)
  {
    more := [RecoveryCommit(c)];
    After(s, run, RecoveryCommit(c));
  }

  lemma ScanFinds(s: Settings, st: Sys, c: int)
    requires c in st.calls && st.calls[c].Screened? && Redeemable(st.db, st.calls[c])
    ensures var u := Do(s, st, Scan(c));
            && u.log == st.log && c in u.calls && u.calls[c].Scanned? && u.calls[c].user == st.calls[c].user
            && Redeemable(u.db, u.calls[c])
  {
    assert MatchCode(st.db.codes, st.calls[c].user, st.calls[c].code).Some?;
  }

  lemma FinishScreened(s: Settings, run: seq<Action>, c: int) returns (more: seq<Action>)
    requires var st := Exec(s, run); c in st.calls && st.calls[c].Screened? && Redeemable(st.db, st.calls[c])
    ensures OneMoreSuccess(Exec(s, run), Exec(s, run + more), Exec(s, run).calls[c].user)
  {
    ScanFinds(s, Exec(s, run), c);
    After(s, run, Scan(c));
    var rest := FinishScanned(s, run + [Scan(c)], c);
    more := [Scan(c)] + rest;
    assert run + more == run + [Scan(c)] + rest;
  }

  /** A moment by which every recorded attempt is at least 90 s old. */
  function QuietTime(attempts: seq<Attempt>, from: real): (t: real)
    ensures t >= from && forall a :: a in attempts ==> a.at + 90 <= t.Floor
  {
    if attempts == [] then from
    else
      var t, last := QuietTime(attempts[..|attempts| - 1], from), attempts[|attempts| - 1].at;
      assert attempts == attempts[..|attempts| - 1] + [attempts[|attempts| - 1]];
      if t.Floor >= last + 90 then t else (last + 90) as real
  }

  lemma FinishCleared(s: Settings, run: seq<Action>, c: int) returns (more: seq<Action>)
    requires var st := Exec(s, run); c in st.calls && st.calls[c].Cleared? && Redeemable(st.db, st.calls[c])
    ensures OneMoreSuccess(Exec(s, run), Exec(s, run + more), Exec(s, run).calls[c].user)
  {
    var st := Exec(s, run);
    var p, t := st.calls[c], QuietTime(st.db.attempts, st.clock);
    After(s, run, Tick(t));
    var run1 := run + [Tick(t)];
    After(s, run1, Screen(c));
    assert !RecentRecoveryUse(st.db.attempts, p.user, p.text, t);
    var rest := FinishScreened(s, run1 + [Screen(c)], c);
    more := [Tick(t), Screen(c)] + rest;
    assert run + more == run1 + [Screen(c)] + rest;
  }

  /** A moment from which the gate no longer stops a call. */
  function OpenTime(st: Sys, p: Phase): real
    requires p.Counted?
  {
    var end := (LastFailure(st.db.attempts, p.user) + p.backoff) as real;
    if end > st.clock then end else st.clock
  }

  lemma GateOpen(s: Settings, st: Sys, c: int)
    requires c in st.calls && st.calls[c].Counted? && st.clock >= OpenTime(st, st.calls[c])
    ensures var p := st.calls[c];
            Do(s, st, Gated(c)) == st.(calls := st.calls[c := Cleared(p.kind, p.user, p.text)])
  {
    var p := st.calls[c];
    assert GateAt(s, st.db.attempts, p.user, p.backoff, st.clock) == Pass;
  }

  lemma FinishCounted(s: Settings, run: seq<Action>, c: int) returns (more: seq<Action>)
    requires var st := Exec(s, run); c in st.calls && st.calls[c].Counted? && Redeemable(st.db, st.calls[c])
    ensures OneMoreSuccess(Exec(s, run), Exec(s, run + more), Exec(s, run).calls[c].user)
  {
    var st := Exec(s, run);
    var t := OpenTime(st, st.calls[c]);
    var run1 := run + [Tick(t)];
    After(s, run, Tick(t));
    GateOpen(s, Exec(s, run1), c);
    After(s, run1, Gated(c));
    var rest := FinishCleared(s, run1 + [Gated(c)], c);
    more := [Tick(t), Gated(c)] + rest;
    assert run + more == run1 + [Gated(c)] + rest;
  }

  lemma FinishResolved(s: Settings, run: seq<Action>, c: int) returns (more: seq<Action>)
    requires var st := Exec(s, run); c in st.calls && st.calls[c].Resolved? && Redeemable(st.db, st.calls[c])
    ensures OneMoreSuccess(Exec(s, run), Exec(s, run + more), Exec(s, run).calls[c].user)
  {
    After(s, run, Count(c));
    var rest := FinishCounted(s, run + [Count(c)], c);
    more := [Count(c)] + rest;
    assert run + more == run + [Count(c)] + rest;
  }

  /** Any call that can redeem succeeds in some continuation: wait out the delay and 90 s, then go on. */
  lemma RedeemerCanFinish(s: Settings, run: seq<Action>, user: int) returns (more: seq<Action>)
    requires CanRedeem(Exec(s, run), user)
    ensures OneMoreSuccess(Exec(s, run), Exec(s, run + more), user)
  {
    var st := Exec(s, run);
    var c :| c in st.calls && st.calls[c].user == user && Redeemable(st.db, st.calls[c]);
    match st.calls[c]
    case Resolved(_, _, _) => more := FinishResolved(s, run, c);
    case Counted(_, _, _, _) => more := FinishCounted(s, run, c);
    case Cleared(_, _, _) => more := FinishCleared(s, run, c);
    case Screened(_, _) => more := FinishScreened(s, run, c);
    case Scanned(_, _, _) => more := FinishScanned(s, run, c);
  }

  /** Some event after the run `before` is a success of the user. */
  ghost predicate SucceedsLater(s: Settings, before: seq<Action>, after: seq<Action>, user: int) {
    var st, u := Exec(s, before), Exec(s, before + after);
    exists i :: |st.log| <= i < |u.log| && SuccessOf(u.log[i], user)
  }

  /**
    A revoked user can still authenticate in some continuation if and only if, at that moment, a
    recovery call of the user is in flight that can redeem.
  */
  lemma RevokedSucceedsExactly(s: Settings, before: seq<Action>, user: int)
    requires IsRevoked(Exec(s, before), user)
    ensures (exists after :: SucceedsLater(s, before, after, user)) <==> CanRedeem(Exec(s, before), user)
  {
    if after :| SucceedsLater(s, before, after, user) {
      RevocationIsFinal(s, before, after, user);
    }
    if CanRedeem(Exec(s, before), user) {
      var more := RedeemerCanFinish(s, before, user);
      assert SucceedsLater(s, before, more, user);
    }
  }

  /** Revoking an enrolled name takes effect at its own step. */
  lemma RevokeTakesEffect(s: Settings, actions: seq<Action>, name: string)
    requires UserNamed(Exec(s, actions).db.users, name).Some?
    ensures IsRevoked(Exec(s, actions + [Revoke(name)]), UserNamed(Exec(s, actions).db.users, name).value)
  {
    After(s, actions, Revoke(name));
  }
}
