/** Recovery codes are conserved under any interleaving. */
module AuthLedger {
  import opened Sequences
  import opened AuthStore
  import opened AuthProtocol

  function PaidBy(user: int): Event -> bool { (e: Event) => e.RecoverySuccess? && e.user == user }

  ghost function Issued(log: seq<Event>, user: int): nat {
    if log == [] then 0
    else var e := log[|log| - 1];
         Issued(log[..|log| - 1], user) + (if e.Enrolled? && e.user == user then e.issued else 0)
  }

  ghost function Stored(db: Db, user: int): nat {
    |Filter(OwnedBy(user), db.codes)|
  }

  ghost function Paid(log: seq<Event>, user: int): nat {
    |Filter(PaidBy(user), log)|
  }

  ghost predicate DistinctRows(codes: seq<CodeRow>) {
    forall i, j :: 0 <= i < j < |codes| ==> codes[i].id != codes[j].id
  }

  ghost predicate PaidOnce(log: seq<Event>) {
    forall i, j :: 0 <= i < j < |log| && log[i].RecoverySuccess? && log[j].RecoverySuccess? ==> log[i].row != log[j].row
  }

  ghost predicate CodesKeyed(db: Db) {
    && DistinctRows(db.codes) && db.lastCode >= 0
    && (forall c :: c in db.codes ==> 1 <= c.id <= db.lastCode && 0 <= c.user < |db.users|)
  }

  /** A row found by a scan belongs to its caller for as long as it is stored; a spent row is gone for good. */
  ghost predicate RowsSettled(st: Sys) {
    && (forall c :: c in st.calls && st.calls[c].Scanned? && st.calls[c].row.Some? ==>
          st.calls[c].row.value <= st.db.lastCode
          && forall r :: r in st.db.codes && r.id == st.calls[c].row.value ==> r.user == st.calls[c].user)
    && (forall e :: e in st.log && e.RecoverySuccess? ==> e.row <= st.db.lastCode && !HasRow(st.db.codes, e.row))
    && PaidOnce(st.log)
  }

  ghost predicate Balanced(st: Sys) {
    forall user :: Stored(st.db, user) + Paid(st.log, user) == Issued(st.log, user)
  }

  ghost predicate LedgerInv(st: Sys) {
    CodesKeyed(st.db) && RowsSettled(st) && Balanced(st)
  }

  ghost predicate Owns(codes: seq<CodeRow>, id: int, user: int) {
    exists c :: c in codes && c.id == id && c.user == user
  }

  lemma OwnsNext(init: seq<CodeRow>, last: CodeRow, id: int, user: int)
    requires DistinctRows(init + [last])
    ensures Owns(init + [last], id, user) <==> Owns(init, id, user) || (last.id == id && last.user == user)
    ensures last.id == id ==> !Owns(init, id, user)
  {
    var codes := init + [last];
    assert last in codes && forall c :: c in init ==> c in codes;
    forall c | c in init ensures c.id != last.id {
      var i :| 0 <= i < |init| && init[i] == c;
      assert codes[i].id != codes[|init|].id;
    }
  }

  lemma {:induction false} DeleteCount(codes: seq<CodeRow>, id: int, user: int)
    requires DistinctRows(codes)
    ensures |Filter(OwnedBy(user), Filter(OtherRow(id), codes))|
            == |Filter(OwnedBy(user), codes)| - (if Owns(codes, id, user) then 1 else 0)
  {
    if codes != [] {
      var init, last := codes[..|codes| - 1], codes[|codes| - 1];
      assert codes == init + [last];
      OwnsNext(init, last, id, user);
      DeleteCount(init, id, user);
      var left := Filter(OtherRow(id), init);
      assert (left + [last])[..|left + [last]| - 1] == left;
      assert Filter(OtherRow(id), codes) == if last.id == id then left else left + [last];
    }
  }

  lemma {:induction false} DeleteKeepsDistinct(codes: seq<CodeRow>, id: int)
    requires DistinctRows(codes)
    ensures DistinctRows(Filter(OtherRow(id), codes))
  {
    if codes != [] {
      var init, last := codes[..|codes| - 1], codes[|codes| - 1];
      DeleteKeepsDistinct(init, id);
      FilterMember(OtherRow(id), init);
      forall c | c in Filter(OtherRow(id), init) ensures c.id != last.id {
        var i :| 0 <= i < |init| && init[i] == c;
        assert codes[i].id != codes[|init|].id;
      }
    }
  }

  lemma PaidAppend(log: seq<Event>, e: Event, user: int)
    ensures Paid(log + [e], user) == Paid(log, user) + (if e.RecoverySuccess? && e.user == user then 1 else 0)
    ensures Issued(log + [e], user) == Issued(log, user) + (if e.Enrolled? && e.user == user then e.issued else 0)
  {
    assert (log + [e])[..|log + [e]| - 1] == log;
  }

  /** Spending a stored row moves one unit from stored to paid, for its owner only. */
  lemma SpendKeepsLedger(st: Sys, caller: int)
    requires LedgerInv(st) && caller in st.calls && st.calls[caller].Scanned?
    ensures LedgerInv(DoRecovery(st, caller, st.calls[caller]))
  {
    var p := st.calls[caller];
    var u := DoRecovery(st, caller, p);
    var e := u.log[|st.log|];
    assert u.log == st.log + [e];
    forall user
      ensures Paid(u.log, user) == Paid(st.log, user) + (if e.RecoverySuccess? && e.user == user then 1 else 0)
      ensures Issued(u.log, user) == Issued(st.log, user)
    {
      PaidAppend(st.log, e, user);
    }
    if p.row.Some? && HasRow(st.db.codes, p.row.value) {
      var id := p.row.value;
      FilterMember(OtherRow(id), st.db.codes);
      DeleteKeepsDistinct(st.db.codes, id);
      forall user ensures Stored(u.db, user) + Paid(u.log, user) == Issued(u.log, user) {
        DeleteCount(st.db.codes, id, user);
        assert Stored(st.db, user) + Paid(st.log, user) == Issued(st.log, user);
      }
      assert CodesKeyed(u.db);
      SpentRowsSettled(st, u, caller, id, e);
    } else {
      forall user ensures Stored(u.db, user) + Paid(u.log, user) == Issued(u.log, user) {
        assert Stored(st.db, user) + Paid(st.log, user) == Issued(st.log, user);
      }
      QuietRowsSettled(st, u);
    }
  }

  lemma SpentRowsSettled(st: Sys, u: Sys, caller: int, id: int, e: Event)
    requires CodesKeyed(st.db) && RowsSettled(st)
    requires e.RecoverySuccess? && e.row == id && u.log == st.log + [e] && HasRow(st.db.codes, id)
    requires u.calls == st.calls - {caller} && u.db.lastCode == st.db.lastCode
    requires forall c :: c in u.db.codes <==> c in st.db.codes && c.id != id
    ensures RowsSettled(u)
  {
    var row :| row in st.db.codes && row.id == id;
    assert row.id <= st.db.lastCode;
    forall f | f in u.log && f.RecoverySuccess?
      ensures f.row <= u.db.lastCode && !HasRow(u.db.codes, f.row)
    {
      if f in st.log {
        assert !HasRow(st.db.codes, f.row);
      }
    }
    forall i | 0 <= i < |st.log| && st.log[i].RecoverySuccess?
      ensures st.log[i].row != id
    {
      assert st.log[i] in st.log;
      assert !HasRow(st.db.codes, st.log[i].row);
    }
    assert PaidOnce(u.log);
  }

  lemma QuietRowsSettled(st: Sys, u: Sys)
    requires RowsSettled(st)
    requires u.db.codes == st.db.codes && u.db.lastCode == st.db.lastCode
    requires forall c :: c in u.calls && u.calls[c].Scanned? ==> c in st.calls && u.calls[c] == st.calls[c]
    requires u.log == st.log
             || (|u.log| == |st.log| + 1 && u.log[..|st.log|] == st.log && !u.log[|st.log|].RecoverySuccess?)
    ensures RowsSettled(u)
  {
    assert u.log != st.log ==> u.log == st.log + [u.log[|st.log|]];
  }

  lemma EnrollKeepsLedger(s: Settings, st: Sys, a: Action)
    requires LedgerInv(st) && a.Enroll? && UserNamed(st.db.users, a.name).None?
    ensures LedgerInv(Do(s, st, a))
  {
    var u := Do(s, st, a);
    var fresh' := |st.db.users|;
    var rows := IssuedRows(fresh', st.db.lastCode + 1, a.codes);
    assert u.db.codes == st.db.codes + rows;
    forall c | c in rows ensures c.user == fresh' && st.db.lastCode < c.id <= u.db.lastCode {
      var i :| 0 <= i < |rows| && rows[i] == c;
    }
    assert DistinctRows(u.db.codes) by {
      forall i, j | 0 <= i < j < |u.db.codes| ensures u.db.codes[i].id != u.db.codes[j].id {
        if i < |st.db.codes| <= j {
          assert u.db.codes[i] in st.db.codes && u.db.codes[j] in rows;
        }
      }
    }
    assert CodesKeyed(u.db);
    forall user ensures Stored(u.db, user) + Paid(u.log, user) == Issued(u.log, user) {
      PaidAppend(st.log, Enrolled(fresh', |a.codes|), user);
      FilterAppend(OwnedBy(user), st.db.codes, rows);
      if user == fresh' {
        FilterAll(OwnedBy(user), rows);
      } else {
        FilterNone(OwnedBy(user), rows);
      }
      assert Stored(st.db, user) + Paid(st.log, user) == Issued(st.log, user);
    }
    EnrolledRowsSettled(st, u, rows);
  }

  lemma EnrolledRowsSettled(st: Sys, u: Sys, rows: seq<CodeRow>)
    requires RowsSettled(st) && u.calls == st.calls && u.db.codes == st.db.codes + rows
    requires u.db.lastCode >= st.db.lastCode && forall c :: c in rows ==> c.id > st.db.lastCode
    requires |u.log| == |st.log| + 1 && u.log[..|st.log|] == st.log && !u.log[|st.log|].RecoverySuccess?
    ensures RowsSettled(u)
  {
    assert u.log == st.log + [u.log[|st.log|]];
    forall e | e in u.log && e.RecoverySuccess?
      ensures e.row <= u.db.lastCode && !HasRow(u.db.codes, e.row)
    {
      assert e in st.log && !HasRow(st.db.codes, e.row);
    }
  }

  lemma ScanKeepsLedger(s: Settings, st: Sys, c: int)
    requires LedgerInv(st) && c in st.calls && st.calls[c].Screened?
    ensures LedgerInv(Do(s, st, Scan(c)))
  {
    var p := st.calls[c];
    var row := MatchCode(st.db.codes, p.user, p.code);
    if row.Some? {
      var r :| r in st.db.codes && r.id == row.value && r.user == p.user;
      forall q | q in st.db.codes && q.id == r.id ensures q.user == p.user {
        var i :| 0 <= i < |st.db.codes| && st.db.codes[i] == r;
        var j :| 0 <= j < |st.db.codes| && st.db.codes[j] == q;
        assert i == j;
      }
    }
  }

  lemma OtherTables(s: Settings, st: Sys, a: Action)
    requires !a.RecoveryCommit? && !a.Scan?
    requires a.Enroll? ==> UserNamed(st.db.users, a.name).Some?
    ensures var u := Do(s, st, a);
            u.db.codes == st.db.codes && u.db.lastCode == st.db.lastCode && |u.db.users| == |st.db.users|
  {
  }

  lemma OtherLog(s: Settings, st: Sys, a: Action)
    requires !a.RecoveryCommit? && !a.Scan?
    requires a.Enroll? ==> UserNamed(st.db.users, a.name).Some?
    ensures var u := Do(s, st, a);
            u.log == st.log
            || (|u.log| == |st.log| + 1 && u.log == st.log + [u.log[|st.log|]]
                && !u.log[|st.log|].RecoverySuccess? && !u.log[|st.log|].Enrolled?)
  {
  }

  lemma OtherCalls(s: Settings, st: Sys, a: Action)
    requires !a.RecoveryCommit? && !a.Scan?
    ensures var u := Do(s, st, a);
            forall c :: c in u.calls && u.calls[c].Scanned? ==> c in st.calls && u.calls[c] == st.calls[c]
  {
  }

  /** A step that touches no code row and logs no payment or enrollment. */
  lemma QuietKeepsLedger(st: Sys, u: Sys)
    requires LedgerInv(st)
    requires u.db.codes == st.db.codes && u.db.lastCode == st.db.lastCode && |u.db.users| == |st.db.users|
    requires forall c :: c in u.calls && u.calls[c].Scanned? ==> c in st.calls && u.calls[c] == st.calls[c]
    requires u.log == st.log
             || (|u.log| == |st.log| + 1 && u.log == st.log + [u.log[|st.log|]]
                 && !u.log[|st.log|].RecoverySuccess? && !u.log[|st.log|].Enrolled?)
    ensures LedgerInv(u)
  {
    QuietRowsSettled(st, u);
    forall user ensures Stored(u.db, user) + Paid(u.log, user) == Issued(u.log, user) {
      assert Stored(st.db, user) + Paid(st.log, user) == Issued(st.log, user);
      if u.log != st.log {
        PaidAppend(st.log, u.log[|st.log|], user);
      }
    }
  }

  lemma OtherKeepsLedger(s: Settings, st: Sys, a: Action)
    requires LedgerInv(st) && !a.RecoveryCommit? && !a.Scan?
    requires a.Enroll? ==> UserNamed(st.db.users, a.name).Some?
    ensures LedgerInv(Do(s, st, a))
  {
    OtherTables(s, st, a);
    OtherLog(s, st, a);
    OtherCalls(s, st, a);
    QuietKeepsLedger(st, Do(s, st, a));
  }

  lemma {:induction false} RunKeepsLedger(s: Settings, actions: seq<Action>)
    ensures LedgerInv(Exec(s, actions))
  {
    if actions != [] {
      var st, a := Exec(s, actions[..|actions| - 1]), actions[|actions| - 1];
      RunKeepsLedger(s, actions[..|actions| - 1]);
      if a.RecoveryCommit? {
        if a.caller in st.calls && st.calls[a.caller].Scanned? {
          SpendKeepsLedger(st, a.caller);
        }
      } else if a.Scan? {
        if a.caller in st.calls && st.calls[a.caller].Screened? {
          ScanKeepsLedger(s, st, a.caller);
        }
      } else if a.Enroll? && UserNamed(st.db.users, a.name).None? {
        EnrollKeepsLedger(s, st, a);
      } else {
        OtherKeepsLedger(s, st, a);
      }
    }
  }

  /**
    Under any interleaving, each stored recovery-code row pays for at most one success, and for every
    user the codes still stored plus the recovery successes are the codes issued at enrollment.
  */
  lemma RecoveryCodesConserved(s: Settings, actions: seq<Action>, user: int)
    ensures var st := Exec(s, actions);
            && PaidOnce(st.log)
            && Stored(st.db, user) + Paid(st.log, user) == Issued(st.log, user)
  {
    RunKeepsLedger(s, actions);
  }
}
