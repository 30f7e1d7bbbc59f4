/** Building blocks for concrete runs: one enrolled user whose calls get past the gate. */
module AuthRuns {
  import opened Sequences
  import opened AuthStore
  import opened AuthProtocol
  import opened AuthSingleUse

  const ANN := User("ann", Readable("k"), true)
  const CLEAN := Db([ANN], [], 0, [], map[])

  lemma Extend(s: Settings, run: seq<Action>, a: Action)
    ensures Exec(s, run + [a]) == Do(s, Exec(s, run), a)
  {
    assert (run + [a])[..|run|] == run;
  }

  /** A call up to the gate. */
  function OpeningOf(c: int, name: string, kind: Kind, text: string): seq<Action> {
    [Begin(c, kind, name, text)] + [Count(c)] + [Gated(c)]
  }

  function Opening(c: int, kind: Kind, text: string): seq<Action> {
    OpeningOf(c, "ann", kind, text)
  }

  lemma OpenState(s: Settings, st: Sys, c: int, name: string, user: int, kind: Kind, text: string)
    requires c !in st.calls && UserNamed(st.db.users, name) == Some(user) && st.db.users[user].active
    requires CountSince(st.db.attempts, user, st.clock.Floor - s.window) == 0
    ensures Do(s, st, Begin(c, kind, name, text)) == st.(calls := st.calls[c := Resolved(kind, user, text)])
    ensures Do(s, st.(calls := st.calls[c := Resolved(kind, user, text)]), Count(c))
            == st.(calls := st.calls[c := Counted(kind, user, text, 0)])
  {
    var u := st.(calls := st.calls[c := Resolved(kind, user, text)]);
    assert Backoff(s, u.db.attempts, user, u.clock) == 0;
    assert u.calls[c := Counted(kind, user, text, 0)] == st.calls[c := Counted(kind, user, text, 0)];
  }

  lemma OpenGate(s: Settings, st: Sys, c: int, user: int, kind: Kind, text: string)
    ensures Do(s, st.(calls := st.calls[c := Counted(kind, user, text, 0)]), Gated(c))
            == st.(calls := st.calls[c := Cleared(kind, user, text)])
  {
    var u := st.(calls := st.calls[c := Counted(kind, user, text, 0)]);
    assert GateAt(s, u.db.attempts, user, 0, u.clock) == Pass;
    assert u.calls[c := Cleared(kind, user, text)] == st.calls[c := Cleared(kind, user, text)];
  }

  lemma OpeningParts(run: seq<Action>, c: int, name: string, kind: Kind, text: string)
    ensures run + OpeningOf(c, name, kind, text) == run + [Begin(c, kind, name, text)] + [Count(c)] + [Gated(c)]
  {
  }

  /** A call for an active user with no recent failure gets past the gate. */
  lemma OpenCallOf(s: Settings, run: seq<Action>, c: int, name: string, user: int, kind: Kind, text: string)
    requires var st := Exec(s, run);
             c !in st.calls && UserNamed(st.db.users, name) == Some(user) && st.db.users[user].active
             && CountSince(st.db.attempts, user, st.clock.Floor - s.window) == 0
    ensures var st := Exec(s, run);
            Exec(s, run + OpeningOf(c, name, kind, text)) == st.(calls := st.calls[c := Cleared(kind, user, text)])
  {
    var st := Exec(s, run);
    var run1 := run + [Begin(c, kind, name, text)];
    var run2 := run1 + [Count(c)];
    OpeningParts(run, c, name, kind, text);
    OpenState(s, st, c, name, user, kind, text);
    Extend(s, run, Begin(c, kind, name, text));
    Extend(s, run1, Count(c));
    assert Exec(s, run2) == st.(calls := st.calls[c := Counted(kind, user, text, 0)]);
    OpenGate(s, st, c, user, kind, text);
    Extend(s, run2, Gated(c));
  }

  lemma OpenCall(s: Settings, run: seq<Action>, c: int, kind: Kind, text: string)
    requires var st := Exec(s, run);
             c !in st.calls && UserNamed(st.db.users, "ann") == Some(0) && st.db.users[0].active
             && CountSince(st.db.attempts, 0, st.clock.Floor - s.window) == 0
    ensures var st := Exec(s, run);
            Exec(s, run + Opening(c, kind, text)) == st.(calls := st.calls[c := Cleared(kind, 0, text)])
  {
    OpenCallOf(s, run, c, "ann", 0, kind, text);
  }

  lemma EnrollAnn(s: Settings, codes: seq<string>)
    ensures Exec(s, [Enroll("ann", Readable("k"), codes)])
            == Sys(Db([ANN], IssuedRows(0, 1, codes), |codes|, [], map[]), 0.0, map[], [Enrolled(0, |codes|)])
  {
    Extend(s, [], Enroll("ann", Readable("k"), codes));
    assert [] + [Enroll("ann", Readable("k"), codes)] == [Enroll("ann", Readable("k"), codes)];
  }

  lemma StallStep(s: Settings, run: seq<Action>, a: Action, bound: real)
    requires StallsWithin(s, run, bound) && PromptAt(Exec(s, run), a, bound)
    ensures StallsWithin(s, run + [a], bound)
  {
    assert (run + [a])[..|run + [a]| - 1] == run;
  }

  lemma {:induction false} StallQuiet(s: Settings, run: seq<Action>, more: seq<Action>, bound: real)
    requires StallsWithin(s, run, bound) && forall a :: a in more ==> !a.VerifyCommit?
    ensures StallsWithin(s, run + more, bound)
    decreases |more|
  {
    if more == [] {
      assert run + more == run;
    } else {
      var init, a := more[..|more| - 1], more[|more| - 1];
      assert a in more && forall b :: b in init ==> b in more;
      StallQuiet(s, run, init, bound);
      QuietStep(s, run + init, a, run + more, bound);
    }
  }

  lemma QuietStep(s: Settings, run: seq<Action>, a: Action, longer: seq<Action>, bound: real)
    requires StallsWithin(s, run, bound) && !a.VerifyCommit? && longer == run + [a]
    ensures StallsWithin(s, longer, bound)
  {
    StallStep(s, run, a, bound);
  }
}
