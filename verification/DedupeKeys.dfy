/** The key that keeps incidents unique: a joined text, and when it tells candidates apart. */
module DedupeKeys {
  import opened Decimals
  import opened WindowRules

  const BAR: char := '|'

  // ---- the key ----

  /** The first event with the least timestamp. */
  function Earliest(es: seq<Event>): Event
    requires es != []
  {
    if |es| == 1 then es[0]
    else var e := Earliest(es[..|es| - 1]);
         if es[|es| - 1].timestamp < e.timestamp then es[|es| - 1] else e
  }

  function AddOnce(names: seq<string>, name: string): seq<string> {
    if name in names then names else names + [name]
  }

  function EventNames(es: seq<Event>): seq<string> {
    if es == [] then []
    else var before, e := EventNames(es[..|es| - 1]), es[|es| - 1];
         if e.entity == "" then before else AddOnce(before, e.entity)
  }

  function WithExtra(names: seq<string>, extra: seq<string>): seq<string> {
    if extra == [] then names else AddOnce(WithExtra(names, extra[..|extra| - 1]), extra[|extra| - 1])
  }

  /** The distinct entities of a candidate, in order of first mention. */
  function EntitiesOf(c: Candidate): seq<string> {
    WithExtra(EventNames(c.events), c.extraEntities)
  }

  /** Lexicographic order of strings. */
  predicate Before(s: string, t: string) {
    if t == [] then false
    else if s == [] then true
    else s[0] < t[0] || (s[0] == t[0] && Before(s[1..], t[1..]))
  }

  function InsertName(sorted: seq<string>, name: string): seq<string> {
    if sorted == [] then [name]
    else if Before(name, sorted[0]) then [name] + sorted
    else [sorted[0]] + InsertName(sorted[1..], name)
  }

  function SortNames(names: seq<string>): seq<string> {
    if names == [] then [] else InsertName(SortNames(names[..|names| - 1]), names[|names| - 1])
  }

  function JoinNames(names: seq<string>): string {
    if names == [] then ""
    else if |names| == 1 then names[0]
    else names[0] + [BAR] + JoinNames(names[1..])
  }

  function KeyText(rule: string, names: seq<string>, anchor: int): string {
    rule + [BAR] + (JoinNames(SortNames(names)) + [BAR] + Decimal(anchor))
  }

  /** The hashed key as a free term over its text. */
  datatype Key = Key(text: string)

  function DedupeKey(c: Candidate): Key
    requires c.events != []
  {
    Key(KeyText(c.rule, EntitiesOf(c), Earliest(c.events).id))
  }

  // ---- sorting ----

  ghost predicate Distinct(names: seq<string>) {
    forall i, j :: 0 <= i < j < |names| ==> names[i] != names[j]
  }

  ghost predicate Ascending(names: seq<string>) {
    forall i, j :: 0 <= i < j < |names| ==> Before(names[i], names[j])
  }

  lemma {:induction false} BeforeTotal(s: string, t: string)
    ensures Before(s, t) || Before(t, s) || s == t
    ensures !(Before(s, t) && Before(t, s)) && (s == t ==> !Before(s, t))
  {
    if s != [] && t != [] {
      BeforeTotal(s[1..], t[1..]);
      assert s == [s[0]] + s[1..] && t == [t[0]] + t[1..];
    }
  }

  lemma {:induction false} BeforeTransitive(s: string, t: string, u: string)
    requires Before(s, t) && Before(t, u)
    ensures Before(s, u)
  {
    if s != [] && t != [] && u != [] && s[0] == t[0] == u[0] {
      BeforeTransitive(s[1..], t[1..], u[1..]);
    }
  }

  lemma {:induction false} InsertFacts(sorted: seq<string>, name: string)
    requires Ascending(sorted) && name !in sorted
    ensures Ascending(InsertName(sorted, name))
    ensures forall x :: x in InsertName(sorted, name) <==> x in sorted || x == name
  {
    if sorted != [] {
      var head, rest := sorted[0], sorted[1..];
      assert sorted == [head] + rest;
      if Before(name, head) {
        forall x | x in rest ensures Before(name, x) {
          var i :| 0 <= i < |rest| && rest[i] == x;
          assert sorted[i + 1] == x;
          BeforeTransitive(name, head, x);
        }
        PrependAscending(name, sorted);
      } else {
        BeforeTotal(name, head);
        assert forall i :: 0 <= i < |rest| ==> rest[i] == sorted[i + 1];
        InsertFacts(rest, name);
        PrependAscending(head, InsertName(rest, name));
      }
    }
  }

  lemma PrependAscending(head: string, names: seq<string>)
    requires Ascending(names) && forall x :: x in names ==> Before(head, x)
    ensures Ascending([head] + names)
  {
  }

  lemma {:induction false} SortNamesFacts(names: seq<string>)
    requires Distinct(names)
    ensures Ascending(SortNames(names))
    ensures forall x :: x in SortNames(names) <==> x in names
  {
    if names != [] {
      var init, last := names[..|names| - 1], names[|names| - 1];
      SortNamesFacts(init);
      assert names == init + [last];
      forall x | x in init ensures x != last {
        var i :| 0 <= i < |init| && init[i] == x;
        assert names[i] != names[|init|];
      }
      InsertFacts(SortNames(init), last);
    }
  }

  /** Two ascending lists of the same names are the same list. */
  lemma {:induction false} AscendingUnique(a: seq<string>, b: seq<string>)
    requires Ascending(a) && Ascending(b) && forall x :: x in a <==> x in b
    ensures a == b
  {
    assert b != [] ==> b[0] in b;
    if a != [] {
      assert a[0] in b;
      LeastFirst(a, b[0]);
      LeastFirst(b, a[0]);
      BeforeTotal(a[0], b[0]);
      TailMembers(a);
      TailMembers(b);
      AscendingUnique(a[1..], b[1..]);
      assert a == [a[0]] + a[1..] && b == [b[0]] + b[1..];
    }
  }

  lemma LeastFirst(a: seq<string>, x: string)
    requires Ascending(a) && x in a
    ensures x == a[0] || Before(a[0], x)
  {
  }

  lemma TailMembers(a: seq<string>)
    requires Ascending(a) && a != []
    ensures Ascending(a[1..]) && forall x :: x in a[1..] <==> x in a && x != a[0]
  {
    BeforeTotal(a[0], a[0]);
    assert a == [a[0]] + a[1..];
    assert forall i :: 0 <= i < |a[1..]| ==> a[1..][i] == a[i + 1];
  }

  // ---- reading the text back ----

  ghost predicate BarFree(names: seq<string>) {
    forall x :: x in names ==> x != "" && BAR !in x
  }

  lemma FirstBar(a: string, x: string, b: string, y: string)
    requires BAR !in a && BAR !in b && a + [BAR] + x == b + [BAR] + y
    ensures a == b && x == y
  {
    var s := a + [BAR] + x;
    assert s[|a|] == BAR && s[|b|] == BAR;
    assert forall i :: 0 <= i < |a| ==> s[i] == a[i];
    assert forall i :: 0 <= i < |b| ==> s[i] == b[i];
    assert a == s[..|a|] == b;
    assert x == s[|a| + 1..] == y;
  }

  lemma LastBar(x: string, a: string, y: string, b: string)
    requires BAR !in a && BAR !in b && x + [BAR] + a == y + [BAR] + b
    ensures a == b && x == y
  {
    var s := x + [BAR] + a;
    assert s[|x|] == BAR && s[|y|] == BAR;
    assert forall i :: 0 <= i < |a| ==> s[|x| + 1 + i] == a[i];
    assert forall i :: 0 <= i < |b| ==> s[|y| + 1 + i] == b[i];
    assert x == s[..|x|] && y == s[..|y|];
    assert a == s[|x| + 1..] && b == s[|y| + 1..];
  }

  lemma TailBarFree(a: seq<string>)
    requires BarFree(a) && a != []
    ensures BarFree(a[1..])
  {
    assert forall x :: x in a[1..] ==> x in a;
  }

  /** How many names a text joins shows in it. */
  lemma JoinShape(a: seq<string>)
    requires BarFree(a)
    ensures JoinNames(a) == "" <==> a == []
    ensures BAR in JoinNames(a) <==> |a| > 1
  {
    if a != [] {
      assert a[0] in a;
      if |a| > 1 {
        assert JoinNames(a)[|a[0]|] == BAR;
      }
    }
  }

  lemma {:induction false} NamesReadBack(a: seq<string>, b: seq<string>)
    requires BarFree(a) && BarFree(b) && JoinNames(a) == JoinNames(b)
    ensures a == b
  {
    JoinShape(a);
    JoinShape(b);
    if |a| > 1 {
      assert a[0] in a && b[0] in b;
      assert JoinNames(a) == a[0] + [BAR] + JoinNames(a[1..]) && JoinNames(b) == b[0] + [BAR] + JoinNames(b[1..]);
      FirstBar(a[0], JoinNames(a[1..]), b[0], JoinNames(b[1..]));
      TailBarFree(a);
      TailBarFree(b);
      NamesReadBack(a[1..], b[1..]);
      assert a == [a[0]] + a[1..] && b == [b[0]] + b[1..];
    }
  }

  lemma DecimalHasNoBar(n: int)
    ensures BAR !in Decimal(n)
  {
  }

  lemma {:induction false} AddOnceDistinct(names: seq<string>, extra: seq<string>)
    requires Distinct(names)
    ensures Distinct(WithExtra(names, extra))
  {
    if extra != [] {
      AddOnceDistinct(names, extra[..|extra| - 1]);
    }
  }

  lemma {:induction false} EventNamesDistinct(es: seq<Event>)
    ensures Distinct(EventNames(es))
  {
    if es != [] {
      EventNamesDistinct(es[..|es| - 1]);
    }
  }

  lemma EntitiesDistinct(c: Candidate)
    ensures Distinct(EntitiesOf(c))
  {
    EventNamesDistinct(c.events);
    AddOnceDistinct(EventNames(c.events), c.extraEntities);
  }

  ghost predicate SameNames(a: seq<string>, b: seq<string>) {
    forall x :: x in a <==> x in b
  }

  /**
    Two candidates whose entities and rules hold no bar share a key if and only if they have the same
    rule, the same set of entities and the same first event.
  */
  lemma KeysTellApart(c: Candidate, d: Candidate)
    requires c.events != [] && d.events != [] && BAR !in c.rule && BAR !in d.rule
    requires BarFree(EntitiesOf(c)) && BarFree(EntitiesOf(d))
    ensures DedupeKey(c) == DedupeKey(d)
            <==> c.rule == d.rule && SameNames(EntitiesOf(c), EntitiesOf(d))
                 && Earliest(c.events).id == Earliest(d.events).id
  {
    var a, b := EntitiesOf(c), EntitiesOf(d);
    EntitiesDistinct(c);
    EntitiesDistinct(d);
    SortNamesFacts(a);
    SortNamesFacts(b);
    if DedupeKey(c) == DedupeKey(d) {
      ReadBack(c.rule, SortNames(a), Earliest(c.events).id, d.rule, SortNames(b), Earliest(d.events).id);
      assert forall x :: x in a <==> x in SortNames(a);
      assert forall x :: x in b <==> x in SortNames(b);
    }
    if SameNames(a, b) {
      AscendingUnique(SortNames(a), SortNames(b));
    }
  }

  lemma ReadBack(r: string, a: seq<string>, m: int, r': string, b: seq<string>, n: int)
    requires BAR !in r && BAR !in r' && BarFree(a) && BarFree(b)
    requires r + [BAR] + (JoinNames(a) + [BAR] + Decimal(m)) == r' + [BAR] + (JoinNames(b) + [BAR] + Decimal(n))
    ensures r == r' && a == b && m == n
  {
    FirstBar(r, JoinNames(a) + [BAR] + Decimal(m), r', JoinNames(b) + [BAR] + Decimal(n));
    DecimalHasNoBar(m);
    DecimalHasNoBar(n);
    LastBar(JoinNames(a), Decimal(m), JoinNames(b), Decimal(n));
    NamesReadBack(a, b);
    DecimalInjective(m, n);
  }

  // ---- exactly when a key identifies its candidate ----

  ghost predicate AllNamed(names: seq<string>) {
    forall x :: x in names ==> x != ""
  }

  /** A name that reads like two others joined in order. */
  ghost predicate SplitsInOrder(x: string) {
    exists p, q :: Splits(x, p, q)
  }

  ghost predicate Splits(x: string, p: string, q: string) {
    x == p + [BAR] + q && p != "" && q != "" && Before(p, q)
  }

  /** At most one entity, and not one that reads like two. */
  ghost predicate Lone(names: seq<string>) {
    |names| == 0 || (|names| == 1 && !SplitsInOrder(names[0]))
  }

  /** The key of `d` is that of `c`, so one of the two would be ignored. */
  ghost predicate Clash(c: Candidate, d: Candidate) {
    c.events != [] && d.events != [] && BAR !in d.rule && AllNamed(EntitiesOf(d)) && DedupeKey(d) == DedupeKey(c)
  }

  ghost predicate SameIncident(c: Candidate, d: Candidate)
    requires c.events != [] && d.events != []
  {
    c.rule == d.rule && SameNames(EntitiesOf(c), EntitiesOf(d)) && Earliest(c.events).id == Earliest(d.events).id
  }

  lemma {:induction false} BeforeExtends(s: string, t: string, u: string)
    requires Before(s, t)
    ensures Before(s, t + u)
  {
    if s != [] {
      assert (t + u)[0] == t[0] && (t + u)[1..] == t[1..] + u;
      if s[0] == t[0] {
        BeforeExtends(s[1..], t[1..], u);
      }
    }
  }

  lemma JoinStarts(names: seq<string>)
    requires names != []
    ensures exists u :: JoinNames(names) == names[0] + u
  {
    if |names| == 1 {
      assert JoinNames(names) == names[0] + "";
    } else {
      assert JoinNames(names) == names[0] + ([BAR] + JoinNames(names[1..]));
    }
  }

  /** Several ascending names, joined, read like two in order. */
  lemma JoinSplits(names: seq<string>)
    requires |names| >= 2 && Ascending(names) && AllNamed(names)
    ensures SplitsInOrder(JoinNames(names))
  {
    var p, rest := names[0], names[1..];
    JoinStarts(rest);
    var u :| JoinNames(rest) == rest[0] + u;
    assert Before(p, rest[0]) && rest[0] == names[1];
    assert names[0] in names && names[1] in names;
    BeforeExtends(p, rest[0], u);
    assert Splits(JoinNames(names), p, JoinNames(rest));
  }

  lemma SortedNamed(names: seq<string>)
    requires Distinct(names) && AllNamed(names)
    ensures Ascending(SortNames(names)) && AllNamed(SortNames(names)) && SameNames(names, SortNames(names))
    ensures |SortNames(names)| == |names|
  {
    SortNamesFacts(names);
    SortNamesLength(names);
  }

  lemma {:induction false} InsertLength(sorted: seq<string>, name: string)
    ensures |InsertName(sorted, name)| == |sorted| + 1
  {
    if sorted != [] {
      InsertLength(sorted[1..], name);
    }
  }

  lemma {:induction false} SortNamesLength(names: seq<string>)
    ensures |SortNames(names)| == |names|
  {
    if names != [] {
      SortNamesLength(names[..|names| - 1]);
      InsertLength(SortNames(names[..|names| - 1]), names[|names| - 1]);
    }
  }

  /** Names that join to a lone name, or to nothing, are that name, or none. */
  lemma LoneReadBack(a: seq<string>, b: seq<string>)
    requires Lone(a) && AllNamed(a) && AllNamed(b) && Ascending(b) && JoinNames(a) == JoinNames(b)
    ensures a == b
  {
    assert a != [] ==> a[0] in a;
    assert b != [] ==> b[0] in b;
    if |b| >= 2 {
      JoinSplits(b);
    }
  }

  lemma LoneSorted(a: seq<string>)
    requires |a| <= 1
    ensures SortNames(a) == a
  {
    if |a| == 1 {
      assert a[..0] == [];
    }
  }

  lemma TextReadBack(r: string, x: string, m: int, r': string, y: string, n: int)
    requires BAR !in r && BAR !in r'
    requires r + [BAR] + (x + [BAR] + Decimal(m)) == r' + [BAR] + (y + [BAR] + Decimal(n))
    ensures r == r' && x == y && m == n
  {
    FirstBar(r, x + [BAR] + Decimal(m), r', y + [BAR] + Decimal(n));
    DecimalHasNoBar(m);
    DecimalHasNoBar(n);
    LastBar(x, Decimal(m), y, Decimal(n));
    DecimalInjective(m, n);
  }

  lemma LoneIdentified(c: Candidate, d: Candidate)
    requires Clash(c, d) && BAR !in c.rule && AllNamed(EntitiesOf(c)) && Lone(EntitiesOf(c))
    ensures SameIncident(c, d)
  {
    var a, b := EntitiesOf(c), EntitiesOf(d);
    EntitiesDistinct(d);
    SortedNamed(b);
    LoneSorted(a);
    TextReadBack(c.rule, JoinNames(SortNames(a)), Earliest(c.events).id,
                 d.rule, JoinNames(SortNames(b)), Earliest(d.events).id);
    LoneReadBack(a, SortNames(b));
  }

  // ---- a twin for every other candidate ----

  lemma OneName(rule: string, e: Event)
    requires e.entity != ""
    ensures EntitiesOf(Candidate(rule, [e], [])) == [e.entity] && Earliest([e]) == e
  {
    assert [e][..|[e]| - 1] == [] && EventNames([]) == [];
    assert EventNames([e]) == AddOnce([], e.entity);
  }

  lemma TwoNames(rule: string, e: Event, q: string)
    requires e.entity != "" && q != e.entity
    ensures EntitiesOf(Candidate(rule, [e], [q])) == [e.entity, q]
  {
    OneName(rule, e);
    assert [q][..|[q]| - 1] == [];
    assert WithExtra([e.entity], [q]) == AddOnce(WithExtra([e.entity], []), q);
  }

  lemma TwoSorted(p: string, q: string)
    requires Before(p, q)
    ensures SortNames([p, q]) == [p, q] && JoinNames([p, q]) == p + [BAR] + q
  {
    BeforeTotal(p, q);
    LoneSorted([p]);
    assert [p, q][..|[p, q]| - 1] == [p] && [p][1..] == [] && [p, q][1..] == [q];
    assert InsertName([p], q) == [p] + InsertName([], q);
  }

  /** A candidate that is not lone has a twin: another entity set, the same key. */
  lemma Twin(c: Candidate) returns (d: Candidate)
    requires c.events != [] && BAR !in c.rule && AllNamed(EntitiesOf(c)) && !Lone(EntitiesOf(c))
    ensures Clash(c, d) && !SameNames(EntitiesOf(c), EntitiesOf(d))
  {
    var names, first := EntitiesOf(c), Earliest(c.events);
    EntitiesDistinct(c);
    SortedNamed(names);
    if |names| == 1 {
      var p, q :| Splits(names[0], p, q);
      BeforeTotal(p, q);
      LoneSorted(names);
      var e := first.(entity := p);
      d := Candidate(c.rule, [e], [q]);
      TwoNames(c.rule, e, q);
      TwoSorted(p, q);
      assert |p| < |names[0]| && p in EntitiesOf(d) && p !in names;
    } else {
      var text := JoinNames(SortNames(names));
      JoinSplits(SortNames(names));
      var e := first.(entity := text);
      d := Candidate(c.rule, [e], []);
      OneName(c.rule, e);
      LoneSorted([text]);
      assert names[0] in names && names[1] in names && names[0] != names[1];
    }
  }

  /**
    Every candidate with the key of `c` has its rule, its entities and its first event if and only if
    `c` has at most one entity, and not one that reads like two others joined in order.
  */
  lemma KeyIdentifiesExactly(c: Candidate)
    requires c.events != [] && BAR !in c.rule && AllNamed(EntitiesOf(c))
    ensures (forall d :: Clash(c, d) ==> SameIncident(c, d)) <==> Lone(EntitiesOf(c))
  {
    if Lone(EntitiesOf(c)) {
      forall d | Clash(c, d) ensures SameIncident(c, d) {
        LoneIdentified(c, d);
      }
    } else {
      var d := Twin(c);
      assert !SameIncident(c, d);
    }
  }
}
