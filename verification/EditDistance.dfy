/** The two-row edit distance of detection/phishing.py computes the true minimum over edits. */
module EditDistance {

  function Min3(a: nat, b: nat, c: nat): nat {
    if a <= b && a <= c then a else if b <= c then b else c
  }

  /** The recurrence over the last characters of both words. */
  function Distance(a: string, b: string): nat
    decreases |a| + |b|
  {
    if a == [] then |b|
    else if b == [] then |a|
    else
      var a', b' := a[..|a| - 1], b[..|b| - 1];
      Min3(Distance(a', b) + 1, Distance(a, b') + 1,
           Distance(a', b') + (if a[|a| - 1] != b[|b| - 1] then 1 else 0))
  }

  /** An edit script, built from its last edit: each character is matched, inserted or deleted. */
  datatype Script = Done
    | Match(rest: Script, from: char, to: char)
    | Insert(rest: Script, to: char)
    | Delete(rest: Script, from: char)

  function Source(s: Script): string {
    match s
    case Done => ""
    case Match(rest, from, _) => Source(rest) + [from]
    case Insert(rest, _) => Source(rest)
    case Delete(rest, from) => Source(rest) + [from]
  }

  function Target(s: Script): string {
    match s
    case Done => ""
    case Match(rest, _, to) => Target(rest) + [to]
    case Insert(rest, to) => Target(rest) + [to]
    case Delete(rest, _) => Target(rest)
  }

  function Cost(s: Script): nat {
    match s
    case Done => 0
    case Match(rest, from, to) => Cost(rest) + (if from != to then 1 else 0)
    case Insert(rest, _) => Cost(rest) + 1
    case Delete(rest, _) => Cost(rest) + 1
  }

  lemma LastEdit(a: string, b: string)
    requires a != [] && b != []
    ensures var a', b' := a[..|a| - 1], b[..|b| - 1];
            || Distance(a, b) == Distance(a', b) + 1
            || Distance(a, b) == Distance(a, b') + 1
            || Distance(a, b) == Distance(a', b') + (if a[|a| - 1] != b[|b| - 1] then 1 else 0)
  {
  }

  /** The script turns one word into the other at this cost. */
  ghost predicate Turns(s: Script, a: string, b: string, cost: nat) {
    Source(s) == a && Target(s) == b && Cost(s) == cost
  }

  lemma LastChar(a: string)
    requires a != []
    ensures a[..|a| - 1] + [a[|a| - 1]] == a
  {
  }

  lemma ByInsert(a: string, b: string, rest: Script, cost: nat)
    requires b != [] && Turns(rest, a, b[..|b| - 1], cost)
    ensures Turns(Insert(rest, b[|b| - 1]), a, b, cost + 1)
  {
    LastChar(b);
  }

  lemma ByDelete(a: string, b: string, rest: Script, cost: nat)
    requires a != [] && Turns(rest, a[..|a| - 1], b, cost)
    ensures Turns(Delete(rest, a[|a| - 1]), a, b, cost + 1)
  {
    LastChar(a);
  }

  lemma ByMatch(a: string, b: string, rest: Script, cost: nat)
    requires a != [] && b != [] && Turns(rest, a[..|a| - 1], b[..|b| - 1], cost)
    ensures Turns(Match(rest, a[|a| - 1], b[|b| - 1]), a, b, cost + if a[|a| - 1] != b[|b| - 1] then 1 else 0)
  {
    LastChar(a);
    LastChar(b);
  }

  lemma LastInsert(b: string)
    requires b != []
    ensures Distance([], b) == Distance([], b[..|b| - 1]) + 1
  {
  }

  lemma LastDelete(a: string)
    requires a != []
    ensures Distance(a, []) == Distance(a[..|a| - 1], []) + 1
  {
  }

  /** A cheapest script realises the distance. */
  lemma {:induction false} BestScript(a: string, b: string) returns (s: Script)
    ensures Source(s) == a && Target(s) == b && Cost(s) == Distance(a, b)
    decreases |a| + |b|
  {
    if a == [] && b == [] {
      s := Done;
    } else if a == [] {
      LastInsert(b);
      var rest := BestScript(a, b[..|b| - 1]);
      ByInsert(a, b, rest, Distance(a, b[..|b| - 1]));
      s := Insert(rest, b[|b| - 1]);
    } else if b == [] {
      LastDelete(a);
      var rest := BestScript(a[..|a| - 1], b);
      ByDelete(a, b, rest, Distance(a[..|a| - 1], b));
      s := Delete(rest, a[|a| - 1]);
    } else {
      LastEdit(a, b);
      if Distance(a, b) == Distance(a[..|a| - 1], b) + 1 {
        var rest := BestScript(a[..|a| - 1], b);
        ByDelete(a, b, rest, Distance(a[..|a| - 1], b));
        s := Delete(rest, a[|a| - 1]);
      } else if Distance(a, b) == Distance(a, b[..|b| - 1]) + 1 {
        var rest := BestScript(a, b[..|b| - 1]);
        ByInsert(a, b, rest, Distance(a, b[..|b| - 1]));
        s := Insert(rest, b[|b| - 1]);
      } else {
        var rest := BestScript(a[..|a| - 1], b[..|b| - 1]);
        ByMatch(a, b, rest, Distance(a[..|a| - 1], b[..|b| - 1]));
        s := Match(rest, a[|a| - 1], b[|b| - 1]);
      }
    }
  }

  lemma {:induction false} DropLast(a: string, b: string)
    ensures a != [] ==> Distance(a, b) <= Distance(a[..|a| - 1], b) + 1
    ensures b != [] ==> Distance(a, b) <= Distance(a, b[..|b| - 1]) + 1
  {
    if a == [] && b != [] {
      assert Distance(a, b[..|b| - 1]) == |b| - 1;
    } else if a != [] && b == [] {
      assert Distance(a[..|a| - 1], b) == |a| - 1;
    }
  }

  /** No script between the two words is cheaper than the distance. */
  lemma {:induction false} NoCheaperScript(s: Script)
    ensures Distance(Source(s), Target(s)) <= Cost(s)
  {
    var a, b := Source(s), Target(s);
    match s
    case Done =>
    case Match(rest, from, to) =>
      NoCheaperScript(rest);
      assert a[..|a| - 1] == Source(rest) && b[..|b| - 1] == Target(rest);
    case Insert(rest, to) =>
      NoCheaperScript(rest);
      assert b[..|b| - 1] == Target(rest);
      DropLast(a, b);
    case Delete(rest, from) =>
      NoCheaperScript(rest);
      assert a[..|a| - 1] == Source(rest);
      DropLast(a, b);
  }

  /** The script read backwards. */
  function Reverse(s: Script): Script {
    match s
    case Done => Done
    case Match(rest, from, to) => Match(Reverse(rest), to, from)
    case Insert(rest, to) => Delete(Reverse(rest), to)
    case Delete(rest, from) => Insert(Reverse(rest), from)
  }

  lemma {:induction false} ReverseFacts(s: Script)
    ensures Source(Reverse(s)) == Target(s) && Target(Reverse(s)) == Source(s) && Cost(Reverse(s)) == Cost(s)
  {
    if !s.Done? {
      ReverseFacts(s.rest);
    }
  }

  lemma Symmetric(a: string, b: string)
    ensures Distance(a, b) == Distance(b, a)
  {
    var s := BestScript(a, b);
    var t := BestScript(b, a);
    ReverseFacts(s);
    ReverseFacts(t);
    NoCheaperScript(Reverse(s));
    NoCheaperScript(Reverse(t));
  }

  /** Two scripts in a row as one, at no more than their joint cost. */
  lemma {:induction false} Compose(s: Script, t: Script) returns (u: Script)
    requires Target(s) == Source(t)
    ensures Source(u) == Source(s) && Target(u) == Target(t) && Cost(u) <= Cost(s) + Cost(t)
    decreases s, t
  {
    var mid := Target(s);
    if t.Insert? {
      var rest := Compose(s, t.rest);
      u := Insert(rest, t.to);
    } else if s.Delete? {
      var rest := Compose(s.rest, t);
      u := Delete(rest, s.from);
    } else if s.Done? || t.Done? {
      u := Done;
    } else {
      assert Target(s.rest) == mid[..|mid| - 1] == Source(t.rest);
      assert s.to == mid[|mid| - 1] == t.from;
      var rest := Compose(s.rest, t.rest);
      match (s, t)
      case (Match(_, x, _), Match(_, _, z)) => u := Match(rest, x, z);
      case (Match(_, x, _), Delete(_, _)) => u := Delete(rest, x);
      case (Insert(_, _), Match(_, _, z)) => u := Insert(rest, z);
      case (Insert(_, _), Delete(_, _)) => u := rest;
    }
  }

  lemma Triangle(a: string, b: string, c: string)
    ensures Distance(a, c) <= Distance(a, b) + Distance(b, c)
  {
    var s := BestScript(a, b);
    var t := BestScript(b, c);
    var u := Compose(s, t);
    NoCheaperScript(u);
  }

  lemma {:induction false} Bounds(a: string, b: string)
    ensures Distance(a, b) <= (if |a| >= |b| then |a| else |b|)
    ensures Distance(a, b) >= (if |a| >= |b| then |a| - |b| else |b| - |a|)
    decreases |a| + |b|
  {
    if a != [] && b != [] {
      var a', b' := a[..|a| - 1], b[..|b| - 1];
      Bounds(a', b);
      Bounds(a, b');
      Bounds(a', b');
    }
  }

  lemma {:induction false} SelfDistance(a: string)
    ensures Distance(a, a) == 0
  {
    if a != [] {
      SelfDistance(a[..|a| - 1]);
    }
  }

  lemma {:induction false} FreeScript(s: Script)
    requires Cost(s) == 0
    ensures Source(s) == Target(s)
  {
    if s.Match? {
      FreeScript(s.rest);
    }
  }

  /** Only equal words are at distance zero. */
  lemma Identity(a: string, b: string)
    ensures Distance(a, b) == 0 <==> a == b
  {
    SelfDistance(a);
    var s := BestScript(a, b);
    if Distance(a, b) == 0 {
      FreeScript(s);
    }
  }

  // ---- single edits anywhere in the word ----

  ghost predicate Inserted(a: string, b: string, i: int, c: char) {
    0 <= i <= |a| && b == a[..i] + [c] + a[i..]
  }

  ghost predicate Deleted(a: string, b: string, i: int) {
    0 <= i < |a| && b == a[..i] + a[i + 1..]
  }

  ghost predicate Replaced(a: string, b: string, i: int, c: char) {
    0 <= i < |a| && b == a[..i] + [c] + a[i + 1..]
  }

  /** One character inserted, deleted or replaced at any position. */
  ghost predicate OneEdit(a: string, b: string) {
    || (exists i, c :: Inserted(a, b, i, c))
    || (exists i :: Deleted(a, b, i))
    || (exists i, c :: Replaced(a, b, i, c))
  }

  ghost predicate EditPath(words: seq<string>) {
    words != [] && forall i :: 0 <= i < |words| - 1 ==> OneEdit(words[i], words[i + 1])
  }

  lemma {:induction false} CommonSuffix(a: string, b: string, t: string)
    ensures Distance(a + t, b + t) <= Distance(a, b)
  {
    if t == [] {
      assert a + t == a && b + t == b;
    } else {
      var t', x := t[..|t| - 1], t[|t| - 1];
      CommonSuffix(a, b, t');
      assert (a + t)[..|a + t| - 1] == a + t' && (b + t)[..|b + t| - 1] == b + t';
      assert (a + t)[|a + t| - 1] == x == (b + t)[|b + t| - 1];
    }
  }

  lemma InsertDistance(u: string, c: char, v: string)
    ensures Distance(u + v, u + [c] + v) <= 1 && Distance(u + [c] + v, u + v) <= 1
  {
    SelfDistance(u);
    DropLast(u, u + [c]);
    assert (u + [c])[..|u + [c]| - 1] == u;
    CommonSuffix(u, u + [c], v);
    Symmetric(u + v, u + [c] + v);
  }

  lemma ReplaceDistance(u: string, c: char, d: char, v: string)
    ensures Distance(u + [c] + v, u + [d] + v) <= 1
  {
    SelfDistance(u);
    assert (u + [c])[..|u + [c]| - 1] == u && (u + [d])[..|u + [d]| - 1] == u;
    CommonSuffix(u + [c], u + [d], v);
  }

  lemma OneEditDistance(a: string, b: string)
    requires OneEdit(a, b)
    ensures Distance(a, b) <= 1
  {
    if i, c :| Inserted(a, b, i, c) {
      assert a == a[..i] + a[i..];
      InsertDistance(a[..i], c, a[i..]);
    } else if i :| Deleted(a, b, i) {
      assert a == a[..i] + [a[i]] + a[i + 1..];
      InsertDistance(a[..i], a[i], a[i + 1..]);
    } else {
      var i, c :| Replaced(a, b, i, c);
      assert a == a[..i] + [a[i]] + a[i + 1..];
      ReplaceDistance(a[..i], a[i], c, a[i + 1..]);
    }
  }

  /** No chain of single edits, in any order and at any positions, is shorter than the distance. */
  lemma {:induction false} NoShorterPath(words: seq<string>)
    requires EditPath(words)
    ensures Distance(words[0], words[|words| - 1]) <= |words| - 1
  {
    if |words| == 1 {
      SelfDistance(words[0]);
    } else {
      var n := |words| - 1;
      NoShorterPath(words[..n]);
      OneEditDistance(words[n - 1], words[n]);
      Triangle(words[0], words[n - 1], words[n]);
    }
  }

  lemma ConsPath(w: string, words: seq<string>)
    requires EditPath(words) && OneEdit(w, words[0])
    ensures EditPath([w] + words)
  {
    var path := [w] + words;
    forall i | 0 <= i < |path| - 1 ensures OneEdit(path[i], path[i + 1]) {
      if i > 0 {
        assert path[i] == words[i - 1] && path[i + 1] == words[i];
      }
    }
  }

  /** A script spelled out as single edits, each leaving the suffix still to come untouched. */
  lemma {:induction false} ScriptPath(s: Script, suffix: string) returns (words: seq<string>)
    ensures EditPath(words) && |words| == Cost(s) + 1
    ensures words[0] == Source(s) + suffix && words[|words| - 1] == Target(s) + suffix
    decreases s
  {
    match s
    case Done => words := [suffix]; assert "" + suffix == suffix;
    case Match(rest, from, to) =>
      var last := Source(rest) + [to] + suffix;
      words := ScriptPath(rest, [to] + suffix);
      assert Source(rest) + ([to] + suffix) == last;
      assert Target(rest) + ([to] + suffix) == Target(s) + suffix;
      if from != to {
        var w := Source(s) + suffix;
        var i := |Source(rest)|;
        assert Replaced(w, last, i, to);
        ConsPath(w, words);
        words := [w] + words;
      }
    case Insert(rest, to) =>
      var w := Source(rest) + suffix;
      var i := |Source(rest)|;
      words := ScriptPath(rest, [to] + suffix);
      assert Inserted(w, Source(rest) + ([to] + suffix), i, to);
      assert Target(rest) + ([to] + suffix) == Target(s) + suffix;
      ConsPath(w, words);
      words := [w] + words;
    case Delete(rest, from) =>
      var w := Source(s) + suffix;
      var i := |Source(rest)|;
      words := ScriptPath(rest, suffix);
      assert Deleted(w, Source(rest) + suffix, i);
      ConsPath(w, words);
      words := [w] + words;
  }

  /** The distance is exactly the length of a shortest chain of single-character edits. */
  lemma DistanceIsShortestPath(a: string, b: string)
    ensures exists words :: EditPath(words) && words[0] == a && words[|words| - 1] == b && |words| == Distance(a, b) + 1
    ensures forall words :: EditPath(words) && words[0] == a && words[|words| - 1] == b
                            ==> |words| >= Distance(a, b) + 1
  {
    var s := BestScript(a, b);
    var words := ScriptPath(s, "");
    assert a + "" == a && b + "" == b;
    forall other | EditPath(other) && other[0] == a && other[|other| - 1] == b
      ensures |other| >= Distance(a, b) + 1
    {
      NoShorterPath(other);
    }
  }

  lemma Cell(a: string, b: string, i: nat, j: nat)
    requires i < |a| && j < |b|
    ensures Distance(a[..i + 1], b[..j + 1])
            == Min3(Distance(a[..i], b[..j + 1]) + 1, Distance(a[..i + 1], b[..j]) + 1,
                    Distance(a[..i], b[..j]) + (if a[i] != b[j] then 1 else 0))
  {
    assert a[..i + 1][..i] == a[..i] && b[..j + 1][..j] == b[..j];
  }

  /** Row `i` of the distance table. */
  ghost predicate IsRow(a: string, b: string, i: nat, row: seq<nat>)
    requires i <= |a|
  {
    |row| <= |b| + 1 && forall j :: 0 <= j < |row| ==> row[j] == Distance(a[..i], b[..j])
  }

  lemma FirstRow(a: string, b: string, row: seq<nat>)
    requires |row| == |b| + 1 && forall j :: 0 <= j <= |b| ==> row[j] == j
    ensures IsRow(a, b, 0, row)
  {
  }

  lemma StartRow(a: string, b: string, i: nat)
    requires i <= |a|
    ensures IsRow(a, b, i, [i])
  {
    assert Distance(a[..i], b[..0]) == i;
  }

  lemma ExtendRow(a: string, b: string, i: nat, prev: seq<nat>, cur: seq<nat>, next: nat)
    requires i < |a| && IsRow(a, b, i, prev) && |prev| == |b| + 1
    requires IsRow(a, b, i + 1, cur) && 1 <= |cur| <= |b|
    requires var j := |cur| - 1;
             next == Min3(prev[j + 1] + 1, cur[j] + 1, prev[j] + (if a[i] != b[j] then 1 else 0))
    ensures IsRow(a, b, i + 1, cur + [next])
  {
    var j := |cur| - 1;
    Cell(a, b, i, j);
    assert prev[j + 1] == Distance(a[..i], b[..j + 1]);
    assert prev[j] == Distance(a[..i], b[..j]);
    assert cur[j] == Distance(a[..i + 1], b[..j]);
    RowAppend(a, b, i + 1, cur, next);
  }

  lemma RowAppend(a: string, b: string, i: nat, row: seq<nat>, next: nat)
    requires i <= |a| && IsRow(a, b, i, row) && |row| <= |b|
    requires next == Distance(a[..i], b[..|row|])
    ensures IsRow(a, b, i, row + [next])
  {
  }

  /** The two-row dynamic programme. */
  method Levenshtein(a: string, b: string) returns (d: nat)
    ensures d == Distance(a, b)
  {
    if a == b {
      SelfDistance(a);
      return 0;
    }
    if a == [] {
      return |b|;
    }
    if b == [] {
      return |a|;
    }
    var prev: seq<nat> := seq(|b| + 1, j requires 0 <= j => j);
    FirstRow(a, b, prev);
    for i := 0 to |a|
      invariant IsRow(a, b, i, prev) && |prev| == |b| + 1
    {
      var cur: seq<nat> := [i + 1];
      StartRow(a, b, i + 1);
      for j := 0 to |b|
        invariant IsRow(a, b, i + 1, cur) && |cur| == j + 1
      {
        var next := Min3(prev[j + 1] + 1, cur[j] + 1, prev[j] + (if a[i] != b[j] then 1 else 0));
        ExtendRow(a, b, i, prev, cur, next);
        cur := cur + [next];
      }
      prev := cur;
    }
    assert a[..|a|] == a && b[..|b|] == b;
    d := prev[|prev| - 1];
  }
}
