/** Sequence vocabulary shared by the table models: SQL-style selection and counting. */
module Sequences {

  datatype Option<+T> = None | Some(value: T)

  /** The elements of `s` that satisfy `p`, in order (a SELECT ... WHERE over a table). */
  function Filter<T(!new)>(p: T -> bool, s: seq<T>): (r: seq<T>)
    ensures |r| <= |s|
  {
    if s == [] then []
    else Filter(p, s[..|s| - 1]) + (if p(s[|s| - 1]) then [s[|s| - 1]] else [])
  }

  lemma {:induction false} FilterMember<T(!new)>(p: T -> bool, s: seq<T>)
    ensures forall x :: x in Filter(p, s) <==> x in s && p(x)
  {
    if s != [] {
      FilterMember(p, s[..|s| - 1]);
      assert s == s[..|s| - 1] + [s[|s| - 1]];
    }
  }

  lemma {:induction false} FilterAppend<T(!new)>(p: T -> bool, s: seq<T>, t: seq<T>)
    ensures Filter(p, s + t) == Filter(p, s) + Filter(p, t)
  {
    if t == [] {
      assert s + t == s;
    } else {
      var n := |t| - 1;
      FilterAppend(p, s, t[..n]);
      assert (s + t)[..|s + t| - 1] == s + t[..n];
      assert Filter(p, s + t) == Filter(p, s + t[..n]) + (if p(t[n]) then [t[n]] else []);
    }
  }

  lemma {:induction false} FilterAll<T(!new)>(p: T -> bool, s: seq<T>)
    requires forall x :: x in s ==> p(x)
    ensures Filter(p, s) == s
  {
    if s != [] {
      FilterAll(p, s[..|s| - 1]);
      assert s == s[..|s| - 1] + [s[|s| - 1]];
    }
  }

  lemma {:induction false} FilterNone<T(!new)>(p: T -> bool, s: seq<T>)
    requires forall x :: x in s ==> !p(x)
    ensures Filter(p, s) == []
  {
    FilterMember(p, s);
    assert Filter(p, s) != [] ==> Filter(p, s)[0] in Filter(p, s);
  }

  /** Selection is unaffected by an element the predicate rejects, wherever it stands. */
  lemma FilterSkips<T(!new)>(p: T -> bool, s: seq<T>, x: T, t: seq<T>)
    requires !p(x)
    ensures Filter(p, s + [x] + t) == Filter(p, s + t)
  {
    FilterAppend(p, s + [x], t);
    FilterAppend(p, s, [x]);
    FilterAppend(p, s, t);
  }

  /** A weaker predicate selects at least as many elements. */
  lemma {:induction false} FilterWeaker<T(!new)>(p: T -> bool, q: T -> bool, s: seq<T>)
    requires forall x :: x in s && p(x) ==> q(x)
    ensures |Filter(p, s)| <= |Filter(q, s)|
  {
    if s != [] {
      FilterWeaker(p, q, s[..|s| - 1]);
    }
  }

  lemma {:induction false} FilterSame<T(!new)>(p: T -> bool, q: T -> bool, s: seq<T>)
    requires forall x :: x in s ==> (p(x) <==> q(x))
    ensures Filter(p, s) == Filter(q, s)
  {
    if s != [] {
      FilterSame(p, q, s[..|s| - 1]);
    }
  }

  /** Selecting twice is selecting by both. */
  lemma {:induction false} FilterBoth<T(!new)>(p: T -> bool, q: T -> bool, both: T -> bool, s: seq<T>)
    requires forall x :: both(x) <==> p(x) && q(x)
    ensures Filter(q, Filter(p, s)) == Filter(both, s)
  {
    if s != [] {
      var init, x := s[..|s| - 1], s[|s| - 1];
      FilterBoth(p, q, both, init);
      var kept := Filter(p, init);
      assert (kept + [x])[..|kept + [x]| - 1] == kept;
      assert Filter(p, s) == if p(x) then kept + [x] else kept;
    }
  }

  function FoldLeft<A, B>(step: (B, A) -> B, start: B, s: seq<A>): B {
    if s == [] then start else step(FoldLeft(step, start, s[..|s| - 1]), s[|s| - 1])
  }

  lemma {:induction false} FoldLeftAppend<A, B>(step: (B, A) -> B, start: B, s: seq<A>, t: seq<A>)
    ensures FoldLeft(step, start, s + t) == FoldLeft(step, FoldLeft(step, start, s), t)
  {
    if t == [] {
      assert s + t == s;
    } else {
      FoldLeftAppend(step, start, s, t[..|t| - 1]);
      assert (s + t)[..|s + t| - 1] == s + t[..|t| - 1];
    }
  }

  lemma SubsetSize<T>(a: set<T>, b: set<T>)
    requires a <= b
    ensures |a| <= |b|
  {
    assert b == a + (b - a);
  }
}
