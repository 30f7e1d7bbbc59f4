/** A stable sort by a real-valued key, and what it leaves unchanged. */
module StableSort {
  import opened Sequences

  function Place<T>(key: T -> real, sorted: seq<T>, x: T): (r: seq<T>)
    ensures |r| == |sorted| + 1
  {
    if sorted == [] || key(sorted[|sorted| - 1]) <= key(x) then sorted + [x]
    else Place(key, sorted[..|sorted| - 1], x) + [sorted[|sorted| - 1]]
  }

  function SortBy<T>(key: T -> real, s: seq<T>): (r: seq<T>)
    ensures |r| == |s|
  {
    if s == [] then [] else Place(key, SortBy(key, s[..|s| - 1]), s[|s| - 1])
  }

  ghost predicate Ordered<T>(key: T -> real, s: seq<T>) {
    forall i, j :: 0 <= i < j < |s| ==> key(s[i]) <= key(s[j])
  }

  lemma {:induction false} PlaceMember<T(!new)>(key: T -> real, sorted: seq<T>, x: T)
    ensures forall y :: y in Place(key, sorted, x) <==> y in sorted || y == x
  {
    if !(sorted == [] || key(sorted[|sorted| - 1]) <= key(x)) {
      PlaceMember(key, sorted[..|sorted| - 1], x);
      assert sorted == sorted[..|sorted| - 1] + [sorted[|sorted| - 1]];
    }
  }

  lemma {:induction false} PlaceOrdered<T(!new)>(key: T -> real, sorted: seq<T>, x: T)
    requires Ordered(key, sorted)
    ensures Ordered(key, Place(key, sorted, x))
  {
    if !(sorted == [] || key(sorted[|sorted| - 1]) <= key(x)) {
      var init, last := sorted[..|sorted| - 1], sorted[|sorted| - 1];
      PlaceOrdered(key, init, x);
      PlaceMember(key, init, x);
      assert forall y :: y in Place(key, init, x) ==> key(y) <= key(last);
    }
  }

  lemma {:induction false} SortFacts<T(!new)>(key: T -> real, s: seq<T>)
    ensures Ordered(key, SortBy(key, s))
    ensures forall x :: x in SortBy(key, s) <==> x in s
  {
    if s != [] {
      var init := s[..|s| - 1];
      SortFacts(key, init);
      PlaceOrdered(key, SortBy(key, init), s[|s| - 1]);
      PlaceMember(key, SortBy(key, init), s[|s| - 1]);
      assert s == init + [s[|s| - 1]];
    }
  }

  lemma {:induction false} PlaceCount<T(!new)>(key: T -> real, p: T -> bool, sorted: seq<T>, x: T)
    ensures |Filter(p, Place(key, sorted, x))| == |Filter(p, sorted)| + (if p(x) then 1 else 0)
  {
    if sorted == [] || key(sorted[|sorted| - 1]) <= key(x) {
      assert (sorted + [x])[..|sorted + [x]| - 1] == sorted;
    } else {
      var init, last := sorted[..|sorted| - 1], sorted[|sorted| - 1];
      PlaceCount(key, p, init, x);
      var placed := Place(key, init, x);
      assert (placed + [last])[..|placed + [last]| - 1] == placed;
    }
  }

  /** Sorting changes no count: it is a permutation. */
  lemma {:induction false} SortCount<T(!new)>(key: T -> real, p: T -> bool, s: seq<T>)
    ensures |Filter(p, SortBy(key, s))| == |Filter(p, s)|
  {
    if s != [] {
      SortCount(key, p, s[..|s| - 1]);
      PlaceCount(key, p, SortBy(key, s[..|s| - 1]), s[|s| - 1]);
    }
  }

  lemma {:induction false} PlaceBehind<T(!new)>(key: T -> real, front: seq<T>, back: seq<T>, x: T)
    requires forall y :: y in front ==> key(y) <= key(x)
    ensures Place(key, front + back, x) == front + Place(key, back, x)
  {
    if back == [] {
      assert front + back == front;
    } else {
      var init, last := back[..|back| - 1], back[|back| - 1];
      assert (front + back)[..|front + back| - 1] == front + init;
      if key(last) > key(x) {
        PlaceBehind(key, front, init, x);
      }
    }
  }

  lemma SortSnoc<T>(key: T -> real, s: seq<T>, x: T)
    ensures SortBy(key, s + [x]) == Place(key, SortBy(key, s), x)
  {
    assert (s + [x])[..|s + [x]| - 1] == s;
  }

  /** Later keys appended at the end are sorted among themselves, behind everything else. */
  lemma {:induction false} SortAppend<T(!new)>(key: T -> real, a: seq<T>, b: seq<T>)
    requires forall x, y :: x in a && y in b ==> key(x) <= key(y)
    ensures SortBy(key, a + b) == SortBy(key, a) + SortBy(key, b)
  {
    if b == [] {
      assert a + b == a;
    } else {
      var init, last := b[..|b| - 1], b[|b| - 1];
      assert b == init + [last] && a + b == (a + init) + [last];
      SortAppend(key, a, init);
      SortSnoc(key, a + init, last);
      SortSnoc(key, init, last);
      SortFacts(key, a);
      PlaceBehind(key, SortBy(key, a), SortBy(key, init), last);
    }
  }
}
