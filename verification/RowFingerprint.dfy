/** Row fingerprints: the six-field separator join that is hashed for every audit row. */
module RowFingerprint {
  import opened Sequences
  import opened Decimals

  const FIELD_SEP: char := '\U{1E}'

  /** A row of `audit_events`. Timestamps count ticks (see README). */
  datatype Row = Row(id: int, timestamp: int, level: string, source: string, message: string,
                     context: Option<string>)

  /** SHA-256 as a free term over its preimage; `Foreign` is any text that is no row's digest. */
  datatype Fingerprint = OfRow(raw: string) | Foreign(text: string)

  function OrEmpty(text: Option<string>): string {
    match text case None => "" case Some(s) => s
  }

  function Joined(head: string, tail: string): string {
    head + [FIELD_SEP] + tail
  }

  /** The text columns, the part of the join an event's producer controls. */
  function TextPart(r: Row): string {
    Joined(r.level, Joined(r.source, Joined(r.message, OrEmpty(r.context))))
  }

  function Raw(r: Row): string {
    Joined(Decimal(r.id), Joined(Decimal(r.timestamp), TextPart(r)))
  }

  function FingerprintOf(r: Row): Fingerprint {
    OfRow(Raw(r))
  }

  /** Equal up to a NULL context and an empty one, which the join cannot tell apart. */
  ghost predicate SameRow(r: Row, s: Row) {
    r.(context := None) == s.(context := None) && OrEmpty(r.context) == OrEmpty(s.context)
  }

  ghost predicate SeparatorFree(r: Row) {
    FIELD_SEP !in r.level && FIELD_SEP !in r.source && FIELD_SEP !in r.message
    && FIELD_SEP !in OrEmpty(r.context)
  }

  /** Number of separators in a text. */
  ghost function Separators(s: string): nat {
    if s == [] then 0 else Separators(s[..|s| - 1]) + (if s[|s| - 1] == FIELD_SEP then 1 else 0)
  }

  lemma {:induction false} SeparatorsAppend(s: string, t: string)
    ensures Separators(s + t) == Separators(s) + Separators(t)
  {
    if t == [] {
      assert s + t == s;
    } else {
      SeparatorsAppend(s, t[..|t| - 1]);
      assert (s + t)[..|s + t| - 1] == s + t[..|t| - 1];
    }
  }

  lemma {:induction false} SeparatorsZero(s: string)
    ensures Separators(s) == 0 <==> FIELD_SEP !in s
  {
    if s != [] {
      SeparatorsZero(s[..|s| - 1]);
      assert s == s[..|s| - 1] + [s[|s| - 1]];
    }
  }

  lemma SeparatorsJoined(head: string, tail: string)
    ensures Separators(Joined(head, tail)) == Separators(head) + 1 + Separators(tail)
  {
    SeparatorsAppend(head + [FIELD_SEP], tail);
    SeparatorsAppend(head, [FIELD_SEP]);
    assert Separators([FIELD_SEP]) == 1 by { assert [FIELD_SEP][..0] == []; }
  }

  lemma SeparatorsTextPart(r: Row)
    ensures Separators(TextPart(r)) >= 3
    ensures Separators(TextPart(r)) == 3 <==> SeparatorFree(r)
  {
    var c := OrEmpty(r.context);
    SeparatorsJoined(r.level, Joined(r.source, Joined(r.message, c)));
    SeparatorsJoined(r.source, Joined(r.message, c));
    SeparatorsJoined(r.message, c);
    SeparatorsZero(r.level);
    SeparatorsZero(r.source);
    SeparatorsZero(r.message);
    SeparatorsZero(c);
  }

  /** A separator-free head is recovered from a join. */
  lemma JoinedInjective(a: string, x: string, b: string, y: string)
    requires FIELD_SEP !in a && FIELD_SEP !in b
    requires Joined(a, x) == Joined(b, y)
    ensures a == b && x == y
  {
    var s := Joined(a, x);
    assert s[|a|] == FIELD_SEP && s[|b|] == FIELD_SEP;
    assert forall i :: 0 <= i < |a| ==> s[i] == a[i];
    assert forall i :: 0 <= i < |b| ==> s[i] == b[i];
    assert |a| == |b|;
    assert a == s[..|a|] == b;
    assert x == s[|a| + 1..] == y;
  }

  /** The two numeric columns are always recovered from a fingerprint. */
  lemma RawPrefix(r: Row, s: Row)
    requires Raw(r) == Raw(s)
    ensures r.id == s.id && r.timestamp == s.timestamp && TextPart(r) == TextPart(s)
  {
    JoinedInjective(Decimal(r.id), Joined(Decimal(r.timestamp), TextPart(r)),
                    Decimal(s.id), Joined(Decimal(s.timestamp), TextPart(s)));
    JoinedInjective(Decimal(r.timestamp), TextPart(r), Decimal(s.timestamp), TextPart(s));
    DecimalInjective(r.id, s.id);
    DecimalInjective(r.timestamp, s.timestamp);
  }

  /** Against ANY row, a separator-free row shares its fingerprint only with itself. */
  lemma FingerprintInjective(r: Row, s: Row)
    requires SeparatorFree(r)
    requires FingerprintOf(r) == FingerprintOf(s)
    ensures SameRow(r, s)
  {
    RawPrefix(r, s);
    SeparatorsTextPart(r);
    SeparatorsTextPart(s);
    var c, d := OrEmpty(r.context), OrEmpty(s.context);
    JoinedInjective(r.level, Joined(r.source, Joined(r.message, c)),
                    s.level, Joined(s.source, Joined(s.message, d)));
    JoinedInjective(r.source, Joined(r.message, c), s.source, Joined(s.message, d));
    JoinedInjective(r.message, c, s.message, d);
  }

  lemma SplitAtSeparator(s: string) returns (a: string, b: string)
    requires FIELD_SEP in s
    ensures s == Joined(a, b)
  {
    var i :| 0 <= i < |s| && s[i] == FIELD_SEP;
    a, b := s[..i], s[i + 1..];
  }

  lemma JoinedAssociative(a: string, b: string, c: string)
    ensures Joined(a, Joined(b, c)) == Joined(Joined(a, b), c)
  {
    assert Joined(a, Joined(b, c)) == a + [FIELD_SEP] + b + [FIELD_SEP] + c;
  }

  /** A separator inside any text column lets a different row share the fingerprint. */
  lemma SharedFingerprint(r: Row) returns (s: Row)
    requires !SeparatorFree(r)
    ensures FingerprintOf(s) == FingerprintOf(r) && !SameRow(r, s)
  {
    var c := OrEmpty(r.context);
    if FIELD_SEP in c {
      var a, b := SplitAtSeparator(c);
      s := r.(message := Joined(r.message, a), context := Some(b));
      JoinedAssociative(r.message, a, b);
      assert |s.message| > |r.message|;
    } else if FIELD_SEP in r.message {
      var a, b := SplitAtSeparator(r.message);
      s := r.(message := a, context := Some(Joined(b, c)));
      JoinedAssociative(a, b, c);
      assert |s.message| < |r.message|;
    } else if FIELD_SEP in r.source {
      var a, b := SplitAtSeparator(r.source);
      s := r.(source := a, message := Joined(b, r.message));
      JoinedAssociative(a, b, r.message);
      JoinedAssociative(a, Joined(b, r.message), c);
      JoinedAssociative(Joined(a, b), r.message, c);
      assert |s.source| < |r.source|;
    } else {
      var a, b := SplitAtSeparator(r.level);
      s := r.(level := a, source := Joined(b, r.source));
      var rest := Joined(r.message, c);
      JoinedAssociative(a, b, Joined(r.source, rest));
      JoinedAssociative(b, r.source, rest);
      assert |s.level| < |r.level|;
    }
  }

  /** A fingerprint pins its row exactly when no text column contains the separator. */
  lemma FingerprintPinsRow(r: Row)
    ensures (forall s: Row :: FingerprintOf(s) == FingerprintOf(r) ==> SameRow(r, s)) <==> SeparatorFree(r)
  {
    if SeparatorFree(r) {
      forall s: Row | FingerprintOf(s) == FingerprintOf(r)
        ensures SameRow(r, s)
      {
        FingerprintInjective(r, s);
      }
    } else {
      var s := SharedFingerprint(r);
    }
  }
}
