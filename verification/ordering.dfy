/**
 * The order pandas' `groupby` sorts string keys by: Python's `str`
 * comparison, lexicographic by code point with a proper prefix first, and
 * for a pair of keys the first component decides before the second.
 */
module Ordering {

  predicate StrLess(a: string, b: string)
    decreases |a|
  {
    if a == [] then b != []
    else if b == [] then false
    else a[0] < b[0] || (a[0] == b[0] && StrLess(a[1..], b[1..]))
  }

  lemma {:induction false} StrLessIrreflexive(a: string)
    ensures !StrLess(a, a)
    decreases |a|
  {
    if a != [] {
      StrLessIrreflexive(a[1..]);
    }
  }

  /** Any two different strings are ordered one way or the other. */
  lemma {:induction false} StrLessTotal(a: string, b: string)
    ensures a == b || StrLess(a, b) || StrLess(b, a)
    decreases |a|
  {
    if a != [] && b != [] && a[0] == b[0] {
      StrLessTotal(a[1..], b[1..]);
      if a[1..] == b[1..] {
        assert a == [a[0]] + a[1..] && b == [b[0]] + b[1..];
      }
    }
  }

  lemma {:induction false} StrLessTransitive(a: string, b: string, c: string)
    requires StrLess(a, b) && StrLess(b, c)
    ensures StrLess(a, c)
    decreases |a|
  {
    if a != [] && a[0] == b[0] && b[0] == c[0] {
      StrLessTransitive(a[1..], b[1..], c[1..]);
    }
  }

  /** A (group value, BUY_INSURANCE value) pair: one row of the grouped table. */
  datatype Key = Key(group: string, outcome: string)

  predicate KeyLess(a: Key, b: Key) {
    StrLess(a.group, b.group) || (a.group == b.group && StrLess(a.outcome, b.outcome))
  }

  lemma KeyLessIrreflexive(a: Key)
    ensures !KeyLess(a, a)
  {
    StrLessIrreflexive(a.group);
    StrLessIrreflexive(a.outcome);
  }

  lemma KeyLessTotal(a: Key, b: Key)
    ensures a == b || KeyLess(a, b) || KeyLess(b, a)
  {
    StrLessTotal(a.group, b.group);
    StrLessTotal(a.outcome, b.outcome);
  }

  lemma KeyLessTransitive(a: Key, b: Key, c: Key)
    requires KeyLess(a, b) && KeyLess(b, c)
    ensures KeyLess(a, c)
  {
    if StrLess(a.group, b.group) && StrLess(b.group, c.group) {
      StrLessTransitive(a.group, b.group, c.group);
    } else if a.group == b.group && b.group == c.group {
      StrLessTransitive(a.outcome, b.outcome, c.outcome);
    }
  }

  /** The order is strict: no key precedes itself and no two keys precede each other. */
  lemma KeyLessAsymmetric(a: Key, b: Key)
    requires KeyLess(a, b)
    ensures !KeyLess(b, a)
  {
    if KeyLess(b, a) {
      KeyLessTransitive(a, b, a);
      KeyLessIrreflexive(a);
    }
  }
}
