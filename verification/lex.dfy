/**
 * Lexicographic order on integer keys, the way SQL compares the columns of an
 * ORDER BY list one after the other and TEXT values code point by code point
 * (a proper prefix comes first). Every ordering the interpreter uses is a key
 * function into `seq<int>` compared with `LexLess`.
 */
module Lex {
  import opened Sorting

  predicate LexLess(a: seq<int>, b: seq<int>)
    decreases |a|
  {
    if |b| == 0 then false
    else if |a| == 0 then true
    else a[0] < b[0] || (a[0] == b[0] && LexLess(a[1..], b[1..]))
  }

  /** Comparison of two records through their keys. */
  function ByKey<T(!new)>(key: T -> seq<int>): (lt: (T, T) -> bool)
    ensures forall x, y :: lt(x, y) == LexLess(key(x), key(y))
  {
    (x, y) => LexLess(key(x), key(y))
  }

  lemma {:induction false} LexIrreflexive(a: seq<int>)
    ensures !LexLess(a, a)
    decreases |a|
  {
    if |a| > 0 {
      LexIrreflexive(a[1..]);
    }
  }

  lemma {:induction false} LexTransitive(a: seq<int>, b: seq<int>, c: seq<int>)
    requires LexLess(a, b) && LexLess(b, c)
    ensures LexLess(a, c)
    decreases |a|
  {
    if |a| > 0 && a[0] == b[0] && b[0] == c[0] {
      LexTransitive(a[1..], b[1..], c[1..]);
    }
  }

  /** Two different keys are ordered one way or the other. */
  lemma {:induction false} LexTotal(a: seq<int>, b: seq<int>)
    requires a != b
    ensures LexLess(a, b) || LexLess(b, a)
    decreases |a|
  {
    if |a| > 0 && |b| > 0 && a[0] == b[0] {
      assert a == [a[0]] + a[1..] && b == [b[0]] + b[1..];
      LexTotal(a[1..], b[1..]);
    }
  }

  /** Any order through keys is a strict weak order. */
  lemma ByKeyOrder<T(!new)>(key: T -> seq<int>)
    ensures StrictWeakOrder(ByKey(key))
  {
    var lt := ByKey(key);
    forall a ensures !lt(a, a) {
      LexIrreflexive(key(a));
    }
    forall a, b, c | lt(a, b) && lt(b, c) ensures lt(a, c) {
      LexTransitive(key(a), key(b), key(c));
    }
    forall a, b, c | lt(a, c) ensures lt(a, b) || lt(b, c) {
      if key(b) == key(a) {
      } else if LexLess(key(b), key(a)) {
        LexTransitive(key(b), key(a), key(c));
      } else {
        LexTotal(key(a), key(b));
      }
    }
  }

  /** Distinct elements with distinct keys are always comparable. */
  lemma ByKeyTotal<T(!new)>(s: seq<T>, key: T -> seq<int>)
    requires forall x, y :: x in s && y in s && x != y ==> key(x) != key(y)
    ensures TotalOn(s, ByKey(key))
  {
    forall x, y | x in s && y in s && x != y ensures ByKey(key)(x, y) || ByKey(key)(y, x) {
      LexTotal(key(x), key(y));
    }
  }
}
