/**
 * Insertion sort by an explicit "comes before" relation, and the facts the
 * positional task resolver relies on: the result is a sorted permutation of
 * the input, and a sorted permutation is unique once every two distinct
 * elements are comparable.
 */
module Sorting {

  /** `lt` is a strict weak order: irreflexive, transitive, and whenever a comes
      before c, any b comes after a or before c. */
  ghost predicate StrictWeakOrder<T(!new)>(lt: (T, T) -> bool) {
    && (forall a :: !lt(a, a))
    && (forall a, b, c :: lt(a, b) && lt(b, c) ==> lt(a, c))
    && (forall a, b, c :: lt(a, c) ==> lt(a, b) || lt(b, c))
  }

  /** No element comes before an element to its left. */
  ghost predicate SortedBy<T>(s: seq<T>, lt: (T, T) -> bool) {
    forall i, j :: 0 <= i < j < |s| ==> !lt(s[j], s[i])
  }

  /** Every two distinct elements of s are ordered one way or the other. */
  ghost predicate TotalOn<T>(s: seq<T>, lt: (T, T) -> bool) {
    forall x, y :: x in s && y in s && x != y ==> lt(x, y) || lt(y, x)
  }

  /** Places x before the first element it does not come after. */
  function Insert<T>(x: T, s: seq<T>, lt: (T, T) -> bool): (r: seq<T>)
    ensures multiset(r) == multiset(s) + multiset{x}
    ensures |r| == |s| + 1
  {
    if |s| == 0 then [x]
    else if lt(s[0], x) then
      assert s == [s[0]] + s[1..];
      [s[0]] + Insert(x, s[1..], lt)
    else [x] + s
  }

  function Sort<T>(s: seq<T>, lt: (T, T) -> bool): (r: seq<T>)
    ensures multiset(r) == multiset(s)
    ensures |r| == |s|
  {
    if |s| == 0 then []
    else
      assert s == [s[0]] + s[1..];
      Insert(s[0], Sort(s[1..], lt), lt)
  }

  lemma {:induction false} InsertSorted<T(!new)>(x: T, s: seq<T>, lt: (T, T) -> bool)
    requires StrictWeakOrder(lt)
    requires SortedBy(s, lt)
    ensures SortedBy(Insert(x, s, lt), lt)
  {
    if |s| == 0 {
    } else if lt(s[0], x) {
      var tail := Insert(x, s[1..], lt);
      InsertSorted(x, s[1..], lt);
      var r := [s[0]] + tail;
      forall i, j | 0 <= i < j < |r| ensures !lt(r[j], r[i]) {
        if i == 0 {
          assert r[j] in multiset(tail);
          if r[j] != x {
            assert r[j] in s[1..];
            var k :| 0 <= k < |s[1..]| && s[1..][k] == r[j];
            assert s[k + 1] == r[j];
          }
        } else {
          assert r[i] == tail[i - 1] && r[j] == tail[j - 1];
        }
      }
    } else {
      var r := [x] + s;
      forall i, j | 0 <= i < j < |r| ensures !lt(r[j], r[i]) {
        if i == 0 {
          assert r[j] == s[j - 1];
          if j - 1 > 0 {
            assert !lt(s[j - 1], s[0]);
          }
        } else {
          assert r[i] == s[i - 1] && r[j] == s[j - 1];
        }
      }
    }
  }

  /** Sort returns a sorted sequence. */
  lemma {:induction false} SortSorted<T(!new)>(s: seq<T>, lt: (T, T) -> bool)
    requires StrictWeakOrder(lt)
    ensures SortedBy(Sort(s, lt), lt)
  {
    if |s| > 0 {
      SortSorted(s[1..], lt);
      InsertSorted(s[0], Sort(s[1..], lt), lt);
    }
  }

  /** Two sorted arrangements of the same elements are the same sequence, when
      every two distinct elements are comparable. */
  lemma {:induction false} SortedUnique<T>(a: seq<T>, b: seq<T>, lt: (T, T) -> bool)
    requires SortedBy(a, lt) && SortedBy(b, lt)
    requires multiset(a) == multiset(b)
    requires TotalOn(a, lt)
    ensures a == b
  {
    assert |a| == |multiset(a)| == |multiset(b)| == |b|;
    if |a| > 0 {
      assert a[0] in multiset(b) && b[0] in multiset(a);
      assert a == [a[0]] + a[1..];
      assert b == [b[0]] + b[1..];
      assert a[0] == b[0];
      assert multiset(a[1..]) == multiset(a) - multiset{a[0]};
      assert multiset(b[1..]) == multiset(b) - multiset{b[0]};
      SortedTail(a, lt);
      SortedTail(b, lt);
      assert TotalOn(a[1..], lt) by {
        forall x, y | x in a[1..] && y in a[1..] && x != y ensures lt(x, y) || lt(y, x) {
          assert x in a && y in a;
        }
      }
      SortedUnique(a[1..], b[1..], lt);
    }
  }

  lemma SortedTail<T>(s: seq<T>, lt: (T, T) -> bool)
    requires SortedBy(s, lt) && |s| > 0
    ensures SortedBy(s[1..], lt)
  {
    forall i, j | 0 <= i < j < |s| - 1 ensures !lt(s[1..][j], s[1..][i]) {
      assert s[1..][j] == s[j + 1] && s[1..][i] == s[i + 1];
    }
  }

  /** Sorting by a relation that orders every two distinct elements yields the one
      sorted arrangement of the input. */
  lemma SortIsUnique<T(!new)>(s: seq<T>, r: seq<T>, lt: (T, T) -> bool)
    requires StrictWeakOrder(lt)
    requires TotalOn(s, lt)
    requires SortedBy(r, lt) && multiset(r) == multiset(s)
    ensures Sort(s, lt) == r
  {
    var q := Sort(s, lt);
    SortSorted(s, lt);
    assert TotalOn(q, lt) by {
      forall x, y | x in q && y in q && x != y ensures lt(x, y) || lt(y, x) {
        assert x in multiset(s) && y in multiset(s);
      }
    }
    SortedUnique(q, r, lt);
  }

  /** Removing one element keeps a sequence sorted. */
  lemma SortedRemove<T>(s: seq<T>, k: int, lt: (T, T) -> bool)
    requires SortedBy(s, lt) && 0 <= k < |s|
    ensures SortedBy(s[..k] + s[k + 1..], lt)
  {
    var r := s[..k] + s[k + 1..];
    forall i, j | 0 <= i < j < |r| ensures !lt(r[j], r[i]) {
      var i' := if i < k then i else i + 1;
      var j' := if j < k then j else j + 1;
      assert r[i] == s[i'] && r[j] == s[j'];
    }
  }

  lemma RemoveMultiset<T>(s: seq<T>, k: int)
    requires 0 <= k < |s|
    ensures multiset(s[..k] + s[k + 1..]) == multiset(s) - multiset{s[k]}
  {
    assert s == s[..k] + [s[k]] + s[k + 1..];
  }

  /** Two sorted runs joined with nothing in the second run before anything in the first. */
  lemma SortedConcat<T>(a: seq<T>, b: seq<T>, lt: (T, T) -> bool)
    requires SortedBy(a, lt) && SortedBy(b, lt)
    requires forall x, y :: x in a && y in b ==> !lt(y, x)
    ensures SortedBy(a + b, lt)
  {
    var r := a + b;
    forall i, j | 0 <= i < j < |r| ensures !lt(r[j], r[i]) {
      if j < |a| {
        assert r[i] == a[i] && r[j] == a[j];
      } else if i >= |a| {
        assert r[i] == b[i - |a|] && r[j] == b[j - |a|];
      } else {
        assert r[i] in a && r[j] in b;
      }
    }
  }

  /** Comparability depends only on which elements are present. */
  lemma TotalOnPermutation<T>(a: seq<T>, b: seq<T>, lt: (T, T) -> bool)
    requires multiset(a) == multiset(b)
    requires TotalOn(a, lt)
    ensures TotalOn(b, lt)
  {
    forall x, y | x in b && y in b && x != y ensures lt(x, y) || lt(y, x) {
      assert x in multiset(a) && y in multiset(a);
    }
  }
}
