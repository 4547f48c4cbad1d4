/**
 * Ordering of report cells and group keys: Python's `<` on `str`, which
 * compares code point by code point, `pandas.Series.unique()`, and `sorted`.
 */
module Ordering {

  /** Python's `a < b` on `str`: lexicographic by code point, a proper prefix first. */
  predicate Below(a: string, b: string) {
    if a == [] then b != []
    else b != [] && (a[0] < b[0] || (a[0] == b[0] && Below(a[1..], b[1..])))
  }

  lemma {:induction false} BelowIrreflexive(a: string)
    ensures !Below(a, a)
  {
    if a != [] {
      BelowIrreflexive(a[1..]);
    }
  }

  lemma {:induction false} BelowTransitive(a: string, b: string, c: string)
    requires Below(a, b) && Below(b, c)
    ensures Below(a, c)
  {
    if a != [] && a[0] == b[0] && b[0] == c[0] {
      BelowTransitive(a[1..], b[1..], c[1..]);
    }
  }

  lemma {:induction false} BelowTotal(a: string, b: string)
    ensures a == b || Below(a, b) || Below(b, a)
  {
    if a != [] && b != [] && a[0] == b[0] {
      BelowTotal(a[1..], b[1..]);
      assert a == [a[0]] + a[1..];
      assert b == [b[0]] + b[1..];
    }
  }

  /** `lt` is irreflexive, transitive and relates any two distinct values one way or the other. */
  ghost predicate IsStrictTotalOrder<T(!new)>(lt: (T, T) -> bool) {
    && (forall x :: !lt(x, x))
    && (forall x, y, z :: lt(x, y) && lt(y, z) ==> lt(x, z))
    && (forall x, y :: x == y || lt(x, y) || lt(y, x))
  }

  /** Python's string order is a strict total order. */
  lemma BelowIsStrictTotalOrder()
    ensures IsStrictTotalOrder(Below)
  {
    forall x: string ensures !Below(x, x) {
      BelowIrreflexive(x);
    }
    forall x: string, y: string, z: string | Below(x, y) && Below(y, z) ensures Below(x, z) {
      BelowTransitive(x, y, z);
    }
    forall x: string, y: string ensures x == y || Below(x, y) || Below(y, x) {
      BelowTotal(x, y);
    }
  }

  function Elements<T>(xs: seq<T>): set<T> {
    set x | x in xs
  }

  lemma ElementsOfConcat<T>(a: seq<T>, b: seq<T>)
    ensures Elements(a + b) == Elements(a) + Elements(b)
  {
    assert forall x :: x in a + b <==> x in a || x in b;
  }

  lemma NoElements<T>(xs: seq<T>)
    ensures Elements(xs) == {} <==> xs == []
  {
    if xs != [] {
      assert xs[0] in Elements(xs);
    }
  }

  predicate Distinct<T(==)>(xs: seq<T>) {
    forall i, j :: 0 <= i < j < |xs| ==> xs[i] != xs[j]
  }

  ghost predicate StrictlySorted<T>(xs: seq<T>, lt: (T, T) -> bool) {
    forall i, j :: 0 <= i < j < |xs| ==> lt(xs[i], xs[j])
  }

  /** `pandas.Series.unique()`: each value once, in order of first appearance. */
  function Unique<T(==)>(xs: seq<T>): (r: seq<T>)
    ensures Elements(r) == Elements(xs)
    ensures Distinct(r)
  {
    if xs == [] then []
    else
      var u := Unique(xs[..|xs| - 1]);
      assert xs == xs[..|xs| - 1] + [xs[|xs| - 1]];
      ElementsOfConcat(xs[..|xs| - 1], [xs[|xs| - 1]]);
      ElementsOfConcat(u, [xs[|xs| - 1]]);
      if xs[|xs| - 1] in u then u else u + [xs[|xs| - 1]]
  }

  function Insert<T>(x: T, xs: seq<T>, lt: (T, T) -> bool): (r: seq<T>)
    ensures multiset(r) == multiset(xs) + multiset{x}
    ensures Elements(r) == Elements(xs) + {x}
  {
    if xs == [] || !lt(xs[0], x) then [x] + xs
    else
      assert xs == [xs[0]] + xs[1..];
      ElementsOfConcat([xs[0]], xs[1..]);
      ElementsOfConcat([xs[0]], Insert(x, xs[1..], lt));
      [xs[0]] + Insert(x, xs[1..], lt)
  }

  /** Python's `sorted(xs)` with `lt` standing for `<`. */
  function Sort<T>(xs: seq<T>, lt: (T, T) -> bool): (r: seq<T>)
    ensures multiset(r) == multiset(xs)
    ensures Elements(r) == Elements(xs)
  {
    if xs == [] then []
    else
      assert xs == [xs[0]] + xs[1..];
      Insert(xs[0], Sort(xs[1..], lt), lt)
  }

  lemma {:induction false} InsertSorted<T(!new)>(x: T, xs: seq<T>, lt: (T, T) -> bool)
    requires IsStrictTotalOrder(lt)
    requires StrictlySorted(xs, lt) && x !in xs
    ensures StrictlySorted(Insert(x, xs, lt), lt)
  {
    if xs == [] {
    } else if !lt(xs[0], x) {
      assert lt(x, xs[0]);
      var r := [x] + xs;
      forall i, j | 0 <= i < j < |r| ensures lt(r[i], r[j]) {
        if i > 0 {
          assert r[i] == xs[i - 1] && r[j] == xs[j - 1];
        } else if j > 1 {
          assert lt(xs[0], xs[j - 1]);
        }
      }
    } else {
      InsertSorted(x, xs[1..], lt);
      var tail := Insert(x, xs[1..], lt);
      var r := [xs[0]] + tail;
      forall i, j | 0 <= i < j < |r| ensures lt(r[i], r[j]) {
        if i > 0 {
          assert r[i] == tail[i - 1] && r[j] == tail[j - 1];
        } else {
          assert r[j] in Elements(tail);
          if r[j] != x {
            var k :| 0 <= k < |xs[1..]| && xs[1..][k] == r[j];
            assert lt(xs[0], xs[k + 1]);
          }
        }
      }
    }
  }

  lemma {:induction false} SortSorted<T(!new)>(xs: seq<T>, lt: (T, T) -> bool)
    requires IsStrictTotalOrder(lt)
    requires Distinct(xs)
    ensures StrictlySorted(Sort(xs, lt), lt)
  {
    if xs != [] {
      SortSorted(xs[1..], lt);
      assert xs[0] !in Elements(xs[1..]);
      InsertSorted(xs[0], Sort(xs[1..], lt), lt);
    }
  }

  lemma FirstIsLeast<T>(xs: seq<T>, x: T, lt: (T, T) -> bool)
    requires StrictlySorted(xs, lt) && x in xs
    ensures x == xs[0] || lt(xs[0], x)
  {
    var k :| 0 <= k < |xs| && xs[k] == x;
    if k > 0 {
      assert lt(xs[0], xs[k]);
    }
  }

  /**
   * A strictly sorted list is determined by its elements: any two strictly
   * sorted lists over the same values are the same list.
   */
  lemma {:induction false} StrictlySortedUnique<T(!new)>(a: seq<T>, b: seq<T>, lt: (T, T) -> bool)
    requires IsStrictTotalOrder(lt)
    requires StrictlySorted(a, lt) && StrictlySorted(b, lt)
    requires Elements(a) == Elements(b)
    ensures a == b
  {
    if a == [] {
      NoElements(b);
    } else {
      assert a[0] in Elements(b);
      assert b != [];
      assert b[0] in Elements(a);
      FirstIsLeast(a, b[0], lt);
      FirstIsLeast(b, a[0], lt);
      assert Elements(a[1..]) == Elements(a) - {a[0]} by {
        assert a == [a[0]] + a[1..];
        forall k | 0 <= k < |a[1..]| ensures a[1..][k] != a[0] {
          assert lt(a[0], a[k + 1]);
        }
      }
      assert Elements(b[1..]) == Elements(b) - {b[0]} by {
        assert b == [b[0]] + b[1..];
        forall k | 0 <= k < |b[1..]| ensures b[1..][k] != b[0] {
          assert lt(b[0], b[k + 1]);
        }
      }
      StrictlySortedUnique(a[1..], b[1..], lt);
      assert a == [a[0]] + a[1..];
      assert b == [b[0]] + b[1..];
    }
  }

  /**
   * `sorted(xs.unique())` on strings: the values of `xs`, each once, in
   * ascending Python string order.
   */
  function SortedUnique(xs: seq<string>): (r: seq<string>)
    ensures StrictlySorted(r, Below)
    ensures Elements(r) == Elements(xs)
  {
    BelowIsStrictTotalOrder();
    SortSorted(Unique(xs), Below);
    Sort(Unique(xs), Below)
  }

  /**
   * `sorted(xs.unique())` depends only on which values occur in `xs`, not on
   * their order or how often they repeat.
   */
  lemma SortedUniqueDependsOnlyOnElements(xs: seq<string>, ys: seq<string>)
    requires Elements(xs) == Elements(ys)
    ensures SortedUnique(xs) == SortedUnique(ys)
  {
    BelowIsStrictTotalOrder();
    StrictlySortedUnique(SortedUnique(xs), SortedUnique(ys), Below);
  }
}
