/**
 * Strict total orders, the lexicographic extension of an order to sequences,
 * and the ascending enumeration of a finite set (what Guava's ImmutableSortedSet
 * produces when it is iterated).
 */
module Ordering {

  ghost predicate IsStrictTotal<T(!new)>(less: (T, T) -> bool) {
    && (forall a :: !less(a, a))
    && (forall a, b, c :: less(a, b) && less(b, c) ==> less(a, c))
    && (forall a, b :: a == b || less(a, b) || less(b, a))
  }

  /** Lexicographic order on sequences: a proper prefix comes first. */
  predicate LexLess<T(==)>(a: seq<T>, b: seq<T>, less: (T, T) -> bool) {
    if |a| == 0 then |b| > 0
    else if |b| == 0 then false
    else less(a[0], b[0]) || (a[0] == b[0] && LexLess(a[1..], b[1..], less))
  }

  lemma {:induction false} LexIrreflexive<T(!new)>(a: seq<T>, less: (T, T) -> bool)
    requires IsStrictTotal(less)
    ensures !LexLess(a, a, less)
  {
    if |a| > 0 {
      LexIrreflexive(a[1..], less);
    }
  }

  lemma {:induction false} LexTransitive<T(!new)>(a: seq<T>, b: seq<T>, c: seq<T>, less: (T, T) -> bool)
    requires IsStrictTotal(less)
    requires LexLess(a, b, less) && LexLess(b, c, less)
    ensures LexLess(a, c, less)
  {
    if |a| > 0 && |b| > 0 && |c| > 0 && a[0] == b[0] == c[0] {
      LexTransitive(a[1..], b[1..], c[1..], less);
    }
  }

  lemma {:induction false} LexTotal<T(!new)>(a: seq<T>, b: seq<T>, less: (T, T) -> bool)
    requires IsStrictTotal(less)
    ensures a == b || LexLess(a, b, less) || LexLess(b, a, less)
  {
    if |a| > 0 && |b| > 0 && a[0] == b[0] {
      LexTotal(a[1..], b[1..], less);
      if a[1..] == b[1..] {
        assert a == [a[0]] + a[1..] && b == [b[0]] + b[1..];
      }
    }
  }

  /** Java's String.compareTo, taken character by character. */
  function CharLess(x: char, y: char): bool { x < y }

  predicate StringLess(a: string, b: string) {
    LexLess(a, b, CharLess)
  }

  lemma StringLessIsStrictTotal()
    ensures IsStrictTotal(StringLess)
  {
    assert IsStrictTotal(CharLess);
    forall a: string ensures !StringLess(a, a) {
      LexIrreflexive(a, CharLess);
    }
    forall a: string, b: string, c: string | StringLess(a, b) && StringLess(b, c)
      ensures StringLess(a, c)
    {
      LexTransitive(a, b, c, CharLess);
    }
    forall a: string, b: string ensures a == b || StringLess(a, b) || StringLess(b, a) {
      LexTotal(a, b, CharLess);
    }
  }

  predicate IsLeast<T(==)>(m: T, s: set<T>, less: (T, T) -> bool) {
    m in s && forall x :: x in s && x != m ==> less(m, x)
  }

  lemma {:induction false} LeastExists<T(!new)>(s: set<T>, less: (T, T) -> bool)
    requires IsStrictTotal(less)
    requires s != {}
    ensures exists m :: IsLeast(m, s, less)
    decreases |s|
  {
    var x :| x in s;
    if s != {x} {
      var rest := s - {x};
      LeastExists(rest, less);
      var m :| IsLeast(m, rest, less);
      if less(m, x) {
        assert IsLeast(m, s, less);
      } else {
        assert IsLeast(x, s, less);
      }
    } else {
      assert IsLeast(x, s, less);
    }
  }

  ghost predicate StrictlyAscending<T>(xs: seq<T>, less: (T, T) -> bool) {
    forall i, j :: 0 <= i < j < |xs| ==> less(xs[i], xs[j])
  }

  /** The elements of a finite set in ascending order. */
  function SortSet<T(==,!new)>(s: set<T>, less: (T, T) -> bool): (r: seq<T>)
    requires IsStrictTotal(less)
    ensures |r| == |s|
    ensures forall x :: x in r <==> x in s
    ensures StrictlyAscending(r, less)
    decreases |s|
  {
    if s == {} then []
    else
      LeastExists(s, less);
      var m :| IsLeast(m, s, less);
      var rest := SortSet(s - {m}, less);
      PrependLeast(m, s, rest, less);
      [m] + rest
  }

  /** The least element of s, put before an ascending enumeration of the others. */
  lemma PrependLeast<T>(m: T, s: set<T>, rest: seq<T>, less: (T, T) -> bool)
    requires IsLeast(m, s, less)
    requires forall x :: x in rest <==> x in s - {m}
    requires StrictlyAscending(rest, less)
    ensures forall x :: x in [m] + rest <==> x in s
    ensures StrictlyAscending([m] + rest, less)
  {
    var r := [m] + rest;
    forall i, j | 0 <= i < j < |r| ensures less(r[i], r[j]) {
      assert r[j] == rest[j - 1];
      if i > 0 {
        assert r[i] == rest[i - 1];
      } else {
        assert rest[j - 1] in s - {m};
      }
    }
  }
}
