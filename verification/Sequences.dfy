/** Sequences with an element taken out. */
module Sequences {

  function Without<T(==)>(s: seq<T>, x: T): seq<T> {
    if s == [] then [] else (if s[0] == x then [] else [s[0]]) + Without(s[1..], x)
  }

  ghost predicate NoDuplicates<T>(s: seq<T>) {
    forall i, j :: 0 <= i < j < |s| ==> s[i] != s[j]
  }

  lemma {:induction false} WithoutAbsent<T>(s: seq<T>, x: T)
    requires x !in s
    ensures Without(s, x) == s
  {
    if s != [] {
      WithoutAbsent(s[1..], x);
    }
  }

  lemma {:induction false} WithoutConcat<T>(a: seq<T>, b: seq<T>, x: T)
    ensures Without(a + b, x) == Without(a, x) + Without(b, x)
  {
    if a == [] {
      assert a + b == b;
    } else {
      assert (a + b)[1..] == a[1..] + b;
      WithoutConcat(a[1..], b, x);
    }
  }

  lemma WithoutMiddle<T>(a: seq<T>, x: T, b: seq<T>)
    requires x !in a && x !in b
    ensures Without(a + [x] + b, x) == a + b
  {
    WithoutAbsent(a, x);
    WithoutAbsent(b, x);
    WithoutAbsent([], x);
    assert [x][1..] == [];
    WithoutConcat(a + [x], b, x);
    WithoutConcat(a, [x], x);
    assert a + [] == a;
  }

  lemma WithoutAt<T>(s: seq<T>, k: nat)
    requires NoDuplicates(s) && k < |s|
    ensures var rest := s[..k] + s[k + 1..];
            && Without(s, s[k]) == rest && NoDuplicates(rest)
            && forall x :: x in rest <==> x in s && x != s[k]
  {
    WithoutMiddle(s[..k], s[k], s[k + 1..]);
    assert s == s[..k] + [s[k]] + s[k + 1..];
    var rest := s[..k] + s[k + 1..];
    forall i | 0 <= i < |rest| ensures rest[i] == s[if i < k then i else i + 1] {}
    forall i | 0 <= i < |s| && i != k ensures s[i] in rest {
      assert rest[if i < k then i else i - 1] == s[i];
    }
  }

  /** The elements that are not among those given, in their order. */
  function WithoutAll<T(==)>(s: seq<T>, xs: set<T>): seq<T> {
    if s == [] then [] else (if s[0] in xs then [] else [s[0]]) + WithoutAll(s[1..], xs)
  }

  /** Taking out one element more. */
  lemma {:induction false} WithoutOneMore<T>(s: seq<T>, xs: set<T>, x: T)
    ensures Without(WithoutAll(s, xs), x) == WithoutAll(s, xs + {x})
  {
    if s != [] {
      WithoutOneMore(s[1..], xs, x);
      WithoutConcat(if s[0] in xs then [] else [s[0]], WithoutAll(s[1..], xs), x);
    }
  }

  lemma {:induction false} WithoutNone<T>(s: seq<T>)
    ensures WithoutAll(s, {}) == s
  {
    if s != [] {
      WithoutNone(s[1..]);
    }
  }

  lemma {:induction false} InWithoutAll<T>(s: seq<T>, xs: set<T>)
    ensures forall x :: x in WithoutAll(s, xs) <==> x in s && x !in xs
  {
    if s != [] {
      InWithoutAll(s[1..], xs);
    }
  }
}
