/** `Array.prototype.sort` without a comparator, on arrays of strings: the
    result is the input's elements in ascending UTF-16 code-unit order.
    Every string the core sorts lies in the Basic Multilingual Plane, where
    code units and code points coincide, so the order compares `char`s.

    The engine's sorting algorithm is not part of the model: `Sort` is one
    function with the promised result, and `SortedUnique` shows that any
    other algorithm keeping that promise returns the same sequence. */
module JsSort {

  /** `a` sorts no later than `b`: `a` is a prefix of `b`, or at the first
      position where they differ `a` has the smaller code unit. */
  predicate CodeUnitLeq(a: string, b: string)
    decreases |a|
  {
    a == [] || (b != [] && (a[0] < b[0] || (a[0] == b[0] && CodeUnitLeq(a[1..], b[1..]))))
  }

  lemma {:induction false} LeqReflexive(a: string)
    ensures CodeUnitLeq(a, a)
    decreases |a|
  {
    if a != [] {
      LeqReflexive(a[1..]);
    }
  }

  lemma {:induction false} LeqTotal(a: string, b: string)
    ensures CodeUnitLeq(a, b) || CodeUnitLeq(b, a)
    decreases |a|
  {
    if a != [] && b != [] && a[0] == b[0] {
      LeqTotal(a[1..], b[1..]);
    }
  }

  lemma {:induction false} LeqTransitive(a: string, b: string, c: string)
    requires CodeUnitLeq(a, b) && CodeUnitLeq(b, c)
    ensures CodeUnitLeq(a, c)
    decreases |a|
  {
    if a != [] && a[0] == b[0] && b[0] == c[0] {
      LeqTransitive(a[1..], b[1..], c[1..]);
    }
  }

  lemma {:induction false} LeqAntisymmetric(a: string, b: string)
    requires CodeUnitLeq(a, b) && CodeUnitLeq(b, a)
    ensures a == b
    decreases |a|
  {
    if a != [] {
      LeqAntisymmetric(a[1..], b[1..]);
      assert a == [a[0]] + a[1..] && b == [b[0]] + b[1..];
    }
  }

  ghost predicate Sorted(s: seq<string>) {
    forall i, j :: 0 <= i < j < |s| ==> CodeUnitLeq(s[i], s[j])
  }

  /** An element that sorts no later than any element of the sorted `s`
      may go in front of it. */
  lemma SortedCons(x: string, s: seq<string>)
    requires Sorted(s)
    requires forall y :: y in s ==> CodeUnitLeq(x, y)
    ensures Sorted([x] + s)
  {
    forall i, j | 0 <= i < j < |[x] + s| ensures CodeUnitLeq(([x] + s)[i], ([x] + s)[j]) {
      if i > 0 {
        assert ([x] + s)[i] == s[i - 1];
      }
      assert ([x] + s)[j] == s[j - 1];
    }
  }

  /** `x` placed into the sorted `s` before the first element it does not
      follow. */
  function Insert(x: string, s: seq<string>): (r: seq<string>)
    requires Sorted(s)
    ensures Sorted(r)
    ensures multiset(r) == multiset(s) + multiset{x}
    decreases |s|
  {
    if s == [] then [x]
    else if CodeUnitLeq(x, s[0]) then
      assert forall y :: y in s ==> CodeUnitLeq(x, y) by {
        forall y | y in s ensures CodeUnitLeq(x, y) {
          SortedHeadFirst(s, y);
          LeqTransitive(x, s[0], y);
        }
      }
      SortedCons(x, s);
      [x] + s
    else
      LeqTotal(x, s[0]);
      SortedTail(s);
      assert s == [s[0]] + s[1..];
      var rest := Insert(x, s[1..]);
      assert forall y :: y in rest ==> CodeUnitLeq(s[0], y) by {
        forall y | y in rest ensures CodeUnitLeq(s[0], y) {
          assert y in multiset(rest);
          if y != x {
            assert y in multiset(s[1..]);
            SortedHeadFirst(s, y);
          }
        }
      }
      SortedCons(s[0], rest);
      [s[0]] + rest
  }

  /** The array's elements in ascending code-unit order. */
  function Sort(s: seq<string>): (r: seq<string>)
    ensures Sorted(r)
    ensures multiset(r) == multiset(s)
    decreases |s|
  {
    if s == [] then []
    else
      assert s == [s[0]] + s[1..];
      Insert(s[0], Sort(s[1..]))
  }

  lemma SortedTail(s: seq<string>)
    requires Sorted(s) && s != []
    ensures Sorted(s[1..])
  {
    forall i, j | 0 <= i < j < |s[1..]| ensures CodeUnitLeq(s[1..][i], s[1..][j]) {
      assert s[1..][i] == s[i + 1] && s[1..][j] == s[j + 1];
    }
  }

  /** The first element of a sorted sequence sorts no later than any element. */
  lemma SortedHeadFirst(s: seq<string>, y: string)
    requires Sorted(s) && y in s
    ensures CodeUnitLeq(s[0], y)
  {
    var k :| 0 <= k < |s| && s[k] == y;
    if k == 0 {
      LeqReflexive(y);
    }
  }

  /** Dropping the head removes one occurrence of it. */
  lemma MultisetTail(s: seq<string>)
    requires s != []
    ensures multiset(s[1..]) == multiset(s) - multiset{s[0]}
  {
    assert s == [s[0]] + s[1..];
  }

  /** Two sorted arrangements of the same elements start alike. */
  lemma SortedSameHead(a: seq<string>, b: seq<string>)
    requires Sorted(a) && Sorted(b) && multiset(a) == multiset(b) && a != []
    ensures b != [] && a[0] == b[0]
  {
    assert a[0] in multiset(b);
    assert b[0] in multiset(a);
    SortedHeadFirst(a, b[0]);
    SortedHeadFirst(b, a[0]);
    LeqAntisymmetric(a[0], b[0]);
  }

  /** Two sorted arrangements of the same elements are the same sequence. */
  lemma {:induction false} SortedUnique(a: seq<string>, b: seq<string>)
    requires Sorted(a) && Sorted(b) && multiset(a) == multiset(b)
    ensures a == b
    decreases |a|
  {
    if a != [] {
      SortedSameHead(a, b);
      MultisetTail(a);
      MultisetTail(b);
      SortedTail(a);
      SortedTail(b);
      SortedUnique(a[1..], b[1..]);
      assert a == [a[0]] + a[1..] && b == [b[0]] + b[1..];
    }
  }
}
