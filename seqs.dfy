/** Sequence operations behind the list comprehensions and `sorted({...})`
    expressions of the query service. */
module Seqs {
  import opened Wrappers

  /** `[x for x in s if keep(x)]`. */
  function Filter<T>(s: seq<T>, keep: T -> bool): (r: seq<T>)
    ensures |r| <= |s|
  {
    if s == [] then [] else (if keep(s[0]) then [s[0]] else []) + Filter(s[1..], keep)
  }

  /** The filter keeps exactly the elements that satisfy `keep`. */
  lemma {:induction false} FilterMembers<T(!new)>(s: seq<T>, keep: T -> bool)
    ensures forall x :: x in Filter(s, keep) <==> x in s && keep(x)
  {
    if s != [] {
      FilterMembers(s[1..], keep);
      assert s == [s[0]] + s[1..];
    }
  }

  lemma {:induction false} FilterConcat<T>(a: seq<T>, b: seq<T>, keep: T -> bool)
    ensures Filter(a + b, keep) == Filter(a, keep) + Filter(b, keep)
  {
    if a == [] {
      assert a + b == b;
    } else {
      var head := if keep(a[0]) then [a[0]] else [];
      assert (a + b)[0] == a[0] && (a + b)[1..] == a[1..] + b;
      FilterConcat(a[1..], b, keep);
      calc {
        Filter(a + b, keep);
        head + Filter(a[1..] + b, keep);
        head + (Filter(a[1..], keep) + Filter(b, keep));
        (head + Filter(a[1..], keep)) + Filter(b, keep);
      }
    }
  }

  /** `a` is what remains of `b` once some of its elements are deleted: the
      elements of `a` occur in `b` in the same order. */
  ghost predicate IsSubsequence<T>(a: seq<T>, b: seq<T>)
    decreases |b|
  {
    if a == [] then true
    else if b == [] then false
    else (a[0] == b[0] && IsSubsequence(a[1..], b[1..])) || IsSubsequence(a, b[1..])
  }

  lemma {:induction false} FilterIsSubsequence<T(!new)>(s: seq<T>, keep: T -> bool)
    ensures IsSubsequence(Filter(s, keep), s)
  {
    if s != [] {
      FilterIsSubsequence(s[1..], keep);
      var rest := Filter(s[1..], keep);
      if keep(s[0]) {
        assert Filter(s, keep) == [s[0]] + rest;
        assert ([s[0]] + rest)[1..] == rest;
      } else {
        assert Filter(s, keep) == rest;
        if rest != [] {
          assert IsSubsequence(rest, s[1..]);
        }
      }
    }
  }

  /** `[f(x).value for x in s if f(x) is not None]`. */
  function FilterMap<T, U(!new)>(s: seq<T>, f: T -> Option<U>): (r: seq<U>)
    ensures forall y :: y in r <==> exists k :: 0 <= k < |s| && f(s[k]) == Some(y)
  {
    if s == [] then []
    else
      var rest := FilterMap(s[1..], f);
      assert forall y :: (exists k :: 0 <= k < |s| - 1 && f(s[1..][k]) == Some(y))
                         <==> (exists k :: 1 <= k < |s| && f(s[k]) == Some(y)) by {
        forall y, k | 1 <= k < |s| && f(s[k]) == Some(y)
          ensures f(s[1..][k - 1]) == Some(y)
        {
        }
      }
      (if f(s[0]).Some? then [f(s[0]).value] else []) + rest
  }

  /** `less` orders every pair of distinct values, and consistently. */
  ghost predicate StrictTotalOrder<T(!new)>(less: (T, T) -> bool)
  {
    && (forall a :: !less(a, a))
    && (forall a, b, c :: less(a, b) && less(b, c) ==> less(a, c))
    && (forall a, b :: a != b ==> less(a, b) || less(b, a))
  }

  predicate StrictlyAscending<T>(s: seq<T>, less: (T, T) -> bool)
  {
    forall i, j :: 0 <= i < j < |s| ==> less(s[i], s[j])
  }

  /** Adds `x` to a sorted list of distinct values. */
  function InsertSorted<T(==)>(x: T, s: seq<T>, less: (T, T) -> bool): seq<T>
  {
    if s == [] then [x]
    else if x == s[0] then s
    else if less(x, s[0]) then [x] + s
    else [s[0]] + InsertSorted(x, s[1..], less)
  }

  /** `sorted(set(values))`. */
  function SortedSet<T(==)>(values: seq<T>, less: (T, T) -> bool): seq<T>
  {
    if values == [] then []
    else InsertSorted(values[|values| - 1], SortedSet(values[..|values| - 1], less), less)
  }

  lemma {:induction false} InsertSortedSpec<T(!new)>(x: T, s: seq<T>, less: (T, T) -> bool)
    requires StrictTotalOrder(less) && StrictlyAscending(s, less)
    ensures StrictlyAscending(InsertSorted(x, s, less), less)
    ensures forall y :: y in InsertSorted(x, s, less) <==> y == x || y in s
  {
    if s != [] && x != s[0] && !less(x, s[0]) {
      var rest := InsertSorted(x, s[1..], less);
      InsertSortedSpec(x, s[1..], less);
      assert less(s[0], x);
      forall y | y in rest ensures less(s[0], y) {
        if y != x {
          var k :| 0 <= k < |s[1..]| && s[1..][k] == y;
          assert s[k + 1] == y;
        }
      }
      var r := [s[0]] + rest;
      forall i, j | 0 <= i < j < |r| ensures less(r[i], r[j]) {
        if i == 0 {
          assert r[j] == rest[j - 1] && rest[j - 1] in rest;
        } else {
          assert r[i] == rest[i - 1] && r[j] == rest[j - 1];
        }
      }
      forall y ensures y in r <==> y == x || y in s {
        assert s == [s[0]] + s[1..];
      }
    } else if s != [] && x != s[0] {
      var r := [x] + s;
      forall i, j | 0 <= i < j < |r| ensures less(r[i], r[j]) {
        if i == 0 {
          assert r[j] == s[j - 1];
          if j > 1 {
            assert less(s[0], s[j - 1]);
          }
        } else {
          assert r[i] == s[i - 1] && r[j] == s[j - 1];
        }
      }
    }
  }

  lemma {:induction false} SortedSetSpec<T(!new)>(values: seq<T>, less: (T, T) -> bool)
    requires StrictTotalOrder(less)
    ensures StrictlyAscending(SortedSet(values, less), less)
    ensures forall y :: y in SortedSet(values, less) <==> y in values
  {
    if values != [] {
      var front := values[..|values| - 1];
      SortedSetSpec(front, less);
      InsertSortedSpec(values[|values| - 1], SortedSet(front, less), less);
      assert values == front + [values[|values| - 1]];
    }
  }
}
