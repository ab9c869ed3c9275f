/**
 * Sorting, as the Go standard library promises it. `Sort` is a stable sort. Where the
 * source uses the unstable sort.Slice, either the list to sort is in arbitrary order or its
 * sort keys are distinct, or the contract of the sorting method promises only a sorted
 * permutation and so leaves open which of several equal elements comes first.
 */
module Sorting {
  import opened Common

  /** `le` is a total preorder on the elements of `s`. */
  ghost predicate Comparable<T>(le: (T, T) -> bool, s: seq<T>) {
    && (forall a, b :: a in s && b in s ==> le(a, b) || le(b, a))
    && (forall a, b, c :: a in s && b in s && c in s && le(a, b) && le(b, c) ==> le(a, c))
  }

  ghost predicate Sorted<T>(le: (T, T) -> bool, s: seq<T>) {
    forall i, j :: 0 <= i < j < |s| ==> le(s[i], s[j])
  }

  function Insert<T>(le: (T, T) -> bool, x: T, s: seq<T>): (r: seq<T>)
    ensures multiset(r) == multiset{x} + multiset(s)
    ensures |r| == |s| + 1
    ensures forall y :: y in r ==> y == x || y in s
  {
    if s == [] || le(x, s[0]) then [x] + s
    else
      assert s == [s[0]] + s[1..];
      [s[0]] + Insert(le, x, s[1..])
  }

  function Sort<T>(le: (T, T) -> bool, s: seq<T>): (r: seq<T>)
    ensures multiset(r) == multiset(s)
    ensures |r| == |s|
    ensures forall y :: y in r ==> y in s
    ensures forall y :: y in s ==> y in r
  {
    if s == [] then []
    else
      assert s == [s[0]] + s[1..];
      var r := Insert(le, s[0], Sort(le, s[1..]));
      assert forall y :: y in s ==> y in multiset(r);
      r
  }

  lemma {:induction false} InsertSorted<T>(le: (T, T) -> bool, x: T, s: seq<T>, all: seq<T>)
    requires Comparable(le, all) && Sorted(le, s)
    requires x in all && forall y :: y in s ==> y in all
    ensures Sorted(le, Insert(le, x, s))
  {
    if s == [] {
    } else if le(x, s[0]) {
      forall i | 0 < i < |s| ensures le(x, s[i]) {
        assert le(s[0], s[i]) && s[0] in all && s[i] in all;
      }
    } else {
      assert s[0] in all;
      InsertSorted(le, x, s[1..], all);
      forall y | y in Insert(le, x, s[1..]) ensures le(s[0], y) {
        if y != x {
          var i :| 0 <= i < |s[1..]| && s[1..][i] == y;
          assert le(s[0], s[i + 1]);
        }
      }
    }
  }

  lemma {:induction false} SortSorted<T>(le: (T, T) -> bool, s: seq<T>)
    requires Comparable(le, s)
    ensures Sorted(le, Sort(le, s))
  {
    if s != [] {
      SortSorted(le, s[1..]);
      InsertSorted(le, s[0], Sort(le, s[1..]), s);
    }
  }

  /** Sorting what is sorted changes nothing: the sort is stable. */
  lemma {:induction false} SortOfSorted<T>(le: (T, T) -> bool, s: seq<T>)
    requires Sorted(le, s)
    ensures Sort(le, s) == s
  {
    if s != [] {
      SortOfSorted(le, s[1..]);
      assert s == [s[0]] + s[1..];
    }
  }

  lemma {:induction false} FilterInsert<T>(le: (T, T) -> bool, x: T, s: seq<T>, keep: T -> bool, all: seq<T>)
    requires Comparable(le, all) && Sorted(le, s)
    requires x in all && forall y :: y in s ==> y in all
    ensures Filter(Insert(le, x, s), keep)
         == if keep(x) then Insert(le, x, Filter(s, keep)) else Filter(s, keep)
  {
    if s == [] {
    } else if le(x, s[0]) {
      FilterCons(x, s, keep);
      var f := Filter(s, keep);
      if keep(x) && f != [] {
        assert f[0] in f;
        var i :| 0 <= i < |s| && s[i] == f[0];
        assert s[0] in all && s[i] in all;
        assert i > 0 ==> le(s[0], s[i]);
        assert le(x, f[0]);
      }
    } else {
      var tail := s[1..];
      FilterInsert(le, x, tail, keep, all);
      FilterCons(s[0], Insert(le, x, tail), keep);
      var f := Filter(tail, keep);
      if keep(s[0]) && keep(x) {
        assert ([s[0]] + f)[1..] == f;
      }
    }
  }

  /**
   * Filtering commutes with stable sorting. This is what stability buys the callers:
   * any sub-list of the sorted list is the stable sort of that sub-list of the input.
   */
  lemma {:induction false} FilterSort<T>(le: (T, T) -> bool, s: seq<T>, keep: T -> bool)
    requires Comparable(le, s)
    ensures Filter(Sort(le, s), keep) == Sort(le, Filter(s, keep))
  {
    if s != [] {
      var tail := s[1..];
      FilterSort(le, tail, keep);
      SortSorted(le, tail);
      FilterInsert(le, s[0], Sort(le, tail), keep, s);
      if keep(s[0]) {
        var f := Filter(tail, keep);
        assert ([s[0]] + f)[1..] == f;
      }
    }
  }

  /** Go's string order. Comparing code points agrees with comparing UTF-8 bytes. */
  predicate StringLe(a: string, b: string) {
    a == [] || (b != [] && (a[0] < b[0] || (a[0] == b[0] && StringLe(a[1..], b[1..]))))
  }

  /** At position `k` the strings differ for the first time, and `a` has the smaller character there. */
  ghost predicate SmallerAt(a: string, b: string, k: nat) {
    k < |a| && k < |b| && a[..k] == b[..k] && a[k] < b[k]
  }

  /** The order is lexicographic: a prefix comes first, else the first differing character decides. */
  lemma {:induction false} StringLeIff(a: string, b: string)
    ensures StringLe(a, b) <==> a <= b || exists k: nat :: SmallerAt(a, b, k)
  {
    if a != [] && b != [] && a[0] == b[0] {
      StringLeIff(a[1..], b[1..]);
      assert a == [a[0]] + a[1..] && b == [b[0]] + b[1..];
      assert a <= b <==> a[1..] <= b[1..];
      forall k: nat | SmallerAt(a[1..], b[1..], k) ensures SmallerAt(a, b, k + 1) {
        assert a[..k + 1] == [a[0]] + a[1..][..k] && b[..k + 1] == [b[0]] + b[1..][..k];
      }
      forall k: nat | SmallerAt(a, b, k) ensures k > 0 && SmallerAt(a[1..], b[1..], k - 1) {
        assert a[1..][..k - 1] == a[..k][1..] && b[1..][..k - 1] == b[..k][1..];
      }
    } else if a != [] && b != [] {
      assert a[0] < b[0] ==> SmallerAt(a, b, 0);
      forall k: nat | SmallerAt(a, b, k) ensures a[0] < b[0] {
        if k > 0 {
          assert a[..k][0] == b[..k][0];
        }
      }
    }
  }

  lemma {:induction false} StringLeTotal(a: string, b: string)
    ensures StringLe(a, b) || StringLe(b, a)
  {
    if a != [] && b != [] {
      StringLeTotal(a[1..], b[1..]);
    }
  }

  lemma {:induction false} StringLeTransitive(a: string, b: string, c: string)
    requires StringLe(a, b) && StringLe(b, c)
    ensures StringLe(a, c)
  {
    if a != [] && a[0] == b[0] == c[0] {
      StringLeTransitive(a[1..], b[1..], c[1..]);
    }
  }

  lemma StringsComparable(s: seq<string>)
    ensures Comparable(StringLe, s)
  {
    forall a, b | a in s && b in s ensures StringLe(a, b) || StringLe(b, a) {
      StringLeTotal(a, b);
    }
    forall a, b, c | a in s && b in s && c in s && StringLe(a, b) && StringLe(b, c) ensures StringLe(a, c) {
      StringLeTransitive(a, b, c);
    }
  }
}
