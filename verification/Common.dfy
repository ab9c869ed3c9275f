/** Types and sequence vocabulary shared by the other modules. */
module Common {

  datatype Option<+T> = None | Some(value: T)

  datatype Result<+T, +E> = Success(value: T) | Failure(error: E)

  /** A time, or a duration, in nanoseconds. Each module says what its times are relative to. */
  type Time = int

  function One(b: bool): nat {
    if b then 1 else 0
  }

  /** `a` as a number of elements, at most `b`. */
  function Min(a: int, b: nat): nat {
    if a <= 0 then 0 else if a < b then a else b
  }

  lemma MultipleIsLarge(k: nat, n: nat)
    requires k > 0
    ensures k * n >= n
  {
  }

  /** The remainder is determined by its range. */
  lemma RemainderIs(q: nat, n: nat, r: nat)
    requires r < n
    ensures (q * n + r) % n == r
  {
    var x := q * n + r;
    var q', r' := x / n, x % n;
    assert x == q' * n + r';
    assert (q' - q) * n == q' * n - q * n && (q - q') * n == q * n - q' * n;
    if q < q' {
      MultipleIsLarge(q' - q, n);
    } else if q' < q {
      MultipleIsLarge(q - q', n);
    }
  }

  /** No value occurs at two positions. */
  ghost predicate NoDup<T>(s: seq<T>) {
    forall i, j :: 0 <= i < j < |s| ==> s[i] != s[j]
  }

  /** A position of `x` in a sequence that contains it. */
  ghost function Index<T>(s: seq<T>, x: T): (i: nat)
    requires x in s
    ensures i < |s| && s[i] == x
  {
    var i :| 0 <= i < |s| && s[i] == x; i
  }

  /** The elements of `s` that satisfy `keep`, in their original order. */
  function Filter<T>(s: seq<T>, keep: T -> bool): (r: seq<T>)
    ensures |r| <= |s|
    ensures forall x :: x in r ==> x in s && keep(x)
    ensures forall x :: x in s && keep(x) ==> x in r
  {
    if s == [] then []
    else if keep(s[0]) then [s[0]] + Filter(s[1..], keep)
    else Filter(s[1..], keep)
  }

  lemma FilterCons<T>(x: T, s: seq<T>, keep: T -> bool)
    ensures Filter([x] + s, keep) == (if keep(x) then [x] else []) + Filter(s, keep)
  {
    assert ([x] + s)[1..] == s;
  }

  /** `Filter` of a sequence grown on the right, the way accumulating loops build it. */
  lemma {:induction false} FilterSnoc<T>(s: seq<T>, x: T, keep: T -> bool)
    ensures Filter(s + [x], keep) == Filter(s, keep) + if keep(x) then [x] else []
  {
    if s != [] {
      assert (s + [x])[1..] == s[1..] + [x];
      FilterSnoc(s[1..], x, keep);
    }
  }

  lemma Regroup<T>(a: seq<T>, b: seq<T>, c: seq<T>)
    ensures (a + b) + c == a + (b + c)
  {
  }

  /** `r` arises from `s` by deleting elements. */
  ghost predicate Subsequence<T>(r: seq<T>, s: seq<T>)
    decreases |s|
  {
    if r == [] then true
    else if s == [] then false
    else (r[0] == s[0] && Subsequence(r[1..], s[1..])) || Subsequence(r, s[1..])
  }

  /** `s` without the elements of `names`. */
  function Drop<T(==)>(s: seq<T>, names: set<T>): (r: seq<T>)
    ensures forall x :: x in r ==> x in s && x !in names
    ensures forall x :: x in s && x !in names ==> x in r
  {
    if s == [] then []
    else if s[0] in names then Drop(s[1..], names)
    else [s[0]] + Drop(s[1..], names)
  }

  lemma {:induction false} DropSnoc<T>(s: seq<T>, x: T, names: set<T>)
    ensures Drop(s + [x], names) == Drop(s, names) + if x in names then [] else [x]
  {
    if s != [] {
      assert (s + [x])[1..] == s[1..] + [x];
      DropSnoc(s[1..], x, names);
    }
  }

  lemma {:induction false} DropTwice<T>(s: seq<T>, a: set<T>, b: set<T>)
    ensures Drop(Drop(s, a), b) == Drop(s, a + b)
  {
    if s != [] {
      DropTwice(s[1..], a, b);
      if s[0] !in a {
        assert Drop(s, a)[1..] == Drop(s[1..], a);
      }
    }
  }

  /** Only the names that occur matter. */
  lemma {:induction false} DropSame<T>(s: seq<T>, a: set<T>, b: set<T>)
    requires forall x :: x in s ==> (x in a <==> x in b)
    ensures Drop(s, a) == Drop(s, b)
  {
    if s != [] {
      DropSame(s[1..], a, b);
    }
  }

  lemma {:induction false} DropAbsent<T>(s: seq<T>, a: set<T>)
    requires forall x :: x in s ==> x !in a
    ensures Drop(s, a) == s
  {
    if s != [] {
      DropAbsent(s[1..], a);
    }
  }

  lemma {:induction false} FilterIsSubsequence<T>(s: seq<T>, keep: T -> bool)
    ensures Subsequence(Filter(s, keep), s)
  {
    if s != [] {
      FilterIsSubsequence(s[1..], keep);
      if keep(s[0]) {
        assert Filter(s, keep)[1..] == Filter(s[1..], keep);
      }
    }
  }

  lemma {:induction false} DropIsSubsequence<T>(s: seq<T>, names: set<T>)
    ensures Subsequence(Drop(s, names), s)
  {
    if s != [] {
      DropIsSubsequence(s[1..], names);
      if s[0] in names {
        assert Subsequence(Drop(s[1..], names), s[1..]);
      } else {
        assert Drop(s, names)[1..] == Drop(s[1..], names);
      }
    }
  }

  lemma {:induction false} NoDupCounts<T>(s: seq<T>, x: T)
    requires NoDup(s)
    ensures multiset(s)[x] <= 1
  {
    if s != [] {
      assert s == [s[0]] + s[1..];
      assert s[0] !in s[1..];
      NoDupCounts(s[1..], x);
    }
  }

  lemma CountsNoDup<T>(s: seq<T>)
    requires forall x :: x in s ==> multiset(s)[x] <= 1
    ensures NoDup(s)
  {
    forall i, j | 0 <= i < j < |s| ensures s[i] != s[j] {
      assert s == s[..i] + [s[i]] + s[i + 1..j] + [s[j]] + s[j + 1..];
      assert s[i] == s[j] ==> multiset(s)[s[i]] >= 2;
    }
  }

  /** A list with the members of a set, each once. */
  lemma SetListing<T>(s: seq<T>, all: set<T>)
    requires multiset(s) == multiset(all)
    ensures NoDup(s) && |s| == |all|
    ensures forall x :: x in s <==> x in all
  {
    CountsNoDup(s);
    assert forall x :: x in s <==> x in multiset(s);
    assert |multiset(s)| == |s|;
  }

  /** Every finite set can be listed. */
  lemma {:induction false} Listing<T>(all: set<T>) returns (s: seq<T>)
    ensures multiset(s) == multiset(all)
    decreases |all|
  {
    s := [];
    if all != {} {
      var x :| x in all;
      s := Listing(all - {x});
      s := s + [x];
    }
  }

  lemma ListingOf<T>(s: seq<T>, all: set<T>)
    requires NoDup(s) && forall x :: x in s <==> x in all
    ensures multiset(s) == multiset(all)
  {
    forall x ensures multiset(s)[x] == multiset(all)[x] {
      NoDupCounts(s, x);
      assert x in s <==> x in multiset(s);
    }
  }

  lemma PermutationKeepsNoDup<T>(s: seq<T>, t: seq<T>)
    requires NoDup(s) && multiset(s) == multiset(t)
    ensures NoDup(t)
  {
    forall x | x in t ensures multiset(t)[x] <= 1 {
      NoDupCounts(s, x);
    }
    CountsNoDup(t);
  }

  lemma SameCounts<T>(s: seq<T>, t: seq<T>)
    requires forall x :: x in s || x in t ==> multiset(s)[x] == multiset(t)[x]
    ensures multiset(s) == multiset(t)
  {
    assert forall x :: x in multiset(s) <==> x in s;
    assert forall x :: x in multiset(t) <==> x in t;
  }

  /** A sequence without repetition that draws from a finite set is no longer than the set. */
  lemma {:induction false} NoDupLength<T>(s: seq<T>, all: set<T>)
    requires NoDup(s)
    requires forall x :: x in s ==> x in all
    ensures |s| <= |all|
  {
    if s != [] {
      var x, rest := s[|s| - 1], s[..|s| - 1];
      assert x !in rest;
      NoDupLength(rest, all - {x});
    }
  }

  /** strings.SplitN(s, sep, 2): what stands before and after the first separator. */
  function SplitFirst<T(==)>(s: seq<T>, sep: T): Option<(seq<T>, seq<T>)> {
    if s == [] then None
    else if s[0] == sep then Some(([], s[1..]))
    else
      var rest := SplitFirst(s[1..], sep);
      if rest.None? then None else Some(([s[0]] + rest.value.0, rest.value.1))
  }

  /** Splitting undoes joining exactly when the first part is free of separators. */
  /** What comes before and after the first separator, if there is one. */
  lemma {:induction false} SplitFirstIs<T>(s: seq<T>, sep: T)
    ensures SplitFirst(s, sep).Some? <==> sep in s
    ensures SplitFirst(s, sep).Some? ==>
      var (a, b) := SplitFirst(s, sep).value; s == a + [sep] + b && sep !in a
  {
    if s != [] && s[0] != sep {
      SplitFirstIs(s[1..], sep);
      assert s == [s[0]] + s[1..];
    }
  }

  lemma {:induction false} SplitUndoesJoin<T>(a: seq<T>, sep: T, b: seq<T>)
    ensures SplitFirst(a + [sep] + b, sep).Some?
    ensures SplitFirst(a + [sep] + b, sep) == Some((a, b)) <==> sep !in a
    ensures sep in a ==> |SplitFirst(a + [sep] + b, sep).value.0| < |a|
  {
    var s := a + [sep] + b;
    if a == [] {
      assert s[1..] == b;
    } else {
      assert s[1..] == a[1..] + [sep] + b;
      SplitUndoesJoin(a[1..], sep, b);
      assert a == [a[0]] + a[1..];
    }
  }
}
