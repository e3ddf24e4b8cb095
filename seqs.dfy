/** Generic sequence operations the tabular layer is built from: boolean-mask
    selection, removal of repeated values keeping the first, sorting by a
    total preorder and pandas' head(n). */
module Seqs {
  import opened Wrappers

  // ---------------------------------------------------------------------
  // Selection
  // ---------------------------------------------------------------------

  /** The elements of s that satisfy p, in their original order. */
  function Filter<T(!new)>(s: seq<T>, p: T -> bool): (r: seq<T>)
    ensures |r| <= |s|
    ensures forall x :: x in r <==> x in s && p(x)
  {
    if s == [] then [] else (if p(s[0]) then [s[0]] else []) + Filter(s[1..], p)
  }

  lemma {:induction false} FilterConcat<T(!new)>(a: seq<T>, b: seq<T>, p: T -> bool)
    ensures Filter(a + b, p) == Filter(a, p) + Filter(b, p)
  {
    if a == [] {
      assert a + b == b;
    } else {
      assert (a + b)[1..] == a[1..] + b;
      FilterConcat(a[1..], b, p);
    }
  }

  /** A selection whose predicate holds of every element keeps everything. */
  lemma {:induction false} FilterKeepsAll<T(!new)>(s: seq<T>, p: T -> bool)
    requires forall x :: x in s ==> p(x)
    ensures Filter(s, p) == s
  {
    if s != [] {
      FilterKeepsAll(s[1..], p);
    }
  }

  /** A selection whose predicate holds of nothing keeps nothing. */
  lemma {:induction false} FilterKeepsNone<T(!new)>(s: seq<T>, p: T -> bool)
    requires forall x :: !p(x)
    ensures Filter(s, p) == []
  {
    if s != [] {
      FilterKeepsNone(s[1..], p);
    }
  }

  /** Predicates that agree on every element select the same elements. */
  lemma {:induction false} FilterCongruent<T(!new)>(s: seq<T>, p: T -> bool, q: T -> bool)
    requires forall x :: x in s ==> p(x) == q(x)
    ensures Filter(s, p) == Filter(s, q)
  {
    if s != [] {
      FilterCongruent(s[1..], p, q);
    }
  }

  /** Selecting by p and then by q is selecting once by their conjunction pq. */
  lemma {:induction false} FilterFilter<T(!new)>(s: seq<T>, p: T -> bool, q: T -> bool, pq: T -> bool)
    requires forall x :: pq(x) == (p(x) && q(x))
    ensures Filter(Filter(s, p), q) == Filter(s, pq)
  {
    if s != [] {
      var head := if p(s[0]) then [s[0]] else [];
      FilterConcat(head, Filter(s[1..], p), q);
      FilterFilter(s[1..], p, q, pq);
      if p(s[0]) {
        assert Filter(head, q) == (if q(s[0]) then [s[0]] else []) + Filter(head[1..], q);
      }
    }
  }

  /** Two selections commute: the order in which they are applied does not matter. */
  lemma {:induction false} FilterCommutes<T(!new)>(s: seq<T>, p: T -> bool, q: T -> bool)
    ensures Filter(Filter(s, p), q) == Filter(Filter(s, q), p)
  {
    var both := x => p(x) && q(x);
    FilterFilter(s, p, q, both);
    FilterFilter(s, q, p, both);
  }

  /** a can be obtained from b by deleting elements, the rest kept in order. */
  predicate IsSubsequence<T(==)>(a: seq<T>, b: seq<T>)
    decreases |b|
  {
    if a == [] then true
    else if b == [] then false
    else (a[0] == b[0] && IsSubsequence(a[1..], b[1..])) || IsSubsequence(a, b[1..])
  }

  /** A selection is an order-preserving subsequence of its input. */
  lemma {:induction false} FilterIsSubsequence<T(!new)>(s: seq<T>, p: T -> bool)
    ensures IsSubsequence(Filter(s, p), s)
  {
    if s != [] {
      FilterIsSubsequence(s[1..], p);
      if p(s[0]) {
        assert Filter(s, p) == [s[0]] + Filter(s[1..], p);
        assert Filter(s, p)[1..] == Filter(s[1..], p);
      } else {
        assert Filter(s, p) == Filter(s[1..], p);
      }
    }
  }

  // ---------------------------------------------------------------------
  // Repeated values
  // ---------------------------------------------------------------------

  predicate NoDuplicates<T(==,!new)>(s: seq<T>) {
    forall i, j :: 0 <= i < j < |s| ==> s[i] != s[j]
  }

  /** The position of the first occurrence of x in s. */
  function FirstIndex<T(==,!new)>(s: seq<T>, x: T): (i: nat)
    requires x in s
    ensures i < |s| && s[i] == x
    ensures forall j :: 0 <= j < i ==> s[j] != x
  {
    if s[0] == x then 0 else 1 + FirstIndex(s[1..], x)
  }

  lemma {:induction false} FirstIndexAppend<T(!new)>(s: seq<T>, y: T, x: T)
    requires x in s
    ensures FirstIndex(s + [y], x) == FirstIndex(s, x)
  {
    if s[0] != x {
      assert (s + [y])[1..] == s[1..] + [y];
      FirstIndexAppend(s[1..], y, x);
    }
  }

  /** Each value of s once, in order of first appearance (pandas unique()). */
  function Distinct<T(==,!new)>(s: seq<T>): (r: seq<T>)
    ensures |r| <= |s|
    ensures forall x :: x in r <==> x in s
    ensures NoDuplicates(r)
  {
    if s == [] then []
    else
      var d := Distinct(s[..|s| - 1]);
      assert s == s[..|s| - 1] + [s[|s| - 1]];
      if s[|s| - 1] in d then d else d + [s[|s| - 1]]
  }

  lemma DistinctAppend<T(!new)>(s: seq<T>, x: T)
    ensures Distinct(s + [x]) == if x in s then Distinct(s) else Distinct(s) + [x]
  {
    assert (s + [x])[..|s + [x]| - 1] == s;
  }

  lemma FirstIndexOfNew<T(!new)>(s: seq<T>, x: T)
    requires x !in s
    ensures FirstIndex(s + [x], x) == |s|
  {
  }

  /** Distinct lists the values in the order of their first occurrence in s. */
  lemma {:induction false} DistinctKeepsFirstAppearanceOrder<T(!new)>(s: seq<T>)
    ensures forall i, j :: 0 <= i < j < |Distinct(s)| ==>
      FirstIndex(s, Distinct(s)[i]) < FirstIndex(s, Distinct(s)[j])
  {
    if s != [] {
      var p, y := s[..|s| - 1], s[|s| - 1];
      assert s == p + [y];
      DistinctKeepsFirstAppearanceOrder(p);
      var d := Distinct(p);
      forall x | x in p ensures FirstIndex(s, x) == FirstIndex(p, x) {
        FirstIndexAppend(p, y, x);
      }
      if y !in d {
        assert y !in p;
        assert FirstIndex(s, y) == |p|;
      }
    }
  }

  lemma {:induction false} NoDuplicatesMultiplicity<T(!new)>(s: seq<T>, x: T)
    requires NoDuplicates(s)
    ensures multiset(s)[x] <= 1
  {
    if s != [] {
      assert s == [s[0]] + s[1..];
      NoDuplicatesMultiplicity(s[1..], x);
      if s[0] == x {
        assert x !in s[1..];
      }
    }
  }

  /** A rearrangement of a sequence without repeated values has none either. */
  lemma NoDuplicatesPermutation<T(!new)>(s: seq<T>, t: seq<T>)
    requires NoDuplicates(s) && multiset(s) == multiset(t)
    ensures NoDuplicates(t)
  {
    forall i, j | 0 <= i < j < |t| ensures t[i] != t[j] {
      if t[i] == t[j] {
        var x := t[i];
        assert t == t[..i] + [x] + t[i + 1..j] + [x] + t[j + 1..];
        assert multiset(t)[x] >= 2;
        NoDuplicatesMultiplicity(s, x);
      }
    }
  }

  /** The present values of a column, missing entries skipped (pandas dropna()). */
  function Present<V(!new)>(cells: seq<Option<V>>): (r: seq<V>)
    ensures |r| <= |cells|
    ensures forall v :: v in r <==> Some(v) in cells
  {
    if cells == [] then []
    else (if cells[0].Some? then [cells[0].value] else []) + Present(cells[1..])
  }

  // ---------------------------------------------------------------------
  // Sorting
  // ---------------------------------------------------------------------

  /** le is total and transitive: a sort key order in which ties are allowed. */
  ghost predicate TotalPreorder<T(!new)>(le: (T, T) -> bool) {
    && (forall a, b :: le(a, b) || le(b, a))
    && (forall a, b, c :: le(a, b) && le(b, c) ==> le(a, c))
  }

  predicate SortedBy<T(!new)>(s: seq<T>, le: (T, T) -> bool) {
    forall i, j :: 0 <= i < j < |s| ==> le(s[i], s[j])
  }

  function InsertBy<T(!new)>(x: T, s: seq<T>, le: (T, T) -> bool): (r: seq<T>)
    ensures |r| == |s| + 1
    ensures multiset(r) == multiset(s) + multiset{x}
  {
    if s == [] || le(x, s[0]) then [x] + s
    else
      assert s == [s[0]] + s[1..];
      [s[0]] + InsertBy(x, s[1..], le)
  }

  /** s rearranged so that le holds between every earlier and later element
      (see SortByIsSorted); ties keep their input order. */
  function SortBy<T(!new)>(s: seq<T>, le: (T, T) -> bool): (r: seq<T>)
    ensures |r| == |s|
    ensures multiset(r) == multiset(s)
  {
    if s == [] then []
    else
      assert s == [s[0]] + s[1..];
      InsertBy(s[0], SortBy(s[1..], le), le)
  }

  lemma {:induction false} InsertByIsSorted<T(!new)>(x: T, s: seq<T>, le: (T, T) -> bool)
    requires TotalPreorder(le) && SortedBy(s, le)
    ensures SortedBy(InsertBy(x, s, le), le)
  {
    if s == [] || le(x, s[0]) {
      var r := [x] + s;
      forall i, j | 0 <= i < j < |r| ensures le(r[i], r[j]) {
        if i == 0 && j > 1 {
          assert le(x, s[0]) && le(s[0], s[j - 1]);
        }
      }
    } else {
      var rest := InsertBy(x, s[1..], le);
      InsertByIsSorted(x, s[1..], le);
      assert le(s[0], x);
      var r := [s[0]] + rest;
      forall i, j | 0 <= i < j < |r| ensures le(r[i], r[j]) {
        if i == 0 {
          var y := rest[j - 1];
          assert y in multiset(rest);
          assert y == x || y in multiset(s[1..]);
          if y != x {
            var k :| 0 <= k < |s[1..]| && s[1..][k] == y;
            assert s[k + 1] == y;
          }
        }
      }
    }
  }

  /** Under a total preorder, SortBy's result is sorted. */
  lemma {:induction false} SortByIsSorted<T(!new)>(s: seq<T>, le: (T, T) -> bool)
    requires TotalPreorder(le)
    ensures SortedBy(SortBy(s, le), le)
  {
    if s != [] {
      SortByIsSorted(s[1..], le);
      InsertByIsSorted(s[0], SortBy(s[1..], le), le);
    }
  }

  /** The distinct present values of a column, sorted by le (pandas
      sorted(column.dropna().unique())). */
  function SortedUnique<V(==,!new)>(cells: seq<Option<V>>, le: (V, V) -> bool): (r: seq<V>)
    ensures NoDuplicates(r)
    ensures forall v :: v in r <==> Some(v) in cells
  {
    var d := Distinct(Present(cells));
    var r := SortBy(d, le);
    NoDuplicatesPermutation(d, r);
    assert forall v :: v in r <==> v in multiset(d);
    r
  }

  /** f applied to each element of s, in order. */
  function Map<A(!new), B(!new)>(s: seq<A>, f: A -> B): (r: seq<B>)
    ensures |r| == |s|
    ensures forall i :: 0 <= i < |s| ==> r[i] == f(s[i])
  {
    if s == [] then [] else [f(s[0])] + Map(s[1..], f)
  }

  lemma {:induction false} MapInsertBy<A(!new), B(!new)>(x: A, s: seq<A>, le: (A, A) -> bool, f: A -> B)
    ensures multiset(Map(InsertBy(x, s, le), f)) == multiset{f(x)} + multiset(Map(s, f))
  {
    if s != [] && !le(x, s[0]) {
      MapInsertBy(x, s[1..], le, f);
      assert InsertBy(x, s, le) == [s[0]] + InsertBy(x, s[1..], le);
      assert Map(InsertBy(x, s, le), f) == [f(s[0])] + Map(InsertBy(x, s[1..], le), f);
    }
  }

  /** Sorting permutes the images too. */
  lemma {:induction false} MapSortBy<A(!new), B(!new)>(s: seq<A>, le: (A, A) -> bool, f: A -> B)
    ensures multiset(Map(SortBy(s, le), f)) == multiset(Map(s, f))
  {
    if s != [] {
      MapSortBy(s[1..], le, f);
      MapInsertBy(s[0], SortBy(s[1..], le), le, f);
    }
  }

  /** Sorting keeps the images of distinct-image elements distinct. */
  lemma MapSortByNoDuplicates<A(!new), B(!new)>(s: seq<A>, le: (A, A) -> bool, f: A -> B)
    requires NoDuplicates(Map(s, f))
    ensures NoDuplicates(Map(SortBy(s, le), f))
  {
    MapSortBy(s, le, f);
    NoDuplicatesPermutation(Map(s, f), Map(SortBy(s, le), f));
  }

  // ---------------------------------------------------------------------
  // Totals
  // ---------------------------------------------------------------------

  /** The total of f over the elements of s. */
  function SumBy<T(!new)>(s: seq<T>, f: T -> int): int {
    if s == [] then 0 else f(s[0]) + SumBy(s[1..], f)
  }

  lemma {:induction false} SumByInsert<T(!new)>(x: T, s: seq<T>, le: (T, T) -> bool, f: T -> int)
    ensures SumBy(InsertBy(x, s, le), f) == f(x) + SumBy(s, f)
  {
    if s != [] && !le(x, s[0]) {
      SumByInsert(x, s[1..], le, f);
    }
  }

  /** Sorting does not change a total. */
  lemma {:induction false} SumBySortBy<T(!new)>(s: seq<T>, le: (T, T) -> bool, f: T -> int)
    ensures SumBy(SortBy(s, le), f) == SumBy(s, f)
  {
    if s != [] {
      SumBySortBy(s[1..], le, f);
      SumByInsert(s[0], SortBy(s[1..], le), le, f);
    }
  }

  // ---------------------------------------------------------------------
  // pandas head(n)
  // ---------------------------------------------------------------------

  /** The first n elements; a negative n drops the last -n instead. */
  function Head<T(!new)>(s: seq<T>, n: int): (r: seq<T>)
    ensures r <= s
    ensures |r| == if n >= 0 then (if n <= |s| then n else |s|) else (if -n <= |s| then |s| + n else 0)
  {
    if n >= 0 then (if n <= |s| then s[..n] else s)
    else (if -n <= |s| then s[..|s| + n] else [])
  }
}
