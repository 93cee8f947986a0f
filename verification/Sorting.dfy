/**
 * `Array.prototype.sort` under a comparator, modelled by a stable insertion sort. The uniqueness
 * lemma says that under a strict total order every sorting algorithm returns this answer.
 */
module Sorting {
  import opened Seqs

  /** `less` is a strict weak order on `dom`. */
  ghost predicate WeakOrder<T>(less: (T, T) -> bool, dom: set<T>) {
    && (forall a, b :: a in dom && b in dom && less(a, b) ==> !less(b, a))
    && (forall a, b, c :: a in dom && b in dom && c in dom && less(a, c) ==> less(a, b) || less(b, c))
  }

  /** `less` tells any two different elements of `dom` apart. */
  ghost predicate Separates<T>(less: (T, T) -> bool, dom: set<T>) {
    forall a, b :: a in dom && b in dom && a != b ==> less(a, b) || less(b, a)
  }

  ghost predicate TotalOrder<T>(less: (T, T) -> bool, dom: set<T>) {
    WeakOrder(less, dom) && Separates(less, dom)
  }

  ghost function Members<T>(s: seq<T>): set<T> {
    set x | x in s
  }

  ghost predicate Sorted<T>(less: (T, T) -> bool, s: seq<T>) {
    forall i, j :: 0 <= i < j < |s| ==> !less(s[j], s[i])
  }

  /** Put `x`, which came before everything in `s`, at its sorted place: ahead of its equals. */
  function Insert<T>(less: (T, T) -> bool, x: T, s: seq<T>): seq<T> {
    if |s| != 0 && less(s[0], x) then [s[0]] + Insert(less, x, s[1..]) else [x] + s
  }

  function SortBy<T>(less: (T, T) -> bool, s: seq<T>): seq<T> {
    if |s| == 0 then [] else Insert(less, s[0], SortBy(less, s[1..]))
  }

  lemma {:induction false} InsertPermutes<T>(less: (T, T) -> bool, x: T, s: seq<T>)
    ensures multiset(Insert(less, x, s)) == multiset{x} + multiset(s)
  {
    if |s| == 0 || !less(s[0], x) {
    } else {
      InsertPermutes(less, x, s[1..]);
      assert s == [s[0]] + s[1..];
    }
  }

  lemma {:induction false} SortPermutes<T>(less: (T, T) -> bool, s: seq<T>)
    ensures multiset(SortBy(less, s)) == multiset(s)
  {
    if |s| == 0 {
    } else {
      SortPermutes(less, s[1..]);
      InsertPermutes(less, s[0], SortBy(less, s[1..]));
      assert s == [s[0]] + s[1..];
    }
  }

  lemma SortMembers<T>(less: (T, T) -> bool, s: seq<T>)
    ensures |SortBy(less, s)| == |s|
    ensures forall x :: x in SortBy(less, s) <==> x in s
  {
    SortPermutes(less, s);
    PermutationMembers(SortBy(less, s), s);
  }

  lemma {:induction false} InsertSorts<T>(less: (T, T) -> bool, x: T, s: seq<T>, dom: set<T>)
    requires WeakOrder(less, dom) && x in dom && Members(s) <= dom
    requires Sorted(less, s)
    ensures Sorted(less, Insert(less, x, s))
  {
    if |s| != 0 && less(s[0], x) {
      assert forall y :: y in s[1..] ==> y in s;
      InsertSorts(less, x, s[1..], dom);
      InsertPermutes(less, x, s[1..]);
      var t := Insert(less, x, s[1..]);
      forall j | 0 <= j < |t| ensures !less(t[j], s[0]) {
        assert t[j] in multiset(t);
        assert t[j] == x || t[j] in s[1..];
      }
    } else {
      forall j | 0 <= j < |s| ensures !less(s[j], x) {
        assert s[j] in s && s[0] in s;
        assert j > 0 ==> !less(s[j], s[0]);
      }
    }
  }

  lemma {:induction false} SortSorts<T>(less: (T, T) -> bool, s: seq<T>, dom: set<T>)
    requires WeakOrder(less, dom) && Members(s) <= dom
    ensures Sorted(less, SortBy(less, s))
  {
    if |s| == 0 {
    } else {
      assert s[0] in s && Members(s[1..]) <= Members(s);
      SortSorts(less, s[1..], dom);
      SortMembers(less, s[1..]);
      assert Members(SortBy(less, s[1..])) == Members(s[1..]);
      InsertSorts(less, s[0], SortBy(less, s[1..]), dom);
    }
  }

  /** Sorting what is sorted changes nothing, whatever order the ties are in. */
  lemma {:induction false} SortOfSorted<T>(less: (T, T) -> bool, s: seq<T>)
    requires Sorted(less, s)
    ensures SortBy(less, s) == s
  {
    if |s| <= 1 {
    } else {
      SortOfSorted(less, s[1..]);
      assert !less(s[1], s[0]);
    }
  }

  lemma TailsPermute<T>(s: seq<T>, t: seq<T>)
    requires |s| > 0 && |t| > 0 && s[0] == t[0] && multiset(s) == multiset(t)
    ensures multiset(s[1..]) == multiset(t[1..])
  {
    assert s == [s[0]] + s[1..] && t == [t[0]] + t[1..];
    assert multiset(s[1..]) == multiset(s) - multiset{s[0]};
    assert multiset(t[1..]) == multiset(t) - multiset{t[0]};
  }

  /** A multiset has one sorted arrangement when the order tells its elements apart. */
  lemma {:induction false} SortedUnique<T>(less: (T, T) -> bool, s: seq<T>, t: seq<T>, dom: set<T>)
    requires Separates(less, dom) && Members(s) <= dom
    requires multiset(s) == multiset(t)
    requires Sorted(less, s) && Sorted(less, t)
    ensures s == t
  {
    PermutationMembers(s, t);
    if |s| == 0 {
    } else {
      SortedSameHead(less, s, t, dom);
      TailsPermute(s, t);
      assert Members(s[1..]) <= Members(s);
      SortedUnique(less, s[1..], t[1..], dom);
      assert s == [s[0]] + s[1..] && t == [t[0]] + t[1..];
    }
  }

  lemma SortedSameHead<T>(less: (T, T) -> bool, s: seq<T>, t: seq<T>, dom: set<T>)
    requires Separates(less, dom) && Members(s) <= dom
    requires |s| > 0 && |s| == |t| && forall x :: x in s <==> x in t
    requires Sorted(less, s) && Sorted(less, t)
    ensures s[0] == t[0]
  {
    assert s[0] in s && t[0] in t;
    var i :| 0 <= i < |t| && t[i] == s[0];
    var j :| 0 <= j < |s| && s[j] == t[0];
    assert i == 0 || !less(s[0], t[0]);
    assert j == 0 || !less(t[0], s[0]);
    assert s[0] in Members(s) && t[0] in Members(s);
  }

  /** Sorting by a total order forgets the order of the input. */
  lemma SortForgetsOrder<T>(less: (T, T) -> bool, s: seq<T>, t: seq<T>)
    requires TotalOrder(less, Members(s))
    requires multiset(s) == multiset(t)
    ensures SortBy(less, s) == SortBy(less, t)
  {
    PermutationMembers(s, t);
    assert Members(t) == Members(s);
    SortPermutes(less, s);
    SortPermutes(less, t);
    SortMembers(less, s);
    SortSorts(less, s, Members(s));
    SortSorts(less, t, Members(s));
    assert Members(SortBy(less, s)) == Members(s);
    SortedUnique(less, SortBy(less, s), SortBy(less, t), Members(s));
  }

  lemma SortDistinct<T>(less: (T, T) -> bool, s: seq<T>)
    requires Distinct(s)
    ensures Distinct(SortBy(less, s))
  {
    SortPermutes(less, s);
    SortMembers(less, s);
    forall x | x in SortBy(less, s) ensures multiset(SortBy(less, s))[x] == 1 {
      DistinctMultiset(s, x);
    }
    DistinctFromMultiset(SortBy(less, s));
  }

  /** Two elements of which the filter keeps at most one pass it in either order. */
  lemma FilterSwaps<T>(keep: T -> bool, x: T, y: T, s: seq<T>)
    requires !keep(x) || !keep(y)
    ensures Filter(keep, [x] + ([y] + s)) == Filter(keep, [y] + ([x] + s))
  {
    FilterCons(keep, x, [y] + s);
    FilterCons(keep, y, s);
    FilterCons(keep, y, [x] + s);
    FilterCons(keep, x, s);
  }

  lemma {:induction false} InsertStable<T>(less: (T, T) -> bool, x: T, s: seq<T>, keep: T -> bool)
    requires keep(x) ==> forall y :: y in s && keep(y) ==> !less(y, x)
    ensures Filter(keep, Insert(less, x, s)) == Filter(keep, [x] + s)
  {
    if |s| == 0 || !less(s[0], x) {
    } else {
      var rest := s[1..];
      InsertStable(less, x, rest, keep);
      FilterCons(keep, s[0], Insert(less, x, rest));
      FilterCons(keep, s[0], [x] + rest);
      FilterSwaps(keep, x, s[0], rest);
      assert s == [s[0]] + rest;
    }
  }

  /** Elements the order does not tell apart keep the order they came in. */
  lemma {:induction false} SortStable<T>(less: (T, T) -> bool, s: seq<T>, keep: T -> bool)
    requires forall x, y :: x in s && y in s && keep(x) && keep(y) ==> !less(x, y)
    ensures Filter(keep, SortBy(less, s)) == Filter(keep, s)
  {
    if |s| == 0 {
    } else {
      SortStable(less, s[1..], keep);
      SortMembers(less, s[1..]);
      InsertStable(less, s[0], SortBy(less, s[1..]), keep);
      FilterCons(keep, s[0], SortBy(less, s[1..]));
    }
  }

  /** A filter keeps elements in the order they stand in. */
  lemma {:induction false} FilterKeepsOrder<T>(less: (T, T) -> bool, keep: T -> bool, s: seq<T>)
    requires forall i, j :: 0 <= i < j < |s| ==> less(s[i], s[j])
    ensures forall i, j :: 0 <= i < j < |Filter(keep, s)| ==> less(Filter(keep, s)[i], Filter(keep, s)[j])
  {
    if |s| == 0 {
    } else {
      FilterKeepsOrder(less, keep, s[1..]);
      forall x | x in Filter(keep, s[1..]) ensures less(s[0], x) {
        var i :| 0 <= i < |s[1..]| && s[1..][i] == x;
      }
    }
  }
}
