/** Sequence functions that the other modules share. */
module Seqs {
  /** The elements satisfying `keep`, in order. */
  function Filter<T>(keep: T -> bool, s: seq<T>): (r: seq<T>)
    ensures |r| <= |s|
    ensures forall x :: x in r ==> x in s && keep(x)
    ensures forall x :: x in s ==> keep(x) ==> x in r
  {
    if |s| == 0 then []
    else (if keep(s[0]) then [s[0]] else []) + Filter(keep, s[1..])
  }

  lemma {:induction false} FilterAppend<T>(keep: T -> bool, s: seq<T>, t: seq<T>)
    ensures Filter(keep, s + t) == Filter(keep, s) + Filter(keep, t)
  {
    if |s| == 0 {
      assert s + t == t;
    } else {
      assert (s + t)[1..] == s[1..] + t;
      FilterAppend(keep, s[1..], t);
    }
  }

  /** Filters that agree on the elements agree on the sequence. */
  lemma {:induction false} FilterCong<T>(f: T -> bool, g: T -> bool, s: seq<T>)
    requires forall x :: x in s ==> f(x) == g(x)
    ensures Filter(f, s) == Filter(g, s)
  {
    if |s| == 0 {
    } else {
      FilterCong(f, g, s[1..]);
    }
  }

  lemma {:induction false} FilterAll<T>(keep: T -> bool, s: seq<T>)
    requires forall x :: x in s ==> keep(x)
    ensures Filter(keep, s) == s
  {
    if |s| == 0 {
    } else {
      FilterAll(keep, s[1..]);
    }
  }

  lemma {:induction false} FilterNone<T>(keep: T -> bool, s: seq<T>)
    requires forall x :: x in s ==> !keep(x)
    ensures Filter(keep, s) == []
  {
    if |s| == 0 {
    } else {
      FilterNone(keep, s[1..]);
    }
  }

  /** Two filters commute into the filter by both. */
  lemma {:induction false} FilterFilter<T>(f: T -> bool, g: T -> bool, both: T -> bool, s: seq<T>)
    requires forall x :: x in s ==> both(x) == (f(x) && g(x))
    ensures Filter(f, Filter(g, s)) == Filter(both, s)
  {
    if |s| == 0 {
    } else {
      FilterAppend(f, if g(s[0]) then [s[0]] else [], Filter(g, s[1..]));
      FilterFilter(f, g, both, s[1..]);
    }
  }

  lemma {:induction false} FilterMultiset<T>(keep: T -> bool, s: seq<T>, x: T)
    ensures multiset(Filter(keep, s))[x] == if keep(x) then multiset(s)[x] else 0
  {
    if |s| == 0 {
    } else {
      assert s == [s[0]] + s[1..];
      FilterMultiset(keep, s[1..], x);
    }
  }

  /** Filtering respects permutation. */
  lemma FilterPermutation<T(!new)>(keep: T -> bool, s: seq<T>, t: seq<T>)
    requires multiset(s) == multiset(t)
    ensures multiset(Filter(keep, s)) == multiset(Filter(keep, t))
  {
    var a, b := multiset(Filter(keep, s)), multiset(Filter(keep, t));
    forall x ensures a[x] == b[x] {
      FilterMultiset(keep, s, x);
      FilterMultiset(keep, t, x);
    }
    assert a == b;
  }

  function Map<T, U>(f: T -> U, s: seq<T>): (r: seq<U>)
    ensures |r| == |s|
    ensures forall i :: 0 <= i < |s| ==> r[i] == f(s[i])
  {
    seq(|s|, i requires 0 <= i < |s| => f(s[i]))
  }

  ghost predicate Distinct<T>(s: seq<T>) {
    forall i, j :: 0 <= i < j < |s| ==> s[i] != s[j]
  }

  lemma PermutationMembers<T>(s: seq<T>, t: seq<T>)
    requires multiset(s) == multiset(t)
    ensures |s| == |t|
    ensures forall x :: x in s <==> x in t
  {
    assert |s| == |multiset(s)| == |multiset(t)| == |t|;
    forall x ensures x in s <==> x in t {
      assert x in s <==> x in multiset(s);
      assert x in t <==> x in multiset(t);
    }
  }

  lemma {:induction false} DistinctMultiset<T>(s: seq<T>, x: T)
    requires Distinct(s)
    ensures multiset(s)[x] == if x in s then 1 else 0
  {
    if |s| == 0 {
    } else {
      assert s == [s[0]] + s[1..];
      assert s[0] !in s[1..];
      DistinctMultiset(s[1..], x);
    }
  }

  lemma DistinctFromMultiset<T>(s: seq<T>)
    requires forall x :: x in s ==> multiset(s)[x] == 1
    ensures Distinct(s)
  {
    forall i, j | 0 <= i < j < |s| ensures s[i] != s[j] {
      assert s == s[..j] + s[j..];
      assert s[..j][i] == s[i] && s[j..][0] == s[j];
      assert multiset(s)[s[j]] == multiset(s[..j])[s[j]] + multiset(s[j..])[s[j]];
      assert s[i] in multiset(s[..j]) && s[j] in multiset(s[j..]);
    }
  }

  /** Duplicate-free sequences with the same members are permutations of each other. */
  lemma DistinctSameMembers<T>(s: seq<T>, t: seq<T>)
    requires Distinct(s) && Distinct(t)
    requires forall x :: x in s <==> x in t
    ensures multiset(s) == multiset(t)
  {
    forall x ensures multiset(s)[x] == multiset(t)[x] {
      DistinctMultiset(s, x);
      DistinctMultiset(t, x);
    }
  }

  lemma DistinctConcat<T>(a: seq<T>, b: seq<T>)
    requires Distinct(a) && forall x :: x in a ==> x !in b
    ensures Distinct(a + b) <==> Distinct(b)
  {
    if Distinct(b) {
      forall i, j | 0 <= i < j < |a + b| ensures (a + b)[i] != (a + b)[j] {
        if i < |a| <= j {
          assert a[i] in a && b[j - |a|] in b;
        }
      }
    }
    if Distinct(a + b) {
      forall i, j | 0 <= i < j < |b| ensures b[i] != b[j] {
        assert (a + b)[|a| + i] != (a + b)[|a| + j];
      }
    }
  }

  lemma ConcatAssociative<T>(a: seq<T>, b: seq<T>, c: seq<T>)
    ensures (a + b) + c == a + (b + c)
  {
  }

  lemma PrefixOfPrefix<T>(s: seq<T>, i: nat, j: nat)
    requires j <= i <= |s|
    ensures s[..i][..j] == s[..j]
  {
  }

  lemma MapAppend<T, U>(f: T -> U, s: seq<T>, t: seq<T>)
    ensures Map(f, s + t) == Map(f, s) + Map(f, t)
  {
  }

  lemma MapSnoc<T, U>(f: T -> U, s: seq<T>, k: nat)
    requires k < |s|
    ensures Map(f, s[..k + 1]) == Map(f, s[..k]) + [f(s[k])]
  {
  }

  lemma FilterCons<T>(keep: T -> bool, x: T, s: seq<T>)
    ensures Filter(keep, [x] + s) == (if keep(x) then [x] else []) + Filter(keep, s)
  {
    assert ([x] + s)[1..] == s;
  }

  lemma FilterOne<T>(keep: T -> bool, x: T)
    ensures Filter(keep, [x]) == if keep(x) then [x] else []
  {
    assert [x][1..] == [];
  }

  lemma FilterSnoc<T>(keep: T -> bool, s: seq<T>, k: nat)
    requires k < |s|
    ensures Filter(keep, s[..k + 1]) == Filter(keep, s[..k]) + if keep(s[k]) then [s[k]] else []
  {
    assert s[..k + 1] == s[..k] + [s[k]];
    FilterAppend(keep, s[..k], [s[k]]);
    FilterOne(keep, s[k]);
  }

  lemma {:induction false} FilterSameLength<T>(keep: T -> bool, s: seq<T>)
    requires |Filter(keep, s)| == |s|
    ensures Filter(keep, s) == s
  {
    if |s| == 0 {
    } else {
      FilterSameLength(keep, s[1..]);
    }
  }

  /** At most the first `n` elements: `s.slice(0, n)`. */
  function Take<T>(n: nat, s: seq<T>): seq<T> {
    if |s| <= n then s else s[..n]
  }

  lemma TakeCons<T>(n: nat, x: T, s: seq<T>)
    requires n > 0
    ensures Take(n, [x] + s) == [x] + Take(n - 1, s)
  {
  }

  /** `keep` accepts a first part of `s` and nothing after it. */
  ghost predicate KeepsPrefix<T>(keep: T -> bool, s: seq<T>) {
    forall i, j :: 0 <= i < j < |s| && keep(s[j]) ==> keep(s[i])
  }

  lemma KeptFirstPart<T>(n: nat, keep: T -> bool, s: seq<T>)
    requires KeepsPrefix(keep, s) && 0 < n <= |s| && keep(s[n - 1])
    ensures Filter(keep, s[..n]) == s[..n]
  {
    forall x | x in s[..n] ensures keep(x) {
      var i :| 0 <= i < n && s[i] == x;
    }
    FilterAll(keep, s[..n]);
  }

  lemma DroppedLastPart<T>(n: nat, keep: T -> bool, s: seq<T>)
    requires KeepsPrefix(keep, s) && 0 < n <= |s| && !keep(s[n - 1])
    ensures Filter(keep, s[n..]) == []
  {
    forall x | x in s[n..] ensures !keep(x) {
      var j :| n <= j < |s| && s[j] == x;
    }
    FilterNone(keep, s[n..]);
  }

  /** A filter that keeps a prefix commutes with truncation. */
  lemma PrefixCommutesWithTake<T>(n: nat, keep: T -> bool, s: seq<T>)
    requires KeepsPrefix(keep, s)
    ensures Filter(keep, Take(n, s)) == Take(n, Filter(keep, s))
  {
    if |s| > n > 0 {
      assert s == s[..n] + s[n..];
      FilterAppend(keep, s[..n], s[n..]);
      if keep(s[n - 1]) {
        KeptFirstPart(n, keep, s);
        TakeOfConcat(n, s[..n], Filter(keep, s[n..]));
      } else {
        DroppedLastPart(n, keep, s);
        assert Filter(keep, s[..n]) + [] == Filter(keep, s[..n]);
      }
    }
  }

  /** `keep` drops at most one element of `s`. */
  ghost predicate DropsOne<T>(keep: T -> bool, s: seq<T>) {
    forall i, j :: 0 <= i < j < |s| ==> keep(s[i]) || keep(s[j])
  }

  /** Dropping one element before truncating to one fewer is dropping it after. */
  lemma DropCommutesWithTake<T>(n: nat, keep: T -> bool, s: seq<T>)
    requires DropsOne(keep, s)
    ensures Take(n, Filter(keep, Take(n + 1, s))) == Take(n, Filter(keep, s))
  {
    if |s| > n + 1 {
      var a, b := s[..n + 1], s[n + 1..];
      assert s == a + b;
      FilterAppend(keep, a, b);
      assert forall i :: 0 <= i < |a| ==> a[i] == s[i];
      DropsAtMostOne(keep, a);
      TakeOfConcat(n, Filter(keep, a), Filter(keep, b));
    }
  }

  lemma TakeOfConcat<T>(n: nat, a: seq<T>, b: seq<T>)
    requires n <= |a|
    ensures Take(n, a + b) == Take(n, a)
  {
    assert (a + b)[..n] == a[..n];
  }

  lemma {:induction false} DropsAtMostOne<T>(keep: T -> bool, s: seq<T>)
    requires DropsOne(keep, s)
    ensures |Filter(keep, s)| + 1 >= |s|
  {
    if |s| == 0 {
    } else {
      if keep(s[0]) {
        DropsAtMostOne(keep, s[1..]);
      } else {
        assert forall i :: 0 <= i < |s[1..]| ==> s[1..][i] == s[i + 1];
        FilterAll(keep, s[1..]);
      }
    }
  }

  /** The keys of a sequence, and the sequence with the first element of each key. */
  function KeysOf<T, K(==)>(key: T -> K, s: seq<T>): set<K> {
    if |s| == 0 then {} else KeysOf(key, s[..|s| - 1]) + {key(s[|s| - 1])}
  }

  function Dedupe<T, K(==)>(key: T -> K, s: seq<T>): seq<T> {
    if |s| == 0 then []
    else
      var last := s[|s| - 1];
      var rest := Dedupe(key, s[..|s| - 1]);
      if key(last) in KeysOf(key, s[..|s| - 1]) then rest else rest + [last]
  }

  ghost predicate KeysDiffer<T, K>(key: T -> K, s: seq<T>) {
    forall i, j :: 0 <= i < j < |s| ==> key(s[i]) != key(s[j])
  }

  lemma {:induction false} KeysMembers<T, K>(key: T -> K, s: seq<T>, k: K)
    ensures k in KeysOf(key, s) <==> exists i :: 0 <= i < |s| && key(s[i]) == k
  {
    if |s| == 0 {
    } else {
      var rest := s[..|s| - 1];
      KeysMembers(key, rest, k);
      if i :| 0 <= i < |rest| && key(rest[i]) == k {
        assert key(s[i]) == k;
      }
    }
  }

  /** `at` says where in `s` each element of `d` stands, in order. */
  ghost predicate AreSources<T(!new)>(at: seq<nat>, d: seq<T>, s: seq<T>) {
    && |at| == |d|
    && (forall i :: 0 <= i < |at| ==> at[i] < |s| && s[at[i]] == d[i])
    && (forall i, j :: 0 <= i < j < |at| ==> at[i] < at[j])
  }

  lemma SourcesSnoc<T(!new)>(at: seq<nat>, d: seq<T>, s: seq<T>, x: T)
    requires AreSources(at, d, s)
    ensures AreSources(at, d, s + [x]) && AreSources(at + [|s|], d + [x], s + [x])
  {
    forall i | 0 <= i < |at| ensures (s + [x])[at[i]] == d[i] {
    }
  }

  lemma {:induction false} DedupeSources<T(!new), K>(key: T -> K, s: seq<T>) returns (at: seq<nat>)
    ensures AreSources(at, Dedupe(key, s), s)
  {
    if |s| == 0 {
      at := [];
    } else {
      var rest, last := s[..|s| - 1], s[|s| - 1];
      at := DedupeSources(key, rest);
      SourcesSnoc(at, Dedupe(key, rest), rest, last);
      assert s == rest + [last];
      if key(last) !in KeysOf(key, rest) {
        at := at + [|rest|];
      }
    }
  }

  /** The keys of what is kept are keys of the sequence. */
  lemma {:induction false} DedupeKeys<T, K>(key: T -> K, s: seq<T>)
    ensures forall i :: 0 <= i < |Dedupe(key, s)| ==> key(Dedupe(key, s)[i]) in KeysOf(key, s)
    ensures KeysDiffer(key, Dedupe(key, s))
  {
    if |s| == 0 {
    } else {
      DedupeKeys(key, s[..|s| - 1]);
    }
  }

  /** Every element is represented by the first of its key. */
  lemma {:induction false} DedupeKeepsFirst<T, K>(key: T -> K, s: seq<T>, i: nat) returns (k: nat)
    requires i < |s|
    ensures k <= i && key(s[k]) == key(s[i]) && s[k] in Dedupe(key, s)
  {
    var rest := s[..|s| - 1];
    KeysMembers(key, rest, key(s[|s| - 1]));
    if i < |rest| {
      k := DedupeKeepsFirst(key, rest, i);
    } else if key(s[i]) in KeysOf(key, rest) {
      var j :| 0 <= j < |rest| && key(rest[j]) == key(s[i]);
      k := DedupeKeepsFirst(key, rest, j);
    } else {
      k := i;
    }
  }

  lemma {:induction false} DedupeOfDistinct<T, K>(key: T -> K, s: seq<T>)
    requires KeysDiffer(key, s)
    ensures Dedupe(key, s) == s
  {
    if |s| == 0 {
    } else {
      var rest, last := s[..|s| - 1], s[|s| - 1];
      DedupeOfDistinct(key, rest);
      KeysMembers(key, rest, key(last));
      assert s == rest + [last];
      assert forall i :: 0 <= i < |rest| ==> rest[i] == s[i];
    }
  }

  lemma {:induction false} DedupeShrinks<T, K>(key: T -> K, s: seq<T>)
    ensures |Dedupe(key, s)| <= |s|
    ensures |Dedupe(key, s)| == |s| ==> Dedupe(key, s) == s
  {
    if |s| == 0 {
    } else {
      DedupeShrinks(key, s[..|s| - 1]);
      assert s == s[..|s| - 1] + [s[|s| - 1]];
    }
  }
}
