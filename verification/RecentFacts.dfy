/** What a read of the recently-viewed list may return, over any content and any run. */
module RecentFacts {
  import opened Options
  import opened Seqs
  import opened Sorting
  import opened Text
  import opened Recent

  // ----------------------------------------------------------------------- ids and shapes

  lemma KindNames(k: Kind)
    ensures KindNamed(KindName(k)) == Some(k)
    ensures |KindName(k)| == match k case Identity => 8 case Server => 6 case Share => 5 case Directory => 9
    ensures forall i :: 0 <= i < |KindName(k)| ==> KindName(k)[i] != '\0'
  {
    assert |"identity"| == 8 && |"server"| == 6 && |"share"| == 5 && |"directory"| == 9;
  }

  lemma IdInjective(k: Kind, a: string, l: Kind, b: string)
    requires Id(k, a) == Id(l, b)
    ensures k == l && a == b
  {
    KindNames(k);
    KindNames(l);
    var s := Id(k, a);
    assert s[|KindName(k)|] == '\0' && s[|KindName(l)|] == '\0';
    assert forall i :: 0 <= i < |KindName(k)| ==> s[i] == KindName(k)[i];
    assert forall i :: 0 <= i < |KindName(l)| ==> s[i] == KindName(l)[i];
    assert a == s[|KindName(k)| + 1..] && b == s[|KindName(l)| + 1..];
  }

  /** An entry that could have been recorded, whenever it was. */
  predicate ShapeOk(e: Entry) {
    KeyOk(e.key) && LabelOk(e.name)
  }

  ghost predicate OnePerObject(es: seq<Entry>) {
    forall i, j :: 0 <= i < j < |es| ==> !(es[i].kind == es[j].kind && es[i].key == es[j].key)
  }

  /** What a list the module stores or returns looks like. */
  ghost predicate WellFormed(es: seq<Entry>) {
    && (forall e :: e in es ==> ShapeOk(e))
    && Sorted(Newer, es)
    && OnePerObject(es)
    && |es| <= LIMIT
  }

  function FreshAt(now: real): Entry -> bool {
    (e: Entry) => Current(e.at, now)
  }

  lemma EncodeDecodes(e: Entry, now: real)
    ensures IsEntry(EncodeEntry(e), now) <==> ShapeOk(e) && Current(e.at, now)
    ensures IsEntry(EncodeEntry(e), now) ==> ToEntry(EncodeEntry(e), now) == e
  {
    KindNames(e.kind);
    assert |"kind"| == 4 && |"key"| == 3 && |"label"| == 5 && |"at"| == 2;
  }

  lemma EncodeParses(owner: string, es: seq<Entry>)
    requires IsOwner(owner)
    ensures Parse(Encode(owner, es)) == Some((owner, EncodeAll(es)))
  {
    assert |"v"| == 1 && |"owner"| == 5 && |"entries"| == 7;
  }

  lemma {:induction false} EncodeAllLength(es: seq<Entry>)
    ensures |EncodeAll(es)| == |es|
  {
    if |es| == 0 {
    } else {
      EncodeAllLength(es[1..]);
    }
  }

  // --------------------------------------------------------------------------------- tidy

  lemma {:induction false} ValidOfEncoded(es: seq<Entry>, now: real)
    requires forall e :: e in es ==> ShapeOk(e)
    ensures Valid(EncodeAll(es), now) == Filter(FreshAt(now), es)
  {
    if |es| == 0 {
    } else {
      EncodeDecodes(es[0], now);
      assert EncodeAll(es)[1..] == EncodeAll(es[1..]);
      ValidOfEncoded(es[1..], now);
    }
  }

  lemma {:induction false} ValidMembers(items: seq<Json>, now: real)
    ensures forall e :: e in Valid(items, now) <==> exists j :: j in items && IsEntry(j, now) && ToEntry(j, now) == e
  {
    if |items| == 0 {
    } else {
      ValidMembers(items[1..], now);
      assert items == [items[0]] + items[1..];
    }
  }

  lemma IdsDiffer(es: seq<Entry>)
    ensures OnePerObject(es) <==> KeysDiffer(IdFun(), es)
  {
    forall i, j | 0 <= i < j < |es|
      ensures IdFun()(es[i]) == IdFun()(es[j]) <==> es[i].kind == es[j].kind && es[i].key == es[j].key
    {
      if IdFun()(es[i]) == IdFun()(es[j]) {
        IdInjective(es[i].kind, es[i].key, es[j].kind, es[j].key);
      }
    }
  }

  /** Keeping the first of each object keeps the order, and leaves one entry per object. */
  lemma DedupeKeepsForm(es: seq<Entry>)
    requires Sorted(Newer, es)
    ensures Sorted(Newer, Dedupe(IdFun(), es)) && OnePerObject(Dedupe(IdFun(), es))
    ensures forall e :: e in Dedupe(IdFun(), es) ==> e in es
  {
    var at := DedupeSources(IdFun(), es);
    DedupeKeys(IdFun(), es);
    IdsDiffer(Dedupe(IdFun(), es));
    var d := Dedupe(IdFun(), es);
    forall i, j | 0 <= i < j < |d| ensures !Newer(d[j], d[i]) {
      assert !Newer(es[at[j]], es[at[i]]);
    }
    forall e | e in d ensures e in es {
      var i :| 0 <= i < |d| && d[i] == e;
      assert es[at[i]] == e;
    }
  }

  lemma NewerIsWeakOrder(dom: set<Entry>)
    ensures WeakOrder(Newer, dom)
  {
  }

  lemma SortedValid(items: seq<Json>, now: real)
    ensures var s := SortBy(Newer, Valid(items, now));
            && Sorted(Newer, s)
            && (forall e :: e in s <==> e in Valid(items, now))
            && (forall e :: e in s ==> ShapeOk(e) && Current(e.at, now))
  {
    var v := Valid(items, now);
    NewerIsWeakOrder(Members(v));
    SortSorts(Newer, v, Members(v));
    SortMembers(Newer, v);
    ValidMembers(items, now);
  }

  /**
   * Whatever was stored, the tidied list is valid, unexpired, newest first, one per object and at
   * most ten long, and every entry in it was stored.
   */
  lemma TidySound(items: seq<Json>, now: real)
    ensures WellFormed(Tidy(items, now))
    ensures forall e :: e in Tidy(items, now) ==>
              Current(e.at, now) && exists j :: j in items && IsEntry(j, now) && ToEntry(j, now) == e
  {
    TidyForm(items, now);
    ValidMembers(items, now);
  }

  lemma TidyForm(items: seq<Json>, now: real)
    ensures WellFormed(Tidy(items, now))
    ensures forall e :: e in Tidy(items, now) ==> Current(e.at, now) && e in Valid(items, now)
  {
    var s := SortBy(Newer, Valid(items, now));
    SortedValid(items, now);
    DedupeKeepsForm(s);
    TakeForm(LIMIT, Dedupe(IdFun(), s));
  }

  lemma TakeForm(n: nat, es: seq<Entry>)
    ensures |Take(n, es)| <= n
    ensures forall e :: e in Take(n, es) ==> e in es
    ensures Sorted(Newer, es) ==> Sorted(Newer, Take(n, es))
    ensures OnePerObject(es) ==> OnePerObject(Take(n, es))
  {
  }

  /** Nothing valid is dropped but for a newer view of the same object, or for ten newer objects. */
  lemma TidyKeepsNewest(items: seq<Json>, now: real, j: Json)
    requires j in items && IsEntry(j, now)
    ensures var e := ToEntry(j, now);
            var t := Tidy(items, now);
            || (exists d :: d in t && d.kind == e.kind && d.key == e.key && d.at >= e.at)
            || (|t| == LIMIT && forall d :: d in t ==> d.at >= e.at)
  {
    var s := SortBy(Newer, Valid(items, now));
    SortedValid(items, now);
    ValidMembers(items, now);
    var d := KeptAsNew(s, ToEntry(j, now));
    DedupeKeepsForm(s);
    TakeKeepsNewest(Dedupe(IdFun(), s), d);
  }

  /** Among the kept entries is one of the same object, at least as new. */
  lemma KeptAsNew(s: seq<Entry>, e: Entry) returns (d: Entry)
    requires Sorted(Newer, s) && e in s
    ensures d in Dedupe(IdFun(), s) && d.kind == e.kind && d.key == e.key && d.at >= e.at
  {
    var i :| 0 <= i < |s| && s[i] == e;
    var f := DedupeKeepsFirst(IdFun(), s, i);
    d := s[f];
    assert f == i || !Newer(s[i], s[f]);
    IdInjective(d.kind, d.key, e.kind, e.key);
  }

  /** Truncation drops an entry only for ten that are at least as new. */
  lemma TakeKeepsNewest(es: seq<Entry>, d: Entry)
    requires Sorted(Newer, es) && d in es
    ensures d in Take(LIMIT, es) || (|Take(LIMIT, es)| == LIMIT && forall x :: x in Take(LIMIT, es) ==> x.at >= d.at)
  {
    var k :| 0 <= k < |es| && es[k] == d;
    var t := Take(LIMIT, es);
    if k < LIMIT {
      assert t[k] == d;
    } else {
      forall x | x in t ensures x.at >= d.at {
        var m :| 0 <= m < |t| && t[m] == x;
        assert !Newer(es[k], es[m]);
      }
    }
  }

  /** `b` may come after `a`: it is no newer, and of another object. */
  predicate MayFollow(a: Entry, b: Entry) {
    !Newer(b, a) && !(a.kind == b.kind && a.key == b.key)
  }

  lemma FilterKeepsForm(keep: Entry -> bool, es: seq<Entry>)
    requires Sorted(Newer, es) && OnePerObject(es)
    ensures Sorted(Newer, Filter(keep, es)) && OnePerObject(Filter(keep, es))
  {
    var kept := Filter(keep, es);
    assert forall i, j :: 0 <= i < j < |es| ==> MayFollow(es[i], es[j]);
    FilterKeepsOrder(MayFollow, keep, es);
    assert forall i, j :: 0 <= i < j < |kept| ==> MayFollow(kept[i], kept[j]);
  }

  /** Tidying a well-formed list later only drops what has expired. */
  lemma TidyOfWellFormed(es: seq<Entry>, now: real)
    requires WellFormed(es)
    ensures Tidy(EncodeAll(es), now) == Filter(FreshAt(now), es)
  {
    ValidOfEncoded(es, now);
    var v := Filter(FreshAt(now), es);
    FilterKeepsForm(FreshAt(now), es);
    SortOfSorted(Newer, v);
    IdsDiffer(v);
    DedupeOfDistinct(IdFun(), v);
  }

  /** Tidying twice at one instant is tidying once. */
  lemma TidyIdempotent(items: seq<Json>, now: real)
    ensures Tidy(EncodeAll(Tidy(items, now)), now) == Tidy(items, now)
  {
    TidySound(items, now);
    var t := Tidy(items, now);
    TidyOfWellFormed(t, now);
    FilterAll(FreshAt(now), t);
  }

  /**
   * Any read of any content: the list is well formed and unexpired, and each entry stands in a
   * stored value that carries this very owner's tag.
   */
  lemma ReadIsSound(f: Faults, cell: Option<Stored>, owner: string, now: real)
    ensures var es := Loaded(f, cell, owner, now).1;
            && WellFormed(es)
            && (forall e :: e in es ==> Current(e.at, now))
            && (es != [] ==>
                  && cell.Some? && Parse(cell.value).Some? && Parse(cell.value).value.0 == owner
                  && forall e :: e in es ==> exists j ::
                       j in Parse(cell.value).value.1 && IsEntry(j, now) && ToEntry(j, now) == e)
  {
    if !f.getFails && cell.Some? && Parse(cell.value).Some? {
      TidySound(Parse(cell.value).value.1, now);
    }
  }

  // ------------------------------------------------------------------------ a new front

  /** A newest entry goes in front of the others. */
  lemma FrontForm(e: Entry, rest: seq<Entry>)
    requires Sorted(Newer, rest) && OnePerObject(rest)
    requires forall x :: x in rest ==> x.at <= e.at && !(x.kind == e.kind && x.key == e.key)
    ensures Sorted(Newer, [e] + rest) && OnePerObject([e] + rest)
  {
    assert forall i :: 0 <= i < |rest| ==> rest[i] in rest;
  }

  lemma RecordedLabelOk(view: View)
    requires Recordable(view)
    ensures ShapeOk(EntryOf(view, 0.0))
  {
    TrimLeftStarts(view.name);
    var l := TrimLeft(view.name);
    TrimRightLength(l);
    var s := RecordedLabel(view);
    assert s[0] == Trim(view.name)[0] == l[0];
    assert TrimLeft(s) == s;
    TrimRightBlank(s);
  }
}
