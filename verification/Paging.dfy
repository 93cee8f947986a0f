/** Paging by a trail of cursors in the query string. */
module Paging {
  import opened Options
  import opened Seqs
  import opened Text

  const TRAIL_SEPARATOR: char := '~'

  /** A query parameter as the router hands it over. */
  datatype Raw = Absent | Single(s: string) | Repeated(items: seq<string>)

  datatype Trail = Trail(cursors: seq<string>, rejected: bool)

  /** Base64url without padding (section 5 of RFC 4648), and not empty. */
  predicate IsCursor(s: string) {
    && |s| > 0
    && forall i :: 0 <= i < |s| ==>
         'A' <= s[i] <= 'Z' || 'a' <= s[i] <= 'z' || '0' <= s[i] <= '9' || s[i] == '-' || s[i] == '_'
  }

  predicate AllCursors(parts: seq<string>) {
    forall p :: p in parts ==> IsCursor(p)
  }

  function DecodeTrail(raw: Raw): Trail {
    match raw
    case Absent => Trail([], false)
    case Repeated(_) => Trail([], true)
    case Single(s) =>
      if s == "" then Trail([], false)
      else
        var parts := Split(s, TRAIL_SEPARATOR);
        if AllCursors(parts) then Trail(parts, false) else Trail([], true)
  }

  function EncodeTrail(cursors: seq<string>): Option<string> {
    if |cursors| == 0 then None else Some(Join(cursors, TRAIL_SEPARATOR))
  }

  function CursorFor(trail: Trail): Option<string> {
    if |trail.cursors| == 0 then None else Some(trail.cursors[|trail.cursors| - 1])
  }

  // --------------------------------------------------------------------------------- urls

  /** A value of a query object. `Shown` is a number or a boolean as `String` prints it. */
  datatype QueryValue = Nothing | Words(s: string) | Shown(s: string) | Many(items: seq<string>)

  datatype Url = Url(base: string, query: seq<(string, string)>)

  function NonEmptyItems(name: string, items: seq<string>): seq<(string, string)> {
    if |items| == 0 then []
    else
      NonEmptyItems(name, items[..|items| - 1])
      + if items[|items| - 1] == "" then [] else [(name, items[|items| - 1])]
  }

  function Written(name: string, v: QueryValue): seq<(string, string)> {
    match v
    case Nothing => []
    case Words(s) => if s == "" then [] else [(name, s)]
    case Shown(s) => [(name, s)]
    case Many(items) => NonEmptyItems(name, items)
  }

  /** The pairs of a query object, in its own order. */
  function Query(params: seq<(string, QueryValue)>): seq<(string, string)> {
    if |params| == 0 then []
    else Query(params[..|params| - 1]) + Written(params[|params| - 1].0, params[|params| - 1].1)
  }

  method HrefWith(basePath: string, params: seq<(string, QueryValue)>) returns (url: Url)
    ensures url == Url(basePath, Query(params))
  {
    var search: seq<(string, string)> := [];
    for k := 0 to |params|
      invariant search == Query(params[..k])
    {
      assert params[..k + 1][..k] == params[..k];
      var (name, value) := params[k];
      if value == Nothing || value == Words("") {
        continue;
      }
      if value.Many? {
        ghost var before := search;
        for n := 0 to |value.items|
          invariant search == before + NonEmptyItems(name, value.items[..n])
        {
          assert value.items[..n + 1][..n] == value.items[..n];
          if value.items[n] != "" {
            search := search + [(name, value.items[n])];
          }
        }
        assert value.items[..|value.items|] == value.items;
        continue;
      }
      search := search + [(name, value.s)];
    }
    assert params[..|params|] == params;
    url := Url(basePath, search);
  }

  /** The object spread `{...params, [name]: value}`: replace in place, or add at the end. */
  function Spread(params: seq<(string, QueryValue)>, name: string, value: QueryValue): seq<(string, QueryValue)> {
    if |params| == 0 then [(name, value)]
    else if params[0].0 == name then [(name, value)] + params[1..]
    else [params[0]] + Spread(params[1..], name, value)
  }

  function TrailValue(cursors: seq<string>): QueryValue {
    match EncodeTrail(cursors)
    case None => Nothing
    case Some(s) => Words(s)
  }

  datatype PageOptions = PageOptions(
    basePath: string,
    params: seq<(string, QueryValue)>,
    trailParam: string,
    trail: Trail,
    nextCursor: Option<string>)

  datatype PageNavigation = PageNavigation(
    pageNumber: nat, previousHref: Option<Url>, nextHref: Option<Url>, firstHref: Option<Url>)

  function At(o: PageOptions, cursors: seq<string>): Url {
    Url(o.basePath, Query(Spread(o.params, o.trailParam, TrailValue(cursors))))
  }

  function Navigate(o: PageOptions): PageNavigation {
    var cursors := o.trail.cursors;
    var n := |cursors|;
    PageNavigation(
      n + 1,
      if n > 0 then Some(At(o, cursors[..n - 1])) else None,
      if o.nextCursor.Some? && o.nextCursor.value != "" then Some(At(o, cursors + [o.nextCursor.value])) else None,
      if n > 0 then Some(At(o, [])) else None)
  }

  /** What the router makes of a parameter of a URL. */
  function Values(query: seq<(string, string)>, name: string): seq<string> {
    if |query| == 0 then []
    else Values(query[..|query| - 1], name) + if query[|query| - 1].0 == name then [query[|query| - 1].1] else []
  }

  function Param(url: Url, name: string): Raw {
    var values := Values(url.query, name);
    if |values| == 0 then Absent else if |values| == 1 then Single(values[0]) else Repeated(values)
  }

  // ------------------------------------------------------------------------ main results

  lemma CursorsAreFree(cursors: seq<string>)
    requires AllCursors(cursors)
    ensures forall p :: p in cursors ==> TRAIL_SEPARATOR !in p
  {
    forall p | p in cursors ensures TRAIL_SEPARATOR !in p {
      assert forall i :: 0 <= i < |p| ==> p[i] != TRAIL_SEPARATOR;
    }
  }

  lemma JoinOfCursors(cursors: seq<string>)
    requires AllCursors(cursors) && |cursors| > 0
    ensures Join(cursors, TRAIL_SEPARATOR) != ""
  {
    assert cursors[0] in cursors;
  }

  function Carried(cursors: seq<string>): Raw {
    match EncodeTrail(cursors)
    case None => Absent
    case Some(s) => Single(s)
  }

  /** Decoding an encoded trail gives it back exactly when every cursor is one this application could issue. */
  lemma DecodeEncodeIff(cursors: seq<string>)
    ensures DecodeTrail(Carried(cursors)) == Trail(cursors, false) <==> AllCursors(cursors)
  {
    if AllCursors(cursors) && |cursors| > 0 {
      CursorsAreFree(cursors);
      JoinOfCursors(cursors);
      SplitJoin(cursors, TRAIL_SEPARATOR);
    }
  }

  /** Encoding an accepted parameter gives it back, and what is rejected carries no position. */
  lemma EncodeDecode(raw: Raw)
    ensures var t := DecodeTrail(raw);
            && AllCursors(t.cursors)
            && (t.rejected ==> t.cursors == [])
            && (raw.Single? && raw.s != "" && !t.rejected ==> EncodeTrail(t.cursors) == Some(raw.s))
            && (t.rejected
                <==> raw.Repeated? || (raw.Single? && raw.s != "" && !AllCursors(Split(raw.s, TRAIL_SEPARATOR))))
  {
    if raw.Single? {
      JoinSplit(raw.s, TRAIL_SEPARATOR);
    }
  }

  lemma {:induction false} ValuesAppend(a: seq<(string, string)>, b: seq<(string, string)>, name: string)
    ensures Values(a + b, name) == Values(a, name) + Values(b, name)
  {
    if |b| == 0 {
      assert a + b == a;
    } else {
      assert (a + b)[..|a + b| - 1] == a + b[..|b| - 1];
      ValuesAppend(a, b[..|b| - 1], name);
    }
  }

  lemma {:induction false} QueryAppend(a: seq<(string, QueryValue)>, b: seq<(string, QueryValue)>)
    ensures Query(a + b) == Query(a) + Query(b)
  {
    if |b| == 0 {
      assert a + b == a;
    } else {
      var rest, last := b[..|b| - 1], b[|b| - 1];
      QueryAppend(a, rest);
      QueryLast(a + b);
      assert (a + b)[..|a + b| - 1] == a + rest && (a + b)[|a + b| - 1] == last;
      ConcatAssociative(Query(a), Query(rest), Written(last.0, last.1));
    }
  }

  lemma QueryLast(all: seq<(string, QueryValue)>)
    requires |all| > 0
    ensures Query(all) == Query(all[..|all| - 1]) + Written(all[|all| - 1].0, all[|all| - 1].1)
  {
  }

  lemma {:induction false} OtherItems(name: string, items: seq<string>, other: string)
    requires name != other
    ensures Values(NonEmptyItems(name, items), other) == []
  {
    if |items| == 0 {
    } else {
      OtherItems(name, items[..|items| - 1], other);
      ValuesAppend(NonEmptyItems(name, items[..|items| - 1]),
                   if items[|items| - 1] == "" then [] else [(name, items[|items| - 1])], other);
    }
  }

  lemma OtherWritten(name: string, v: QueryValue, other: string)
    requires name != other
    ensures Values(Written(name, v), other) == []
  {
    if v.Many? {
      OtherItems(name, v.items, other);
    }
  }

  lemma {:induction false} OtherParams(params: seq<(string, QueryValue)>, name: string)
    requires forall q :: q in params ==> q.0 != name
    ensures Values(Query(params), name) == []
  {
    if |params| == 0 {
    } else {
      var rest, last := params[..|params| - 1], params[|params| - 1];
      OtherParams(rest, name);
      OtherWritten(last.0, last.1, name);
      ValuesAppend(Query(rest), Written(last.0, last.1), name);
    }
  }

  /** Object keys are unique. */
  ghost predicate UniqueNames(params: seq<(string, QueryValue)>) {
    forall i, j :: 0 <= i < j < |params| ==> params[i].0 != params[j].0
  }

  /** Whatever else the page carries, the spread parameter reads back as it was written. */
  lemma {:induction false} SpreadReadsBack(params: seq<(string, QueryValue)>, name: string, v: QueryValue)
    requires UniqueNames(params)
    ensures Values(Query(Spread(params, name, v)), name) == Values(Written(name, v), name)
  {
    var here := [(name, v)];
    assert Query(here[..0]) == [] && Query(here) == Written(name, v);
    if |params| == 0 {
    } else {
      var head := [params[0]];
      assert Query(head[..0]) == [] && Query(head) == Written(params[0].0, params[0].1);
      if params[0].0 == name {
        OtherParams(params[1..], name);
        QueryAppend(here, params[1..]);
        ValuesAppend(Query(here), Query(params[1..]), name);
      } else {
        SpreadReadsBack(params[1..], name, v);
        assert Spread(params, name, v) == head + Spread(params[1..], name, v);
        OtherWritten(params[0].0, params[0].1, name);
        QueryAppend(head, Spread(params[1..], name, v));
        ValuesAppend(Query(head), Query(Spread(params[1..], name, v)), name);
      }
    }
  }

  /** Following a link: the trail the next request reads out of the URL. */
  function Follow(url: Url, o: PageOptions): Trail {
    DecodeTrail(Param(url, o.trailParam))
  }

  lemma AtReadsBack(o: PageOptions, cursors: seq<string>)
    requires UniqueNames(o.params) && AllCursors(cursors)
    ensures Follow(At(o, cursors), o) == Trail(cursors, false)
  {
    SpreadReadsBack(o.params, o.trailParam, TrailValue(cursors));
    DecodeEncodeIff(cursors);
    if |cursors| > 0 {
      JoinOfCursors(cursors);
      var w := [(o.trailParam, Join(cursors, TRAIL_SEPARATOR))];
      assert Values(w[..0], o.trailParam) == [];
      assert Values(w, o.trailParam) == [Join(cursors, TRAIL_SEPARATOR)];
    }
  }

  /**
   * The links go where they say, whatever other parameters the page carries: next appends the
   * response's cursor, previous drops the last, first drops them all, and the page number is the
   * position in the trail.
   */
  lemma LinksNavigate(o: PageOptions)
    requires UniqueNames(o.params) && AllCursors(o.trail.cursors)
    requires o.nextCursor.Some? ==> o.nextCursor.value == "" || IsCursor(o.nextCursor.value)
    ensures var nav := Navigate(o);
            var n := |o.trail.cursors|;
            && nav.pageNumber == n + 1
            && (nav.previousHref.Some? <==> n > 0) && (nav.firstHref.Some? <==> n > 0)
            && (nav.nextHref.Some? <==> o.nextCursor.Some? && o.nextCursor.value != "")
            && (n > 0 ==> Follow(nav.previousHref.value, o) == Trail(o.trail.cursors[..n - 1], false)
                          && Follow(nav.firstHref.value, o) == Trail([], false))
            && (nav.nextHref.Some? ==>
                  && Follow(nav.nextHref.value, o) == Trail(o.trail.cursors + [o.nextCursor.value], false)
                  && CursorFor(Follow(nav.nextHref.value, o)) == o.nextCursor)
  {
    var cursors := o.trail.cursors;
    if |cursors| > 0 {
      AtReadsBack(o, cursors[..|cursors| - 1]);
      AtReadsBack(o, []);
    }
    if o.nextCursor.Some? && o.nextCursor.value != "" {
      AtReadsBack(o, cursors + [o.nextCursor.value]);
    }
  }

  /** The page behind the next link, once the response has given this cursor. */
  function GoForward(o: PageOptions, cursor: string): PageOptions {
    var here := o.(nextCursor := Some(cursor));
    match Navigate(here).nextHref
    case None => here
    case Some(url) => here.(trail := Follow(url, here))
  }

  /** The page behind the previous link. */
  function GoBack(o: PageOptions): PageOptions {
    match Navigate(o).previousHref
    case None => o
    case Some(url) => o.(trail := Follow(url, o))
  }

  /** The page reached by following `next` once for each cursor the responses return. */
  function Forward(o: PageOptions, given: seq<string>): PageOptions {
    if |given| == 0 then o else GoForward(Forward(o, given[..|given| - 1]), given[|given| - 1])
  }

  /** The page reached by following `previous` up to `n` times. */
  function Back(o: PageOptions, n: nat): PageOptions
    decreases n
  {
    if n == 0 then o else Back(GoBack(o), n - 1)
  }

  /** A page this application produced: its trail holds cursors and was not rejected. */
  predicate Sound(o: PageOptions) {
    && AllCursors(o.trail.cursors) && !o.trail.rejected
    && (o.nextCursor.Some? ==> o.nextCursor.value == "" || IsCursor(o.nextCursor.value))
  }

  lemma GoForwardTrail(o: PageOptions, cursor: string)
    requires UniqueNames(o.params) && Sound(o) && IsCursor(cursor)
    ensures GoForward(o, cursor)
            == o.(nextCursor := Some(cursor), trail := Trail(o.trail.cursors + [cursor], false))
    ensures Sound(GoForward(o, cursor))
  {
    LinksNavigate(o.(nextCursor := Some(cursor)));
  }

  lemma GoBackTrail(o: PageOptions)
    requires UniqueNames(o.params) && Sound(o) && |o.trail.cursors| > 0
    ensures GoBack(o) == o.(trail := Trail(o.trail.cursors[..|o.trail.cursors| - 1], false))
    ensures Sound(GoBack(o))
  {
    LinksNavigate(o);
  }

  lemma {:induction false} ForwardTrail(o: PageOptions, given: seq<string>)
    requires UniqueNames(o.params) && Sound(o) && AllCursors(given)
    ensures Forward(o, given).trail == Trail(o.trail.cursors + given, false)
    ensures Sound(Forward(o, given)) && Forward(o, given).params == o.params
    ensures Navigate(Forward(o, given)).pageNumber == |o.trail.cursors| + |given| + 1
  {
    if |given| == 0 {
      assert o.trail.cursors + given == o.trail.cursors;
    } else {
      var rest, c := given[..|given| - 1], given[|given| - 1];
      assert c in given && given == rest + [c];
      ForwardTrail(o, rest);
      GoForwardTrail(Forward(o, rest), c);
      ConcatAssociative(o.trail.cursors, rest, [c]);
    }
  }

  /** The same page with the last `k` cursors of its trail gone. */
  function Shortened(o: PageOptions, k: nat): PageOptions
    requires k <= |o.trail.cursors|
  {
    o.(trail := Trail(o.trail.cursors[..|o.trail.cursors| - k], false))
  }

  lemma BackStep(o: PageOptions, k: nat)
    requires UniqueNames(o.params) && Sound(o) && 0 < k <= |o.trail.cursors|
    ensures GoBack(o) == Shortened(o, 1) && Sound(GoBack(o))
    ensures Shortened(GoBack(o), k - 1) == Shortened(o, k)
  {
    GoBackTrail(o);
    PrefixOfPrefix(o.trail.cursors, |o.trail.cursors| - 1, |o.trail.cursors| - k);
  }

  lemma {:induction false} BackTrail(o: PageOptions, n: nat)
    requires UniqueNames(o.params) && Sound(o) && n <= |o.trail.cursors|
    ensures Back(o, n) == Shortened(o, n)
    decreases n
  {
    if n == 0 {
      assert o.trail.cursors[..|o.trail.cursors|] == o.trail.cursors;
    } else {
      BackStep(o, n);
      BackTrail(GoBack(o), n - 1);
    }
  }

  /** Any number of steps forward, then as many back, returns to the page it started from. */
  lemma ForwardThenBack(o: PageOptions, given: seq<string>)
    requires UniqueNames(o.params) && Sound(o) && AllCursors(given)
    ensures Back(Forward(o, given), |given|).trail == o.trail
    ensures Navigate(Back(Forward(o, given), |given|)).pageNumber == |o.trail.cursors| + 1
  {
    ForwardTrail(o, given);
    BackTrail(Forward(o, given), |given|);
    assert (o.trail.cursors + given)[..|o.trail.cursors|] == o.trail.cursors;
  }

  // ------------------------------------------------------------------- what a link carries

  /** The alphabet of section 5 of RFC 4648, in full. */
  lemma CursorIff(s: string)
    ensures IsCursor(s)
            <==> s != "" && forall i :: 0 <= i < |s| ==>
                   s[i] in UPPER || s[i] in LOWER || s[i] in DIGITS || s[i] == '-' || s[i] == '_'
  {
    forall i | 0 <= i < |s|
      ensures s[i] in UPPER || s[i] in LOWER || s[i] in DIGITS
              <==> 'A' <= s[i] <= 'Z' || 'a' <= s[i] <= 'z' || '0' <= s[i] <= '9'
    {
      IsCapital(s[i]);
      IsSmall(s[i]);
      IsDigit(s[i]);
    }
  }

  /** A trail is its cursors one behind the other, a tilde between them, and no parameter when there are none. */
  lemma EncodedTrail(cursors: seq<string>, next: string)
    ensures EncodeTrail([]) == None && EncodeTrail([next]) == Some(next)
    ensures |cursors| > 0 ==>
              EncodeTrail([next] + cursors) == Some(next + "~" + EncodeTrail(cursors).value)
  {
    assert ([next] + cursors)[1..] == cursors;
  }

  predicate NotBlank(s: string) {
    s != ""
  }

  /** What a query object means for one of its names. */
  function Meaning(v: QueryValue): seq<string> {
    match v
    case Nothing => []
    case Words(s) => if s == "" then [] else [s]
    case Shown(s) => [s]
    case Many(items) => Filter(NotBlank, items)
  }

  lemma {:induction false} ItemsRead(name: string, items: seq<string>)
    ensures Values(NonEmptyItems(name, items), name) == Filter(NotBlank, items)
  {
    if |items| == 0 {
    } else {
      var n := |items| - 1;
      ItemsRead(name, items[..n]);
      FilterSnoc(NotBlank, items, n);
      assert items[..n + 1] == items;
      var tail := if items[n] == "" then [] else [(name, items[n])];
      ValuesAppend(NonEmptyItems(name, items[..n]), tail, name);
      assert |tail| == 1 ==> tail[..0] == [];
    }
  }

  /** Each value of a query object is written so that it reads back as what it means. */
  lemma WrittenReads(name: string, v: QueryValue)
    ensures Values(Written(name, v), name) == Meaning(v)
  {
    match v {
      case Nothing =>
      case Words(s) => assert [(name, s)][..0] == [];
      case Shown(s) => assert [(name, s)][..0] == [];
      case Many(items) => ItemsRead(name, items);
    }
  }

  /** A URL carries each parameter of its query object, and nothing under any other name. */
  lemma {:induction false} QueryReads(params: seq<(string, QueryValue)>, k: nat)
    requires UniqueNames(params) && k < |params|
    ensures Values(Query(params), params[k].0) == Meaning(params[k].1)
  {
    var n := |params| - 1;
    var rest, last := params[..n], params[n];
    ValuesAppend(Query(rest), Written(last.0, last.1), params[k].0);
    if k == n {
      OtherParams(rest, last.0);
      WrittenReads(last.0, last.1);
    } else {
      QueryReads(rest, k);
      OtherWritten(last.0, last.1, params[k].0);
    }
  }

  /** Spreading a parameter the page has replaces it where it stands. */
  lemma {:induction false} SpreadReplaces(params: seq<(string, QueryValue)>, k: nat, v: QueryValue)
    requires UniqueNames(params) && k < |params|
    ensures Spread(params, params[k].0, v) == params[k := (params[k].0, v)]
  {
    if k == 0 {
      assert params[0 := (params[0].0, v)] == [(params[0].0, v)] + params[1..];
    } else {
      SpreadReplaces(params[1..], k - 1, v);
      assert params[k := (params[k].0, v)] == [params[0]] + params[1..][k - 1 := (params[k].0, v)];
    }
  }

  /** Spreading one it does not have adds it at the end. */
  lemma {:induction false} SpreadAdds(params: seq<(string, QueryValue)>, name: string, v: QueryValue)
    requires forall i :: 0 <= i < |params| ==> params[i].0 != name
    ensures Spread(params, name, v) == params + [(name, v)]
  {
    if |params| == 0 {
    } else {
      SpreadAdds(params[1..], name, v);
      assert params == [params[0]] + params[1..];
    }
  }

  /** Either way the other parameters read as before. */
  lemma SpreadKeeps(params: seq<(string, QueryValue)>, name: string, v: QueryValue, k: nat)
    requires UniqueNames(params) && k < |params| && params[k].0 != name
    ensures Values(Query(Spread(params, name, v)), params[k].0) == Meaning(params[k].1)
  {
    if i :| 0 <= i < |params| && params[i].0 == name {
      SpreadReplaces(params, i, v);
    } else {
      SpreadAdds(params, name, v);
    }
    QueryReads(Spread(params, name, v), k);
  }

  /** The URL has the page's address, and this one of its other parameters as the page has it. */
  ghost predicate KeepsParam(url: Url, o: PageOptions, k: nat)
    requires k < |o.params|
  {
    url.base == o.basePath && Values(url.query, o.params[k].0) == Meaning(o.params[k].1)
  }

  lemma AtKeeps(o: PageOptions, cursors: seq<string>, k: nat)
    requires UniqueNames(o.params) && k < |o.params| && o.params[k].0 != o.trailParam
    ensures KeepsParam(At(o, cursors), o, k)
  {
    SpreadKeeps(o.params, o.trailParam, TrailValue(cursors), k);
  }

  /** Every link of a page keeps its address and every other parameter. */
  lemma LinksKeepRest(o: PageOptions, k: nat)
    requires UniqueNames(o.params) && k < |o.params| && o.params[k].0 != o.trailParam
    ensures var nav := Navigate(o);
            && (nav.previousHref.Some? ==> KeepsParam(nav.previousHref.value, o, k))
            && (nav.nextHref.Some? ==> KeepsParam(nav.nextHref.value, o, k))
            && (nav.firstHref.Some? ==> KeepsParam(nav.firstHref.value, o, k))
  {
    var cursors := o.trail.cursors;
    AtKeeps(o, [], k);
    if |cursors| > 0 {
      AtKeeps(o, cursors[..|cursors| - 1], k);
    }
    if o.nextCursor.Some? {
      AtKeeps(o, cursors + [o.nextCursor.value], k);
    }
  }
}
