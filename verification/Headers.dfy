/** Header forwarding by the front gate: section 7.6.1 of RFC 9110. */
module Headers {
  import opened Seqs
  import opened Text

  const HOP_BY_HOP: seq<string> := [
    "connection", "keep-alive", "proxy-authenticate", "proxy-authorization", "proxy-connection",
    "te", "trailer", "transfer-encoding", "upgrade"
  ]

  function LowerChar(c: char): char {
    if 'A' <= c <= 'Z' then (c as int + 32) as char else c
  }

  function Lower(s: string): (r: string)
    ensures |r| == |s|
    ensures forall i :: 0 <= i < |s| ==> r[i] == LowerChar(s[i])
  {
    if |s| == 0 then "" else [LowerChar(s[0])] + Lower(s[1..])
  }

  /** Names and values alternate, as Node's `rawHeaders` lists them. */
  predicate Paired(raw: seq<string>) {
    |raw| % 2 == 0
  }

  function Pairs(raw: seq<string>): seq<(string, string)>
    requires Paired(raw)
  {
    if |raw| == 0 then [] else Pairs(raw[..|raw| - 2]) + [(raw[|raw| - 2], raw[|raw| - 1])]
  }

  function Flatten(pairs: seq<(string, string)>): (r: seq<string>)
    ensures Paired(r)
  {
    if |pairs| == 0 then []
    else Flatten(pairs[..|pairs| - 1]) + [pairs[|pairs| - 1].0, pairs[|pairs| - 1].1]
  }

  function TokensOf(value: string): set<string> {
    set t | t in Split(value, ',') :: Lower(Trim(t))
  }

  function HopByHop(): set<string> {
    set h | h in HOP_BY_HOP
  }

  /** The excluded names after scanning these headers. */
  function ExcludedBy(pairs: seq<(string, string)>, drop: set<string>): set<string> {
    if |pairs| == 0 then HopByHop() + drop
    else
      var last := pairs[|pairs| - 1];
      ExcludedBy(pairs[..|pairs| - 1], drop) + if Lower(last.0) == "connection" then TokensOf(last.1) else {}
  }

  function KeepFun(excluded: set<string>): ((string, string)) -> bool {
    (p: (string, string)) => Lower(p.0) !in excluded
  }

  function Forwardable(raw: seq<string>, drop: set<string>): seq<string>
    requires Paired(raw)
  {
    Flatten(Filter(KeepFun(ExcludedBy(Pairs(raw), drop)), Pairs(raw)))
  }

  lemma PairsStep(raw: seq<string>, i: nat)
    requires Paired(raw) && i % 2 == 0 && i < |raw|
    ensures i + 1 < |raw| && Paired(raw[..i]) && Paired(raw[..i + 2])
    ensures Pairs(raw[..i + 2]) == Pairs(raw[..i]) + [(raw[i], raw[i + 1])]
  {
    assert raw[..i + 2][..i] == raw[..i];
  }

  /** Exclude every token one Connection header names. */
  method AddTokens(before: set<string>, value: string) returns (excluded: set<string>)
    ensures excluded == before + TokensOf(value)
  {
    excluded := before;
    var tokens := Split(value, ',');
    for n := 0 to |tokens|
      invariant excluded == before + set t | t in tokens[..n] :: Lower(Trim(t))
    {
      assert tokens[..n + 1] == tokens[..n] + [tokens[n]];
      excluded := excluded + {Lower(Trim(tokens[n]))};
    }
    assert tokens[..|tokens|] == tokens;
  }

  /** The source's two index loops: collect what is excluded, then keep the rest. */
  method ForwardableHeaders(raw: seq<string>, drop: set<string>) returns (kept: seq<string>)
    requires Paired(raw)
    ensures kept == Forwardable(raw, drop)
  {
    var excluded := HopByHop() + drop;
    var i := 0;
    while i < |raw|
      invariant 0 <= i <= |raw| && i % 2 == 0
      invariant excluded == ExcludedBy(Pairs(raw[..i]), drop)
    {
      PairsStep(raw, i);
      assert (Pairs(raw[..i]) + [(raw[i], raw[i + 1])])[..|Pairs(raw[..i])|] == Pairs(raw[..i]);
      if Lower(raw[i]) == "connection" {
        excluded := AddTokens(excluded, raw[i + 1]);
      }
      i := i + 2;
    }
    assert raw[..|raw|] == raw;
    kept := KeepHeaders(raw, excluded);
  }

  /** The second loop. */
  method KeepHeaders(raw: seq<string>, excluded: set<string>) returns (kept: seq<string>)
    requires Paired(raw)
    ensures kept == Flatten(Filter(KeepFun(excluded), Pairs(raw)))
  {
    kept := [];
    var i := 0;
    while i < |raw|
      invariant 0 <= i <= |raw| && i % 2 == 0
      invariant kept == Flatten(Filter(KeepFun(excluded), Pairs(raw[..i])))
    {
      PairsStep(raw, i);
      ForwardStep(excluded, Pairs(raw[..i]), (raw[i], raw[i + 1]));
      if Lower(raw[i]) !in excluded {
        kept := kept + [raw[i], raw[i + 1]];
      }
      i := i + 2;
    }
    assert raw[..|raw|] == raw;
  }

  lemma ForwardStep(excluded: set<string>, pairs: seq<(string, string)>, p: (string, string))
    ensures Flatten(Filter(KeepFun(excluded), pairs + [p]))
            == Flatten(Filter(KeepFun(excluded), pairs)) + if Lower(p.0) !in excluded then [p.0, p.1] else []
  {
    FilterAppend(KeepFun(excluded), pairs, [p]);
    assert Filter(KeepFun(excluded), [p][1..]) == [];
    var kept := Filter(KeepFun(excluded), pairs);
    if Lower(p.0) !in excluded {
      assert Filter(KeepFun(excluded), pairs + [p]) == kept + [p];
      assert (kept + [p])[..|kept|] == kept;
    } else {
      assert Filter(KeepFun(excluded), pairs + [p]) == kept;
    }
  }

  // ------------------------------------------------------------------------ main results

  /** Some Connection header, wherever it stands, names this lower-case header. */
  ghost predicate NamedByConnection(pairs: seq<(string, string)>, name: string) {
    exists q, t :: q in pairs && Lower(q.0) == "connection" && t in Split(q.1, ',') && Lower(Trim(t)) == name
  }

  lemma {:induction false} ExcludedIff(pairs: seq<(string, string)>, drop: set<string>, name: string)
    ensures name in ExcludedBy(pairs, drop)
            <==> name in HOP_BY_HOP || name in drop || NamedByConnection(pairs, name)
  {
    if |pairs| == 0 {
    } else {
      var rest, last := pairs[..|pairs| - 1], pairs[|pairs| - 1];
      assert pairs == rest + [last];
      ExcludedIff(rest, drop, name);
      if NamedByConnection(pairs, name) && !NamedByConnection(rest, name) {
        var q, t :| q in pairs && Lower(q.0) == "connection" && t in Split(q.1, ',') && Lower(Trim(t)) == name;
        assert q == last;
      }
      if Lower(last.0) == "connection" && name in TokensOf(last.1) {
        var t :| t in Split(last.1, ',') && Lower(Trim(t)) == name;
        assert last in pairs;
      }
    }
  }

  /** A header is kept exactly when nothing says it must not be. */
  ghost predicate MayForward(pairs: seq<(string, string)>, drop: set<string>, p: (string, string)) {
    Lower(p.0) !in HOP_BY_HOP && Lower(p.0) !in drop && !NamedByConnection(pairs, Lower(p.0))
  }

  lemma PairsSnoc(raw: seq<string>, name: string, value: string)
    requires Paired(raw)
    ensures Paired(raw + [name, value]) && Pairs(raw + [name, value]) == Pairs(raw) + [(name, value)]
  {
    assert (raw + [name, value])[..|raw|] == raw;
  }

  lemma FlattenLast(pairs: seq<(string, string)>)
    requires |pairs| > 0
    ensures var rest, last := pairs[..|pairs| - 1], pairs[|pairs| - 1];
            Flatten(pairs) == Flatten(rest) + [last.0, last.1]
  {
  }

  lemma {:induction false} PairsFlatten(pairs: seq<(string, string)>)
    ensures Pairs(Flatten(pairs)) == pairs
  {
    if |pairs| == 0 {
    } else {
      var rest, last := pairs[..|pairs| - 1], pairs[|pairs| - 1];
      PairsFlatten(rest);
      FlattenLast(pairs);
      PairsSnoc(Flatten(rest), last.0, last.1);
      assert pairs == rest + [last];
    }
  }

  /**
   * The result is exactly the in-order subsequence of the header pairs that are not hop-by-hop,
   * not dropped, and not named by any Connection header, before or after.
   */
  lemma ForwardsExactly(raw: seq<string>, drop: set<string>)
    requires Paired(raw)
    ensures var kept := Pairs(Forwardable(raw, drop));
            && kept == Filter(KeepFun(ExcludedBy(Pairs(raw), drop)), Pairs(raw))
            && forall p :: p in Pairs(raw) ==>
                 (KeepFun(ExcludedBy(Pairs(raw), drop))(p) <==> MayForward(Pairs(raw), drop, p))
  {
    PairsFlatten(Filter(KeepFun(ExcludedBy(Pairs(raw), drop)), Pairs(raw)));
    forall p | p in Pairs(raw)
      ensures KeepFun(ExcludedBy(Pairs(raw), drop))(p) <==> MayForward(Pairs(raw), drop, p)
    {
      ExcludedIff(Pairs(raw), drop, Lower(p.0));
    }
  }

  /** Forwarding what was forwarded, with the same drop set, changes nothing. */
  lemma ForwardingIsIdempotent(raw: seq<string>, drop: set<string>)
    requires Paired(raw)
    ensures Forwardable(Forwardable(raw, drop), drop) == Forwardable(raw, drop)
  {
    var once := Forwardable(raw, drop);
    ForwardsExactly(raw, drop);
    var pairs := Pairs(once);
    assert "connection" == HOP_BY_HOP[0];
    forall p | p in pairs ensures KeepFun(ExcludedBy(pairs, drop))(p) {
      assert MayForward(Pairs(raw), drop, p);
      forall q | q in pairs ensures Lower(q.0) != "connection" {
        assert MayForward(Pairs(raw), drop, q);
      }
      ExcludedIff(pairs, drop, Lower(p.0));
    }
    FilterAll(KeepFun(ExcludedBy(pairs, drop)), pairs);
    FlattenPairs(once);
  }

  lemma {:induction false} FlattenPairs(raw: seq<string>)
    requires Paired(raw)
    ensures Flatten(Pairs(raw)) == raw
  {
    if |raw| == 0 {
    } else {
      FlattenPairs(raw[..|raw| - 2]);
      assert raw == raw[..|raw| - 2] + [raw[|raw| - 2], raw[|raw| - 1]];
    }
  }

  // ----------------------------------------------------------------------- names in full

  /** The headers that describe one connection and are never forwarded. */
  lemma HopByHopNames(name: string)
    ensures name in HOP_BY_HOP
            <==> name in {"connection", "keep-alive", "proxy-authenticate", "proxy-authorization", "proxy-connection",
                          "te", "trailer", "transfer-encoding", "upgrade"}
  {
    assert HOP_BY_HOP[0] == "connection" && HOP_BY_HOP[1] == "keep-alive" && HOP_BY_HOP[2] == "proxy-authenticate";
    assert HOP_BY_HOP[3] == "proxy-authorization" && HOP_BY_HOP[4] == "proxy-connection" && HOP_BY_HOP[5] == "te";
    assert HOP_BY_HOP[6] == "trailer" && HOP_BY_HOP[7] == "transfer-encoding" && HOP_BY_HOP[8] == "upgrade";
  }

  lemma CapitalLowers(k: nat)
    requires k < 26
    ensures LowerChar(UPPER[k]) == LOWER[k]
  {
    LetterAt(k);
  }

  lemma OtherStays(c: char)
    ensures c !in UPPER ==> LowerChar(c) == c
  {
    IsCapital(c);
  }

  /** Lower case replaces each capital by its small letter and nothing else. */
  lemma LowerReads(s: string, i: nat, k: nat)
    requires i < |s| && k < 26
    ensures s[i] !in UPPER ==> Lower(s)[i] == s[i]
    ensures s[i] == UPPER[k] ==> Lower(s)[i] == LOWER[k]
  {
    OtherStays(s[i]);
    CapitalLowers(k);
  }

  /** The names and values alternate in what is forwarded, as they do in what came. */
  lemma PairsRead(raw: seq<string>, k: nat)
    requires Paired(raw) && 2 * k < |raw|
    ensures |Pairs(raw)| * 2 == |raw|
    ensures k < |Pairs(raw)| && Pairs(raw)[k] == (raw[2 * k], raw[2 * k + 1])
  {
    PairsLength(raw);
    if 2 * k < |raw| - 2 {
      PairsRead(raw[..|raw| - 2], k);
    }
  }

  lemma {:induction false} PairsLength(raw: seq<string>)
    requires Paired(raw)
    ensures |Pairs(raw)| * 2 == |raw|
  {
    if |raw| == 0 {
    } else {
      PairsLength(raw[..|raw| - 2]);
    }
  }
}
