/** The ids of `cautions`: React keys, so two notes must never share one. */
module Cautions {
  import opened Seqs
  import opened Text
  import opened AccessConditions

  /** The facts of an explanation that decide which notes it carries. */
  datatype Facts = Facts(
    emptyBasis: bool,
    conclusive: bool,
    complete: bool,
    membershipComplete: bool,
    resourceObserved: bool,
    provenance: AclProvenance,
    hasCycles: bool,
    conditions: seq<string>)

  function ProvenanceName(p: AclProvenance): string {
    match p
    case Observed => "observed"
    case Derived => "derived"
    case Unobserved => "unobserved"
  }

  function Push(ids: seq<string>, on: bool, id: string): seq<string> {
    if on then ids + [id] else ids
  }

  /** The names of the fixed notes, in the order they are pushed. */
  function FixedNames(p: AclProvenance): seq<string> {
    ["empty-basis", "inconclusive", "incomplete-paths", "incomplete-token", "unobserved-resource",
     "provenance-" + ProvenanceName(p), "cycles"]
  }

  function PushAll(f: Facts, names: seq<string>): seq<string>
    requires |names| == 7
  {
    var a := Push([], f.emptyBasis, names[0]);
    var b := Push(a, !f.conclusive, names[1]);
    var c := Push(b, !f.complete, names[2]);
    var d := Push(c, !f.membershipComplete, names[3]);
    var e := Push(d, !f.resourceObserved, names[4]);
    var g := Push(e, f.provenance != Observed, names[5]);
    Push(g, f.hasCycles, names[6])
  }

  function FixedIds(f: Facts): seq<string> {
    PushAll(f, FixedNames(f.provenance))
  }

  /** How often `c` occurs among the first `n` conditions. */
  function Count(conditions: seq<string>, n: nat, c: string): nat
    requires n <= |conditions|
  {
    if n == 0 then 0 else Count(conditions, n - 1, c) + if conditions[n - 1] == c then 1 else 0
  }

  function Numbered(condition: string, occurrence: nat): string {
    if occurrence == 1 then "finding-" + condition
    else "finding-" + condition + "-" + Decimal(occurrence)
  }

  /** The id of the `i`-th warning. */
  function FindingId(conditions: seq<string>, i: nat): string
    requires i < |conditions|
  {
    Numbered(conditions[i], Count(conditions, i + 1, conditions[i]))
  }

  function FindingIds(conditions: seq<string>): (ids: seq<string>)
    ensures |ids| == |conditions|
    ensures forall i :: 0 <= i < |ids| ==> ids[i] == FindingId(conditions, i)
  {
    seq(|conditions|, i requires 0 <= i < |conditions| => FindingId(conditions, i))
  }

  function Ids(f: Facts): seq<string> {
    FixedIds(f) + FindingIds(f.conditions)
  }

  method CautionIds(f: Facts) returns (ids: seq<string>)
    ensures ids == Ids(f)
  {
    ids := [];
    if f.emptyBasis { ids := ids + ["empty-basis"]; }
    if !f.conclusive { ids := ids + ["inconclusive"]; }
    if !f.complete { ids := ids + ["incomplete-paths"]; }
    if !f.membershipComplete { ids := ids + ["incomplete-token"]; }
    if !f.resourceObserved { ids := ids + ["unobserved-resource"]; }
    if f.provenance != Observed { ids := ids + ["provenance-" + ProvenanceName(f.provenance)]; }
    if f.hasCycles { ids := ids + ["cycles"]; }
    ids := NumberFindings(ids, f.conditions);
  }

  /** Number the findings, counting each condition in a map. */
  method NumberFindings(fixed: seq<string>, conditions: seq<string>) returns (ids: seq<string>)
    ensures ids == fixed + FindingIds(conditions)
  {
    ids := fixed;
    var seen: map<string, nat> := map[];
    for i := 0 to |conditions|
      invariant forall c :: (if c in seen then seen[c] else 0) == Count(conditions, i, c)
      invariant ids == fixed + FindingIds(conditions)[..i]
    {
      var condition := conditions[i];
      var occurrence := (if condition in seen then seen[condition] else 0) + 1;
      seen := seen[condition := occurrence];
      ids := ids + [if occurrence == 1 then "finding-" + condition
                    else "finding-" + condition + "-" + Decimal(occurrence)];
    }
  }

  // --------------------------------------------------------------------------- numbering

  lemma {:induction false} CountGrows(conditions: seq<string>, m: nat, n: nat, c: string)
    requires m <= n <= |conditions|
    ensures Count(conditions, m, c) <= Count(conditions, n, c)
  {
    if m == n {
    } else {
      CountGrows(conditions, m, n - 1, c);
    }
  }

  /** A condition that occurs has a first occurrence, which is number one. */
  lemma {:induction false} FirstOccurrence(conditions: seq<string>, j: nat) returns (k: nat)
    requires j < |conditions|
    ensures k <= j && conditions[k] == conditions[j] && Count(conditions, k + 1, conditions[k]) == 1
  {
    if Count(conditions, j, conditions[j]) == 0 {
      k := j;
    } else {
      var i := EarlierOccurrence(conditions, j, conditions[j]);
      k := FirstOccurrence(conditions, i);
    }
  }

  lemma {:induction false} EarlierOccurrence(conditions: seq<string>, n: nat, c: string) returns (i: nat)
    requires n <= |conditions| && Count(conditions, n, c) > 0
    ensures i < n && conditions[i] == c
  {
    if conditions[n - 1] == c {
      i := n - 1;
    } else {
      i := EarlierOccurrence(conditions, n - 1, c);
    }
  }

  /** A numeral holds no hyphen, so the last hyphen of a numbered id is the one before its number. */
  lemma LastHyphen(a: string, x: string, b: string, y: string)
    requires '-' !in x && '-' !in y
    requires a + "-" + x == b + "-" + y
    ensures a == b && x == y
  {
    var s := a + "-" + x;
    assert s[|a|] == '-' && s[|b|] == '-';
    assert forall k :: |a| < k < |s| ==> s[k] == x[k - |a| - 1];
    assert forall k :: |b| < k < |s| ==> s[k] == y[k - |b| - 1];
    assert a == s[..|a|] && b == s[..|b|];
    assert x == s[|a| + 1..] && y == s[|b| + 1..];
  }

  lemma NumeralHasNoHyphen(n: nat)
    ensures '-' !in Decimal(n)
  {
    DecimalDigits(n);
    assert '-' !in DIGITS;
  }

  /** Some condition in the list is spelled like the numbered repeat of another. */
  ghost predicate Shadowed(conditions: seq<string>) {
    exists i, j ::
      && 0 <= i < |conditions| && 0 <= j < |conditions|
      && Count(conditions, i + 1, conditions[i]) >= 2
      && conditions[j] == conditions[i] + "-" + Decimal(Count(conditions, i + 1, conditions[i]))
  }

  /** What follows the common prefix of a finding id. */
  function Suffix(condition: string, occurrence: nat): string {
    if occurrence == 1 then condition else condition + "-" + Decimal(occurrence)
  }

  lemma SuffixDecides(c: string, m: nat, d: string, n: nat)
    ensures Numbered(c, m) == Numbered(d, n) <==> Suffix(c, m) == Suffix(d, n)
  {
    PrefixOfNumbered(c, m);
    PrefixOfNumbered(d, n);
    PrefixCancels("finding-", Suffix(c, m), Suffix(d, n));
  }

  lemma PrefixOfNumbered(c: string, m: nat)
    ensures Numbered(c, m) == "finding-" + Suffix(c, m)
  {
    if m != 1 {
      assert ("finding-" + c) + "-" + Decimal(m) == "finding-" + (c + "-" + Decimal(m));
    }
  }

  lemma PrefixCancels(p: string, x: string, y: string)
    ensures p + x == p + y <==> x == y
  {
    assert (p + x)[|p|..] == x && (p + y)[|p|..] == y;
  }

  lemma SuffixInjective(c: string, m: nat, d: string, n: nat)
    requires m >= 2 && n >= 2 && Suffix(c, m) == Suffix(d, n)
    ensures c == d && m == n
  {
    NumeralHasNoHyphen(m);
    NumeralHasNoHyphen(n);
    LastHyphen(c, Decimal(m), d, Decimal(n));
    DecimalInjective(m, n);
  }

  /** Without a shadow, two findings never share an id. */
  lemma UnshadowedIdsDiffer(conditions: seq<string>, i: nat, j: nat)
    requires !Shadowed(conditions) && i < j < |conditions|
    ensures FindingId(conditions, i) != FindingId(conditions, j)
  {
    var m, n := Count(conditions, i + 1, conditions[i]), Count(conditions, j + 1, conditions[j]);
    CountGrows(conditions, i + 1, j, conditions[i]);
    SuffixDecides(conditions[i], m, conditions[j], n);
    if m >= 2 && n >= 2 && Suffix(conditions[i], m) == Suffix(conditions[j], n) {
      SuffixInjective(conditions[i], m, conditions[j], n);
    }
  }

  /** A shadow makes two findings share an id. */
  lemma ShadowedIdsMeet(conditions: seq<string>) returns (i: nat, k: nat)
    requires Shadowed(conditions)
    ensures i < |conditions| && k < |conditions| && i != k && FindingId(conditions, i) == FindingId(conditions, k)
  {
    var j: nat;
    i, j :|
      && 0 <= i < |conditions| && 0 <= j < |conditions|
      && Count(conditions, i + 1, conditions[i]) >= 2
      && conditions[j] == conditions[i] + "-" + Decimal(Count(conditions, i + 1, conditions[i]));
    k := FirstOccurrence(conditions, j);
    assert |conditions[k]| > |conditions[i]|;
    SuffixDecides(conditions[k], 1, conditions[i], Count(conditions, i + 1, conditions[i]));
  }

  /** The finding ids are pairwise distinct exactly when no condition shadows a numbered repeat. */
  lemma FindingIdsDistinctIff(conditions: seq<string>)
    ensures Distinct(FindingIds(conditions)) <==> !Shadowed(conditions)
  {
    var ids := FindingIds(conditions);
    if Shadowed(conditions) {
      var i, k := ShadowedIdsMeet(conditions);
      assert ids[i] == ids[k];
    } else {
      forall i, j | 0 <= i < j < |ids| ensures ids[i] != ids[j] {
        UnshadowedIdsDiffer(conditions, i, j);
      }
    }
  }

  lemma FindingStarts(conditions: seq<string>, i: nat)
    requires i < |conditions|
    ensures |FindingId(conditions, i)| > 0 && FindingId(conditions, i)[0] == 'f'
  {
    assert "finding-"[0] == 'f';
  }

  lemma PushAllDistinct(f: Facts, names: seq<string>)
    requires |names| == 7 && Distinct(names)
    ensures Distinct(PushAll(f, names))
    ensures forall s :: s in PushAll(f, names) ==> s in names
  {
    var a := Push([], f.emptyBasis, names[0]);
    var b := Push(a, !f.conclusive, names[1]);
    var c := Push(b, !f.complete, names[2]);
    var d := Push(c, !f.membershipComplete, names[3]);
    var e := Push(d, !f.resourceObserved, names[4]);
    var g := Push(e, f.provenance != Observed, names[5]);
    PushDistinct([], f.emptyBasis, names, 0);
    PushDistinct(a, !f.conclusive, names, 1);
    PushDistinct(b, !f.complete, names, 2);
    PushDistinct(c, !f.membershipComplete, names, 3);
    PushDistinct(d, !f.resourceObserved, names, 4);
    PushDistinct(e, f.provenance != Observed, names, 5);
    PushDistinct(g, f.hasCycles, names, 6);
  }

  lemma PushDistinct(ids: seq<string>, on: bool, names: seq<string>, k: nat)
    requires k < |names| && Distinct(names) && Distinct(ids) && forall s :: s in ids ==> s in names[..k]
    ensures Distinct(Push(ids, on, names[k]))
    ensures forall s :: s in Push(ids, on, names[k]) ==> s in names[..k + 1]
  {
    assert names[..k + 1] == names[..k] + [names[k]];
    assert names[k] !in names[..k];
    assert forall i :: 0 <= i < |ids| ==> ids[i] in ids;
  }

  lemma FixedNamesDistinct(p: AclProvenance)
    ensures Distinct(FixedNames(p))
    ensures forall s :: s in FixedNames(p) ==> |s| > 0 && s[0] != 'f'
  {
    assert "incomplete-paths"[11] == 'p' && "incomplete-token"[11] == 't';
    assert "unobserved-resource"[0] == 'u' && "provenance-"[0] == 'p';
    var s := FixedNames(p);
    assert s[5][0] == 'p' && |s[5]| in {18, 19, 21};
  }

  /** Distinct fixed ids that cannot be finding ids leave the question to the findings. */
  lemma DistinctBesideFindings(fixed: seq<string>, conditions: seq<string>)
    requires Distinct(fixed) && forall s :: s in fixed ==> |s| > 0 && s[0] != 'f'
    ensures Distinct(fixed + FindingIds(conditions)) <==> !Shadowed(conditions)
  {
    FindingIdsDistinctIff(conditions);
    forall x | x in fixed ensures x !in FindingIds(conditions) {
      forall i | 0 <= i < |conditions| ensures FindingIds(conditions)[i] != x {
        FindingStarts(conditions, i);
      }
    }
    DistinctConcat(fixed, FindingIds(conditions));
  }

  /**
   * The whole list of caution ids is pairwise distinct exactly when no finding's condition is
   * spelled like another condition's numbered repeat.
   */
  lemma CautionIdsDistinctIff(f: Facts)
    ensures Distinct(Ids(f)) <==> !Shadowed(f.conditions)
  {
    FixedNamesDistinct(f.provenance);
    PushAllDistinct(f, FixedNames(f.provenance));
    DistinctBesideFindings(FixedIds(f), f.conditions);
  }

  /** Condition names without a hyphen never shadow one another. */
  lemma HyphenFreeIdsDistinct(f: Facts)
    requires forall c :: c in f.conditions ==> '-' !in c
    ensures Distinct(Ids(f))
  {
    CautionIdsDistinctIff(f);
    var cs := f.conditions;
    forall i, j | 0 <= i < |cs| && 0 <= j < |cs|
      ensures cs[j] != cs[i] + "-" + Decimal(Count(cs, i + 1, cs[i]))
    {
      assert (cs[i] + "-" + Decimal(Count(cs, i + 1, cs[i])))[|cs[i]|] == '-';
      assert cs[j] in cs;
    }
  }

  function WireFun(): AccessCondition -> string {
    c => WireName(c)
  }

  /** So the keys are distinct for every list of findings the engine can send. */
  lemma EngineFindingIdsDistinct(f: Facts, findings: seq<AccessCondition>)
    requires f.conditions == Map(WireFun(), findings)
    ensures Distinct(Ids(f))
  {
    forall c | c in f.conditions ensures '-' !in c {
      var i :| 0 <= i < |findings| && f.conditions[i] == c;
      WireNamesHyphenFree(findings[i]);
    }
    HyphenFreeIdsDistinct(f);
  }

  /** Names with hyphens can collide: a repeated "a" beside one "a-2". */
  lemma HyphenatedIdsCollide()
    ensures FindingIds(["a", "a", "a-2"])[1] == FindingIds(["a", "a", "a-2"])[2]
    ensures !Distinct(FindingIds(["a", "a", "a-2"]))
  {
    var cs := ["a", "a", "a-2"];
    assert Count(cs, 1, "a") == 1 && Count(cs, 2, "a") == 2;
    assert Count(cs, 1, "a-2") == 0 && Count(cs, 2, "a-2") == 0 && Count(cs, 3, "a-2") == 1;
    assert Decimal(2) == "2";
    assert "finding-" + "a" + "-" + "2" == "finding-" + "a-2";
  }

  // ------------------------------------------------------------------- which notes there are

  lemma PushIff(ids: seq<string>, on: bool, id: string, x: string)
    ensures x in Push(ids, on, id) <==> x in ids || (on && x == id)
  {
  }

  /** Each fixed note is there exactly when its fact is. */
  lemma NotesFit(f: Facts, id: string)
    ensures id in FixedIds(f)
            <==> || (id == "empty-basis" && f.emptyBasis)
                 || (id == "inconclusive" && !f.conclusive)
                 || (id == "incomplete-paths" && !f.complete)
                 || (id == "incomplete-token" && !f.membershipComplete)
                 || (id == "unobserved-resource" && !f.resourceObserved)
                 || (id == "provenance-derived" && f.provenance == Derived)
                 || (id == "provenance-unobserved" && f.provenance == Unobserved)
                 || (id == "cycles" && f.hasCycles)
  {
    PushedIff(f, FixedNames(f.provenance), id);
    assert "provenance-" + "derived" == "provenance-derived";
    assert "provenance-" + "unobserved" == "provenance-unobserved";
  }

  lemma PushedIff(f: Facts, names: seq<string>, id: string)
    requires |names| == 7
    ensures id in PushAll(f, names)
            <==> || (f.emptyBasis && id == names[0]) || (!f.conclusive && id == names[1])
                 || (!f.complete && id == names[2]) || (!f.membershipComplete && id == names[3])
                 || (!f.resourceObserved && id == names[4]) || (f.provenance != Observed && id == names[5])
                 || (f.hasCycles && id == names[6])
  {
    var a := Push([], f.emptyBasis, names[0]);
    var b := Push(a, !f.conclusive, names[1]);
    var c := Push(b, !f.complete, names[2]);
    var d := Push(c, !f.membershipComplete, names[3]);
    var e := Push(d, !f.resourceObserved, names[4]);
    var g := Push(e, f.provenance != Observed, names[5]);
    PushIff([], f.emptyBasis, names[0], id);
    PushIff(a, !f.conclusive, names[1], id);
    PushIff(b, !f.complete, names[2], id);
    PushIff(c, !f.membershipComplete, names[3], id);
    PushIff(d, !f.resourceObserved, names[4], id);
    PushIff(e, f.provenance != Observed, names[5], id);
    PushIff(g, f.hasCycles, names[6], id);
  }

  lemma {:induction false} CountIsMultiplicity(conditions: seq<string>, n: nat, c: string)
    requires n <= |conditions|
    ensures Count(conditions, n, c) == multiset(conditions[..n])[c]
  {
    if n == 0 {
    } else {
      CountIsMultiplicity(conditions, n - 1, c);
      assert conditions[..n] == conditions[..n - 1] + [conditions[n - 1]];
    }
  }

  /** A finding's id is its condition, and for a repeat which occurrence it is. */
  lemma FindingIdReads(conditions: seq<string>, i: nat)
    requires i < |conditions|
    ensures var c := conditions[i];
            && (c !in conditions[..i] ==> FindingIds(conditions)[i] == "finding-" + c)
            && (c in conditions[..i] ==>
                  FindingIds(conditions)[i] == "finding-" + c + "-" + Decimal(multiset(conditions[..i])[c] + 1))
  {
    CountIsMultiplicity(conditions, i + 1, conditions[i]);
    assert conditions[..i + 1] == conditions[..i] + [conditions[i]];
  }
}
