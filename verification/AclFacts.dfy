/** What one walk over a DACL decides, right by right. */
module AclFacts {
  import opened Options
  import opened Seqs
  import opened AclWalk
  import opened AccessConditions

  /** The entry at `k` takes part for this token and names the right `r`. */
  ghost predicate Names(entries: seq<AclEntry>, token: TokenView, owner: Option<TokenSid>, k: int, r: Right) {
    0 <= k < |entries| && Applies(entries[k], token, owner) && r in ExpandGenerics(entries[k].mask)
  }

  /** The first entry that names the right `r` is the one at `k`. */
  ghost predicate NamesFirst(entries: seq<AclEntry>, token: TokenView, owner: Option<TokenSid>, k: int, r: Right) {
    Names(entries, token, owner, k, r) && forall j :: 0 <= j < k ==> !Names(entries, token, owner, j, r)
  }

  /** The masks alone, over the entries that take part. */
  function MasksOver(entries: seq<AclEntry>, token: TokenView, owner: Option<TokenSid>): Masks {
    if |entries| == 0 then Masks({}, {}, {}, {})
    else
      var n := |entries| - 1;
      var m := MasksOver(entries[..n], token, owner);
      if Applies(entries[n], token, owner) then SettleMasks(entries[n], m) else m
  }

  lemma MasksSnoc(entries: seq<AclEntry>, e: AclEntry, token: TokenView, owner: Option<TokenSid>)
    ensures var m := MasksOver(entries, token, owner);
            MasksOver(entries + [e], token, owner) == if Applies(e, token, owner) then SettleMasks(e, m) else m
  {
    assert (entries + [e])[..|entries|] == entries;
  }

  lemma {:induction false} WalkMasks(
    entries: seq<AclEntry>, token: TokenView, owner: Option<TokenSid>, notes: seq<AccessCondition>)
    ensures WalkOver(entries, token, owner, notes).masks == MasksOver(entries, token, owner)
  {
    if |entries| == 0 {
    } else {
      WalkMasks(entries[..|entries| - 1], token, owner, notes);
    }
  }

  /** The first entry naming `r` exists and is an Allow (`allow`) or a Deny (`!allow`). */
  ghost predicate FirstIs(entries: seq<AclEntry>, token: TokenView, owner: Option<TokenSid>, r: Right, allow: bool) {
    exists k :: NamesFirst(entries, token, owner, k, r) && entries[k].allow == allow
  }

  lemma {:induction false} FirstExists(
    entries: seq<AclEntry>, token: TokenView, owner: Option<TokenSid>, j: nat, r: Right)
    returns (k: nat)
    requires Names(entries, token, owner, j, r)
    ensures k <= j && NamesFirst(entries, token, owner, k, r)
  {
    if i :| 0 <= i < j && Names(entries, token, owner, i, r) {
      k := FirstExists(entries, token, owner, i, r);
    } else {
      k := j;
    }
  }

  lemma FirstIsExtend(entries: seq<AclEntry>, token: TokenView, owner: Option<TokenSid>, r: Right, allow: bool)
    requires |entries| > 0
    ensures var n := |entries| - 1;
            FirstIs(entries, token, owner, r, allow) <==>
              || FirstIs(entries[..n], token, owner, r, allow)
              || (&& !FirstIs(entries[..n], token, owner, r, true) && !FirstIs(entries[..n], token, owner, r, false)
                  && Names(entries, token, owner, n, r) && entries[n].allow == allow)
  {
    var n := |entries| - 1;
    var p := entries[..n];
    assert forall j :: 0 <= j < n ==> Names(entries, token, owner, j, r) == Names(p, token, owner, j, r);
    forall k | 0 <= k < n
      ensures NamesFirst(entries, token, owner, k, r) <==> NamesFirst(p, token, owner, k, r)
    {
    }
    if j :| 0 <= j < n && Names(p, token, owner, j, r) {
      var k := FirstExists(p, token, owner, j, r);
      assert NamesFirst(entries, token, owner, k, r);
      assert FirstIs(p, token, owner, r, p[k].allow);
      assert forall i :: NamesFirst(entries, token, owner, i, r) ==> i == k;
      assert forall i :: NamesFirst(p, token, owner, i, r) ==> i == k;
    } else {
      assert forall b :: !FirstIs(p, token, owner, r, b);
      assert forall i :: NamesFirst(entries, token, owner, i, r) ==> i == n;
      assert Names(entries, token, owner, n, r) ==> NamesFirst(entries, token, owner, n, r);
    }
  }

  lemma {:induction false} FirstMatchDecidesMasks(
    entries: seq<AclEntry>, token: TokenView, owner: Option<TokenSid>, r: Right)
    ensures r in MasksOver(entries, token, owner).granted <==> FirstIs(entries, token, owner, r, true)
    ensures r in MasksOver(entries, token, owner).denied <==> FirstIs(entries, token, owner, r, false)
  {
    if |entries| == 0 {
    } else {
      FirstMatchDecidesMasks(entries[..|entries| - 1], token, owner, r);
      FirstIsExtend(entries, token, owner, r, true);
      FirstIsExtend(entries, token, owner, r, false);
    }
  }

  /**
   * First match wins, right by right: a right is granted exactly when the first entry that names
   * it is an Allow, and denied exactly when that entry is a Deny.
   */
  lemma FirstMatchDecides(
    entries: seq<AclEntry>, token: TokenView, owner: Option<TokenSid>, notes: seq<AccessCondition>, r: Right)
    ensures r in WalkOver(entries, token, owner, notes).masks.granted <==> FirstIs(entries, token, owner, r, true)
    ensures r in WalkOver(entries, token, owner, notes).masks.denied <==> FirstIs(entries, token, owner, r, false)
  {
    WalkMasks(entries, token, owner, notes);
    FirstMatchDecidesMasks(entries, token, owner, r);
  }

  /** Some entry names `r` and is an Allow (`allow`) or a Deny (`!allow`). */
  ghost predicate SomeNames(entries: seq<AclEntry>, token: TokenView, owner: Option<TokenSid>, r: Right, allow: bool) {
    exists k :: Names(entries, token, owner, k, r) && entries[k].allow == allow
  }

  lemma SomeNamesExtend(entries: seq<AclEntry>, token: TokenView, owner: Option<TokenSid>, r: Right, allow: bool)
    requires |entries| > 0
    ensures var n := |entries| - 1;
            SomeNames(entries, token, owner, r, allow) <==>
              SomeNames(entries[..n], token, owner, r, allow)
              || (Names(entries, token, owner, n, r) && entries[n].allow == allow)
  {
    var n := |entries| - 1;
    assert forall j :: 0 <= j < n ==> Names(entries, token, owner, j, r) == Names(entries[..n], token, owner, j, r);
  }

  lemma {:induction false} UnionsNamed(entries: seq<AclEntry>, token: TokenView, owner: Option<TokenSid>, r: Right)
    ensures r in MasksOver(entries, token, owner).allowUnion <==> SomeNames(entries, token, owner, r, true)
    ensures r in MasksOver(entries, token, owner).denyUnion <==> SomeNames(entries, token, owner, r, false)
  {
    if |entries| == 0 {
    } else {
      UnionsNamed(entries[..|entries| - 1], token, owner, r);
      SomeNamesExtend(entries, token, owner, r, true);
      SomeNamesExtend(entries, token, owner, r, false);
    }
  }

  // -------------------------------------------------------------------- order dependence

  /** An Allow settled `r` ahead of a Deny that names it too. */
  ghost predicate AllowBeatsDeny(entries: seq<AclEntry>, token: TokenView, owner: Option<TokenSid>, r: Right) {
    FirstIs(entries, token, owner, r, true) && SomeNames(entries, token, owner, r, false)
  }

  /** The walk and the canonical model differ exactly by the rights an Allow won by its place. */
  lemma CanonicalGap(entries: seq<AclEntry>, token: TokenView, owner: Option<TokenSid>, r: Right)
    ensures var m := MasksOver(entries, token, owner);
            && (r in m.allowUnion - m.denyUnion ==> r in m.granted)
            && (r in m.granted && r !in m.allowUnion - m.denyUnion <==> AllowBeatsDeny(entries, token, owner, r))
  {
    FirstMatchDecidesMasks(entries, token, owner, r);
    UnionsNamed(entries, token, owner, r);
    if j :| Names(entries, token, owner, j, r) {
      var k := FirstExists(entries, token, owner, j, r);
      assert FirstIs(entries, token, owner, r, entries[k].allow);
    }
  }

  /** The walk adds only findings about single entries to those it starts with. */
  lemma {:induction false} WalkFindings(
    entries: seq<AclEntry>, token: TokenView, owner: Option<TokenSid>, notes: seq<AccessCondition>)
    ensures forall f :: f in WalkOver(entries, token, owner, notes).findings ==>
              f in notes || f == GenericRightsExpanded || f == CreatorOwnerAce || f == LogonTypeTrustee
  {
    if |entries| == 0 {
    } else {
      WalkFindings(entries[..|entries| - 1], token, owner, notes);
    }
  }

  lemma OrderFinding(entries: seq<AclEntry>, token: TokenView, layer: RightsLayer, facts: DaclFacts)
    requires Evaluate(entries, token, layer, facts).Ok? && facts.daclPresent
    ensures var eval := Evaluate(entries, token, layer, facts).value;
            OrderDependentResult in eval.findings <==> eval.canonicalRights != Some(eval.rights)
  {
    var owner := OwnerOf(token, facts);
    var (ownerRights, notes) := OwnerRights(owner, facts, Considered(entries));
    WalkFindings(Considered(entries), token, owner, notes);
  }

  /**
   * The finding that the stored order changed the answer is raised exactly when an Allow ahead of
   * a Deny won some right that ownership does not give anyway.
   */
  lemma OrderDependentIff(entries: seq<AclEntry>, token: TokenView, layer: RightsLayer, facts: DaclFacts)
    requires Evaluate(entries, token, layer, facts).Ok? && facts.daclPresent
    ensures var owner := OwnerOf(token, facts);
            var extra := OwnerRights(owner, facts, Considered(entries)).0.GetOr({});
            var eval := Evaluate(entries, token, layer, facts).value;
            && (OrderDependentResult in eval.findings <==> eval.canonicalRights != Some(eval.rights))
            && (OrderDependentResult in eval.findings
                <==> exists r :: AllowBeatsDeny(Considered(entries), token, owner, r) && r !in extra)
  {
    var owner := OwnerOf(token, facts);
    var (ownerRights, notes) := OwnerRights(owner, facts, Considered(entries));
    var es := Considered(entries);
    OrderFinding(entries, token, layer, facts);
    WalkMasks(es, token, owner, notes);
    GapUnderExtra(es, token, owner, ownerRights.GetOr({}));
  }

  lemma GapUnderExtra(es: seq<AclEntry>, token: TokenView, owner: Option<TokenSid>, extra: Mask)
    ensures var m := MasksOver(es, token, owner);
            m.granted + extra != (m.allowUnion - m.denyUnion) + extra
            <==> exists r :: AllowBeatsDeny(es, token, owner, r) && r !in extra
  {
    var m := MasksOver(es, token, owner);
    forall r: Right
      ensures r in m.granted && r !in m.allowUnion - m.denyUnion <==> AllowBeatsDeny(es, token, owner, r)
      ensures r in m.allowUnion - m.denyUnion ==> r in m.granted
    {
      CanonicalGap(es, token, owner, r);
    }
    var rights, canonical := m.granted + extra, (m.allowUnion - m.denyUnion) + extra;
    assert canonical <= rights;
    if rights != canonical {
      assert !(rights <= canonical);
      var r :| r in rights && r !in canonical;
      assert AllowBeatsDeny(es, token, owner, r) && r !in extra;
    }
    if r :| AllowBeatsDeny(es, token, owner, r) && r !in extra {
      assert r in rights && r !in canonical;
    }
  }

  /**
   * Where no order violation is reported, the only Deny an Allow can have beaten by its place is an
   * inherited one: the check of the order does not look inside the inherited entries.
   */
  lemma OnlyInheritedDeniesLose(
    entries: seq<AclEntry>, token: TokenView, owner: Option<TokenSid>, notes: seq<AccessCondition>, r: Right)
    requires !OrderViolated(entries)
    ensures var m := WalkOver(entries, token, owner, notes).masks;
            r in m.granted && r !in m.allowUnion - m.denyUnion ==>
              forall j :: Names(entries, token, owner, j, r) && !entries[j].allow ==> entries[j].inherited
  {
    WalkMasks(entries, token, owner, notes);
    CanonicalGap(entries, token, owner, r);
    if AllowBeatsDeny(entries, token, owner, r) {
      var k :| NamesFirst(entries, token, owner, k, r) && entries[k].allow;
      forall j | Names(entries, token, owner, j, r) && !entries[j].allow ensures entries[j].inherited {
        assert k < j;
      }
    }
  }

  /** An inherited Deny names a right that an Allow ahead of it had already given. */
  ghost predicate InheritedDenyLoses(entries: seq<AclEntry>, token: TokenView, owner: Option<TokenSid>, r: Right) {
    && FirstIs(entries, token, owner, r, true)
    && exists k :: Names(entries, token, owner, k, r) && !entries[k].allow && entries[k].inherited
  }

  lemma BeatenIsInherited(entries: seq<AclEntry>, token: TokenView, owner: Option<TokenSid>, r: Right)
    requires !OrderViolated(entries)
    ensures AllowBeatsDeny(entries, token, owner, r) <==> InheritedDenyLoses(entries, token, owner, r)
  {
    CanonicalGap(entries, token, owner, r);
    OnlyInheritedDeniesLose(entries, token, owner, [], r);
    WalkMasks(entries, token, owner, []);
  }

  /**
   * The canonical model is documented as exact for a DACL in the order Windows maintains. Where no
   * order violation is reported, walked and canonical masks agree exactly when no inherited Deny
   * names a right that is first named by an Allow.
   */
  lemma CanonicalOrderAgreesIff(
    entries: seq<AclEntry>, token: TokenView, owner: Option<TokenSid>, notes: seq<AccessCondition>)
    requires !OrderViolated(entries)
    ensures var m := WalkOver(entries, token, owner, notes).masks;
            m.granted == m.allowUnion - m.denyUnion <==> forall r :: !InheritedDenyLoses(entries, token, owner, r)
  {
    WalkMasks(entries, token, owner, notes);
    var m := MasksOver(entries, token, owner);
    forall r: Right
      ensures r in m.allowUnion - m.denyUnion ==> r in m.granted
      ensures r in m.granted && r !in m.allowUnion - m.denyUnion <==> InheritedDenyLoses(entries, token, owner, r)
    {
      CanonicalGap(entries, token, owner, r);
      BeatenIsInherited(entries, token, owner, r);
    }
    assert m.granted == m.allowUnion - m.denyUnion
           <==> forall r: Right :: r in m.granted ==> r in m.allowUnion - m.denyUnion;
  }

  lemma OrderReported(entries: seq<AclEntry>, token: TokenView, layer: RightsLayer, facts: DaclFacts)
    requires Evaluate(entries, token, layer, facts).Ok? && facts.daclPresent
    ensures NonCanonicalDacl in Evaluate(entries, token, layer, facts).value.findings
            <==> OrderViolated(Considered(entries))
  {
    var owner := OwnerOf(token, facts);
    WalkFindings(Considered(entries), token, owner, OwnerRights(owner, facts, Considered(entries)).1);
  }

  /**
   * An answer the order changed is documented as one whose ACL is not in canonical order. It comes
   * without the finding that says so exactly when the order is not violated and an inherited Deny
   * lost a right that ownership does not give anyway.
   */
  lemma OrderDependentUnreportedIff(
    entries: seq<AclEntry>, token: TokenView, layer: RightsLayer, facts: DaclFacts)
    requires Evaluate(entries, token, layer, facts).Ok? && facts.daclPresent
    ensures var es := Considered(entries);
            var owner := OwnerOf(token, facts);
            var extra := OwnerRights(owner, facts, es).0.GetOr({});
            var findings := Evaluate(entries, token, layer, facts).value.findings;
            OrderDependentResult in findings && NonCanonicalDacl !in findings
            <==> !OrderViolated(es) && exists r :: InheritedDenyLoses(es, token, owner, r) && r !in extra
  {
    OrderReported(entries, token, layer, facts);
    OrderDependentIff(entries, token, layer, facts);
    if !OrderViolated(Considered(entries)) {
      forall r: Right
        ensures AllowBeatsDeny(Considered(entries), token, OwnerOf(token, facts), r)
                <==> InheritedDenyLoses(Considered(entries), token, OwnerOf(token, facts), r)
      {
        BeatenIsInherited(Considered(entries), token, OwnerOf(token, facts), r);
      }
    }
  }

  // ------------------------------------------------------------------- credited evidence

  /** `aces` account for `mask`: each took a part of it, and together they took all of it. */
  ghost predicate Accounts(aces: seq<AppliedAce>, mask: Mask) {
    && (forall a :: a in aces ==> a.contributed != {} && a.contributed <= mask)
    && (forall r :: r in mask ==> InSome(aces, r))
  }

  ghost predicate InSome(aces: seq<AppliedAce>, r: Right) {
    exists a :: a in aces && r in a.contributed
  }

  /**
   * The evidence accounts for the answer: the credited Allows gave exactly the granted rights, the
   * credited Denies took exactly the denied ones, no right is both, and a superseded entry took
   * nothing.
   */
  lemma {:induction false} EvidenceAccounts(
    entries: seq<AclEntry>, token: TokenView, owner: Option<TokenSid>, notes: seq<AccessCondition>)
    ensures var w := WalkOver(entries, token, owner, notes);
            && w.masks.granted !! w.masks.denied
            && Accounts(w.grantedBy, w.masks.granted)
            && Accounts(w.deniedBy, w.masks.denied)
            && (forall a :: a in w.superseded ==> a.contributed == {})
  {
    if |entries| == 0 {
    } else {
      var n := |entries| - 1;
      EvidenceAccounts(entries[..n], token, owner, notes);
      var w := WalkOver(entries[..n], token, owner, notes);
      var e := entries[n];
      if Applies(e, token, owner) {
        var taken := Contribution(e, w.masks);
        var ace := AppliedAce(e, Match(e, token, owner).value, n, ExpandGenerics(e.mask), taken);
        if taken != {} {
          AccountsGrow(if e.allow then w.grantedBy else w.deniedBy,
                       if e.allow then w.masks.granted else w.masks.denied, ace);
        }
      }
    }
  }

  /**
   * The same of an evaluation, ownership included: its rights are what the credited Allows gave and
   * what ownership adds, and a right a Deny took is had again only through ownership.
   */
  lemma EvaluationAccounts(entries: seq<AclEntry>, token: TokenView, layer: RightsLayer, facts: DaclFacts)
    requires Evaluate(entries, token, layer, facts).Ok? && facts.daclPresent
    ensures var eval := Evaluate(entries, token, layer, facts).value;
            var extra := eval.ownerRights.GetOr({});
            && (forall r :: r in eval.rights <==> InSome(eval.grantedBy, r) || r in extra)
            && (forall r :: InSome(eval.deniedBy, r) && r in eval.rights ==> r in extra)
            && (forall r :: !(InSome(eval.grantedBy, r) && InSome(eval.deniedBy, r)))
            && (forall a :: a in eval.grantedBy + eval.deniedBy ==> a.contributed != {})
            && (forall a :: a in eval.superseded ==> a.contributed == {})
  {
    var owner := OwnerOf(token, facts);
    var (extra, notes) := OwnerRights(owner, facts, Considered(entries));
    var w := WalkOver(Considered(entries), token, owner, notes);
    EvidenceAccounts(Considered(entries), token, owner, notes);
    AccountedIff(w.grantedBy, w.masks.granted);
    AccountedIff(w.deniedBy, w.masks.denied);
  }

  lemma AccountedIff(aces: seq<AppliedAce>, mask: Mask)
    requires Accounts(aces, mask)
    ensures forall r :: r in mask <==> InSome(aces, r)
  {
  }

  lemma AccountsGrow(aces: seq<AppliedAce>, mask: Mask, ace: AppliedAce)
    requires Accounts(aces, mask) && ace.contributed != {}
    ensures Accounts(aces + [ace], mask + ace.contributed)
  {
    forall r | r in mask + ace.contributed ensures InSome(aces + [ace], r) {
      if r in mask {
        assert InSome(aces, r);
        var a :| a in aces && r in a.contributed;
        assert a in aces + [ace];
      } else {
        assert ace in aces + [ace];
      }
    }
    forall a | a in aces + [ace] ensures a.contributed != {} && a.contributed <= mask + ace.contributed {
      assert a in aces || a == ace;
    }
  }

  // ---------------------------------------------------------------------------- removal

  function Without(entries: seq<AclEntry>, p: nat): seq<AclEntry>
    requires p < |entries|
  {
    entries[..p] + entries[p + 1..]
  }

  lemma {:induction false} SupersededTookNothing(
    entries: seq<AclEntry>, token: TokenView, owner: Option<TokenSid>, notes: seq<AccessCondition>, a: AppliedAce)
    requires a in WalkOver(entries, token, owner, notes).superseded
    ensures a.position < |entries| && a.entry == entries[a.position]
    ensures Contribution(a.entry, MasksOver(entries[..a.position], token, owner)) == {}
  {
    var n := |entries| - 1;
    if a in WalkOver(entries[..n], token, owner, notes).superseded {
      SupersededTookNothing(entries[..n], token, owner, notes, a);
      assert entries[..n][..a.position] == entries[..a.position];
    } else {
      WalkMasks(entries[..n], token, owner, notes);
    }
  }

  /** Deleting a superseded entry leaves the masks of the walk, ownership held fixed. */
  lemma SupersededKeepsMasks(
    entries: seq<AclEntry>, token: TokenView, owner: Option<TokenSid>, notes: seq<AccessCondition>, a: AppliedAce)
    requires a in WalkOver(entries, token, owner, notes).superseded
    ensures a.position < |entries|
    ensures Applies(entries[a.position], token, owner)
    ensures MasksOver(Without(entries, a.position), token, owner).granted == MasksOver(entries, token, owner).granted
    ensures MasksOver(Without(entries, a.position), token, owner).denied == MasksOver(entries, token, owner).denied
  {
    SupersededTookNothing(entries, token, owner, notes, a);
    RemovalKeepsMasks(entries, token, owner, a.position);
  }

  /** An entry that takes part names OWNER RIGHTS, so ownership gives nothing by itself. */
  ghost predicate NamesOwner(entries: seq<AclEntry>, k: int) {
    0 <= k < |entries| && NamesOwnerRights(entries[k]) && !entries[k].inheritOnly
  }

  /** The token holds the owner of a resource whose owner was read. */
  predicate HoldsOwner(token: TokenView, facts: DaclFacts) {
    facts.ownerSid.Some? && OwnerOf(token, facts).Some?
  }

  /** What ownership gives outside the DACL. */
  function Implied(entries: seq<AclEntry>, token: TokenView, facts: DaclFacts): Mask {
    OwnerRights(OwnerOf(token, facts), facts, entries).0.GetOr({})
  }

  lemma ImpliedIff(entries: seq<AclEntry>, token: TokenView, facts: DaclFacts)
    ensures Implied(entries, token, facts)
            == if HoldsOwner(token, facts) && forall k :: !NamesOwner(entries, k) then OWNER_IMPLICIT_RIGHTS else {}
  {
    if k :| NamesOwner(entries, k) {
      assert entries[k] in entries;
    }
    if e :| e in entries && NamesOwnerRights(e) && !e.inheritOnly {
      var k :| 0 <= k < |entries| && entries[k] == e;
      assert NamesOwner(entries, k);
    }
  }

  /** The rights an evaluation of a present DACL gives: those of the walk, and those of ownership. */
  lemma RightsOf(entries: seq<AclEntry>, token: TokenView, layer: RightsLayer, facts: DaclFacts)
    requires facts.daclPresent && Evaluate(entries, token, layer, facts).Ok?
    ensures Evaluate(entries, token, layer, facts).value.rights
            == MasksOver(Considered(entries), token, OwnerOf(token, facts)).granted
               + Implied(Considered(entries), token, facts)
  {
    var owner := OwnerOf(token, facts);
    WalkMasks(Considered(entries), token, owner, OwnerRights(owner, facts, Considered(entries)).1);
  }

  /** The entry behind the cut, which a deletion ahead of it brings into the walk. */
  function BehindTheCut(entries: seq<AclEntry>): seq<AclEntry> {
    if |entries| > MAX_ACL_ENTRIES then [entries[MAX_ACL_ENTRIES]] else []
  }

  lemma PrefixWithout(entries: seq<AclEntry>, p: nat, n: nat)
    requires p < n < |entries|
    ensures Without(entries, p)[..n] == Without(entries[..n], p) + [entries[n]]
  {
    var left, right := Without(entries, p)[..n], Without(entries[..n], p) + [entries[n]];
    assert |left| == |right| == n;
    forall k | 0 <= k < n ensures left[k] == right[k] {
      assert left[k] == if k < p then entries[k] else entries[k + 1];
    }
  }

  lemma ConsideredWithout(entries: seq<AclEntry>, p: nat)
    requires p < |Considered(entries)|
    ensures Considered(Without(entries, p)) == Without(Considered(entries), p) + BehindTheCut(entries)
  {
    if |entries| > MAX_ACL_ENTRIES {
      var all := Without(entries, p);
      PrefixWithout(entries, p, MAX_ACL_ENTRIES);
      if |all| == MAX_ACL_ENTRIES {
        assert all[..MAX_ACL_ENTRIES] == all;
      }
    }
  }

  /** The entry behind the cut gives `r`: it applies, allows it, and no considered entry denied it first. */
  ghost predicate Brings(entries: seq<AclEntry>, token: TokenView, owner: Option<TokenSid>, r: Right) {
    && |entries| > MAX_ACL_ENTRIES && entries[MAX_ACL_ENTRIES].allow
    && Names(entries, token, owner, MAX_ACL_ENTRIES, r)
    && !FirstIs(Considered(entries), token, owner, r, false)
  }

  /** What it adds to the masks of the walk. */
  function Brought(entries: seq<AclEntry>, token: TokenView, owner: Option<TokenSid>): Mask {
    if |entries| > MAX_ACL_ENTRIES && entries[MAX_ACL_ENTRIES].allow && Applies(entries[MAX_ACL_ENTRIES], token, owner)
    then ExpandGenerics(entries[MAX_ACL_ENTRIES].mask) - MasksOver(Considered(entries), token, owner).denied
    else {}
  }

  lemma BroughtIff(entries: seq<AclEntry>, token: TokenView, owner: Option<TokenSid>, r: Right)
    ensures r in Brought(entries, token, owner) <==> Brings(entries, token, owner, r)
  {
    FirstMatchDecidesMasks(Considered(entries), token, owner, r);
  }

  lemma RemovalResolves(entries: seq<AclEntry>, token: TokenView, layer: RightsLayer, facts: DaclFacts, p: nat)
    requires Evaluate(entries, token, layer, facts).Ok? && p < |entries|
    ensures Evaluate(Without(entries, p), token, layer, facts).Ok?
  {
    forall e | e in Without(entries, p) ensures e in entries {
      assert e in entries[..p] || e in entries[p + 1..];
    }
  }

  /** The rights after a superseded entry is deleted, ownership and the cut taken into account. */
  lemma RightsAfterRemoval(
    entries: seq<AclEntry>, token: TokenView, layer: RightsLayer, facts: DaclFacts, a: AppliedAce)
    requires facts.daclPresent && Evaluate(entries, token, layer, facts).Ok?
    requires a in Evaluate(entries, token, layer, facts).value.superseded
    ensures a.position < |Considered(entries)| <= |entries|
    ensures !Considered(entries)[a.position].inheritOnly
    ensures Evaluate(Without(entries, a.position), token, layer, facts).Ok?
    ensures Evaluate(Without(entries, a.position), token, layer, facts).value.rights
            == MasksOver(Considered(entries), token, OwnerOf(token, facts)).granted
               + Brought(entries, token, OwnerOf(token, facts))
               + Implied(Considered(Without(entries, a.position)), token, facts)
  {
    var owner := OwnerOf(token, facts);
    var es := Considered(entries);
    SupersededKeepsMasks(es, token, owner, OwnerRights(owner, facts, es).1, a);
    RemovalResolves(entries, token, layer, facts, a.position);
    RightsOf(Without(entries, a.position), token, layer, facts);
    ConsideredWithout(entries, a.position);
    if |entries| > MAX_ACL_ENTRIES {
      MasksSnoc(Without(es, a.position), entries[MAX_ACL_ENTRIES], token, owner);
    } else {
      assert Without(es, a.position) + [] == Without(es, a.position);
    }
  }

  /**
   * The entry at `p` is the only one that keeps ownership from giving its rights, and some of them
   * are not had otherwise.
   */
  ghost predicate HoldsBackOwner(entries: seq<AclEntry>, token: TokenView, facts: DaclFacts, p: nat) {
    && HoldsOwner(token, facts)
    && NamesOwner(entries, p) && (forall k :: NamesOwner(entries, k) ==> k == p)
    && exists r :: r in OWNER_IMPLICIT_RIGHTS && !FirstIs(entries, token, OwnerOf(token, facts), r, true)
  }

  /**
   * A superseded entry is documented as one whose removal changes nothing. On a DACL the walk reads
   * to its end, deleting it leaves the rights alone exactly when it is not what keeps ownership from
   * giving a right the DACL does not.
   */
  lemma SupersededIsRemovableIff(
    entries: seq<AclEntry>, token: TokenView, layer: RightsLayer, facts: DaclFacts, a: AppliedAce)
    requires facts.daclPresent && |entries| <= MAX_ACL_ENTRIES
    requires Evaluate(entries, token, layer, facts).Ok?
    requires a in Evaluate(entries, token, layer, facts).value.superseded
    ensures a.position < |entries|
    ensures Evaluate(Without(entries, a.position), token, layer, facts).Ok?
    ensures Evaluate(Without(entries, a.position), token, layer, facts).value.rights
            == Evaluate(entries, token, layer, facts).value.rights
            <==> !HoldsBackOwner(entries, token, facts, a.position)
  {
    var owner := OwnerOf(token, facts);
    RightsAfterRemoval(entries, token, layer, facts, a);
    RightsOf(entries, token, layer, facts);
    ImpliedAfterRemoval(entries, token, facts, a.position);
    var p := a.position;
    var granted := MasksOver(entries, token, owner).granted;
    SameUnions(granted, Implied(Without(entries, p), token, facts), Implied(entries, token, facts));
    assert granted + {} + Implied(Without(entries, p), token, facts)
           == granted + Implied(Without(entries, p), token, facts);
    forall r: Right ensures r in granted <==> FirstIs(entries, token, owner, r, true) {
      FirstMatchDecidesMasks(entries, token, owner, r);
    }
  }

  /** Deleting an entry brings ownership's rights back exactly when it alone stood in their way. */
  lemma ImpliedAfterRemoval(entries: seq<AclEntry>, token: TokenView, facts: DaclFacts, p: nat)
    requires p < |entries|
    ensures Implied(Without(entries, p), token, facts)
            == if HoldsOwner(token, facts) && forall k :: NamesOwner(entries, k) ==> k == p
               then OWNER_IMPLICIT_RIGHTS else {}
    ensures Implied(entries, token, facts)
            == if HoldsOwner(token, facts) && forall k :: !NamesOwner(entries, k) then OWNER_IMPLICIT_RIGHTS else {}
  {
    var short := Without(entries, p);
    ImpliedIff(entries, token, facts);
    ImpliedIff(short, token, facts);
    if k :| NamesOwner(entries, k) && k != p {
      assert NamesOwner(short, if k < p then k else k - 1);
    }
    if k :| NamesOwner(short, k) {
      assert NamesOwner(entries, if k < p then k else k + 1);
    }
  }

  /**
   * Past the cut a deletion also brings one more entry into the walk. The rights stay as they were
   * exactly when that entry gives nothing new, ownership gives back nothing the DACL does not, and
   * what ownership stops giving the DACL gives.
   */
  lemma TruncatedRemovalIff(
    entries: seq<AclEntry>, token: TokenView, layer: RightsLayer, facts: DaclFacts, a: AppliedAce)
    requires facts.daclPresent && |entries| > MAX_ACL_ENTRIES
    requires Evaluate(entries, token, layer, facts).Ok?
    requires a in Evaluate(entries, token, layer, facts).value.superseded
    ensures a.position < MAX_ACL_ENTRIES
    ensures Evaluate(Without(entries, a.position), token, layer, facts).Ok?
    ensures var owner := OwnerOf(token, facts);
            var was := Implied(Considered(entries), token, facts);
            var now := Implied(Considered(Without(entries, a.position)), token, facts);
            Evaluate(Without(entries, a.position), token, layer, facts).value.rights
            == Evaluate(entries, token, layer, facts).value.rights
            <==> (forall r :: Brings(entries, token, owner, r) || r in now ==>
                    r in was || FirstIs(Considered(entries), token, owner, r, true))
                 && (forall r :: r in was ==>
                       || Brings(entries, token, owner, r) || r in now
                       || FirstIs(Considered(entries), token, owner, r, true))
  {
    var owner := OwnerOf(token, facts);
    var es := Considered(entries);
    RightsAfterRemoval(entries, token, layer, facts, a);
    RightsOf(entries, token, layer, facts);
    forall r: Right
      ensures r in MasksOver(es, token, owner).granted <==> FirstIs(es, token, owner, r, true)
      ensures r in Brought(entries, token, owner) <==> Brings(entries, token, owner, r)
    {
      FirstMatchDecidesMasks(es, token, owner, r);
      BroughtIff(entries, token, owner, r);
    }
    var now := Implied(Considered(Without(entries, a.position)), token, facts);
    ConcatUnion(MasksOver(es, token, owner).granted, Brought(entries, token, owner), now);
    SameUnions(MasksOver(es, token, owner).granted, Brought(entries, token, owner) + now, Implied(es, token, facts));
  }

  lemma ConcatUnion(a: Mask, b: Mask, c: Mask)
    ensures a + b + c == a + (b + c)
  {
  }

  lemma SameUnions(m: Mask, a: Mask, b: Mask)
    ensures m + a == m + b <==> (forall r :: r in a ==> r in b || r in m) && (forall r :: r in b ==> r in a || r in m)
  {
    if m + a == m + b {
      forall r | r in a ensures r in b || r in m {
        assert r in m + a;
      }
      forall r | r in b ensures r in a || r in m {
        assert r in m + b;
      }
    }
  }

  const ALICE: TokenSid := TokenSid("alice", "S-1-5-21-1", Subject)
  const ALICE_TOKEN: TokenView := TokenView([ALICE], true)

  lemma AliceMatches(e: AclEntry, owner: Option<TokenSid>)
    requires e.trusteeKey == "alice" && e.trusteeSid == "S-1-5-21-1" && !e.inheritOnly
    ensures Match(e, ALICE_TOKEN, owner) == Some(ALICE) && Applies(e, ALICE_TOKEN, owner) && !NamesOwnerRights(e)
  {
    assert |"S-1-5-21-1"| == 10 && |OWNER_RIGHTS_SID| == 7 && |CREATOR_OWNER_SID| == 7 && |CREATOR_GROUP_SID| == 7;
    assert ALICE_TOKEN.EntryFrom(0, "alice") == Some(ALICE);
  }

  const INHERITED_ALLOW: AclEntry := AclEntry("alice", "S-1-5-21-1", true, {0}, Ntfs, false, true)
  const INHERITED_DENY: AclEntry := INHERITED_ALLOW.(allow := false)

  lemma InheritedPairLoses(entries: seq<AclEntry>)
    requires entries == [INHERITED_ALLOW, INHERITED_DENY]
    ensures InheritedDenyLoses(entries, ALICE_TOKEN, None, 0) && !OrderViolated(entries)
  {
    AliceMatches(INHERITED_ALLOW, None);
    AliceMatches(INHERITED_DENY, None);
    assert ExpandGenerics({0}) == {0};
    assert entries[0] == INHERITED_ALLOW && entries[1] == INHERITED_DENY;
    assert Names(entries, ALICE_TOKEN, None, 1, 0);
    assert NamesFirst(entries, ALICE_TOKEN, None, 0, 0);
  }

  /** An inherited Allow ahead of an inherited Deny: the order changes the answer and nothing reports it. */
  lemma InheritedOrderUnreported(entries: seq<AclEntry>)
    requires entries == [INHERITED_ALLOW, INHERITED_DENY]
    ensures Evaluate(entries, ALICE_TOKEN, Ntfs, UNOWNED_PRESENT_DACL).Ok?
    ensures var findings := Evaluate(entries, ALICE_TOKEN, Ntfs, UNOWNED_PRESENT_DACL).value.findings;
            OrderDependentResult in findings && NonCanonicalDacl !in findings
  {
    assert forall e :: e in entries ==> e.layer == Ntfs;
    InheritedPairLoses(entries);
    OrderDependentUnreportedIff(entries, ALICE_TOKEN, Ntfs, UNOWNED_PRESENT_DACL);
  }

  const READ_ALLOWED: AclEntry := AclEntry("alice", "S-1-5-21-1", true, {READ_CONTROL}, Ntfs, false, false)
  const OWNER_DENIED: AclEntry := AclEntry("owner rights", OWNER_RIGHTS_SID, false, {READ_CONTROL}, Ntfs, false, false)
  const ALICE_OWNS: DaclFacts := DaclFacts(true, false, Some("S-1-5-21-1"), Some("alice"), None)

  lemma OwnerDenyApplies()
    ensures Applies(OWNER_DENIED, ALICE_TOKEN, Some(ALICE))
    ensures Match(OWNER_DENIED, ALICE_TOKEN, Some(ALICE)) == Some(ALICE)
  {
    assert OWNER_RIGHTS_SID[6] == '4' && CREATOR_OWNER_SID[6] == '0' && CREATOR_GROUP_SID[6] == '1';
  }

  lemma OneAllowWalk(notes: seq<AccessCondition>)
    ensures var w := WalkOver([READ_ALLOWED], ALICE_TOKEN, Some(ALICE), notes);
            w.masks == Masks({READ_CONTROL}, {}, {READ_CONTROL}, {}) && w.superseded == []
  {
    AliceMatches(READ_ALLOWED, Some(ALICE));
    assert [READ_ALLOWED][..0] == [];
    assert WalkOver([READ_ALLOWED][..0], ALICE_TOKEN, Some(ALICE), notes) == Start(notes);
    assert ExpandGenerics({READ_CONTROL}) == {READ_CONTROL};
    assert {READ_CONTROL} - {} == {READ_CONTROL};
    assert {} + {READ_CONTROL} == {READ_CONTROL};
  }

  lemma OwnerDenyWalk(notes: seq<AccessCondition>)
    ensures var w := WalkOver([READ_ALLOWED, OWNER_DENIED], ALICE_TOKEN, Some(ALICE), notes);
            && w.masks.granted == {READ_CONTROL}
            && AppliedAce(OWNER_DENIED, ALICE, 1, {READ_CONTROL}, {}) in w.superseded
  {
    OneAllowWalk(notes);
    OwnerDenyApplies();
    assert [READ_ALLOWED, OWNER_DENIED][..1] == [READ_ALLOWED];
    assert ExpandGenerics({READ_CONTROL}) == {READ_CONTROL};
    assert {READ_CONTROL} - {READ_CONTROL} == {};
  }

  /**
   * A removal that does change something: the owner may read the descriptor, a Deny for OWNER RIGHTS
   * behind it is superseded, and without that Deny the owner may also write it.
   */
  lemma OwnerRightsDenyHoldsBack() returns (entries: seq<AclEntry>, facts: DaclFacts, a: AppliedAce)
    ensures facts.daclPresent && a.position < |entries| == 2 && Evaluate(entries, ALICE_TOKEN, Ntfs, facts).Ok?
    ensures a in Evaluate(entries, ALICE_TOKEN, Ntfs, facts).value.superseded
    ensures WRITE_DAC !in Evaluate(entries, ALICE_TOKEN, Ntfs, facts).value.rights
    ensures Evaluate(Without(entries, a.position), ALICE_TOKEN, Ntfs, facts).Ok?
    ensures WRITE_DAC in Evaluate(Without(entries, a.position), ALICE_TOKEN, Ntfs, facts).value.rights
  {
    entries, facts := [READ_ALLOWED, OWNER_DENIED], ALICE_OWNS;
    a := AppliedAce(OWNER_DENIED, ALICE, 1, {READ_CONTROL}, {});
    assert OwnerOf(ALICE_TOKEN, facts) == Some(ALICE);
    var notes := OwnerRights(Some(ALICE), facts, entries).1;
    OwnerDenyWalk(notes);
    WalkMasks(entries, ALICE_TOKEN, Some(ALICE), notes);
    RightsOf(entries, ALICE_TOKEN, Ntfs, facts);
    RightsAfterRemoval(entries, ALICE_TOKEN, Ntfs, facts, a);
    AliceMatches(READ_ALLOWED, Some(ALICE));
    assert NamesOwner(entries, 1) && !NamesOwner(entries, 0);
    ImpliedAfterRemoval(entries, ALICE_TOKEN, facts, 1);
    assert WRITE_DAC in OWNER_IMPLICIT_RIGHTS;
  }

  /** An entry that asks for nothing. */
  const BLANK_ENTRY: AclEntry := AclEntry("alice", "S-1-5-21-1", true, {}, Ntfs, false, false)

  lemma {:induction false} BlankWalk(n: nat, notes: seq<AccessCondition>)
    ensures var blanks := seq(n, _ => BLANK_ENTRY);
            var w := WalkOver(blanks, ALICE_TOKEN, None, notes);
            && w.masks == Masks({}, {}, {}, {})
            && (n > 0 ==> AppliedAce(BLANK_ENTRY, ALICE, 0, {}, {}) in w.superseded)
  {
    var blanks := seq(n, _ => BLANK_ENTRY);
    if n == 0 {
      assert blanks == [];
    } else {
      BlankWalk(n - 1, notes);
      assert blanks[..n - 1] == seq(n - 1, _ => BLANK_ENTRY);
      AliceMatches(BLANK_ENTRY, None);
      assert ExpandGenerics({}) == {};
    }
  }

  /** Past the cut too: deleting a superseded first entry can bring a grant into the walk. */
  lemma CutHoldsBack() returns (entries: seq<AclEntry>, a: AppliedAce)
    ensures Evaluate(entries, ALICE_TOKEN, Ntfs, UNOWNED_PRESENT_DACL).Ok?
    ensures a in Evaluate(entries, ALICE_TOKEN, Ntfs, UNOWNED_PRESENT_DACL).value.superseded
    ensures Evaluate(entries, ALICE_TOKEN, Ntfs, UNOWNED_PRESENT_DACL).value.rights == {}
    ensures a.position < |entries|
    ensures Evaluate(Without(entries, a.position), ALICE_TOKEN, Ntfs, UNOWNED_PRESENT_DACL).Ok?
    ensures Evaluate(Without(entries, a.position), ALICE_TOKEN, Ntfs, UNOWNED_PRESENT_DACL).value.rights == {0}
  {
    var blanks := seq(MAX_ACL_ENTRIES, _ => BLANK_ENTRY);
    var allow := BLANK_ENTRY.(mask := {0});
    entries := blanks + [allow];
    a := AppliedAce(BLANK_ENTRY, ALICE, 0, {}, {});
    BlankWalk(MAX_ACL_ENTRIES, []);
    assert Considered(entries) == blanks;
    WalkMasks(blanks, ALICE_TOKEN, None, []);
    RightsOf(entries, ALICE_TOKEN, Ntfs, UNOWNED_PRESENT_DACL);
    AliceMatches(allow, None);
    assert ExpandGenerics({0}) == {0};
    RightsAfterRemoval(entries, ALICE_TOKEN, Ntfs, UNOWNED_PRESENT_DACL, a);
  }

  lemma {:induction false} RemovalKeepsMasks(entries: seq<AclEntry>, token: TokenView, owner: Option<TokenSid>, p: nat)
    requires p < |entries| && Contribution(entries[p], MasksOver(entries[..p], token, owner)) == {}
    ensures MasksOver(Without(entries, p), token, owner).granted == MasksOver(entries, token, owner).granted
    ensures MasksOver(Without(entries, p), token, owner).denied == MasksOver(entries, token, owner).denied
  {
    var n := |entries| - 1;
    if p == n {
      assert Without(entries, p) == entries[..n];
    } else {
      assert entries[..n][..p] == entries[..p];
      RemovalKeepsMasks(entries[..n], token, owner, p);
      assert Without(entries, p) == Without(entries[..n], p) + [entries[n]];
      MasksSnoc(Without(entries[..n], p), entries[n], token, owner);
    }
  }

  predicate IsAllow(e: AclEntry) {
    e.allow
  }

  /** With every Deny deleted, the token holds all that any Allow names for it. */
  lemma {:induction false} AllowsAlone(entries: seq<AclEntry>, token: TokenView, owner: Option<TokenSid>)
    ensures MasksOver(Filter(IsAllow, entries), token, owner).granted == MasksOver(entries, token, owner).allowUnion
    ensures MasksOver(Filter(IsAllow, entries), token, owner).denied == {}
  {
    if |entries| == 0 {
    } else {
      var n := |entries| - 1;
      AllowsAlone(entries[..n], token, owner);
      FilterSnoc(IsAllow, entries, n);
      assert entries[..n + 1] == entries;
      var kept := Filter(IsAllow, entries[..n]);
      if entries[n].allow {
        MasksSnoc(kept, entries[n], token, owner);
      } else {
        assert Filter(IsAllow, entries) == kept;
      }
    }
  }
}
