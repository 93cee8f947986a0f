/** `resolve_access` folded to one of four answers by `classify_access`. */
module Verdict {
  import opened Options
  import opened Seqs
  import opened AccessConditions
  import opened AclWalk
  import opened AclFacts
  import opened AccessToken

  datatype ResourceDacl = ResourceDacl(
    entries: seq<AclEntry>,
    facts: DaclFacts,
    provenance: AclProvenance,
    derivedDistance: Option<nat>)

  datatype ShareDacl = ShareDacl(entries: seq<AclEntry>, observed: bool)

  datatype EffectiveAccess = EffectiveAccess(
    path: AccessPath,
    systemMapping: Option<SystemMapping>,
    rights: Mask,
    ntfs: AclEvaluation,
    share: Option<AclEvaluation>,
    findings: seq<AccessCondition>)
  {
    predicate HasAccess() {
      rights != {}
    }

    function Certainty(): AccessCertainty {
      CertaintyOf(findings)
    }
  }

  predicate NotEmptyDacl(c: AccessCondition) {
    c != EmptyDacl
  }

  /** The evaluation's findings, less the one an unread descriptor cannot have shown. */
  function NtfsFindings(ntfs: AclEvaluation, resource: ResourceDacl): seq<AccessCondition> {
    if resource.provenance != Unobserved then ntfs.findings else Filter(NotEmptyDacl, ntfs.findings)
  }

  function ProvenanceFindings(resource: ResourceDacl): seq<AccessCondition> {
    match resource.provenance
    case Observed => []
    case Unobserved => [NtfsAclNotObserved]
    case Derived =>
      [NtfsAclDerived]
      + if resource.derivedDistance.Some? && resource.derivedDistance.value > 1 then [IntermediatePathUnobserved]
        else []
  }

  function Escalation(rights: Mask): seq<AccessCondition> {
    if WRITE_DAC in rights || WRITE_OWNER in rights then [EscalationRights] else []
  }

  function ResolveAccess(
    token: SubjectToken, resource: ResourceDacl, share: Option<ShareDacl>, findings: seq<AccessCondition>)
    : Result<EffectiveAccess>
  {
    if (token.path.RemoteSmb? && share.None?) || (token.path.Local? && share.Some?) then WrongPath
    else
      match Evaluate(resource.entries, token.view, Ntfs, resource.facts)
      case WrongLayer => WrongLayer
      case WrongPath => WrongPath
      case Ok(ntfs) =>
        var collected := token.findings + NtfsFindings(ntfs, resource) + ProvenanceFindings(resource);
        var whole := ExpandGenerics(ntfs.rights);
        if share.None? then
          Ok(EffectiveAccess(token.path, token.systemMapping, whole, ntfs, None,
                             collected + Escalation(whole) + findings))
        else if !share.value.observed then
          Ok(EffectiveAccess(token.path, token.systemMapping, whole, ntfs, None,
                             collected + [ShareAclNotObserved] + Escalation(whole) + findings))
        else
          match Evaluate(share.value.entries, token.view, SmbShare, UNOWNED_PRESENT_DACL)
          case WrongLayer => WrongLayer
          case WrongPath => WrongPath
          case Ok(smb) =>
            var crossed := ExpandGenerics(smb.rights) * whole;
            Ok(EffectiveAccess(token.path, token.systemMapping, crossed, ntfs, Some(smb),
                               collected + smb.findings + Escalation(crossed) + findings))
  }

  // ---------------------------------------------------------------------------- verdict

  datatype AccessOutcome = Granted | Denied | NoGrant | Indeterminate

  /** The sentence a verdict gives as its reason, named by the table it comes from. */
  datatype Sentence =
    | General(outcome: AccessOutcome)
    | BetweenLayers(ntfs: bool, share: bool)
    | UnsettledSystem(outcome: AccessOutcome, mapping: SystemMapping)

  datatype AccessVerdict = AccessVerdict(
    outcome: AccessOutcome, certainty: AccessCertainty, reason: Sentence, denials: seq<AppliedAce>)
  {
    predicate IsConclusive() {
      outcome != Indeterminate
    }

    predicate IsConclusiveNegative() {
      IsConclusive() && outcome != Granted
    }
  }

  const NO_GRANT_BETWEEN_LAYERS: set<(bool, bool)> := {(true, false), (false, true), (true, true)}

  const UNSETTLED_SYSTEM: set<(AccessOutcome, SystemMapping)> := {
    (Granted, Ambiguous), (Granted, Missing), (Granted, Conflicting),
    (Indeterminate, Confirmed), (Indeterminate, Ambiguous), (Indeterminate, Missing), (Indeterminate, Conflicting)
  }

  /** The lookup of a table; the key must be in it, as `dict[key]` demands. */
  function BetweenLayersSentence(key: (bool, bool)): Sentence
    requires key in NO_GRANT_BETWEEN_LAYERS
  {
    BetweenLayers(key.0, key.1)
  }

  function DescribeVerdict(outcome: AccessOutcome, access: EffectiveAccess): Sentence {
    if access.systemMapping.Some? && (outcome, access.systemMapping.value) in UNSETTLED_SYSTEM
    then UnsettledSystem(outcome, access.systemMapping.value)
    else
      var ntfs := access.ntfs.rights != {};
      var share := access.share.Some? && access.share.value.rights != {};
      if outcome == NoGrant && (ntfs || share) then BetweenLayersSentence((ntfs, share)) else General(outcome)
  }

  function Denials(access: EffectiveAccess): seq<AppliedAce> {
    access.ntfs.deniedBy + if access.share.Some? then access.share.value.deniedBy else []
  }

  function ClassifyAccess(access: EffectiveAccess): AccessVerdict {
    var denials := Denials(access);
    var outcome :=
      if access.HasAccess() then Granted
      else if access.Certainty() in UNDERSTATING_CERTAINTIES then Indeterminate
      else if denials != [] then Denied
      else NoGrant;
    AccessVerdict(outcome, access.Certainty(), DescribeVerdict(outcome, access), denials)
  }

  // ----------------------------------------------------------------------- main results

  /**
   * A negative answer is conclusive exactly when no right survives, no finding may hide a grant,
   * and no evaluated mask carried the open-time request. Which negative it is depends on whether a
   * Deny is credited on either layer.
   */
  lemma ConclusiveNegativeIff(access: EffectiveAccess)
    ensures var v := ClassifyAccess(access);
            v.IsConclusiveNegative()
            <==> access.rights == {} && !MayUnderstate(access.findings) && IndeterminateRights !in access.findings
    ensures var v := ClassifyAccess(access);
            v.IsConclusiveNegative() ==>
              (v.outcome == Denied <==>
                 access.ntfs.deniedBy != [] || (access.share.Some? && access.share.value.deniedBy != []))
  {
    UnderstatesIff(access.findings);
  }

  /**
   * The sentence fits the evidence, whoever the subject is. One about SYSTEM is given exactly where
   * its mapping leaves the outcome open; the one that says no entry names the subject only when
   * neither layer granted anything; and the one between layers says which of them did.
   */
  lemma ReasonMatchesLayers(access: EffectiveAccess)
    ensures var v := ClassifyAccess(access);
            var ntfs := access.ntfs.rights != {};
            var share := access.share.Some? && access.share.value.rights != {};
            var unsettled := && access.systemMapping.Some?
                             && (v.outcome == Indeterminate
                                 || (v.outcome == Granted && access.systemMapping != Some(Confirmed)));
            && (v.reason.UnsettledSystem? <==> unsettled)
            && (unsettled ==> v.reason.outcome == v.outcome && access.systemMapping == Some(v.reason.mapping))
            && (v.reason == General(NoGrant) <==> v.outcome == NoGrant && !ntfs && !share)
            && (v.reason.BetweenLayers? <==> v.outcome == NoGrant && (ntfs || share))
            && (v.reason.BetweenLayers? ==> v.reason.ntfs == ntfs && v.reason.share == share)
            && (v.outcome != NoGrant && !unsettled ==> v.reason == General(v.outcome))
  {
    if access.systemMapping.Some? {
      UnsettledTable(ClassifyAccess(access).outcome, access.systemMapping.value);
    }
  }

  /** The table has a sentence for every unknown answer about SYSTEM, and for every grant to an unconfirmed one. */
  lemma UnsettledTable(outcome: AccessOutcome, mapping: SystemMapping)
    ensures (outcome, mapping) in UNSETTLED_SYSTEM
            <==> outcome == Indeterminate || (outcome == Granted && mapping != Confirmed)
  {
    match mapping {
      case Confirmed =>
      case Ambiguous =>
      case Missing =>
      case Conflicting =>
    }
  }

  /** Learning of another gap never turns an unknown into an answer, and never a grant into anything else. */
  lemma MoreFindingsNeverConclude(access: EffectiveAccess, more: seq<AccessCondition>)
    ensures var v := ClassifyAccess(access);
            var w := ClassifyAccess(access.(findings := access.findings + more));
            && (v.outcome == Indeterminate ==> w.outcome == Indeterminate)
            && (v.outcome == Granted <==> w.outcome == Granted)
            && (w.IsConclusiveNegative() ==> w.outcome == v.outcome)
            && w.denials == v.denials
  {
    UnderstatesIff(access.findings);
    UnderstatesIff(access.findings + more);
    if MayUnderstate(access.findings) {
      var f :| f in access.findings && f in UNDERSTATING_CONDITIONS;
      assert f in access.findings + more;
    }
  }

  /** No answer about SYSTEM is ever a conclusive negative, whatever was collected, on either path. */
  lemma SystemIsNeverAConclusiveNegative(
    subject: SubjectFacts, groups: seq<TokenSid>, path: AccessPath, assumption: Option<TokenAssumption>,
    membershipComplete: bool, notes: seq<AccessCondition>,
    resource: ResourceDacl, share: Option<ShareDacl>, findings: seq<AccessCondition>)
    requires subject.sid == SYSTEM_SID
    requires ResolveAccess(BuildToken(subject, groups, path, assumption, membershipComplete, notes),
                           resource, share, findings).Ok?
    ensures var token := BuildToken(subject, groups, path, assumption, membershipComplete, notes);
            var v := ClassifyAccess(ResolveAccess(token, resource, share, findings).value);
            && !v.IsConclusiveNegative()
            && (v.reason.UnsettledSystem? || (v.outcome == Granted && token.systemMapping == Some(Confirmed)))
  {
    var token := BuildToken(subject, groups, path, assumption, membershipComplete, notes);
    SystemTokenUnderstates(subject, groups, path, assumption, membershipComplete, notes);
    var access := ResolveAccess(token, resource, share, findings).value;
    TokenFindingsKept(token, resource, share, findings);
    var f :| f in token.findings && f in UNDERSTATING_CONDITIONS;
    assert f in access.findings;
    ConclusiveNegativeIff(access);
  }

  /** Whatever qualifies the token, the descriptor's origin or the caller's coverage reaches the verdict. */
  lemma TokenFindingsKept(
    token: SubjectToken, resource: ResourceDacl, share: Option<ShareDacl>, findings: seq<AccessCondition>)
    requires ResolveAccess(token, resource, share, findings).Ok?
    ensures var access := ResolveAccess(token, resource, share, findings).value;
            && (forall f :: f in token.findings || f in ProvenanceFindings(resource) || f in findings
                            ==> f in access.findings)
            && (forall f :: f in access.ntfs.findings && (f != EmptyDacl || resource.provenance != Unobserved)
                            ==> f in access.findings)
            && (access.share.Some? ==> forall f :: f in access.share.value.findings ==> f in access.findings)
            && access.systemMapping == token.systemMapping
  {
  }

  /** Where no descriptor was read, or only part of one was, absence is never concluded. */
  lemma UnreadDaclIsNeverAConclusiveNegative(
    token: SubjectToken, resource: ResourceDacl, share: Option<ShareDacl>, findings: seq<AccessCondition>)
    requires ResolveAccess(token, resource, share, findings).Ok?
    requires resource.provenance == Unobserved || (resource.facts.daclPresent && |resource.entries| > MAX_ACL_ENTRIES)
    ensures !ClassifyAccess(ResolveAccess(token, resource, share, findings).value).IsConclusiveNegative()
  {
    var access := ResolveAccess(token, resource, share, findings).value;
    TokenFindingsKept(token, resource, share, findings);
    ConclusiveNegativeIff(access);
    var f := if resource.provenance == Unobserved then NtfsAclNotObserved else AclTruncated;
    assert f in UNDERSTATING_CONDITIONS;
    assert f in access.findings;
  }

  /** Neither layer can be widened by the other, and a missing share reading only leaves a bound. */
  lemma RightsWithinBothLayers(
    token: SubjectToken, resource: ResourceDacl, share: Option<ShareDacl>, findings: seq<AccessCondition>)
    requires ResolveAccess(token, resource, share, findings).Ok?
    ensures var access := ResolveAccess(token, resource, share, findings).value;
            && access.rights <= ExpandGenerics(access.ntfs.rights)
            && (access.share.Some? ==> access.rights <= ExpandGenerics(access.share.value.rights))
            && (share.Some? && !share.value.observed ==>
                  access.Certainty() == AtMost || access.Certainty() == Uncertain)
  {
    var access := ResolveAccess(token, resource, share, findings).value;
    if share.Some? && !share.value.observed {
      assert ShareAclNotObserved in access.findings && ShareAclNotObserved in OVERSTATING_CONDITIONS;
      assert MayOverstate(access.findings);
    }
  }

  // -------------------------------------------------------------------- what Denied means

  /** With every Deny deleted, a DACL gives `r`: there is none, or an Allow names it, or ownership adds it. */
  ghost predicate Offers(entries: seq<AclEntry>, view: TokenView, facts: DaclFacts, r: Right) {
    if !facts.daclPresent then r in FILE_ALL_ACCESS
    else
      || SomeNames(entries, view, OwnerOf(view, facts), r, true)
      || r in OwnerRights(OwnerOf(view, facts), facts, Filter(IsAllow, entries)).0.GetOr({})
  }

  /** The share does not stand in the way of `r`: there is none, none was read, or it offers `r` too. */
  ghost predicate ShareOffers(share: Option<ShareDacl>, view: TokenView, r: Right) {
    share.None? || !share.value.observed || Offers(share.value.entries, view, UNOWNED_PRESENT_DACL, r)
  }

  /** The same descriptors with every Deny deleted. */
  function Undenied(resource: ResourceDacl): ResourceDacl {
    resource.(entries := Filter(IsAllow, resource.entries))
  }

  function UndeniedShare(share: Option<ShareDacl>): Option<ShareDacl> {
    match share
    case None => None
    case Some(s) => Some(s.(entries := Filter(IsAllow, s.entries)))
  }

  /**
   * `denied` is documented as a Deny having withheld what an Allow would have given. Whenever the
   * answer is `denied`, deleting every Deny of both layers gives the subject rights exactly when
   * both layers offer some right in common; the answer credits a Deny either way.
   */
  lemma DeniedWithheldIff(
    token: SubjectToken, resource: ResourceDacl, share: Option<ShareDacl>, findings: seq<AccessCondition>)
    requires ResolveAccess(token, resource, share, findings).Ok?
    requires ClassifyAccess(ResolveAccess(token, resource, share, findings).value).outcome == Denied
    ensures var bare := ResolveAccess(token, Undenied(resource), UndeniedShare(share), findings);
            && bare.Ok?
            && (bare.value.HasAccess()
                <==> exists r :: Offers(resource.entries, token.view, resource.facts, r)
                                 && ShareOffers(share, token.view, r))
  {
    DeniedWasRead(token, resource, share, findings);
    UndeniedRights(token, resource, share, findings);
    var bare := ResolveAccess(token, Undenied(resource), UndeniedShare(share), findings).value;
    forall r: Right
      ensures r in bare.rights
              <==> Offers(resource.entries, token.view, resource.facts, r) && ShareOffers(share, token.view, r)
    {
      OfferedIff(resource.entries, token.view, resource.facts, r);
      if share.Some? {
        OfferedIff(share.value.entries, token.view, UNOWNED_PRESENT_DACL, r);
      }
    }
    if r :| r in bare.rights {
      assert Offers(resource.entries, token.view, resource.facts, r) && ShareOffers(share, token.view, r);
    }
  }

  /** A negative answer means that whatever descriptor was read was walked to its end. */
  lemma DeniedWasRead(
    token: SubjectToken, resource: ResourceDacl, share: Option<ShareDacl>, findings: seq<AccessCondition>)
    requires ResolveAccess(token, resource, share, findings).Ok?
    requires ClassifyAccess(ResolveAccess(token, resource, share, findings).value).outcome == Denied
    ensures resource.facts.daclPresent ==> |resource.entries| <= MAX_ACL_ENTRIES
    ensures share.Some? && share.value.observed ==> |share.value.entries| <= MAX_ACL_ENTRIES
  {
    var access := ResolveAccess(token, resource, share, findings).value;
    ConclusiveNegativeIff(access);
    TokenFindingsKept(token, resource, share, findings);
    assert AclTruncated !in access.findings by {
      assert AclTruncated in UNDERSTATING_CONDITIONS;
    }
  }

  lemma UndeniedRights(
    token: SubjectToken, resource: ResourceDacl, share: Option<ShareDacl>, findings: seq<AccessCondition>)
    requires ResolveAccess(token, resource, share, findings).Ok?
    requires resource.facts.daclPresent ==> |resource.entries| <= MAX_ACL_ENTRIES
    requires share.Some? && share.value.observed ==> |share.value.entries| <= MAX_ACL_ENTRIES
    ensures var bare := ResolveAccess(token, Undenied(resource), UndeniedShare(share), findings);
            && bare.Ok?
            && bare.value.rights
               == if share.Some? && share.value.observed
                  then Offered(share.value.entries, token.view, UNOWNED_PRESENT_DACL)
                       * Offered(resource.entries, token.view, resource.facts)
                  else Offered(resource.entries, token.view, resource.facts)
  {
    BareRights(resource.entries, token.view, Ntfs, resource.facts);
    if share.Some? && share.value.observed {
      BareRights(share.value.entries, token.view, SmbShare, UNOWNED_PRESENT_DACL);
    }
  }

  /** What a DACL offers, as a mask. */
  ghost function Offered(entries: seq<AclEntry>, view: TokenView, facts: DaclFacts): Mask {
    if !facts.daclPresent then FILE_ALL_ACCESS
    else
      MasksOver(entries, view, OwnerOf(view, facts)).allowUnion
      + OwnerRights(OwnerOf(view, facts), facts, Filter(IsAllow, entries)).0.GetOr({})
  }

  lemma OfferedIff(entries: seq<AclEntry>, view: TokenView, facts: DaclFacts, r: Right)
    ensures r in Offered(entries, view, facts) <==> Offers(entries, view, facts, r)
    ensures r in Offered(entries, view, facts) ==> r !in GENERIC_RIGHT_BITS
  {
    UnionsNamed(entries, view, OwnerOf(view, facts), r);
  }

  lemma EvaluatedRights(entries: seq<AclEntry>, view: TokenView, layer: RightsLayer, facts: DaclFacts)
    requires facts.daclPresent && |entries| <= MAX_ACL_ENTRIES
    requires Evaluate(entries, view, layer, facts).Ok?
    ensures Evaluate(entries, view, layer, facts).value.rights
            == MasksOver(entries, view, OwnerOf(view, facts)).granted
               + OwnerRights(OwnerOf(view, facts), facts, entries).0.GetOr({})
  {
    WalkMasks(entries, view, OwnerOf(view, facts), OwnerRights(OwnerOf(view, facts), facts, entries).1);
  }

  /** What a DACL gives once its Denies are gone is what it offers. */
  lemma BareRights(entries: seq<AclEntry>, view: TokenView, layer: RightsLayer, facts: DaclFacts)
    requires facts.daclPresent ==> |entries| <= MAX_ACL_ENTRIES
    requires Evaluate(entries, view, layer, facts).Ok?
    ensures var bare := Evaluate(Filter(IsAllow, entries), view, layer, facts);
            bare.Ok? && ExpandGenerics(bare.value.rights) == Offered(entries, view, facts)
  {
    BareResolves(entries, view, layer, facts);
    forall r: Right | r in Offered(entries, view, facts) ensures r !in GENERIC_RIGHT_BITS {
      OfferedIff(entries, view, facts, r);
    }
    if facts.daclPresent {
      AllowsAlone(entries, view, OwnerOf(view, facts));
      EvaluatedRights(Filter(IsAllow, entries), view, layer, facts);
    }
  }

  lemma BareResolves(entries: seq<AclEntry>, view: TokenView, layer: RightsLayer, facts: DaclFacts)
    requires Evaluate(entries, view, layer, facts).Ok?
    ensures Evaluate(Filter(IsAllow, entries), view, layer, facts).Ok?
  {
  }

  /** The undocumented case exists: a lone Deny, nothing it withheld, and the answer is still `denied`. */
  lemma LoneDenyIsDenied() returns (token: SubjectToken, resource: ResourceDacl)
    ensures ResolveAccess(token, resource, None, []).Ok?
    ensures ClassifyAccess(ResolveAccess(token, resource, None, []).value).outcome == Denied
    ensures forall r :: !Offers(resource.entries, token.view, resource.facts, r)
  {
    var deny := AclEntry("alice", "S-1-5-21-1", false, {0}, Ntfs, false, false);
    token := SubjectToken(Local, TokenView([TokenSid("alice", "S-1-5-21-1", Subject)], true), [], None);
    resource := ResourceDacl([deny], UNOWNED_PRESENT_DACL, Observed, None);
    assert token.view.Entry("alice").Some?;
    assert deny.trusteeSid != OWNER_RIGHTS_SID && !IsPlaceholder(deny) by {
      assert |"S-1-5-21-1"| == 10 && |OWNER_RIGHTS_SID| == 7 && |CREATOR_OWNER_SID| == 7 && |CREATOR_GROUP_SID| == 7;
    }
    assert ExpandGenerics({0}) == {0};
    var es := [deny];
    assert es[..0] == [];
    assert WalkOver(es[..0], token.view, None, []) == Start([]);
    var w := WalkOver(es, token.view, None, []);
    assert w == Step(deny, 0, token.view, None, Start([]));
    assert |w.deniedBy| == 1 && w.masks.granted == {} && w.masks.allowUnion == {} && w.findings == [];
    assert !OrderViolated([deny]);
    var access := ResolveAccess(token, resource, None, []).value;
    assert access.findings == [];
    ConclusiveNegativeIff(access);
  }
}
