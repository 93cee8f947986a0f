/** What `resolve_access` and the verdict say, right by right and finding by finding. */
module Resolution {
  import opened Options
  import opened Seqs
  import opened AccessConditions
  import opened AclWalk
  import opened AclRights
  import opened AccessToken
  import opened Verdict

  /** A share ACL is given for a remote path and for no other, and each entry is of its own layer. */
  lemma ResolvesIff(
    token: SubjectToken, resource: ResourceDacl, share: Option<ShareDacl>, findings: seq<AccessCondition>)
    ensures var r := ResolveAccess(token, resource, share, findings);
            && (r == WrongPath <==> share.Some? != (token.path == RemoteSmb))
            && (r.Ok? <==> && share.Some? == (token.path == RemoteSmb)
                           && (forall e :: e in resource.entries ==> e.layer == Ntfs)
                           && (share.Some? && share.value.observed ==>
                                 forall e :: e in share.value.entries ==> e.layer == SmbShare))
  {
  }

  /** The share lets `r` through: none stands in the way, or it was not read, or its own check gives it. */
  ghost predicate ShareGives(token: SubjectToken, share: Option<ShareDacl>, r: Right) {
    share.Some? && share.value.observed ==>
      var smb := Evaluate(share.value.entries, token.view, SmbShare, DaclFacts(true, false, None, None, None));
      smb.Ok? && r in smb.value.rights
  }

  /** A right survives exactly when the file system gives it and the share does not stand in its way. */
  lemma SurvivesIff(
    token: SubjectToken, resource: ResourceDacl, share: Option<ShareDacl>, findings: seq<AccessCondition>, r: Right)
    requires ResolveAccess(token, resource, share, findings).Ok?
    ensures var access := ResolveAccess(token, resource, share, findings).value;
            && Ok(access.ntfs) == Evaluate(resource.entries, token.view, Ntfs, resource.facts)
            && (r in access.rights <==> r in access.ntfs.rights && ShareGives(token, share, r))
            && access.path == token.path && access.systemMapping == token.systemMapping
            && (access.share.Some? <==> share.Some? && share.value.observed)
  {
    var access := ResolveAccess(token, resource, share, findings).value;
    NoGenericRight(resource.entries, token.view, Ntfs, resource.facts);
    assert access.ntfs.rights !! GENERIC_RIGHT_BITS;
    if share.Some? && share.value.observed {
      NoGenericRight(share.value.entries, token.view, SmbShare, UNOWNED_PRESENT_DACL);
      assert access.share.value.rights !! GENERIC_RIGHT_BITS;
    }
  }

  /** The findings of a resolved access, part by part. */
  lemma FindingParts(
    token: SubjectToken, resource: ResourceDacl, share: Option<ShareDacl>, findings: seq<AccessCondition>)
    requires ResolveAccess(token, resource, share, findings).Ok?
    ensures var access := ResolveAccess(token, resource, share, findings).value;
            var ofShare := if share.None? then [] else if !share.value.observed then [ShareAclNotObserved]
                           else access.share.value.findings;
            access.findings
            == token.findings + NtfsFindings(access.ntfs, resource) + ProvenanceFindings(resource) + ofShare
               + Escalation(access.rights) + findings
  {
    var access := ResolveAccess(token, resource, share, findings).value;
    var collected := token.findings + NtfsFindings(access.ntfs, resource) + ProvenanceFindings(resource);
    assert collected + [] == collected;
  }

  lemma DescriptorParts(ntfs: AclEvaluation, resource: ResourceDacl, rights: Mask, f: AccessCondition)
    ensures f in NtfsFindings(ntfs, resource)
            <==> f in ntfs.findings && (f != EmptyDacl || resource.provenance != Unobserved)
    ensures f in ProvenanceFindings(resource)
            <==> || (f == NtfsAclNotObserved && resource.provenance == Unobserved)
                 || (f == NtfsAclDerived && resource.provenance == Derived)
                 || (f == IntermediatePathUnobserved && resource.provenance == Derived
                     && resource.derivedDistance.Some? && resource.derivedDistance.value > 1)
    ensures f in Escalation(rights) <==> f == EscalationRights && (18 in rights || 19 in rights)
  {
  }

  /** Each finding of a resolved access has its one cause. */
  lemma ResolvedFindingsIff(
    token: SubjectToken, resource: ResourceDacl, share: Option<ShareDacl>, findings: seq<AccessCondition>,
    f: AccessCondition)
    requires ResolveAccess(token, resource, share, findings).Ok?
    ensures var access := ResolveAccess(token, resource, share, findings).value;
            f in access.findings
            <==> || f in token.findings || f in findings
                 || (f in access.ntfs.findings && (f != EmptyDacl || resource.provenance != Unobserved))
                 || (access.share.Some? && f in access.share.value.findings)
                 || (f == NtfsAclNotObserved && resource.provenance == Unobserved)
                 || (f == NtfsAclDerived && resource.provenance == Derived)
                 || (f == IntermediatePathUnobserved && resource.provenance == Derived
                     && resource.derivedDistance.Some? && resource.derivedDistance.value > 1)
                 || (f == ShareAclNotObserved && share.Some? && !share.value.observed)
                 || (f == EscalationRights && (18 in access.rights || 19 in access.rights))
  {
    var access := ResolveAccess(token, resource, share, findings).value;
    FindingParts(token, resource, share, findings);
    SharePresence(token, resource, share, findings);
    DescriptorParts(access.ntfs, resource, access.rights, f);
  }

  lemma SharePresence(
    token: SubjectToken, resource: ResourceDacl, share: Option<ShareDacl>, findings: seq<AccessCondition>)
    requires ResolveAccess(token, resource, share, findings).Ok?
    ensures ResolveAccess(token, resource, share, findings).value.share.Some?
            <==> share.Some? && share.value.observed
  {
  }

  /** The verdict is one of four, each with its one cause, and says how far the answer can be wrong. */
  lemma OutcomeIff(access: EffectiveAccess)
    ensures var v := ClassifyAccess(access);
            var unsure := IndeterminateRights in access.findings || MayUnderstate(access.findings);
            var credited := access.ntfs.deniedBy != [] || (access.share.Some? && access.share.value.deniedBy != []);
            && (v.outcome == Granted <==> access.rights != {})
            && (v.outcome == Indeterminate <==> access.rights == {} && unsure)
            && (v.outcome == Denied <==> access.rights == {} && !unsure && credited)
            && (v.outcome == NoGrant <==> access.rights == {} && !unsure && !credited)
  {
    UnderstatesIff(access.findings);
  }

  /** The certainty is the direction of the findings, and the denials are those of both layers, file system first. */
  lemma CertaintyIff(access: EffectiveAccess)
    ensures var v := ClassifyAccess(access);
            var over, under := MayOverstate(access.findings), MayUnderstate(access.findings);
            var open := IndeterminateRights in access.findings;
            && (v.certainty == Uncertain <==> open || (over && under))
            && (v.certainty == AtMost <==> !open && over && !under)
            && (v.certainty == AtLeast <==> !open && !over && under)
            && (v.certainty == Certain <==> !open && !over && !under)
    ensures ClassifyAccess(access).denials
            == match access.share
               case None => access.ntfs.deniedBy
               case Some(share) => access.ntfs.deniedBy + share.deniedBy
  {
  }

  /** Which way each condition can make an answer wrong. */
  lemma Directions(f: AccessCondition)
    ensures f in OVERSTATING_CONDITIONS && f in UNDERSTATING_CONDITIONS
            <==> f in {SubjectUnresolved, AceCountMismatch, AclTruncated,
                       SystemMappingAmbiguous, SystemMappingMissing, SystemMappingConflicting}
    ensures f in OVERSTATING_CONDITIONS && f !in UNDERSTATING_CONDITIONS
            <==> f in {ShareAclNotObserved, NtfsAclDerived, IntermediatePathUnobserved, ResourceNotUnderShare,
                       SubjectIsAGroup, SubjectDisabled}
    ensures f !in OVERSTATING_CONDITIONS && f in UNDERSTATING_CONDITIONS
            <==> f in {MembershipTruncated, TrusteeMembershipUnobserved, LogonTypeTrustee, NtfsAclNotObserved,
                       SystemMappingConfirmed}
  {
  }
}
