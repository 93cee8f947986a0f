/** The closed vocabulary of conditions, the direction each can be wrong in, and their fold. */
module AccessConditions {
  datatype AccessCondition =
    | NullDacl | EmptyDacl | ProtectedDacl | NonCanonicalDacl | OrderDependentResult | AceCountMismatch | AclTruncated
    | OwnerImplicitRights | OwnerRightsAce | CreatorOwnerAce | LogonTypeTrustee | UnresolvedTrustee
    | TrusteeMembershipUnobserved
    | SubjectUnresolved | SubjectIsAGroup | SubjectDisabled | MembershipTruncated | MembershipCycle | AssumedTokenSids
    | SystemMappingConfirmed | SystemMappingAmbiguous | SystemMappingMissing | SystemMappingConflicting
    | ShareAclNotObserved | NtfsAclNotObserved | NtfsAclDerived | IntermediatePathUnobserved | ResourceNotUnderShare
    | IndeterminateRights | UnrecognizedRightsBits | GenericRightsExpanded | EscalationRights

  const OVERSTATING_CONDITIONS: set<AccessCondition> := {
    ShareAclNotObserved, NtfsAclDerived, IntermediatePathUnobserved, ResourceNotUnderShare, AceCountMismatch,
    AclTruncated, SubjectIsAGroup, SubjectUnresolved, SubjectDisabled,
    SystemMappingAmbiguous, SystemMappingMissing, SystemMappingConflicting
  }

  const UNDERSTATING_CONDITIONS: set<AccessCondition> := {
    MembershipTruncated, TrusteeMembershipUnobserved, LogonTypeTrustee, SubjectUnresolved, AceCountMismatch,
    AclTruncated, NtfsAclNotObserved,
    SystemMappingConfirmed, SystemMappingAmbiguous, SystemMappingMissing, SystemMappingConflicting
  }

  /** The value a condition has in a response. */
  function WireName(c: AccessCondition): string {
    match c
    case NullDacl => "null_dacl"
    case EmptyDacl => "empty_dacl"
    case ProtectedDacl => "protected_dacl"
    case NonCanonicalDacl => "non_canonical_dacl"
    case OrderDependentResult => "order_dependent_result"
    case AceCountMismatch => "ace_count_mismatch"
    case AclTruncated => "acl_truncated"
    case OwnerImplicitRights => "owner_implicit_rights"
    case OwnerRightsAce => "owner_rights_ace"
    case CreatorOwnerAce => "creator_owner_ace"
    case LogonTypeTrustee => "logon_type_trustee"
    case UnresolvedTrustee => "unresolved_trustee"
    case TrusteeMembershipUnobserved => "trustee_membership_unobserved"
    case SubjectUnresolved => "subject_unresolved"
    case SubjectIsAGroup => "subject_is_a_group"
    case SubjectDisabled => "subject_disabled"
    case MembershipTruncated => "membership_truncated"
    case MembershipCycle => "membership_cycle"
    case AssumedTokenSids => "assumed_token_sids"
    case SystemMappingConfirmed => "system_mapping_confirmed"
    case SystemMappingAmbiguous => "system_mapping_ambiguous"
    case SystemMappingMissing => "system_mapping_missing"
    case SystemMappingConflicting => "system_mapping_conflicting"
    case ShareAclNotObserved => "share_acl_not_observed"
    case NtfsAclNotObserved => "ntfs_acl_not_observed"
    case NtfsAclDerived => "ntfs_acl_derived"
    case IntermediatePathUnobserved => "intermediate_path_unobserved"
    case ResourceNotUnderShare => "resource_not_under_share"
    case IndeterminateRights => "indeterminate_rights"
    case UnrecognizedRightsBits => "unrecognized_rights_bits"
    case GenericRightsExpanded => "generic_rights_expanded"
    case EscalationRights => "escalation_rights"
  }

  /** How the ACL an answer rests on came to be known. */
  datatype AclProvenance = Observed | Derived | Unobserved

  datatype AccessCertainty = Certain | AtMost | AtLeast | Uncertain

  predicate MayOverstate(findings: seq<AccessCondition>) {
    exists f :: f in findings && f in OVERSTATING_CONDITIONS
  }

  predicate MayUnderstate(findings: seq<AccessCondition>) {
    exists f :: f in findings && f in UNDERSTATING_CONDITIONS
  }

  /** Fold findings into the direction the answer may be wrong in. */
  function CertaintyOf(findings: seq<AccessCondition>): AccessCertainty {
    if IndeterminateRights in findings then Uncertain
    else if MayOverstate(findings) && MayUnderstate(findings) then Uncertain
    else if MayOverstate(findings) then AtMost
    else if MayUnderstate(findings) then AtLeast
    else Certain
  }

  const UNDERSTATING_CERTAINTIES: set<AccessCertainty> := {AtLeast, Uncertain}

  /**
   * An empty answer is no evidence of absence exactly when a finding may understate, or a mask
   * carried the open-time request whose meaning is not fixed.
   */
  lemma UnderstatesIff(findings: seq<AccessCondition>)
    ensures CertaintyOf(findings) in UNDERSTATING_CERTAINTIES
            <==> MayUnderstate(findings) || IndeterminateRights in findings
  {
  }

  /** The two-bit reading of the fold alone is wrong: this finding is in neither set and still counts. */
  lemma IndeterminateAloneIsUncertain()
    ensures CertaintyOf([IndeterminateRights]) == Uncertain
    ensures !MayOverstate([IndeterminateRights]) && !MayUnderstate([IndeterminateRights])
  {
    forall f | f in [IndeterminateRights] ensures f == IndeterminateRights {
    }
  }

  predicate HyphenFree(s: string) {
    forall i :: 0 <= i < |s| ==> s[i] != '-'
  }

  lemma DescriptorNamesHyphenFree()
    ensures HyphenFree("null_dacl")
    ensures HyphenFree("empty_dacl")
    ensures HyphenFree("protected_dacl")
    ensures HyphenFree("non_canonical_dacl")
    ensures HyphenFree("order_dependent_result")
    ensures HyphenFree("ace_count_mismatch")
    ensures HyphenFree("acl_truncated")
  {
  }

  lemma TrusteeNamesHyphenFree()
    ensures HyphenFree("owner_implicit_rights")
    ensures HyphenFree("owner_rights_ace")
    ensures HyphenFree("creator_owner_ace")
    ensures HyphenFree("logon_type_trustee")
    ensures HyphenFree("unresolved_trustee")
    ensures HyphenFree("trustee_membership_unobserved")
  {
  }

  lemma TokenNamesHyphenFree()
    ensures HyphenFree("subject_unresolved")
    ensures HyphenFree("subject_is_a_group")
    ensures HyphenFree("subject_disabled")
    ensures HyphenFree("membership_truncated")
    ensures HyphenFree("membership_cycle")
    ensures HyphenFree("assumed_token_sids")
  {
  }

  lemma SystemNamesHyphenFree()
    ensures HyphenFree("system_mapping_confirmed")
    ensures HyphenFree("system_mapping_ambiguous")
    ensures HyphenFree("system_mapping_missing")
    ensures HyphenFree("system_mapping_conflicting")
  {
  }

  lemma CoverageNamesHyphenFree()
    ensures HyphenFree("share_acl_not_observed")
    ensures HyphenFree("ntfs_acl_not_observed")
    ensures HyphenFree("ntfs_acl_derived")
    ensures HyphenFree("intermediate_path_unobserved")
    ensures HyphenFree("resource_not_under_share")
  {
  }

  lemma RightsNamesHyphenFree()
    ensures HyphenFree("indeterminate_rights")
    ensures HyphenFree("unrecognized_rights_bits")
    ensures HyphenFree("generic_rights_expanded")
    ensures HyphenFree("escalation_rights")
  {
  }

  /** No condition's name holds a hyphen, which is what caution ids rely on. */
  lemma WireNamesHyphenFree(c: AccessCondition)
    ensures HyphenFree(WireName(c))
  {
    DescriptorNamesHyphenFree();
    TrusteeNamesHyphenFree();
    TokenNamesHyphenFree();
    SystemNamesHyphenFree();
    CoverageNamesHyphenFree();
    RightsNamesHyphenFree();
  }
}
