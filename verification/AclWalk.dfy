/** The Windows access check over one DACL for one token: `evaluate_acl`. */
module AclWalk {
  import opened Options
  import opened AccessConditions

  /** One bit of a 32-bit access mask, by number. */
  type Right = n: nat | n < 32

  /** An access mask as the set of its bits: `|` is `+`, `&` is `*`, and `& ~` is `-`. */
  type Mask = set<Right>

  const GENERIC_ALL: Right := 28
  const GENERIC_EXECUTE: Right := 29
  const GENERIC_WRITE: Right := 30
  const GENERIC_READ: Right := 31
  const MAXIMUM_ALLOWED: Right := 25
  const READ_CONTROL: Right := 17
  const WRITE_DAC: Right := 18
  const WRITE_OWNER: Right := 19
  const GENERIC_RIGHT_BITS: Mask := {28, 29, 30, 31}
  const FILE_GENERIC_READ: Mask := {0, 3, 7, 17, 20}
  const FILE_GENERIC_WRITE: Mask := {1, 2, 4, 8, 17, 20}
  const FILE_GENERIC_EXECUTE: Mask := {5, 7, 17, 20}
  const FILE_ALL_ACCESS: Mask := {0, 1, 2, 3, 4, 5, 6, 7, 8, 16, 17, 18, 19, 20}
  const KNOWN_BITS: Mask := FILE_ALL_ACCESS + GENERIC_RIGHT_BITS + {24, 25}
  const OWNER_IMPLICIT_RIGHTS: Mask := {READ_CONTROL, WRITE_DAC}
  const MAX_ACL_ENTRIES: nat := 4096

  const CREATOR_OWNER_SID: string := "S-1-3-0"
  const CREATOR_GROUP_SID: string := "S-1-3-1"
  const OWNER_RIGHTS_SID: string := "S-1-3-4"

  const LOGON_SESSION_SIDS: set<string> := {
    "S-1-5-1", "S-1-5-2", "S-1-5-3", "S-1-5-4", "S-1-5-6", "S-1-5-13", "S-1-5-14", "S-1-2-0", "S-1-2-1",
    "S-1-5-64-10", "S-1-5-64-14", "S-1-5-64-21", "S-1-5-113", "S-1-5-114"
  }

  datatype RightsLayer = SmbShare | Ntfs | Effective

  datatype AclEntry = AclEntry(
    trusteeKey: string,
    trusteeSid: string,
    allow: bool,
    mask: Mask,
    layer: RightsLayer,
    inheritOnly: bool,
    inherited: bool)

  datatype SidOrigin = Subject | GroupMembership | WellKnown | LogonType

  datatype TokenSid = TokenSid(key: string, sid: string, origin: SidOrigin)

  /** What the access check asks of a token: its entries, and whether the subject's own counts. */
  datatype TokenView = TokenView(entries: seq<TokenSid>, subjectPresented: bool) {
    /** The entry for a key, or nothing when the session does not carry it. */
    function Entry(key: string): Option<TokenSid> {
      EntryFrom(0, key)
    }

    function EntryFrom(k: nat, key: string): Option<TokenSid>
      requires k <= |entries|
      decreases |entries| - k
    {
      if k == |entries| then None
      else if entries[k].key != key then EntryFrom(k + 1, key)
      else if entries[k].origin.Subject? && !subjectPresented then None
      else Some(entries[k])
    }
  }

  datatype DaclFacts = DaclFacts(
    daclPresent: bool,
    daclProtected: bool,
    ownerSid: Option<string>,
    ownerKey: Option<string>,
    declaredAceCount: Option<nat>)

  /** A present, unprotected, unowned DACL: what every share ACL is. */
  const UNOWNED_PRESENT_DACL: DaclFacts := DaclFacts(true, false, None, None, None)

  datatype AppliedAce = AppliedAce(
    entry: AclEntry, matched: TokenSid, position: nat, considered: Mask, contributed: Mask)

  /** The four masks a pass accumulates. */
  datatype Masks = Masks(granted: Mask, denied: Mask, allowUnion: Mask, denyUnion: Mask)

  /** The accumulator of one pass: the masks and the evidence. */
  datatype WalkState = WalkState(
    masks: Masks,
    grantedBy: seq<AppliedAce>,
    deniedBy: seq<AppliedAce>,
    superseded: seq<AppliedAce>,
    findings: seq<AccessCondition>,
    evaluated: nat)

  datatype AclEvaluation = AclEvaluation(
    rights: Mask,
    grantedBy: seq<AppliedAce>,
    deniedBy: seq<AppliedAce>,
    superseded: seq<AppliedAce>,
    ownerRights: Option<Mask>,
    canonicalRights: Option<Mask>,
    findings: seq<AccessCondition>)

  datatype Result<+T> = Ok(value: T) | WrongLayer | WrongPath

  /** Generic bits resolved through the file-system mapping. */
  function ExpandGenerics(m: Mask): Mask {
    if m !! GENERIC_RIGHT_BITS then m
    else
      (m - GENERIC_RIGHT_BITS)
      + (if GENERIC_READ in m then FILE_GENERIC_READ else {})
      + (if GENERIC_WRITE in m then FILE_GENERIC_WRITE else {})
      + (if GENERIC_EXECUTE in m then FILE_GENERIC_EXECUTE else {})
      + (if GENERIC_ALL in m then FILE_ALL_ACCESS else {})
  }

  predicate IsPlaceholder(e: AclEntry) {
    e.trusteeSid == CREATOR_OWNER_SID || e.trusteeSid == CREATOR_GROUP_SID
  }

  predicate NamesOwnerRights(e: AclEntry) {
    e.trusteeSid == OWNER_RIGHTS_SID
  }

  function Match(e: AclEntry, token: TokenView, owner: Option<TokenSid>): Option<TokenSid> {
    if NamesOwnerRights(e) then owner else token.Entry(e.trusteeKey)
  }

  /** Whether an entry takes part in the check for this token. */
  predicate Applies(e: AclEntry, token: TokenView, owner: Option<TokenSid>) {
    !e.inheritOnly && !IsPlaceholder(e) && Match(e, token, owner).Some?
  }

  /** The part of an entry's rights that nothing before it had settled the other way. */
  function Contribution(e: AclEntry, m: Masks): Mask {
    ExpandGenerics(e.mask) - if e.allow then m.denied else m.granted
  }

  function SettleMasks(e: AclEntry, m: Masks): Masks {
    if e.allow then
      m.(granted := m.granted + Contribution(e, m), allowUnion := m.allowUnion + ExpandGenerics(e.mask))
    else
      m.(denied := m.denied + Contribution(e, m), denyUnion := m.denyUnion + ExpandGenerics(e.mask))
  }

  /** Fold one entry that takes part: a right goes to whichever entry names it first. */
  function Settle(e: AclEntry, position: nat, matched: TokenSid, w: WalkState): WalkState {
    var contributed := Contribution(e, w.masks);
    var ace := AppliedAce(e, matched, position, ExpandGenerics(e.mask), contributed);
    WalkState(
      SettleMasks(e, w.masks),
      if contributed != {} && e.allow then w.grantedBy + [ace] else w.grantedBy,
      if contributed != {} && !e.allow then w.deniedBy + [ace] else w.deniedBy,
      if contributed != {} then w.superseded else w.superseded + [ace],
      if e.mask !! GENERIC_RIGHT_BITS then w.findings else w.findings + [GenericRightsExpanded],
      w.evaluated + 1)
  }

  function Step(e: AclEntry, position: nat, token: TokenView, owner: Option<TokenSid>, w: WalkState): WalkState {
    if e.inheritOnly then w
    else if IsPlaceholder(e) then w.(findings := w.findings + [CreatorOwnerAce])
    else
      match Match(e, token, owner)
      case None =>
        if e.trusteeSid in LOGON_SESSION_SIDS then w.(findings := w.findings + [LogonTypeTrustee]) else w
      case Some(matched) => Settle(e, position, matched, w)
  }

  function Start(findings: seq<AccessCondition>): WalkState {
    WalkState(Masks({}, {}, {}, {}), [], [], [], findings, 0)
  }

  function WalkOver(entries: seq<AclEntry>, token: TokenView, owner: Option<TokenSid>, findings: seq<AccessCondition>)
    : WalkState
  {
    if |entries| == 0 then Start(findings)
    else
      var n := |entries| - 1;
      Step(entries[n], n, token, owner, WalkOver(entries[..n], token, owner, findings))
  }

  function OwnerOf(token: TokenView, facts: DaclFacts): Option<TokenSid> {
    match facts.ownerKey
    case None => None
    case Some(key) => token.Entry(key)
  }

  /** The rights ownership gives outside the DACL, and the finding that says so. */
  function OwnerRights(owner: Option<TokenSid>, facts: DaclFacts, entries: seq<AclEntry>)
    : (Option<Mask>, seq<AccessCondition>)
  {
    if facts.ownerSid.None? || owner.None? then (None, [])
    else if exists e :: e in entries && NamesOwnerRights(e) && !e.inheritOnly then (None, [OwnerRightsAce])
    else (Some(OWNER_IMPLICIT_RIGHTS), [OwnerImplicitRights])
  }

  function Considered(entries: seq<AclEntry>): seq<AclEntry> {
    if |entries| > MAX_ACL_ENTRIES then entries[..MAX_ACL_ENTRIES] else entries
  }

  /** An explicit entry behind an inherited one, or an explicit Deny behind an explicit Allow. */
  predicate OrderViolated(entries: seq<AclEntry>) {
    exists i, j :: 0 <= i < j < |entries| && !entries[j].inherited &&
                   (entries[i].inherited || (entries[i].allow && !entries[j].allow))
  }

  datatype OrderViolationKind = InheritedBeforeExplicit | AllowBeforeDeny

  /** The explicit entry at `position` stands behind the entry at `earlier`, the first it should precede. */
  datatype OrderViolation = OrderViolation(kind: OrderViolationKind, position: nat, earlier: nat)

  predicate ShouldFollow(e: AclEntry, kind: OrderViolationKind) {
    if kind.InheritedBeforeExplicit? then e.inherited else !e.inherited && e.allow
  }

  predicate FirstToFollow(entries: seq<AclEntry>, i: nat, kind: OrderViolationKind) {
    && i < |entries| && ShouldFollow(entries[i], kind)
    && forall j :: 0 <= j < i ==> !ShouldFollow(entries[j], kind)
  }

  predicate IsViolation(entries: seq<AclEntry>, v: OrderViolation) {
    && v.earlier < v.position < |entries|
    && !entries[v.position].inherited
    && (v.kind.AllowBeforeDeny? ==> !entries[v.position].allow)
    && FirstToFollow(entries, v.earlier, v.kind)
  }

  /** By position, and at one position the inherited entry first. */
  predicate ReportedBefore(v: OrderViolation, w: OrderViolation) {
    v.position < w.position
    || (v.position == w.position && v.kind.InheritedBeforeExplicit? && w.kind.AllowBeforeDeny?)
  }

  /** Everything reported about the first `n` entries, each once and in order. */
  ghost predicate ReportedUpTo(entries: seq<AclEntry>, n: nat, violations: seq<OrderViolation>) {
    && (forall v :: v in violations <==> IsViolation(entries, v) && v.position < n)
    && (forall i, j :: 0 <= i < j < |violations| ==> ReportedBefore(violations[i], violations[j]))
  }

  /** The violations of one entry: behind an inherited one, and, of a Deny, behind an explicit Allow. */
  function ViolationsAt(e: AclEntry, n: nat, inherited: Option<nat>, allowed: Option<nat>): seq<OrderViolation> {
    if e.inherited then []
    else
      (if inherited.Some? then [OrderViolation(InheritedBeforeExplicit, n, inherited.value)] else [])
      + (if !e.allow && allowed.Some? then [OrderViolation(AllowBeforeDeny, n, allowed.value)] else [])
  }

  lemma ViolationsAtIff(entries: seq<AclEntry>, n: nat, inherited: Option<nat>, allowed: Option<nat>)
    requires n < |entries|
    requires FirstSoFar(entries, n, inherited, InheritedBeforeExplicit)
    requires FirstSoFar(entries, n, allowed, AllowBeforeDeny)
    ensures forall v :: v in ViolationsAt(entries[n], n, inherited, allowed)
                        <==> IsViolation(entries, v) && v.position == n
  {
    forall v | IsViolation(entries, v) && v.position == n
      ensures v in ViolationsAt(entries[n], n, inherited, allowed)
    {
      assert ShouldFollow(entries[v.earlier], v.kind);
    }
  }

  lemma ReportedStep(
    entries: seq<AclEntry>, n: nat, violations: seq<OrderViolation>, inherited: Option<nat>, allowed: Option<nat>)
    requires n < |entries| && ReportedUpTo(entries, n, violations)
    requires FirstSoFar(entries, n, inherited, InheritedBeforeExplicit)
    requires FirstSoFar(entries, n, allowed, AllowBeforeDeny)
    ensures ReportedUpTo(entries, n + 1, violations + ViolationsAt(entries[n], n, inherited, allowed))
  {
    var here := ViolationsAt(entries[n], n, inherited, allowed);
    ViolationsAtIff(entries, n, inherited, allowed);
    var all := violations + here;
    forall i, j | 0 <= i < j < |all| ensures ReportedBefore(all[i], all[j]) {
      if i < |violations| <= j {
        assert violations[i] in violations && here[j - |violations|] in here;
      }
    }
  }

  /** Every departure from canonical order that stored facts can show, and nothing else. */
  method CanonicalOrderViolations(entries: seq<AclEntry>) returns (violations: seq<OrderViolation>)
    ensures forall v :: v in violations <==> IsViolation(entries, v)
    ensures forall i, j :: 0 <= i < j < |violations| ==> ReportedBefore(violations[i], violations[j])
    ensures |violations| > 0 <==> OrderViolated(entries)
  {
    violations := [];
    var firstInherited: Option<nat> := None;
    var firstExplicitAllow: Option<nat> := None;
    for position := 0 to |entries|
      invariant FirstSoFar(entries, position, firstInherited, InheritedBeforeExplicit)
      invariant FirstSoFar(entries, position, firstExplicitAllow, AllowBeforeDeny)
      invariant ReportedUpTo(entries, position, violations)
    {
      var entry := entries[position];
      ghost var before := violations;
      ReportedStep(entries, position, violations, firstInherited, firstExplicitAllow);
      if entry.inherited {
        assert before + [] == before;
        if firstInherited.None? {
          firstInherited := Some(position);
        }
        continue;
      }
      if firstInherited.Some? {
        violations := violations + [OrderViolation(InheritedBeforeExplicit, position, firstInherited.value)];
      }
      if entry.allow {
        assert violations == before + ViolationsAt(entry, position, firstInherited, firstExplicitAllow);
        if firstExplicitAllow.None? {
          firstExplicitAllow := Some(position);
        }
      } else {
        if firstExplicitAllow.Some? {
          violations := violations + [OrderViolation(AllowBeforeDeny, position, firstExplicitAllow.value)];
        }
        assert violations == before + ViolationsAt(entry, position, firstInherited, firstExplicitAllow);
      }
    }
    ViolatedIff(entries);
    assert |violations| > 0 ==> violations[0] in violations;
  }

  predicate FirstSoFar(entries: seq<AclEntry>, n: nat, first: Option<nat>, kind: OrderViolationKind)
    requires n <= |entries|
  {
    match first
    case None => forall j :: 0 <= j < n ==> !ShouldFollow(entries[j], kind)
    case Some(i) => i < n && FirstToFollow(entries, i, kind)
  }

  lemma FirstOf(entries: seq<AclEntry>, i: nat, kind: OrderViolationKind) returns (k: nat)
    requires i < |entries| && ShouldFollow(entries[i], kind)
    ensures k <= i && FirstToFollow(entries, k, kind)
  {
    if j :| 0 <= j < i && ShouldFollow(entries[j], kind) {
      k := FirstOf(entries, j, kind);
    } else {
      k := i;
    }
  }

  /** An order is violated exactly when some departure can be named. */
  lemma ViolatedIff(entries: seq<AclEntry>)
    ensures OrderViolated(entries) <==> exists v :: IsViolation(entries, v)
  {
    if OrderViolated(entries) {
      var i, j :| 0 <= i < j < |entries| && !entries[j].inherited &&
                  (entries[i].inherited || (entries[i].allow && !entries[j].allow));
      var kind := if entries[i].inherited then InheritedBeforeExplicit else AllowBeforeDeny;
      var k := FirstOf(entries, i, kind);
      assert IsViolation(entries, OrderViolation(kind, j, k));
    }
    if v :| IsViolation(entries, v) {
      assert ShouldFollow(entries[v.earlier], v.kind);
    }
  }

  /** What the descriptor itself gives reason to report, in the order it is reported. */
  function DescriptorFindings(entries: seq<AclEntry>, facts: DaclFacts, violated: bool): seq<AccessCondition> {
    (if |Considered(entries)| == 0 then [EmptyDacl] else [])
    + (if facts.daclProtected then [ProtectedDacl] else [])
    + (if |entries| > MAX_ACL_ENTRIES then [AclTruncated] else [])
    + (if facts.declaredAceCount.Some? && facts.declaredAceCount.value != |entries| then [AceCountMismatch] else [])
    + (if violated then [NonCanonicalDacl] else [])
  }

  /** What the answer gives reason to report. */
  function ResultFindings(rights: Mask, canonical: Mask): seq<AccessCondition> {
    (if canonical != rights then [OrderDependentResult] else [])
    + (if MAXIMUM_ALLOWED in rights then [IndeterminateRights] else [])
    + (if !(rights <= KNOWN_BITS) then [UnrecognizedRightsBits] else [])
  }

  /** The findings appended after the walk, in the order they are appended. */
  function ClosingFindings(entries: seq<AclEntry>, facts: DaclFacts, violated: bool, rights: Mask, canonical: Mask)
    : seq<AccessCondition>
  {
    DescriptorFindings(entries, facts, violated) + ResultFindings(rights, canonical)
  }

  function NullEvaluation(supplied: nat): AclEvaluation {
    AclEvaluation(FILE_ALL_ACCESS, [], [], [], None, None,
                  [NullDacl] + if supplied != 0 then [AceCountMismatch] else [])
  }

  function Close(w: WalkState, ownerRights: Option<Mask>, entries: seq<AclEntry>, facts: DaclFacts, violated: bool)
    : AclEvaluation
  {
    var extra := ownerRights.GetOr({});
    var rights := w.masks.granted + extra;
    var canonical := (w.masks.allowUnion - w.masks.denyUnion) + extra;
    AclEvaluation(rights, w.grantedBy, w.deniedBy, w.superseded, ownerRights, Some(canonical),
                  w.findings + ClosingFindings(entries, facts, violated, rights, canonical))
  }

  function Evaluate(entries: seq<AclEntry>, token: TokenView, layer: RightsLayer, facts: DaclFacts)
    : Result<AclEvaluation>
  {
    if layer.Effective? || exists e :: e in entries && e.layer != layer then WrongLayer
    else if !facts.daclPresent then Ok(NullEvaluation(|entries|))
    else
      var owner := OwnerOf(token, facts);
      var (ownerRights, notes) := OwnerRights(owner, facts, Considered(entries));
      Ok(Close(WalkOver(Considered(entries), token, owner, notes), ownerRights, entries, facts,
               OrderViolated(Considered(entries))))
  }

  /** The mutable accumulator of the source. */
  class Walk {
    var granted: Mask
    var denied: Mask
    var allowUnion: Mask
    var denyUnion: Mask
    var grantedBy: seq<AppliedAce>
    var deniedBy: seq<AppliedAce>
    var superseded: seq<AppliedAce>
    var findings: seq<AccessCondition>
    var evaluated: nat

    function State(): WalkState
      reads this
    {
      WalkState(Masks(granted, denied, allowUnion, denyUnion), grantedBy, deniedBy, superseded, findings, evaluated)
    }

    constructor (notes: seq<AccessCondition>)
      ensures State() == Start(notes)
    {
      granted, denied, allowUnion, denyUnion := {}, {}, {}, {};
      grantedBy, deniedBy, superseded, findings, evaluated := [], [], [], notes, 0;
    }

    method Apply(entry: AclEntry, position: nat, token: TokenView, owner: Option<TokenSid>)
      modifies this
      ensures State() == Step(entry, position, token, owner, old(State()))
    {
      if entry.inheritOnly {
        return;
      }
      if IsPlaceholder(entry) {
        findings := findings + [CreatorOwnerAce];
        return;
      }
      var matched := Match(entry, token, owner);
      if matched.None? {
        if entry.trusteeSid in LOGON_SESSION_SIDS {
          findings := findings + [LogonTypeTrustee];
        }
        return;
      }
      ApplyMatched(entry, position, matched.value);
    }

    /** The part of the pass that an entry of the token's own trustees takes. */
    method ApplyMatched(entry: AclEntry, position: nat, matched: TokenSid)
      modifies this
      ensures State() == Settle(entry, position, matched, old(State()))
    {
      evaluated := evaluated + 1;
      if !(entry.mask !! GENERIC_RIGHT_BITS) {
        findings := findings + [GenericRightsExpanded];
      }
      var value := ExpandGenerics(entry.mask);
      if entry.allow {
        var contributed := value - denied;
        allowUnion := allowUnion + value;
        var ace := AppliedAce(entry, matched, position, value, contributed);
        granted := granted + contributed;
        if contributed != {} {
          grantedBy := grantedBy + [ace];
        } else {
          superseded := superseded + [ace];
        }
        assert State().masks == SettleMasks(entry, old(State()).masks);
        return;
      }
      var contributed := value - granted;
      denyUnion := denyUnion + value;
      var ace := AppliedAce(entry, matched, position, value, contributed);
      denied := denied + contributed;
      if contributed != {} {
        deniedBy := deniedBy + [ace];
      } else {
        superseded := superseded + [ace];
      }
      assert State().masks == SettleMasks(entry, old(State()).masks);
    }
  }

  /** The pass itself: every considered entry folded into a new accumulator, in order. */
  method WalkEntries(
    entries: seq<AclEntry>, token: TokenView, owner: Option<TokenSid>, notes: seq<AccessCondition>)
    returns (walk: Walk)
    ensures fresh(walk) && walk.State() == WalkOver(entries, token, owner, notes)
  {
    walk := new Walk(notes);
    for position := 0 to |entries|
      invariant fresh(walk) && walk.State() == WalkOver(entries[..position], token, owner, notes)
    {
      assert entries[..position + 1][..position] == entries[..position];
      walk.Apply(entries[position], position, token, owner);
    }
    assert entries[..|entries|] == entries;
  }

  /** The check as the source runs it: one pass over a mutable accumulator. */
  method EvaluateAcl(entries: seq<AclEntry>, token: TokenView, layer: RightsLayer, facts: DaclFacts)
    returns (r: Result<AclEvaluation>)
    ensures r == Evaluate(entries, token, layer, facts)
  {
    if layer.Effective? {
      return WrongLayer;
    }
    for k := 0 to |entries|
      invariant forall e :: e in entries[..k] ==> e.layer == layer
    {
      if entries[k].layer != layer {
        assert entries[k] in entries;
        return WrongLayer;
      }
      assert entries[..k + 1] == entries[..k] + [entries[k]];
    }
    assert entries[..|entries|] == entries;
    if !facts.daclPresent {
      return Ok(NullEvaluation(|entries|));
    }
    var considered := Considered(entries);
    var owner := OwnerOf(token, facts);
    var (ownerRights, notes) := OwnerRights(owner, facts, considered);
    var walk := WalkEntries(considered, token, owner, notes);
    var violations := CanonicalOrderViolations(considered);
    r := Ok(Close(walk.State(), ownerRights, entries, facts, |violations| > 0));
  }
}
