/** The token an access check is run for: `build_token`, and which identity SYSTEM stands for. */
module AccessToken {
  import opened Options
  import opened Seqs
  import opened AccessConditions
  import opened AclWalk

  datatype PrincipalKind =
    | User | DomainGroup | LocalGroup | Computer | ManagedServiceAccount
    | WellKnownPrincipal | ForeignSecurityPrincipal | UnresolvedPrincipal

  datatype AccessPath = RemoteSmb | Local

  datatype TokenAssumption = AuthenticatedUser | Anonymous | SidsOnly

  datatype SystemMapping = Confirmed | Ambiguous | Missing | Conflicting

  datatype SubjectFacts = SubjectFacts(key: string, sid: string, kind: Option<PrincipalKind>, enabled: Option<bool>) {
    predicate IsGroup() {
      kind == Some(DomainGroup) || kind == Some(LocalGroup)
    }

    predicate Resolved() {
      kind.Some? && kind.value != UnresolvedPrincipal
    }
  }

  datatype SubjectToken = SubjectToken(
    path: AccessPath,
    view: TokenView,
    findings: seq<AccessCondition>,
    systemMapping: Option<SystemMapping>)

  const SYSTEM_SID: string := "S-1-5-18"
  const EVERYONE_SID: string := "S-1-1-0"
  const AUTHENTICATED_USERS_SID: string := "S-1-5-11"
  const ANONYMOUS_LOGON_SID: string := "S-1-5-7"
  const NETWORK_SID: string := "S-1-5-2"
  const INTERACTIVE_SID: string := "S-1-5-4"

  function DefaultAssumption(subject: SubjectFacts): TokenAssumption {
    if subject.sid == ANONYMOUS_LOGON_SID then Anonymous
    else if subject.sid == SYSTEM_SID || subject.kind == Some(WellKnownPrincipal) then SidsOnly
    else AuthenticatedUser
  }

  function SystemMappingOf(subject: SubjectFacts, path: AccessPath): Option<SystemMapping> {
    if subject.sid != SYSTEM_SID then None
    else if subject.kind.Some? && subject.kind.value != WellKnownPrincipal && subject.kind.value != UnresolvedPrincipal
    then Some(Conflicting)
    else if path.RemoteSmb? then Some(Ambiguous)
    else if !subject.Resolved() then Some(Missing)
    else Some(Confirmed)
  }

  function MappingCondition(m: SystemMapping): AccessCondition {
    match m
    case Confirmed => SystemMappingConfirmed
    case Ambiguous => SystemMappingAmbiguous
    case Missing => SystemMappingMissing
    case Conflicting => SystemMappingConflicting
  }

  predicate PresentsSubject(subject: SubjectFacts, path: AccessPath) {
    !(subject.sid == SYSTEM_SID && path.RemoteSmb?)
  }

  predicate HasKey(entries: seq<TokenSid>, key: string) {
    exists e :: e in entries && e.key == key
  }

  /** Append an entry unless its key is already there. */
  function AddSid(entries: seq<TokenSid>, s: TokenSid): seq<TokenSid> {
    if HasKey(entries, s.key) then entries else entries + [s]
  }

  function AddSids(entries: seq<TokenSid>, more: seq<TokenSid>): seq<TokenSid> {
    if |more| == 0 then entries else AddSid(AddSids(entries, more[..|more| - 1]), more[|more| - 1])
  }

  function AssumedSids(assumption: TokenAssumption, path: AccessPath): seq<TokenSid> {
    if assumption.SidsOnly? then []
    else
      var logon := if path.RemoteSmb? then NETWORK_SID else INTERACTIVE_SID;
      var who := if assumption.AuthenticatedUser? then AUTHENTICATED_USERS_SID else ANONYMOUS_LOGON_SID;
      [TokenSid(EVERYONE_SID, EVERYONE_SID, WellKnown), TokenSid(who, who, WellKnown),
       TokenSid(logon, logon, LogonType)]
  }

  /** The subject first, then its observed groups unless the subject is not presented, then the assumed. */
  function BuildToken(
    subject: SubjectFacts,
    groups: seq<TokenSid>,
    path: AccessPath,
    assumption: Option<TokenAssumption>,
    membershipComplete: bool,
    notes: seq<AccessCondition>)
    : SubjectToken
  {
    var presented := PresentsSubject(subject, path);
    var observed := AddSids([TokenSid(subject.key, subject.sid, Subject)], if presented then groups else []);
    var entries := AddSids(observed, AssumedSids(assumption.GetOr(DefaultAssumption(subject)), path));
    var mapping := SystemMappingOf(subject, path);
    SubjectToken(
      path,
      TokenView(entries, presented),
      notes
      + (if !subject.Resolved() then [SubjectUnresolved] else [])
      + (if mapping.Some? then [MappingCondition(mapping.value)] else [])
      + (if subject.IsGroup() then [SubjectIsAGroup] else [])
      + (if subject.enabled == Some(false) then [SubjectDisabled] else [])
      + (if !membershipComplete then [MembershipTruncated] else [])
      + (if |entries| > |observed| then [AssumedTokenSids] else []),
      mapping)
  }

  ghost predicate DistinctKeys(entries: seq<TokenSid>) {
    forall i, j :: 0 <= i < j < |entries| ==> entries[i].key != entries[j].key
  }

  lemma {:induction false} AddSidsKeeps(entries: seq<TokenSid>, more: seq<TokenSid>)
    requires DistinctKeys(entries)
    ensures DistinctKeys(AddSids(entries, more))
    ensures entries <= AddSids(entries, more)
  {
    if |more| == 0 {
    } else {
      AddSidsKeeps(entries, more[..|more| - 1]);
    }
  }

  /** A token never carries one key twice, and the subject is always its first entry. */
  lemma TokenKeysDistinct(
    subject: SubjectFacts, groups: seq<TokenSid>, path: AccessPath, assumption: Option<TokenAssumption>,
    membershipComplete: bool, notes: seq<AccessCondition>)
    ensures var t := BuildToken(subject, groups, path, assumption, membershipComplete, notes);
            && DistinctKeys(t.view.entries)
            && |t.view.entries| > 0
            && t.view.entries[0] == TokenSid(subject.key, subject.sid, Subject)
  {
    var first := [TokenSid(subject.key, subject.sid, Subject)];
    var groups' := if PresentsSubject(subject, path) then groups else [];
    AddSidsKeeps(first, groups');
    AddSidsKeeps(AddSids(first, groups'), AssumedSids(assumption.GetOr(DefaultAssumption(subject)), path));
  }

  // ------------------------------------------------------------------- what a token holds

  /** `more[i]` brings a key that neither `entries` nor anything before it in `more` has. */
  ghost predicate BringsKey(entries: seq<TokenSid>, more: seq<TokenSid>, i: nat) {
    && i < |more|
    && (forall e :: e in entries ==> e.key != more[i].key)
    && (forall j :: 0 <= j < i ==> more[j].key != more[i].key)
  }

  /** `kept` are the elements of `more` that bring a key, unchanged and in order; `at` says where they stand. */
  ghost predicate FirstOfEachKey(entries: seq<TokenSid>, more: seq<TokenSid>, kept: seq<TokenSid>, at: seq<nat>) {
    AreSources(at, kept, more) && forall i: nat :: i in at <==> BringsKey(entries, more, i)
  }

  lemma BringsKeyIff(entries: seq<TokenSid>, more: seq<TokenSid>, i: nat)
    requires i < |more|
    ensures BringsKey(entries, more, i) <==> !HasKey(entries, more[i].key) && !HasKey(more[..i], more[i].key)
  {
    if !HasKey(more[..i], more[i].key) {
      forall j | 0 <= j < i ensures more[j].key != more[i].key {
        assert more[..i][j] in more[..i];
      }
    }
  }

  lemma {:induction false} AddSidsKept(entries: seq<TokenSid>, more: seq<TokenSid>)
    returns (kept: seq<TokenSid>, at: seq<nat>)
    ensures AddSids(entries, more) == entries + kept && FirstOfEachKey(entries, more, kept, at)
    ensures forall key :: HasKey(entries + kept, key) <==> HasKey(entries, key) || HasKey(more, key)
  {
    if |more| == 0 {
      kept, at := [], [];
      assert entries + [] == entries;
    } else {
      var n := |more| - 1;
      var rest, x := more[..n], more[n];
      kept, at := AddSidsKept(entries, rest);
      assert more == rest + [x];
      SourcesSnoc(at, kept, rest, x);
      KeysSnoc(rest, x);
      BringsKeyIff(entries, more, n);
      forall i: nat | i < n ensures BringsKey(entries, more, i) <==> BringsKey(entries, rest, i) {
      }
      if !HasKey(entries + kept, x.key) {
        KeysSnoc(entries + kept, x);
        assert entries + kept + [x] == entries + (kept + [x]);
        kept, at := kept + [x], at + [n];
      }
    }
  }

  lemma KeysSnoc(entries: seq<TokenSid>, x: TokenSid)
    ensures forall key :: HasKey(entries + [x], key) <==> HasKey(entries, key) || key == x.key
  {
    forall key ensures HasKey(entries + [x], key) <==> HasKey(entries, key) || key == x.key {
      if key == x.key {
        assert x in entries + [x];
      }
      if HasKey(entries, key) {
        var e :| e in entries && e.key == key;
        assert e in entries + [x];
      }
    }
  }

  /** What the assumption is, when none is given: who the subject is decides it. */
  ghost predicate Assumes(subject: SubjectFacts, given: Option<TokenAssumption>, a: TokenAssumption) {
    if given.Some? then a == given.value
    else if subject.sid == "S-1-5-7" then a == Anonymous
    else if subject.sid == "S-1-5-18" || subject.kind == Some(WellKnownPrincipal) then a == SidsOnly
    else a == AuthenticatedUser
  }

  /** The SIDs such a session carries whoever the subject is, from broadest to narrowest. */
  ghost predicate SessionSids(a: TokenAssumption, path: AccessPath, sids: seq<TokenSid>) {
    match a
    case SidsOnly => sids == []
    case AuthenticatedUser =>
      |sids| == 3 && sids[0] == TokenSid("S-1-1-0", "S-1-1-0", WellKnown)
      && sids[1] == TokenSid("S-1-5-11", "S-1-5-11", WellKnown) && IsLogonSid(path, sids[2])
    case Anonymous =>
      |sids| == 3 && sids[0] == TokenSid("S-1-1-0", "S-1-1-0", WellKnown)
      && sids[1] == TokenSid("S-1-5-7", "S-1-5-7", WellKnown) && IsLogonSid(path, sids[2])
  }

  ghost predicate IsLogonSid(path: AccessPath, s: TokenSid) {
    match path
    case RemoteSmb => s == TokenSid("S-1-5-2", "S-1-5-2", LogonType)
    case Local => s == TokenSid("S-1-5-4", "S-1-5-4", LogonType)
  }

  /** SYSTEM over a share is the one subject a session does not present. */
  ghost predicate Unpresented(subject: SubjectFacts, path: AccessPath) {
    subject.sid == "S-1-5-18" && path == RemoteSmb
  }

  /**
   * The token is exactly the subject; then, unless the session does not present it, the first group
   * of each key not there yet, unchanged and in order; then the SIDs of the session whose keys are
   * not there yet.
   */
  lemma TokenHolds(
    subject: SubjectFacts, groups: seq<TokenSid>, path: AccessPath, assumption: Option<TokenAssumption>,
    membershipComplete: bool, notes: seq<AccessCondition>)
    returns (member: seq<TokenSid>, memberAt: seq<nat>, sids: seq<TokenSid>, added: seq<TokenSid>, addedAt: seq<nat>,
             a: TokenAssumption)
    ensures var view := BuildToken(subject, groups, path, assumption, membershipComplete, notes).view;
            var first := [TokenSid(subject.key, subject.sid, Subject)];
            && view.entries == first + member + added
            && (if Unpresented(subject, path) then member == [] else FirstOfEachKey(first, groups, member, memberAt))
            && FirstOfEachKey(first + member, sids, added, addedAt)
            && (view.subjectPresented <==> !Unpresented(subject, path))
    ensures Assumes(subject, assumption, a) && SessionSids(a, path, sids)
  {
    var first := [TokenSid(subject.key, subject.sid, Subject)];
    a := assumption.GetOr(DefaultAssumption(subject));
    sids := AssumedSids(a, path);
    member, memberAt := [], [];
    if !Unpresented(subject, path) {
      member, memberAt := AddSidsKept(first, groups);
    }
    assert first + [] == first;
    added, addedAt := AddSidsKept(first + member, sids);
  }

  /** So a token carries a key exactly when one of the three lists brings it. */
  lemma TokenKeysIff(
    subject: SubjectFacts, groups: seq<TokenSid>, path: AccessPath, assumption: Option<TokenAssumption>,
    membershipComplete: bool, notes: seq<AccessCondition>, key: string)
    returns (sids: seq<TokenSid>, a: TokenAssumption)
    ensures Assumes(subject, assumption, a) && SessionSids(a, path, sids)
    ensures var entries := BuildToken(subject, groups, path, assumption, membershipComplete, notes).view.entries;
            (exists e :: e in entries && e.key == key)
            <==> || key == subject.key
                 || (!Unpresented(subject, path) && exists g :: g in groups && g.key == key)
                 || exists s :: s in sids && s.key == key
  {
    var first := [TokenSid(subject.key, subject.sid, Subject)];
    a := assumption.GetOr(DefaultAssumption(subject));
    sids := AssumedSids(a, path);
    var more := if Unpresented(subject, path) then [] else groups;
    var member, memberAt := AddSidsKept(first, more);
    var added, addedAt := AddSidsKept(first + member, sids);
    var entries := BuildToken(subject, groups, path, assumption, membershipComplete, notes).view.entries;
    assert entries == first + member + added;
    assert HasKey(first, key) <==> key == subject.key by {
      assert first[0] in first;
    }
    assert HasKey(entries, key) <==> HasKey(first, key) || HasKey(more, key) || HasKey(sids, key);
  }

  /** Neither the subject nor a presented group has this key. */
  ghost predicate NotObserved(subject: SubjectFacts, groups: seq<TokenSid>, path: AccessPath, key: string) {
    key != subject.key && (Unpresented(subject, path) || forall g :: g in groups ==> g.key != key)
  }

  /** Each finding of a token has its one cause, besides those it was given. */
  lemma TokenFindingsIff(
    subject: SubjectFacts, groups: seq<TokenSid>, path: AccessPath, assumption: Option<TokenAssumption>,
    membershipComplete: bool, notes: seq<AccessCondition>, f: AccessCondition)
    returns (sids: seq<TokenSid>, a: TokenAssumption)
    ensures Assumes(subject, assumption, a) && SessionSids(a, path, sids)
    ensures var token := BuildToken(subject, groups, path, assumption, membershipComplete, notes);
            var described := subject.kind.Some? && subject.kind.value != UnresolvedPrincipal;
            var system := subject.sid == "S-1-5-18";
            var conflicting := described && subject.kind.value != WellKnownPrincipal;
            f in token.findings
            <==> || f in notes
                 || (f == SubjectUnresolved && !described)
                 || (f == SystemMappingConflicting && system && conflicting)
                 || (f == SystemMappingAmbiguous && system && !conflicting && path == RemoteSmb)
                 || (f == SystemMappingMissing && system && path == Local && !described)
                 || (f == SystemMappingConfirmed && system && path == Local && described && !conflicting)
                 || (f == SubjectIsAGroup && subject.kind in {Some(DomainGroup), Some(LocalGroup)})
                 || (f == SubjectDisabled && subject.enabled == Some(false))
                 || (f == MembershipTruncated && !membershipComplete)
                 || (f == AssumedTokenSids && exists s :: s in sids && NotObserved(subject, groups, path, s.key))
  {
    a := assumption.GetOr(DefaultAssumption(subject));
    sids := AssumedSids(a, path);
    SessionAdds(subject, groups, path, sids);
    MappingCauses(subject, path, f);
    FindingCauses(subject, groups, path, assumption, membershipComplete, notes, f);
  }

  /** The observed part of a token: the subject and its presented groups. */
  function ObservedSids(subject: SubjectFacts, groups: seq<TokenSid>, path: AccessPath): seq<TokenSid> {
    AddSids([TokenSid(subject.key, subject.sid, Subject)], if PresentsSubject(subject, path) then groups else [])
  }

  /** The session adds a SID exactly when it carries one that was not observed. */
  lemma SessionAdds(subject: SubjectFacts, groups: seq<TokenSid>, path: AccessPath, sids: seq<TokenSid>)
    ensures |AddSids(ObservedSids(subject, groups, path), sids)| > |ObservedSids(subject, groups, path)|
            <==> exists s :: s in sids && NotObserved(subject, groups, path, s.key)
  {
    var first := [TokenSid(subject.key, subject.sid, Subject)];
    var more := if Unpresented(subject, path) then [] else groups;
    var member, memberAt := AddSidsKept(first, more);
    var added, addedAt := AddSidsKept(first + member, sids);
    assert HasKey(first, subject.key) by {
      assert first[0] in first;
    }
    forall s: TokenSid ensures NotObserved(subject, groups, path, s.key) <==> !HasKey(first + member, s.key) {
    }
    SomethingAdded(first + member, sids, added, addedAt);
  }

  /** SYSTEM leaves with one finding for its mapping, and nobody else with any. */
  lemma MappingCauses(subject: SubjectFacts, path: AccessPath, f: AccessCondition)
    ensures var mapping := SystemMappingOf(subject, path);
            var described := subject.kind.Some? && subject.kind.value != UnresolvedPrincipal;
            var system := subject.sid == "S-1-5-18";
            var conflicting := described && subject.kind.value != WellKnownPrincipal;
            mapping.Some? && f == MappingCondition(mapping.value)
            <==> || (f == SystemMappingConflicting && system && conflicting)
                 || (f == SystemMappingAmbiguous && system && !conflicting && path == RemoteSmb)
                 || (f == SystemMappingMissing && system && path == Local && !described)
                 || (f == SystemMappingConfirmed && system && path == Local && described && !conflicting)
  {
  }

  lemma FindingCauses(
    subject: SubjectFacts, groups: seq<TokenSid>, path: AccessPath, assumption: Option<TokenAssumption>,
    membershipComplete: bool, notes: seq<AccessCondition>, f: AccessCondition)
    ensures var token := BuildToken(subject, groups, path, assumption, membershipComplete, notes);
            var observed := ObservedSids(subject, groups, path);
            var sids := AssumedSids(assumption.GetOr(DefaultAssumption(subject)), path);
            var mapping := SystemMappingOf(subject, path);
            f in token.findings
            <==> || f in notes
                 || (f == SubjectUnresolved && !subject.Resolved())
                 || (mapping.Some? && f == MappingCondition(mapping.value))
                 || (f == SubjectIsAGroup && subject.IsGroup())
                 || (f == SubjectDisabled && subject.enabled == Some(false))
                 || (f == MembershipTruncated && !membershipComplete)
                 || (f == AssumedTokenSids && |AddSids(observed, sids)| > |observed|)
  {
  }

  /** Something is added exactly when one of the candidates has a new key. */
  lemma SomethingAdded(entries: seq<TokenSid>, more: seq<TokenSid>, kept: seq<TokenSid>, at: seq<nat>)
    requires FirstOfEachKey(entries, more, kept, at)
    requires forall key :: HasKey(entries + kept, key) <==> HasKey(entries, key) || HasKey(more, key)
    ensures kept != [] <==> exists s :: s in more && !HasKey(entries, s.key)
  {
    if kept != [] {
      assert at[0] in at;
      BringsKeyIff(entries, more, at[0]);
      assert more[at[0]] in more;
    }
    assert kept == [] ==> entries + kept == entries;
    if s :| s in more && !HasKey(entries, s.key) {
      assert HasKey(more, s.key);
    }
  }

  /** Over a share no entry naming SYSTEM's own key is ever matched. */
  lemma SystemIsNotPresented(
    subject: SubjectFacts, groups: seq<TokenSid>, assumption: Option<TokenAssumption>,
    membershipComplete: bool, notes: seq<AccessCondition>)
    requires subject.sid == SYSTEM_SID
    ensures var token := BuildToken(subject, groups, RemoteSmb, assumption, membershipComplete, notes);
            token.view.Entry(subject.key) == None
  {
    TokenKeysDistinct(subject, groups, RemoteSmb, assumption, membershipComplete, notes);
  }

  /** Every token built for SYSTEM carries a finding that may hide a grant. */
  lemma SystemTokenUnderstates(
    subject: SubjectFacts, groups: seq<TokenSid>, path: AccessPath, assumption: Option<TokenAssumption>,
    membershipComplete: bool, notes: seq<AccessCondition>)
    requires subject.sid == SYSTEM_SID
    ensures MayUnderstate(BuildToken(subject, groups, path, assumption, membershipComplete, notes).findings)
  {
    var m := SystemMappingOf(subject, path);
    assert m.Some?;
    var f := MappingCondition(m.value);
    assert f in UNDERSTATING_CONDITIONS;
    assert f in BuildToken(subject, groups, path, assumption, membershipComplete, notes).findings;
  }
}
