/** The access check in the terms of its input alone: access bits by number, SIDs by name. */
module AclRights {
  import opened Options
  import opened Seqs
  import opened AccessConditions
  import opened AclWalk
  import opened AclFacts

  // ------------------------------------------------------------------------- what is asked for

  /** The rights of `FILE_ALL_ACCESS`, which `GENERIC_ALL` and a NULL DACL stand for. */
  predicate IsFileRight(r: int) {
    0 <= r <= 8 || 16 <= r <= 20
  }

  /** A mask asks for its own bits below the generic four, and for what each of those stands for. */
  predicate AsksForBit(m: Mask, r: Right) {
    || (r < 28 && r in m)
    || (31 in m && r in {0, 3, 7, 17, 20})
    || (30 in m && r in {1, 2, 4, 8, 17, 20})
    || (29 in m && r in {5, 7, 17, 20})
    || (28 in m && IsFileRight(r))
  }

  lemma AsksIff(m: Mask, r: Right)
    ensures r in ExpandGenerics(m) <==> AsksForBit(m, r)
  {
    assert forall x :: x in m && x in GENERIC_RIGHT_BITS ==> x == 28 || x == 29 || x == 30 || x == 31;
  }

  // ---------------------------------------------------------------------------- who is meant

  /** The first entry of the token under this key is one the session presents. */
  ghost predicate Carries(token: TokenView, key: string) {
    exists k :: CarriesAt(token, key, k)
  }

  ghost predicate CarriesAt(token: TokenView, key: string, k: int) {
    && 0 <= k < |token.entries| && token.entries[k].key == key
    && (forall j :: 0 <= j < k ==> token.entries[j].key != key)
    && (token.entries[k].origin == Subject ==> token.subjectPresented)
  }

  lemma {:induction false} CarriesFrom(token: TokenView, key: string, n: nat)
    requires n <= |token.entries| && forall j :: 0 <= j < n ==> token.entries[j].key != key
    ensures forall s :: token.EntryFrom(n, key) == Some(s)
                        <==> exists k :: CarriesAt(token, key, k) && token.entries[k] == s
    decreases |token.entries| - n
  {
    if n == |token.entries| {
    } else if token.entries[n].key != key {
      CarriesFrom(token, key, n + 1);
    } else {
      assert forall k :: CarriesAt(token, key, k) ==> k == n;
      if token.EntryFrom(n, key).Some? {
        assert CarriesAt(token, key, n);
      }
    }
  }

  lemma CarriesIff(token: TokenView, key: string)
    ensures token.Entry(key).Some? <==> Carries(token, key)
    ensures forall s :: token.Entry(key) == Some(s) <==> exists k :: CarriesAt(token, key, k) && token.entries[k] == s
  {
    CarriesFrom(token, key, 0);
    if k :| CarriesAt(token, key, k) {
      assert token.Entry(key) == Some(token.entries[k]);
    }
  }

  /** The token carries the key the owner is stored under. */
  ghost predicate CarriesOwner(token: TokenView, facts: DaclFacts) {
    facts.ownerKey.Some? && Carries(token, facts.ownerKey.value)
  }

  /**
   * An entry takes part unless it only describes children, or stands for a creator; one for OWNER
   * RIGHTS speaks of the owner, and any other of its own trustee.
   */
  ghost predicate TakesPart(e: AclEntry, token: TokenView, facts: DaclFacts) {
    && !e.inheritOnly && e.trusteeSid != "S-1-3-0" && e.trusteeSid != "S-1-3-1"
    && if e.trusteeSid == "S-1-3-4" then CarriesOwner(token, facts) else Carries(token, e.trusteeKey)
  }

  lemma TakesPartIff(e: AclEntry, token: TokenView, facts: DaclFacts)
    ensures Applies(e, token, OwnerOf(token, facts)) <==> TakesPart(e, token, facts)
  {
    CarriesIff(token, e.trusteeKey);
    if facts.ownerKey.Some? {
      CarriesIff(token, facts.ownerKey.value);
    }
  }

  /** The entry at `k` takes part and asks for `r`. */
  ghost predicate AsksFor(entries: seq<AclEntry>, token: TokenView, facts: DaclFacts, k: int, r: Right) {
    0 <= k < |entries| && TakesPart(entries[k], token, facts) && AsksForBit(entries[k].mask, r)
  }

  /** The first of the entries that asks for `r` allows it, or denies it. */
  ghost predicate FirstSays(entries: seq<AclEntry>, token: TokenView, facts: DaclFacts, r: Right, allow: bool) {
    exists k :: AsksFirst(entries, token, facts, k, r) && entries[k].allow == allow
  }

  ghost predicate AsksFirst(entries: seq<AclEntry>, token: TokenView, facts: DaclFacts, k: int, r: Right) {
    && AsksFor(entries, token, facts, k, r)
    && forall j :: 0 <= j < k ==> !AsksFor(entries, token, facts, j, r)
  }

  lemma AsksForIff(entries: seq<AclEntry>, token: TokenView, facts: DaclFacts, k: int, r: Right)
    ensures Names(entries, token, OwnerOf(token, facts), k, r) <==> AsksFor(entries, token, facts, k, r)
  {
    if 0 <= k < |entries| {
      TakesPartIff(entries[k], token, facts);
      AsksIff(entries[k].mask, r);
    }
  }

  lemma FirstSaysIff(entries: seq<AclEntry>, token: TokenView, facts: DaclFacts, r: Right, allow: bool)
    ensures FirstIs(entries, token, OwnerOf(token, facts), r, allow) <==> FirstSays(entries, token, facts, r, allow)
  {
    forall k ensures Names(entries, token, OwnerOf(token, facts), k, r) <==> AsksFor(entries, token, facts, k, r) {
      AsksForIff(entries, token, facts, k, r);
    }
    forall k
      ensures NamesFirst(entries, token, OwnerOf(token, facts), k, r) <==> AsksFirst(entries, token, facts, k, r)
    {
    }
  }

  // --------------------------------------------------------------------------- what is granted

  /** The first 4096 entries, which are all that are walked. */
  function Walked(entries: seq<AclEntry>): seq<AclEntry> {
    Take(4096, entries)
  }

  /**
   * Ownership gives `r`: the owner was read and the token carries it, no entry for OWNER RIGHTS takes
   * its place, and `r` is reading or writing the descriptor.
   */
  ghost predicate OwnershipGives(entries: seq<AclEntry>, token: TokenView, facts: DaclFacts, r: Right) {
    && facts.ownerSid.Some? && CarriesOwner(token, facts)
    && (forall e :: e in entries && !e.inheritOnly ==> e.trusteeSid != "S-1-3-4")
    && (r == 17 || r == 18)
  }

  lemma OwnershipIff(entries: seq<AclEntry>, token: TokenView, facts: DaclFacts, r: Right)
    ensures r in Implied(entries, token, facts) <==> OwnershipGives(entries, token, facts, r)
  {
    if facts.ownerKey.Some? {
      CarriesIff(token, facts.ownerKey.value);
    }
  }

  /**
   * The check decides right by right. Entries of another layer are refused; a NULL DACL gives the
   * rights of full file access; and otherwise a right is granted exactly when the first walked entry
   * that asks for it allows it, or ownership gives it.
   */
  lemma GrantedIff(entries: seq<AclEntry>, token: TokenView, layer: RightsLayer, facts: DaclFacts, r: Right)
    ensures Evaluate(entries, token, layer, facts).Ok?
            <==> layer != Effective && forall e :: e in entries ==> e.layer == layer
    ensures !Evaluate(entries, token, layer, facts).Ok? ==> Evaluate(entries, token, layer, facts) == WrongLayer
    ensures Evaluate(entries, token, layer, facts).Ok? ==>
              (r in Evaluate(entries, token, layer, facts).value.rights
               <==> if facts.daclPresent
                    then || FirstSays(Walked(entries), token, facts, r, true)
                         || OwnershipGives(Walked(entries), token, facts, r)
                    else IsFileRight(r))
  {
    if Evaluate(entries, token, layer, facts).Ok? && facts.daclPresent {
      RightsOf(entries, token, layer, facts);
      FirstMatchDecidesMasks(Walked(entries), token, OwnerOf(token, facts), r);
      FirstSaysIff(Walked(entries), token, facts, r, true);
      OwnershipIff(Walked(entries), token, facts, r);
    }
  }

  /** Some walked entry that allows, or denies, asks for `r`. */
  ghost predicate SomeSays(entries: seq<AclEntry>, token: TokenView, facts: DaclFacts, r: Right, allow: bool) {
    exists k :: AsksFor(entries, token, facts, k, r) && entries[k].allow == allow
  }

  lemma SomeSaysIff(entries: seq<AclEntry>, token: TokenView, facts: DaclFacts, r: Right, allow: bool)
    ensures SomeNames(entries, token, OwnerOf(token, facts), r, allow) <==> SomeSays(entries, token, facts, r, allow)
  {
    forall k ensures Names(entries, token, OwnerOf(token, facts), k, r) <==> AsksFor(entries, token, facts, k, r) {
      AsksForIff(entries, token, facts, k, r);
    }
  }

  /** The canonical model: every Allow, less every Deny, and what ownership gives. */
  lemma CanonicalIff(entries: seq<AclEntry>, token: TokenView, layer: RightsLayer, facts: DaclFacts, r: Right)
    requires Evaluate(entries, token, layer, facts).Ok? && facts.daclPresent
    ensures var canonical := Evaluate(entries, token, layer, facts).value.canonicalRights;
            && canonical.Some?
            && (r in canonical.value
                <==> || (SomeSays(Walked(entries), token, facts, r, true)
                         && !SomeSays(Walked(entries), token, facts, r, false))
                     || OwnershipGives(Walked(entries), token, facts, r))
  {
    var owner := OwnerOf(token, facts);
    WalkMasks(Walked(entries), token, owner, OwnerRights(owner, facts, Walked(entries)).1);
    UnionsNamed(Walked(entries), token, owner, r);
    SomeSaysIff(Walked(entries), token, facts, r, true);
    SomeSaysIff(Walked(entries), token, facts, r, false);
    OwnershipIff(Walked(entries), token, facts, r);
  }

  /** An evaluation holds no generic right: each was replaced by what it stands for. */
  lemma NoGenericRight(entries: seq<AclEntry>, token: TokenView, layer: RightsLayer, facts: DaclFacts)
    requires Evaluate(entries, token, layer, facts).Ok?
    ensures forall r :: r in Evaluate(entries, token, layer, facts).value.rights ==> r < 28
  {
    forall r | r in Evaluate(entries, token, layer, facts).value.rights ensures r < 28 {
      GrantedIff(entries, token, layer, facts, r);
    }
  }

  /** A credited Deny took `r` exactly when the first walked entry that asks for it denies it. */
  lemma TakenIff(entries: seq<AclEntry>, token: TokenView, layer: RightsLayer, facts: DaclFacts, r: Right)
    requires Evaluate(entries, token, layer, facts).Ok? && facts.daclPresent
    ensures InSome(Evaluate(entries, token, layer, facts).value.deniedBy, r)
            <==> FirstSays(Walked(entries), token, facts, r, false)
    ensures InSome(Evaluate(entries, token, layer, facts).value.grantedBy, r)
            <==> FirstSays(Walked(entries), token, facts, r, true)
  {
    var owner := OwnerOf(token, facts);
    var notes := OwnerRights(owner, facts, Considered(entries)).1;
    var w := WalkOver(Considered(entries), token, owner, notes);
    EvidenceAccounts(Considered(entries), token, owner, notes);
    AccountedIff(w.grantedBy, w.masks.granted);
    AccountedIff(w.deniedBy, w.masks.denied);
    FirstMatchDecides(Considered(entries), token, owner, notes, r);
    FirstSaysIff(Walked(entries), token, facts, r, true);
    FirstSaysIff(Walked(entries), token, facts, r, false);
  }

  // -------------------------------------------------------------------------- what is credited

  /** The record of an entry says what the entry is, who it matched, what it asks and what it settled. */
  ghost predicate IsRecord(entries: seq<AclEntry>, token: TokenView, facts: DaclFacts, a: AppliedAce) {
    && a.position < |entries| && a.entry == entries[a.position] && TakesPart(a.entry, token, facts)
    && (exists k :: CarriesAt(token, MeantKey(a.entry, facts), k) && token.entries[k] == a.matched)
    && (forall r :: r in a.considered <==> AsksForBit(a.entry.mask, r))
    && (forall r :: r in a.contributed
                    <==> r in a.considered && !FirstSays(entries[..a.position], token, facts, r, !a.entry.allow))
  }

  /** The key an entry is about. */
  function MeantKey(e: AclEntry, facts: DaclFacts): string {
    if e.trusteeSid == "S-1-3-4" then facts.ownerKey.GetOr("") else e.trusteeKey
  }

  lemma RecordOf(entries: seq<AclEntry>, token: TokenView, facts: DaclFacts, n: nat)
    requires n < |entries| && Applies(entries[n], token, OwnerOf(token, facts))
    ensures var owner := OwnerOf(token, facts);
            var masks := MasksOver(entries[..n], token, owner);
            IsRecord(entries, token, facts,
                     AppliedAce(entries[n], Match(entries[n], token, owner).value, n, ExpandGenerics(entries[n].mask),
                                Contribution(entries[n], masks)))
  {
    var e, owner := entries[n], OwnerOf(token, facts);
    TakesPartIff(e, token, facts);
    CarriesIff(token, MeantKey(e, facts));
    forall r: Right
      ensures r in ExpandGenerics(e.mask) <==> AsksForBit(e.mask, r)
      ensures FirstSays(entries[..n], token, facts, r, !e.allow)
              <==> r in if e.allow then MasksOver(entries[..n], token, owner).denied
                        else MasksOver(entries[..n], token, owner).granted
    {
      AsksIff(e.mask, r);
      FirstMatchDecidesMasks(entries[..n], token, owner, r);
      FirstSaysIff(entries[..n], token, facts, r, !e.allow);
    }
  }

  /** A record stays one when more entries follow. */
  lemma RecordStays(entries: seq<AclEntry>, token: TokenView, facts: DaclFacts, n: nat, a: AppliedAce)
    requires n <= |entries| && IsRecord(entries[..n], token, facts, a)
    ensures IsRecord(entries, token, facts, a)
  {
    assert entries[..n][..a.position] == entries[..a.position];
  }

  /** Which list a record belongs to. */
  datatype Filing = Credited(allow: bool) | Idle

  predicate FiledAs(a: AppliedAce, filing: Filing) {
    match filing
    case Credited(allow) => a.entry.allow == allow && a.contributed != {}
    case Idle => a.contributed == {}
  }

  ghost predicate AllFiled(
    list: seq<AppliedAce>, entries: seq<AclEntry>, token: TokenView, facts: DaclFacts, filing: Filing)
  {
    forall a :: a in list ==> IsRecord(entries, token, facts, a) && FiledAs(a, filing)
  }

  lemma AllFiledStays(
    list: seq<AppliedAce>, entries: seq<AclEntry>, n: nat, token: TokenView, facts: DaclFacts, filing: Filing)
    requires n <= |entries| && AllFiled(list, entries[..n], token, facts, filing)
    ensures AllFiled(list, entries, token, facts, filing)
  {
    forall a | a in list ensures IsRecord(entries, token, facts, a) {
      RecordStays(entries, token, facts, n, a);
    }
  }

  lemma AllFiledSnoc(
    list: seq<AppliedAce>, a: AppliedAce, entries: seq<AclEntry>, token: TokenView, facts: DaclFacts, filing: Filing)
    requires AllFiled(list, entries, token, facts, filing)
    requires IsRecord(entries, token, facts, a) && FiledAs(a, filing)
    ensures AllFiled(list + [a], entries, token, facts, filing)
  {
  }

  /** Some record is of the entry at `k`. */
  ghost predicate FiledAt(w: WalkState, k: int) {
    exists a :: (a in w.grantedBy || a in w.deniedBy || a in w.superseded) && a.position == k
  }

  ghost predicate EachFiled(entries: seq<AclEntry>, token: TokenView, facts: DaclFacts, w: WalkState) {
    forall k :: 0 <= k < |entries| && TakesPart(entries[k], token, facts) ==> FiledAt(w, k)
  }

  /** Every record is true and lies in the one list it belongs to, and no entry is without. */
  ghost predicate WellFiled(entries: seq<AclEntry>, token: TokenView, facts: DaclFacts, w: WalkState) {
    && AllFiled(w.grantedBy, entries, token, facts, Credited(true))
    && AllFiled(w.deniedBy, entries, token, facts, Credited(false))
    && AllFiled(w.superseded, entries, token, facts, Idle)
    && EachFiled(entries, token, facts, w)
  }

  /** The record a step makes of an entry that takes part. */
  function RecordAt(e: AclEntry, n: nat, token: TokenView, owner: Option<TokenSid>, w: WalkState): AppliedAce
    requires Match(e, token, owner).Some?
  {
    AppliedAce(e, Match(e, token, owner).value, n, ExpandGenerics(e.mask), Contribution(e, w.masks))
  }

  /** A step files the record of an entry that takes part in one list, and leaves the lists alone otherwise. */
  lemma StepFiles(e: AclEntry, n: nat, token: TokenView, owner: Option<TokenSid>, w: WalkState)
    ensures var v := Step(e, n, token, owner, w);
            if Applies(e, token, owner)
            then var a := RecordAt(e, n, token, owner, w);
                 && v.grantedBy == (if e.allow && a.contributed != {} then w.grantedBy + [a] else w.grantedBy)
                 && v.deniedBy == (if !e.allow && a.contributed != {} then w.deniedBy + [a] else w.deniedBy)
                 && v.superseded == (if a.contributed == {} then w.superseded + [a] else w.superseded)
            else v.grantedBy == w.grantedBy && v.deniedBy == w.deniedBy && v.superseded == w.superseded
  {
  }

  lemma EachFiledStep(
    entries: seq<AclEntry>, token: TokenView, facts: DaclFacts, w: WalkState)
    requires |entries| > 0 && EachFiled(entries[..|entries| - 1], token, facts, w)
    ensures var n := |entries| - 1;
            EachFiled(entries, token, facts, Step(entries[n], n, token, OwnerOf(token, facts), w))
  {
    var n, owner := |entries| - 1, OwnerOf(token, facts);
    var v := Step(entries[n], n, token, owner, w);
    StepFiles(entries[n], n, token, owner, w);
    TakesPartIff(entries[n], token, facts);
    forall k | 0 <= k < |entries| && TakesPart(entries[k], token, facts) ensures FiledAt(v, k) {
      if k < n {
        assert entries[..n][k] == entries[k];
        var a :| (a in w.grantedBy || a in w.deniedBy || a in w.superseded) && a.position == k;
        assert a in v.grantedBy || a in v.deniedBy || a in v.superseded;
      } else {
        var a := RecordAt(entries[n], n, token, owner, w);
        assert a in v.grantedBy || a in v.deniedBy || a in v.superseded;
      }
    }
  }

  lemma ListsStep(
    entries: seq<AclEntry>, token: TokenView, facts: DaclFacts, notes: seq<AccessCondition>, w: WalkState)
    requires |entries| > 0 && w == WalkOver(entries[..|entries| - 1], token, OwnerOf(token, facts), notes)
    requires AllFiled(w.grantedBy, entries, token, facts, Credited(true))
    requires AllFiled(w.deniedBy, entries, token, facts, Credited(false))
    requires AllFiled(w.superseded, entries, token, facts, Idle)
    ensures var n := |entries| - 1;
            var v := Step(entries[n], n, token, OwnerOf(token, facts), w);
            && AllFiled(v.grantedBy, entries, token, facts, Credited(true))
            && AllFiled(v.deniedBy, entries, token, facts, Credited(false))
            && AllFiled(v.superseded, entries, token, facts, Idle)
  {
    var n, owner := |entries| - 1, OwnerOf(token, facts);
    StepFiles(entries[n], n, token, owner, w);
    if Applies(entries[n], token, owner) {
      WalkMasks(entries[..n], token, owner, notes);
      RecordOf(entries, token, facts, n);
      var a := RecordAt(entries[n], n, token, owner, w);
      if a.contributed == {} {
        AllFiledSnoc(w.superseded, a, entries, token, facts, Idle);
      } else if a.entry.allow {
        AllFiledSnoc(w.grantedBy, a, entries, token, facts, Credited(true));
      } else {
        AllFiledSnoc(w.deniedBy, a, entries, token, facts, Credited(false));
      }
    }
  }

  /** The evidence is complete and true: one record for each entry that takes part, in the right list. */
  lemma {:induction false} EvidenceIsFiled(
    entries: seq<AclEntry>, token: TokenView, facts: DaclFacts, notes: seq<AccessCondition>)
    ensures WellFiled(entries, token, facts, WalkOver(entries, token, OwnerOf(token, facts), notes))
  {
    if |entries| == 0 {
    } else {
      var n, owner := |entries| - 1, OwnerOf(token, facts);
      var w := WalkOver(entries[..n], token, owner, notes);
      EvidenceIsFiled(entries[..n], token, facts, notes);
      AllFiledStays(w.grantedBy, entries, n, token, facts, Credited(true));
      AllFiledStays(w.deniedBy, entries, n, token, facts, Credited(false));
      AllFiledStays(w.superseded, entries, n, token, facts, Idle);
      ListsStep(entries, token, facts, notes, w);
      EachFiledStep(entries, token, facts, w);
    }
  }

  // ------------------------------------------------------------------------------- the findings

  /** Some walked entry only raises a finding: it stands for a creator, or for a kind of session. */
  ghost predicate SomeCreator(entries: seq<AclEntry>) {
    exists e :: e in entries && !e.inheritOnly && (e.trusteeSid == "S-1-3-0" || e.trusteeSid == "S-1-3-1")
  }

  ghost predicate SomeSession(entries: seq<AclEntry>, token: TokenView, facts: DaclFacts) {
    exists e :: e in entries && !e.inheritOnly && !TakesPart(e, token, facts) && IsSessionSid(e.trusteeSid)
  }

  ghost predicate SomeGeneric(entries: seq<AclEntry>, token: TokenView, facts: DaclFacts) {
    exists e :: e in entries && TakesPart(e, token, facts) && AsksGeneric(e.mask)
  }

  ghost predicate AsksGeneric(m: Mask) {
    28 in m || 29 in m || 30 in m || 31 in m
  }

  /** A SID a session gets by the way it was begun. */
  ghost predicate IsSessionSid(sid: string) {
    sid in {"S-1-5-1", "S-1-5-2", "S-1-5-3", "S-1-5-4", "S-1-5-6", "S-1-5-13", "S-1-5-14", "S-1-2-0", "S-1-2-1",
            "S-1-5-64-10", "S-1-5-64-14", "S-1-5-64-21", "S-1-5-113", "S-1-5-114"}
  }

  /** What one entry adds to the findings. */
  lemma StepFindings(e: AclEntry, n: nat, token: TokenView, facts: DaclFacts, w: WalkState, f: AccessCondition)
    ensures f in Step(e, n, token, OwnerOf(token, facts), w).findings
            <==> || f in w.findings
                 || (f == CreatorOwnerAce && !e.inheritOnly && (e.trusteeSid == "S-1-3-0" || e.trusteeSid == "S-1-3-1"))
                 || (f == LogonTypeTrustee && !e.inheritOnly && !TakesPart(e, token, facts)
                     && IsSessionSid(e.trusteeSid))
                 || (f == GenericRightsExpanded && TakesPart(e, token, facts) && AsksGeneric(e.mask))
  {
    TakesPartIff(e, token, facts);
    CreatorSidsApart(e.trusteeSid);
    assert e.mask !! GENERIC_RIGHT_BITS <==> !AsksGeneric(e.mask);
  }

  lemma {:induction false} WalkFindingsIff(
    entries: seq<AclEntry>, token: TokenView, facts: DaclFacts, notes: seq<AccessCondition>, f: AccessCondition)
    ensures f in WalkOver(entries, token, OwnerOf(token, facts), notes).findings
            <==> || f in notes
                 || (f == CreatorOwnerAce && SomeCreator(entries))
                 || (f == LogonTypeTrustee && SomeSession(entries, token, facts))
                 || (f == GenericRightsExpanded && SomeGeneric(entries, token, facts))
  {
    if |entries| == 0 {
    } else {
      var n, owner := |entries| - 1, OwnerOf(token, facts);
      WalkFindingsIff(entries[..n], token, facts, notes, f);
      assert entries == entries[..n] + [entries[n]];
      SomeSnoc(entries[..n], entries[n], token, facts);
      StepFindings(entries[n], n, token, facts, WalkOver(entries[..n], token, owner, notes), f);
    }
  }

  lemma CreatorSidsApart(sid: string)
    ensures sid == "S-1-3-0" || sid == "S-1-3-1" ==> !IsSessionSid(sid)
  {
    assert "S-1-3-0"[4] == '3' && "S-1-3-1"[4] == '3';
    assert |"S-1-5-1"| == 7 && "S-1-5-1"[4] == '5' && "S-1-5-2"[4] == '5' && "S-1-5-3"[4] == '5';
    assert "S-1-5-4"[4] == '5' && "S-1-5-6"[4] == '5' && "S-1-2-0"[4] == '2' && "S-1-2-1"[4] == '2';
    assert |"S-1-5-13"| == 8 && |"S-1-5-14"| == 8 && |"S-1-5-64-10"| == 11 && |"S-1-5-64-14"| == 11;
    assert |"S-1-5-64-21"| == 11 && |"S-1-5-113"| == 9 && |"S-1-5-114"| == 9;
  }

  lemma SomeSnoc(entries: seq<AclEntry>, e: AclEntry, token: TokenView, facts: DaclFacts)
    ensures SomeCreator(entries + [e])
            <==> SomeCreator(entries) || (!e.inheritOnly && (e.trusteeSid == "S-1-3-0" || e.trusteeSid == "S-1-3-1"))
    ensures SomeSession(entries + [e], token, facts)
            <==> || SomeSession(entries, token, facts)
                 || (!e.inheritOnly && !TakesPart(e, token, facts) && IsSessionSid(e.trusteeSid))
    ensures SomeGeneric(entries + [e], token, facts)
            <==> SomeGeneric(entries, token, facts) || (TakesPart(e, token, facts) && AsksGeneric(e.mask))
  {
    var all := entries + [e];
    assert e in all && forall x :: x in entries ==> x in all;
    assert forall x :: x in all ==> x in entries || x == e;
  }

  /** A bit that means something on a file. */
  predicate IsKnownBit(r: int) {
    IsFileRight(r) || r == 24 || r == 25 || 28 <= r <= 31
  }

  lemma OwnerNotes(entries: seq<AclEntry>, token: TokenView, facts: DaclFacts, f: AccessCondition)
    ensures var owned := facts.ownerSid.Some? && CarriesOwner(token, facts);
            var replaced := exists e :: e in entries && !e.inheritOnly && e.trusteeSid == "S-1-3-4";
            f in OwnerRights(OwnerOf(token, facts), facts, entries).1
            <==> (f == OwnerRightsAce && owned && replaced) || (f == OwnerImplicitRights && owned && !replaced)
  {
    if facts.ownerKey.Some? {
      CarriesIff(token, facts.ownerKey.value);
    }
  }

  /** Each finding about a present DACL has its one cause. */
  lemma FindingsIff(entries: seq<AclEntry>, token: TokenView, layer: RightsLayer, facts: DaclFacts, f: AccessCondition)
    requires Evaluate(entries, token, layer, facts).Ok? && facts.daclPresent
    ensures var eval := Evaluate(entries, token, layer, facts).value;
            var walked := Walked(entries);
            var owned := facts.ownerSid.Some? && CarriesOwner(token, facts);
            var replaced := exists e :: e in walked && !e.inheritOnly && e.trusteeSid == "S-1-3-4";
            f in eval.findings
            <==> || (f == OwnerRightsAce && owned && replaced)
                 || (f == OwnerImplicitRights && owned && !replaced)
                 || (f == CreatorOwnerAce && SomeCreator(walked))
                 || (f == LogonTypeTrustee && SomeSession(walked, token, facts))
                 || (f == GenericRightsExpanded && SomeGeneric(walked, token, facts))
                 || (f == EmptyDacl && walked == [])
                 || (f == ProtectedDacl && facts.daclProtected)
                 || (f == AclTruncated && |entries| > 4096)
                 || (f == AceCountMismatch && facts.declaredAceCount.Some? && facts.declaredAceCount.value != |entries|)
                 || (f == NonCanonicalDacl && OrderViolated(walked))
                 || (f == OrderDependentResult && eval.canonicalRights != Some(eval.rights))
                 || (f == IndeterminateRights && 25 in eval.rights)
                 || (f == UnrecognizedRightsBits && exists r :: r in eval.rights && !IsKnownBit(r))
  {
    var owner := OwnerOf(token, facts);
    var notes := OwnerRights(owner, facts, Considered(entries)).1;
    WalkFindingsIff(Walked(entries), token, facts, notes, f);
    OwnerNotes(Walked(entries), token, facts, f);
    var eval := Evaluate(entries, token, layer, facts).value;
    DescriptorCauses(entries, facts, f);
    ResultCauses(eval.rights, eval.canonicalRights.value, f);
  }

  lemma KnownIff(m: Mask)
    ensures m <= KNOWN_BITS <==> !exists r :: r in m && !IsKnownBit(r)
  {
    assert forall r: Right :: r in KNOWN_BITS <==> IsKnownBit(r);
  }

  lemma DescriptorCauses(entries: seq<AclEntry>, facts: DaclFacts, f: AccessCondition)
    ensures f in DescriptorFindings(entries, facts, OrderViolated(Considered(entries)))
            <==> || (f == EmptyDacl && Walked(entries) == [])
                 || (f == ProtectedDacl && facts.daclProtected)
                 || (f == AclTruncated && |entries| > 4096)
                 || (f == AceCountMismatch && facts.declaredAceCount.Some? && facts.declaredAceCount.value != |entries|)
                 || (f == NonCanonicalDacl && OrderViolated(Walked(entries)))
  {
  }

  lemma ResultCauses(rights: Mask, canonical: Mask, f: AccessCondition)
    ensures f in ResultFindings(rights, canonical)
            <==> || (f == OrderDependentResult && canonical != rights)
                 || (f == IndeterminateRights && 25 in rights)
                 || (f == UnrecognizedRightsBits && exists r :: r in rights && !IsKnownBit(r))
  {
    KnownIff(rights);
  }

  /** A NULL DACL is reported as one, and as at odds with its count when entries came with it. */
  lemma NullFindings(entries: seq<AclEntry>, token: TokenView, layer: RightsLayer, facts: DaclFacts)
    requires Evaluate(entries, token, layer, facts).Ok? && !facts.daclPresent
    ensures var eval := Evaluate(entries, token, layer, facts).value;
            && eval.findings == (if entries == [] then [NullDacl] else [NullDacl, AceCountMismatch])
            && eval.grantedBy == [] && eval.deniedBy == [] && eval.superseded == []
            && eval.ownerRights == None && eval.canonicalRights == None
  {
  }
}
