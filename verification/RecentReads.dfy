/** What one call on the recently-viewed list accepts, returns and leaves, in the terms of its callers. */
module RecentReads {
  import opened Options
  import opened Seqs
  import opened Sorting
  import opened Text
  import opened Recent
  import opened RecentFacts

  // --------------------------------------------------------------------------- what is accepted

  /** The field holds this string. */
  ghost predicate Says(j: Json, field: string, s: string) {
    j.JObject? && field in j.fields && j.fields[field] == JString(s)
  }

  /** The field holds this number. */
  ghost predicate Counts(j: Json, field: string, n: real) {
    j.JObject? && field in j.fields && j.fields[field] == JNumber(n)
  }

  /** The name a kind is stored under. */
  ghost predicate Names(s: string, k: Kind) {
    || (s == "identity" && k == Identity) || (s == "server" && k == Server)
    || (s == "share" && k == Share) || (s == "directory" && k == Directory)
  }

  /** The stored value says exactly what the entry does. */
  ghost predicate Stores(j: Json, e: Entry) {
    && (exists s :: Says(j, "kind", s) && Names(s, e.kind))
    && Says(j, "key", e.key) && Says(j, "label", e.name) && Counts(j, "at", e.at)
  }

  lemma NamesKind(s: string)
    ensures forall k :: Names(s, k) <==> KindNamed(s) == Some(k)
  {
    assert |"identity"| == 8 && |"server"| == 6 && |"share"| == 5 && |"directory"| == 9;
  }

  /**
   * A stored value is accepted as an entry exactly when it says what the entry does, the key has 1 to
   * 1024 characters, the label at most 200 and not only white space, and the time is not in the future
   * and no more than eight hours past.
   */
  lemma AcceptedIff(j: Json, now: real, e: Entry)
    ensures IsEntry(j, now) && ToEntry(j, now) == e
            <==> && Stores(j, e)
                 && 1 <= |e.key| <= 1024
                 && |e.name| <= 200 && !AllSpace(e.name)
                 && 0.0 <= now - e.at <= 8.0 * 3600.0 * 1000.0
  {
    if HasText(j, "kind") {
      NamesKind(TextOf(j, "kind"));
    }
    var lead, tail := TrimSplits(e.name);
    TrimEmptyIff(e.name);
  }

  lemma TrimEmptyIff(s: string)
    ensures Trim(s) == "" <==> AllSpace(s)
  {
    var lead := TrimLeftSplits(s);
    TrimRightBlank(TrimLeft(s));
    TrimLeftStarts(s);
    if TrimLeft(s) != "" {
      assert s[|lead|] == TrimLeft(s)[0];
    }
    if Trim(s) == "" {
      assert AllSpace(TrimLeft(s));
    }
  }

  /** Sixty-four lower-case hex digits. */
  ghost predicate IsTag(s: string) {
    |s| == 64 && forall i :: 0 <= i < 64 ==> s[i] in "0123456789abcdef"
  }

  lemma TagIff(s: string)
    ensures IsOwner(s) <==> IsTag(s)
  {
    var hex := "0123456789abcdef";
    assert forall k :: 0 <= k < 10 ==> hex[k] as int == '0' as int + k;
    assert forall k :: 10 <= k < 16 ==> hex[k] as int == 'a' as int + (k - 10);
    forall c: char ensures c in hex <==> '0' <= c <= '9' || 'a' <= c <= 'f' {
      if '0' <= c <= '9' {
        assert hex[c as int - '0' as int] == c;
      }
      if 'a' <= c <= 'f' {
        assert hex[c as int - 'a' as int + 10] == c;
      }
    }
  }

  /** The stored text is read exactly when it is version 1 of the shape, tagged by an account. */
  lemma ParsedIff(raw: Stored, owner: string, items: seq<Json>)
    ensures Parse(raw) == Some((owner, items))
            <==> && raw.Document? && Counts(raw.json, "v", 1.0)
                 && Says(raw.json, "owner", owner) && IsTag(owner)
                 && raw.json.JObject? && "entries" in raw.json.fields && raw.json.fields["entries"] == JArray(items)
  {
    TagIff(owner);
  }

  // --------------------------------------------------------------------------- what is returned

  /**
   * A read, in numbers: at most ten entries, newest first, none older than eight hours or from the
   * future, no object twice; and each was stored under this account's own tag.
   */
  lemma ReadShows(f: Faults, cell: Option<Stored>, owner: string, now: real)
    ensures var es := Loaded(f, cell, owner, now).1;
            && |es| <= 10
            && (forall i, j :: 0 <= i < j < |es| ==>
                  es[i].at >= es[j].at && !(es[i].kind == es[j].kind && es[i].key == es[j].key))
            && (forall e :: e in es ==>
                  && 0.0 <= now - e.at <= 8.0 * 3600.0 * 1000.0
                  && cell.Some? && Parse(cell.value).Some? && Parse(cell.value).value.0 == owner
                  && exists j :: j in Parse(cell.value).value.1 && Stores(j, e))
  {
    ReadIsSound(f, cell, owner, now);
    var es := Loaded(f, cell, owner, now).1;
    forall e | e in es ensures exists j :: j in Parse(cell.value).value.1 && Stores(j, e) {
      var j :| j in Parse(cell.value).value.1 && IsEntry(j, now) && ToEntry(j, now) == e;
      AcceptedIff(j, now, e);
    }
    forall i, j | 0 <= i < j < |es| ensures es[i].at >= es[j].at {
      assert !Newer(es[j], es[i]);
    }
  }

  /**
   * And nothing else is left out: a stored entry in good order is returned, or one of the same object
   * viewed no earlier is, or ten are that were viewed no earlier.
   */
  lemma ReadLeavesOutNothing(f: Faults, cell: Option<Stored>, owner: string, now: real, j: Json, e: Entry)
    requires !f.getFails && cell.Some? && Parse(cell.value).Some? && Parse(cell.value).value.0 == owner
    requires j in Parse(cell.value).value.1 && Stores(j, e)
    requires 1 <= |e.key| <= 1024 && |e.name| <= 200 && !AllSpace(e.name)
    requires 0.0 <= now - e.at <= 8.0 * 3600.0 * 1000.0
    ensures var es := Loaded(f, cell, owner, now).1;
            || (exists d :: d in es && d.kind == e.kind && d.key == e.key && d.at >= e.at)
            || (|es| == 10 && forall d :: d in es ==> d.at >= e.at)
  {
    AcceptedIff(j, now, e);
    TidyKeepsNewest(Parse(cell.value).value.1, now, j);
  }

  function ViewedAt(at: real): Entry -> bool {
    (e: Entry) => e.at == at
  }

  /** Entries of one instant keep the order they were stored in. */
  lemma TiesKeepOrder(items: seq<Json>, now: real, at: real)
    ensures Filter(ViewedAt(at), SortBy(Newer, Valid(items, now))) == Filter(ViewedAt(at), Valid(items, now))
  {
    SortStable(Newer, Valid(items, now), ViewedAt(at));
  }

  // ------------------------------------------------------------------------ under capabilities

  /** What an account must hold to open this kind of object. */
  ghost predicate Opens(k: Kind, capabilities: set<string>) {
    || (k == Identity && "identities:read" in capabilities)
    || (k in {Server, Share, Directory} && "resources:read" in capabilities)
  }

  lemma OpensIff(e: Entry, capabilities: set<string>)
    ensures Held(capabilities)(e) <==> Opens(e.kind, capabilities)
  {
  }

  /**
   * A read under capabilities returns exactly the entries a plain read would that the account may
   * still open, in the same order; says whether there were others; and stores the list without them
   * unless storage refuses.
   */
  lemma ReadForIff(f: Faults, cell: Option<Stored>, owner: string, capabilities: set<string>, now: real)
    ensures var (left, all) := Loaded(f, cell, owner, now);
            var (left', es, removed) := ReadFor(f, cell, owner, capabilities, now);
            && (forall e :: e in es <==> e in all && Opens(e.kind, capabilities))
            && (forall i, j :: 0 <= i < j < |es| ==> es[i].at >= es[j].at)
            && (removed <==> exists e :: e in all && !Opens(e.kind, capabilities))
            && left' == if removed && !f.setFails then Some(Encode(owner, es)) else left
  {
    var all := Loaded(f, cell, owner, now).1;
    var es := Filter(Held(capabilities), all);
    ReadIsSound(f, cell, owner, now);
    FilterKeepsForm(Held(capabilities), all);
    forall e ensures Held(capabilities)(e) <==> Opens(e.kind, capabilities) {
      OpensIff(e, capabilities);
    }
    forall i, j | 0 <= i < j < |es| ensures es[i].at >= es[j].at {
      assert !Newer(es[j], es[i]);
    }
    FilterDrops(Held(capabilities), all);
  }

  lemma FilterDrops(keep: Entry -> bool, s: seq<Entry>)
    ensures |Filter(keep, s)| != |s| <==> exists e :: e in s && !keep(e)
  {
    if |Filter(keep, s)| == |s| {
      FilterSameLength(keep, s);
    } else if forall e :: e in s ==> keep(e) {
      FilterAll(keep, s);
    }
  }

  // ----------------------------------------------------------------------------- what is written

  /** The label of a view is its name without the white space around it, cut at 200 characters. */
  lemma RecordedLabelReads(view: View) returns (lead: string, tail: string)
    ensures view.name == lead + Trim(view.name) + tail && AllSpace(lead) && AllSpace(tail)
    ensures RecordedLabel(view) == if |Trim(view.name)| <= 200 then Trim(view.name) else Trim(view.name)[..200]
    ensures Recordable(view) <==> 1 <= |view.key| <= 1024 && !AllSpace(view.name)
    ensures forall now :: EntryOf(view, now) == Entry(view.kind, view.key, RecordedLabel(view), now)
  {
    lead, tail := TrimSplits(view.name);
    TrimEmptyIff(view.name);
  }
}
