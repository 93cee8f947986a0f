/** The recently-viewed list: one storage cell, untrusted, owner-tagged and expiring. */
module Recent {
  import opened Options
  import opened Seqs
  import opened Sorting
  import opened Text

  const LIMIT: nat := 10
  const MAX_AGE_MS: real := 28800000.0
  const KEY_MAX: nat := 1024
  const LABEL_MAX: nat := 200

  datatype Kind = Identity | Server | Share | Directory

  datatype Entry = Entry(kind: Kind, key: string, name: string, at: real)

  datatype View = View(kind: Kind, key: string, name: string)

  /** What `JSON.parse` can return. A number is finite or overflowed. */
  datatype Json =
    | JNull
    | JBool(b: bool)
    | JNumber(n: real)
    | JOverflow
    | JString(s: string)
    | JArray(items: seq<Json>)
    | JObject(fields: map<string, Json>)

  /** A stored string, by what parsing makes of it. */
  datatype Stored = NotJson | Document(json: Json)

  /** Which storage calls throw. */
  datatype Faults = Faults(getFails: bool, setFails: bool, removeFails: bool)

  function KindName(k: Kind): string {
    match k
    case Identity => "identity"
    case Server => "server"
    case Share => "share"
    case Directory => "directory"
  }

  function KindNamed(s: string): Option<Kind> {
    if s == "identity" then Some(Identity)
    else if s == "server" then Some(Server)
    else if s == "share" then Some(Share)
    else if s == "directory" then Some(Directory)
    else None
  }

  function Capability(k: Kind): string {
    if k.Identity? then "identities:read" else "resources:read"
  }

  /** The 64 lower-case hex digits of an account tag. */
  predicate IsOwner(s: string) {
    |s| == 64 && forall i :: 0 <= i < |s| ==> '0' <= s[i] <= '9' || 'a' <= s[i] <= 'f'
  }

  // ------------------------------------------------------------------------- stored shape

  function Field(j: Json, name: string): Option<Json> {
    if j.JObject? && name in j.fields then Some(j.fields[name]) else None
  }

  predicate HasText(j: Json, name: string) {
    Field(j, name).Some? && Field(j, name).value.JString?
  }

  function TextOf(j: Json, name: string): string
    requires HasText(j, name)
  {
    Field(j, name).value.s
  }

  predicate Current(at: real, now: real) {
    at <= now && now - at <= MAX_AGE_MS
  }

  predicate KeyOk(key: string) {
    key != "" && |key| <= KEY_MAX
  }

  predicate LabelOk(s: string) {
    Trim(s) != "" && |s| <= LABEL_MAX
  }

  predicate IsEntry(j: Json, now: real) {
    && HasText(j, "kind") && KindNamed(TextOf(j, "kind")).Some?
    && HasText(j, "key") && KeyOk(TextOf(j, "key"))
    && HasText(j, "label") && LabelOk(TextOf(j, "label"))
    && Field(j, "at").Some? && Field(j, "at").value.JNumber? && Current(Field(j, "at").value.n, now)
  }

  function ToEntry(j: Json, now: real): Entry
    requires IsEntry(j, now)
  {
    Entry(KindNamed(TextOf(j, "kind")).value, TextOf(j, "key"), TextOf(j, "label"), Field(j, "at").value.n)
  }

  function EncodeEntry(e: Entry): Json {
    JObject(map["kind" := JString(KindName(e.kind)), "key" := JString(e.key), "label" := JString(e.name),
                "at" := JNumber(e.at)])
  }

  function EncodeAll(es: seq<Entry>): seq<Json> {
    if |es| == 0 then [] else [EncodeEntry(es[0])] + EncodeAll(es[1..])
  }

  function Encode(owner: string, es: seq<Entry>): Stored {
    Document(JObject(map["v" := JNumber(1.0), "owner" := JString(owner), "entries" := JArray(EncodeAll(es))]))
  }

  /** The owner and the unchecked entries, or nothing when it is not version 1 of the shape. */
  function Parse(raw: Stored): Option<(string, seq<Json>)> {
    if raw.NotJson? then None
    else if Field(raw.json, "v") != Some(JNumber(1.0)) then None
    else if !HasText(raw.json, "owner") || !IsOwner(TextOf(raw.json, "owner")) then None
    else if Field(raw.json, "entries").None? || !Field(raw.json, "entries").value.JArray? then None
    else Some((TextOf(raw.json, "owner"), Field(raw.json, "entries").value.items))
  }

  // --------------------------------------------------------------------------------- tidy

  function Valid(items: seq<Json>, now: real): seq<Entry> {
    if |items| == 0 then []
    else (if IsEntry(items[0], now) then [ToEntry(items[0], now)] else []) + Valid(items[1..], now)
  }

  predicate Newer(a: Entry, b: Entry) {
    a.at > b.at
  }

  /** The key under which an entry is unique. */
  function Id(kind: Kind, key: string): string {
    KindName(kind) + "\0" + key
  }

  function IdOf(e: Entry): string {
    Id(e.kind, e.key)
  }

  function IdFun(): Entry -> string {
    (e: Entry) => IdOf(e)
  }

  function Tidy(items: seq<Json>, now: real): seq<Entry> {
    Take(LIMIT, Dedupe(IdFun(), SortBy(Newer, Valid(items, now))))
  }

  /** `tidy` with its local set of ids seen. */
  method TidyEntries(items: seq<Json>, now: real) returns (entries: seq<Entry>)
    ensures entries == Tidy(items, now)
  {
    var sorted := SortBy(Newer, Valid(items, now));
    var seen: set<string> := {};
    entries := [];
    for k := 0 to |sorted|
      invariant seen == KeysOf(IdFun(), sorted[..k])
      invariant entries == Dedupe(IdFun(), sorted[..k])
    {
      assert sorted[..k + 1][..k] == sorted[..k];
      var id := IdFun()(sorted[k]);
      if id !in seen {
        seen := seen + {id};
        entries := entries + [sorted[k]];
      }
    }
    assert sorted[..|sorted|] == sorted;
    entries := Take(LIMIT, entries);
  }

  // ------------------------------------------------------------------ operations as values

  function Cleared(f: Faults, cell: Option<Stored>): Option<Stored> {
    if f.removeFails then cell else None
  }

  function Saved(f: Faults, cell: Option<Stored>, owner: string, es: seq<Entry>): Option<Stored> {
    if !IsOwner(owner) || f.setFails then cell else Some(Encode(owner, Take(LIMIT, es)))
  }

  /** The cell after a load, and the entries it returns. */
  function Loaded(f: Faults, cell: Option<Stored>, owner: string, now: real): (Option<Stored>, seq<Entry>) {
    if f.getFails || cell.None? then (cell, [])
    else
      var value := Parse(cell.value);
      if value.None? || value.value.0 != owner then (Cleared(f, cell), [])
      else
        var es := Tidy(value.value.1, now);
        (if |es| != |value.value.1| then Saved(f, cell, owner, es) else cell, es)
  }

  function RecordedLabel(view: View): string {
    Take(LABEL_MAX, Trim(view.name))
  }

  predicate Recordable(view: View) {
    KeyOk(view.key) && RecordedLabel(view) != ""
  }

  function EntryOf(view: View, now: real): Entry {
    Entry(view.kind, view.key, RecordedLabel(view), now)
  }

  function NotId(kind: Kind, key: string): Entry -> bool {
    (e: Entry) => !(e.kind == kind && e.key == key)
  }

  function Recorded(f: Faults, cell: Option<Stored>, owner: string, view: View, now: real): Option<Stored> {
    if !Recordable(view) then cell
    else
      var (cell', all) := Loaded(f, cell, owner, now);
      Saved(f, cell', owner, [EntryOf(view, now)] + Filter(NotId(view.kind, view.key), all))
  }

  function Forgotten(f: Faults, cell: Option<Stored>, owner: string, kind: Kind, key: string, now: real)
    : Option<Stored>
  {
    var (cell', all) := Loaded(f, cell, owner, now);
    var rest := Filter(NotId(kind, key), all);
    if |rest| != |all| then Saved(f, cell', owner, rest) else cell'
  }

  function Held(capabilities: set<string>): Entry -> bool {
    (e: Entry) => Capability(e.kind) in capabilities
  }

  function ReadFor(f: Faults, cell: Option<Stored>, owner: string, capabilities: set<string>, now: real)
    : (Option<Stored>, seq<Entry>, bool)
  {
    var (cell', all) := Loaded(f, cell, owner, now);
    var es := Filter(Held(capabilities), all);
    (if |es| != |all| then Saved(f, cell', owner, es) else cell', es, |es| != |all|)
  }

  // ---------------------------------------------------------------- operations on storage

  /** One tab's session storage. The environment decides its content and which calls throw. */
  class Storage {
    var cell: Option<Stored>
    var faults: Faults

    method Clear()
      modifies this`cell
      ensures cell == Cleared(faults, old(cell))
    {
      if !faults.removeFails {
        cell := None;
      }
    }

    method Save(owner: string, entries: seq<Entry>)
      modifies this`cell
      ensures cell == Saved(faults, old(cell), owner, entries)
    {
      if !IsOwner(owner) {
        return;
      }
      if !faults.setFails {
        cell := Some(Encode(owner, Take(LIMIT, entries)));
      }
    }

    method Load(owner: string, now: real) returns (entries: seq<Entry>)
      modifies this`cell
      ensures (cell, entries) == Loaded(faults, old(cell), owner, now)
    {
      if faults.getFails {
        return [];
      }
      if cell.None? {
        return [];
      }
      var value := Parse(cell.value);
      if value.None? || value.value.0 != owner {
        Clear();
        return [];
      }
      entries := TidyEntries(value.value.1, now);
      if |entries| != |value.value.1| {
        Save(owner, entries);
      }
    }

    method ReadRecent(owner: string, now: real) returns (entries: seq<Entry>)
      modifies this`cell
      ensures (cell, entries) == Loaded(faults, old(cell), owner, now)
    {
      entries := Load(owner, now);
    }

    method ReadRecentFor(owner: string, capabilities: set<string>, now: real)
      returns (entries: seq<Entry>, removed: bool)
      modifies this`cell
      ensures (cell, entries, removed) == ReadFor(faults, old(cell), owner, capabilities, now)
    {
      var all := Load(owner, now);
      entries := Filter(Held(capabilities), all);
      if |entries| != |all| {
        Save(owner, entries);
      }
      removed := |entries| != |all|;
    }

    method RecordRecent(owner: string, view: View, now: real)
      modifies this`cell
      ensures cell == Recorded(faults, old(cell), owner, view, now)
    {
      var trimmed := Take(LABEL_MAX, Trim(view.name));
      if view.key == "" || |view.key| > KEY_MAX || trimmed == "" {
        return;
      }
      var all := Load(owner, now);
      var rest := Filter(NotId(view.kind, view.key), all);
      Save(owner, [Entry(view.kind, view.key, trimmed, now)] + rest);
    }

    method ForgetRecent(owner: string, kind: Kind, key: string, now: real)
      modifies this`cell
      ensures cell == Forgotten(faults, old(cell), owner, kind, key, now)
    {
      var all := Load(owner, now);
      var rest := Filter(NotId(kind, key), all);
      if |rest| != |all| {
        Save(owner, rest);
      }
    }
  }
}
