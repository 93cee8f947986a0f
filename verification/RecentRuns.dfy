/** Runs of the recently-viewed list by many accounts, with storage that may fail at any step. */
module RecentRuns {
  import opened Options
  import opened Seqs
  import opened Sorting
  import opened Recent
  import opened RecentFacts

  /** One call, with the account it is made for and which storage calls throw while it runs. */
  datatype Step =
    | RecordStep(f: Faults, owner: string, view: View, now: real)
    | ReadStep(f: Faults, owner: string, now: real)
    | ReadForStep(f: Faults, owner: string, capabilities: set<string>, now: real)
    | ForgetStep(f: Faults, owner: string, kind: Kind, key: string, now: real)
    | ClearStep(f: Faults)

  function After(cell: Option<Stored>, step: Step): Option<Stored> {
    match step
    case RecordStep(f, owner, view, now) => Recorded(f, cell, owner, view, now)
    case ReadStep(f, owner, now) => Loaded(f, cell, owner, now).0
    case ReadForStep(f, owner, capabilities, now) => ReadFor(f, cell, owner, capabilities, now).0
    case ForgetStep(f, owner, kind, key, now) => Forgotten(f, cell, owner, kind, key, now)
    case ClearStep(f) => Cleared(f, cell)
  }

  /** The cell after a run that found `start` there: nothing in a new tab, anything at all otherwise. */
  function Run(start: Option<Stored>, steps: seq<Step>): Option<Stored> {
    if |steps| == 0 then start else After(Run(start, steps[..|steps| - 1]), steps[|steps| - 1])
  }

  /** The step writes a list with a new entry in front. */
  predicate Stores(step: Step) {
    step.RecordStep? && Recordable(step.view) && IsOwner(step.owner) && !step.f.setFails
  }

  /** The step is the view that made this entry, and storage took it. */
  predicate Records(step: Step, owner: string, e: Entry) {
    Stores(step) && step.owner == owner && e == EntryOf(step.view, step.now)
  }

  /**
   * A clear, and any call by another account, wipes the list unless storage refuses the removal; so
   * does a record that overwrites it, for another account or because the list could not be read.
   */
  predicate Wipes(step: Step, owner: string) {
    match step
    case ClearStep(f) => !f.removeFails
    case RecordStep(f, other, view, _) =>
      || (other != owner && Recordable(view) && !f.getFails && !f.removeFails)
      || (Stores(step) && (other != owner || f.getFails))
    case _ => step.owner != owner && !step.f.getFails && !step.f.removeFails
  }

  /** A call by the same account that reads and writes the list. */
  predicate Rewrites(step: Step, owner: string) {
    && !step.ClearStep? && step.owner == owner && !step.f.setFails && !step.f.getFails
    && (step.RecordStep? ==> Recordable(step.view))
  }

  /** Such a call is about this entry: it forgets it, records it anew, or finds its kind out of reach. */
  predicate Drops(step: Step, owner: string, e: Entry) {
    && Rewrites(step, owner)
    && (|| (step.ForgetStep? && step.kind == e.kind && step.key == e.key)
        || (step.RecordStep? && step.view.kind == e.kind && step.view.key == e.key)
        || (step.ReadForStep? && Capability(e.kind) !in step.capabilities))
  }

  /** Calls by the same account that take this entry away unless storage refuses. */
  predicate Removes(step: Step, owner: string, e: Entry) {
    (Rewrites(step, owner) && !Current(e.at, step.now)) || Drops(step, owner, e)
  }

  predicate Erases(step: Step, owner: string, e: Entry) {
    Wipes(step, owner) || Removes(step, owner, e)
  }

  /** Some step recorded this entry for this account and nothing since has erased it. */
  ghost predicate Origin(steps: seq<Step>, owner: string, e: Entry) {
    exists i :: 0 <= i < |steps| && Records(steps[i], owner, e)
                && forall j :: i < j < |steps| ==> !Erases(steps[j], owner, e)
  }

  /** The cell holds a list with this owner's tag, and a value in it is this entry. */
  ghost predicate Stands(cell: Option<Stored>, owner: string, e: Entry) {
    && cell.Some? && Parse(cell.value).Some? && Parse(cell.value).value.0 == owner
    && exists j :: j in Parse(cell.value).value.1 && IsEntry(j, e.at) && ToEntry(j, e.at) == e
  }

  /** The entry stood in the cell before the run, and nothing in the run has erased it. */
  ghost predicate Survives(start: Option<Stored>, steps: seq<Step>, owner: string, e: Entry) {
    Stands(start, owner, e) && forall i :: 0 <= i < |steps| ==> !Erases(steps[i], owner, e)
  }

  // ----------------------------------------------------------------- what a write leaves

  lemma {:induction false} EncodedMember(es: seq<Entry>, j: Json) returns (e: Entry)
    requires j in EncodeAll(es)
    ensures e in es && j == EncodeEntry(e)
  {
    if j == EncodeEntry(es[0]) {
      e := es[0];
    } else {
      e := EncodedMember(es[1..], j);
    }
  }

  /** What stands in a list this module wrote is in that list. */
  lemma WrittenStands(owner: string, es: seq<Entry>, o: string, e: Entry)
    requires IsOwner(owner) && Stands(Some(Encode(owner, es)), o, e)
    ensures o == owner && e in es
  {
    EncodeParses(owner, es);
    var j :| j in EncodeAll(es) && IsEntry(j, e.at) && ToEntry(j, e.at) == e;
    var x := EncodedMember(es, j);
    EncodeDecodes(x, e.at);
  }

  lemma ListedStands(owner: string, es: seq<Entry>, e: Entry)
    requires IsOwner(owner) && e in es && ShapeOk(e)
    ensures Stands(Some(Encode(owner, es)), owner, e)
  {
    EncodeParses(owner, es);
    EncodedIn(es, e);
    EncodeDecodes(e, e.at);
  }

  lemma {:induction false} EncodedIn(es: seq<Entry>, e: Entry)
    requires e in es
    ensures EncodeEntry(e) in EncodeAll(es)
  {
    if e == es[0] {
    } else {
      EncodedIn(es[1..], e);
    }
  }

  lemma {:induction false} ValidAll(items: seq<Json>, now: real)
    ensures |Valid(items, now)| <= |items|
    ensures |Valid(items, now)| == |items| ==> forall j :: j in items ==> IsEntry(j, now)
  {
    if |items| == 0 {
    } else {
      ValidAll(items[1..], now);
      assert items == [items[0]] + items[1..];
    }
  }

  /** When tidying dropped nothing by count, everything stored is in the list. */
  lemma TidyAll(items: seq<Json>, now: real, j: Json)
    requires |Tidy(items, now)| == |items| && j in items
    ensures IsEntry(j, now) && ToEntry(j, now) in Tidy(items, now)
  {
    var v := Valid(items, now);
    var s := SortBy(Newer, v);
    ValidAll(items, now);
    SortMembers(Newer, v);
    DedupeShrinks(IdFun(), s);
    ValidMembers(items, now);
  }

  // --------------------------------------------------------------------------- one step

  /** What a load returns stood in the cell and is current. */
  lemma LoadedStands(f: Faults, cell: Option<Stored>, owner: string, now: real, e: Entry)
    requires e in Loaded(f, cell, owner, now).1
    ensures Stands(cell, owner, e) && Current(e.at, now) && IsOwner(owner)
  {
    ReadIsSound(f, cell, owner, now);
  }

  /** What stands after a load stood before it, and was returned unless storage refused something. */
  lemma LoadLeaves(f: Faults, cell: Option<Stored>, owner: string, now: real, o: string, e: Entry)
    requires Stands(Loaded(f, cell, owner, now).0, o, e)
    ensures Stands(cell, o, e)
    ensures !f.getFails && o != owner ==> f.removeFails
    ensures !f.getFails && o == owner && !f.setFails ==> e in Loaded(f, cell, owner, now).1
  {
    if !f.getFails && cell.Some? && Parse(cell.value).Some? && Parse(cell.value).value.0 == owner {
      var items := Parse(cell.value).value.1;
      var es := Tidy(items, now);
      if |es| == |items| {
        var j :| j in items && IsEntry(j, e.at) && ToEntry(j, e.at) == e;
        TidyAll(items, now, j);
      } else if !f.setFails {
        WrittenStands(owner, Take(LIMIT, es), o, e);
        LoadedStands(f, cell, owner, now, e);
      }
    }
  }

  /** What forgetting, and dropping for lost access, keeps of the unexpired entries. */
  function Narrowing(step: Step): Entry -> bool
    requires step.ForgetStep? || step.ReadForStep?
  {
    if step.ForgetStep? then NotId(step.kind, step.key) else Held(step.capabilities)
  }

  /** Forgetting and dropping for lost access: a load, then a rewrite when any entry went. */
  lemma NarrowOrigin(cell: Option<Stored>, step: Step, o: string, e: Entry)
    requires (step.ForgetStep? || step.ReadForStep?) && Stands(After(cell, step), o, e)
    ensures Stands(cell, o, e) && !Erases(step, o, e)
  {
    var (left, all) := Loaded(step.f, cell, step.owner, step.now);
    var rest := Filter(Narrowing(step), all);
    if |rest| == |all| || step.f.setFails || !IsOwner(step.owner) {
      LoadLeaves(step.f, cell, step.owner, step.now, o, e);
      if e in all {
        LoadedStands(step.f, cell, step.owner, step.now, e);
      }
      if |rest| == |all| {
        FilterSameLength(Narrowing(step), all);
      }
    } else {
      WrittenStands(step.owner, Take(LIMIT, rest), o, e);
      LoadedStands(step.f, cell, step.owner, step.now, e);
    }
  }

  lemma RecordOrigin(cell: Option<Stored>, step: Step, o: string, e: Entry)
    requires step.RecordStep? && Stands(After(cell, step), o, e)
    ensures Records(step, o, e) || (Stands(cell, o, e) && !Erases(step, o, e))
  {
    if Recordable(step.view) {
      var (left, all) := Loaded(step.f, cell, step.owner, step.now);
      if IsOwner(step.owner) && !step.f.setFails {
        WrittenStands(step.owner, Take(LIMIT, Made(step, all)), o, e);
        assert e == EntryOf(step.view, step.now) || e in Filter(NotId(step.view.kind, step.view.key), all);
        if e in all {
          LoadedStands(step.f, cell, step.owner, step.now, e);
        }
      } else {
        LoadLeaves(step.f, cell, step.owner, step.now, o, e);
      }
    }
  }

  /** The list a record step saves: the new entry, then what it loaded, less the same object. */
  function Made(step: Step, all: seq<Entry>): seq<Entry>
    requires step.RecordStep?
  {
    [EntryOf(step.view, step.now)] + Filter(NotId(step.view.kind, step.view.key), all)
  }

  /**
   * Any one call, on any content and whatever storage refuses: an entry that stands afterwards was
   * recorded by the call for that very account, or stood there before and was not erased.
   */
  lemma StepOrigin(cell: Option<Stored>, step: Step, o: string, e: Entry)
    requires Stands(After(cell, step), o, e)
    ensures Records(step, o, e) || (Stands(cell, o, e) && !Erases(step, o, e))
  {
    match step {
      case RecordStep(_, _, _, _) => RecordOrigin(cell, step, o, e);
      case ForgetStep(_, _, _, _, _) => NarrowOrigin(cell, step, o, e);
      case ReadForStep(_, _, _, _) => NarrowOrigin(cell, step, o, e);
      case ReadStep(f, owner, now) =>
        LoadLeaves(f, cell, owner, now, o, e);
        if e in Loaded(f, cell, owner, now).1 {
          LoadedStands(f, cell, owner, now, e);
        }
      case ClearStep(_) =>
    }
  }

  // -------------------------------------------------------------------------- whole runs

  lemma OriginExtend(steps: seq<Step>, step: Step, owner: string, e: Entry)
    requires Records(step, owner, e) || (Origin(steps, owner, e) && !Erases(step, owner, e))
    ensures Origin(steps + [step], owner, e)
  {
    var all := steps + [step];
    if Records(step, owner, e) {
      assert all[|steps|] == step;
    } else {
      var i :| 0 <= i < |steps| && Records(steps[i], owner, e)
               && forall j :: i < j < |steps| ==> !Erases(steps[j], owner, e);
      assert all[i] == steps[i];
      forall j | i < j < |all| ensures !Erases(all[j], owner, e) {
      }
    }
  }

  /** Whatever was there at the start, and whatever happened: what stands came from somewhere. */
  lemma {:induction false} RunOrigin(start: Option<Stored>, steps: seq<Step>, o: string, e: Entry)
    requires Stands(Run(start, steps), o, e)
    ensures Origin(steps, o, e) || Survives(start, steps, o, e)
  {
    if |steps| == 0 {
    } else {
      var rest, step := steps[..|steps| - 1], steps[|steps| - 1];
      assert steps == rest + [step];
      StepOrigin(Run(start, rest), step, o, e);
      if Records(step, o, e) {
        OriginExtend(rest, step, o, e);
      } else {
        RunOrigin(start, rest, o, e);
        if Origin(rest, o, e) {
          OriginExtend(rest, step, o, e);
        }
      }
    }
  }

  /**
   * Safety over whole runs. However many accounts share the tab, in whatever order they record,
   * read, forget and clear, whichever storage calls throw and whatever the tab held to begin with:
   * an entry returned to an account was recorded by that same account, with that label at that
   * time, or stood in a list tagged with that account at the start; it is current; and nothing
   * since has erased it.
   */
  lemma NothingLeaks(start: Option<Stored>, steps: seq<Step>, f: Faults, owner: string, now: real, e: Entry)
    requires e in Loaded(f, Run(start, steps), owner, now).1
    ensures Origin(steps, owner, e) || Survives(start, steps, owner, e)
    ensures Current(e.at, now)
  {
    LoadedStands(f, Run(start, steps), owner, now, e);
    RunOrigin(start, steps, owner, e);
  }

  // --------------------------------------------------------------------- what is written

  /** A list this module wrote. */
  ghost predicate Written(cell: Option<Stored>, owner: string, es: seq<Entry>) {
    cell == Some(Encode(owner, es)) && IsOwner(owner) && WellFormed(es)
  }

  ghost predicate IsWritten(cell: Option<Stored>) {
    exists owner, es :: Written(cell, owner, es)
  }

  /** A well-formed list, saved, is there, or the cell is as it was. */
  lemma SavedWritten(f: Faults, cell: Option<Stored>, owner: string, es: seq<Entry>)
    requires WellFormed(Take(LIMIT, es))
    ensures Saved(f, cell, owner, es) == cell || Written(Saved(f, cell, owner, es), owner, Take(LIMIT, es))
  {
  }

  lemma LoadWrites(f: Faults, cell: Option<Stored>, owner: string, now: real)
    ensures var left := Loaded(f, cell, owner, now).0; left.None? || left == cell || IsWritten(left)
    ensures WellFormed(Loaded(f, cell, owner, now).1)
    ensures forall e :: e in Loaded(f, cell, owner, now).1 ==> Current(e.at, now)
  {
    ReadIsSound(f, cell, owner, now);
    if !f.getFails && cell.Some? && Parse(cell.value).Some? && Parse(cell.value).value.0 == owner {
      var es := Tidy(Parse(cell.value).value.1, now);
      TakeForm(LIMIT, es);
      SavedWritten(f, cell, owner, es);
    }
  }

  lemma MadeWellFormed(step: Step, all: seq<Entry>)
    requires step.RecordStep? && Recordable(step.view)
    requires WellFormed(all) && forall e :: e in all ==> e.at <= step.now
    ensures WellFormed(Take(LIMIT, Made(step, all)))
  {
    FilterKeepsForm(NotId(step.view.kind, step.view.key), all);
    RecordedLabelOk(step.view);
    FrontForm(EntryOf(step.view, step.now), Filter(NotId(step.view.kind, step.view.key), all));
    TakeForm(LIMIT, Made(step, all));
  }

  /** A call empties the cell, leaves it alone, or writes a well-formed list. */
  lemma StepWrites(cell: Option<Stored>, step: Step)
    ensures After(cell, step).None? || After(cell, step) == cell || IsWritten(After(cell, step))
  {
    if !step.ClearStep? {
      LoadWrites(step.f, cell, step.owner, step.now);
      var (left, all) := Loaded(step.f, cell, step.owner, step.now);
      if step.RecordStep? && Recordable(step.view) {
        MadeWellFormed(step, all);
        SavedWritten(step.f, left, step.owner, Made(step, all));
      } else if step.ForgetStep? || step.ReadForStep? {
        var rest := Filter(Narrowing(step), all);
        FilterKeepsForm(Narrowing(step), all);
        TakeForm(LIMIT, rest);
        SavedWritten(step.f, left, step.owner, rest);
      }
    }
  }

  lemma {:induction false} RunWrites(start: Option<Stored>, steps: seq<Step>)
    ensures Run(start, steps).None? || Run(start, steps) == start || IsWritten(Run(start, steps))
  {
    if |steps| == 0 {
    } else {
      RunWrites(start, steps[..|steps| - 1]);
      StepWrites(Run(start, steps[..|steps| - 1]), steps[|steps| - 1]);
    }
  }

  /**
   * After any run the cell is empty, as it was found, or a well-formed list of one account, every
   * entry of which that account recorded or had at the start, with nothing since erasing it.
   */
  lemma RunAccounted(start: Option<Stored>, steps: seq<Step>)
    ensures var cell := Run(start, steps);
            || cell.None? || cell == start
            || exists owner, es :: Written(cell, owner, es) &&
                 forall e :: e in es ==> Origin(steps, owner, e) || Survives(start, steps, owner, e)
  {
    var cell := Run(start, steps);
    RunWrites(start, steps);
    if IsWritten(cell) {
      var owner, es :| Written(cell, owner, es);
      forall e | e in es ensures Origin(steps, owner, e) || Survives(start, steps, owner, e) {
        ListedStands(owner, es, e);
        RunOrigin(start, steps, owner, e);
      }
    }
  }
}
