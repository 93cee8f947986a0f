/**
 * The recently-viewed list as a window on an unbounded history: what one account has seen, whoever
 * else uses the tab and whichever storage calls throw.
 */
module RecentHistory {
  import opened Options
  import opened Seqs
  import opened Sorting
  import opened Recent
  import opened RecentFacts
  import opened RecentRuns
  import opened Text

  // --------------------------------------------------------------------------- the history

  function Kept(step: Step, owner: string): Entry -> bool {
    (e: Entry) => !Drops(step, owner, e)
  }

  /** One step of the history: nothing expires and nothing is cut off. */
  function Move(step: Step, owner: string, h: seq<Entry>): seq<Entry> {
    var kept := if Wipes(step, owner) then [] else Filter(Kept(step, owner), h);
    if Stores(step) && step.owner == owner then [EntryOf(step.view, step.now)] + kept else kept
  }

  /** Each stored view moves its object to the front; what is erased goes. */
  function History(steps: seq<Step>, owner: string): seq<Entry> {
    if |steps| == 0 then [] else Move(steps[|steps| - 1], owner, History(steps[..|steps| - 1], owner))
  }

  ghost predicate ClockNeverGoesBack(steps: seq<Step>) {
    forall i, j :: 0 <= i < j < |steps| && !steps[i].ClearStep? && !steps[j].ClearStep? ==> steps[i].now <= steps[j].now
  }

  /** Every step is made no later than `now`. */
  ghost predicate AllBefore(steps: seq<Step>, now: real) {
    forall i :: 0 <= i < |steps| && !steps[i].ClearStep? ==> steps[i].now <= now
  }

  /** The cell holds nothing this owner's read would accept. */
  ghost predicate Foreign(cell: Option<Stored>, owner: string) {
    cell.None? || Parse(cell.value).None? || Parse(cell.value).value.0 != owner
  }

  /** The cell holds exactly this list for this owner, or holds nothing of this owner's. */
  ghost predicate Holds(cell: Option<Stored>, owner: string, es: seq<Entry>) {
    cell == Some(Encode(owner, es)) || (Foreign(cell, owner) && es == [])
  }

  ghost predicate HistoryForm(h: seq<Entry>, last: real) {
    && (forall e :: e in h ==> ShapeOk(e) && e.at <= last)
    && Sorted(Newer, h)
    && OnePerObject(h)
  }

  // ------------------------------------------------------------- lists, prefixes and expiry

  /** On a newest-first list, what has not expired is a prefix. */
  lemma FreshIsPrefix(h: seq<Entry>, now: real)
    requires Sorted(Newer, h) && forall e :: e in h ==> e.at <= now
    ensures KeepsPrefix(FreshAt(now), h)
  {
    forall i, j | 0 <= i < j < |h| && FreshAt(now)(h[j]) ensures FreshAt(now)(h[i]) {
      assert !Newer(h[j], h[i]) && h[i] in h;
    }
  }

  /** In a list with one entry per object, removing an object drops at most one entry. */
  lemma RemovalDropsOne(h: seq<Entry>, kind: Kind, key: string)
    requires OnePerObject(h)
    ensures DropsOne(NotId(kind, key), h)
  {
  }

  lemma FiltersCommute(f: Entry -> bool, g: Entry -> bool, s: seq<Entry>)
    ensures Filter(f, Filter(g, s)) == Filter(g, Filter(f, s))
  {
    var both := (x: Entry) => f(x) && g(x);
    FilterFilter(f, g, both, s);
    FilterFilter(g, f, both, s);
  }

  /** What the store should hold: the first ten of the unexpired part of the whole history. */
  function Shown(h: seq<Entry>, now: real): seq<Entry> {
    Take(LIMIT, Filter(FreshAt(now), h))
  }

  /** Expiring what was shown is showing later. */
  lemma ShownLater(h: seq<Entry>, last: real, now: real)
    requires HistoryForm(h, last) && last <= now
    ensures Filter(FreshAt(now), Shown(h, last)) == Shown(h, now)
  {
    var y := Filter(FreshAt(last), h);
    FilterKeepsForm(FreshAt(last), h);
    FreshIsPrefix(y, now);
    PrefixCommutesWithTake(LIMIT, FreshAt(now), y);
    FilterFilter(FreshAt(now), FreshAt(last), FreshAt(now), h);
  }

  /** Moving to the front of what is shown shows what moving to the front of everything shows. */
  lemma FrontRefines(h: seq<Entry>, view: View, now: real)
    requires OnePerObject(h) && Sorted(Newer, h)
    ensures Take(LIMIT, [EntryOf(view, now)] + Filter(NotId(view.kind, view.key), Shown(h, now)))
            == Shown([EntryOf(view, now)] + Filter(NotId(view.kind, view.key), h), now)
  {
    var e, keep := EntryOf(view, now), NotId(view.kind, view.key);
    var y := Filter(FreshAt(now), h);
    FilterKeepsForm(FreshAt(now), h);
    RemovalDropsOne(y, view.kind, view.key);
    DropCommutesWithTake(LIMIT - 1, keep, y);
    TakeCons(LIMIT, e, Filter(keep, Take(LIMIT, y)));
    TakeCons(LIMIT, e, Filter(keep, y));
    FiltersCommute(keep, FreshAt(now), h);
    FilterCons(FreshAt(now), e, Filter(keep, h));
  }

  lemma FilterPrefix(keep: Entry -> bool, a: seq<Entry>, b: seq<Entry>)
    requires a <= b
    ensures Filter(keep, a) <= Filter(keep, b)
  {
    assert b == a + b[|a|..];
    FilterAppend(keep, a, b[|a|..]);
  }

  lemma PrefixForm(h: seq<Entry>, t: real, es: seq<Entry>)
    requires HistoryForm(h, t) && es <= Filter(FreshAt(t), h) && |es| <= LIMIT
    ensures WellFormed(es)
  {
    var all := Filter(FreshAt(t), h);
    FilterKeepsForm(FreshAt(t), h);
    assert forall i :: 0 <= i < |es| ==> es[i] == all[i] && all[i] in all;
  }

  /** Expiring a first part of what was current leaves a first part of what is current. */
  lemma PrefixLater(h: seq<Entry>, t: real, now: real, es: seq<Entry>)
    requires HistoryForm(h, t) && t <= now && es <= Filter(FreshAt(t), h)
    ensures Filter(FreshAt(now), es) <= Filter(FreshAt(now), h)
  {
    FilterPrefix(FreshAt(now), es, Filter(FreshAt(t), h));
    FilterFilter(FreshAt(now), FreshAt(t), FreshAt(now), h);
  }

  // ----------------------------------------------------------------- what a step leaves

  /** The list a cell holds for this account after a step. */
  function NextList(step: Step, owner: string, es: seq<Entry>): seq<Entry> {
    if Wipes(step, owner) then if Stores(step) && step.owner == owner then [EntryOf(step.view, step.now)] else []
    else if !Rewrites(step, owner) then es
    else
      var current := Filter(FreshAt(step.now), es);
      if step.RecordStep? then Take(LIMIT, Made(step, current))
      else if step.ReadStep? then current
      else Filter(Narrowing(step), current)
  }

  /** When that list was last brought up to date. */
  function NextTime(step: Step, owner: string, t: real): real {
    if Rewrites(step, owner) || (Stores(step) && step.owner == owner) then step.now else t
  }

  lemma EncodedForeign(p: string, es: seq<Entry>, owner: string)
    requires IsOwner(p) && p != owner
    ensures Foreign(Some(Encode(p, es)), owner)
  {
    EncodeParses(p, es);
  }

  /** A load of a list the cell holds. */
  lemma LoadHeld(f: Faults, cell: Option<Stored>, owner: string, es: seq<Entry>, now: real)
    requires IsOwner(owner) && WellFormed(es) && Holds(cell, owner, es)
    ensures var (left, all) := Loaded(f, cell, owner, now);
            && all == (if f.getFails then [] else Filter(FreshAt(now), es))
            && Holds(left, owner, if f.getFails || f.setFails then es else Filter(FreshAt(now), es))
  {
    EncodeParses(owner, es);
    EncodeAllLength(es);
    TidyOfWellFormed(es, now);
    if |Filter(FreshAt(now), es)| == |es| {
      FilterSameLength(FreshAt(now), es);
    }
  }

  /** A load by another account removes the list, unless storage refuses to read or to remove. */
  lemma LoadByOther(f: Faults, cell: Option<Stored>, p: string, owner: string, es: seq<Entry>, now: real)
    requires IsOwner(owner) && p != owner && Holds(cell, owner, es)
    ensures var (left, all) := Loaded(f, cell, p, now);
            && Holds(left, owner, if f.getFails || f.removeFails then es else [])
            && (!Foreign(cell, owner) ==> all == [])
            && (Foreign(cell, owner) ==> Foreign(left, owner))
  {
    EncodeParses(owner, es);
    if Foreign(cell, owner) && !f.getFails && cell.Some? && Parse(cell.value).Some? && Parse(cell.value).value.0 == p {
      EncodedForeign(p, Take(LIMIT, Tidy(Parse(cell.value).value.1, now)), owner);
    }
  }

  lemma OtherRecordHeld(cell: Option<Stored>, step: Step, owner: string, es: seq<Entry>)
    requires IsOwner(owner) && step.RecordStep? && step.owner != owner && Holds(cell, owner, es)
    ensures Holds(After(cell, step), owner, NextList(step, owner, es))
  {
    LoadByOther(step.f, cell, step.owner, owner, es, step.now);
    if Stores(step) {
      EncodedForeign(step.owner, Take(LIMIT, Made(step, Loaded(step.f, cell, step.owner, step.now).1)), owner);
    }
  }

  /** What a narrowing step leaves: what its load left, unless it dropped an entry and could write. */
  lemma AfterNarrow(cell: Option<Stored>, step: Step)
    requires step.ForgetStep? || step.ReadForStep?
    ensures var (left, all) := Loaded(step.f, cell, step.owner, step.now);
            var rest := Filter(Narrowing(step), all);
            After(cell, step)
            == if |rest| == |all| || step.f.setFails || !IsOwner(step.owner) then left
               else Some(Encode(step.owner, Take(LIMIT, rest)))
  {
  }

  lemma OtherNarrowHeld(cell: Option<Stored>, step: Step, owner: string, es: seq<Entry>)
    requires IsOwner(owner) && (step.ForgetStep? || step.ReadForStep?) && step.owner != owner && Holds(cell, owner, es)
    ensures Holds(After(cell, step), owner, if Wipes(step, owner) then [] else es)
  {
    AfterNarrow(cell, step);
    LoadByOther(step.f, cell, step.owner, owner, es, step.now);
    if IsOwner(step.owner) {
      EncodedForeign(
        step.owner, Take(LIMIT, Filter(Narrowing(step), Loaded(step.f, cell, step.owner, step.now).1)), owner);
    }
  }

  lemma OtherHeld(cell: Option<Stored>, step: Step, owner: string, es: seq<Entry>)
    requires IsOwner(owner) && !step.ClearStep? && step.owner != owner && Holds(cell, owner, es)
    ensures Holds(After(cell, step), owner, NextList(step, owner, es))
  {
    if step.RecordStep? {
      OtherRecordHeld(cell, step, owner, es);
    } else if step.ReadStep? {
      LoadByOther(step.f, cell, step.owner, owner, es, step.now);
    } else {
      OtherNarrowHeld(cell, step, owner, es);
    }
  }

  lemma NarrowHeld(cell: Option<Stored>, step: Step, owner: string, es: seq<Entry>)
    requires IsOwner(owner) && (step.ForgetStep? || step.ReadForStep?) && step.owner == owner
    requires WellFormed(es) && Holds(cell, owner, es)
    ensures Holds(After(cell, step), owner, NextList(step, owner, es))
  {
    LoadHeld(step.f, cell, owner, es, step.now);
    var (left, all) := Loaded(step.f, cell, owner, step.now);
    var rest := Filter(Narrowing(step), all);
    if |rest| == |all| {
      FilterSameLength(Narrowing(step), all);
      assert After(cell, step) == left;
    } else {
      assert Take(LIMIT, rest) == rest;
      assert After(cell, step) == Saved(step.f, left, owner, rest);
    }
  }

  lemma OwnHeld(cell: Option<Stored>, step: Step, owner: string, es: seq<Entry>)
    requires IsOwner(owner) && !step.ClearStep? && step.owner == owner
    requires WellFormed(es) && Holds(cell, owner, es)
    ensures Holds(After(cell, step), owner, NextList(step, owner, es))
  {
    LoadHeld(step.f, cell, owner, es, step.now);
    if step.RecordStep? {
      var all := Loaded(step.f, cell, owner, step.now).1;
      assert Made(step, []) == [EntryOf(step.view, step.now)];
      assert Stores(step) ==> After(cell, step) == Some(Encode(owner, Take(LIMIT, Made(step, all))));
    } else if !step.ReadStep? {
      NarrowHeld(cell, step, owner, es);
    }
  }

  lemma StepHeld(cell: Option<Stored>, step: Step, owner: string, es: seq<Entry>)
    requires IsOwner(owner) && WellFormed(es) && Holds(cell, owner, es)
    ensures Holds(After(cell, step), owner, NextList(step, owner, es))
  {
    if !step.ClearStep? {
      if step.owner == owner {
        OwnHeld(cell, step, owner, es);
      } else {
        OtherHeld(cell, step, owner, es);
      }
    }
  }

  // ------------------------------------------------------------------ what a step refines

  /** A step that is not about this account's list leaves its history alone. */
  lemma MoveUntouched(step: Step, owner: string, h: seq<Entry>)
    requires !Wipes(step, owner) && !Rewrites(step, owner) && IsOwner(owner)
    ensures Move(step, owner, h) == h
  {
    FilterAll(Kept(step, owner), h);
  }

  lemma MoveWiped(step: Step, owner: string, h: seq<Entry>)
    requires Wipes(step, owner)
    ensures Move(step, owner, h) == if Stores(step) && step.owner == owner then [EntryOf(step.view, step.now)] else []
  {
  }

  /** What a rewriting step does to the history. */
  lemma MoveRewritten(step: Step, owner: string, h: seq<Entry>)
    requires !Wipes(step, owner) && Rewrites(step, owner) && IsOwner(owner)
    ensures Move(step, owner, h)
            == if step.RecordStep? then Made(step, h) else if step.ReadStep? then h else Filter(Narrowing(step), h)
  {
    if step.RecordStep? {
      FilterCong(Kept(step, owner), NotId(step.view.kind, step.view.key), h);
    } else if step.ReadStep? {
      FilterAll(Kept(step, owner), h);
    } else {
      FilterCong(Kept(step, owner), Narrowing(step), h);
    }
  }

  lemma MoveForm(step: Step, owner: string, h: seq<Entry>, t: real)
    requires IsOwner(owner) && HistoryForm(h, t) && (step.ClearStep? || t <= step.now)
    ensures HistoryForm(Move(step, owner, h), NextTime(step, owner, t))
  {
    FilterKeepsForm(Kept(step, owner), h);
    if Stores(step) && step.owner == owner {
      RecordedLabelOk(step.view);
      var kept := if Wipes(step, owner) then [] else Filter(Kept(step, owner), h);
      FrontForm(EntryOf(step.view, step.now), kept);
    }
  }

  /** A step keeps the list a first part of what is current of the history. */
  lemma StepPrefix(step: Step, owner: string, h: seq<Entry>, t: real, es: seq<Entry>)
    requires IsOwner(owner) && HistoryForm(h, t) && (step.ClearStep? || t <= step.now)
    requires es <= Filter(FreshAt(t), h) && |es| <= LIMIT
    ensures NextList(step, owner, es) <= Filter(FreshAt(NextTime(step, owner, t)), Move(step, owner, h))
    ensures |NextList(step, owner, es)| <= LIMIT
  {
    if Wipes(step, owner) {
      MoveWiped(step, owner, h);
    } else if !Rewrites(step, owner) {
      MoveUntouched(step, owner, h);
    } else {
      MoveRewritten(step, owner, h);
      PrefixLater(h, t, step.now, es);
      RewritePrefix(step, h, Filter(FreshAt(step.now), es));
    }
  }

  lemma RewritePrefix(step: Step, h: seq<Entry>, current: seq<Entry>)
    requires !step.ClearStep? && current <= Filter(FreshAt(step.now), h)
    ensures step.RecordStep? ==> Take(LIMIT, Made(step, current)) <= Filter(FreshAt(step.now), Made(step, h))
    ensures step.ForgetStep? || step.ReadForStep? ==>
              Filter(Narrowing(step), current) <= Filter(FreshAt(step.now), Filter(Narrowing(step), h))
  {
    if step.RecordStep? {
      var e, keep := EntryOf(step.view, step.now), NotId(step.view.kind, step.view.key);
      FilterPrefix(keep, current, Filter(FreshAt(step.now), h));
      FiltersCommute(keep, FreshAt(step.now), h);
      FilterCons(FreshAt(step.now), e, Filter(keep, h));
    } else if step.ForgetStep? || step.ReadForStep? {
      FilterPrefix(Narrowing(step), current, Filter(FreshAt(step.now), h));
      FiltersCommute(Narrowing(step), FreshAt(step.now), h);
    }
  }

  /**
   * The step drops one of the first ten current entries and keeps one behind them, which the store
   * no longer has.
   */
  ghost predicate Cuts(step: Step, owner: string, h: seq<Entry>) {
    && (step.ForgetStep? || step.ReadForStep?) && Rewrites(step, owner)
    && !NoneMovesUp(Narrowing(step), Filter(FreshAt(step.now), h))
  }

  lemma {:induction false} FilterEmptyIff(keep: Entry -> bool, s: seq<Entry>)
    ensures Filter(keep, s) == [] <==> forall i :: 0 <= i < |s| ==> !keep(s[i])
    ensures |Filter(keep, s)| == |s| <==> forall i :: 0 <= i < |s| ==> keep(s[i])
  {
    if |s| == 0 {
    } else {
      FilterEmptyIff(keep, s[1..]);
      assert s == [s[0]] + s[1..];
    }
  }

  /** Taking from a list and what follows it leaves out what follows exactly when there is no room or nothing. */
  lemma TakeIgnoresRest(a: seq<Entry>, b: seq<Entry>)
    requires |a| <= LIMIT
    ensures a == Take(LIMIT, a + b) <==> |a| == LIMIT || b == []
  {
    if |a| == LIMIT {
      TakeOfConcat(LIMIT, a, b);
    } else if b == [] {
      assert a + b == a;
    } else {
      assert |Take(LIMIT, a + b)| > |a|;
    }
  }

  /** Nothing among the first ten is dropped, or nothing behind them is kept. */
  ghost predicate NoneMovesUp(keep: Entry -> bool, s: seq<Entry>) {
    || (forall i :: 0 <= i < |s| && i < LIMIT ==> keep(s[i]))
    || (forall j :: LIMIT <= j < |s| ==> !keep(s[j]))
  }

  /** Narrowing the first ten is the first ten of the narrowed exactly when nothing behind them moves up. */
  lemma NarrowFirstTen(keep: Entry -> bool, s: seq<Entry>)
    ensures Filter(keep, Take(LIMIT, s)) == Take(LIMIT, Filter(keep, s)) <==> NoneMovesUp(keep, s)
  {
    if |s| > LIMIT {
      var a, b := s[..LIMIT], s[LIMIT..];
      assert s == a + b;
      FilterAppend(keep, a, b);
      TakeIgnoresRest(Filter(keep, a), Filter(keep, b));
      FilterEmptyIff(keep, a);
      FilterEmptyIff(keep, b);
      SliceKept(keep, s);
    }
  }

  lemma SliceKept(keep: Entry -> bool, s: seq<Entry>)
    requires |s| > LIMIT
    ensures var a, b := s[..LIMIT], s[LIMIT..];
            NoneMovesUp(keep, s)
            <==> (forall i :: 0 <= i < |a| ==> keep(a[i])) || (forall j :: 0 <= j < |b| ==> !keep(b[j]))
  {
    var a, b := s[..LIMIT], s[LIMIT..];
    if forall j :: 0 <= j < |b| ==> !keep(b[j]) {
      forall j | LIMIT <= j < |s| ensures !keep(s[j]) {
        assert s[j] == b[j - LIMIT];
      }
    }
    if forall j :: LIMIT <= j < |s| ==> !keep(s[j]) {
      forall j | 0 <= j < |b| ensures !keep(b[j]) {
        assert b[j] == s[LIMIT + j];
      }
    }
  }

  /** A list that holds the first ten holds the first ten after the step exactly when the step does not cut. */
  lemma StepShownIff(step: Step, owner: string, h: seq<Entry>, t: real)
    requires IsOwner(owner) && HistoryForm(h, t) && (step.ClearStep? || t <= step.now)
    ensures NextList(step, owner, Shown(h, t)) == Shown(Move(step, owner, h), NextTime(step, owner, t))
            <==> !Cuts(step, owner, h)
  {
    if Wipes(step, owner) {
      MoveWiped(step, owner, h);
    } else if !Rewrites(step, owner) {
      MoveUntouched(step, owner, h);
    } else {
      MoveRewritten(step, owner, h);
      ShownLater(h, t, step.now);
      if step.RecordStep? {
        FrontRefines(h, step.view, step.now);
      } else if !step.ReadStep? {
        FiltersCommute(Narrowing(step), FreshAt(step.now), h);
        NarrowFirstTen(Narrowing(step), Filter(FreshAt(step.now), h));
      }
    }
  }

  // -------------------------------------------------------------------------- whole runs

  /** The list the cell holds for this account after a run that found nothing of its own. */
  function ListAfter(steps: seq<Step>, owner: string): seq<Entry> {
    if |steps| == 0 then [] else NextList(steps[|steps| - 1], owner, ListAfter(steps[..|steps| - 1], owner))
  }

  function TimeAfter(steps: seq<Step>, owner: string, first: real): real {
    if |steps| == 0 then first
    else NextTime(steps[|steps| - 1], owner, TimeAfter(steps[..|steps| - 1], owner, first))
  }

  /** A time no later than any step's. */
  function Earliest(steps: seq<Step>, now: real): real {
    if |steps| == 0 then now
    else
      var rest, step := Earliest(steps[..|steps| - 1], now), steps[|steps| - 1];
      if !step.ClearStep? && step.now < rest then step.now else rest
  }

  ghost predicate AllAfter(steps: seq<Step>, first: real) {
    forall i :: 0 <= i < |steps| && !steps[i].ClearStep? ==> first <= steps[i].now
  }

  lemma {:induction false} EarliestAfter(steps: seq<Step>, now: real)
    ensures AllAfter(steps, Earliest(steps, now)) && Earliest(steps, now) <= now
  {
    if |steps| == 0 {
    } else {
      EarliestAfter(steps[..|steps| - 1], now);
    }
  }

  lemma {:induction false} TimeBounds(steps: seq<Step>, owner: string, first: real, now: real)
    requires AllAfter(steps, first) && AllBefore(steps, now) && first <= now
    ensures first <= TimeAfter(steps, owner, first) <= now
  {
    if |steps| == 0 {
    } else {
      TimeBounds(steps[..|steps| - 1], owner, first, now);
    }
  }

  /** What every run keeps: the list in the cell is a first part of what was current of the history. */
  ghost predicate Windows(start: Option<Stored>, steps: seq<Step>, owner: string, first: real) {
    var h, t, es := History(steps, owner), TimeAfter(steps, owner, first), ListAfter(steps, owner);
    && HistoryForm(h, t) && Holds(Run(start, steps), owner, es)
    && es <= Filter(FreshAt(t), h) && |es| <= LIMIT
  }

  lemma LastTimed(steps: seq<Step>, owner: string, first: real)
    requires |steps| > 0 && ClockNeverGoesBack(steps) && AllAfter(steps, first)
    ensures ClockNeverGoesBack(steps[..|steps| - 1]) && AllAfter(steps[..|steps| - 1], first)
    ensures !steps[|steps| - 1].ClearStep? ==>
              TimeAfter(steps[..|steps| - 1], owner, first) <= steps[|steps| - 1].now
  {
    if !steps[|steps| - 1].ClearStep? {
      TimeBounds(steps[..|steps| - 1], owner, first, steps[|steps| - 1].now);
    }
  }

  lemma {:induction false} RunWindows(start: Option<Stored>, steps: seq<Step>, owner: string, first: real)
    requires IsOwner(owner) && Foreign(start, owner) && ClockNeverGoesBack(steps) && AllAfter(steps, first)
    ensures Windows(start, steps, owner, first)
  {
    if |steps| == 0 {
    } else {
      var rest, step := steps[..|steps| - 1], steps[|steps| - 1];
      LastTimed(steps, owner, first);
      RunWindows(start, rest, owner, first);
      var h, t, es := History(rest, owner), TimeAfter(rest, owner, first), ListAfter(rest, owner);
      PrefixForm(h, t, es);
      StepHeld(Run(start, rest), step, owner, es);
      MoveForm(step, owner, h, t);
      StepPrefix(step, owner, h, t, es);
    }
  }

  /** The step at `i` cuts the history it finds. */
  ghost predicate CutsAt(steps: seq<Step>, owner: string, i: nat)
    requires i < |steps|
  {
    Cuts(steps[i], owner, History(steps[..i], owner))
  }

  ghost predicate NoneCut(steps: seq<Step>, owner: string) {
    forall i :: 0 <= i < |steps| ==> !CutsAt(steps, owner, i)
  }

  lemma CutsAtPrefix(steps: seq<Step>, owner: string, n: nat, i: nat)
    requires i < n <= |steps|
    ensures CutsAt(steps[..n], owner, i) <==> CutsAt(steps, owner, i)
  {
    assert steps[..n][..i] == steps[..i];
  }

  lemma {:induction false} RunShown(start: Option<Stored>, steps: seq<Step>, owner: string, first: real)
    requires IsOwner(owner) && Foreign(start, owner) && ClockNeverGoesBack(steps) && AllAfter(steps, first)
    requires NoneCut(steps, owner)
    ensures ListAfter(steps, owner) == Shown(History(steps, owner), TimeAfter(steps, owner, first))
  {
    if |steps| == 0 {
    } else {
      var n := |steps| - 1;
      LastTimed(steps, owner, first);
      RunWindows(start, steps[..n], owner, first);
      forall i | 0 <= i < n ensures !CutsAt(steps[..n], owner, i) {
        CutsAtPrefix(steps, owner, n, i);
      }
      assert !CutsAt(steps, owner, n);
      RunShown(start, steps[..n], owner, first);
      StepShownIff(steps[n], owner, History(steps[..n], owner), TimeAfter(steps[..n], owner, first));
    }
  }

  // ----------------------------------------------------------------------- main results

  /**
   * After any run of calls by any accounts, whichever storage calls throw, with a clock that never
   * goes back and from any content that is not this account's: what the account reads is a first
   * part of the unexpired part of its unbounded history, and at most ten entries of it.
   */
  lemma ReadIsPrefix(start: Option<Stored>, steps: seq<Step>, f: Faults, owner: string, now: real)
    requires IsOwner(owner) && Foreign(start, owner) && ClockNeverGoesBack(steps) && AllBefore(steps, now)
    ensures Loaded(f, Run(start, steps), owner, now).1 <= Filter(FreshAt(now), History(steps, owner))
    ensures |Loaded(f, Run(start, steps), owner, now).1| <= LIMIT
  {
    var first := Earliest(steps, now);
    EarliestAfter(steps, now);
    RunWindows(start, steps, owner, first);
    TimeBounds(steps, owner, first, now);
    var h, t, es := History(steps, owner), TimeAfter(steps, owner, first), ListAfter(steps, owner);
    PrefixForm(h, t, es);
    LoadHeld(f, Run(start, steps), owner, es, now);
    PrefixLater(h, t, now, es);
  }

  /**
   * It is the first ten of them, whatever was recorded, read, wiped, forgotten or lost to a
   * capability, unless some call dropped one of the ten while an entry behind them stayed.
   */
  lemma ReadIsFirstTen(start: Option<Stored>, steps: seq<Step>, f: Faults, owner: string, now: real)
    requires IsOwner(owner) && Foreign(start, owner) && ClockNeverGoesBack(steps) && AllBefore(steps, now)
    requires NoneCut(steps, owner) && !f.getFails
    ensures Loaded(f, Run(start, steps), owner, now).1 == Take(LIMIT, Filter(FreshAt(now), History(steps, owner)))
  {
    var first := Earliest(steps, now);
    EarliestAfter(steps, now);
    RunWindows(start, steps, owner, first);
    RunShown(start, steps, owner, first);
    TimeBounds(steps, owner, first, now);
    var h, t, es := History(steps, owner), TimeAfter(steps, owner, first), ListAfter(steps, owner);
    PrefixForm(h, t, es);
    LoadHeld(f, Run(start, steps), owner, es, now);
    ShownLater(h, t, now);
  }

  /** The list that the first cutting call leaves is not the first ten. */
  lemma CutList(start: Option<Stored>, steps: seq<Step>, owner: string, first: real)
    requires IsOwner(owner) && Foreign(start, owner) && ClockNeverGoesBack(steps) && AllAfter(steps, first)
    requires |steps| > 0 && NoneCut(steps[..|steps| - 1], owner)
    requires CutsAt(steps, owner, |steps| - 1)
    ensures TimeAfter(steps, owner, first) == steps[|steps| - 1].now
    ensures ListAfter(steps, owner) != Shown(History(steps, owner), steps[|steps| - 1].now)
  {
    var rest, step := steps[..|steps| - 1], steps[|steps| - 1];
    LastTimed(steps, owner, first);
    RunWindows(start, rest, owner, first);
    RunShown(start, rest, owner, first);
    StepShownIff(step, owner, History(rest, owner), TimeAfter(rest, owner, first));
  }

  lemma CutReadsShort(start: Option<Stored>, steps: seq<Step>, f: Faults, owner: string)
    requires IsOwner(owner) && Foreign(start, owner) && ClockNeverGoesBack(steps) && !f.getFails
    requires |steps| > 0 && NoneCut(steps[..|steps| - 1], owner)
    requires CutsAt(steps, owner, |steps| - 1)
    ensures var now := steps[|steps| - 1].now;
            Loaded(f, Run(start, steps), owner, now).1 != Shown(History(steps, owner), now)
  {
    var now := steps[|steps| - 1].now;
    var first := Earliest(steps, now);
    EarliestAfter(steps, now);
    RunWindows(start, steps, owner, first);
    CutList(start, steps, owner, first);
    var es := ListAfter(steps, owner);
    PrefixForm(History(steps, owner), now, es);
    LoadHeld(f, Run(start, steps), owner, es, now);
    FilterAll(FreshAt(now), es);
  }

  lemma NoneCutExtend(steps: seq<Step>, owner: string)
    requires |steps| > 0 && NoneCut(steps[..|steps| - 1], owner)
    requires !CutsAt(steps, owner, |steps| - 1)
    ensures NoneCut(steps, owner)
  {
    forall i | 0 <= i < |steps| ensures !CutsAt(steps, owner, i) {
      if i < |steps| - 1 {
        CutsAtPrefix(steps, owner, |steps| - 1, i);
      }
    }
  }

  /** The condition is exact: after the first call that cuts, a read at that very time falls short. */
  lemma FirstCutFallsShort(start: Option<Stored>, steps: seq<Step>, f: Faults, owner: string)
    requires IsOwner(owner) && Foreign(start, owner) && ClockNeverGoesBack(steps) && !f.getFails
    requires |steps| > 0 && NoneCut(steps[..|steps| - 1], owner) && !steps[|steps| - 1].ClearStep?
    ensures var now := steps[|steps| - 1].now;
            Loaded(f, Run(start, steps), owner, now).1 == Take(LIMIT, Filter(FreshAt(now), History(steps, owner)))
            <==> !CutsAt(steps, owner, |steps| - 1)
  {
    if CutsAt(steps, owner, |steps| - 1) {
      CutReadsShort(start, steps, f, owner);
    } else {
      NoneCutExtend(steps, owner);
      ReadIsFirstTen(start, steps, f, owner, steps[|steps| - 1].now);
    }
  }

  lemma {:induction false} HistoryTimes(steps: seq<Step>, owner: string, first: real, now: real)
    requires AllAfter(steps, first) && AllBefore(steps, now)
    ensures forall e :: e in History(steps, owner) ==> first <= e.at <= now
  {
    if |steps| == 0 {
    } else {
      HistoryTimes(steps[..|steps| - 1], owner, first, now);
    }
  }

  /** When the run spans no more than the maximum age, nothing has expired: the first ten, plainly. */
  lemma ReadWithinAge(start: Option<Stored>, steps: seq<Step>, f: Faults, owner: string, first: real, now: real)
    requires IsOwner(owner) && Foreign(start, owner) && ClockNeverGoesBack(steps)
    requires AllAfter(steps, first) && AllBefore(steps, now) && now - first <= MAX_AGE_MS
    requires NoneCut(steps, owner) && !f.getFails
    ensures Loaded(f, Run(start, steps), owner, now).1 == Take(LIMIT, History(steps, owner))
  {
    ReadIsFirstTen(start, steps, f, owner, now);
    HistoryTimes(steps, owner, first, now);
    FilterAll(FreshAt(now), History(steps, owner));
  }

  // --------------------------------------------------------------- where ten are not held

  const NO_FAULTS: Faults := Faults(false, false, false)
  function Someone(): string {
    seq(64, _ => '0')
  }

  function NthView(i: nat): View {
    View(Share, seq(i + 1, _ => 'k'), "x")
  }

  function NthEntry(i: nat): Entry {
    Entry(Share, seq(i + 1, _ => 'k'), "x", 0.0)
  }

  function NthStep(i: nat): Step {
    RecordStep(NO_FAULTS, Someone(), NthView(i), 0.0)
  }

  function NthSteps(n: nat): seq<Step> {
    seq(n, i requires 0 <= i < n => NthStep(i))
  }

  /** The first `n` entries, the newest first. */
  function NthList(n: nat): seq<Entry> {
    seq(n, j requires 0 <= j < n => NthEntry(n - 1 - j))
  }

  lemma NthStored(i: nat)
    requires i < KEY_MAX
    ensures Recordable(NthView(i)) && EntryOf(NthView(i), 0.0) == NthEntry(i) && IsOwner(Someone())
  {
    assert TrimLeft("x") == "x" && TrimRight("x") == "x";
  }

  lemma NthListMember(n: nat, e: Entry) returns (i: nat)
    requires e in NthList(n)
    ensures i < n && e == NthEntry(i) && |e.key| == i + 1
  {
    var j :| 0 <= j < n && NthList(n)[j] == e;
    i := n - 1 - j;
  }

  lemma NthListGrows(n: nat)
    ensures NthList(n + 1) == [NthEntry(n)] + NthList(n)
  {
  }

  lemma NthKeyIsNew(n: nat)
    ensures Filter(NotId(Share, NthView(n).key), NthList(n)) == NthList(n)
  {
    var keep := NotId(Share, NthView(n).key);
    assert |NthView(n).key| == n + 1;
    forall e | e in NthList(n) ensures keep(e) {
      var i := NthListMember(n, e);
    }
    FilterAll(keep, NthList(n));
  }

  lemma NthMove(n: nat)
    requires n < KEY_MAX
    ensures Move(NthStep(n), Someone(), NthList(n)) == NthList(n + 1)
  {
    NthStored(n);
    MoveRewritten(NthStep(n), Someone(), NthList(n));
    NthKeyIsNew(n);
    NthListGrows(n);
  }

  /** Views of different shares stand one behind the other. */
  lemma {:induction false} NthHistory(n: nat)
    requires n <= KEY_MAX
    ensures History(NthSteps(n), Someone()) == NthList(n)
  {
    if n == 0 {
    } else {
      assert NthSteps(n)[..n - 1] == NthSteps(n - 1) && NthSteps(n)[n - 1] == NthStep(n - 1);
      NthHistory(n - 1);
      NthMove(n - 1);
    }
  }

  /** Forgets the newest of `n`. */
  function ForgetNewest(n: nat): Step
    requires n > 0
  {
    ForgetStep(NO_FAULTS, Someone(), Share, NthView(n - 1).key, 0.0)
  }

  lemma ForgetCuts(n: nat)
    requires LIMIT < n <= KEY_MAX
    ensures Cuts(ForgetNewest(n), Someone(), NthList(n))
  {
    var h, keep := NthList(n), Narrowing(ForgetNewest(n));
    forall e | e in h ensures FreshAt(0.0)(e) {
      var i := NthListMember(n, e);
    }
    FilterAll(FreshAt(0.0), h);
    assert h[0] == NthEntry(n - 1) && h[LIMIT] == NthEntry(n - 1 - LIMIT);
    assert |NthEntry(n - 1).key| == n && |NthEntry(n - 1 - LIMIT).key| == n - LIMIT;
    assert !keep(h[0]) && keep(h[LIMIT]);
  }

  /** A cut after a run that did not cut is read short. */
  lemma CutAfter(steps: seq<Step>, step: Step, owner: string)
    requires IsOwner(owner) && ClockNeverGoesBack(steps + [step])
    requires NoneCut(steps, owner) && Cuts(step, owner, History(steps, owner))
    ensures Loaded(NO_FAULTS, Run(None, steps + [step]), owner, step.now).1
            != Shown(History(steps + [step], owner), step.now)
  {
    var all := steps + [step];
    assert all[..|steps|] == steps && all[|steps|] == step;
    CutReadsShort(None, all, NO_FAULTS, owner);
  }

  lemma RecordsNeverCut(steps: seq<Step>, owner: string)
    requires forall i :: 0 <= i < |steps| ==> steps[i].RecordStep?
    ensures NoneCut(steps, owner)
  {
  }

  lemma NthRun(n: nat)
    requires LIMIT < n <= KEY_MAX
    ensures NoneCut(NthSteps(n), Someone()) && Cuts(ForgetNewest(n), Someone(), History(NthSteps(n), Someone()))
  {
    NthHistory(n);
    ForgetCuts(n);
    RecordsNeverCut(NthSteps(n), Someone());
  }

  lemma NthClock(n: nat)
    requires n > 0
    ensures IsOwner(Someone()) && ClockNeverGoesBack(NthSteps(n) + [ForgetNewest(n)])
  {
  }

  /**
   * More than ten shares viewed and the newest forgotten: the eleventh was cut off when it was
   * pushed out, and does not come back.
   */
  lemma CutEntryDoesNotReturn(n: nat)
    requires LIMIT < n <= KEY_MAX
    ensures var steps := NthSteps(n) + [ForgetNewest(n)];
            Loaded(NO_FAULTS, Run(None, steps), Someone(), 0.0).1
            != Take(LIMIT, Filter(FreshAt(0.0), History(steps, Someone())))
  {
    NthRun(n);
    NthClock(n);
    CutAfter(NthSteps(n), ForgetNewest(n), Someone());
  }
}
