/** Grouping a page of changes so that the two halves of one ACL edit sit together. */
module ChangeGroups {
  import opened Options
  import opened Seqs

  datatype Change = Change(key: string, edit: Option<int>)

  datatype AceEdit = AceEdit(index: int, summary: string)

  /** The edit a change resolves to: the first with its index. */
  function EditFor(change: Change, edits: seq<AceEdit>): Option<AceEdit> {
    if change.edit.None? || |edits| == 0 then None
    else if edits[0].index == change.edit.value then Some(edits[0])
    else EditFor(change, edits[1..])
  }

  /** The index a change resolves to, or nothing when it stands alone. */
  function KeyOf(change: Change, edits: seq<AceEdit>): Option<int> {
    match EditFor(change, edits)
    case None => None
    case Some(edit) => Some(edit.index)
  }

  function Keys(changes: seq<Change>, edits: seq<AceEdit>): (keys: seq<Option<int>>)
    ensures |keys| == |changes|
    ensures forall i :: 0 <= i < |keys| ==> keys[i] == KeyOf(changes[i], edits)
  {
    seq(|changes|, i requires 0 <= i < |changes| => KeyOf(changes[i], edits))
  }

  lemma {:induction false} EditForIndex(change: Change, edits: seq<AceEdit>)
    ensures EditFor(change, edits).Some? ==>
              change.edit == Some(EditFor(change, edits).value.index) && EditFor(change, edits).value in edits
  {
    if change.edit.None? || |edits| == 0 {
    } else {
      EditForIndex(change, edits[1..]);
    }
  }

  // --------------------------------------------------- the declarative grouping, by position

  /** Two positions belong together: the same change, or two changes of one edit. */
  predicate Together(keys: seq<Option<int>>, i: nat, j: nat)
    requires i < |keys| && j < |keys|
  {
    i == j || (keys[i].Some? && keys[i] == keys[j])
  }

  predicate Leads(keys: seq<Option<int>>, i: nat)
    requires i < |keys|
  {
    forall j :: 0 <= j < i ==> !Together(keys, j, i)
  }

  /** The positions among the first `n` that start a group, in order. */
  function Leaders(keys: seq<Option<int>>, n: nat): seq<nat>
    requires n <= |keys|
  {
    if n == 0 then [] else Leaders(keys, n - 1) + if Leads(keys, n - 1) then [n - 1] else []
  }

  /** The positions among the first `n` that belong with `i`, in order. */
  function ClassOf(keys: seq<Option<int>>, n: nat, i: nat): seq<nat>
    requires n <= |keys| && i < |keys|
  {
    if n == 0 then [] else ClassOf(keys, n - 1, i) + if Together(keys, i, n - 1) then [n - 1] else []
  }

  lemma {:induction false} LeadersIncrease(keys: seq<Option<int>>, n: nat)
    requires n <= |keys|
    ensures forall a :: 0 <= a < |Leaders(keys, n)| ==> Leaders(keys, n)[a] < n && Leads(keys, Leaders(keys, n)[a])
    ensures forall a, b :: 0 <= a < b < |Leaders(keys, n)| ==> Leaders(keys, n)[a] < Leaders(keys, n)[b]
    ensures forall i :: 0 <= i < n && Leads(keys, i) ==> i in Leaders(keys, n)
  {
    if n == 0 {
    } else {
      LeadersIncrease(keys, n - 1);
      var rest := Leaders(keys, n - 1);
      assert Leaders(keys, n) == if Leads(keys, n - 1) then rest + [n - 1] else rest;
    }
  }

  lemma {:induction false} ClassIncreases(keys: seq<Option<int>>, n: nat, i: nat)
    requires n <= |keys| && i < |keys|
    ensures forall x :: x in ClassOf(keys, n, i) <==> 0 <= x < n && Together(keys, i, x)
    ensures forall a, b :: 0 <= a < b < |ClassOf(keys, n, i)| ==> ClassOf(keys, n, i)[a] < ClassOf(keys, n, i)[b]
  {
    if n == 0 {
    } else {
      ClassIncreases(keys, n - 1, i);
      var rest := ClassOf(keys, n - 1, i);
      assert forall a :: 0 <= a < |rest| ==> rest[a] in rest;
    }
  }

  datatype GroupValue = GroupValue(edit: Option<AceEdit>, changes: seq<Change>)

  function At(changes: seq<Change>, positions: seq<nat>): seq<Change>
    requires forall x :: x in positions ==> x < |changes|
  {
    seq(|positions|, k requires 0 <= k < |positions| => assert positions[k] in positions; changes[positions[k]])
  }

  /** What the group led by position `i` holds once `n` changes have been read. */
  function GroupOf(changes: seq<Change>, edits: seq<AceEdit>, n: nat, i: nat): GroupValue
    requires n <= |changes| && i < |changes|
  {
    var keys := Keys(changes, edits);
    ClassIncreases(keys, n, i);
    GroupValue(EditFor(changes[i], edits), At(changes, ClassOf(keys, n, i)))
  }

  /** The declarative grouping: one group per leader, in order, each its whole class. */
  function Grouping(changes: seq<Change>, edits: seq<AceEdit>, n: nat): (r: seq<GroupValue>)
    requires n <= |changes|
    ensures |r| == |Leaders(Keys(changes, edits), n)|
    ensures forall a :: 0 <= a < |r| ==>
              && Leaders(Keys(changes, edits), n)[a] < |changes|
              && r[a] == GroupOf(changes, edits, n, Leaders(Keys(changes, edits), n)[a])
  {
    var leaders := Leaders(Keys(changes, edits), n);
    LeadersIncrease(Keys(changes, edits), n);
    seq(|leaders|, a requires 0 <= a < |leaders| => GroupOf(changes, edits, n, leaders[a]))
  }

  // --------------------------------------------------------- what one more change does

  /** Every position has a leader, and exactly one. */
  lemma {:induction false} LeaderOf(keys: seq<Option<int>>, n: nat, j: nat) returns (a: nat)
    requires j < n <= |keys|
    ensures a < |Leaders(keys, n)| && Leaders(keys, n)[a] <= j && Together(keys, Leaders(keys, n)[a], j)
  {
    LeadersIncrease(keys, n);
    if Leads(keys, j) {
      a :| 0 <= a < |Leaders(keys, n)| && Leaders(keys, n)[a] == j;
    } else {
      var i :| 0 <= i < j && Together(keys, i, j);
      a := LeaderOf(keys, n, i);
    }
  }

  lemma OneLeader(keys: seq<Option<int>>, n: nat, a: nat, b: nat, j: nat)
    requires n <= |keys| && a < |Leaders(keys, n)| && b < |Leaders(keys, n)| && j < |keys|
    requires Leaders(keys, n)[a] < n && Leaders(keys, n)[b] < n
    requires Together(keys, Leaders(keys, n)[a], j) && Together(keys, Leaders(keys, n)[b], j)
    ensures a == b
  {
    LeadersIncrease(keys, n);
    var i, k := Leaders(keys, n)[a], Leaders(keys, n)[b];
    assert Together(keys, i, k) && Together(keys, k, i);
  }

  lemma AtSnoc(changes: seq<Change>, positions: seq<nat>, n: nat)
    requires (forall x :: x in positions ==> x < |changes|) && n < |changes|
    ensures forall x :: x in positions + [n] ==> x < |changes|
    ensures At(changes, positions + [n]) == At(changes, positions) + [changes[n]]
  {
  }

  lemma {:induction false} ClassOfLeader(keys: seq<Option<int>>, n: nat, i: nat)
    requires n <= i < |keys| && Leads(keys, i)
    ensures ClassOf(keys, n, i) == []
  {
    if n == 0 {
    } else {
      assert !Together(keys, n - 1, i);
      ClassOfLeader(keys, n - 1, i);
    }
  }

  /** The group led by `i` gains the next change when the two belong together, and is as it was otherwise. */
  lemma GroupStep(changes: seq<Change>, edits: seq<AceEdit>, n: nat, i: nat)
    requires n < |changes| && i < |changes|
    ensures var keys := Keys(changes, edits);
            var g := GroupOf(changes, edits, n, i);
            GroupOf(changes, edits, n + 1, i)
            == if Together(keys, i, n) then g.(changes := g.changes + [changes[n]]) else g
  {
    var keys := Keys(changes, edits);
    ClassIncreases(keys, n, i);
    if Together(keys, i, n) {
      AtSnoc(changes, ClassOf(keys, n, i), n);
    }
  }

  /** A change that leads adds a group of its own. */
  lemma LeaderStep(changes: seq<Change>, edits: seq<AceEdit>, n: nat)
    requires n < |changes| && Leads(Keys(changes, edits), n)
    ensures Grouping(changes, edits, n + 1)
            == Grouping(changes, edits, n) + [GroupValue(EditFor(changes[n], edits), [changes[n]])]
  {
    var keys := Keys(changes, edits);
    var leaders := Leaders(keys, n);
    LeadersIncrease(keys, n);
    assert Leaders(keys, n + 1) == leaders + [n];
    forall a | 0 <= a < |leaders|
      ensures GroupOf(changes, edits, n + 1, leaders[a]) == GroupOf(changes, edits, n, leaders[a])
    {
      GroupStep(changes, edits, n, leaders[a]);
    }
    ClassOfLeader(keys, n, n);
    GroupStep(changes, edits, n, n);
    var own := GroupOf(changes, edits, n, n);
    assert own.changes == [] && own.changes + [changes[n]] == [changes[n]];
  }

  /** A change that follows joins its leader's group and leaves the others alone. */
  lemma FollowerStep(changes: seq<Change>, edits: seq<AceEdit>, n: nat, a: nat)
    requires n < |changes| && !Leads(Keys(changes, edits), n)
    requires var keys := Keys(changes, edits);
             a < |Leaders(keys, n)| && Leaders(keys, n)[a] < n && Together(keys, Leaders(keys, n)[a], n)
    ensures |Grouping(changes, edits, n + 1)| == |Grouping(changes, edits, n)|
    ensures forall b :: 0 <= b < |Grouping(changes, edits, n)| ==>
              var g := Grouping(changes, edits, n)[b];
              Grouping(changes, edits, n + 1)[b]
              == if b == a then g.(changes := g.changes + [changes[n]]) else g
  {
    var keys := Keys(changes, edits);
    var leaders := Leaders(keys, n);
    LeadersIncrease(keys, n);
    assert Leaders(keys, n + 1) == leaders;
    forall b | 0 <= b < |leaders|
      ensures GroupOf(changes, edits, n + 1, leaders[b])
              == var g := GroupOf(changes, edits, n, leaders[b]);
                 if b == a then g.(changes := g.changes + [changes[n]]) else g
    {
      GroupStep(changes, edits, n, leaders[b]);
      if Together(keys, leaders[b], n) {
        OneLeader(keys, n, a, b, n);
      }
    }
  }

  // ------------------------------------------------------------------ the one-pass method

  /** A group the source pushes onto after it is already in the list. */
  class Group {
    const edit: Option<AceEdit>
    var changes: seq<Change>

    constructor (edit: Option<AceEdit>, changes: seq<Change>)
      ensures this.edit == edit && this.changes == changes
    {
      this.edit := edit;
      this.changes := changes;
    }

    function Value(): GroupValue
      reads this
    {
      GroupValue(edit, changes)
    }
  }

  /** The list shows these values. */
  ghost predicate Shows(groups: seq<Group>, values: seq<GroupValue>)
    reads groups
  {
    |groups| == |values| && forall a :: 0 <= a < |groups| ==> groups[a].Value() == values[a]
  }

  ghost predicate SeenKey(keys: seq<Option<int>>, n: nat, k: int)
    requires n <= |keys|
  {
    exists i :: 0 <= i < n && keys[i] == Some(k)
  }

  /** `byEdit` finds the group of each edit seen so far. */
  ghost predicate Finds(byEdit: map<int, Group>, groups: seq<Group>, keys: seq<Option<int>>, n: nat)
    requires n <= |keys|
  {
    && |groups| == |Leaders(keys, n)|
    && (forall k :: k in byEdit <==> SeenKey(keys, n, k))
    && (forall a :: 0 <= a < |groups| ==> Leaders(keys, n)[a] < n)
    && (forall a :: 0 <= a < |groups| && keys[Leaders(keys, n)[a]].Some? ==>
          && keys[Leaders(keys, n)[a]].value in byEdit
          && byEdit[keys[Leaders(keys, n)[a]].value] == groups[a])
  }

  lemma FindsLeader(byEdit: map<int, Group>, groups: seq<Group>, keys: seq<Option<int>>, n: nat, group: Group)
    requires n < |keys| && Finds(byEdit, groups, keys, n) && Leads(keys, n)
    ensures Finds(if keys[n].Some? then byEdit[keys[n].value := group] else byEdit, groups + [group], keys, n + 1)
  {
    var leaders := Leaders(keys, n);
    assert Leaders(keys, n + 1) == leaders + [n];
    forall a | 0 <= a < |groups| && keys[leaders[a]].Some?
      ensures keys[n].Some? ==> keys[leaders[a]].value != keys[n].value
    {
      assert !Together(keys, leaders[a], n);
    }
    SeenGrows(keys, n);
  }

  lemma SeenGrows(keys: seq<Option<int>>, n: nat)
    requires n < |keys|
    ensures forall k :: SeenKey(keys, n + 1, k) <==> SeenKey(keys, n, k) || keys[n] == Some(k)
  {
    forall k ensures SeenKey(keys, n + 1, k) <==> SeenKey(keys, n, k) || keys[n] == Some(k) {
      if SeenKey(keys, n, k) {
        var i :| 0 <= i < n && keys[i] == Some(k);
        assert 0 <= i < n + 1;
      }
    }
  }

  lemma FindsFollower(byEdit: map<int, Group>, groups: seq<Group>, keys: seq<Option<int>>, n: nat) returns (a: nat)
    requires n < |keys| && Finds(byEdit, groups, keys, n)
    requires keys[n].Some? && keys[n].value in byEdit
    ensures a < |groups| && Leaders(keys, n)[a] < n && Together(keys, Leaders(keys, n)[a], n)
    ensures groups[a] == byEdit[keys[n].value] && !Leads(keys, n)
    ensures Finds(byEdit, groups, keys, n + 1)
  {
    assert SeenKey(keys, n, keys[n].value);
    var j :| 0 <= j < n && keys[j] == Some(keys[n].value);
    a := LeaderOf(keys, n, j);
    assert Together(keys, j, n);
    assert Leaders(keys, n + 1) == Leaders(keys, n);
    SeenGrows(keys, n);
  }

  /** The groups and the map after the first `n` changes. */
  ghost predicate Inv(changes: seq<Change>, edits: seq<AceEdit>, n: nat, groups: seq<Group>, byEdit: map<int, Group>)
    requires n <= |changes|
    reads groups
  {
    && Distinct(groups)
    && Shows(groups, Grouping(changes, edits, n))
    && Finds(byEdit, groups, Keys(changes, edits), n)
  }

  /** The first branch and the second: a group of its own, remembered when it belongs to an edit. */
  method OpenGroup(changes: seq<Change>, edits: seq<AceEdit>, n: nat, groups: seq<Group>, byEdit: map<int, Group>)
    returns (groups': seq<Group>, byEdit': map<int, Group>)
    requires n < |changes| && Inv(changes, edits, n, groups, byEdit) && Leads(Keys(changes, edits), n)
    ensures Inv(changes, edits, n + 1, groups', byEdit')
    ensures |groups'| == |groups| + 1 && groups'[..|groups|] == groups && fresh(groups'[|groups|])
  {
    var change := changes[n];
    var edit := EditFor(change, edits);
    var group := new Group(edit, [change]);
    LeaderStep(changes, edits, n);
    FindsLeader(byEdit, groups, Keys(changes, edits), n, group);
    byEdit' := if edit.Some? then byEdit[edit.value.index := group] else byEdit;
    groups' := groups + [group];
    assert forall g :: g in groups ==> g != group;
  }

  /** The last branch: push onto the group already in the list. */
  method JoinGroup(changes: seq<Change>, edits: seq<AceEdit>, n: nat, groups: seq<Group>, byEdit: map<int, Group>)
    requires n < |changes| && Inv(changes, edits, n, groups, byEdit)
    requires EditFor(changes[n], edits).Some? && EditFor(changes[n], edits).value.index in byEdit
    modifies groups
    ensures Inv(changes, edits, n + 1, groups, byEdit)
  {
    var edit := EditFor(changes[n], edits);
    ghost var a := FindsFollower(byEdit, groups, Keys(changes, edits), n);
    FollowerStep(changes, edits, n, a);
    var existing := byEdit[edit.value.index];
    assert groups[a] in groups;
    existing.changes := existing.changes + [changes[n]];
  }

  /** A change that stands alone, or whose edit is new, leads. */
  lemma UnseenLeads(changes: seq<Change>, edits: seq<AceEdit>, n: nat, groups: seq<Group>, byEdit: map<int, Group>)
    requires n < |changes| && Finds(byEdit, groups, Keys(changes, edits), n)
    requires var edit := EditFor(changes[n], edits); edit.None? || edit.value.index !in byEdit
    ensures Leads(Keys(changes, edits), n)
  {
    var edit := EditFor(changes[n], edits);
    if edit.Some? {
      assert !SeenKey(Keys(changes, edits), n, edit.value.index);
    }
  }

  method GroupChanges(changes: seq<Change>, edits: seq<AceEdit>) returns (groups: seq<Group>)
    ensures forall g :: g in groups ==> fresh(g)
    ensures Shows(groups, Grouping(changes, edits, |changes|))
  {
    groups := [];
    var byEdit: map<int, Group> := map[];
    for n := 0 to |changes|
      invariant forall a :: 0 <= a < |groups| ==> fresh(groups[a])
      invariant Inv(changes, edits, n, groups, byEdit)
    {
      var edit := EditFor(changes[n], edits);
      if edit.None? || edit.value.index !in byEdit {
        UnseenLeads(changes, edits, n, groups, byEdit);
        groups, byEdit := OpenGroup(changes, edits, n, groups, byEdit);
      } else {
        JoinGroup(changes, edits, n, groups, byEdit);
      }
    }
  }

  // ------------------------------------------------------------------------ main results

  /** The position of each change in the grouping: the groups as lists of positions. */
  function Positions(keys: seq<Option<int>>): (r: seq<seq<nat>>)
    ensures |r| == |Leaders(keys, |keys|)|
    ensures forall a :: 0 <= a < |r| ==>
              Leaders(keys, |keys|)[a] < |keys| && r[a] == ClassOf(keys, |keys|, Leaders(keys, |keys|)[a])
  {
    LeadersIncrease(keys, |keys|);
    seq(|Leaders(keys, |keys|)|, a requires 0 <= a < |Leaders(keys, |keys|)| =>
        ClassOf(keys, |keys|, Leaders(keys, |keys|)[a]))
  }

  ghost predicate InSome(groups: seq<seq<nat>>, j: nat) {
    exists a :: 0 <= a < |groups| && j in groups[a]
  }

  /** One group: not empty, in input order, and exactly the positions that belong with its first. */
  ghost predicate IsGroup(keys: seq<Option<int>>, group: seq<nat>) {
    && |group| > 0 && group[0] < |keys|
    && (forall x, y :: 0 <= x < y < |group| ==> group[x] < group[y])
    && (forall j: nat :: j in group <==> j < |keys| && Together(keys, group[0], j))
  }

  /** A grouping of positions as the page promises it. */
  ghost predicate IsGrouping(keys: seq<Option<int>>, groups: seq<seq<nat>>) {
    && (forall a :: 0 <= a < |groups| ==> IsGroup(keys, groups[a]))
    // groups come in the order of their first change
    && (forall a, b :: 0 <= a < b < |groups| ==> groups[a][0] < groups[b][0])
    // and every position is in some group
    && (forall j: nat :: j < |keys| ==> InSome(groups, j))
  }

  lemma PositionsStart(keys: seq<Option<int>>, a: nat)
    requires a < |Positions(keys)|
    ensures |Positions(keys)[a]| > 0 && Positions(keys)[a][0] == Leaders(keys, |keys|)[a]
  {
    var i := Leaders(keys, |keys|)[a];
    LeadersIncrease(keys, |keys|);
    ClassIncreases(keys, |keys|, i);
    var c := ClassOf(keys, |keys|, i);
    assert i in c;
    assert c[0] in c && Together(keys, i, c[0]);
    assert c[0] < i ==> Together(keys, c[0], i);
    var k :| 0 <= k < |c| && c[k] == i;
  }

  /** The one-pass grouping is a grouping as promised. */
  lemma PositionsGroup(keys: seq<Option<int>>)
    ensures IsGrouping(keys, Positions(keys))
  {
    var groups, leaders := Positions(keys), Leaders(keys, |keys|);
    LeadersIncrease(keys, |keys|);
    forall a | 0 <= a < |groups| ensures IsGroup(keys, groups[a]) && groups[a][0] == leaders[a] {
      PositionsStart(keys, a);
      ClassIncreases(keys, |keys|, leaders[a]);
    }
    forall j: nat | j < |keys| ensures InSome(groups, j) {
      var a := LeaderOf(keys, |keys|, j);
      assert j in groups[a];
    }
  }

  ghost predicate Increasing(s: seq<nat>) {
    forall x, y :: 0 <= x < y < |s| ==> s[x] < s[y]
  }

  /** An increasing sequence is decided by its members. */
  lemma {:induction false} IncreasingUnique(s: seq<nat>, t: seq<nat>)
    requires Increasing(s) && Increasing(t) && forall x :: x in s <==> x in t
    ensures s == t
  {
    if |s| == 0 {
      NonEmptyHas(t);
    } else {
      assert s[0] in t && |t| > 0 && t[0] in s;
      assert s[0] == t[0];
      forall x ensures x in s[1..] <==> x in t[1..] {
        TailMembers(s, x);
        TailMembers(t, x);
      }
      IncreasingUnique(s[1..], t[1..]);
      assert s == [s[0]] + s[1..] && t == [t[0]] + t[1..];
    }
  }

  lemma NonEmptyHas(t: seq<nat>)
    ensures |t| > 0 ==> exists x :: x in t
  {
    if |t| > 0 {
      assert t[0] in t;
    }
  }

  lemma TailMembers(s: seq<nat>, x: nat)
    requires Increasing(s) && |s| > 0
    ensures x in s[1..] <==> x in s && x != s[0]
  {
    assert s == [s[0]] + s[1..];
    assert forall i :: 0 <= i < |s[1..]| ==> s[1..][i] == s[i + 1];
  }

  function HeadsOf(groups: seq<seq<nat>>): seq<nat>
    requires forall a :: 0 <= a < |groups| ==> |groups[a]| > 0
  {
    seq(|groups|, a requires 0 <= a < |groups| => groups[a][0])
  }

  /** The first position of a group leads it. */
  lemma HeadLeads(keys: seq<Option<int>>, group: seq<nat>)
    requires IsGroup(keys, group)
    ensures Leads(keys, group[0])
  {
    forall j: nat | j < group[0] ensures !Together(keys, j, group[0]) {
      assert j in group <==> Together(keys, group[0], j);
    }
  }

  /** A leader is the first position of any group it is in. */
  lemma LeaderIsHead(keys: seq<Option<int>>, group: seq<nat>, i: nat)
    requires IsGroup(keys, group) && i in group && i < |keys| && Leads(keys, i)
    ensures group[0] == i
  {
    assert group[0] in group;
    assert Together(keys, group[0], i);
    HeadLeads(keys, group);
  }

  /** In any grouping as promised, the first positions of the groups are the leaders. */
  lemma HeadsAreLeaders(keys: seq<Option<int>>, groups: seq<seq<nat>>)
    requires IsGrouping(keys, groups)
    ensures HeadsOf(groups) == Leaders(keys, |keys|)
  {
    var heads, leaders := HeadsOf(groups), Leaders(keys, |keys|);
    LeadersIncrease(keys, |keys|);
    forall i ensures i in heads <==> i in leaders {
      if i in heads {
        var a :| 0 <= a < |groups| && groups[a][0] == i;
        HeadLeads(keys, groups[a]);
      }
      if i in leaders {
        assert InSome(groups, i);
        var a :| 0 <= a < |groups| && i in groups[a];
        LeaderIsHead(keys, groups[a], i);
        assert heads[a] == groups[a][0];
      }
    }
    IncreasingUnique(heads, leaders);
  }

  /** There is no other grouping so promised: the page has one right answer. */
  lemma GroupingIsUnique(keys: seq<Option<int>>, groups: seq<seq<nat>>)
    requires IsGrouping(keys, groups)
    ensures groups == Positions(keys)
  {
    var ours := Positions(keys);
    PositionsGroup(keys);
    HeadsAreLeaders(keys, groups);
    HeadsAreLeaders(keys, ours);
    assert |groups| == |HeadsOf(groups)| == |HeadsOf(ours)|;
    forall a | 0 <= a < |groups| ensures groups[a] == ours[a] {
      assert HeadsOf(groups)[a] == HeadsOf(ours)[a];
      assert IsGroup(keys, groups[a]) && IsGroup(keys, ours[a]);
      IncreasingUnique(groups[a], ours[a]);
    }
  }

  /** The groups the method returns are the changes at these positions, with the edit they share. */
  lemma GroupingFollowsPositions(changes: seq<Change>, edits: seq<AceEdit>, a: nat)
    requires a < |Grouping(changes, edits, |changes|)|
    ensures var keys := Keys(changes, edits);
            var value := Grouping(changes, edits, |changes|)[a];
            && a < |Positions(keys)|
            && (forall x :: x in Positions(keys)[a] ==> x < |changes|)
            && value.changes == At(changes, Positions(keys)[a])
            && (forall c :: c in value.changes ==> EditFor(c, edits) == value.edit)
  {
    var keys := Keys(changes, edits);
    var i := Leaders(keys, |keys|)[a];
    ClassIncreases(keys, |keys|, i);
    var p := Positions(keys)[a];
    var value := Grouping(changes, edits, |changes|)[a];
    forall c | c in value.changes ensures EditFor(c, edits) == value.edit {
      var k :| 0 <= k < |p| && value.changes[k] == c;
      assert p[k] in p && c == changes[p[k]];
      assert Together(keys, i, p[k]);
      if i != p[k] {
        EditForIndex(changes[i], edits);
        EditForIndex(c, edits);
        SameIndexSameEdit(changes[i], c, edits);
      }
    }
  }

  lemma {:induction false} SameIndexSameEdit(c: Change, d: Change, edits: seq<AceEdit>)
    requires c.edit == d.edit
    ensures EditFor(c, edits) == EditFor(d, edits)
  {
    if c.edit.None? || |edits| == 0 {
    } else {
      SameIndexSameEdit(c, d, edits[1..]);
    }
  }

  // ----------------------------------------------------------------- nothing lost or twice

  /** Groups share no position. */
  ghost predicate Apart(groups: seq<seq<nat>>) {
    forall a, b, j :: 0 <= a < |groups| && 0 <= b < |groups| && j in groups[a] && j in groups[b] ==> a == b
  }

  lemma PositionsApart(keys: seq<Option<int>>)
    ensures Apart(Positions(keys))
  {
    LeadersIncrease(keys, |keys|);
    var groups, leaders := Positions(keys), Leaders(keys, |keys|);
    forall a, b, j | 0 <= a < |groups| && 0 <= b < |groups| && j in groups[a] && j in groups[b] ensures a == b {
      ClassIncreases(keys, |keys|, leaders[a]);
      ClassIncreases(keys, |keys|, leaders[b]);
      OneLeader(keys, |keys|, a, b, j);
    }
  }

  /** The changes of the groups, one group after another. */
  function Flattened(groups: seq<GroupValue>): seq<Change> {
    if |groups| == 0 then [] else Flattened(groups[..|groups| - 1]) + groups[|groups| - 1].changes
  }

  lemma FlattenedSnoc(groups: seq<GroupValue>, g: GroupValue)
    ensures Flattened(groups + [g]) == Flattened(groups) + g.changes
  {
    assert (groups + [g])[..|groups|] == groups;
  }

  /** Pushing a change onto one group adds that change and nothing else. */
  lemma {:induction false} FlattenedPush(before: seq<GroupValue>, after: seq<GroupValue>, a: nat, c: Change)
    requires |before| == |after| && a < |before|
    requires forall b :: 0 <= b < |before| ==>
               after[b] == if b == a then before[b].(changes := before[b].changes + [c]) else before[b]
    ensures multiset(Flattened(after)) == multiset(Flattened(before)) + multiset{c}
  {
    var n := |before| - 1;
    if a == n {
      assert before[..n] == after[..n];
      PushedAtEnd(Flattened(before[..n]), before[n].changes, c);
    } else {
      FlattenedPush(before[..n], after[..n], a, c);
      PushedInFront(Flattened(before[..n]), Flattened(after[..n]), before[n].changes, c);
    }
  }

  lemma PushedAtEnd(s: seq<Change>, t: seq<Change>, c: Change)
    ensures multiset(s + (t + [c])) == multiset(s + t) + multiset{c}
  {
    ConcatAssociative(s, t, [c]);
  }

  lemma PushedInFront(s: seq<Change>, t: seq<Change>, rest: seq<Change>, c: Change)
    requires multiset(t) == multiset(s) + multiset{c}
    ensures multiset(t + rest) == multiset(s + rest) + multiset{c}
  {
  }

  /** The groups after one more change hold that change besides what they held. */
  lemma GroupingGrows(changes: seq<Change>, edits: seq<AceEdit>, n: nat)
    requires n < |changes|
    ensures multiset(Flattened(Grouping(changes, edits, n + 1)))
            == multiset(Flattened(Grouping(changes, edits, n))) + multiset{changes[n]}
  {
    var keys := Keys(changes, edits);
    if Leads(keys, n) {
      LeaderStep(changes, edits, n);
      FlattenedSnoc(Grouping(changes, edits, n), GroupValue(EditFor(changes[n], edits), [changes[n]]));
    } else {
      var a := FollowedLeader(keys, n);
      FollowerStep(changes, edits, n, a);
      FlattenedPush(Grouping(changes, edits, n), Grouping(changes, edits, n + 1), a, changes[n]);
    }
  }

  /** The changes held by the groups after `n` changes have been read. */
  ghost function Held(changes: seq<Change>, edits: seq<AceEdit>, n: nat): multiset<Change>
    requires n <= |changes|
  {
    multiset(Flattened(Grouping(changes, edits, n)))
  }

  lemma HeldSteps(changes: seq<Change>, edits: seq<AceEdit>)
    ensures Held(changes, edits, 0) == multiset{}
    ensures forall n :: 0 <= n < |changes| ==>
              Held(changes, edits, n + 1) == Held(changes, edits, n) + multiset{changes[n]}
  {
    assert Grouping(changes, edits, 0) == [];
    forall n | 0 <= n < |changes|
      ensures Held(changes, edits, n + 1) == Held(changes, edits, n) + multiset{changes[n]}
    {
      GroupingGrows(changes, edits, n);
    }
  }

  /** A tally that starts empty and gains one element of `s` at each step ends with all of them. */
  lemma {:induction false} TallyEnds(s: seq<Change>, tally: seq<multiset<Change>>, n: nat)
    requires |tally| == |s| + 1 && tally[0] == multiset{}
    requires forall k :: 0 <= k < |s| ==> tally[k + 1] == tally[k] + multiset{s[k]}
    requires n <= |s|
    ensures tally[n] == multiset(s[..n])
  {
    if n == 0 {
      assert s[..0] == [];
    } else {
      TallyEnds(s, tally, n - 1);
      assert tally[(n - 1) + 1] == tally[n - 1] + multiset{s[n - 1]};
      assert s[..n] == s[..n - 1] + [s[n - 1]];
    }
  }

  lemma FollowedLeader(keys: seq<Option<int>>, n: nat) returns (a: nat)
    requires n < |keys| && !Leads(keys, n)
    ensures a < |Leaders(keys, n)| && Leaders(keys, n)[a] < n && Together(keys, Leaders(keys, n)[a], n)
  {
    var j :| 0 <= j < n && Together(keys, j, n);
    a := LeaderOf(keys, n, j);
  }

  /** Grouping loses no change and shows none twice: flattened, it is a permutation of the page. */
  lemma GroupingPermutes(changes: seq<Change>, edits: seq<AceEdit>)
    ensures multiset(Flattened(Grouping(changes, edits, |changes|))) == multiset(changes)
  {
    var tally := seq(|changes| + 1, n requires 0 <= n <= |changes| => Held(changes, edits, n));
    HeldSteps(changes, edits);
    TallyEnds(changes, tally, |changes|);
    assert changes[..|changes|] == changes;
  }

  // ------------------------------------------------------------- in terms of changes and edits

  /** The edit at `k` is the first on the page with this index. */
  ghost predicate IsFirstEdit(edits: seq<AceEdit>, k: int, index: int) {
    0 <= k < |edits| && edits[k].index == index && forall m :: 0 <= m < k ==> edits[m].index != index
  }

  /** Some edit on the page has this index. */
  ghost predicate HasEdit(edits: seq<AceEdit>, index: int) {
    exists e :: e in edits && e.index == index
  }

  lemma FirstEditBehind(edits: seq<AceEdit>, k: int, index: int)
    requires |edits| > 0 && edits[0].index != index && IsFirstEdit(edits[1..], k, index)
    ensures IsFirstEdit(edits, k + 1, index) && edits[k + 1] == edits[1..][k]
  {
    forall m | 0 <= m < k + 1 ensures edits[m].index != index {
      assert m > 0 ==> edits[m] == edits[1..][m - 1];
    }
  }

  /** A change resolves to the first edit with the index it carries, and to none exactly when there is none. */
  lemma {:induction false} EditForIff(change: Change, edits: seq<AceEdit>)
    ensures EditFor(change, edits) == None <==> change.edit.None? || !HasEdit(edits, change.edit.value)
    ensures forall e :: EditFor(change, edits) == Some(e) ==>
              change.edit == Some(e.index) && exists k :: IsFirstEdit(edits, k, e.index) && edits[k] == e
  {
    if change.edit.None? || |edits| == 0 {
    } else if edits[0].index == change.edit.value {
      assert edits[0] in edits;
      assert IsFirstEdit(edits, 0, change.edit.value);
    } else {
      EditForIff(change, edits[1..]);
      assert edits == [edits[0]] + edits[1..];
      var rest := EditFor(change, edits[1..]);
      if rest.Some? {
        var k :| IsFirstEdit(edits[1..], k, rest.value.index) && edits[1..][k] == rest.value;
        FirstEditBehind(edits, k, rest.value.index);
      }
    }
  }

  /** Two positions hold the same change, or changes that carry one index that some edit has. */
  ghost predicate OneEdit(changes: seq<Change>, edits: seq<AceEdit>, i: nat, j: nat)
    requires i < |changes| && j < |changes|
  {
    || i == j
    || (changes[i].edit.Some? && changes[i].edit == changes[j].edit && HasEdit(edits, changes[i].edit.value))
  }

  lemma TogetherIff(changes: seq<Change>, edits: seq<AceEdit>, i: nat, j: nat)
    requires i < |changes| && j < |changes|
    ensures Together(Keys(changes, edits), i, j) <==> OneEdit(changes, edits, i, j)
  {
    EditForIff(changes[i], edits);
    EditForIff(changes[j], edits);
  }

  /** Some group holds both positions. */
  ghost predicate SameGroup(groups: seq<seq<nat>>, i: nat, j: nat) {
    exists a :: 0 <= a < |groups| && i in groups[a] && j in groups[a]
  }

  /** Two positions of the page are in one group exactly when they are one change, or halves of one edit. */
  lemma SameGroupIff(changes: seq<Change>, edits: seq<AceEdit>, i: nat, j: nat)
    requires i < |changes| && j < |changes|
    ensures SameGroup(Positions(Keys(changes, edits)), i, j) <==> OneEdit(changes, edits, i, j)
  {
    var keys := Keys(changes, edits);
    var groups := Positions(keys);
    TogetherIff(changes, edits, i, j);
    PositionsGroup(keys);
    assert InSome(groups, i);
    var a :| 0 <= a < |groups| && i in groups[a];
    assert IsGroup(keys, groups[a]);
    if Together(keys, i, j) {
      assert Together(keys, groups[a][0], j);
    }
    if SameGroup(groups, i, j) {
      var b :| 0 <= b < |groups| && i in groups[b] && j in groups[b];
      assert IsGroup(keys, groups[b]);
    }
  }

  /** A group of more than one has an edit. */
  lemma PairHasKey(keys: seq<Option<int>>, group: seq<nat>)
    requires IsGroup(keys, group)
    ensures |group| > 1 ==> keys[group[0]].Some?
  {
    if |group| > 1 {
      assert group[1] in group;
      assert Together(keys, group[0], group[1]) && group[0] < group[1];
    }
  }

  /**
   * A group shows the first edit with the index its changes carry; it shows none exactly when it is
   * one change that carries no index, or one that no edit has.
   */
  lemma ShownEditIff(changes: seq<Change>, edits: seq<AceEdit>, a: nat)
    requires a < |Grouping(changes, edits, |changes|)|
    ensures var value := Grouping(changes, edits, |changes|)[a];
            && |value.changes| > 0
            && (value.edit.Some? ==>
                  && (exists k :: IsFirstEdit(edits, k, value.edit.value.index) && edits[k] == value.edit.value)
                  && forall c :: c in value.changes ==> c.edit == Some(value.edit.value.index))
            && (value.edit.None? ==>
                  |value.changes| == 1
                  && (value.changes[0].edit.None? || !HasEdit(edits, value.changes[0].edit.value)))
  {
    var keys := Keys(changes, edits);
    var value := Grouping(changes, edits, |changes|)[a];
    GroupingFollowsPositions(changes, edits, a);
    PositionsGroup(keys);
    var group := Positions(keys)[a];
    assert IsGroup(keys, group);
    forall c ensures c in value.changes ==> EditFor(c, edits) == value.edit {
    }
    EditForIff(value.changes[0], edits);
    forall c | c in value.changes ensures value.edit.Some? ==> c.edit == Some(value.edit.value.index) {
      EditForIff(c, edits);
    }
    PairHasKey(keys, group);
    assert changes[group[0]] == value.changes[0];
  }
}
