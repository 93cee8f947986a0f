/** What the drawing shows, in terms of the graph and of the page: boxes, lines, columns and captions. */
module Drawing {
  import opened Options
  import opened Seqs
  import opened Sorting
  import opened Text
  import opened ExplanationGraph
  import opened Relaxation
  import opened Layout
  import opened LayoutFacts

  // ------------------------------------------------------------------------ boxes and lines

  /** The fixed sizes: boxes of 188 by 38, columns 264 apart, rows 56 apart, and a margin of 16. */
  lemma BoxesOnGrid(g: Graph, p: LaidOutNode)
    requires p in LayoutOf(g).nodes
    ensures p.node in g.nodes && p.column == ColumnOf(g, p.node)
    ensures p.x == 16 + 264 * p.column && p.y == 16 + 56 * p.row
    ensures NODE_WIDTH == 188 && NODE_HEIGHT == 38 && PADDING == 16
  {
    PlacedNodesSorted(g);
    assert StandsIn(g, Columns(g), p);
    RowsMembers(g, p.column, p.node);
  }

  /**
   * A line leaves the middle of the right side of the box of its source and enters the middle of the
   * left side of the box of its target.
   */
  lemma LineJoinsBoxes(g: Graph, le: LaidOutEdge) returns (p: LaidOutNode, q: LaidOutNode)
    requires le in LayoutOf(g).edges
    ensures p in LayoutOf(g).nodes && q in LayoutOf(g).nodes
    ensures p.node.id == le.edge.source && q.node.id == le.edge.target && le.edge in g.edges
    ensures le.x1 == p.x + NODE_WIDTH && 2 * (le.y1 - p.y) == NODE_HEIGHT
    ensures le.x2 == q.x && 2 * (le.y2 - q.y) == NODE_HEIGHT
  {
    RoutedMembers(PlacedAt(g), g.edges);
    SurvivorsAt(g);
    p, q := PlacedAt(g)[le.edge.source], PlacedAt(g)[le.edge.target];
  }

  // ------------------------------------------------------------------------------ the rows

  /** The box at row `r` of an occupied column. */
  lemma BoxAtRow(g: Graph, c: nat, r: nat) returns (q: LaidOutNode)
    requires UniqueNodeIds(g.nodes) && r < |Rows(g, c)|
    ensures q in LayoutOf(g).nodes && q.column == c && q.row == r && q.node == Rows(g, c)[r]
  {
    var n := Rows(g, c)[r];
    assert n in Rows(g, c);
    RowsMembers(g, c, n);
    PlacedById(g, n);
    q := PlacedAt(g)[n.id];
    PlacedNodesSorted(g);
    assert StandsIn(g, Columns(g), q);
    RowsDistinct(g, c);
  }

  /** A column has no gap: above a box stands a box, up to the first row. */
  lemma RowsContiguous(g: Graph, p: LaidOutNode) returns (q: LaidOutNode)
    requires UniqueNodeIds(g.nodes) && p in LayoutOf(g).nodes && p.row > 0
    ensures q in LayoutOf(g).nodes && q.column == p.column && q.row == p.row - 1
  {
    PlacedNodesSorted(g);
    assert StandsIn(g, Columns(g), p);
    q := BoxAtRow(g, p.column, p.row - 1);
  }

  // ------------------------------------------------------------------------------ the size

  lemma {:induction false} WidestAttained(cols: seq<nat>)
    requires |cols| > 0
    ensures Widest(cols) in cols
  {
    var n := |cols| - 1;
    assert cols == cols[..n] + [cols[n]];
    if n == 0 {
    } else {
      WidestAttained(cols[..n]);
    }
  }

  lemma {:induction false} TallestAttained(g: Graph, cols: seq<nat>) returns (c: nat)
    requires |cols| > 0
    ensures c in cols && |Rows(g, c)| == Tallest(g, cols)
  {
    var n := |cols| - 1;
    assert cols == cols[..n] + [cols[n]];
    if n == 0 {
      c := cols[0];
    } else {
      c := TallestAttained(g, cols[..n]);
      if |Rows(g, c)| < |Rows(g, cols[n])| {
        c := cols[n];
      }
    }
  }

  lemma ColumnHasRows(g: Graph, c: nat)
    requires c in Columns(g)
    ensures |Rows(g, c)| > 0
  {
    ColumnsOccupied(g);
    var n :| n in g.nodes && ColumnOf(g, n) == c;
    RowsMembers(g, c, n);
  }

  /** The picture is no larger than its boxes and the margin need: some box touches each far margin. */
  lemma SizeIsTight(g: Graph) returns (p: LaidOutNode, q: LaidOutNode)
    requires UniqueNodeIds(g.nodes) && |g.nodes| > 0
    ensures p in LayoutOf(g).nodes && p.x + NODE_WIDTH + PADDING == LayoutOf(g).width
    ensures q in LayoutOf(g).nodes && q.y + NODE_HEIGHT + PADDING == LayoutOf(g).height
  {
    ColumnsOccupied(g);
    assert g.nodes[0] in g.nodes && ColumnOf(g, g.nodes[0]) in Columns(g);
    WidestAttained(Columns(g));
    ColumnHasRows(g, Widest(Columns(g)));
    p := BoxAtRow(g, Widest(Columns(g)), 0);
    BoxesOnGrid(g, p);
    var c := TallestAttained(g, Columns(g));
    ColumnHasRows(g, c);
    q := BoxAtRow(g, c, |Rows(g, c)| - 1);
    BoxesOnGrid(g, q);
  }

  /** With nothing to draw, room for one box. */
  lemma EmptySize(g: Graph)
    requires g.nodes == []
    ensures LayoutOf(g).width == NODE_WIDTH + 2 * PADDING && LayoutOf(g).height == NODE_HEIGHT + 2 * PADDING
    ensures LayoutOf(g).nodes == [] && LayoutOf(g).edges == [] && LayoutOf(g).columns == []
  {
    assert Map(ColumnFun(g), g.nodes) == [];
    assert Columns(g) == [];
    assert NodeIds(g.nodes) == {};
    EdgesKept(g);
    FilterNone(BothEnds({}), g.edges);
  }

  // --------------------------------------------------------------------------- the columns

  /** The subject is in the first column, and a group or assumed trustee in the column of its depth. */
  lemma SubjectAndTrusteeColumns(g: Graph, n: Node)
    requires UniqueIds(g) && n in g.nodes
    ensures n.kind.Principal? ==> ColumnOf(g, n) == 0
    ensures n.kind.Group? || n.kind.AssumedTrustee? ==>
              n.id in FinalDepths(g) && ColumnOf(g, n) == FinalDepths(g)[n.id] >= 1
  {
    MembershipDepths(g, n);
  }

  /** Entries are in the first column behind every trustee, and objects in the one behind that. */
  lemma EntryAndObjectColumns(g: Graph, n: Node, t: Node)
    requires UniqueIds(g) && n in g.nodes && t in g.nodes && (t.kind.Group? || t.kind.AssumedTrustee?)
    ensures n.kind.NtfsAce? || n.kind.SmbAce? ==> ColumnOf(g, t) < ColumnOf(g, n)
    ensures n.kind.Resource? || n.kind.Share? ==> ColumnOf(g, t) + 1 < ColumnOf(g, n)
  {
    MembershipDepths(g, t);
  }

  /** And no further: the columns just before them are those of the deepest trustee, or of nothing. */
  lemma EntryColumnIsFirstFree(g: Graph, n: Node)
    requires UniqueIds(g) && n in g.nodes && !n.kind.Principal? && !IsTrusteeNode(n)
    ensures var before := ColumnOf(g, n) - if n.kind.NtfsAce? || n.kind.SmbAce? then 1 else 2;
            before == 0 || exists t :: t in g.nodes && IsTrusteeNode(t) && ColumnOf(g, t) == before
  {
    DeepestAt(g.nodes, FinalDepths(g));
    if DeepestTrustee(g) != 0 {
      var t :| t in g.nodes && IsTrusteeNode(t) && DepthOrOne(FinalDepths(g), t.id) == DeepestTrustee(g);
      MembershipDepths(g, t);
    }
  }

  /** Some caption stands over column `c`. */
  ghost predicate HasCaption(g: Graph, c: nat) {
    exists k :: 0 <= k < |LayoutOf(g).columns| && LayoutOf(g).columns[k].index == c
  }

  lemma CaptionAt(g: Graph, k: nat)
    requires k < |LayoutOf(g).columns|
    ensures k < |Columns(g)| && LayoutOf(g).columns[k] == LabelOf(Columns(g)[k], DeepestTrustee(g))
  {
  }

  /** The captions stand over exactly the occupied columns, left to right. */
  lemma CaptionsOverColumns(g: Graph)
    ensures forall i, j :: 0 <= i < j < |LayoutOf(g).columns|
                           ==> LayoutOf(g).columns[i].index < LayoutOf(g).columns[j].index
    ensures forall c :: HasCaption(g, c) <==> exists n :: n in g.nodes && ColumnOf(g, n) == c
  {
    ColumnsOccupied(g);
    forall i, j | 0 <= i < j < |LayoutOf(g).columns|
      ensures LayoutOf(g).columns[i].index < LayoutOf(g).columns[j].index
    {
      CaptionAt(g, i);
      CaptionAt(g, j);
    }
    forall c ensures HasCaption(g, c) <==> c in Columns(g) {
      CaptionIff(g, c);
    }
  }

  lemma CaptionIff(g: Graph, c: nat)
    ensures HasCaption(g, c) <==> c in Columns(g)
  {
    if HasCaption(g, c) {
      var k :| 0 <= k < |LayoutOf(g).columns| && LayoutOf(g).columns[k].index == c;
      CaptionAt(g, k);
    }
    if c in Columns(g) {
      var k :| 0 <= k < |Columns(g)| && Columns(g)[k] == c;
      assert k < |LayoutOf(g).columns|;
      CaptionAt(g, k);
    }
  }

  /** A caption says what the column holds, and of groups how many hops away they are. */
  lemma CaptionFits(g: Graph, n: Node, k: nat)
    requires UniqueIds(g) && n in g.nodes
    requires k < |LayoutOf(g).columns| && LayoutOf(g).columns[k].index == ColumnOf(g, n)
    ensures var head := LayoutOf(g).columns[k];
            && (n.kind.Principal? ==> head.caption == "Identity")
            && (n.kind.NtfsAce? || n.kind.SmbAce? ==> head.caption == "Entries")
            && (n.kind.Resource? || n.kind.Share? ==> head.caption == "Object")
            && (IsTrusteeNode(n) && head.index == 1 ==> head.caption == "Groups (1 hop)")
            && (IsTrusteeNode(n) && head.index > 1 ==> head.caption == "Groups (" + Decimal(head.index) + " hops)")
  {
    MembershipDepths(g, n);
    CaptionAt(g, k);
    CaptionReads(ColumnOf(g, n), DeepestTrustee(g));
  }

  lemma CaptionReads(index: nat, deepest: nat)
    ensures LabelOf(0, deepest).caption == "Identity"
    ensures LabelOf(deepest + 1, deepest).caption == "Entries" && LabelOf(deepest + 2, deepest).caption == "Object"
    ensures 1 == index <= deepest ==> LabelOf(index, deepest).caption == "Groups (1 hop)"
    ensures 1 < index <= deepest ==> LabelOf(index, deepest).caption == "Groups (" + Decimal(index) + " hops)"
  {
    assert Decimal(1) == "1";
    assert "Groups (" + "1" + " hop" + "" + ")" == "Groups (1 hop)";
    assert "Groups (" + Decimal(index) + " hop" + "s" + ")" == "Groups (" + Decimal(index) + " hops)";
  }

  // ---------------------------------------------------------------------------- the labels

  /** An entry is labelled by its layer and its place in the ACL; anything else prefers a given name. */
  lemma LabelRules(n: Node)
    ensures n.kind.NtfsAce? && n.position.Some? ==> NodeLabel(n) == "NTFS entry #" + Decimal(n.position.value)
    ensures n.kind.SmbAce? && n.position.Some? ==> NodeLabel(n) == "Share entry #" + Decimal(n.position.value)
    ensures !n.kind.NtfsAce? && !n.kind.SmbAce? && n.displayName.Some? ==> NodeLabel(n) == n.displayName.value
    ensures (n.kind.Resource? || n.kind.Share?) && n.displayName.None? ==> NodeLabel(n) == n.key
    ensures (n.kind.Principal? || n.kind.Group?) && n.displayName.None? ==>
              NodeLabel(n) == if n.sid.Some? then n.sid.value else n.key
  {
  }

  /** An assumed trustee without a name goes by what Windows calls its SID. */
  lemma AssumedLabelRules(n: Node)
    requires n.kind.AssumedTrustee? && n.displayName.None?
    ensures n.sid == Some("S-1-1-0") ==> NodeLabel(n) == "Everyone"
    ensures n.sid == Some("S-1-5-11") ==> NodeLabel(n) == "Authenticated Users"
    ensures n.sid == Some("S-1-5-2") ==> NodeLabel(n) == "Network"
    ensures n.sid !in {Some("S-1-1-0"), Some("S-1-5-11"), Some("S-1-5-2")} ==> NodeLabel(n) == n.key
  {
    assert "S-1-1-0"[4] == '1' && "S-1-5-11"[4] == '5' && "S-1-5-2"[4] == '5';
    assert |"S-1-5-11"| == 8 && |"S-1-5-2"| == 7;
  }

  // ------------------------------------------------------------------- how long a cycle runs

  /** The cap is one pass per node: a group that is a member of itself ends at one more than their number. */
  lemma SelfLoopDepth(g: Graph, n: Node, e: Edge)
    requires UniqueIds(g) && n in g.nodes && n.kind.Group?
    requires g.edges == [e] && e.kind.Membership? && e.source == n.id && e.target == n.id
    ensures n.id in FinalDepths(g) && FinalDepths(g)[n.id] == 1 + |g.nodes|
  {
    InitialDepthsAt(g.nodes, n);
    assert Filter(IsMembership, [e]) == [e] by {
      FilterAll(IsMembership, [e]);
    }
    SortOfSorted(EdgeLess, [e]);
    LoopPasses(InitialDepths(g.nodes), e, |g.nodes|);
  }

  lemma {:induction false} LoopPasses(d: Depths, e: Edge, n: nat)
    requires e.source in d && e.target == e.source
    ensures e.source in Passes(d, [e], n) && Passes(d, [e], n)[e.source] == d[e.source] + n
  {
    if n == 0 {
    } else {
      LoopPasses(d, e, n - 1);
      var before := Passes(d, [e], n - 1);
      assert [e][..0] == [];
      assert Pass(before, [e]) == Relax(Pass(before, [e][..0]), e);
    }
  }

  /** Edges are relaxed in the order of their ids, each membership edge once a pass. */
  lemma RelaxedInIdOrder(g: Graph)
    requires UniqueIds(g)
    ensures multiset(OrderedMembership(g)) == multiset(Filter(IsMembership, g.edges))
    ensures forall i, j :: 0 <= i < j < |OrderedMembership(g)| ==>
              StringLess(OrderedMembership(g)[i].id, OrderedMembership(g)[j].id)
  {
    var s := Filter(IsMembership, g.edges);
    UniqueEdgeIdsFilter(IsMembership, g.edges);
    EdgeLessTotal(s);
    SortPermutes(EdgeLess, s);
    SortMembers(EdgeLess, s);
    SortSorts(EdgeLess, s, Members(s));
    forall i, j | 0 <= i < j < |s| ensures s[i] != s[j] {
      assert s[i].id != s[j].id;
    }
    SortDistinct(EdgeLess, s);
    var ordered := OrderedMembership(g);
    forall i, j | 0 <= i < j < |ordered| ensures StringLess(ordered[i].id, ordered[j].id) {
      assert ordered[i] in s && ordered[j] in s && ordered[i] != ordered[j];
      assert ordered[i] in Members(s) && ordered[j] in Members(s);
      assert !EdgeLess(ordered[j], ordered[i]);
    }
  }
}
