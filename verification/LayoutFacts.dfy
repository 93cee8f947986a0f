/** What the diagram promises, proved of every graph. */
module LayoutFacts {
  import opened Seqs
  import opened Sorting
  import opened Text
  import opened ExplanationGraph
  import opened Relaxation
  import opened Layout

  // --------------------------------------------------------------------------- geometry

  /** Two rectangles of the fixed size that share no point. */
  predicate Apart(p: LaidOutNode, q: LaidOutNode) {
    || p.x + NODE_WIDTH < q.x || q.x + NODE_WIDTH < p.x
    || p.y + NODE_HEIGHT < q.y || q.y + NODE_HEIGHT < p.y
  }

  lemma RectanglesApart(g: Graph, i: nat, j: nat)
    requires i < j < |LayoutOf(g).nodes|
    ensures Apart(LayoutOf(g).nodes[i], LayoutOf(g).nodes[j])
  {
    PlacedNodesSorted(g);
    var p, q := PlacedNodes(g)[i], PlacedNodes(g)[j];
    assert StandsIn(g, Columns(g), p) && StandsIn(g, Columns(g), q);
    assert PositionLess(p, q);
  }

  lemma {:induction false} WidestBounds(cols: seq<nat>, c: nat)
    requires c in cols
    ensures c <= Widest(cols)
  {
    assert cols == cols[..|cols| - 1] + [cols[|cols| - 1]];
    if c in cols[..|cols| - 1] {
      WidestBounds(cols[..|cols| - 1], c);
    }
  }

  lemma {:induction false} TallestBounds(g: Graph, cols: seq<nat>, c: nat)
    requires c in cols
    ensures |Rows(g, c)| <= Tallest(g, cols)
  {
    assert cols == cols[..|cols| - 1] + [cols[|cols| - 1]];
    if c in cols[..|cols| - 1] {
      TallestBounds(g, cols[..|cols| - 1], c);
    }
  }

  /** Every rectangle lies inside the reported picture, less the padding on every side. */
  lemma RectanglesInside(g: Graph, i: nat)
    requires i < |LayoutOf(g).nodes|
    ensures var p := LayoutOf(g).nodes[i];
            && PADDING <= p.x && p.x + NODE_WIDTH <= LayoutOf(g).width - PADDING
            && PADDING <= p.y && p.y + NODE_HEIGHT <= LayoutOf(g).height - PADDING
  {
    PlacedNodesSorted(g);
    var p := PlacedNodes(g)[i];
    assert StandsIn(g, Columns(g), p);
    WidestBounds(Columns(g), p.column);
    TallestBounds(g, Columns(g), p.column);
  }

  /** Within a column, rows follow label and then id. */
  lemma RowsOrdered(g: Graph, p: LaidOutNode, q: LaidOutNode)
    requires UniqueNodeIds(g.nodes)
    requires p in LayoutOf(g).nodes && q in LayoutOf(g).nodes
    requires p.column == q.column && p.row < q.row
    ensures || StringLess(NodeLabel(p.node), NodeLabel(q.node))
            || (NodeLabel(p.node) == NodeLabel(q.node) && StringLess(p.node.id, q.node.id))
  {
    PlacedNodesSorted(g);
    assert StandsIn(g, Columns(g), p) && StandsIn(g, Columns(g), q);
    var c := p.column;
    NodeLessTotal(g.nodes);
    SortSorts(NodeLess, Filter(InColumn(g, c), g.nodes), Members(g.nodes));
    RowsMembers(g, c, p.node);
    RowsMembers(g, c, q.node);
    assert !NodeLess(Rows(g, c)[q.row], Rows(g, c)[p.row]);
    RowsDistinct(g, c);
    assert p.node in Members(g.nodes) && q.node in Members(g.nodes);
  }

  lemma RowsDistinct(g: Graph, c: nat)
    requires UniqueNodeIds(g.nodes)
    ensures Distinct(Rows(g, c))
  {
    var s := Filter(InColumn(g, c), g.nodes);
    forall x | x in s ensures multiset(s)[x] == 1 {
      FilterMultiset(InColumn(g, c), g.nodes, x);
      DistinctMultiset(g.nodes, x);
    }
    DistinctFromMultiset(s);
    SortDistinct(NodeLess, s);
  }

  // ------------------------------------------------------------------------------ edges

  function EdgeOf(e: LaidOutEdge): Edge {
    e.edge
  }

  function BothEnds(ids: set<string>): Edge -> bool {
    (e: Edge) => e.source in ids && e.target in ids
  }

  /** One edge adds itself to the picture exactly when both its ends are placed. */
  lemma RoutedOne(at: map<string, LaidOutNode>, before: seq<LaidOutEdge>, e: Edge)
    ensures Map(EdgeOf, before + if e.source in at && e.target in at then [Route(at, e)] else [])
            == Map(EdgeOf, before) + if BothEnds(at.Keys)(e) then [e] else []
  {
  }

  lemma {:induction false} RoutedKeeps(at: map<string, LaidOutNode>, edges: seq<Edge>)
    ensures Map(EdgeOf, Routed(at, edges)) == Filter(BothEnds(at.Keys), edges)
  {
    if |edges| == 0 {
    } else {
      var n := |edges| - 1;
      RoutedKeeps(at, edges[..n]);
      RoutedOne(at, Routed(at, edges[..n]), edges[n]);
      FilterSnoc(BothEnds(at.Keys), edges, n);
      assert edges[..n + 1] == edges;
    }
  }

  /** The drawn edges are exactly the edges with both ends in the graph, in the order given. */
  lemma EdgesKept(g: Graph)
    ensures Map(EdgeOf, LayoutOf(g).edges) == Filter(BothEnds(NodeIds(g.nodes)), g.edges)
  {
    PlacedIds(g);
    RoutedKeeps(PlacedAt(g), g.edges);
  }

  // --------------------------------------------------------------------- order of input

  lemma {:induction false} DeepestAt(nodes: seq<Node>, d: Depths)
    ensures forall n :: n in nodes && IsTrusteeNode(n) ==> DepthOrOne(d, n.id) <= DeepestIn(nodes, d)
    ensures DeepestIn(nodes, d) == 0
            || exists n :: n in nodes && IsTrusteeNode(n) && DepthOrOne(d, n.id) == DeepestIn(nodes, d)
  {
    if |nodes| == 0 {
    } else {
      var rest, last := nodes[..|nodes| - 1], nodes[|nodes| - 1];
      assert nodes == rest + [last];
      DeepestAt(rest, d);
      if DeepestIn(nodes, d) != 0 && DeepestIn(nodes, d) == DeepestIn(rest, d) {
        var n :| n in rest && IsTrusteeNode(n) && DepthOrOne(d, n.id) == DeepestIn(rest, d);
        assert n in nodes;
      } else if DeepestIn(nodes, d) != 0 {
        assert last in nodes && IsTrusteeNode(last) && DepthOrOne(d, last.id) == DeepestIn(nodes, d);
      }
    }
  }

  lemma DeepestPermute(s: seq<Node>, t: seq<Node>, d: Depths)
    requires forall n :: n in s <==> n in t
    ensures DeepestIn(s, d) == DeepestIn(t, d)
  {
    DeepestAt(s, d);
    DeepestAt(t, d);
  }

  lemma ColumnForgetsOrder(g: Graph, h: Graph)
    requires UniqueIds(g) && SameGraph(g, h)
    ensures forall n :: ColumnOf(g, n) == ColumnOf(h, n)
    ensures DeepestTrustee(g) == DeepestTrustee(h)
  {
    DepthsForgetOrder(g, h);
    PermutationMembers(g.nodes, h.nodes);
    DeepestPermute(g.nodes, h.nodes, FinalDepths(g));
  }

  lemma ColumnsForgetOrder(g: Graph, h: Graph)
    requires UniqueIds(g) && SameGraph(g, h)
    ensures Columns(g) == Columns(h)
  {
    ColumnForgetsOrder(g, h);
    PermutationMembers(g.nodes, h.nodes);
    ColumnsOccupied(g);
    ColumnsOccupied(h);
    var s, t := Columns(g), Columns(h);
    DistinctSameMembers(s, t);
    NatLessTotal(Members(s));
    SortedUnique(NatLess, s, t, Members(s));
  }

  lemma RowsForgetOrder(g: Graph, h: Graph, c: nat)
    requires UniqueIds(g) && SameGraph(g, h)
    ensures Rows(g, c) == Rows(h, c)
  {
    ColumnForgetsOrder(g, h);
    FilterPermutation(InColumn(g, c), g.nodes, h.nodes);
    FilterCong(InColumn(g, c), InColumn(h, c), h.nodes);
    NodeLessTotal(g.nodes);
    var s, t := Filter(InColumn(g, c), g.nodes), Filter(InColumn(h, c), h.nodes);
    assert Members(s) <= Members(g.nodes);
    SortForgetsOrder(NodeLess, s, t);
  }

  lemma {:induction false} PlaceColumnsForgetOrder(g: Graph, h: Graph, cols: seq<nat>)
    requires UniqueIds(g) && SameGraph(g, h)
    ensures PlaceColumns(g, cols) == PlaceColumns(h, cols)
    ensures Tallest(g, cols) == Tallest(h, cols)
  {
    if |cols| == 0 {
    } else {
      PlaceColumnsForgetOrder(g, h, cols[..|cols| - 1]);
      RowsForgetOrder(g, h, cols[|cols| - 1]);
    }
  }

  /**
   * The same facts draw the same picture. Permuting the nodes and edges of a response, with or
   * without cycles, leaves every rectangle, every column label, the size, and the set of drawn
   * segments unchanged.
   */
  lemma LayoutForgetsOrder(g: Graph, h: Graph)
    requires UniqueIds(g) && SameGraph(g, h)
    ensures LayoutOf(g).nodes == LayoutOf(h).nodes
    ensures LayoutOf(g).columns == LayoutOf(h).columns
    ensures LayoutOf(g).width == LayoutOf(h).width && LayoutOf(g).height == LayoutOf(h).height
    ensures forall le :: le in LayoutOf(g).edges <==> le in LayoutOf(h).edges
  {
    ColumnForgetsOrder(g, h);
    ColumnsForgetOrder(g, h);
    PlaceColumnsForgetOrder(g, h, Columns(g));
    PermutationMembers(g.edges, h.edges);
    var at := PlacedAt(g);
    RoutedMembers(at, g.edges);
    RoutedMembers(at, h.edges);
  }

  lemma {:induction false} RoutedMembers(at: map<string, LaidOutNode>, edges: seq<Edge>)
    ensures forall le :: le in Routed(at, edges) <==>
              && le.edge in edges && le.edge.source in at && le.edge.target in at && le == Route(at, le.edge)
  {
    if |edges| == 0 {
    } else {
      var rest, last := edges[..|edges| - 1], edges[|edges| - 1];
      assert edges == rest + [last];
      RoutedMembers(at, rest);
    }
  }

  // -------------------------------------------------------------------------- direction

  /** Every drawn segment leaves the right side of one box and enters the left side of one further right. */
  ghost predicate AllForward(g: Graph) {
    forall le :: le in LayoutOf(g).edges ==> le.x1 < le.x2
  }

  /** A drawn edge joins two nodes of the graph and runs forward exactly when its column increases. */
  lemma DrawnEdge(g: Graph, e: Edge, s: Node, t: Node) returns (le: LaidOutEdge)
    requires UniqueIds(g) && e in g.edges && s in g.nodes && t in g.nodes
    requires e.source == s.id && e.target == t.id
    ensures le in LayoutOf(g).edges && le.edge == e
    ensures le.x1 < le.x2 <==> ColumnOf(g, s) < ColumnOf(g, t)
  {
    PlacedById(g, s);
    PlacedById(g, t);
    var at := PlacedAt(g);
    RoutedMembers(at, g.edges);
    le := Route(at, e);
    PlacedNodesSorted(g);
    var i :| 0 <= i < |PlacedNodes(g)| && PlacedNodes(g)[i] == at[s.id];
    var j :| 0 <= j < |PlacedNodes(g)| && PlacedNodes(g)[j] == at[t.id];
    assert StandsIn(g, Columns(g), at[s.id]) && StandsIn(g, Columns(g), at[t.id]);
  }

  lemma MembershipDepths(g: Graph, n: Node)
    requires UniqueIds(g) && n in g.nodes
    ensures n.id in FinalDepths(g)
    ensures IsTrusteeNode(n) ==>
              1 <= FinalDepths(g)[n.id] <= DeepestTrustee(g) && ColumnOf(g, n) == FinalDepths(g)[n.id]
  {
    NodeKeepsDepth(g, n);
    if IsTrusteeNode(n) {
      DeepestAtLeast(g.nodes, FinalDepths(g), n);
    }
  }

  lemma NodeKeepsDepth(g: Graph, n: Node)
    requires UniqueIds(g) && n in g.nodes
    ensures n.id in FinalDepths(g) && InitialDepth(n) <= FinalDepths(g)[n.id]
  {
    PassesRise(InitialDepths(g.nodes), OrderedMembership(g), 0, |g.nodes|);
    InitialDepthsAt(g.nodes, n);
  }

  lemma DeepestAtLeast(nodes: seq<Node>, d: Depths, n: Node)
    requires n in nodes && IsTrusteeNode(n)
    ensures DepthOrOne(d, n.id) <= DeepestIn(nodes, d)
  {
    DeepestAt(nodes, d);
  }

  /** Without a cycle, every edge between nodes of the graph leads to a column further right. */
  lemma AcyclicEdgeForward(g: Graph, e: Edge, s: Node, t: Node)
    requires UniqueIds(g) && WellKinded(g) && AcyclicMembership(g)
    requires e in g.edges && s in g.nodes && t in g.nodes && e.source == s.id && e.target == t.id
    ensures ColumnOf(g, s) < ColumnOf(g, t)
  {
    assert KindsFit(e, s, t);
    MembershipDepths(g, s);
    MembershipDepths(g, t);
    if IsMembership(e) {
      OrderedMembershipMembers(g, e);
      AcyclicEdgeRises(g, e);
    }
  }

  /** If every membership edge leads rightwards, no walk can return to where it started. */
  lemma {:induction false} ForwardWalk(g: Graph, s: string, w: seq<Edge>, v: string, n: Node, m: Node)
    requires UniqueIds(g) && AllForward(g)
    requires Walk(OrderedMembership(g), NodeIds(g.nodes), s, w, v)
    requires n in g.nodes && n.id == s && m in g.nodes && m.id == v
    ensures ColumnOf(g, n) + |w| <= ColumnOf(g, m)
    decreases |w|
  {
    if |w| == 0 {
      OneNodePerId(g, n, m);
    } else {
      var e := w[|w| - 1];
      var u :| u in g.nodes && u.id == e.source;
      OrderedMembershipMembers(g, e);
      var le := DrawnEdge(g, e, u, m);
      ForwardWalk(g, s, w[..|w| - 1], e.source, n, u);
    }
  }

  lemma OneNodePerId(g: Graph, n: Node, m: Node)
    requires UniqueIds(g) && n in g.nodes && m in g.nodes && n.id == m.id
    ensures n == m
  {
    var i :| 0 <= i < |g.nodes| && g.nodes[i] == n;
    var j :| 0 <= j < |g.nodes| && g.nodes[j] == m;
  }

  /**
   * No edge points backwards: on a well-kinded graph every drawn segment runs left to right exactly
   * when no membership cycle exists.
   */
  lemma ForwardIffAcyclic(g: Graph)
    requires UniqueIds(g) && WellKinded(g)
    ensures AllForward(g) <==> AcyclicMembership(g)
  {
    if AcyclicMembership(g) {
      forall le | le in LayoutOf(g).edges ensures le.x1 < le.x2 {
        RoutedMembers(PlacedAt(g), g.edges);
        PlacedIds(g);
        var s :| s in g.nodes && s.id == le.edge.source;
        var t :| t in g.nodes && t.id == le.edge.target;
        AcyclicEdgeForward(g, le.edge, s, t);
        var drawn := DrawnEdge(g, le.edge, s, t);
        RoutedMembers(PlacedAt(g), g.edges);
      }
    }
    if AllForward(g) {
      forall s, w | |w| > 0 ensures !Walk(OrderedMembership(g), NodeIds(g.nodes), s, w, s) {
        if Walk(OrderedMembership(g), NodeIds(g.nodes), s, w, s) {
          WalkEnds(OrderedMembership(g), NodeIds(g.nodes), s, w, s);
          var n :| n in g.nodes && n.id == s;
          ForwardWalk(g, s, w, s, n, n);
        }
      }
    }
  }

  // ---------------------------------------------------------------------- no empty column

  /** Below a trustee deeper than one stands a trustee exactly one column to its left. */
  lemma TrusteeBelow(g: Graph, n: Node) returns (u: Node)
    requires UniqueIds(g) && WellKinded(g) && AcyclicMembership(g)
    requires n in g.nodes && IsTrusteeNode(n) && ColumnOf(g, n) > 1
    ensures u in g.nodes && IsTrusteeNode(u) && ColumnOf(g, u) == ColumnOf(g, n) - 1
  {
    MembershipDepths(g, n);
    var e := LastMembership(g, n);
    u :| u in g.nodes && u.id == e.source;
    assert KindsFit(e, u, n);
    MembershipDepths(g, u);
    AcyclicEdgeRises(g, e);
    WalkDepthCovered(g, u.id, FinalDepths(g)[n.id] - 1);
    if u.kind.Principal? {
      PrincipalStaysFirst(g, u);
    }
  }

  /** A node starts at its initial depth and ends at a depth some walk gives it. */
  lemma NodeWalkDepth(g: Graph, n: Node)
    requires UniqueIds(g) && n in g.nodes && n.id in FinalDepths(g)
    ensures n.id in InitialDepths(g.nodes) && InitialDepths(g.nodes)[n.id] == InitialDepth(n)
    ensures InitialDepths(g.nodes).Keys == NodeIds(g.nodes)
    ensures IsWalkDepth(OrderedMembership(g), InitialDepths(g.nodes), n.id, FinalDepths(g)[n.id])
  {
    DepthsAreWalks(g);
    InitialDepthsKeys(g.nodes);
    InitialDepthsAt(g.nodes, n);
  }

  /** The last membership edge of a walk that raised a node above its initial depth. */
  lemma LastMembership(g: Graph, n: Node) returns (e: Edge)
    requires UniqueIds(g) && n in g.nodes
    requires n.id in FinalDepths(g) && FinalDepths(g)[n.id] != InitialDepth(n)
    ensures e in g.edges && IsMembership(e) && e in OrderedMembership(g)
    ensures e.target == n.id && e.source in NodeIds(g.nodes)
    ensures FinalDepths(g)[n.id] >= 1
    ensures IsWalkDepth(OrderedMembership(g), InitialDepths(g.nodes), e.source, FinalDepths(g)[n.id] - 1)
  {
    NodeWalkDepth(g, n);
    e := LastStep(OrderedMembership(g), InitialDepths(g.nodes), n.id, FinalDepths(g)[n.id]);
    OrderedMembershipMembers(g, e);
  }

  lemma MembershipEndsAtTrustee(g: Graph, e: Edge, n: Node)
    requires WellKinded(g) && e in g.edges && IsMembership(e) && e.source in NodeIds(g.nodes)
    requires n in g.nodes && n.id == e.target
    ensures IsTrusteeNode(n)
  {
    var u :| u in g.nodes && u.id == e.source;
    assert KindsFit(e, u, n);
  }

  /** Nothing is a member into a principal, so the subject keeps depth zero. */
  lemma PrincipalStaysFirst(g: Graph, n: Node)
    requires UniqueIds(g) && WellKinded(g) && n in g.nodes && n.kind.Principal?
    ensures n.id in FinalDepths(g) && FinalDepths(g)[n.id] == 0
  {
    MembershipDepths(g, n);
    if FinalDepths(g)[n.id] != 0 {
      var e := LastMembership(g, n);
      MembershipEndsAtTrustee(g, e, n);
    }
  }

  /** On an acyclic graph the trustee columns have no gap: 1 up to the deepest are all occupied. */
  lemma NoEmptyTrusteeColumn(g: Graph, c: nat)
    requires UniqueIds(g) && WellKinded(g) && AcyclicMembership(g)
    requires 1 <= c <= DeepestTrustee(g)
    ensures c in Columns(g)
  {
    DeepestAt(g.nodes, FinalDepths(g));
    var n :| n in g.nodes && IsTrusteeNode(n) && DepthOrOne(FinalDepths(g), n.id) == DeepestTrustee(g);
    MembershipDepths(g, n);
    var m := TrusteeAt(g, n, c);
    ColumnsOccupied(g);
  }

  lemma {:induction false} TrusteeAt(g: Graph, n: Node, c: nat) returns (m: Node)
    requires UniqueIds(g) && WellKinded(g) && AcyclicMembership(g)
    requires n in g.nodes && IsTrusteeNode(n) && 1 <= c <= ColumnOf(g, n)
    ensures m in g.nodes && IsTrusteeNode(m) && ColumnOf(g, m) == c
    decreases ColumnOf(g, n)
  {
    if c == ColumnOf(g, n) {
      m := n;
    } else {
      var u := TrusteeBelow(g, n);
      m := TrusteeAt(g, u, c);
    }
  }
}
