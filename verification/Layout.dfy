/** Columns, rows, rectangles and routed edges: the rest of `layoutGraph`. */
module Layout {
  import opened Seqs
  import opened Sorting
  import opened Text
  import opened ExplanationGraph
  import opened Relaxation

  const NODE_WIDTH: int := 188
  const NODE_HEIGHT: int := 38
  const COLUMN_GAP: int := 76
  const ROW_GAP: int := 18
  const PADDING: int := 16

  datatype LaidOutNode = LaidOutNode(node: Node, column: nat, row: nat, x: int, y: int)

  datatype LaidOutEdge = LaidOutEdge(edge: Edge, x1: int, y1: int, x2: int, y2: int)

  datatype ColumnLabel = ColumnLabel(index: nat, caption: string)

  datatype GraphLayout = GraphLayout(
    nodes: seq<LaidOutNode>,
    edges: seq<LaidOutEdge>,
    width: int,
    height: int,
    columns: seq<ColumnLabel>)

  function Max(a: nat, b: nat): nat {
    if a < b then b else a
  }

  // ---------------------------------------------------------------------------- columns

  function DepthOrOne(d: Depths, id: string): nat {
    if id in d then d[id] else 1
  }

  function DeepestIn(nodes: seq<Node>, d: Depths): nat {
    if |nodes| == 0 then 0
    else
      var last := nodes[|nodes| - 1];
      var rest := DeepestIn(nodes[..|nodes| - 1], d);
      if IsTrusteeNode(last) then Max(rest, DepthOrOne(d, last.id)) else rest
  }

  function DeepestTrustee(g: Graph): nat {
    DeepestIn(g.nodes, FinalDepths(g))
  }

  function ColumnFor(node: Node, d: Depths, deepest: nat): nat {
    match node.kind
    case Principal => 0
    case Group => Max(1, DepthOrOne(d, node.id))
    case AssumedTrustee => Max(1, DepthOrOne(d, node.id))
    case NtfsAce => deepest + 1
    case SmbAce => deepest + 1
    case Resource => deepest + 2
    case Share => deepest + 2
  }

  function ColumnOf(g: Graph, node: Node): nat {
    ColumnFor(node, FinalDepths(g), DeepestTrustee(g))
  }

  function ColumnFun(g: Graph): Node -> nat {
    n => ColumnOf(g, n)
  }

  function InColumn(g: Graph, c: nat): Node -> bool {
    n => ColumnOf(g, n) == c
  }

  predicate NatLess(a: nat, b: nat) {
    a < b
  }

  /** The distinct values in the order they first occur: the key order of a JavaScript `Map`. */
  function FirstSeen(s: seq<nat>): seq<nat> {
    if |s| == 0 then []
    else
      var rest := FirstSeen(s[..|s| - 1]);
      if s[|s| - 1] in rest then rest else rest + [s[|s| - 1]]
  }

  /** The occupied columns, left to right. */
  function Columns(g: Graph): seq<nat> {
    SortBy(NatLess, FirstSeen(Map(ColumnFun(g), g.nodes)))
  }

  /** The nodes of one column, top to bottom. */
  function Rows(g: Graph, c: nat): seq<Node> {
    SortBy(NodeLess, Filter(InColumn(g, c), g.nodes))
  }

  // -------------------------------------------------------------------------- placement

  function Place(node: Node, column: nat, row: nat): LaidOutNode {
    LaidOutNode(node, column, row,
                PADDING + column * (NODE_WIDTH + COLUMN_GAP), PADDING + row * (NODE_HEIGHT + ROW_GAP))
  }

  function PlaceColumn(column: nat, members: seq<Node>): seq<LaidOutNode> {
    if |members| == 0 then []
    else PlaceColumn(column, members[..|members| - 1]) + [Place(members[|members| - 1], column, |members| - 1)]
  }

  function PlaceColumns(g: Graph, cols: seq<nat>): seq<LaidOutNode> {
    if |cols| == 0 then []
    else PlaceColumns(g, cols[..|cols| - 1]) + PlaceColumn(cols[|cols| - 1], Rows(g, cols[|cols| - 1]))
  }

  /** Every place given out, in the order it is given out. */
  function AllPlaced(g: Graph): seq<LaidOutNode> {
    PlaceColumns(g, Columns(g))
  }

  /** A map filled in this order: a repeated id is overwritten. */
  function ById(placed: seq<LaidOutNode>): map<string, LaidOutNode> {
    if |placed| == 0 then map[]
    else ById(placed[..|placed| - 1])[placed[|placed| - 1].node.id := placed[|placed| - 1]]
  }

  /** Where each id ends up. */
  function PlacedAt(g: Graph): map<string, LaidOutNode> {
    ById(AllPlaced(g))
  }

  /** The place is the one its id ends up with. */
  function Survives(at: map<string, LaidOutNode>): LaidOutNode -> bool {
    (p: LaidOutNode) => p.node.id in at && at[p.node.id] == p
  }

  function PlacedNodes(g: Graph): seq<LaidOutNode> {
    Filter(Survives(PlacedAt(g)), AllPlaced(g))
  }

  predicate PositionLess(a: LaidOutNode, b: LaidOutNode) {
    if a.column == b.column then a.row < b.row else a.column < b.column
  }

  function Route(at: map<string, LaidOutNode>, e: Edge): LaidOutEdge
    requires e.source in at && e.target in at
  {
    LaidOutEdge(e,
                at[e.source].x + NODE_WIDTH, at[e.source].y + NODE_HEIGHT / 2,
                at[e.target].x, at[e.target].y + NODE_HEIGHT / 2)
  }

  function Routed(at: map<string, LaidOutNode>, edges: seq<Edge>): seq<LaidOutEdge> {
    if |edges| == 0 then []
    else
      var last := edges[|edges| - 1];
      Routed(at, edges[..|edges| - 1])
      + (if last.source in at && last.target in at then [Route(at, last)] else [])
  }

  function Tallest(g: Graph, cols: seq<nat>): nat {
    if |cols| == 0 then 0
    else Max(Tallest(g, cols[..|cols| - 1]), |Rows(g, cols[|cols| - 1])|)
  }

  function Widest(cols: seq<nat>): nat {
    if |cols| == 0 then 0 else Max(Widest(cols[..|cols| - 1]), cols[|cols| - 1])
  }

  function Width(widest: nat): int {
    PADDING * 2 + (widest + 1) * NODE_WIDTH + widest * COLUMN_GAP
  }

  function Height(tallest: nat): int {
    PADDING * 2 + Max(1, tallest) * NODE_HEIGHT + (if tallest == 0 then 0 else tallest - 1) * ROW_GAP
  }

  function LabelOf(index: nat, deepest: nat): ColumnLabel {
    ColumnLabel(index,
                if index == 0 then "Identity"
                else if index == deepest + 2 then "Object"
                else if index == deepest + 1 then "Entries"
                else "Groups (" + Decimal(index) + " hop" + (if index == 1 then "" else "s") + ")")
  }

  function LabelFun(deepest: nat): nat -> ColumnLabel {
    (index: nat) => LabelOf(index, deepest)
  }

  /** What `layoutGraph` returns. */
  function LayoutOf(g: Graph): GraphLayout {
    GraphLayout(
      PlacedNodes(g),
      Routed(PlacedAt(g), g.edges),
      Width(Widest(Columns(g))),
      Height(Tallest(g, Columns(g))),
      Map(LabelFun(DeepestTrustee(g)), Columns(g)))
  }

  // ---------------------------------------------------------------------------- methods

  method FindDeepestTrustee(g: Graph, depth: Depths) returns (deepest: nat)
    ensures deepest == DeepestIn(g.nodes, depth)
  {
    deepest := 0;
    for k := 0 to |g.nodes|
      invariant deepest == DeepestIn(g.nodes[..k], depth)
    {
      assert g.nodes[..k + 1][..k] == g.nodes[..k];
      if IsTrusteeNode(g.nodes[k]) {
        deepest := Max(deepest, DepthOrOne(depth, g.nodes[k].id));
      }
    }
    assert g.nodes[..|g.nodes|] == g.nodes;
  }

  /** The buckets after the first `k` nodes: one per column seen, holding its nodes in order. */
  ghost predicate Buckets(g: Graph, k: nat, byColumn: map<nat, seq<Node>>, keys: seq<nat>)
    requires k <= |g.nodes|
  {
    && keys == FirstSeen(Map(ColumnFun(g), g.nodes[..k]))
    && (forall c {:trigger c in keys} {:trigger c in byColumn} :: c in byColumn <==> c in keys)
    && (forall c {:trigger byColumn[c]} :: c in byColumn ==> byColumn[c] == Filter(InColumn(g, c), g.nodes[..k]))
    && (forall c {:trigger InColumn(g, c)} :: c !in byColumn ==> Filter(InColumn(g, c), g.nodes[..k]) == [])
  }

  /** Fill the buckets in one pass; `keys` is the order in which the map gained its keys. */
  method FillColumns(g: Graph, depth: Depths, deepest: nat) returns (byColumn: map<nat, seq<Node>>, keys: seq<nat>)
    requires depth == FinalDepths(g) && deepest == DeepestTrustee(g)
    ensures keys == FirstSeen(Map(ColumnFun(g), g.nodes))
    ensures forall c :: c in byColumn <==> c in keys
    ensures forall c :: c in byColumn ==> byColumn[c] == Filter(InColumn(g, c), g.nodes)
  {
    byColumn, keys := map[], [];
    for k := 0 to |g.nodes|
      invariant Buckets(g, k, byColumn, keys)
    {
      var node := g.nodes[k];
      var column := ColumnFor(node, depth, deepest);
      ghost var b0, k0 := byColumn, keys;
      if column !in byColumn {
        byColumn := byColumn[column := [node]];
        keys := keys + [column];
      } else {
        byColumn := byColumn[column := byColumn[column] + [node]];
      }
      BucketStep(g, k, b0, k0, byColumn, keys);
    }
    assert g.nodes[..|g.nodes|] == g.nodes;
  }

  lemma FirstSeenSnoc(s: seq<nat>, c: nat)
    ensures FirstSeen(s + [c]) == if c in FirstSeen(s) then FirstSeen(s) else FirstSeen(s) + [c]
  {
    assert (s + [c])[..|s|] == s;
  }

  lemma BucketStep(g: Graph, k: nat, b0: map<nat, seq<Node>>, k0: seq<nat>, b1: map<nat, seq<Node>>, k1: seq<nat>)
    requires k < |g.nodes| && Buckets(g, k, b0, k0)
    requires var c := ColumnOf(g, g.nodes[k]);
             && b1 == b0[c := if c in b0 then b0[c] + [g.nodes[k]] else [g.nodes[k]]]
             && k1 == if c in b0 then k0 else k0 + [c]
    ensures Buckets(g, k + 1, b1, k1)
  {
    MapSnoc(ColumnFun(g), g.nodes, k);
    FirstSeenSnoc(Map(ColumnFun(g), g.nodes[..k]), ColumnOf(g, g.nodes[k]));
    forall c: nat
      ensures Filter(InColumn(g, c), g.nodes[..k + 1])
              == Filter(InColumn(g, c), g.nodes[..k]) + if ColumnOf(g, g.nodes[k]) == c then [g.nodes[k]] else []
    {
      FilterSnoc(InColumn(g, c), g.nodes, k);
    }
  }

  /** `order` lists the keys of the map, each once: the order in which it gained them. */
  ghost predicate KeysOnce(placed: map<string, LaidOutNode>, order: seq<string>) {
    Distinct(order) && forall id :: id in order <==> id in placed
  }

  /** Place one column's members top to bottom, after the places already given out. */
  method PlaceMembers(
    column: nat, members: seq<Node>, placed0: map<string, LaidOutNode>, order0: seq<string>,
    ghost before: seq<LaidOutNode>)
    returns (placed: map<string, LaidOutNode>, order: seq<string>)
    requires placed0 == ById(before) && KeysOnce(placed0, order0)
    ensures placed == ById(before + PlaceColumn(column, members)) && KeysOnce(placed, order)
  {
    placed, order := placed0, order0;
    assert before + PlaceColumn(column, members[..0]) == before;
    for row := 0 to |members|
      invariant placed == ById(before + PlaceColumn(column, members[..row]))
      invariant KeysOnce(placed, order)
    {
      var spot := Place(members[row], column, row);
      PlacedStep(before, column, members, row);
      if spot.node.id !in placed {
        order := order + [spot.node.id];
      }
      placed := placed[spot.node.id := spot];
    }
    assert members[..|members|] == members;
  }

  /** Placing one more member writes its place over whatever its id had. */
  lemma PlacedStep(before: seq<LaidOutNode>, column: nat, members: seq<Node>, row: nat)
    requires row < |members|
    ensures var spot := Place(members[row], column, row);
            ById(before + PlaceColumn(column, members[..row + 1]))
            == ById(before + PlaceColumn(column, members[..row]))[spot.node.id := spot]
  {
    var spot := Place(members[row], column, row);
    ByIdSnoc(before + PlaceColumn(column, members[..row]), spot);
    assert members[..row + 1][..row] == members[..row];
    ConcatAssociative(before, PlaceColumn(column, members[..row]), [spot]);
  }

  lemma ByIdSnoc(placed: seq<LaidOutNode>, p: LaidOutNode)
    ensures ById(placed + [p]) == ById(placed)[p.node.id := p]
  {
    assert (placed + [p])[..|placed|] == placed;
  }

  /** Place the columns left to right, each top to bottom. */
  method PlaceAll(g: Graph, byColumn: map<nat, seq<Node>>, columns: seq<nat>)
    returns (placed: map<string, LaidOutNode>, order: seq<string>, tallest: nat)
    requires forall c :: c in columns ==> c in byColumn && byColumn[c] == Filter(InColumn(g, c), g.nodes)
    ensures placed == ById(PlaceColumns(g, columns)) && KeysOnce(placed, order)
    ensures tallest == Tallest(g, columns)
  {
    placed, order, tallest := map[], [], 0;
    for k := 0 to |columns|
      invariant placed == ById(PlaceColumns(g, columns[..k])) && KeysOnce(placed, order)
      invariant tallest == Tallest(g, columns[..k])
    {
      var column := columns[k];
      assert columns[..k + 1][..k] == columns[..k];
      var members := SortBy(NodeLess, byColumn[column]);
      placed, order := PlaceMembers(column, members, placed, order, PlaceColumns(g, columns[..k]));
      tallest := Max(tallest, |members|);
    }
    assert columns[..|columns|] == columns;
  }

  /** The values of a map in the order of its keys. */
  function Values(placed: map<string, LaidOutNode>, order: seq<string>): (values: seq<LaidOutNode>)
    requires forall id :: id in order ==> id in placed
    ensures |values| == |order|
    ensures forall i :: 0 <= i < |order| ==> values[i] == placed[order[i]]
  {
    seq(|order|, i requires 0 <= i < |order| => placed[order[i]])
  }

  method RouteEdges(g: Graph, placed: map<string, LaidOutNode>) returns (edges: seq<LaidOutEdge>)
    ensures edges == Routed(placed, g.edges)
  {
    edges := [];
    for k := 0 to |g.edges|
      invariant edges == Routed(placed, g.edges[..k])
    {
      var edge := g.edges[k];
      assert g.edges[..k + 1][..k] == g.edges[..k];
      if edge.source in placed && edge.target in placed {
        edges := edges + [Route(placed, edge)];
      }
    }
    assert g.edges[..|g.edges|] == g.edges;
  }

  method FindWidest(columns: seq<nat>) returns (widest: nat)
    ensures widest == Widest(columns)
  {
    widest := 0;
    for k := 0 to |columns|
      invariant widest == Widest(columns[..k])
    {
      assert columns[..k + 1][..k] == columns[..k];
      widest := Max(widest, columns[k]);
    }
    assert columns[..|columns|] == columns;
  }

  method LayoutGraph(g: Graph) returns (layout: GraphLayout)
    ensures layout == LayoutOf(g)
  {
    var depth := ComputeDepths(g);
    var deepest := FindDeepestTrustee(g, depth);
    var byColumn, keys := FillColumns(g, depth, deepest);
    var columns := SortBy(NatLess, keys);
    SortMembers(NatLess, keys);
    var placed, order, tallest := PlaceAll(g, byColumn, columns);
    var edges := RouteEdges(g, placed);
    var widest := FindWidest(columns);
    SortedValues(g, order);
    layout := GraphLayout(
      SortBy(PositionLess, Values(placed, order)),
      edges,
      Width(widest),
      Height(tallest),
      Map(LabelFun(deepest), columns));
  }

  // ------------------------------------------------------------------- columns, in order

  lemma {:induction false} FirstSeenDistinct(s: seq<nat>)
    ensures Distinct(FirstSeen(s))
    ensures forall c :: c in FirstSeen(s) <==> c in s
  {
    if |s| == 0 {
    } else {
      FirstSeenDistinct(s[..|s| - 1]);
      assert s == s[..|s| - 1] + [s[|s| - 1]];
    }
  }

  lemma NatLessTotal(dom: set<nat>)
    ensures TotalOrder(NatLess, dom)
  {
  }

  /** The columns are strictly increasing and are exactly the columns some node is in. */
  lemma ColumnsOccupied(g: Graph)
    ensures forall i, j :: 0 <= i < j < |Columns(g)| ==> Columns(g)[i] < Columns(g)[j]
    ensures forall c :: c in Columns(g) <==> exists n :: n in g.nodes && ColumnOf(g, n) == c
  {
    var s := Map(ColumnFun(g), g.nodes);
    FirstSeenDistinct(s);
    NatLessTotal(Members(FirstSeen(s)));
    SortSorts(NatLess, FirstSeen(s), Members(FirstSeen(s)));
    SortDistinct(NatLess, FirstSeen(s));
    SortMembers(NatLess, FirstSeen(s));
    forall c ensures c in s <==> exists n :: n in g.nodes && ColumnOf(g, n) == c {
      if c in s {
        var i :| 0 <= i < |s| && s[i] == c;
        assert g.nodes[i] in g.nodes && ColumnOf(g, g.nodes[i]) == c;
      }
      if n :| n in g.nodes && ColumnOf(g, n) == c {
        var i :| 0 <= i < |g.nodes| && g.nodes[i] == n;
        assert s[i] == c;
      }
    }
    forall i, j | 0 <= i < j < |Columns(g)| ensures Columns(g)[i] < Columns(g)[j] {
      assert !NatLess(Columns(g)[j], Columns(g)[i]);
    }
  }

  lemma RowsMembers(g: Graph, c: nat, n: Node)
    ensures n in Rows(g, c) <==> n in g.nodes && ColumnOf(g, n) == c
  {
    SortMembers(NodeLess, Filter(InColumn(g, c), g.nodes));
    assert InColumn(g, c)(n) <==> ColumnOf(g, n) == c;
  }

  // ------------------------------------------------------------------------- the places

  lemma {:induction false} PlaceColumnAt(column: nat, members: seq<Node>)
    ensures |PlaceColumn(column, members)| == |members|
    ensures forall r :: 0 <= r < |members| ==> PlaceColumn(column, members)[r] == Place(members[r], column, r)
  {
    if |members| == 0 {
    } else {
      PlaceColumnAt(column, members[..|members| - 1]);
    }
  }

  /** `p` stands in one of the columns `cols`, in the row its node has there. */
  ghost predicate StandsIn(g: Graph, cols: seq<nat>, p: LaidOutNode) {
    && p.column in cols
    && p.row < |Rows(g, p.column)|
    && p == Place(Rows(g, p.column)[p.row], p.column, p.row)
  }

  lemma {:induction false} PlaceColumnsSorted(g: Graph, cols: seq<nat>)
    requires forall i, j :: 0 <= i < j < |cols| ==> cols[i] < cols[j]
    ensures forall i :: 0 <= i < |PlaceColumns(g, cols)| ==> StandsIn(g, cols, PlaceColumns(g, cols)[i])
    ensures forall i, j :: 0 <= i < j < |PlaceColumns(g, cols)|
                           ==> PositionLess(PlaceColumns(g, cols)[i], PlaceColumns(g, cols)[j])
  {
    if |cols| == 0 {
    } else {
      var c, rest := cols[|cols| - 1], cols[..|cols| - 1];
      PlaceColumnsSorted(g, rest);
      PlaceColumnAt(c, Rows(g, c));
      var before, last := PlaceColumns(g, rest), PlaceColumn(c, Rows(g, c));
      assert PlaceColumns(g, cols) == before + last;
      forall i | 0 <= i < |before + last| ensures StandsIn(g, cols, (before + last)[i]) {
        if i < |before| {
          assert StandsIn(g, rest, before[i]);
        }
      }
      forall i, j | 0 <= i < j < |before + last| ensures PositionLess((before + last)[i], (before + last)[j]) {
        if i < |before| {
          assert StandsIn(g, rest, before[i]);
          var k :| 0 <= k < |rest| && rest[k] == before[i].column;
          assert cols[k] < cols[|cols| - 1];
        }
      }
    }
  }

  lemma AllPlacedSorted(g: Graph)
    ensures forall i :: 0 <= i < |AllPlaced(g)| ==> StandsIn(g, Columns(g), AllPlaced(g)[i])
    ensures forall i, j :: 0 <= i < j < |AllPlaced(g)| ==> PositionLess(AllPlaced(g)[i], AllPlaced(g)[j])
  {
    ColumnsOccupied(g);
    PlaceColumnsSorted(g, Columns(g));
  }

  lemma PlacedNodesSorted(g: Graph)
    ensures Sorted(PositionLess, PlacedNodes(g))
    ensures forall i :: 0 <= i < |PlacedNodes(g)| ==> StandsIn(g, Columns(g), PlacedNodes(g)[i])
    ensures forall i, j :: 0 <= i < j < |PlacedNodes(g)| ==> PositionLess(PlacedNodes(g)[i], PlacedNodes(g)[j])
  {
    AllPlacedSorted(g);
    FilterKeepsOrder(PositionLess, Survives(PlacedAt(g)), AllPlaced(g));
    forall i | 0 <= i < |PlacedNodes(g)| ensures StandsIn(g, Columns(g), PlacedNodes(g)[i]) {
      assert PlacedNodes(g)[i] in AllPlaced(g);
      var j :| 0 <= j < |AllPlaced(g)| && AllPlaced(g)[j] == PlacedNodes(g)[i];
    }
  }

  lemma {:induction false} ByIdHolds(placed: seq<LaidOutNode>)
    ensures forall id :: id in ById(placed) ==> ById(placed)[id] in placed && ById(placed)[id].node.id == id
  {
    if |placed| == 0 {
    } else {
      ByIdHolds(placed[..|placed| - 1]);
      assert placed == placed[..|placed| - 1] + [placed[|placed| - 1]];
    }
  }

  /** The survivors are the values of the map, whatever the order of its keys. */
  lemma ValuesSurvive(placed: seq<LaidOutNode>, order: seq<string>)
    requires KeysOnce(ById(placed), order)
    ensures Distinct(Values(ById(placed), order))
    ensures forall p :: p in Values(ById(placed), order) <==> p in Filter(Survives(ById(placed)), placed)
  {
    var at := ById(placed);
    var values := Values(at, order);
    ByIdHolds(placed);
    forall i, j | 0 <= i < j < |values| ensures values[i] != values[j] {
      assert at[order[i]].node.id != at[order[j]].node.id;
    }
    forall p ensures p in values <==> p in Filter(Survives(at), placed) {
      if p in values {
        var i :| 0 <= i < |values| && values[i] == p;
        assert order[i] in at && Survives(at)(p);
      }
      if p in Filter(Survives(at), placed) {
        var i :| 0 <= i < |order| && order[i] == p.node.id;
        assert values[i] == p;
      }
    }
  }

  lemma PositionsTotal(dom: set<LaidOutNode>)
    ensures WeakOrder(PositionLess, dom)
  {
  }

  /** Sorting the map's values by position gives the survivors in the order they were placed. */
  lemma SortedValues(g: Graph, order: seq<string>)
    requires KeysOnce(PlacedAt(g), order)
    ensures SortBy(PositionLess, Values(PlacedAt(g), order)) == PlacedNodes(g)
  {
    var nodes, values := PlacedNodes(g), Values(PlacedAt(g), order);
    PlacedNodesSorted(g);
    ValuesSurvive(AllPlaced(g), order);
    DistinctSameMembers(nodes, values);
    PositionsTotal(Members(nodes));
    SortForgetsOrder(PositionLess, nodes, values);
    SortOfSorted(PositionLess, nodes);
  }

  function NodeOf(p: LaidOutNode): Node {
    p.node
  }

  /** Placing some columns places exactly the nodes of those columns, each once. */
  lemma {:induction false} PlaceColumnsPermutes(g: Graph, cols: seq<nat>, n: Node)
    requires Distinct(cols)
    ensures multiset(Map(NodeOf, PlaceColumns(g, cols)))[n]
            == if ColumnOf(g, n) in cols then multiset(g.nodes)[n] else 0
  {
    if |cols| == 0 {
      assert Map(NodeOf, PlaceColumns(g, cols)) == [];
    } else {
      var c, rest := cols[|cols| - 1], cols[..|cols| - 1];
      assert cols == rest + [c];
      PlaceColumnsPermutes(g, rest, n);
      PlaceColumnMultiset(g, c, n);
      MapAppend(NodeOf, PlaceColumns(g, rest), PlaceColumn(c, Rows(g, c)));
      SplitMultiset(Map(NodeOf, PlaceColumns(g, rest)), Map(NodeOf, PlaceColumn(c, Rows(g, c))), n);
      assert c !in rest;
    }
  }

  lemma SplitMultiset(s: seq<Node>, t: seq<Node>, n: Node)
    ensures multiset(s + t)[n] == multiset(s)[n] + multiset(t)[n]
  {
  }

  lemma PlaceColumnMultiset(g: Graph, c: nat, n: Node)
    ensures multiset(Map(NodeOf, PlaceColumn(c, Rows(g, c))))[n]
            == if ColumnOf(g, n) == c then multiset(g.nodes)[n] else 0
  {
    PlaceColumnAt(c, Rows(g, c));
    assert Map(NodeOf, PlaceColumn(c, Rows(g, c))) == Rows(g, c);
    SortPermutes(NodeLess, Filter(InColumn(g, c), g.nodes));
    FilterMultiset(InColumn(g, c), g.nodes, n);
    assert InColumn(g, c)(n) <==> ColumnOf(g, n) == c;
  }

  /** Every node of the graph is given a place exactly once. */
  lemma AllPlacedOnce(g: Graph)
    ensures multiset(Map(NodeOf, AllPlaced(g))) == multiset(g.nodes)
    ensures |AllPlaced(g)| == |g.nodes|
    ensures forall n :: n in Map(NodeOf, AllPlaced(g)) <==> n in g.nodes
  {
    ColumnsOccupied(g);
    var a, b := multiset(Map(NodeOf, AllPlaced(g))), multiset(g.nodes);
    forall n ensures a[n] == b[n] {
      PlaceColumnsPermutes(g, Columns(g), n);
      assert n in b <==> n in g.nodes;
    }
    assert a == b;
    PermutationMembers(Map(NodeOf, AllPlaced(g)), g.nodes);
  }

  /** No two rectangles are of one id. */
  ghost predicate OnePerId(placed: seq<LaidOutNode>) {
    forall i, j :: 0 <= i < j < |placed| ==> placed[i].node.id != placed[j].node.id
  }

  lemma {:induction false} ByIdKeys(placed: seq<LaidOutNode>)
    ensures ById(placed).Keys == NodeIds(Map(NodeOf, placed))
  {
    if |placed| == 0 {
      assert Map(NodeOf, placed) == [];
    } else {
      var rest, last := placed[..|placed| - 1], placed[|placed| - 1];
      ByIdKeys(rest);
      assert Map(NodeOf, placed) == Map(NodeOf, rest) + [last.node];
      assert NodeIds(Map(NodeOf, placed)) == NodeIds(Map(NodeOf, rest)) + {last.node.id};
    }
  }

  lemma {:induction false} ByIdAt(placed: seq<LaidOutNode>, i: nat)
    requires OnePerId(placed) && i < |placed|
    ensures placed[i].node.id in ById(placed) && ById(placed)[placed[i].node.id] == placed[i]
  {
    if i == |placed| - 1 {
    } else {
      ByIdAt(placed[..|placed| - 1], i);
    }
  }

  /** The placed ids are the ids of the graph's nodes. */
  lemma PlacedIds(g: Graph)
    ensures PlacedAt(g).Keys == NodeIds(g.nodes)
  {
    AllPlacedOnce(g);
    ByIdKeys(AllPlaced(g));
  }

  /** The rectangles are the values of the map, each at its own id. */
  lemma SurvivorsAt(g: Graph)
    ensures forall p :: p in PlacedNodes(g) <==> p.node.id in PlacedAt(g) && PlacedAt(g)[p.node.id] == p
    ensures forall id :: id in PlacedAt(g) ==> PlacedAt(g)[id] in PlacedNodes(g) && PlacedAt(g)[id].node.id == id
  {
    ByIdHolds(AllPlaced(g));
    forall p ensures p in PlacedNodes(g) <==> p.node.id in PlacedAt(g) && PlacedAt(g)[p.node.id] == p {
      assert Survives(PlacedAt(g))(p) <==> p.node.id in PlacedAt(g) && PlacedAt(g)[p.node.id] == p;
    }
  }

  lemma NodeIdsOf(placed: seq<LaidOutNode>, id: string)
    ensures id in NodeIds(Map(NodeOf, placed)) <==> exists p :: p in placed && p.node.id == id
  {
    var nodes := Map(NodeOf, placed);
    if n :| n in nodes && n.id == id {
      var i :| 0 <= i < |nodes| && nodes[i] == n;
      assert placed[i] in placed;
    }
    if p :| p in placed && p.node.id == id {
      var i :| 0 <= i < |placed| && placed[i] == p;
      assert nodes[i] in nodes;
    }
  }

  /** On every graph, repeated ids included: one rectangle for each id, and none besides. */
  lemma OneRectanglePerId(g: Graph)
    ensures OnePerId(LayoutOf(g).nodes)
    ensures NodeIds(Map(NodeOf, LayoutOf(g).nodes)) == NodeIds(g.nodes)
  {
    var nodes := PlacedNodes(g);
    PlacedNodesSorted(g);
    SurvivorsAt(g);
    PlacedIds(g);
    forall i, j | 0 <= i < j < |nodes| ensures nodes[i].node.id != nodes[j].node.id {
      assert nodes[i] in nodes && nodes[j] in nodes && PositionLess(nodes[i], nodes[j]);
    }
    forall id ensures id in NodeIds(Map(NodeOf, nodes)) <==> id in PlacedAt(g) {
      NodeIdsOf(nodes, id);
    }
  }

  lemma UniqueIdsAllSurvive(g: Graph)
    requires UniqueNodeIds(g.nodes)
    ensures OnePerId(AllPlaced(g))
    ensures PlacedNodes(g) == AllPlaced(g)
  {
    var placed := AllPlaced(g);
    var nodes := Map(NodeOf, placed);
    AllPlacedOnce(g);
    UniqueNodeIdsPermute(g.nodes, nodes);
    forall i, j | 0 <= i < j < |placed| ensures placed[i].node.id != placed[j].node.id {
      assert nodes[i].id != nodes[j].id;
    }
    forall p | p in placed ensures Survives(PlacedAt(g))(p) {
      var i :| 0 <= i < |placed| && placed[i] == p;
      ByIdAt(placed, i);
    }
    FilterAll(Survives(PlacedAt(g)), placed);
  }

  /** Every node is placed exactly once, and nothing else is, exactly when no two nodes share an id. */
  lemma EveryNodePlacedOnceIff(g: Graph)
    ensures multiset(Map(NodeOf, LayoutOf(g).nodes)) == multiset(g.nodes) <==> UniqueNodeIds(g.nodes)
  {
    if UniqueNodeIds(g.nodes) {
      UniqueIdsAllSurvive(g);
      AllPlacedOnce(g);
    }
    var nodes := Map(NodeOf, PlacedNodes(g));
    if multiset(nodes) == multiset(g.nodes) {
      OneRectanglePerId(g);
      assert UniqueNodeIds(nodes);
      UniqueNodeIdsPermute(nodes, g.nodes);
    }
  }

  /** Where a node of the graph is given its place. */
  lemma PlaceOf(g: Graph, n: Node) returns (i: nat)
    requires n in g.nodes
    ensures i < |AllPlaced(g)| && AllPlaced(g)[i].node == n
  {
    AllPlacedOnce(g);
    var nodes := Map(NodeOf, AllPlaced(g));
    assert n in nodes;
    i :| 0 <= i < |nodes| && nodes[i] == n;
  }

  lemma PlacedById(g: Graph, n: Node)
    requires UniqueNodeIds(g.nodes) && n in g.nodes
    ensures n.id in PlacedAt(g)
    ensures PlacedAt(g)[n.id].node == n && PlacedAt(g)[n.id].column == ColumnOf(g, n)
    ensures PlacedAt(g)[n.id] in PlacedNodes(g)
  {
    var i := PlaceOf(g, n);
    UniqueIdsAllSurvive(g);
    ByIdAt(AllPlaced(g), i);
    AllPlacedSorted(g);
    assert StandsIn(g, Columns(g), AllPlaced(g)[i]);
    RowsMembers(g, AllPlaced(g)[i].column, n);
  }
}
