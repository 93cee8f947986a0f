/** The diagram as rows: `structureRows`, and its agreement with the picture. */
module StructureTable {
  import opened Seqs
  import opened ExplanationGraph
  import Layout
  import Drawing

  /** A route of the explanation: its id and the ids of the edges it travels, repeats included. */
  datatype Path = Path(id: string, edges: seq<string>)

  datatype Row = Row(edgeId: string, kind: EdgeKind, from: string, to: string, removable: bool, paths: seq<string>)

  function ById(nodes: seq<Node>): map<string, Node> {
    if |nodes| == 0 then map[] else ById(nodes[..|nodes| - 1])[nodes[|nodes| - 1].id := nodes[|nodes| - 1]]
  }

  function EndLabel(nodes: map<string, Node>, id: string): string {
    if id in nodes then NodeLabel(nodes[id]) else id
  }

  /** One copy of `pathId` for each time `edgeId` occurs in `edges`. */
  function Repeats(pathId: string, edges: seq<string>, edgeId: string): seq<string> {
    if |edges| == 0 then []
    else
      Repeats(pathId, edges[..|edges| - 1], edgeId) + (if edges[|edges| - 1] == edgeId then [pathId] else [])
  }

  /** A naive scan of every path for one edge, in path order and with multiplicity. */
  function Scan(paths: seq<Path>, edgeId: string): seq<string> {
    if |paths| == 0 then []
    else
      var last := paths[|paths| - 1];
      Scan(paths[..|paths| - 1], edgeId) + Repeats(last.id, last.edges, edgeId)
  }

  /** One row, from the two maps. */
  function MakeRow(nodes: map<string, Node>, travelled: map<string, seq<string>>, e: Edge): Row {
    Row(e.id, e.kind, EndLabel(nodes, e.source), EndLabel(nodes, e.target), e.removable, Lookup(travelled, e.id))
  }

  function RowFor(g: Graph, paths: seq<Path>, e: Edge): Row {
    Row(e.id, e.kind, EndLabel(ById(g.nodes), e.source), EndLabel(ById(g.nodes), e.target), e.removable,
        Scan(paths, e.id))
  }

  function RowFun(g: Graph, paths: seq<Path>): Edge -> Row {
    (e: Edge) => RowFor(g, paths, e)
  }

  function TableOf(g: Graph, paths: seq<Path>): seq<Row> {
    Map(RowFun(g, paths), g.edges)
  }

  /** What the travelled map answers for an edge. */
  function Lookup(travelled: map<string, seq<string>>, edgeId: string): seq<string> {
    if edgeId in travelled then travelled[edgeId] else []
  }

  /** Adding a path under one edge changes what that edge answers and nothing else. */
  lemma LookupPushed(t: map<string, seq<string>>, edgeId: string, pathId: string, e: string)
    ensures Lookup(t[edgeId := Lookup(t, edgeId) + [pathId]], e) == Lookup(t, e) + if e == edgeId then [pathId] else []
  {
  }

  lemma RepeatsSnoc(pathId: string, edges: seq<string>, n: nat, e: string)
    requires n < |edges|
    ensures Repeats(pathId, edges[..n + 1], e)
            == Repeats(pathId, edges[..n], e) + if edges[n] == e then [pathId] else []
  {
    assert edges[..n + 1][..n] == edges[..n];
  }

  /** Add one path to the index. */
  method IndexPath(path: Path, before: map<string, seq<string>>) returns (travelled: map<string, seq<string>>)
    ensures forall e :: Lookup(travelled, e) == Lookup(before, e) + Repeats(path.id, path.edges, e)
  {
    travelled := before;
    for n := 0 to |path.edges|
      invariant forall e :: Lookup(travelled, e) == Lookup(before, e) + Repeats(path.id, path.edges[..n], e)
    {
      var edgeId := path.edges[n];
      ghost var was := travelled;
      if edgeId !in travelled {
        travelled := travelled[edgeId := [path.id]];
      } else {
        travelled := travelled[edgeId := travelled[edgeId] + [path.id]];
      }
      assert [] + [path.id] == [path.id];
      assert travelled == was[edgeId := Lookup(was, edgeId) + [path.id]];
      forall e
        ensures Lookup(travelled, e) == Lookup(before, e) + Repeats(path.id, path.edges[..n + 1], e)
      {
        LookupPushed(was, edgeId, path.id, e);
        RepeatsSnoc(path.id, path.edges, n, e);
        ConcatAssociative(
          Lookup(before, e), Repeats(path.id, path.edges[..n], e), if edgeId == e then [path.id] else []);
      }
    }
    assert path.edges[..|path.edges|] == path.edges;
  }

  method IndexPaths(paths: seq<Path>) returns (travelled: map<string, seq<string>>)
    ensures forall e :: Lookup(travelled, e) == Scan(paths, e)
  {
    travelled := map[];
    for k := 0 to |paths|
      invariant forall e :: Lookup(travelled, e) == Scan(paths[..k], e)
    {
      assert paths[..k + 1][..k] == paths[..k];
      travelled := IndexPath(paths[k], travelled);
    }
    assert paths[..|paths|] == paths;
  }

  /** One row per edge, in order; each row's paths are the naive scan for its edge. */
  method StructureRows(g: Graph, paths: seq<Path>) returns (rows: seq<Row>)
    ensures rows == TableOf(g, paths)
  {
    var nodesById := map[];
    for k := 0 to |g.nodes|
      invariant nodesById == ById(g.nodes[..k])
    {
      assert g.nodes[..k + 1][..k] == g.nodes[..k];
      nodesById := nodesById[g.nodes[k].id := g.nodes[k]];
    }
    assert g.nodes[..|g.nodes|] == g.nodes;
    var travelled := IndexPaths(paths);
    rows := [];
    for k := 0 to |g.edges|
      invariant rows == Map(RowFun(g, paths), g.edges[..k])
    {
      MapSnoc(RowFun(g, paths), g.edges, k);
      var row := MakeRow(nodesById, travelled, g.edges[k]);
      assert Lookup(travelled, g.edges[k].id) == Scan(paths, g.edges[k].id);
      rows := rows + [row];
    }
    assert g.edges[..|g.edges|] == g.edges;
  }

  // ----------------------------------------------------------------------- inverse index

  /** How often paths called `pathId` travel `edgeId`. */
  ghost function Travels(paths: seq<Path>, pathId: string, edgeId: string): nat {
    if |paths| == 0 then 0
    else
      var last := paths[|paths| - 1];
      Travels(paths[..|paths| - 1], pathId, edgeId) + if last.id == pathId then multiset(last.edges)[edgeId] else 0
  }

  lemma CountSnoc(s: seq<string>, x: string, y: string)
    ensures multiset(s + [x])[y] == multiset(s)[y] + if x == y then 1 else 0
  {
  }

  lemma {:induction false} RepeatsCount(pathId: string, edges: seq<string>, edgeId: string, p: string)
    ensures multiset(Repeats(pathId, edges, edgeId))[p] == if p == pathId then multiset(edges)[edgeId] else 0
  {
    if |edges| == 0 {
    } else {
      var rest, last := edges[..|edges| - 1], edges[|edges| - 1];
      RepeatsCount(pathId, rest, edgeId, p);
      assert edges == rest + [last];
      CountSnoc(rest, last, edgeId);
      if last == edgeId {
        CountSnoc(Repeats(pathId, rest, edgeId), pathId, p);
      } else {
        assert Repeats(pathId, rest, edgeId) + [] == Repeats(pathId, rest, edgeId);
      }
    }
  }

  /** The index inverts the paths: a path is listed under an edge exactly as often as it travels it. */
  lemma {:induction false} ScanInvertsPaths(paths: seq<Path>, edgeId: string, pathId: string)
    ensures multiset(Scan(paths, edgeId))[pathId] == Travels(paths, pathId, edgeId)
    ensures pathId in Scan(paths, edgeId) <==> exists p :: p in paths && p.id == pathId && edgeId in p.edges
  {
    if |paths| == 0 {
    } else {
      var rest, last := paths[..|paths| - 1], paths[|paths| - 1];
      assert paths == rest + [last];
      ScanInvertsPaths(rest, edgeId, pathId);
      RepeatsCount(last.id, last.edges, edgeId, pathId);
      var r := Repeats(last.id, last.edges, edgeId);
      assert pathId in r <==> multiset(r)[pathId] > 0;
      assert edgeId in last.edges <==> multiset(last.edges)[edgeId] > 0;
      if pathId in Scan(paths, edgeId) && pathId !in Scan(rest, edgeId) {
        assert last in paths;
      }
    }
  }

  /** Path order: the routes of an earlier part of the list come before those of a later part. */
  lemma {:induction false} ScanFollowsPathOrder(ps: seq<Path>, qs: seq<Path>, edgeId: string)
    ensures Scan(ps + qs, edgeId) == Scan(ps, edgeId) + Scan(qs, edgeId)
  {
    if |qs| == 0 {
      assert ps + qs == ps;
    } else {
      var rest, last, all := qs[..|qs| - 1], qs[|qs| - 1], ps + qs;
      assert all[..|all| - 1] == ps + rest && all[|all| - 1] == last;
      ScanFollowsPathOrder(ps, rest, edgeId);
      assert Scan(all, edgeId) == Scan(ps + rest, edgeId) + Repeats(last.id, last.edges, edgeId);
      ConcatAssociative(Scan(ps, edgeId), Scan(rest, edgeId), Repeats(last.id, last.edges, edgeId));
    }
  }

  lemma {:induction false} ByIdAt(nodes: seq<Node>, n: Node)
    requires UniqueNodeIds(nodes) && n in nodes
    ensures n.id in ById(nodes) && ById(nodes)[n.id] == n
  {
    var rest, last := nodes[..|nodes| - 1], nodes[|nodes| - 1];
    assert nodes == rest + [last];
    if n in rest {
      ByIdAt(rest, n);
      var i :| 0 <= i < |rest| && rest[i] == n;
      assert nodes[i].id != last.id;
    }
  }

  lemma {:induction false} ByIdKeys(nodes: seq<Node>)
    ensures ById(nodes).Keys == NodeIds(nodes)
  {
    if |nodes| == 0 {
      assert NodeIds(nodes) == {};
    } else {
      var rest, last := nodes[..|nodes| - 1], nodes[|nodes| - 1];
      ByIdKeys(rest);
      assert nodes == rest + [last];
      assert NodeIds(nodes) == NodeIds(rest) + {last.id};
    }
  }

  /** One row per edge, in the order of the edges, and each says of its edge what the edge says. */
  lemma RowsFollowEdges(g: Graph, paths: seq<Path>, k: nat)
    requires k < |g.edges|
    ensures |TableOf(g, paths)| == |g.edges|
    ensures var row := TableOf(g, paths)[k];
            && row.edgeId == g.edges[k].id && row.kind == g.edges[k].kind && row.removable == g.edges[k].removable
            && (g.edges[k].source !in NodeIds(g.nodes) ==> row.from == g.edges[k].source)
            && (g.edges[k].target !in NodeIds(g.nodes) ==> row.to == g.edges[k].target)
            && (forall n :: UniqueNodeIds(g.nodes) && n in g.nodes ==>
                  && (n.id == g.edges[k].source ==> row.from == NodeLabel(n))
                  && (n.id == g.edges[k].target ==> row.to == NodeLabel(n)))
  {
    ByIdKeys(g.nodes);
    if UniqueNodeIds(g.nodes) {
      forall n | n in g.nodes ensures n.id in ById(g.nodes) && ById(g.nodes)[n.id] == n {
        ByIdAt(g.nodes, n);
      }
    }
  }

  /**
   * The table inverts the paths: a row lists a path as often as that path travels the row's edge,
   * and the rows of more paths are those of the first with those of the others behind.
   */
  lemma RowsInvertPaths(g: Graph, ps: seq<Path>, qs: seq<Path>, k: nat, pathId: string)
    requires k < |g.edges|
    ensures multiset(TableOf(g, ps)[k].paths)[pathId] == Travels(ps, pathId, g.edges[k].id)
    ensures pathId in TableOf(g, ps)[k].paths
            <==> exists p :: p in ps && p.id == pathId && g.edges[k].id in p.edges
    ensures TableOf(g, ps + qs)[k].paths == TableOf(g, ps)[k].paths + TableOf(g, qs)[k].paths
  {
    ScanInvertsPaths(ps, g.edges[k].id, pathId);
    ScanFollowsPathOrder(ps, qs, g.edges[k].id);
  }

  /**
   * The picture and the table carry the same facts. The `k`-th drawn segment has a row: same edge,
   * same kind, and the row's two names are the labels of the two boxes the segment joins.
   */
  lemma DrawnEdgeHasRow(g: Graph, paths: seq<Path>, le: Layout.LaidOutEdge)
    returns (k: nat, from: Layout.LaidOutNode, to: Layout.LaidOutNode)
    requires UniqueIds(g) && le in Layout.LayoutOf(g).edges
    ensures k < |g.edges| && g.edges[k] == le.edge
    ensures from in Layout.LayoutOf(g).nodes && to in Layout.LayoutOf(g).nodes
    ensures le.x1 == from.x + Layout.NODE_WIDTH && 2 * (le.y1 - from.y) == Layout.NODE_HEIGHT
    ensures le.x2 == to.x && 2 * (le.y2 - to.y) == Layout.NODE_HEIGHT
    ensures var row := TableOf(g, paths)[k];
            && row.edgeId == le.edge.id && row.kind == le.edge.kind
            && row.from == NodeLabel(from.node) && row.to == NodeLabel(to.node)
  {
    from, to := Drawing.LineJoinsBoxes(g, le);
    k :| 0 <= k < |g.edges| && g.edges[k] == le.edge;
    Drawing.BoxesOnGrid(g, from);
    Drawing.BoxesOnGrid(g, to);
    RowsFollowEdges(g, paths, k);
  }
}
