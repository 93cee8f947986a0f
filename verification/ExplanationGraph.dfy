/** The nodes and edges of an access explanation, and what a well-formed graph is. */
module ExplanationGraph {
  import opened Options
  import opened Seqs
  import opened Sorting
  import opened Text

  datatype NodeKind = Principal | Group | AssumedTrustee | NtfsAce | SmbAce | Resource | Share

  datatype EdgeKind = Membership | AssumedMembership | Trustee | Grant | Deny | Ownership

  datatype Node = Node(
    id: string,
    kind: NodeKind,
    key: string,
    sid: Option<string>,
    displayName: Option<string>,
    position: Option<nat>)

  datatype Edge = Edge(id: string, kind: EdgeKind, source: string, target: string, removable: bool)

  datatype Graph = Graph(nodes: seq<Node>, edges: seq<Edge>)

  predicate IsTrusteeNode(node: Node) {
    node.kind.Group? || node.kind.AssumedTrustee?
  }

  predicate IsAceNode(node: Node) {
    node.kind.NtfsAce? || node.kind.SmbAce?
  }

  predicate IsObjectNode(node: Node) {
    node.kind.Resource? || node.kind.Share?
  }

  predicate IsMembership(edge: Edge) {
    edge.kind.Membership? || edge.kind.AssumedMembership?
  }

  function WellKnownName(sid: Option<string>): Option<string> {
    if sid == Some("S-1-1-0") then Some("Everyone")
    else if sid == Some("S-1-5-11") then Some("Authenticated Users")
    else if sid == Some("S-1-5-2") then Some("Network")
    else None
  }

  function NodeLabel(node: Node): string {
    match node.kind
    case NtfsAce => "NTFS entry #" + Decimal(node.position.GetOr(0))
    case SmbAce => "Share entry #" + Decimal(node.position.GetOr(0))
    case Resource => node.displayName.GetOr(node.key)
    case Share => node.displayName.GetOr(node.key)
    case AssumedTrustee => node.displayName.GetOr(WellKnownName(node.sid).GetOr(node.key))
    case _ => node.displayName.GetOr(node.sid.GetOr(node.key))
  }

  /** The order within a column: label, then id. */
  predicate NodeLess(a: Node, b: Node) {
    if NodeLabel(a) != NodeLabel(b) then StringLess(NodeLabel(a), NodeLabel(b))
    else StringLess(a.id, b.id)
  }

  predicate EdgeLess(a: Edge, b: Edge) {
    StringLess(a.id, b.id)
  }

  ghost predicate UniqueNodeIds(nodes: seq<Node>) {
    forall i, j :: 0 <= i < j < |nodes| ==> nodes[i].id != nodes[j].id
  }

  ghost predicate UniqueEdgeIds(edges: seq<Edge>) {
    forall i, j :: 0 <= i < j < |edges| ==> edges[i].id != edges[j].id
  }

  ghost predicate UniqueIds(g: Graph) {
    UniqueNodeIds(g.nodes) && UniqueEdgeIds(g.edges)
  }

  /** The same facts in whatever order the response listed them. */
  ghost predicate SameGraph(g: Graph, h: Graph) {
    multiset(g.nodes) == multiset(h.nodes) && multiset(g.edges) == multiset(h.edges)
  }

  ghost function NodeIds(nodes: seq<Node>): set<string> {
    set n | n in nodes :: n.id
  }

  /** The kinds of node an edge of each kind may run between. */
  predicate KindsFit(edge: Edge, source: Node, target: Node) {
    match edge.kind
    case Membership => (source.kind.Principal? || IsTrusteeNode(source)) && IsTrusteeNode(target)
    case AssumedMembership => (source.kind.Principal? || IsTrusteeNode(source)) && IsTrusteeNode(target)
    case Trustee => (source.kind.Principal? || IsTrusteeNode(source)) && IsAceNode(target)
    case Grant => IsAceNode(source) && IsObjectNode(target)
    case Deny => IsAceNode(source) && IsObjectNode(target)
    case Ownership => (source.kind.Principal? || IsTrusteeNode(source)) && IsObjectNode(target)
  }

  /** Every edge whose two ends are in the graph joins the kinds its own kind says. */
  ghost predicate WellKinded(g: Graph) {
    forall e, s, t ::
      e in g.edges && s in g.nodes && t in g.nodes && e.source == s.id && e.target == t.id
      ==> KindsFit(e, s, t)
  }

  lemma NodeLessTotal(nodes: seq<Node>)
    requires UniqueNodeIds(nodes)
    ensures TotalOrder(NodeLess, Members(nodes))
  {
    forall a, b | a in Members(nodes) && b in Members(nodes) && NodeLess(a, b) ensures !NodeLess(b, a) {
      if NodeLabel(a) != NodeLabel(b) {
        StringLessAsymmetric(NodeLabel(a), NodeLabel(b));
      } else {
        StringLessAsymmetric(a.id, b.id);
      }
    }
    forall a, b, c | a in Members(nodes) && b in Members(nodes) && c in Members(nodes) && NodeLess(a, c)
      ensures NodeLess(a, b) || NodeLess(b, c)
    {
      NodeLessNegTransitive(a, b, c);
    }
    forall a, b | a in Members(nodes) && b in Members(nodes) && a != b
      ensures NodeLess(a, b) || NodeLess(b, a)
    {
      if NodeLabel(a) != NodeLabel(b) {
        StringLessTotal(NodeLabel(a), NodeLabel(b));
      } else {
        StringLessTotal(a.id, b.id);
      }
    }
  }

  lemma StringLessNegTransitive(a: string, b: string, c: string)
    requires StringLess(a, c)
    ensures StringLess(a, b) || StringLess(b, c)
  {
    if a != b && !StringLess(a, b) {
      StringLessTotal(a, b);
      StringLessTransitive(b, a, c);
    }
  }

  lemma NodeLessNegTransitive(a: Node, b: Node, c: Node)
    requires NodeLess(a, c)
    ensures NodeLess(a, b) || NodeLess(b, c)
  {
    var x, y, z := NodeLabel(a), NodeLabel(b), NodeLabel(c);
    if x != z {
      StringLessNegTransitive(x, y, z);
    } else if x == y {
      StringLessNegTransitive(a.id, b.id, c.id);
    } else {
      StringLessTotal(x, y);
    }
  }

  lemma EdgeLessTotal(edges: seq<Edge>)
    requires UniqueEdgeIds(edges)
    ensures TotalOrder(EdgeLess, Members(edges))
  {
    forall a, b | a in Members(edges) && b in Members(edges) && EdgeLess(a, b) ensures !EdgeLess(b, a) {
      StringLessAsymmetric(a.id, b.id);
    }
    forall a, b, c | a in Members(edges) && b in Members(edges) && c in Members(edges) && EdgeLess(a, c)
      ensures EdgeLess(a, b) || EdgeLess(b, c)
    {
      StringLessNegTransitive(a.id, b.id, c.id);
    }
    forall a, b | a in Members(edges) && b in Members(edges) && a != b
      ensures EdgeLess(a, b) || EdgeLess(b, a)
    {
      StringLessTotal(a.id, b.id);
    }
  }

  /** Unique ids survive permutation. */
  lemma UniqueNodeIdsPermute(s: seq<Node>, t: seq<Node>)
    requires UniqueNodeIds(s) && multiset(s) == multiset(t)
    ensures UniqueNodeIds(t)
  {
    PermutationMembers(s, t);
    forall x | x in t ensures multiset(t)[x] == 1 {
      DistinctMultiset(s, x);
    }
    DistinctFromMultiset(t);
    forall i, j | 0 <= i < j < |t| ensures t[i].id != t[j].id {
      assert t[i] in s && t[j] in s;
    }
  }

  lemma {:induction false} UniqueEdgeIdsFilter(keep: Edge -> bool, s: seq<Edge>)
    requires UniqueEdgeIds(s)
    ensures UniqueEdgeIds(Filter(keep, s))
  {
    if |s| == 0 {
    } else {
      UniqueEdgeIdsFilter(keep, s[1..]);
      forall e | e in Filter(keep, s[1..]) ensures e.id != s[0].id {
        var i :| 0 <= i < |s[1..]| && s[1..][i] == e;
        assert s[i + 1] == e;
      }
    }
  }
}
