/** When the depth of a group is its longest route from the subject, as the layout's comment says. */
module SubjectRoutes {
  import opened Options
  import opened ExplanationGraph
  import opened Relaxation
  import opened LayoutFacts

  /** The subject is the graph's one principal. */
  ghost predicate OnlySubject(g: Graph, p: Node) {
    p in g.nodes && p.kind.Principal? && forall n :: n in g.nodes && n.kind.Principal? ==> n == p
  }

  ghost predicate SubjectWalk(g: Graph, p: Node, w: seq<Edge>, v: string) {
    Walk(OrderedMembership(g), NodeIds(g.nodes), p.id, w, v)
  }

  /** The depth of `v` is the length of a membership walk from the subject, and no such walk is longer. */
  ghost predicate DepthIsLongestRoute(g: Graph, p: Node, v: string) {
    && v in FinalDepths(g)
    && (exists w :: SubjectWalk(g, p, w, v) && |w| == FinalDepths(g)[v])
    && (forall w :: SubjectWalk(g, p, w, v) ==> |w| <= FinalDepths(g)[v])
  }

  /** Some node of the graph is shown as a member of this one. */
  ghost predicate HasMember(g: Graph, n: Node) {
    exists e :: e in g.edges && IsMembership(e) && e.target == n.id && e.source in NodeIds(g.nodes)
  }

  lemma {:induction false} WalkPrepend(es: seq<Edge>, ids: set<string>, e: Edge, w: seq<Edge>, v: string)
    requires Walk(es, ids, e.target, w, v)
    requires e in es && e.source in ids && e.target in ids
    ensures Walk(es, ids, e.source, [e] + w, v)
    decreases |w|
  {
    if |w| == 0 {
      assert ([e] + w)[..0] == [];
    } else {
      WalkPrepend(es, ids, e, w[..|w| - 1], w[|w| - 1].source);
      assert ([e] + w)[..|w|] == [e] + w[..|w| - 1];
    }
  }

  lemma {:induction false} WalkConcat(
    es: seq<Edge>, ids: set<string>, s: string, u: seq<Edge>, t: string, w: seq<Edge>, v: string)
    requires Walk(es, ids, s, u, t) && Walk(es, ids, t, w, v)
    ensures Walk(es, ids, s, u + w, v)
    decreases |w|
  {
    if |w| == 0 {
      assert u + w == u;
    } else {
      WalkConcat(es, ids, s, u, t, w[..|w| - 1], w[|w| - 1].source);
      assert (u + w)[..|u + w| - 1] == u + w[..|w| - 1];
    }
  }

  /** A node on a cycle has no longest route: the cycle makes any route to it longer. */
  lemma CycleLengthens(g: Graph, p: Node, s: string, w: seq<Edge>)
    requires |w| > 0 && Walk(OrderedMembership(g), NodeIds(g.nodes), s, w, s)
    ensures !DepthIsLongestRoute(g, p, s)
  {
    if s in FinalDepths(g) {
      if u :| SubjectWalk(g, p, u, s) && |u| == FinalDepths(g)[s] {
        WalkConcat(OrderedMembership(g), NodeIds(g.nodes), p.id, u, s, w, s);
        assert SubjectWalk(g, p, u + w, s) && |u + w| > FinalDepths(g)[s];
      }
    }
  }

  /** So where every depth is a longest route there is no cycle. */
  lemma LongestRoutesAcyclic(g: Graph, p: Node)
    requires UniqueIds(g) && WellKinded(g)
    requires forall n :: n in g.nodes && IsTrusteeNode(n) ==> DepthIsLongestRoute(g, p, n.id)
    ensures AcyclicMembership(g)
  {
    var es, ids := OrderedMembership(g), NodeIds(g.nodes);
    forall s, w | |w| > 0 ensures !Walk(es, ids, s, w, s) {
      if Walk(es, ids, s, w, s) {
        var n := EndIsTrustee(g, s, w);
        CycleLengthens(g, p, s, w);
      }
    }
  }

  /** A walk of at least one step ends at a trustee. */
  lemma EndIsTrustee(g: Graph, s: string, w: seq<Edge>) returns (n: Node)
    requires WellKinded(g) && |w| > 0 && Walk(OrderedMembership(g), NodeIds(g.nodes), s, w, s)
    ensures n in g.nodes && n.id == s && IsTrusteeNode(n)
  {
    var e := w[|w| - 1];
    OrderedMembershipMembers(g, e);
    n :| n in g.nodes && n.id == e.target;
    MembershipEndsAtTrustee(g, e, n);
  }

  /**
   * The documented depth, the longest route from the subject, is what every group and assumed
   * trustee gets exactly when membership has no cycle and each of them is shown to have a member.
   */
  lemma DepthIsLongestRouteIff(g: Graph, p: Node)
    requires UniqueIds(g) && WellKinded(g) && OnlySubject(g, p)
    ensures (forall n :: n in g.nodes && IsTrusteeNode(n) ==> DepthIsLongestRoute(g, p, n.id))
            <==> AcyclicMembership(g) && (forall n :: n in g.nodes && IsTrusteeNode(n) ==> HasMember(g, n))
  {
    if AcyclicMembership(g) && forall n :: n in g.nodes && IsTrusteeNode(n) ==> HasMember(g, n) {
      forall n | n in g.nodes && IsTrusteeNode(n) ensures DepthIsLongestRoute(g, p, n.id) {
        RouteFromSubject(g, p, n);
      }
    }
    if forall n :: n in g.nodes && IsTrusteeNode(n) ==> DepthIsLongestRoute(g, p, n.id) {
      LongestRoutesAcyclic(g, p);
      forall n | n in g.nodes && IsTrusteeNode(n) ensures HasMember(g, n) {
        RouteHasMember(g, p, n);
      }
    }
  }

  /** A route from the subject to a trustee ends with a member of it. */
  lemma RouteHasMember(g: Graph, p: Node, n: Node)
    requires UniqueIds(g) && OnlySubject(g, p) && n in g.nodes && IsTrusteeNode(n)
    requires DepthIsLongestRoute(g, p, n.id)
    ensures HasMember(g, n)
  {
    var w :| SubjectWalk(g, p, w, n.id) && |w| == FinalDepths(g)[n.id];
    if |w| == 0 {
      OneNodePerId(g, n, p);
    } else {
      OrderedMembershipMembers(g, w[|w| - 1]);
    }
  }

  /** No walk from the subject is longer than the depth it leads to. */
  lemma RoutesCovered(g: Graph, p: Node, v: string)
    requires UniqueIds(g) && AcyclicMembership(g) && p in g.nodes
    ensures forall w :: SubjectWalk(g, p, w, v) ==> v in FinalDepths(g) && |w| <= FinalDepths(g)[v]
  {
    forall w | SubjectWalk(g, p, w, v) ensures v in FinalDepths(g) && |w| <= FinalDepths(g)[v] {
      AllWalksCovered(g, p.id, w, v);
    }
  }

  /** A walk that gives a trustee its depth starts at the subject once every trustee has a member. */
  lemma RouteFromSubject(g: Graph, p: Node, n: Node)
    requires UniqueIds(g) && WellKinded(g) && AcyclicMembership(g) && OnlySubject(g, p)
    requires n in g.nodes && IsTrusteeNode(n)
    requires forall m :: m in g.nodes && IsTrusteeNode(m) ==> HasMember(g, m)
    ensures DepthIsLongestRoute(g, p, n.id)
  {
    RoutesCovered(g, p, n.id);
    var m, w := DeepestWalk(g, n);
    var route := DeepestRoute(g, p, n, m, w);
    assert SubjectWalk(g, p, route, n.id);
  }

  /** The deepest walk to a trustee, led back to the subject. */
  lemma DeepestRoute(g: Graph, p: Node, n: Node, m: Node, w: seq<Edge>) returns (route: seq<Edge>)
    requires UniqueIds(g) && WellKinded(g) && AcyclicMembership(g) && OnlySubject(g, p)
    requires n in g.nodes && IsTrusteeNode(n) && m in g.nodes && (IsTrusteeNode(m) ==> HasMember(g, m))
    requires Walk(OrderedMembership(g), NodeIds(g.nodes), m.id, w, n.id)
    requires n.id in FinalDepths(g) && FinalDepths(g)[n.id] == InitialDepth(m) + |w|
    ensures SubjectWalk(g, p, route, n.id) && |route| == FinalDepths(g)[n.id]
  {
    if IsTrusteeNode(m) {
      var e := LongerRoute(g, p, m, w, n.id);
      route := [e] + w;
    } else {
      StartsAtSubject(g, p, m, w, n);
      route := w;
    }
  }

  /** A walk that gives a node its depth, and the node it starts at. */
  lemma DeepestWalk(g: Graph, n: Node) returns (m: Node, w: seq<Edge>)
    requires UniqueIds(g) && n in g.nodes
    ensures m in g.nodes && Walk(OrderedMembership(g), NodeIds(g.nodes), m.id, w, n.id)
    ensures n.id in FinalDepths(g) && FinalDepths(g)[n.id] == InitialDepth(m) + |w|
  {
    var es, d0 := OrderedMembership(g), InitialDepths(g.nodes);
    NodeKeepsDepth(g, n);
    NodeWalkDepth(g, n);
    var s;
    s, w :| Walk(es, d0.Keys, s, w, n.id) && s in d0 && FinalDepths(g)[n.id] == d0[s] + |w|;
    m :| m in g.nodes && m.id == s;
    InitialDepthsAt(g.nodes, m);
  }

  /** A walk that starts at a trustee and gives the depth it leads to goes on backwards to the subject. */
  lemma LongerRoute(g: Graph, p: Node, m: Node, w: seq<Edge>, v: string) returns (e: Edge)
    requires UniqueIds(g) && WellKinded(g) && AcyclicMembership(g) && OnlySubject(g, p)
    requires m in g.nodes && IsTrusteeNode(m) && HasMember(g, m)
    requires Walk(OrderedMembership(g), NodeIds(g.nodes), m.id, w, v)
    requires v in FinalDepths(g) && FinalDepths(g)[v] == 1 + |w|
    ensures SubjectWalk(g, p, [e] + w, v)
  {
    e :| e in g.edges && IsMembership(e) && e.target == m.id && e.source in NodeIds(g.nodes);
    var u :| u in g.nodes && u.id == e.source;
    assert KindsFit(e, u, m);
    OrderedMembershipMembers(g, e);
    WalkPrepend(OrderedMembership(g), NodeIds(g.nodes), e, w, v);
    AllWalksCovered(g, u.id, [e] + w, v);
    InitialDepthsAt(g.nodes, u);
  }

  /** A walk from a node that is not a trustee to one that is starts at the subject. */
  lemma StartsAtSubject(g: Graph, p: Node, m: Node, w: seq<Edge>, n: Node)
    requires UniqueIds(g) && WellKinded(g) && OnlySubject(g, p)
    requires m in g.nodes && !IsTrusteeNode(m) && n in g.nodes && IsTrusteeNode(n)
    requires Walk(OrderedMembership(g), NodeIds(g.nodes), m.id, w, n.id)
    ensures m == p
  {
    if |w| == 0 {
      OneNodePerId(g, m, n);
    } else {
      var e := FirstEdge(OrderedMembership(g), NodeIds(g.nodes), m.id, w, n.id);
      OrderedMembershipMembers(g, e);
      var t :| t in g.nodes && t.id == e.target;
      assert KindsFit(e, m, t);
    }
  }

  lemma {:induction false} FirstEdge(es: seq<Edge>, ids: set<string>, s: string, w: seq<Edge>, v: string)
    returns (e: Edge)
    requires Walk(es, ids, s, w, v) && |w| > 0
    ensures e == w[0] && e in es && e.source == s && e.source in ids && e.target in ids
    decreases |w|
  {
    if |w| == 1 {
      e := w[0];
      assert w[..0] == [];
    } else {
      e := FirstEdge(es, ids, s, w[..|w| - 1], w[|w| - 1].source);
    }
  }

  // ------------------------------------------------------------- where the promises fail

  const SUBJECT: Node := Node("p", Principal, "p", None, None, None)
  const GROUP_A: Node := Node("a", Group, "a", None, None, None)
  const GROUP_B: Node := Node("b", Group, "b", None, None, None)

  lemma NoMembershipIsAcyclic(g: Graph)
    requires forall e :: e in g.edges ==> !IsMembership(e)
    ensures AcyclicMembership(g)
  {
    forall s, w | |w| > 0 ensures !Walk(OrderedMembership(g), NodeIds(g.nodes), s, w, s) {
      if Walk(OrderedMembership(g), NodeIds(g.nodes), s, w, s) {
        OrderedMembershipMembers(g, w[|w| - 1]);
      }
    }
  }

  /** A group no one is shown to be a member of is one hop from a subject with no route to it. */
  lemma UnreachedGroupHasADepth(g: Graph)
    requires g == Graph([SUBJECT, GROUP_A], [])
    ensures UniqueIds(g) && WellKinded(g) && AcyclicMembership(g) && OnlySubject(g, SUBJECT)
    ensures GROUP_A.id in FinalDepths(g) && FinalDepths(g)[GROUP_A.id] >= 1
    ensures forall w :: !SubjectWalk(g, SUBJECT, w, GROUP_A.id)
  {
    assert g.nodes[0] == SUBJECT && g.nodes[1] == GROUP_A;
    assert GROUP_A in g.nodes;
    NoMembershipIsAcyclic(g);
    NodeKeepsDepth(g, GROUP_A);
    forall e ensures e !in OrderedMembership(g) {
      OrderedMembershipMembers(g, e);
    }
  }

  const A_IN_B: Edge := Edge("ab", Membership, "a", "b", true)
  const B_IN_A: Edge := Edge("ba", Membership, "b", "a", true)

  /** Two groups that are members of each other: some edge is drawn backwards. */
  lemma CyclePointsBackwards(g: Graph)
    requires g == Graph([GROUP_A, GROUP_B], [A_IN_B, B_IN_A])
    ensures UniqueIds(g) && WellKinded(g) && !AllForward(g)
  {
    var es, ids := OrderedMembership(g), NodeIds(g.nodes);
    assert g.nodes[0] == GROUP_A && g.nodes[1] == GROUP_B && g.edges[0] == A_IN_B && g.edges[1] == B_IN_A;
    assert GROUP_A in g.nodes && GROUP_B in g.nodes;
    OrderedMembershipMembers(g, A_IN_B);
    OrderedMembershipMembers(g, B_IN_A);
    assert Walk(es, ids, "a", [], "a");
    WalkPrepend(es, ids, B_IN_A, [], "a");
    WalkPrepend(es, ids, A_IN_B, [B_IN_A] + [], "a");
    ForwardIffAcyclic(g);
  }
}
