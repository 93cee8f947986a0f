/**
 * The depth loop of `layoutGraph`: Bellman-Ford relaxation for the longest membership walk, capped
 * at one pass per node.
 */
module Relaxation {
  import opened Seqs
  import opened Sorting
  import opened ExplanationGraph

  type Depths = map<string, nat>

  function InitialDepth(node: Node): nat {
    if node.kind.Principal? then 0 else if IsTrusteeNode(node) then 1 else 0
  }

  function InitialDepths(nodes: seq<Node>): Depths {
    if |nodes| == 0 then map[]
    else InitialDepths(nodes[..|nodes| - 1])[nodes[|nodes| - 1].id := InitialDepth(nodes[|nodes| - 1])]
  }

  /** The membership edges in the order they are relaxed: by id. */
  function OrderedMembership(g: Graph): seq<Edge> {
    SortBy(EdgeLess, Filter(IsMembership, g.edges))
  }

  function Relax(d: Depths, e: Edge): Depths {
    if e.source in d && e.target in d && d[e.target] < d[e.source] + 1 then d[e.target := d[e.source] + 1] else d
  }

  function Pass(d: Depths, es: seq<Edge>): Depths {
    if |es| == 0 then d else Relax(Pass(d, es[..|es| - 1]), es[|es| - 1])
  }

  function Passes(d: Depths, es: seq<Edge>, n: nat): Depths {
    if n == 0 then d else Pass(Passes(d, es, n - 1), es)
  }

  /** The depths the loop ends with. */
  function FinalDepths(g: Graph): Depths {
    Passes(InitialDepths(g.nodes), OrderedMembership(g), |g.nodes|)
  }

  /** One pass over the edges, in order, noting whether it moved anything. */
  method RelaxPass(before: Depths, ordered: seq<Edge>) returns (depth: Depths, moved: bool)
    ensures depth == Pass(before, ordered)
    ensures moved <==> depth != before
  {
    depth, moved := before, false;
    for k := 0 to |ordered|
      invariant depth == Pass(before, ordered[..k])
      invariant moved <==> depth != before
    {
      var edge := ordered[k];
      assert ordered[..k + 1][..k] == ordered[..k];
      PassRises(before, ordered[..k]);
      if edge.source in depth && edge.target in depth {
        if depth[edge.target] < depth[edge.source] + 1 {
          depth := depth[edge.target := depth[edge.source] + 1];
          moved := true;
        }
      }
    }
    assert ordered[..|ordered|] == ordered;
  }

  /** The loops of the source, early exit included, compute `FinalDepths`. */
  method ComputeDepths(g: Graph) returns (depth: Depths)
    ensures depth == FinalDepths(g)
  {
    depth := map[];
    for k := 0 to |g.nodes|
      invariant depth == InitialDepths(g.nodes[..k])
    {
      assert g.nodes[..k + 1][..k] == g.nodes[..k];
      depth := depth[g.nodes[k].id := InitialDepth(g.nodes[k])];
    }
    assert g.nodes[..|g.nodes|] == g.nodes;
    var ordered := SortBy(EdgeLess, Filter(IsMembership, g.edges));
    ghost var start := depth;
    var pass := 0;
    while pass < |g.nodes|
      invariant 0 <= pass <= |g.nodes|
      invariant depth == Passes(start, ordered, pass)
    {
      var moved;
      depth, moved := RelaxPass(depth, ordered);
      if !moved {
        PassesFixed(start, ordered, pass, |g.nodes|);
        return;
      }
      pass := pass + 1;
    }
  }

  /** `c` has the nodes of `d`, none of them shallower. */
  ghost predicate Rises(d: Depths, c: Depths) {
    c.Keys == d.Keys && forall v :: v in d ==> d[v] <= c[v]
  }

  lemma {:induction false} PassRises(d: Depths, es: seq<Edge>)
    ensures Rises(d, Pass(d, es))
  {
    if |es| == 0 {
    } else {
      PassRises(d, es[..|es| - 1]);
    }
  }

  lemma {:induction false} PassesRise(d: Depths, es: seq<Edge>, m: nat, n: nat)
    requires m <= n
    ensures Rises(Passes(d, es, m), Passes(d, es, n))
  {
    if m == n {
    } else {
      PassesRise(d, es, m, n - 1);
      PassRises(Passes(d, es, n - 1), es);
    }
  }

  /** Once a pass moves nothing, no later pass does. */
  lemma {:induction false} PassesFixed(d: Depths, es: seq<Edge>, m: nat, n: nat)
    requires m <= n && Pass(Passes(d, es, m), es) == Passes(d, es, m)
    ensures Passes(d, es, n) == Passes(d, es, m)
  {
    if m == n {
    } else {
      PassesFixed(d, es, m, n - 1);
    }
  }

  // ------------------------------------------------------------------------------ walks

  /** `w` leads from `s` to `v` along `es`, each end of each step a node of `ids`. */
  ghost predicate Walk(es: seq<Edge>, ids: set<string>, s: string, w: seq<Edge>, v: string)
    decreases |w|
  {
    if |w| == 0 then s == v && v in ids
    else
      var e := w[|w| - 1];
      && e in es && e.source in ids && e.target in ids && e.target == v
      && Walk(es, ids, s, w[..|w| - 1], e.source)
  }

  /** No walk of at least one step returns to where it started: no cycle and no self-loop. */
  ghost predicate Acyclic(es: seq<Edge>, ids: set<string>) {
    forall s, w :: |w| > 0 ==> !Walk(es, ids, s, w, s)
  }

  ghost predicate AcyclicMembership(g: Graph) {
    Acyclic(OrderedMembership(g), NodeIds(g.nodes))
  }

  lemma WalkExtend(es: seq<Edge>, ids: set<string>, s: string, w: seq<Edge>, e: Edge)
    requires Walk(es, ids, s, w, e.source)
    requires e in es && e.source in ids && e.target in ids
    ensures Walk(es, ids, s, w + [e], e.target)
  {
    assert (w + [e])[..|w|] == w;
  }

  lemma {:induction false} WalkEnds(es: seq<Edge>, ids: set<string>, s: string, w: seq<Edge>, v: string)
    requires Walk(es, ids, s, w, v)
    ensures s in ids && v in ids
    decreases |w|
  {
    if |w| == 0 {
    } else {
      WalkEnds(es, ids, s, w[..|w| - 1], w[|w| - 1].source);
    }
  }

  /** The nodes a walk from `s` visits. */
  ghost function Visited(s: string, w: seq<Edge>): set<string> {
    {s} + set e | e in w :: e.target
  }

  /** From any node a walk visits, the rest of the walk leads to its end. */
  lemma {:induction false} WalkRest(es: seq<Edge>, ids: set<string>, s: string, w: seq<Edge>, v: string, x: string)
    returns (rest: seq<Edge>)
    requires Walk(es, ids, s, w, v) && x in Visited(s, w)
    ensures Walk(es, ids, x, rest, v)
    decreases |w|
  {
    if x == v {
      WalkEnds(es, ids, s, w, v);
      rest := [];
    } else {
      var e := w[|w| - 1];
      assert w == w[..|w| - 1] + [e];
      rest := WalkRest(es, ids, s, w[..|w| - 1], e.source, x);
      WalkExtend(es, ids, x, rest, e);
      rest := rest + [e];
    }
  }

  /** Without a cycle a walk visits a new node at every step. */
  lemma {:induction false} AcyclicWalkIsShort(es: seq<Edge>, ids: set<string>, s: string, w: seq<Edge>, v: string)
    requires Acyclic(es, ids) && Walk(es, ids, s, w, v)
    ensures Visited(s, w) <= ids && |Visited(s, w)| == |w| + 1
    ensures |w| < |ids|
    decreases |w|
  {
    WalkEnds(es, ids, s, w, v);
    if |w| == 0 {
      assert Visited(s, w) == {s};
    } else {
      var u, e := w[..|w| - 1], w[|w| - 1];
      AcyclicWalkIsShort(es, ids, s, u, e.source);
      assert w == u + [e];
      assert Visited(s, w) == Visited(s, u) + {v};
      assert v !in Visited(s, u) by {
        if v in Visited(s, u) {
          var rest := WalkRest(es, ids, s, u, e.source, v);
          WalkExtend(es, ids, v, rest, e);
        }
      }
    }
    SubsetCardinality(Visited(s, w), ids);
  }

  lemma {:induction false} SubsetCardinality(a: set<string>, b: set<string>)
    requires a <= b
    ensures |a| <= |b|
  {
    if a == {} {
    } else {
      var x :| x in a;
      SubsetCardinality(a - {x}, b - {x});
    }
  }

  lemma {:induction false} NodeIdsCount(nodes: seq<Node>)
    ensures |NodeIds(nodes)| <= |nodes|
  {
    if |nodes| == 0 {
      assert NodeIds(nodes) == {};
    } else {
      var rest := nodes[..|nodes| - 1];
      NodeIdsCount(rest);
      assert nodes == rest + [nodes[|nodes| - 1]];
      assert NodeIds(nodes) == NodeIds(rest) + {nodes[|nodes| - 1].id};
    }
  }

  lemma {:induction false} InitialDepthsKeys(nodes: seq<Node>)
    ensures InitialDepths(nodes).Keys == NodeIds(nodes)
    ensures forall v :: v in InitialDepths(nodes) ==> InitialDepths(nodes)[v] <= 1
  {
    if |nodes| == 0 {
    } else {
      var rest := nodes[..|nodes| - 1];
      InitialDepthsKeys(rest);
      assert nodes == rest + [nodes[|nodes| - 1]];
      assert NodeIds(nodes) == NodeIds(rest) + {nodes[|nodes| - 1].id};
    }
  }

  lemma {:induction false} InitialDepthsAt(nodes: seq<Node>, n: Node)
    requires UniqueNodeIds(nodes) && n in nodes
    ensures n.id in InitialDepths(nodes) && InitialDepths(nodes)[n.id] == InitialDepth(n)
  {
    var last := nodes[|nodes| - 1];
    var rest := nodes[..|nodes| - 1];
    assert nodes == rest + [last];
    if n in rest {
      InitialDepthsAt(rest, n);
      var i :| 0 <= i < |rest| && rest[i] == n;
      assert nodes[i].id != last.id;
    }
  }

  // ------------------------------------------------------------- what the loop preserves

  /** `n` is the initial depth of some node plus the length of a walk from it to `v`. */
  ghost predicate IsWalkDepth(es: seq<Edge>, d0: Depths, v: string, n: nat) {
    exists s, w :: Walk(es, d0.Keys, s, w, v) && s in d0 && n == d0[s] + |w|
  }

  ghost predicate Witnessed(es: seq<Edge>, d0: Depths, d: Depths) {
    d.Keys == d0.Keys && forall v {:trigger d[v]} :: v in d ==> IsWalkDepth(es, d0, v, d[v])
  }

  lemma WitnessStart(es: seq<Edge>, d: Depths)
    ensures Witnessed(es, d, d)
  {
    forall v | v in d ensures IsWalkDepth(es, d, v, d[v]) {
      assert Walk(es, d.Keys, v, [], v);
    }
  }

  lemma WalkDepthExtend(es: seq<Edge>, d0: Depths, e: Edge, n: nat)
    requires IsWalkDepth(es, d0, e.source, n)
    requires e in es && e.source in d0 && e.target in d0
    ensures IsWalkDepth(es, d0, e.target, n + 1)
  {
    var s, w :| Walk(es, d0.Keys, s, w, e.source) && s in d0 && n == d0[s] + |w|;
    WalkExtend(es, d0.Keys, s, w, e);
    assert n + 1 == d0[s] + |w + [e]|;
  }

  /** A walk depth is a start or one step past the walk depth of the last edge's source. */
  lemma LastStep(es: seq<Edge>, d0: Depths, v: string, n: nat) returns (e: Edge)
    requires IsWalkDepth(es, d0, v, n) && v in d0 && n != d0[v]
    ensures e in es && e.target == v && e.source in d0
    ensures n >= 1 && IsWalkDepth(es, d0, e.source, n - 1)
  {
    var s, w :| Walk(es, d0.Keys, s, w, v) && s in d0 && n == d0[s] + |w|;
    e := w[|w| - 1];
    assert n - 1 == d0[s] + |w[..|w| - 1]|;
  }

  lemma RelaxKeys(d: Depths, e: Edge)
    ensures Relax(d, e).Keys == d.Keys
    ensures forall v :: v in d ==>
              || Relax(d, e)[v] == d[v]
              || (v == e.target && e.source in d && Relax(d, e)[v] == d[e.source] + 1)
  {
  }

  lemma WitnessRelaxAt(es: seq<Edge>, d0: Depths, d: Depths, e: Edge, v: string)
    requires e in es && d.Keys == d0.Keys && v in d
    requires IsWalkDepth(es, d0, v, d[v])
    requires e.source in d ==> IsWalkDepth(es, d0, e.source, d[e.source])
    ensures v in Relax(d, e) && IsWalkDepth(es, d0, v, Relax(d, e)[v])
  {
    RelaxKeys(d, e);
    if Relax(d, e)[v] != d[v] {
      WalkDepthExtend(es, d0, e, d[e.source]);
    }
  }

  lemma WitnessRelax(es: seq<Edge>, d0: Depths, d: Depths, e: Edge)
    requires Witnessed(es, d0, d) && e in es
    ensures Witnessed(es, d0, Relax(d, e))
  {
    RelaxKeys(d, e);
    forall v | v in d ensures IsWalkDepth(es, d0, v, Relax(d, e)[v]) {
      WitnessRelaxAt(es, d0, d, e, v);
    }
  }

  lemma WitnessLast(es: seq<Edge>, d0: Depths, d: Depths, k: nat)
    requires k < |es| && Witnessed(es, d0, Pass(d, es[..k]))
    ensures Witnessed(es, d0, Pass(d, es[..k + 1]))
  {
    assert es[..k + 1][..k] == es[..k];
    WitnessRelax(es, d0, Pass(d, es[..k]), es[k]);
  }

  lemma {:induction false} WitnessPass(es: seq<Edge>, d0: Depths, d: Depths, k: nat)
    requires Witnessed(es, d0, d) && k <= |es|
    ensures Witnessed(es, d0, Pass(d, es[..k]))
  {
    if k == 0 {
    } else {
      WitnessPass(es, d0, d, k - 1);
      WitnessLast(es, d0, d, k - 1);
    }
  }

  lemma {:induction false} WitnessPasses(es: seq<Edge>, d0: Depths, n: nat)
    ensures Witnessed(es, d0, Passes(d0, es, n))
  {
    if n == 0 {
      WitnessStart(es, d0);
    } else {
      WitnessPasses(es, d0, n - 1);
      WitnessPass(es, d0, Passes(d0, es, n - 1), |es|);
      assert es[..|es|] == es;
    }
  }

  /** One pass leaves the target of every edge deeper than its source was. */
  lemma {:induction false} PassLifts(d: Depths, es: seq<Edge>, e: Edge)
    requires e in es && e.source in d && e.target in d
    ensures Pass(d, es).Keys == d.Keys && Pass(d, es)[e.target] >= d[e.source] + 1
  {
    var rest, last := es[..|es| - 1], es[|es| - 1];
    assert es == rest + [last];
    PassRises(d, es);
    PassRises(d, rest);
    if e in rest {
      PassLifts(d, rest, e);
    }
  }

  /** After `n` passes every walk of at most `n` steps has been paid for. */
  lemma {:induction false} PassesCover(es: seq<Edge>, d0: Depths, s: string, w: seq<Edge>, v: string, n: nat)
    requires Walk(es, d0.Keys, s, w, v) && |w| <= n
    ensures s in d0 && v in Passes(d0, es, n) && Passes(d0, es, n)[v] >= d0[s] + |w|
    decreases |w|
  {
    WalkEnds(es, d0.Keys, s, w, v);
    if |w| == 0 {
      PassesRise(d0, es, 0, n);
    } else {
      var e := w[|w| - 1];
      PassesCover(es, d0, s, w[..|w| - 1], e.source, n - 1);
      PassesRise(d0, es, 0, n - 1);
      PassLifts(Passes(d0, es, n - 1), es, e);
    }
  }

  // ----------------------------------------------------------------------- fixed points

  /** No edge can be relaxed any further. */
  ghost predicate Settled(es: seq<Edge>, d: Depths) {
    forall e :: e in es && e.source in d && e.target in d ==> d[e.target] >= d[e.source] + 1
  }

  lemma SettledPass(es: seq<Edge>, d: Depths)
    ensures Settled(es, d) <==> Pass(d, es) == d
  {
    if Pass(d, es) == d {
      forall e | e in es && e.source in d && e.target in d ensures d[e.target] >= d[e.source] + 1 {
        PassLifts(d, es, e);
      }
    }
    if Settled(es, d) {
      SettledStays(es, d, |es|);
      assert es[..|es|] == es;
    }
  }

  lemma {:induction false} SettledStays(es: seq<Edge>, d: Depths, k: nat)
    requires Settled(es, d) && k <= |es|
    ensures Pass(d, es[..k]) == d
  {
    if k == 0 {
    } else {
      SettledStays(es, d, k - 1);
      assert es[..k][..k - 1] == es[..k - 1];
      assert es[k - 1] in es;
    }
  }

  lemma {:induction false} SettledWalk(es: seq<Edge>, d: Depths, s: string, w: seq<Edge>, v: string)
    requires Settled(es, d) && Walk(es, d.Keys, s, w, v)
    ensures s in d && v in d && d[v] >= d[s] + |w|
    decreases |w|
  {
    WalkEnds(es, d.Keys, s, w, v);
    if |w| == 0 {
    } else {
      SettledWalk(es, d, s, w[..|w| - 1], w[|w| - 1].source);
    }
  }

  // ----------------------------------------------------------------------- main results

  /**
   * On any graph, cycles and self-loops included: no node ends shallower than it began, and every
   * final depth is the length of an actual membership walk from some node's initial depth.
   */
  lemma DepthsAreWalks(g: Graph)
    ensures FinalDepths(g).Keys == NodeIds(g.nodes)
    ensures Rises(InitialDepths(g.nodes), FinalDepths(g))
    ensures Witnessed(OrderedMembership(g), InitialDepths(g.nodes), FinalDepths(g))
  {
    InitialDepthsKeys(g.nodes);
    PassesRise(InitialDepths(g.nodes), OrderedMembership(g), 0, |g.nodes|);
    WitnessPasses(OrderedMembership(g), InitialDepths(g.nodes), |g.nodes|);
  }

  /** On any graph the cap bounds every depth: passes times edges, plus the deepest start. */
  lemma DepthsAreBounded(g: Graph, v: string)
    requires v in FinalDepths(g)
    ensures FinalDepths(g)[v] <= 1 + |g.nodes| * |OrderedMembership(g)|
  {
    InitialDepthsKeys(g.nodes);
    PassesBound(InitialDepths(g.nodes), OrderedMembership(g), 1, |g.nodes|);
  }

  ghost predicate Below(d: Depths, bound: nat) {
    forall v :: v in d ==> d[v] <= bound
  }

  lemma {:induction false} PassBound(d: Depths, es: seq<Edge>, bound: nat)
    requires Below(d, bound)
    ensures Below(Pass(d, es), bound + |es|)
  {
    if |es| == 0 {
    } else {
      PassBound(d, es[..|es| - 1], bound);
    }
  }

  lemma {:induction false} PassesBound(d: Depths, es: seq<Edge>, bound: nat, n: nat)
    requires Below(d, bound)
    ensures Below(Passes(d, es, n), bound + n * |es|)
  {
    if n == 0 {
    } else {
      PassesBound(d, es, bound, n - 1);
      PassBound(Passes(d, es, n - 1), es, bound + (n - 1) * |es|);
    }
  }

  /**
   * Exactly on the graphs without a membership cycle the capped loop ends at a fixed point: one
   * more pass would move nothing.
   */
  lemma SettlesIffAcyclic(g: Graph)
    ensures Pass(FinalDepths(g), OrderedMembership(g)) == FinalDepths(g) <==> AcyclicMembership(g)
  {
    var es, d0, d := OrderedMembership(g), InitialDepths(g.nodes), FinalDepths(g);
    InitialDepthsKeys(g.nodes);
    DepthsAreWalks(g);
    SettledPass(es, d);
    if Settled(es, d) {
      forall s, w | |w| > 0 ensures !Walk(es, d0.Keys, s, w, s) {
        if Walk(es, d0.Keys, s, w, s) {
          SettledWalk(es, d, s, w, s);
        }
      }
    }
    if AcyclicMembership(g) {
      forall e | e in es && e.source in d && e.target in d ensures d[e.target] >= d[e.source] + 1 {
        AcyclicEdgeRises(g, e);
      }
    }
  }

  /** Without a cycle every membership edge leads to a strictly deeper node. */
  lemma AcyclicEdgeRises(g: Graph, e: Edge)
    requires AcyclicMembership(g) && e in OrderedMembership(g)
    requires e.source in FinalDepths(g) && e.target in FinalDepths(g)
    ensures FinalDepths(g)[e.target] >= FinalDepths(g)[e.source] + 1
  {
    DepthsAreWalks(g);
    InitialDepthsKeys(g.nodes);
    WalkDepthExtend(OrderedMembership(g), InitialDepths(g.nodes), e, FinalDepths(g)[e.source]);
    WalkDepthCovered(g, e.target, FinalDepths(g)[e.source] + 1);
  }

  lemma WalkDepthCovered(g: Graph, v: string, n: nat)
    requires AcyclicMembership(g)
    requires IsWalkDepth(OrderedMembership(g), InitialDepths(g.nodes), v, n)
    ensures v in FinalDepths(g) && n <= FinalDepths(g)[v]
  {
    var es, d0 := OrderedMembership(g), InitialDepths(g.nodes);
    InitialDepthsKeys(g.nodes);
    var s, w :| Walk(es, d0.Keys, s, w, v) && s in d0 && n == d0[s] + |w|;
    AllWalksCovered(g, s, w, v);
  }

  /** Without a cycle one pass per node pays for every walk there is. */
  lemma AllWalksCovered(g: Graph, s: string, w: seq<Edge>, v: string)
    requires AcyclicMembership(g)
    requires Walk(OrderedMembership(g), NodeIds(g.nodes), s, w, v)
    ensures s in InitialDepths(g.nodes) && v in FinalDepths(g)
    ensures FinalDepths(g)[v] >= InitialDepths(g.nodes)[s] + |w|
  {
    InitialDepthsKeys(g.nodes);
    NodeIdsCount(g.nodes);
    AcyclicWalkIsShort(OrderedMembership(g), NodeIds(g.nodes), s, w, v);
    PassesCover(OrderedMembership(g), InitialDepths(g.nodes), s, w, v, |g.nodes|);
  }

  /**
   * The longest route: without a cycle a node's depth is the maximum, over every membership walk
   * that ends at it, of the initial depth at the start plus the number of steps.
   */
  lemma DepthIsLongestWalk(g: Graph, v: string)
    requires AcyclicMembership(g) && v in NodeIds(g.nodes)
    ensures v in FinalDepths(g)
    ensures IsWalkDepth(OrderedMembership(g), InitialDepths(g.nodes), v, FinalDepths(g)[v])
    ensures forall s, w :: Walk(OrderedMembership(g), NodeIds(g.nodes), s, w, v) ==>
              && s in InitialDepths(g.nodes)
              && InitialDepths(g.nodes)[s] + |w| <= FinalDepths(g)[v]
  {
    InitialDepthsKeys(g.nodes);
    DepthsAreWalks(g);
    forall s, w | Walk(OrderedMembership(g), NodeIds(g.nodes), s, w, v)
      ensures s in InitialDepths(g.nodes) && InitialDepths(g.nodes)[s] + |w| <= FinalDepths(g)[v]
    {
      AllWalksCovered(g, s, w, v);
    }
  }

  // -------------------------------------------------------------------- order of the input

  lemma OrderedMembershipMembers(g: Graph, e: Edge)
    ensures e in OrderedMembership(g) <==> e in g.edges && IsMembership(e)
  {
    SortMembers(EdgeLess, Filter(IsMembership, g.edges));
  }

  lemma InitialDepthsPermute(s: seq<Node>, t: seq<Node>)
    requires UniqueNodeIds(s) && multiset(s) == multiset(t)
    ensures InitialDepths(s) == InitialDepths(t)
  {
    PermutationMembers(s, t);
    UniqueNodeIdsPermute(s, t);
    InitialDepthsKeys(s);
    InitialDepthsKeys(t);
    assert NodeIds(s) == NodeIds(t);
    forall v | v in NodeIds(s) ensures InitialDepths(s)[v] == InitialDepths(t)[v] {
      var n :| n in s && n.id == v;
      InitialDepthsAt(s, n);
      InitialDepthsAt(t, n);
    }
  }

  /** The depths do not depend on the order the response listed its nodes and edges in. */
  lemma DepthsForgetOrder(g: Graph, h: Graph)
    requires UniqueIds(g) && SameGraph(g, h)
    ensures FinalDepths(g) == FinalDepths(h)
    ensures OrderedMembership(g) == OrderedMembership(h)
  {
    PermutationMembers(g.nodes, h.nodes);
    InitialDepthsPermute(g.nodes, h.nodes);
    FilterPermutation(IsMembership, g.edges, h.edges);
    UniqueEdgeIdsFilter(IsMembership, g.edges);
    EdgeLessTotal(Filter(IsMembership, g.edges));
    SortForgetsOrder(EdgeLess, Filter(IsMembership, g.edges), Filter(IsMembership, h.edges));
  }
}
