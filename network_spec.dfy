/**
 * The interaction network as a value: the state of the underlying directed graph (nodes in
 * insertion order, successors in insertion order, one kind per ordered pair, an optional
 * feature per node), the edge list in enumeration order, the neighbour lists read off it, and
 * the rules and constraints the compiler derives for each node.
 */
module NetworkSpec {
  import opened Wrappers
  import opened Seqs
  import opened Interactions

  datatype EdgeKind = Predation | SecondaryPredation | Competition | Mutualism

  datatype Edge = Edge(src: string, tgt: string, kind: EdgeKind)

  /** Nodes in insertion order, each node's successors in insertion order, the kind of every edge, node features. */
  datatype Graph = Graph(
    nodes: seq<string>,
    succ: map<string, seq<string>>,
    kind: map<(string, string), EdgeKind>,
    feature: map<string, string>)

  const EmptyGraph := Graph([], map[], map[], map[])

  /** What the graph maintains: distinct nodes, one successor list per node, edges between nodes, all typed. */
  ghost predicate Valid(g: Graph)
  {
    NoDup(g.nodes) && SuccOfNodes(g) && EdgesTyped(g) && (forall n :: n in g.feature ==> n in g.nodes)
  }

  ghost predicate SuccOfNodes(g: Graph)
  {
    (forall n :: n in g.succ <==> n in g.nodes) && (forall u :: u in g.succ ==> NoDup(g.succ[u]))
  }

  ghost predicate EdgesTyped(g: Graph)
  {
    forall u, v :: u in g.succ && v in g.succ[u] ==> v in g.nodes && (u, v) in g.kind
  }

  /** Whether the graph has the edge u -> v, of kind k. */
  predicate HasEdge(g: Graph, u: string, v: string, k: EdgeKind)
  {
    u in g.succ && v in g.succ[u] && (u, v) in g.kind && g.kind[(u, v)] == k
  }

  /** A node is added at the end, once. */
  function AddNode(g: Graph, n: string): (r: Graph)
    ensures r.kind == g.kind && r.feature == g.feature
  {
    if n in g.nodes then g else g.(nodes := g.nodes + [n], succ := g.succ[n := []])
  }

  /** add_node with a `feature` attribute: the node is added if missing and its feature set. */
  function AddFeature(g: Graph, n: string, feature: string): Graph
  {
    var g' := AddNode(g, n);
    g'.(feature := g'.feature[n := feature])
  }

  /**
   * add_edge(u, v, kind=k): u then v are added as nodes if missing; v joins u's successors
   * unless already there; the kind of u -> v is set, overwriting any earlier one.
   */
  function AddEdge(g: Graph, u: string, v: string, k: EdgeKind): Graph
  {
    var g' := AddNode(AddNode(g, u), v);
    var out := if u in g'.succ then g'.succ[u] else [];
    g'.(succ := g'.succ[u := Joined(out, v)], kind := g'.kind[(u, v) := k])
  }

  /** add_edges_from over the pairs (u, v) for v in vs, all of kind k, in order. */
  function AddEdges(g: Graph, u: string, vs: seq<string>, k: EdgeKind): Graph
  {
    if vs == [] then g else AddEdge(AddEdges(g, u, vs[..|vs| - 1], k), u, vs[|vs| - 1], k)
  }

  /** add_edges_from over one more target is one more add_edge. */
  lemma AddEdgesSnoc(g: Graph, u: string, vs: seq<string>, i: nat, k: EdgeKind)
    requires i < |vs|
    ensures AddEdges(g, u, vs[..i + 1], k) == AddEdge(AddEdges(g, u, vs[..i], k), u, vs[i], k)
  {
    assert vs[..i + 1][..i] == vs[..i];
  }

  lemma AddNodeValid(g: Graph, n: string)
    requires Valid(g)
    ensures Valid(AddNode(g, n))
    ensures AddNode(g, n).nodes == g.nodes + (if n in g.nodes then [] else [n])
    ensures forall m :: m in g.succ ==> m in AddNode(g, n).succ && AddNode(g, n).succ[m] == g.succ[m]
    ensures n in AddNode(g, n).succ
  {
    if n !in g.nodes {
      var r := AddNode(g, n);
      forall i, j | 0 <= i < j < |r.nodes|
        ensures r.nodes[i] != r.nodes[j]
      {
        if j == |g.nodes| {
          assert r.nodes[i] == g.nodes[i];
        }
      }
    }
  }

  /** The successor list of u once v has joined it: unchanged if v is already there. */
  function Joined(out: seq<string>, v: string): (r: seq<string>)
    ensures forall y :: y in r <==> y in out || y == v
  {
    if v in out then out else out + [v]
  }

  lemma JoinedNoDup(out: seq<string>, v: string)
    requires NoDup(out)
    ensures NoDup(Joined(out, v))
  {
    if v !in out {
      forall i, j | 0 <= i < j < |out + [v]|
        ensures (out + [v])[i] != (out + [v])[j]
      {
        if j == |out| {
          assert (out + [v])[i] == out[i];
        }
      }
    }
  }

  /** add_edge is adding both ends as nodes, then joining v to u's successors and setting the kind. */
  lemma AddEdgeShape(g: Graph, u: string, v: string, k: EdgeKind)
    requires Valid(g)
    ensures var g2 := AddNode(AddNode(g, u), v);
      && Valid(g2) && g.nodes <= g2.nodes && u in g2.succ && v in g2.nodes
      && (forall m :: m in g.succ ==> m in g2.succ && g2.succ[m] == g.succ[m])
      && AddEdge(g, u, v, k) == JoinEdge(g2, u, v, k)
  {
    AddNodeValid(g, u);
    AddNodeValid(AddNode(g, u), v);
  }

  lemma SuccessorIsNode(g: Graph, x: string, y: string)
    requires Valid(g) && x in g.succ && y in g.succ[x]
    ensures y in g.nodes && (x, y) in g.kind
  {}

  lemma AddEdgeTyped(g: Graph, u: string, v: string, k: EdgeKind)
    requires Valid(g)
    ensures EdgesTyped(AddEdge(g, u, v, k))
  {
    AddEdgeShape(g, u, v, k);
    JoinTyped(AddNode(AddNode(g, u), v), u, v, k);
  }

  /** Joining v to u's successors with kind k, in a valid graph holding both ends. */
  function JoinEdge(g: Graph, u: string, v: string, k: EdgeKind): Graph
    requires u in g.succ
  {
    g.(succ := g.succ[u := Joined(g.succ[u], v)], kind := g.kind[(u, v) := k])
  }

  lemma JoinTyped(g: Graph, u: string, v: string, k: EdgeKind)
    requires Valid(g) && u in g.succ && v in g.nodes
    ensures EdgesTyped(JoinEdge(g, u, v, k))
  {
    var r := JoinEdge(g, u, v, k);
    forall x, y | x in r.succ && y in r.succ[x]
      ensures y in r.nodes && (x, y) in r.kind
    {
      if x != u {
        SuccessorIsNode(g, x, y);
      } else if y != v {
        SuccessorIsNode(g, u, y);
      }
    }
  }

  lemma JoinEffect(g: Graph, u: string, v: string, k: EdgeKind)
    requires u in g.succ
    ensures HasEdge(JoinEdge(g, u, v, k), u, v, k)
    ensures forall x, y, j :: (x, y) != (u, v) ==> (HasEdge(JoinEdge(g, u, v, k), x, y, j) <==> HasEdge(g, x, y, j))
  {
  }

  /** Adding a node adds no edge and removes none. */
  lemma AddNodeEdges(g: Graph, n: string)
    requires Valid(g)
    ensures forall x, y, j :: HasEdge(AddNode(g, n), x, y, j) <==> HasEdge(g, x, y, j)
  {
  }

  /** add_edge keeps the graph valid, only appends to the node order and leaves features alone. */
  lemma AddEdgeValid(g: Graph, u: string, v: string, k: EdgeKind)
    requires Valid(g)
    ensures Valid(AddEdge(g, u, v, k))
    ensures g.nodes <= AddEdge(g, u, v, k).nodes
    ensures AddEdge(g, u, v, k).feature == g.feature
  {
    AddEdgeShape(g, u, v, k);
    JoinedNoDup(AddNode(AddNode(g, u), v).succ[u], v);
    AddEdgeTyped(g, u, v, k);
  }

  /**
   * After add_edge the edge u -> v exists with the new kind, overwriting any earlier one, and
   * every other edge is there, with its kind, exactly when it was before.
   */
  lemma AddEdgeEffect(g: Graph, u: string, v: string, k: EdgeKind)
    requires Valid(g)
    ensures HasEdge(AddEdge(g, u, v, k), u, v, k)
    ensures forall x, y, j :: (x, y) != (u, v) ==> (HasEdge(AddEdge(g, u, v, k), x, y, j) <==> HasEdge(g, x, y, j))
  {
    AddEdgeShape(g, u, v, k);
    AddNodeValid(g, u);
    AddNodeEdges(g, u);
    AddNodeEdges(AddNode(g, u), v);
    JoinEffect(AddNode(AddNode(g, u), v), u, v, k);
  }

  /** The edges of the graph in enumeration order: by source in node order, then by successor order. */
  function OutEdges(g: Graph, u: string): (r: seq<Edge>)
    requires Valid(g) && u in g.succ
    ensures |r| == |g.succ[u]|
    ensures forall j :: 0 <= j < |r| ==> r[j] == Edge(u, g.succ[u][j], g.kind[(u, g.succ[u][j])])
  {
    seq(|g.succ[u]|, j requires 0 <= j < |g.succ[u]| => Edge(u, g.succ[u][j], g.kind[(u, g.succ[u][j])]))
  }

  function Edges(g: Graph): seq<Edge>
    requires Valid(g)
  {
    Flatten(seq(|g.nodes|, i requires 0 <= i < |g.nodes| => OutEdges(g, g.nodes[i])))
  }

  /** The edge list holds exactly the edges of the graph, each with its current kind. */
  lemma EdgesMember(g: Graph, e: Edge)
    requires Valid(g)
    ensures e in Edges(g) <==> HasEdge(g, e.src, e.tgt, e.kind)
  {
    var blocks := seq(|g.nodes|, i requires 0 <= i < |g.nodes| => OutEdges(g, g.nodes[i]));
    FlattenMember(blocks, e);
    if HasEdge(g, e.src, e.tgt, e.kind) {
      var i :| 0 <= i < |g.nodes| && g.nodes[i] == e.src;
      var j :| 0 <= j < |g.succ[e.src]| && g.succ[e.src][j] == e.tgt;
      assert blocks[i][j] == e;
    }
  }

  /** No edge at all exactly when no node has a successor. */
  lemma EdgesEmpty(g: Graph)
    requires Valid(g)
    ensures Edges(g) == [] <==> forall u :: u in g.succ ==> g.succ[u] == []
  {
    if Edges(g) == [] {
      forall u | u in g.succ
        ensures g.succ[u] == []
      {
        if g.succ[u] != [] {
          EdgesMember(g, Edge(u, g.succ[u][0], g.kind[(u, g.succ[u][0])]));
        }
      }
    } else {
      EdgesMember(g, Edges(g)[0]);
    }
  }

  // ---------------------------------------------------------------------------
  // Neighbour lists: filters over the edge list, in order

  /** The targets of the edges of kind k leaving n. */
  function Targets(edges: seq<Edge>, n: string, k: EdgeKind): seq<string>
  {
    if edges == [] then []
    else (if edges[0].src == n && edges[0].kind == k then [edges[0].tgt] else []) + Targets(edges[1..], n, k)
  }

  /** The sources of the edges of kind k entering n. */
  function Sources(edges: seq<Edge>, n: string, k: EdgeKind): seq<string>
  {
    if edges == [] then []
    else (if edges[0].tgt == n && edges[0].kind == k then [edges[0].src] else []) + Sources(edges[1..], n, k)
  }

  lemma {:induction false} TargetsMember(edges: seq<Edge>, n: string, k: EdgeKind, x: string)
    ensures x in Targets(edges, n, k) <==> Edge(n, x, k) in edges
  {
    if edges != [] {
      TargetsMember(edges[1..], n, k, x);
      assert edges == [edges[0]] + edges[1..];
    }
  }

  lemma {:induction false} SourcesMember(edges: seq<Edge>, n: string, k: EdgeKind, x: string)
    ensures x in Sources(edges, n, k) <==> Edge(x, n, k) in edges
  {
    if edges != [] {
      SourcesMember(edges[1..], n, k, x);
      assert edges == [edges[0]] + edges[1..];
    }
  }

  /** Everything create_rr reads off the edge list about one node. */
  datatype Neighbours = Neighbours(
    preys: seq<string>, secondaryPreys: seq<string>, predators: seq<string>,
    competitors: seq<string>, mutuals: seq<string>)

  function NeighboursOf(edges: seq<Edge>, n: string): Neighbours
  {
    Neighbours(Targets(edges, n, Predation), Targets(edges, n, SecondaryPredation), Sources(edges, n, Predation),
               Sources(edges, n, Competition), Sources(edges, n, Mutualism))
  }

  function FeatureOf(g: Graph, n: string): Option<string>
  {
    if n in g.feature then Some(g.feature[n]) else None
  }

  /** The neighbour lists of a node are exactly its in- and out-neighbours along edges of each kind. */
  lemma NeighboursMeaning(g: Graph, n: string, x: string)
    requires Valid(g)
    ensures var nb := NeighboursOf(Edges(g), n);
      && (x in nb.preys <==> HasEdge(g, n, x, Predation))
      && (x in nb.secondaryPreys <==> HasEdge(g, n, x, SecondaryPredation))
      && (x in nb.predators <==> HasEdge(g, x, n, Predation))
      && (x in nb.competitors <==> HasEdge(g, x, n, Competition))
      && (x in nb.mutuals <==> HasEdge(g, x, n, Mutualism))
  {
    var edges := Edges(g);
    TargetsMember(edges, n, Predation, x);
    TargetsMember(edges, n, SecondaryPredation, x);
    SourcesMember(edges, n, Predation, x);
    SourcesMember(edges, n, Competition, x);
    SourcesMember(edges, n, Mutualism, x);
    EdgesMember(g, Edge(n, x, Predation));
    EdgesMember(g, Edge(n, x, SecondaryPredation));
    EdgesMember(g, Edge(x, n, Predation));
    EdgesMember(g, Edge(x, n, Competition));
    EdgesMember(g, Edge(x, n, Mutualism));
  }

  // ---------------------------------------------------------------------------
  // What create_rr emits for one node

  /** The keyword arguments of create_rr. */
  datatype CompileOptions = CompileOptions(allowAppearance: bool, strongDependence: bool, appearanceOptions: seq<string>)

  /**
   * The add_predation call for a node with preys: a featureless node is a normal predator, a node
   * whose feature is "autotroph" an autotroph; a node with any other feature gets no call.
   */
  function PredationCall(feature: Option<string>, strongDependence: bool): Option<PredationOptions>
  {
    if feature.None? then Some(PredationOptions(true, false, strongDependence, false))
    else if feature.value == "autotroph" then Some(PredationOptions(true, true, strongDependence, false))
    else None
  }

  predicate CallsPredation(nb: Neighbours, feature: Option<string>)
  {
    |nb.preys + nb.secondaryPreys| > 0 && (feature.None? || feature.value == "autotroph")
  }

  function PredationBlock(n: string, nb: Neighbours, feature: Option<string>, strongDependence: bool): seq<Implication>
  {
    if CallsPredation(nb, feature) then
      PredationRules(n, nb.preys, nb.secondaryPreys, PredationCall(feature, strongDependence).value)
    else []
  }

  /** `n+ >> c-` for every competitor c, in order. */
  function CompetitionBlock(n: string, competitors: seq<string>): seq<Implication>
  {
    Flatten(seq(|competitors|, c requires 0 <= c < |competitors| => CompetitionRules(n, competitors[c], true)))
  }

  /**
   * The competition block the add_competition docstring asks for: an edge c -> n means c can
   * exclude n, so every competitor c gives `c+ >> n-`, the call `add_competition(c, n, True)`.
   */
  function IntendedCompetitionBlock(n: string, competitors: seq<string>): seq<Implication>
  {
    Flatten(seq(|competitors|, c requires 0 <= c < |competitors| => CompetitionRules(competitors[c], n, true)))
  }

  /** `m- >> n-` for every mutualist m, in order. */
  function MutualismBlock(n: string, mutuals: seq<string>): seq<Implication>
  {
    Flatten(seq(|mutuals|, m requires 0 <= m < |mutuals| => MutualismRules(n, mutuals[m], true)))
  }

  /** The predators if "no_predator" is chosen, then the competitors if "no_competitor" is chosen. */
  function AbsenceConditions(nb: Neighbours, options: seq<string>): seq<string>
  {
    (if "no_predator" in options then nb.predators else [])
      + (if "no_competitor" in options then nb.competitors else [])
  }

  /** The mutualists if "all_mutualists" is chosen. */
  function PresenceConditions(nb: Neighbours, options: seq<string>): seq<string>
  {
    if "all_mutualists" in options then nb.mutuals else []
  }

  /** The appearance rules for one prey each: the node may appear when that prey is present. */
  function PerPreyAppearance(n: string, absence: seq<string>, presence: seq<string>, preys: seq<string>)
    : (r: seq<Implication>)
    ensures |r| == |preys|
    ensures forall k :: 0 <= k < |preys| ==> r[k] == AppearanceRule(n, absence, presence + [preys[k]])
  {
    seq(|preys|, k requires 0 <= k < |preys| => AppearanceRule(n, absence, presence + [preys[k]]))
  }

  function AppearanceBlock(n: string, nb: Neighbours, feature: Option<string>, options: seq<string>): seq<Implication>
  {
    var absence := AbsenceConditions(nb, options);
    var presence := PresenceConditions(nb, options);
    if |nb.preys + nb.secondaryPreys| == 0 then [AppearanceRule(n, absence, presence)]
    else if feature.Some? then (if feature.value == "autotroph" then [AppearanceRule(n, absence, presence)] else [])
    else (PerPreyAppearance(n, absence, presence, nb.preys)
          + (if "only_main_prey" in options then [] else PerPreyAppearance(n, absence, presence, nb.secondaryPreys)))
  }

  /** Within a node: predation, then competition, then mutualism, then appearance. */
  function NodeRules(n: string, nb: Neighbours, feature: Option<string>, opts: CompileOptions): seq<Implication>
  {
    PredationBlock(n, nb, feature, opts.strongDependence) + CompetitionBlock(n, nb.competitors)
      + MutualismBlock(n, nb.mutuals)
      + (if opts.allowAppearance then AppearanceBlock(n, nb, feature, opts.appearanceOptions) else [])
  }

  function NodeConstraints(n: string, nb: Neighbours, feature: Option<string>, strongDependence: bool)
    : seq<Implication>
  {
    if CallsPredation(nb, feature) then
      DependenceConstraints(n, nb.preys, nb.secondaryPreys, PredationCall(feature, strongDependence).value)
    else []
  }

  /** The rules compiled for each node, in node order. */
  function NodeRuleBlocks(g: Graph, opts: CompileOptions): (r: seq<seq<Implication>>)
    requires Valid(g)
    ensures |r| == |g.nodes|
    ensures forall i :: 0 <= i < |g.nodes| ==>
      r[i] == NodeRules(g.nodes[i], NeighboursOf(Edges(g), g.nodes[i]), FeatureOf(g, g.nodes[i]), opts)
  {
    var edges := Edges(g);
    seq(|g.nodes|, i requires 0 <= i < |g.nodes|
          => NodeRules(g.nodes[i], NeighboursOf(edges, g.nodes[i]), FeatureOf(g, g.nodes[i]), opts))
  }

  /** The constraints compiled for each node, in node order. */
  function NodeConstraintBlocks(g: Graph, opts: CompileOptions): (r: seq<seq<Implication>>)
    requires Valid(g)
    ensures |r| == |g.nodes|
    ensures forall i :: 0 <= i < |g.nodes| ==>
      r[i] == NodeConstraints(g.nodes[i], NeighboursOf(Edges(g), g.nodes[i]), FeatureOf(g, g.nodes[i]),
                              opts.strongDependence)
  {
    var edges := Edges(g);
    seq(|g.nodes|, i requires 0 <= i < |g.nodes|
          => NodeConstraints(g.nodes[i], NeighboursOf(edges, g.nodes[i]), FeatureOf(g, g.nodes[i]),
                             opts.strongDependence))
  }

  /** All rules of the compiled rule set: node by node, in node order. */
  function CompiledRules(g: Graph, opts: CompileOptions): seq<Implication>
    requires Valid(g)
  {
    Flatten(NodeRuleBlocks(g, opts))
  }

  function CompiledConstraints(g: Graph, opts: CompileOptions): seq<Implication>
    requires Valid(g)
  {
    Flatten(NodeConstraintBlocks(g, opts))
  }

  // ---------------------------------------------------------------------------
  // Properties of the edge builders and of the compiler

  /**
   * add_edges_from from u to each of vs, of kind k: every such edge now has kind k, and every
   * edge not from u to one of vs is there, with its kind, exactly when it was before.
   */
  lemma {:induction false} AddEdgesEffect(g: Graph, u: string, vs: seq<string>, k: EdgeKind)
    requires Valid(g)
    ensures Valid(AddEdges(g, u, vs, k))
    ensures g.nodes <= AddEdges(g, u, vs, k).nodes && AddEdges(g, u, vs, k).feature == g.feature
    ensures forall v :: v in vs ==> HasEdge(AddEdges(g, u, vs, k), u, v, k)
    ensures forall x, y, j :: (x != u || y !in vs) ==> (HasEdge(AddEdges(g, u, vs, k), x, y, j) <==> HasEdge(g, x, y, j))
  {
    if vs != [] {
      var init := vs[..|vs| - 1];
      var last := vs[|vs| - 1];
      assert vs == init + [last];
      var h := AddEdges(g, u, init, k);
      var r := AddEdges(g, u, vs, k);
      assert r == AddEdge(h, u, last, k);
      AddEdgesEffect(g, u, init, k);
      AddEdgeValid(h, u, last, k);
      AddEdgeEffect(h, u, last, k);
      forall v | v in vs
        ensures HasEdge(r, u, v, k)
      {
        if v != last {
          assert v in init;
        }
      }
      forall x, y, j | x != u || y !in vs
        ensures HasEdge(r, x, y, j) <==> HasEdge(g, x, y, j)
      {
        assert (x, y) != (u, last);
        assert x != u || y !in init;
      }
    }
  }

  /** The competition block of n holds `n+ >> c-` exactly for its competitors c, and nothing else. */
  lemma CompetitionBlockMember(n: string, competitors: seq<string>, imp: Implication)
    ensures Renderable(CompetitionBlock(n, competitors))
    ensures imp in CompetitionBlock(n, competitors) <==> imp.lhs == [Pos(n)] && imp.rhs.sign == "-" && imp.rhs.id in competitors
  {
    var blocks := seq(|competitors|, c requires 0 <= c < |competitors| => CompetitionRules(n, competitors[c], true));
    forall x | x in CompetitionBlock(n, competitors)
      ensures x.lhs == [Pos(n)] && x.rhs.sign == "-" && x.rhs.id in competitors
    {
      FlattenMember(blocks, x);
    }
    if imp.lhs == [Pos(n)] && imp.rhs.sign == "-" && imp.rhs.id in competitors {
      var c :| 0 <= c < |competitors| && competitors[c] == imp.rhs.id;
      assert imp in blocks[c];
      FlattenMember(blocks, imp);
    }
  }

  /** The intended competition block of n holds `c+ >> n-` exactly for its competitors c, and nothing else. */
  lemma IntendedCompetitionBlockMember(n: string, competitors: seq<string>, imp: Implication)
    ensures Renderable(IntendedCompetitionBlock(n, competitors))
    ensures imp in IntendedCompetitionBlock(n, competitors)
        <==> imp.rhs == Neg(n) && |imp.lhs| == 1 && imp.lhs[0].sign == "+" && imp.lhs[0].id in competitors
  {
    var blocks := seq(|competitors|, c requires 0 <= c < |competitors| => CompetitionRules(competitors[c], n, true));
    forall x | x in IntendedCompetitionBlock(n, competitors)
      ensures x.rhs == Neg(n) && |x.lhs| == 1 && x.lhs[0].sign == "+" && x.lhs[0].id in competitors
    {
      FlattenMember(blocks, x);
    }
    if imp.rhs == Neg(n) && |imp.lhs| == 1 && imp.lhs[0].sign == "+" && imp.lhs[0].id in competitors {
      var c :| 0 <= c < |competitors| && competitors[c] == imp.lhs[0].id;
      assert imp.lhs == [Pos(competitors[c])];
      assert imp in blocks[c];
      FlattenMember(blocks, imp);
    }
  }

  /** With the intended block, the rules compiled for n are exactly `c+ >> n-` for the competition edges c -> n. */
  lemma IntendedCompetitionExact(g: Graph, n: string, c: string)
    requires Valid(g)
    ensures Implication([Pos(c)], Neg(n)) in IntendedCompetitionBlock(n, NeighboursOf(Edges(g), n).competitors)
        <==> HasEdge(g, c, n, Competition)
  {
    NeighboursMeaning(g, n, c);
    IntendedCompetitionBlockMember(n, NeighboursOf(Edges(g), n).competitors, Implication([Pos(c)], Neg(n)));
  }

  /** The mutualism block of n holds `m- >> n-` exactly for its mutualists m, and nothing else. */
  lemma MutualismBlockMember(n: string, mutuals: seq<string>, imp: Implication)
    ensures Renderable(MutualismBlock(n, mutuals))
    ensures imp in MutualismBlock(n, mutuals) <==> imp.rhs == Neg(n) && |imp.lhs| == 1 && imp.lhs[0].sign == "-" && imp.lhs[0].id in mutuals
  {
    var blocks := seq(|mutuals|, m requires 0 <= m < |mutuals| => MutualismRules(n, mutuals[m], true));
    forall x | x in MutualismBlock(n, mutuals)
      ensures x.rhs == Neg(n) && |x.lhs| == 1 && x.lhs[0].sign == "-" && x.lhs[0].id in mutuals
    {
      FlattenMember(blocks, x);
    }
    if imp.rhs == Neg(n) && |imp.lhs| == 1 && imp.lhs[0].sign == "-" && imp.lhs[0].id in mutuals {
      var m :| 0 <= m < |mutuals| && mutuals[m] == imp.lhs[0].id;
      assert imp.lhs == [Neg(mutuals[m])];
      assert imp in blocks[m];
      FlattenMember(blocks, imp);
    }
  }

  /** Every appearance rule makes the node present, and all of them can be written out. */
  lemma AppearanceBlockHeads(n: string, nb: Neighbours, feature: Option<string>, options: seq<string>)
    ensures Renderable(AppearanceBlock(n, nb, feature, options))
    ensures forall imp :: imp in AppearanceBlock(n, nb, feature, options) ==> imp.rhs == Pos(n)
  {
    var absence := AbsenceConditions(nb, options);
    var presence := PresenceConditions(nb, options);
    AppearanceMeaning(n, absence, presence, {});
    forall v | 0 <= v < |nb.preys + nb.secondaryPreys| && v < |nb.preys|
      ensures AppearanceRule(n, absence, presence + [nb.preys[v]]).lhs != []
      ensures AppearanceRule(n, absence, presence + [nb.preys[v]]).rhs == Pos(n)
    {
      AppearanceMeaning(n, absence, presence + [nb.preys[v]], {});
    }
    forall v | 0 <= v < |nb.secondaryPreys|
      ensures AppearanceRule(n, absence, presence + [nb.secondaryPreys[v]]).lhs != []
      ensures AppearanceRule(n, absence, presence + [nb.secondaryPreys[v]]).rhs == Pos(n)
    {
      AppearanceMeaning(n, absence, presence + [nb.secondaryPreys[v]], {});
    }
  }

  /**
   * How many appearance rules a node gets: one when it has no prey, one when it is an autotroph,
   * none for any other feature, and otherwise one per main prey plus one per secondary prey unless
   * "only_main_prey" is chosen.
   */
  lemma AppearanceCount(n: string, nb: Neighbours, feature: Option<string>, options: seq<string>)
    ensures |AppearanceBlock(n, nb, feature, options)|
         == if nb.preys == [] && nb.secondaryPreys == [] then 1
            else if feature == Some("autotroph") then 1
            else if feature.Some? then 0
            else |nb.preys| + (if "only_main_prey" in options then 0 else |nb.secondaryPreys|)
  {
  }

  /**
   * A featureless predator may appear only next to one of its preys: each of its appearance rules
   * requires some main or secondary prey present.
   */
  lemma AppearanceNeedsPrey(n: string, nb: Neighbours, options: seq<string>, imp: Implication)
    requires nb.preys + nb.secondaryPreys != []
    requires imp in AppearanceBlock(n, nb, None, options)
    ensures exists x :: x in nb.preys + nb.secondaryPreys && Pos(x) in imp.lhs
  {
    var absence := AbsenceConditions(nb, options);
    var presence := PresenceConditions(nb, options);
    var mains := PerPreyAppearance(n, absence, presence, nb.preys);
    var k :| 0 <= k < |AppearanceBlock(n, nb, None, options)| && AppearanceBlock(n, nb, None, options)[k] == imp;
    var x := if k < |mains| then nb.preys[k] else nb.secondaryPreys[k - |mains|];
    assert imp == AppearanceRule(n, absence, presence + [x]);
    var lits := Signed(absence, "-") + Signed(presence + [x], "+");
    assert lits[|lits| - 1] == Pos(x);
  }

  /** Everything compiled for one node can be written out. */
  lemma NodeRenderable(n: string, nb: Neighbours, feature: Option<string>, opts: CompileOptions)
    ensures Renderable(NodeRules(n, nb, feature, opts))
    ensures Renderable(NodeConstraints(n, nb, feature, opts.strongDependence))
  {
    var call := PredationCall(feature, opts.strongDependence);
    if CallsPredation(nb, feature) {
      PredationRenderable(n, nb.preys, nb.secondaryPreys, call.value);
    }
    CompetitionBlockMember(n, nb.competitors, Implication([], Pos(n)));
    MutualismBlockMember(n, nb.mutuals, Implication([], Pos(n)));
    AppearanceBlockHeads(n, nb, feature, opts.appearanceOptions);
    RenderAllAppend(PredationBlock(n, nb, feature, opts.strongDependence), CompetitionBlock(n, nb.competitors));
  }

  /**
   * A node whose feature is neither absent nor "autotroph" gets no predation rule, no constraint and,
   * when it has preys, no appearance rule.
   */
  lemma OtherFeatureSilences(n: string, nb: Neighbours, f: string, opts: CompileOptions)
    requires f != "autotroph"
    ensures PredationBlock(n, nb, Some(f), opts.strongDependence) == []
    ensures NodeConstraints(n, nb, Some(f), opts.strongDependence) == []
    ensures nb.preys + nb.secondaryPreys != [] ==> AppearanceBlock(n, nb, Some(f), opts.appearanceOptions) == []
  {
  }

  /**
   * An autotroph never starves: nothing compiled for it concludes its own absence by predation,
   * and it gets no constraint.
   */
  lemma AutotrophCompiled(n: string, nb: Neighbours, opts: CompileOptions)
    requires n !in nb.preys && n !in nb.secondaryPreys
    ensures NodeConstraints(n, nb, Some("autotroph"), opts.strongDependence) == []
    ensures forall imp :: imp in PredationBlock(n, nb, Some("autotroph"), opts.strongDependence) ==> imp.rhs != Neg(n)
  {
    if CallsPredation(nb, Some("autotroph")) {
      AutotrophNeverStarves(n, nb.preys, nb.secondaryPreys, PredationCall(Some("autotroph"), opts.strongDependence).value);
    }
  }

  /**
   * A featureless species with main preys can disappear once they are all absent: some rule or
   * constraint compiled for it concludes its absence and is enabled in every such state.
   */
  lemma FeaturelessPredatorStarves(n: string, nb: Neighbours, opts: CompileOptions, present: set<string>)
    requires nb.preys != [] && AllAbsent(nb.preys, present)
    ensures exists imp :: (imp in NodeRules(n, nb, None, opts) || imp in NodeConstraints(n, nb, None, opts.strongDependence))
                          && imp.rhs == Neg(n) && Enabled(imp, present)
  {
    var call := PredationCall(None, opts.strongDependence).value;
    LossOfMainPreys(n, nb.preys, nb.secondaryPreys, call, present);
    var imp :| (imp in PredationRules(n, nb.preys, nb.secondaryPreys, call)
                || imp in DependenceConstraints(n, nb.preys, nb.secondaryPreys, call))
               && imp.rhs == Neg(n) && Enabled(imp, present);
    assert PredationBlock(n, nb, None, opts.strongDependence) == PredationRules(n, nb.preys, nb.secondaryPreys, call);
  }

  /** The rules compiled for the node at index i sit inside the compiled rule set. */
  lemma CompiledContainsNode(g: Graph, opts: CompileOptions, i: nat, imp: Implication)
    requires Valid(g) && i < |g.nodes|
    requires imp in NodeRules(g.nodes[i], NeighboursOf(Edges(g), g.nodes[i]), FeatureOf(g, g.nodes[i]), opts)
    ensures imp in CompiledRules(g, opts)
  {
    var blocks := NodeRuleBlocks(g, opts);
    assert imp in blocks[i];
    FlattenMember(blocks, imp);
  }

  /**
   * Competition is compiled from the competed-against side: an edge c -> n of kind competition
   * yields the rule `n+ >> c-`.
   */
  lemma CompetitionEdgeCompiled(g: Graph, opts: CompileOptions, c: string, n: string)
    requires Valid(g) && HasEdge(g, c, n, Competition)
    ensures Implication([Pos(n)], Neg(c)) in CompiledRules(g, opts)
  {
    SuccessorIsNode(g, c, n);
    var i :| 0 <= i < |g.nodes| && g.nodes[i] == n;
    var nb := NeighboursOf(Edges(g), n);
    NeighboursMeaning(g, n, c);
    CompetitionBlockMember(n, nb.competitors, Implication([Pos(n)], Neg(c)));
    CompiledContainsNode(g, opts, i, Implication([Pos(n)], Neg(c)));
  }

  /** A mutualism edge m -> n yields `m- >> n-`: n depends on m. */
  lemma MutualismEdgeCompiled(g: Graph, opts: CompileOptions, m: string, n: string)
    requires Valid(g) && HasEdge(g, m, n, Mutualism)
    ensures Implication([Neg(m)], Neg(n)) in CompiledRules(g, opts)
  {
    SuccessorIsNode(g, m, n);
    var i :| 0 <= i < |g.nodes| && g.nodes[i] == n;
    var nb := NeighboursOf(Edges(g), n);
    NeighboursMeaning(g, n, m);
    MutualismBlockMember(n, nb.mutuals, Implication([Neg(m)], Neg(n)));
    CompiledContainsNode(g, opts, i, Implication([Neg(m)], Neg(n)));
  }

  /** For a node n, the competition rules compiled for it are exactly `n+ >> c-` for the competition edges c -> n. */
  lemma NodeCompetitionExact(g: Graph, n: string, c: string)
    requires Valid(g)
    ensures Implication([Pos(n)], Neg(c)) in CompetitionBlock(n, NeighboursOf(Edges(g), n).competitors)
        <==> HasEdge(g, c, n, Competition)
  {
    NeighboursMeaning(g, n, c);
    CompetitionBlockMember(n, NeighboursOf(Edges(g), n).competitors, Implication([Pos(n)], Neg(c)));
  }

  /** For a node n, the mutualism rules compiled for it are exactly `m- >> n-` for the mutualism edges m -> n. */
  lemma NodeMutualismExact(g: Graph, n: string, m: string)
    requires Valid(g)
    ensures Implication([Neg(m)], Neg(n)) in MutualismBlock(n, NeighboursOf(Edges(g), n).mutuals)
        <==> HasEdge(g, m, n, Mutualism)
  {
    NeighboursMeaning(g, n, m);
    MutualismBlockMember(n, NeighboursOf(Edges(g), n).mutuals, Implication([Neg(m)], Neg(n)));
  }

  /** Everything compiled for the graph can be written out. */
  lemma CompiledRenderable(g: Graph, opts: CompileOptions)
    requires Valid(g)
    ensures Renderable(CompiledRules(g, opts)) && Renderable(CompiledConstraints(g, opts))
  {
    var edges := Edges(g);
    var rb := NodeRuleBlocks(g, opts);
    var cb := NodeConstraintBlocks(g, opts);
    forall k | 0 <= k < |CompiledRules(g, opts)|
      ensures CompiledRules(g, opts)[k].lhs != []
    {
      var imp := CompiledRules(g, opts)[k];
      FlattenMember(rb, imp);
      var i :| 0 <= i < |rb| && imp in rb[i];
      NodeRenderable(g.nodes[i], NeighboursOf(edges, g.nodes[i]), FeatureOf(g, g.nodes[i]), opts);
    }
    forall k | 0 <= k < |CompiledConstraints(g, opts)|
      ensures CompiledConstraints(g, opts)[k].lhs != []
    {
      var imp := CompiledConstraints(g, opts)[k];
      FlattenMember(cb, imp);
      var i :| 0 <= i < |cb| && imp in cb[i];
      NodeRenderable(g.nodes[i], NeighboursOf(edges, g.nodes[i]), FeatureOf(g, g.nodes[i]), opts);
    }
  }
}
