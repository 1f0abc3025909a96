/**
 * rr_network: a directed interaction graph (predation, secondary predation, competition,
 * mutualism) with an optional initial-state table, compiled node by node into a rule set.
 */
module RrNetwork {
  import opened Wrappers
  import opened Seqs
  import opened Interactions
  import opened Serializers
  import opened NetworkSpec
  import opened RrList

  /** One row of the initial-state table: a node and its initial value. */
  datatype InitRow = InitRow(node: string, init: InitValue)

  /** set_node_init before initialize_nodes raises a ValueError. */
  datatype NetworkError = NotInitialised

  /**
   * create_rr on a graph with nodes but no edge: the edge list has no `kind` column and reading it
   * raises a KeyError.
   */
  datatype CompileError = MissingKindColumn

  /** The table initialize_nodes builds: every node of the graph, 1 if listed as present, else 0. */
  function InitTable(nodes: seq<string>, present: seq<string>): seq<InitRow>
  {
    seq(|nodes|, k requires 0 <= k < |nodes| => InitRow(nodes[k], if nodes[k] in present then Number(1.0) else Number(0.0)))
  }

  /** The `.loc[nodes == node, "init"] = v` assignment: every row of that node takes the value v. */
  function SetInit(rows: seq<InitRow>, node: string, v: InitValue): seq<InitRow>
  {
    seq(|rows|, k requires 0 <= k < |rows| => if rows[k].node == node then InitRow(node, v) else rows[k])
  }

  /** The `init` column of the table, in row order. */
  function InitColumn(rows: seq<InitRow>): (r: seq<InitValue>)
    ensures |r| == |rows| && forall k :: 0 <= k < |rows| ==> r[k] == rows[k].init
  {
    seq(|rows|, k requires 0 <= k < |rows| => rows[k].init)
  }

  /**
   * The table lists the nodes in graph order, and a node is written present exactly when it was
   * listed as initially present.
   */
  lemma InitTableMeaning(nodes: seq<string>, present: seq<string>)
    ensures |InitTable(nodes, present)| == |nodes|
    ensures forall k :: 0 <= k < |nodes| ==>
      InitTable(nodes, present)[k].node == nodes[k] && (IsPresent(InitTable(nodes, present)[k].init) <==> nodes[k] in present)
  {
  }

  /** Marking one more node present is a SetInit of that node to 1. */
  lemma InitTableStep(nodes: seq<string>, present: seq<string>, i: nat)
    requires i < |present|
    ensures InitTable(nodes, present[..i + 1]) == SetInit(InitTable(nodes, present[..i]), present[i], Number(1.0))
  {
    assert present[..i + 1] == present[..i] + [present[i]];
  }

  /** set_node_init changes the rows of that node only, and keeps the row order. */
  lemma SetInitMeaning(rows: seq<InitRow>, node: string, v: InitValue)
    ensures |SetInit(rows, node, v)| == |rows|
    ensures forall k :: 0 <= k < |rows| ==> SetInit(rows, node, v)[k].node == rows[k].node
    ensures forall k :: 0 <= k < |rows| ==>
      SetInit(rows, node, v)[k].init == if rows[k].node == node then v else rows[k].init
  {
  }

  // ---------------------------------------------------------------------------
  // The edge builders, as effects on the graph

  /**
   * add_predation: afterwards the predator has a secondary-predation edge to every secondary prey,
   * and a predation edge to every main prey that is not also a secondary prey; every other edge,
   * out of another node or to a node that is not a prey, is left as it was.
   */
  lemma AddPredationEffect(g: Graph, predator: string, preys: seq<string>, secs: seq<string>)
    requires Valid(g)
    ensures var r := AddEdges(AddEdges(g, predator, preys, Predation), predator, secs, SecondaryPredation);
      && Valid(r)
      && (forall s :: s in secs ==> HasEdge(r, predator, s, SecondaryPredation))
      && (forall p :: p in preys && p !in secs ==> HasEdge(r, predator, p, Predation))
      && (forall x, y, j :: x != predator || (y !in preys && y !in secs) ==> (HasEdge(r, x, y, j) <==> HasEdge(g, x, y, j)))
  {
    AddEdgesEffect(g, predator, preys, Predation);
    AddEdgesEffect(AddEdges(g, predator, preys, Predation), predator, secs, SecondaryPredation);
  }

  /** The competition graph edit: A -> B, then B -> A unless asymmetric. */
  function CompetitionEdit(g: Graph, a: string, b: string, asymmetric: bool): Graph
  {
    var g' := AddEdge(g, a, b, Competition);
    if asymmetric then g' else AddEdge(g', b, a, Competition)
  }

  /**
   * add_competition: A -> B is a competition edge, and so is B -> A when symmetric; every other
   * edge (B -> A included, when asymmetric) is left as it was.
   */
  lemma AddCompetitionEffect(g: Graph, a: string, b: string, asymmetric: bool)
    requires Valid(g)
    ensures Valid(CompetitionEdit(g, a, b, asymmetric))
    ensures HasEdge(CompetitionEdit(g, a, b, asymmetric), a, b, Competition)
    ensures !asymmetric ==> HasEdge(CompetitionEdit(g, a, b, asymmetric), b, a, Competition)
    ensures forall x, y, j :: (x, y) != (a, b) && (asymmetric || (x, y) != (b, a)) ==>
      (HasEdge(CompetitionEdit(g, a, b, asymmetric), x, y, j) <==> HasEdge(g, x, y, j))
  {
    AddEdgeValid(g, a, b, Competition);
    AddEdgeEffect(g, a, b, Competition);
    var g' := AddEdge(g, a, b, Competition);
    AddEdgeValid(g', b, a, Competition);
    AddEdgeEffect(g', b, a, Competition);
  }

  /**
   * add_competition(A, B, asymmetric=True) promises that only A can exclude B, but create_rr
   * compiles the edge A -> B from B's side as `B+ >> A-`: as written, B excludes A, and no
   * competition rule of any node says `A+ >> B-`.
   */
  lemma AsymmetricCompetitionInverted(g: Graph, opts: CompileOptions, a: string, b: string)
    requires Valid(g) && a != b && !HasEdge(g, b, a, Competition)
    ensures Valid(CompetitionEdit(g, a, b, true))
    ensures var g' := CompetitionEdit(g, a, b, true);
      Implication([Pos(b)], Neg(a)) in CompiledRules(g', opts)
    ensures var g' := CompetitionEdit(g, a, b, true);
      forall n :: Implication([Pos(a)], Neg(b)) !in CompetitionBlock(n, NeighboursOf(Edges(g'), n).competitors)
  {
    var g' := CompetitionEdit(g, a, b, true);
    AddCompetitionEffect(g, a, b, true);
    CompetitionEdgeCompiled(g', opts, a, b);
    forall n
      ensures Implication([Pos(a)], Neg(b)) !in CompetitionBlock(n, NeighboursOf(Edges(g'), n).competitors)
    {
      CompetitionBlockMember(n, NeighboursOf(Edges(g'), n).competitors, Implication([Pos(a)], Neg(b)));
      NodeCompetitionExact(g', a, b);
    }
  }

  /**
   * With the intended competition block the same edit compiles as the docstring promises:
   * `A+ >> B-`, and no intended competition rule of any node says `B+ >> A-`.
   */
  lemma AsymmetricCompetitionAsIntended(g: Graph, a: string, b: string)
    requires Valid(g) && a != b && !HasEdge(g, b, a, Competition)
    ensures Valid(CompetitionEdit(g, a, b, true))
    ensures var g' := CompetitionEdit(g, a, b, true);
      Implication([Pos(a)], Neg(b)) in IntendedCompetitionBlock(b, NeighboursOf(Edges(g'), b).competitors)
    ensures var g' := CompetitionEdit(g, a, b, true);
      forall n :: Implication([Pos(b)], Neg(a)) !in IntendedCompetitionBlock(n, NeighboursOf(Edges(g'), n).competitors)
  {
    var g' := CompetitionEdit(g, a, b, true);
    AddCompetitionEffect(g, a, b, true);
    IntendedCompetitionExact(g', b, a);
    forall n
      ensures Implication([Pos(b)], Neg(a)) !in IntendedCompetitionBlock(n, NeighboursOf(Edges(g'), n).competitors)
    {
      IntendedCompetitionBlockMember(n, NeighboursOf(Edges(g'), n).competitors, Implication([Pos(b)], Neg(a)));
      IntendedCompetitionExact(g', a, b);
    }
  }

  /** The mutualism graph edit: A -> B then B -> A. */
  function MutualismEdit(g: Graph, a: string, b: string): Graph
  {
    AddEdge(AddEdge(g, a, b, Mutualism), b, a, Mutualism)
  }

  /** add_mutualism: both A -> B and B -> A are mutualism edges afterwards; every other edge is left as it was. */
  lemma AddMutualismEffect(g: Graph, a: string, b: string)
    requires Valid(g)
    ensures Valid(MutualismEdit(g, a, b))
    ensures HasEdge(MutualismEdit(g, a, b), a, b, Mutualism) && HasEdge(MutualismEdit(g, a, b), b, a, Mutualism)
    ensures forall x, y, j :: (x, y) != (a, b) && (x, y) != (b, a) ==>
      (HasEdge(MutualismEdit(g, a, b), x, y, j) <==> HasEdge(g, x, y, j))
  {
    AddEdgeValid(g, a, b, Mutualism);
    AddEdgeEffect(g, a, b, Mutualism);
    var g' := AddEdge(g, a, b, Mutualism);
    AddEdgeValid(g', b, a, Mutualism);
    AddEdgeEffect(g', b, a, Mutualism);
  }

  // ---------------------------------------------------------------------------
  // Emitting the compiled rules into a rule set, block by block

  /** The predation part of create_rr for one node: add_predation when the node has preys and may eat. */
  method CompilePredation(rs: RuleSet, n: string, nb: Neighbours, feature: Option<string>, strongDependence: bool)
    modifies rs
    ensures Renderable(PredationBlock(n, nb, feature, strongDependence))
    ensures Renderable(NodeConstraints(n, nb, feature, strongDependence))
    ensures rs.rules == old(rs.rules) + RenderAll(PredationBlock(n, nb, feature, strongDependence))
    ensures rs.constraints == old(rs.constraints) + RenderAll(NodeConstraints(n, nb, feature, strongDependence))
    ensures rs.nodes == old(rs.nodes) && rs.nodesInit == old(rs.nodesInit)
  {
    if CallsPredation(nb, feature) {
      var opts := PredationCall(feature, strongDependence).value;
      PredationRenderable(n, nb.preys, nb.secondaryPreys, opts);
      var warnings, outcome := rs.AddPredation(n, nb.preys, nb.secondaryPreys, opts);
    } else {
      assert rs.rules + [] == rs.rules && rs.constraints + [] == rs.constraints;
    }
  }

  /** `n+ >> c-` for each competitor c, through add_competition(n, c, asymmetric=True). */
  method CompileCompetition(rs: RuleSet, n: string, competitors: seq<string>)
    modifies rs
    ensures Renderable(CompetitionBlock(n, competitors))
    ensures rs.rules == old(rs.rules) + RenderAll(CompetitionBlock(n, competitors))
    ensures rs.constraints == old(rs.constraints) && rs.nodes == old(rs.nodes) && rs.nodesInit == old(rs.nodesInit)
  {
    var pairs := seq(|competitors|, c requires 0 <= c < |competitors| => CompetitionRules(n, competitors[c], true));
    for c := 0 to |competitors|
      invariant rs.constraints == old(rs.constraints) && rs.nodes == old(rs.nodes) && rs.nodesInit == old(rs.nodesInit)
      invariant Renderable(Flatten(pairs[..c]))
      invariant rs.rules == old(rs.rules) + RenderAll(Flatten(pairs[..c]))
    {
      ghost var done := RenderAll(Flatten(pairs[..c]));
      var w := rs.AddCompetition(n, competitors[c], true);
      FlattenPrefixSnoc(pairs, c);
      RenderAllAppend(Flatten(pairs[..c]), pairs[c]);
      AppendAssoc(old(rs.rules), done, RenderAll(pairs[c]));
    }
    assert pairs[..|competitors|] == pairs;
  }

  /** `m- >> n-` for each mutualist m, through add_mutualism(n, m, asymmetric=True). */
  method CompileMutualism(rs: RuleSet, n: string, mutuals: seq<string>)
    modifies rs
    ensures Renderable(MutualismBlock(n, mutuals))
    ensures rs.rules == old(rs.rules) + RenderAll(MutualismBlock(n, mutuals))
    ensures rs.constraints == old(rs.constraints) && rs.nodes == old(rs.nodes) && rs.nodesInit == old(rs.nodesInit)
  {
    var pairs := seq(|mutuals|, m requires 0 <= m < |mutuals| => MutualismRules(n, mutuals[m], true));
    for m := 0 to |mutuals|
      invariant rs.constraints == old(rs.constraints) && rs.nodes == old(rs.nodes) && rs.nodesInit == old(rs.nodesInit)
      invariant Renderable(Flatten(pairs[..m]))
      invariant rs.rules == old(rs.rules) + RenderAll(Flatten(pairs[..m]))
    {
      ghost var done := RenderAll(Flatten(pairs[..m]));
      var w := rs.AddMutualism(n, mutuals[m], true);
      FlattenPrefixSnoc(pairs, m);
      RenderAllAppend(Flatten(pairs[..m]), pairs[m]);
      AppendAssoc(old(rs.rules), done, RenderAll(pairs[m]));
    }
    assert pairs[..|mutuals|] == pairs;
  }

  /** One appearance rule per prey, the prey joining the presence conditions. */
  method CompilePerPrey(rs: RuleSet, n: string, absence: seq<string>, presence: seq<string>, preys: seq<string>)
    modifies rs
    ensures Renderable(PerPreyAppearance(n, absence, presence, preys))
    ensures rs.rules == old(rs.rules) + RenderAll(PerPreyAppearance(n, absence, presence, preys))
    ensures rs.constraints == old(rs.constraints) && rs.nodes == old(rs.nodes) && rs.nodesInit == old(rs.nodesInit)
  {
    ghost var start := rs.rules;
    for i := 0 to |preys|
      invariant rs.constraints == old(rs.constraints) && rs.nodes == old(rs.nodes) && rs.nodesInit == old(rs.nodesInit)
      invariant |rs.rules| == |start| + i && rs.rules[..|start|] == start
      invariant forall k :: 0 <= k < i ==>
        AppearanceRule(n, absence, presence + [preys[k]]).lhs != []
        && rs.rules[|start| + k] == Render(AppearanceRule(n, absence, presence + [preys[k]]))
    {
      rs.AddAppearance(n, absence, presence + [preys[i]]);
    }
    assert rs.rules == start + RenderAll(PerPreyAppearance(n, absence, presence, preys));
  }

  /** The conditions every appearance rule of a node carries, gathered option by option. */
  method AppearanceConditions(nb: Neighbours, options: seq<string>) returns (absence: seq<string>, presence: seq<string>)
    ensures absence == AbsenceConditions(nb, options) && presence == PresenceConditions(nb, options)
  {
    absence := [];
    if "no_predator" in options {
      absence := absence + nb.predators;
    }
    if "no_competitor" in options {
      absence := absence + nb.competitors;
    }
    presence := [];
    if "all_mutualists" in options {
      presence := presence + nb.mutuals;
    }
  }

  /** The appearance part of create_rr for one node. */
  method CompileAppearance(rs: RuleSet, n: string, nb: Neighbours, feature: Option<string>, options: seq<string>)
    modifies rs
    ensures Renderable(AppearanceBlock(n, nb, feature, options))
    ensures rs.rules == old(rs.rules) + RenderAll(AppearanceBlock(n, nb, feature, options))
    ensures rs.constraints == old(rs.constraints) && rs.nodes == old(rs.nodes) && rs.nodesInit == old(rs.nodesInit)
  {
    AppearanceBlockHeads(n, nb, feature, options);
    var absence, presence := AppearanceConditions(nb, options);
    if |nb.preys + nb.secondaryPreys| == 0 {
      rs.AddAppearance(n, absence, presence);
    } else if feature.Some? {
      if feature.value == "autotroph" {
        rs.AddAppearance(n, absence, presence);
      } else {
        assert rs.rules + [] == rs.rules;
      }
    } else {
      CompilePreyAppearance(rs, n, absence, presence, nb, "only_main_prey" in options);
    }
  }

  /** A featureless predator may appear next to each main prey, then each secondary prey unless onlyMain. */
  method CompilePreyAppearance(rs: RuleSet, n: string, absence: seq<string>, presence: seq<string>, nb: Neighbours,
                               onlyMain: bool)
    modifies rs
    ensures var block := PerPreyAppearance(n, absence, presence, nb.preys)
                         + (if onlyMain then [] else PerPreyAppearance(n, absence, presence, nb.secondaryPreys));
      Renderable(block) && rs.rules == old(rs.rules) + RenderAll(block)
    ensures rs.constraints == old(rs.constraints) && rs.nodes == old(rs.nodes) && rs.nodesInit == old(rs.nodesInit)
  {
    var mains := PerPreyAppearance(n, absence, presence, nb.preys);
    var secs := PerPreyAppearance(n, absence, presence, nb.secondaryPreys);
    CompilePerPrey(rs, n, absence, presence, nb.preys);
    if !onlyMain {
      CompilePerPrey(rs, n, absence, presence, nb.secondaryPreys);
      RenderAllAppend(mains, secs);
      AppendAssoc(old(rs.rules), RenderAll(mains), RenderAll(secs));
    } else {
      assert mains + [] == mains;
    }
  }

  /** Everything create_rr emits for one node: predation, competition, mutualism, then appearance. */
  method CompileNode(rs: RuleSet, n: string, nb: Neighbours, feature: Option<string>, opts: CompileOptions)
    modifies rs
    ensures Renderable(NodeRules(n, nb, feature, opts))
    ensures Renderable(NodeConstraints(n, nb, feature, opts.strongDependence))
    ensures rs.rules == old(rs.rules) + RenderAll(NodeRules(n, nb, feature, opts))
    ensures rs.constraints == old(rs.constraints) + RenderAll(NodeConstraints(n, nb, feature, opts.strongDependence))
    ensures rs.nodes == old(rs.nodes) && rs.nodesInit == old(rs.nodesInit)
  {
    var pred := PredationBlock(n, nb, feature, opts.strongDependence);
    var comp := CompetitionBlock(n, nb.competitors);
    var mutual := MutualismBlock(n, nb.mutuals);
    var appear := if opts.allowAppearance then AppearanceBlock(n, nb, feature, opts.appearanceOptions) else [];
    ghost var start := rs.rules;
    CompilePredation(rs, n, nb, feature, opts.strongDependence);
    CompileCompetition(rs, n, nb.competitors);
    CompileMutualism(rs, n, nb.mutuals);
    ghost var beforeAppear := rs.rules;
    if opts.allowAppearance {
      CompileAppearance(rs, n, nb, feature, opts.appearanceOptions);
    } else {
      assert rs.rules == beforeAppear + RenderAll(appear);
    }
    RenderAllAppend(pred, comp);
    RenderAllAppend(pred + comp, mutual);
    RenderAllAppend(pred + comp + mutual, appear);
    AppendAssoc(start, RenderAll(pred), RenderAll(comp));
    AppendAssoc(start, RenderAll(pred) + RenderAll(comp), RenderAll(mutual));
    AppendAssoc(start, RenderAll(pred + comp) + RenderAll(mutual), RenderAll(appear));
  }

  /** Each block of implications written out as its lines. */
  function RenderBlocks(blocks: seq<seq<Implication>>): (r: seq<seq<string>>)
    requires forall i :: 0 <= i < |blocks| ==> Renderable(blocks[i])
    ensures |r| == |blocks|
    ensures forall i :: 0 <= i < |blocks| ==> r[i] == RenderAll(blocks[i])
  {
    seq(|blocks|, i requires 0 <= i < |blocks| => RenderAll(blocks[i]))
  }

  /** Writing the blocks one after the other writes their concatenation. */
  lemma {:induction false} RenderFlatten(blocks: seq<seq<Implication>>)
    requires forall i :: 0 <= i < |blocks| ==> Renderable(blocks[i])
    ensures Renderable(Flatten(blocks))
    ensures RenderAll(Flatten(blocks)) == Flatten(RenderBlocks(blocks))
  {
    if blocks != [] {
      RenderFlatten(blocks[1..]);
      assert RenderBlocks(blocks)[1..] == RenderBlocks(blocks[1..]);
      RenderAllAppend(blocks[0], Flatten(blocks[1..]));
    }
  }

  /** The rules and the constraints compiled for each node can be written. */
  lemma BlocksRenderable(g: Graph, opts: CompileOptions)
    requires Valid(g)
    ensures forall i :: 0 <= i < |g.nodes| ==> Renderable(NodeRuleBlocks(g, opts)[i])
    ensures forall i :: 0 <= i < |g.nodes| ==> Renderable(NodeConstraintBlocks(g, opts)[i])
  {
    forall i | 0 <= i < |g.nodes|
      ensures Renderable(NodeRuleBlocks(g, opts)[i]) && Renderable(NodeConstraintBlocks(g, opts)[i])
    {
      var n := g.nodes[i];
      NodeRenderable(n, NeighboursOf(Edges(g), n), FeatureOf(g, n), opts);
    }
  }

  /** The body of create_rr's loop for the node at index i. */
  method CompileNodeAt(rs: RuleSet, g: Graph, opts: CompileOptions, i: nat)
    requires Valid(g) && i < |g.nodes|
    modifies rs
    ensures Renderable(NodeRuleBlocks(g, opts)[i]) && Renderable(NodeConstraintBlocks(g, opts)[i])
    ensures rs.rules == old(rs.rules) + RenderAll(NodeRuleBlocks(g, opts)[i])
    ensures rs.constraints == old(rs.constraints) + RenderAll(NodeConstraintBlocks(g, opts)[i])
    ensures rs.nodes == old(rs.nodes) && rs.nodesInit == old(rs.nodesInit)
  {
    var n := g.nodes[i];
    CompileNode(rs, n, NeighboursOf(Edges(g), n), FeatureOf(g, n), opts);
  }

  /** ruleLines and constraintLines are the lines written for each node of g, in node order. */
  ghost predicate NodeLinesOf(g: Graph, opts: CompileOptions, ruleLines: seq<seq<string>>, constraintLines: seq<seq<string>>)
    requires Valid(g)
  {
    && |ruleLines| == |g.nodes| && |constraintLines| == |g.nodes|
    && (forall i {:trigger ruleLines[i]} :: 0 <= i < |g.nodes| ==>
          Renderable(NodeRuleBlocks(g, opts)[i]) && ruleLines[i] == RenderAll(NodeRuleBlocks(g, opts)[i]))
    && (forall i {:trigger constraintLines[i]} :: 0 <= i < |g.nodes| ==>
          Renderable(NodeConstraintBlocks(g, opts)[i]) && constraintLines[i] == RenderAll(NodeConstraintBlocks(g, opts)[i]))
  }

  /** One turn of create_rr's loop, as it extends what the earlier turns wrote. */
  method CompileStep(rs: RuleSet, g: Graph, opts: CompileOptions, i: nat,
                     ghost ruleLines: seq<seq<string>>, ghost constraintLines: seq<seq<string>>,
                     ghost priorRules: seq<string>, ghost priorConstraints: seq<string>)
    requires Valid(g) && i < |g.nodes| && NodeLinesOf(g, opts, ruleLines, constraintLines)
    requires rs.rules == priorRules + Flatten(ruleLines[..i])
    requires rs.constraints == priorConstraints + Flatten(constraintLines[..i])
    modifies rs
    ensures rs.rules == priorRules + Flatten(ruleLines[..i + 1])
    ensures rs.constraints == priorConstraints + Flatten(constraintLines[..i + 1])
    ensures rs.nodes == old(rs.nodes) && rs.nodesInit == old(rs.nodesInit)
  {
    CompileNodeAt(rs, g, opts, i);
    assert ruleLines[i] == RenderAll(NodeRuleBlocks(g, opts)[i]);
    assert constraintLines[i] == RenderAll(NodeConstraintBlocks(g, opts)[i]);
    FlattenPrefixSnoc(ruleLines, i);
    FlattenPrefixSnoc(constraintLines, i);
    AppendAssoc(priorRules, Flatten(ruleLines[..i]), ruleLines[i]);
    AppendAssoc(priorConstraints, Flatten(constraintLines[..i]), constraintLines[i]);
  }

  /** The lines of each node, and the compiled rule set written out as their concatenation. */
  lemma CompiledLines(g: Graph, opts: CompileOptions) returns (ruleLines: seq<seq<string>>, constraintLines: seq<seq<string>>)
    requires Valid(g)
    ensures NodeLinesOf(g, opts, ruleLines, constraintLines)
    ensures Renderable(CompiledRules(g, opts)) && Renderable(CompiledConstraints(g, opts))
    ensures RenderAll(CompiledRules(g, opts)) == Flatten(ruleLines)
    ensures RenderAll(CompiledConstraints(g, opts)) == Flatten(constraintLines)
  {
    BlocksRenderable(g, opts);
    ruleLines := RenderBlocks(NodeRuleBlocks(g, opts));
    constraintLines := RenderBlocks(NodeConstraintBlocks(g, opts));
    RenderFlatten(NodeRuleBlocks(g, opts));
    RenderFlatten(NodeConstraintBlocks(g, opts));
  }

  /** The loop of create_rr over the nodes, in graph order, writing each node's lines in turn. */
  method CompileNodes(rs: RuleSet, g: Graph, opts: CompileOptions,
                      ghost ruleLines: seq<seq<string>>, ghost constraintLines: seq<seq<string>>)
    requires Valid(g) && NodeLinesOf(g, opts, ruleLines, constraintLines)
    modifies rs
    ensures rs.rules == old(rs.rules) + Flatten(ruleLines)
    ensures rs.constraints == old(rs.constraints) + Flatten(constraintLines)
    ensures rs.nodes == old(rs.nodes) && rs.nodesInit == old(rs.nodesInit)
  {
    var ns := g.nodes;
    for i := 0 to |ns|
      invariant rs.nodes == old(rs.nodes) && rs.nodesInit == old(rs.nodesInit)
      invariant rs.rules == old(rs.rules) + Flatten(ruleLines[..i])
      invariant rs.constraints == old(rs.constraints) + Flatten(constraintLines[..i])
    {
      CompileStep(rs, g, opts, i, ruleLines, constraintLines, old(rs.rules), old(rs.constraints));
    }
    assert ruleLines[..|ns|] == ruleLines;
    assert constraintLines[..|ns|] == constraintLines;
  }

  /** create_rr's compilation of the whole graph: the rules and constraints of every node, in node order. */
  method CompileAll(rs: RuleSet, g: Graph, opts: CompileOptions)
    requires Valid(g)
    modifies rs
    ensures Renderable(CompiledRules(g, opts)) && Renderable(CompiledConstraints(g, opts))
    ensures rs.rules == old(rs.rules) + RenderAll(CompiledRules(g, opts))
    ensures rs.constraints == old(rs.constraints) + RenderAll(CompiledConstraints(g, opts))
    ensures rs.nodes == old(rs.nodes) && rs.nodesInit == old(rs.nodesInit)
  {
    ghost var ruleLines, constraintLines := CompiledLines(g, opts);
    CompileNodes(rs, g, opts, ruleLines, constraintLines);
  }

  /** The network: the directed graph it extends, and the initial-state table once one was built. */
  class Network {
    var graph: Graph
    var nodesInit: Option<seq<InitRow>>

    ghost predicate Valid()
      reads this
    {
      NetworkSpec.Valid(graph)
    }

    /** A new network is empty and has no initial-state table. */
    constructor ()
      ensures Valid() && graph == EmptyGraph && nodesInit == None
    {
      graph := EmptyGraph;
      nodesInit := None;
    }

    /** The inherited add_node, with an optional `feature` attribute. */
    method AddNodeWithFeature(n: string, feature: Option<string>)
      requires Valid()
      modifies this
      ensures Valid() && nodesInit == old(nodesInit)
      ensures graph == if feature.Some? then AddFeature(old(graph), n, feature.value) else AddNode(old(graph), n)
      ensures n in graph.nodes && FeatureOf(graph, n) == if feature.Some? then feature else FeatureOf(old(graph), n)
    {
      AddNodeValid(graph, n);
      if feature.Some? {
        graph := AddFeature(graph, n, feature.value);
      } else {
        graph := AddNode(graph, n);
      }
    }

    /** add_edges_from: one add_edge per target, in order. */
    method AddEdgesFrom(u: string, vs: seq<string>, k: EdgeKind)
      requires Valid()
      modifies this
      ensures Valid() && nodesInit == old(nodesInit)
      ensures graph == AddEdges(old(graph), u, vs, k)
    {
      for i := 0 to |vs|
        invariant Valid() && nodesInit == old(nodesInit)
        invariant graph == AddEdges(old(graph), u, vs[..i], k)
      {
        AddEdgesSnoc(old(graph), u, vs, i, k);
        AddEdgeValid(graph, u, vs[i], k);
        graph := AddEdge(graph, u, vs[i], k);
      }
      assert vs[..|vs|] == vs;
    }

    /** add_predation: predation edges to the main preys, then secondary-predation edges. */
    method AddPredation(predator: string, preys: seq<string>, secs: seq<string>)
      requires Valid()
      modifies this
      ensures Valid() && nodesInit == old(nodesInit)
      ensures graph == AddEdges(AddEdges(old(graph), predator, preys, Predation), predator, secs, SecondaryPredation)
    {
      AddEdgesFrom(predator, preys, Predation);
      AddEdgesFrom(predator, secs, SecondaryPredation);
    }

    /** add_competition: A -> B, and B -> A unless asymmetric. */
    method AddCompetition(a: string, b: string, asymmetric: bool)
      requires Valid()
      modifies this
      ensures Valid() && nodesInit == old(nodesInit)
      ensures graph == CompetitionEdit(old(graph), a, b, asymmetric)
    {
      AddCompetitionEffect(graph, a, b, asymmetric);
      AddEdgeValid(graph, a, b, Competition);
      graph := AddEdge(graph, a, b, Competition);
      if !asymmetric {
        graph := AddEdge(graph, b, a, Competition);
      }
    }

    /** add_mutualism: A -> B and B -> A. */
    method AddMutualism(a: string, b: string)
      requires Valid()
      modifies this
      ensures Valid() && nodesInit == old(nodesInit)
      ensures graph == MutualismEdit(old(graph), a, b)
    {
      AddMutualismEffect(graph, a, b);
      graph := AddEdge(graph, a, b, Mutualism);
      graph := AddEdge(graph, b, a, Mutualism);
    }

    /** initialize_nodes: a fresh table of every node at 0, then each listed node set to 1. */
    method InitializeNodes(present: seq<string>)
      modifies this
      ensures graph == old(graph) && nodesInit == Some(InitTable(graph.nodes, present))
    {
      var ns := graph.nodes;
      var rows := seq(|ns|, k requires 0 <= k < |ns| => InitRow(ns[k], Number(0.0)));
      assert rows == InitTable(ns, present[..0]);
      for i := 0 to |present|
        invariant graph == old(graph) && ns == graph.nodes
        invariant rows == InitTable(ns, present[..i])
      {
        InitTableStep(ns, present, i);
        rows := SetInit(rows, present[i], Number(1.0));
      }
      assert present[..|present|] == present;
      nodesInit := Some(rows);
    }

    /** set_node_init: fails before initialize_nodes; otherwise sets the value of that node's rows. */
    method SetNodeInit(node: string, init: InitValue) returns (outcome: Outcome<NetworkError>)
      modifies this
      ensures graph == old(graph)
      ensures old(nodesInit).None? ==> outcome == Fail(NotInitialised) && nodesInit == None
      ensures old(nodesInit).Some? ==> outcome == Pass && nodesInit == Some(SetInit(old(nodesInit).value, node, init))
    {
      if nodesInit.None? {
        return Fail(NotInitialised);
      }
      nodesInit := Some(SetInit(nodesInit.value, node, init));
      outcome := Pass;
    }

    /**
     * create_rr: without a table, the answer "y" or "Y" first initialises every node to 1. The new
     * rule set lists the graph's nodes and the table's values, then the rules and constraints
     * compiled node by node; a graph with nodes but no edge fails.
     */
    method CreateRr(opts: CompileOptions, answer: string) returns (result: Result<RuleSet, CompileError>)
      requires Valid()
      modifies this
      ensures Valid() && graph == old(graph)
      ensures nodesInit == if old(nodesInit).None? && (answer == "y" || answer == "Y")
                           then Some(InitTable(graph.nodes, graph.nodes)) else old(nodesInit)
      ensures result.Failure? <==> graph.nodes != [] && Edges(graph) == []
      ensures result.Success? ==>
        && fresh(result.value)
        && result.value.nodes == graph.nodes
        && result.value.nodesInit == (if nodesInit.Some? then InitColumn(nodesInit.value) else [])
        && Renderable(CompiledRules(graph, opts)) && Renderable(CompiledConstraints(graph, opts))
        && result.value.rules == RenderAll(CompiledRules(graph, opts))
        && result.value.constraints == RenderAll(CompiledConstraints(graph, opts))
    {
      if nodesInit.None? && (answer == "y" || answer == "Y") {
        InitializeNodes(graph.nodes);
      }
      var rs := new RuleSet(graph.nodes);
      if nodesInit.Some? {
        rs.nodesInit := InitColumn(nodesInit.value);
      }
      if graph.nodes != [] && Edges(graph) == [] {
        return Failure(MissingKindColumn);
      }
      CompileAll(rs, graph, opts);
      assert [] + RenderAll(CompiledRules(graph, opts)) == RenderAll(CompiledRules(graph, opts));
      assert [] + RenderAll(CompiledConstraints(graph, opts)) == RenderAll(CompiledConstraints(graph, opts));
      result := Success(rs);
    }
  }
}
