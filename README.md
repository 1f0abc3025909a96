# rr-network-translator, modelled in Dafny

The library turns an ecological interaction network into a reaction-rule ("rr") file for
rule-based simulators. Species are nodes. Interactions are written as signed implications
such as ` P+ >> N-` ("when P is present, N may disappear"). This project models its core in
Dafny and proves properties about it:

- `utils.py`
  - `create_rule`: renders one rule line, with its errors.
  - The four sign wrappers `apbp`, `apbm`, `ambp`, `ambm`.
- `rr_list.py`, class `rr_list` (`RrList.RuleSet`). A mutable rule set with:
  - the interaction builders `add_predation`, `add_competition`, `add_mutualism`, `add_appearance`;
  - `include_matrix`;
  - `replace_rule` and `replace_constraint`;
  - the two writers, `write_file` and `write_universe_file`.
- `rr_network.py`, class `rr_network` (`RrNetwork.Network`). A directed graph with:
  - edge kinds predation, secondary predation, competition and mutualism;
  - an optional per-node `feature`;
  - an optional initial-state table;
  - the compiler `create_rr`, which derives a rule set from the graph node by node.

Files:

- `wrappers.dfy`: `Option`, `Result`, `Outcome`.
- `seqs.dfy`: `Flatten`, `NoDup` and associativity helpers.
- `utils.dfy`: `CreateRule` is the specification. `BuildRule` and `JoinTokens` are the
  step-by-step construction, proved equal to it. A side is a `str`, a list or tuple, or a
  numpy string (`Chars`), which `create_rule` indexes character by character.
- `interactions.dfy`: rules as structured `Implication` values with an independent rendering.
  - The specification functions of every builder.
  - The meaning of a rule over a set of present species (`Enabled`).
  - The column reading of a community matrix, with the rules `include_matrix` writes as
    intended and as written.
- `rr_list.dfy`: the `RuleSet` class. Every method's new `rules` and `constraints` are stated as
  the old ones followed by the rendering of a specification function.
- `serializers.dfy`: the direct file and the universe file as sequences of lines.
  - A parser, with a round-trip proof for the direct file.
  - The universe rewriting and the universe file, as written and corrected.
- `network_spec.dfy`: the graph as a value.
  - networkx `DiGraph` semantics: insertion-ordered nodes and successors; a later `add_edge`
    overwrites an edge's kind.
  - The edge list in the order `to_pandas_edgelist` produces.
  - The neighbour filters, and the rules compiled for each node.
- `rr_network.dfy`: the `Network` class. Its edge builders, `initialize_nodes`, `set_node_init`
  and `create_rr` are proved against `network_spec.dfy`.

Notes on the code's behaviour:

- `include_matrix` with `"predation"` reads column j: the rows holding 1 are the main preys of
  species j, as the comment at `libraries/rr_list.py:175-176` says (`S_ij = 1` if i is a main
  prey of j). The lower-triangular matrix `[[0,0,0],[1,0,0],[0,1,0]]` over `A, B, C` therefore
  makes B a prey of A and C a prey of B.
- `include_matrix` with `"competition"` calls `add_competition(species, competitor,
  asymmetric=True)` for every 1 in the species' column, which writes `species+ >> competitor-`:
  the column's species outcompetes the row's, as the comment at `libraries/rr_list.py:178-179`
  says. The comment asks for a matrix without diagonal elements; this branch neither checks nor
  zeroes the diagonal.
- `include_matrix` passes the preys and competitors as numpy strings, which `create_rule` prints
  by their last character when they stand alone in a rule (see "## Findings").
- `create_rr` compiles an incoming competition edge `c -> n` as `n+ >> c-`. An incoming
  mutualism edge `m -> n` becomes `m- >> n-`.
- This contradicts the docstring of the network's `add_competition`
  (`libraries/rr_network.py:28`): "if True, only A can exclude B". The call adds the edge
  `A -> B`. `create_rr` then writes `B+ >> A-` for it (`libraries/rr_network.py:103,119`), so B
  excludes A. The `no_competitor` appearance option (`libraries/rr_network.py:76,136`) keeps B
  from appearing while A is present, which again treats A as the stronger species. The model
  compiles the direction the code writes; the intended block is `NetworkSpec.IntendedCompetitionBlock`
  (see "## Findings").

## Model

| member | source | states |
|---|---|---|
| Utils.CreateRule | libraries/utils.py:2-56 | a rule is produced exactly when both sign arguments fit their sides and each side has a last element to read (a list or a numpy name must not be empty, nor the sign of a numpy name); a sign-count mismatch on A is reported before one on B, and a missing last element of A before one of B |
| Utils.BuildRule | libraries/utils.py:15-56 | the step-by-step construction (broadcasting a single sign, accumulating list tokens, prefix, comment) yields exactly the specified result, errors included |
| Utils.NormaliseSigns | libraries/utils.py:15-25 | the argument check of one side succeeds exactly when the signs fit it, broadcasts a single sign over a list side, and otherwise raises for that side |
| Utils.BuildSide | libraries/utils.py:33-48 | one side's accumulated text is its specified text, and reading the last element of an empty side raises for that side |
| Utils.JoinTokens | libraries/utils.py:39-41 | the accumulation loop writes every `id<sign>` token joined by `, ` |
| Utils.BroadcastLhs | libraries/utils.py:16-18 | a single sign given with a list A means that sign for every element |
| Utils.BroadcastRhs | libraries/utils.py:21-23 | the same for a list B |
| Utils.SingleLhs | libraries/utils.py:36-41 | a single id A gives the same rule as the one-element list |
| Utils.SingleRhs | libraries/utils.py:43-48 | the same for a single id B |
| Utils.RulePrefix | libraries/utils.py:28-31 | every rule starts with `[tag] ` when tagged and with one space otherwise |
| Utils.RuleSuffix | libraries/utils.py:50-54 | without a comment the rule ends at its right-hand side; with one, `\t\t # comment` is appended |
| Utils.NumpyNameLhs | libraries/utils.py:36-41 | a name that is not a `str` (a numpy string) given alone with a one-character sign is indexed like a list, so only its last character is printed |
| Utils.NumpyNameRhs | libraries/utils.py:43-48 | the same on the right-hand side |
| Utils.Apbp | libraries/utils.py:60-61 | signs (+, +); succeeds exactly when neither side is an empty list or an empty numpy name |
| Utils.Apbm | libraries/utils.py:62-63 | signs (+, -); succeeds exactly when neither side is an empty list or an empty numpy name |
| Utils.Ambp | libraries/utils.py:64-65 | signs (-, +); succeeds exactly when neither side is an empty list or an empty numpy name |
| Utils.Ambm | libraries/utils.py:66-67 | signs (-, -); succeeds exactly when neither side is an empty list or an empty numpy name |
| Interactions.RenderIsCreateRule | libraries/utils.py:33-50 | the rendering of a structured implication is what create_rule writes for its signed left-hand list and single right-hand id |
| Interactions.PredationRuleCount | libraries/rr_list.py:88-114 | add_predation writes 1 or 3 rules per main prey, one dependence rule unless autotroph or strongly dependent without secondary preys, and one rule per secondary prey |
| Interactions.MainPreyRulesAt | libraries/rr_list.py:88-93 | for each main prey N, in order: `P+ >> N-`, then `N+ >> P+` and `P- >> N+` when appearance is allowed |
| Interactions.PredationRenderable | libraries/rr_list.py:95-104 | every predation rule can be written; the constraint can be written exactly when add_predation does not raise on an empty prey list |
| Interactions.AutotrophNeverStarves | libraries/rr_list.py:95-114 | for an autotroph that does not prey on itself, no rule concludes `P-` and no constraint is added |
| Interactions.LossOfMainPreys | libraries/rr_list.py:95-107 | a non-autotroph with main preys has an enabled rule or constraint concluding `P-` in every state where its main preys are all absent |
| Interactions.StrongDependenceForces | libraries/rr_list.py:98-102 | under strong dependence, the constraint concluding `P-` is enabled whenever all main and secondary preys are absent |
| Interactions.NoViablePrey | libraries/rr_list.py:96-97 | a non-autotroph without main preys gets `P+ >> P-` |
| Interactions.SecondaryPreyEnabled | libraries/rr_list.py:110-115 | a secondary prey is eaten when P is present and, if preferential, only once every main prey is absent |
| Interactions.CompetitionMeaning | libraries/rr_list.py:118-135 | A present can exclude B; B present can exclude A exactly when the competition is symmetric |
| Interactions.MutualismMeaning | libraries/rr_list.py:138-152 | A may disappear when B is absent; B when A is absent exactly when symmetric |
| Interactions.AppearanceMeaning | libraries/rr_list.py:155-164 | the appearance rule concludes `A+` and is enabled exactly when its absence conditions are absent and presence conditions present, or, unconditioned, when A is absent |
| Interactions.ColumnPreys | libraries/rr_list.py:193-200 | the main preys of column j are the other rows holding 1, the secondary preys those strictly between 0 and 1; with distinct node names a species is never its own prey |
| Interactions.MatrixPredationRenderable | libraries/rr_list.py:196-202 | every rule and constraint produced from a predation matrix can be written |
| RrList.Undeclared | libraries/rr_list.py:80-82 | every warning names a listed id that is not a declared node, and every such id is warned about |
| RrList.UndeclaredNone | libraries/rr_list.py:80-82 | no warning exactly when every id is a declared node |
| RrList.RemoveFirst | libraries/rr_list.py:34 | list.remove: the first occurrence is dropped, the rest keeps its order, one fewer of that element |
| RrList.RuleSet.CheckNodes | libraries/rr_list.py:80-82 | the builders' node check returns the undeclared-node warnings |
| RrList.RuleSet.constructor | libraries/rr_list.py:11-15 | a new rule set holds the given nodes, no initial values, no rules and no constraints |
| RrList.RuleSet.ReplaceRule | libraries/rr_list.py:28-35 | a rule is removed (first occurrence) and the new one appended; a missing rule raises; the constraint branch raises on the misspelt attribute without changing anything |
| RrList.RuleSet.ReplaceConstraintAsWritten | libraries/rr_list.py:37-40 | as written, replace_constraint always raises |
| RrList.RuleSet.ReplaceConstraint | libraries/rr_list.py:37-40 | as intended, the constraint is removed (first occurrence) and the new one appended; a missing constraint raises |
| RrList.RuleSet.AddPredation | libraries/rr_list.py:67-114 | the rules become the old ones followed by the rendered predation rules; the dependence constraint is appended unless the call raises on an empty prey list; undeclared nodes are warned |
| RrList.RuleSet.AddCompetition | libraries/rr_list.py:118-135 | appends `A+ >> B-`, then `B+ >> A-` unless asymmetric |
| RrList.RuleSet.AddMutualism | libraries/rr_list.py:138-152 | appends `B- >> A-`, then `A- >> B-` unless asymmetric |
| RrList.RuleSet.AddAppearance | libraries/rr_list.py:155-164 | appends the appearance rule of A |
| RrList.RuleSet.IncludeMatrix | libraries/rr_list.py:169-215 | a non-square matrix raises; predation appends the column-by-column predation rules and constraints (warning on a non-zero diagonal); competition appends `j+ >> c-` for each competitor c of each column j; any other kind only warns |
| RrList.NumpyDyadRhs | libraries/rr_list.py:88-93 | `create_rule(P, s, N, t)` with a numpy prey N writes the rule of N's last character |
| RrList.NumpyDyadLhs | libraries/rr_list.py:91-92 | `create_rule(N, "+", P, "+")` with a numpy prey N writes the rule of N's last character |
| RrList.NumpyPreferentialRule | libraries/rr_list.py:110-112 | the preferential secondary-prey rule with a numpy secondary prey names it by its last character, the list side in full |
| Interactions.MatrixPredationTruncates | libraries/rr_list.py:196-202 | for `[[0, 1], [0, 0]]` over a prey and a predator, the first rule is `predator+ >> prey-` as intended, but as written the prey appears as its last character, a different line for names of two or more characters |
| Interactions.MatrixCompetitionTruncates | libraries/rr_list.py:204-211 | for `[[0, 1], [0, 0]]` the only rule is `second+ >> first-` as intended, but as written the first species appears as its last character |
| RrList.RuleSet.WriteFile | libraries/rr_list.py:219-264 | declining to overwrite raises; otherwise initial values of the wrong length are reset to 1 and the direct-format lines are returned |
| RrList.RuleSet.WriteUniverseFile | libraries/rr_list.py:271-315 | declining to overwrite raises; otherwise the universe-format lines are returned, with the intended `i-` insertion (see Left out) |
| Serializers.NodeLinesRoundTrip | libraries/rr_list.py:246-254 | the node section parses back to the nodes and their presence |
| Serializers.DirectRoundTrip | libraries/rr_list.py:243-264 | the whole direct file parses back to the nodes, their presence, the rules and the constraints |
| Serializers.UniverseAddsCondition | libraries/rr_list.py:303-308 | the universe line of a list rule is create_rule with `i-` added as first condition, tag preserved |
| Serializers.UniverseOfBuilderRule | libraries/rr_list.py:303-308 | the universe line of any rule the builders write is that rule with `i-` prepended to its conditions |
| Serializers.UniverseGuard | libraries/rr_list.py:303-315 | a guarded rule is enabled exactly when `i` is absent and the unguarded rule is enabled |
| Serializers.UniverseRuleLine | libraries/rr_list.py:303-308 | the intended rewriting lengthens the rule by exactly the four characters of ` i-,` |
| Serializers.UniverseInsertion | libraries/rr_list.py:303-308 | the intended rewriting keeps the rule whole and inserts ` i-,` at its start or right after the closing `]` of a leading tag |
| Serializers.UniverseRuleLineAsWritten | libraries/rr_list.py:303-308 | the rewriting as written raises only on a rule containing `]`; a rule without `]` gets ` i-,` in front |
| Serializers.AsWrittenAgrees | libraries/rr_list.py:303-308 | on a rule without `]` the rewriting as written succeeds and equals the intended one |
| Serializers.UniverseLinesAgree | libraries/rr_list.py:295-315 | when no rule contains `]`, the universe file as written is exactly the intended universe lines |
| Serializers.UniverseExample | libraries/rr_list.py:295-311 | nodes absent, `i+`, guarded rules, one `i+ >> N+` per node and `i+ >> i-`, in this order |
| Serializers.CommentBracketMisplacesGuard | libraries/rr_list.py:304-306 | as written, a `] ` in the comment of an untagged rule puts `i-` into the comment |
| Serializers.TrailingBracketRaises | libraries/rr_list.py:304-306 | as written, a `]` not followed by a space makes the rewrite raise |
| Serializers.SecondBracketTruncates | libraries/rr_list.py:304-306 | as written, a second `] ` drops everything after it |
| NetworkSpec.AddEdgeValid | libraries/rr_network.py:29-31 | add_edge keeps the graph well formed, appends new nodes at the end and keeps features |
| NetworkSpec.AddEdgeEffect | libraries/rr_network.py:29-31 | after add_edge the edge has the new kind, overwriting an earlier one; every other edge is unchanged |
| NetworkSpec.AddEdgesEffect | libraries/rr_network.py:21-22 | after add_edges_from every listed edge has the given kind; every other edge is unchanged |
| NetworkSpec.EdgesMember | libraries/rr_network.py:94 | the edge list holds exactly the graph's edges, each with its current kind |
| NetworkSpec.Edges | libraries/rr_network.py:94 | `to_pandas_edgelist`: the edges source by source in node order, each source's edges in successor order (its membership is stated by EdgesMember) |
| NetworkSpec.EdgesEmpty | libraries/rr_network.py:94 | the edge list is empty exactly when no node has a successor |
| NetworkSpec.TargetsMember | libraries/rr_network.py:100-101 | a target filter lists exactly the targets of that node's edges of that kind |
| NetworkSpec.SourcesMember | libraries/rr_network.py:102-104 | a source filter lists exactly the sources of the edges of that kind into the node |
| NetworkSpec.NeighboursMeaning | libraries/rr_network.py:100-104 | preys, secondary preys, predators, competitors and mutualists are exactly the matching out- and in-neighbours |
| NetworkSpec.CompetitionBlockMember | libraries/rr_network.py:118-119 | a node's competition rules are exactly `n+ >> c-` for its competitors |
| NetworkSpec.MutualismBlockMember | libraries/rr_network.py:124-125 | a node's mutualism rules are exactly `m- >> n-` for its mutualists |
| NetworkSpec.NodeCompetitionExact | libraries/rr_network.py:103-119 | `n+ >> c-` is compiled for n exactly when c -> n is a competition edge |
| NetworkSpec.NodeMutualismExact | libraries/rr_network.py:104-125 | `m- >> n-` is compiled for n exactly when m -> n is a mutualism edge |
| NetworkSpec.CompetitionEdgeCompiled | libraries/rr_network.py:96-119 | every competition edge c -> n yields `n+ >> c-` in the compiled rules |
| NetworkSpec.MutualismEdgeCompiled | libraries/rr_network.py:96-125 | every mutualism edge m -> n yields `m- >> n-` in the compiled rules |
| NetworkSpec.CompiledContainsNode | libraries/rr_network.py:96 | every rule compiled for a node belongs to the compiled rule set |
| NetworkSpec.AppearanceBlockHeads | libraries/rr_network.py:130-157 | every appearance rule makes the node present |
| NetworkSpec.AppearanceCount | libraries/rr_network.py:143-157 | one appearance rule without preys or for an autotroph, none for another feature, else one per main prey plus one per secondary prey unless `only_main_prey` |
| NetworkSpec.AppearanceNeedsPrey | libraries/rr_network.py:151-157 | each appearance rule of a featureless predator requires one of its preys present |
| NetworkSpec.NodeRenderable | libraries/rr_network.py:108-157 | everything compiled for one node can be written, so no builder call raises |
| NetworkSpec.OtherFeatureSilences | libraries/rr_network.py:108-115 | a node whose feature is not `autotroph` gets no predation rule, no constraint and, with preys, no appearance rule |
| NetworkSpec.AutotrophCompiled | libraries/rr_network.py:109-112 | an autotroph that does not prey on itself gets no constraint and no predation rule concluding its absence |
| NetworkSpec.FeaturelessPredatorStarves | libraries/rr_network.py:113-114 | a featureless species with main preys has an enabled rule or constraint concluding its absence once they are all absent |
| NetworkSpec.CompiledRenderable | libraries/rr_network.py:96-157 | every compiled rule and constraint can be written |
| RrNetwork.InitTableMeaning | libraries/rr_network.py:46-52 | the table lists the nodes in graph order; a node is present exactly when it was listed |
| RrNetwork.SetInitMeaning | libraries/rr_network.py:54-61 | only the rows of that node change, to the given value |
| RrNetwork.AddPredationEffect | libraries/rr_network.py:15-22 | secondary preys get secondary-predation edges, other main preys predation edges; every edge out of another node, or to a node that is not a prey, is unchanged |
| RrNetwork.AddCompetitionEffect | libraries/rr_network.py:24-31 | A -> B is a competition edge, and so is B -> A when symmetric; every other edge (B -> A too when asymmetric) is unchanged |
| RrNetwork.AddMutualismEffect | libraries/rr_network.py:33-37 | both A -> B and B -> A are mutualism edges; every other edge is unchanged |
| RrNetwork.Network.AddEdgesFrom | libraries/rr_network.py:21-22 | add_edges_from with one kind: the graph becomes one add_edge per target, in order, and stays well formed |
| RrNetwork.Network.AddNodeWithFeature | libraries/rr_network.py:109-111 | the inherited `add_node(n, feature=f)`: the node is present once, its feature is f when given and unchanged otherwise, and the graph stays well formed |
| RrNetwork.Network.AddPredation | libraries/rr_network.py:15-22 | the graph becomes the two add_edges_from edits of the old graph |
| RrNetwork.Network.AddCompetition | libraries/rr_network.py:24-31 | the graph becomes the competition edit of the old graph |
| RrNetwork.AsymmetricCompetitionInverted | libraries/rr_network.py:24-31 | after an asymmetric `add_competition(A, B)` the compiled rules contain `B+ >> A-`, and no node's competition rules contain `A+ >> B-`: B excludes A, against the docstring |
| NetworkSpec.IntendedCompetitionBlockMember | libraries/rr_network.py:28 | the intended competition block of n holds `c+ >> n-` exactly for its competitors c |
| NetworkSpec.IntendedCompetitionExact | libraries/rr_network.py:28 | with the intended block, `c+ >> n-` is compiled for n exactly when there is a competition edge c -> n |
| RrNetwork.AsymmetricCompetitionAsIntended | libraries/rr_network.py:24-31 | with the intended block, an asymmetric `add_competition(A, B)` gives `A+ >> B-`, and no node's block contains `B+ >> A-`: only A can exclude B |
| RrNetwork.Network.AddMutualism | libraries/rr_network.py:33-37 | the graph becomes the mutualism edit of the old graph |
| RrNetwork.Network.InitializeNodes | libraries/rr_network.py:46-52 | the loop over the listed nodes builds the table of all nodes, 1 for listed ones and 0 otherwise |
| RrNetwork.Network.SetNodeInit | libraries/rr_network.py:54-61 | raises without a table; otherwise sets that node's rows |
| RrNetwork.CompilePredation | libraries/rr_network.py:108-114 | the predation call for one node appends exactly its compiled predation rules and dependence constraints |
| RrNetwork.CompileCompetition | libraries/rr_network.py:118-119 | the competition loop appends `n+ >> c-` for each competitor, in order |
| RrNetwork.CompileMutualism | libraries/rr_network.py:124-125 | the mutualism loop appends `m- >> n-` for each mutualist, in order |
| RrNetwork.AppearanceConditions | libraries/rr_network.py:131-141 | the absence conditions are the predators and then the competitors, each only when its option is chosen; the presence conditions are the mutualists when `all_mutualists` is chosen |
| RrNetwork.CompilePerPrey | libraries/rr_network.py:153-157 | one prey loop appends one appearance rule per prey, in order, with that prey added to the presence conditions |
| RrNetwork.CompilePreyAppearance | libraries/rr_network.py:152-157 | one appearance rule per main prey, then one per secondary prey unless `only_main_prey` |
| RrNetwork.CompileNodes | libraries/rr_network.py:96-157 | the loop over the nodes writes each node's lines in turn, in node order |
| RrNetwork.CompileNodeAt | libraries/rr_network.py:96-157 | the body of the node loop for the i-th node appends exactly that node's compiled rules and constraints |
| RrNetwork.CompileStep | libraries/rr_network.py:96-157 | one turn of the node loop extends the lines written for the first i nodes to the first i + 1 |
| RrNetwork.CompileAll | libraries/rr_network.py:96-157 | the loop over the nodes appends exactly the compiled rules and constraints of the graph, which can all be written |
| RrNetwork.CompileNode | libraries/rr_network.py:96-157 | the builder calls for one node append exactly its compiled rules and constraints |
| RrNetwork.CompileAppearance | libraries/rr_network.py:130-157 | the appearance calls for one node append exactly its compiled appearance rules |
| RrNetwork.Network.CreateRr | libraries/rr_network.py:67-160 | answering y initialises every node to 1; a graph with nodes but no edge fails; otherwise the new rule set lists the graph's nodes and table values, then the rules and constraints compiled node by node |

## Left out

- File output is modelled as the returned sequence of lines. The existence check, the overwrite
  prompt and create_rr's initialisation prompt are parameters.
- `warn` diagnostics are modelled as returned `Warning` values. The `print` in `write_file` and
  `show` are not modelled.
- RrNetwork.Network.CreateRr: it compiles competition in the direction the code writes
  (`n+ >> c-` for an edge `c -> n`), not the one the `add_competition` docstring promises. The
  intended block (`NetworkSpec.IntendedCompetitionBlock`) and its lemmas stand beside it (see
  "## Findings").
- RrNetwork.Network.CreateRr: the builders' undefined-node warnings are discarded, and the
  contract does not state that they are empty.
- The `preys_list` type check in `add_predation` is not modelled: Dafny's types already rule out
  a non-list.
- Python aliasing is not modelled: the node list is shared with the caller, and the list
  defaults are mutable.
- Matrices are rows of reals. NaN entries are not modelled. Names taken out of the numpy array
  are numpy strings; how `create_rule` prints them is modelled (`Utils.Chars`). Zeroing
  the diagonal is modelled as ignoring it, which gives the same columns.
- Only the networkx behaviour `rr_network` relies on is modelled: `add_node` with a `feature`
  (`AddNodeWithFeature`), `add_edge`/`add_edges_from` with a kind, and `to_pandas_edgelist`.
  Edges without a kind, node removal and other attributes are not modelled.
- Initial values are `Number(real)` or `Symbol(string)`. pandas column types (numpy floats, the
  object column after storing a string) are not modelled.
- Utils.CreateRule: a single id given with a sign list prints the list's display (`['+', '-']`).
  A sign tuple would print `('+', '-')`, and a one-element tuple `('+',)`; the model has one sign
  list type and always prints brackets. Quotes inside a sign are not escaped as Python's repr
  would escape them.
- RrList.RuleSet.IncludeMatrix: it is stated with the intended rendering, in which every prey and
  competitor is printed in full. As written, a prey or competitor standing alone in a rule is
  printed as its last character (see "## Findings" and `Interactions.MatrixPredationRulesAsWritten`,
  `Interactions.MatrixCompetitionRulesAsWritten`). A node with an empty name would make that
  rendering raise an IndexError; that case is not modelled.
- RrList.RuleSet.WriteUniverseFile: it returns the lines of the intended `i-` insertion
  (`Serializers.UniverseLines`). As written, a rule containing `]` raises or puts `i-` in the
  wrong place (`Serializers.UniverseLinesAsWritten`); the two agree whenever no rule contains `]`
  (`Serializers.UniverseLinesAgree`).
- `network_from_state`, `write_rr_file`, the plotting helpers and the legacy network file are not
  part of this model.

## Findings

| source | as written | input that shows it | evidently intended | confidence | as-written member | corrected member |
|---|---|---|---|---|---|---|
| libraries/rr_list.py:304-306 | any `]` in a rule line is taken as the end of a tag; the line is split on `] ` and only the first two pieces are kept | the untagged rule `create_rule("A", "+", "B", "-", comment="x] y")`, or a tagged rule whose comment contains `] ` or ends with `]` | insert `i-, ` after the tag only when the rule starts with `[tag] `, otherwise prefix ` i-,` | not executed | Serializers.UniverseRuleLineAsWritten | Serializers.UniverseRuleLine |
| libraries/rr_list.py:37-40 | `replace_constraint` (and `replace_rule` with `is_constraint=True`) reads `self.constraits`, which does not exist, and raises | any call, e.g. `replace_constraint(" B- >> A-", " B- >> C-")` | remove the constraint from `self.constraints`, then append the new one | not executed | RrList.RuleSet.ReplaceConstraintAsWritten | RrList.RuleSet.ReplaceConstraint |
| libraries/rr_list.py:196-211 | the preys and competitors are taken out of a numpy array, so they are numpy strings, not `str`; `create_rule` then indexes a name given alone like a list and prints only its last character | nodes `deer, wolf`, `S = [[0, 1], [0, 0]]`, predation: the first rule is ` wolf+ >> r-`; with competition: ` wolf+ >> r-` | pass the names as `str` (e.g. `list(map(str, ...))`), giving ` wolf+ >> deer-` | not executed | Interactions.MatrixPredationTruncates | RrList.RuleSet.IncludeMatrix |
| libraries/rr_network.py:28-29, 103, 119 | `add_competition(A, B, asymmetric=True)` adds the edge `A -> B`, and `create_rr` compiles it from B's side as `add_competition(B, A)` in the rule set, writing `B+ >> A-`: B excludes A | a network with nodes `A, B` after `add_competition("A", "B", asymmetric=True)`: `create_rr` writes ` B+ >> A-` | as the docstring says, only A can exclude B: compile each competitor c of n as `c+ >> n-` | not executed | RrNetwork.AsymmetricCompetitionInverted | RrNetwork.AsymmetricCompetitionAsIntended |
