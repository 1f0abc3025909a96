/**
 * What the rule-set builders emit, as structured implications. Each builder appends the
 * rendering of these implications (through create_rule) to the rule or constraint list;
 * the lemmas here say what the emitted rules mean for the ecosystem states in which they fire.
 */
module Interactions {
  import opened Wrappers
  import opened Seqs
  import opened Utils

  /** A species id with a sign: "+" present, "-" absent. */
  datatype Literal = Literal(id: string, sign: string)

  /** A conjunction of literals implying one literal: every builder rule has this shape. */
  datatype Implication = Implication(lhs: seq<Literal>, rhs: Literal)

  function Pos(id: string): Literal { Literal(id, "+") }

  function Neg(id: string): Literal { Literal(id, "-") }

  /** Every id with the same sign, in order. */
  function Signed(ids: seq<string>, sign: string): (r: seq<Literal>)
    ensures |r| == |ids|
    ensures forall k :: 0 <= k < |ids| ==> r[k] == Literal(ids[k], sign)
  {
    seq(|ids|, k requires 0 <= k < |ids| => Literal(ids[k], sign))
  }

  function Ids(lits: seq<Literal>): (r: seq<string>)
    ensures |r| == |lits|
    ensures forall k :: 0 <= k < |lits| ==> r[k] == lits[k].id
  {
    seq(|lits|, k requires 0 <= k < |lits| => lits[k].id)
  }

  function SignsOf(lits: seq<Literal>): (r: seq<string>)
    ensures |r| == |lits|
    ensures forall k :: 0 <= k < |lits| ==> r[k] == lits[k].sign
  {
    seq(|lits|, k requires 0 <= k < |lits| => lits[k].sign)
  }

  /** One condition as printed: the id followed by its sign. */
  function LiteralText(l: Literal): string
  {
    l.id + l.sign
  }

  /** The conditions of a rule, separated by `, `. */
  function LhsText(lits: seq<Literal>): string
    requires lits != []
  {
    if |lits| == 1 then LiteralText(lits[0]) else LiteralText(lits[0]) + ", " + LhsText(lits[1..])
  }

  /** The line of an implication in the rule syntax: ` a+, b- >> c-`. */
  function Render(imp: Implication): string
    requires imp.lhs != []
  {
    " " + LhsText(imp.lhs) + " >> " + LiteralText(imp.rhs)
  }

  lemma {:induction false} LhsTextJoin(lits: seq<Literal>)
    requires lits != []
    ensures LhsText(lits) == Join(Tokens(Ids(lits), SignsOf(lits)), ", ")
  {
    var toks := Tokens(Ids(lits), SignsOf(lits));
    if |lits| > 1 {
      LhsTextJoin(lits[1..]);
      assert toks[1..] == Tokens(Ids(lits[1..]), SignsOf(lits[1..]));
    }
  }

  /**
   * create_rule, given the ids and signs of an implication (list left-hand side, single right-hand
   * side, no tag, no comment), succeeds and writes exactly its line.
   */
  lemma RenderIsCreateRule(imp: Implication)
    requires imp.lhs != []
    ensures CreateRule(Items(Ids(imp.lhs)), SignList(SignsOf(imp.lhs)), Single(imp.rhs.id), Sign(imp.rhs.sign), "", "")
         == Success(Render(imp))
  {
    LhsTextJoin(imp.lhs);
    var r := CreateRule(Items(Ids(imp.lhs)), SignList(SignsOf(imp.lhs)), Single(imp.rhs.id), Sign(imp.rhs.sign), "", "");
    var tail := " " + LhsText(imp.lhs) + " >> " + LiteralText(imp.rhs);
    assert r.value == tail + "";
    assert tail + "" == tail;
  }

  predicate Renderable(imps: seq<Implication>)
  {
    forall k :: 0 <= k < |imps| ==> imps[k].lhs != []
  }

  function RenderAll(imps: seq<Implication>): (lines: seq<string>)
    requires Renderable(imps)
    ensures |lines| == |imps|
    ensures forall k :: 0 <= k < |imps| ==> lines[k] == Render(imps[k])
  {
    seq(|imps|, k requires 0 <= k < |imps| => Render(imps[k]))
  }

  lemma RenderAllAppend(a: seq<Implication>, b: seq<Implication>)
    requires Renderable(a) && Renderable(b)
    ensures Renderable(a + b) && RenderAll(a + b) == RenderAll(a) + RenderAll(b)
  {
  }

  // ---------------------------------------------------------------------------
  // Meaning of a rule: a state is the set of species present.

  predicate Holds(lit: Literal, present: set<string>)
  {
    if lit.sign == "+" then lit.id in present else lit.sign == "-" && lit.id !in present
  }

  /** The rule may fire in the state: its whole left-hand side holds. */
  predicate Enabled(imp: Implication, present: set<string>)
  {
    forall k :: 0 <= k < |imp.lhs| ==> Holds(imp.lhs[k], present)
  }

  predicate AllAbsent(ids: seq<string>, present: set<string>)
  {
    forall k :: 0 <= k < |ids| ==> ids[k] !in present
  }

  predicate AllPresent(ids: seq<string>, present: set<string>)
  {
    forall k :: 0 <= k < |ids| ==> ids[k] in present
  }

  /** A rule with one condition is enabled exactly when that condition holds. */
  lemma EnabledSingle(l: Literal, r: Literal, present: set<string>)
    ensures Enabled(Implication([l], r), present) <==> Holds(l, present)
  {
    assert [l][0] == l;
  }

  // ---------------------------------------------------------------------------
  // add_predation

  /** The keyword options of add_predation. */
  datatype PredationOptions = PredationOptions(
    preferential: bool, autotroph: bool, strongDependence: bool, allowAppearance: bool)

  /** add_predation's defaults: preferential, not autotroph, no strong dependence, no appearance. */
  const DefaultPredation := PredationOptions(true, false, false, false)

  /** The rules for one main prey: `P+ >> N-`, then `N+ >> P+` and `P- >> N+` when appearance is allowed. */
  function PreyRules(p: string, n: string, appear: bool): seq<Implication>
  {
    [Implication([Pos(p)], Neg(n))]
      + (if appear then [Implication([Pos(n)], Pos(p)), Implication([Neg(p)], Pos(n))] else [])
  }

  function MainPreyRules(p: string, mains: seq<string>, appear: bool): seq<Implication>
  {
    Flatten(seq(|mains|, k requires 0 <= k < |mains| => PreyRules(p, mains[k], appear)))
  }

  /** The rule by which a non-autotroph predator disappears when its preys are gone. */
  function DependenceRules(p: string, mains: seq<string>, secs: seq<string>, opts: PredationOptions)
    : seq<Implication>
  {
    if opts.autotroph then []
    else if mains == [] then [Implication([Pos(p)], Neg(p))]
    else if opts.strongDependence && secs == [] then []
    else [Implication(Signed(mains, "-"), Neg(p))]
  }

  /** Under strong dependence: the constraint that the predator is absent once every prey is. */
  function DependenceConstraints(p: string, mains: seq<string>, secs: seq<string>, opts: PredationOptions)
    : seq<Implication>
  {
    if opts.autotroph || !opts.strongDependence then []
    else [Implication(Signed(mains + secs, "-"), Neg(p))]
  }

  function SecondaryRule(p: string, mains: seq<string>, s: string, preferential: bool): Implication
  {
    if preferential then Implication([Pos(p)] + Signed(mains, "-"), Neg(s))
    else Implication([Pos(p)], Neg(s))
  }

  function SecondaryRules(p: string, mains: seq<string>, secs: seq<string>, preferential: bool)
    : (r: seq<Implication>)
    ensures |r| == |secs|
    ensures forall k :: 0 <= k < |secs| ==> r[k] == SecondaryRule(p, mains, secs[k], preferential)
  {
    seq(|secs|, k requires 0 <= k < |secs| => SecondaryRule(p, mains, secs[k], preferential))
  }

  /** Every rule add_predation appends, in order: main preys, dependence, secondary preys. */
  function PredationRules(p: string, mains: seq<string>, secs: seq<string>, opts: PredationOptions)
    : seq<Implication>
  {
    MainPreyRules(p, mains, opts.allowAppearance) + DependenceRules(p, mains, secs, opts)
      + SecondaryRules(p, mains, secs, opts.preferential)
  }

  /**
   * add_predation raises (an IndexError inside create_rule) exactly when the strong-dependence
   * constraint would have an empty left-hand side: no main and no secondary prey.
   */
  predicate PredationFails(mains: seq<string>, secs: seq<string>, opts: PredationOptions)
  {
    !opts.autotroph && opts.strongDependence && mains == [] && secs == []
  }

  lemma {:induction false} MainPreyRulesRenderable(p: string, mains: seq<string>, appear: bool)
    ensures Renderable(MainPreyRules(p, mains, appear))
  {
    var blocks := seq(|mains|, k requires 0 <= k < |mains| => PreyRules(p, mains[k], appear));
    forall i | 0 <= i < |MainPreyRules(p, mains, appear)|
      ensures MainPreyRules(p, mains, appear)[i].lhs != []
    {
      var imp := MainPreyRules(p, mains, appear)[i];
      FlattenMember(blocks, imp);
    }
  }

  /** Every rule add_predation emits has a left-hand side; its constraint has one unless the call fails. */
  lemma PredationRenderable(p: string, mains: seq<string>, secs: seq<string>, opts: PredationOptions)
    ensures Renderable(PredationRules(p, mains, secs, opts))
    ensures !PredationFails(mains, secs, opts) <==> Renderable(DependenceConstraints(p, mains, secs, opts))
  {
    MainPreyRulesRenderable(p, mains, opts.allowAppearance);
    if !opts.autotroph && opts.strongDependence {
      var c := DependenceConstraints(p, mains, secs, opts);
      assert |c[0].lhs| == |mains| + |secs|;
    }
  }

  /**
   * Main prey k owns a block of one rule (three with appearance), in list order:
   * `P+ >> N-`, then `N+ >> P+` and `P- >> N+`.
   */
  lemma MainPreyRulesAt(p: string, mains: seq<string>, appear: bool, k: nat)
    requires k < |mains|
    ensures var w := if appear then 3 else 1;
      var rules := MainPreyRules(p, mains, appear);
      |rules| == w * |mains| && w * k + w <= |rules|
      && rules[w * k] == Implication([Pos(p)], Neg(mains[k]))
      && (appear ==>
            rules[w * k + 1] == Implication([Pos(mains[k])], Pos(p))
            && rules[w * k + 2] == Implication([Neg(p)], Pos(mains[k])))
  {
    var w := if appear then 3 else 1;
    var blocks := seq(|mains|, i requires 0 <= i < |mains| => PreyRules(p, mains[i], appear));
    FlattenUniform(blocks, w, k, 0);
    if appear {
      FlattenUniform(blocks, w, k, 1);
      FlattenUniform(blocks, w, k, 2);
    }
    assert (k + 1) * w <= |mains| * w;
  }

  /** The number of rules add_predation appends. */
  lemma PredationRuleCount(p: string, mains: seq<string>, secs: seq<string>, opts: PredationOptions)
    ensures |PredationRules(p, mains, secs, opts)|
         == (if opts.allowAppearance then 3 else 1) * |mains|
          + (if opts.autotroph || (mains != [] && opts.strongDependence && secs == []) then 0 else 1)
          + |secs|
  {
    var w := if opts.allowAppearance then 3 else 1;
    var blocks := seq(|mains|, i requires 0 <= i < |mains| => PreyRules(p, mains[i], opts.allowAppearance));
    FlattenUniformLength(blocks, w);
  }

  /** Each rule for a main prey concludes on the prey or on the predator being present. */
  lemma MainPreyRuleHeads(p: string, mains: seq<string>, appear: bool, imp: Implication)
    requires imp in MainPreyRules(p, mains, appear)
    ensures exists k :: 0 <= k < |mains| && imp.rhs in {Neg(mains[k]), Pos(p), Pos(mains[k])}
  {
    var blocks := seq(|mains|, i requires 0 <= i < |mains| => PreyRules(p, mains[i], appear));
    FlattenMember(blocks, imp);
    var i :| 0 <= i < |blocks| && imp in blocks[i];
    assert imp.rhs in {Neg(mains[i]), Pos(p), Pos(mains[i])};
  }

  /**
   * An autotroph never starves: nothing add_predation emits concludes that the predator is absent,
   * and no constraint is added (as long as it does not prey on itself).
   */
  lemma AutotrophNeverStarves(p: string, mains: seq<string>, secs: seq<string>, opts: PredationOptions)
    requires opts.autotroph && p !in mains && p !in secs
    ensures DependenceConstraints(p, mains, secs, opts) == []
    ensures forall imp :: imp in PredationRules(p, mains, secs, opts) ==> imp.rhs != Neg(p)
  {
    forall imp | imp in PredationRules(p, mains, secs, opts)
      ensures imp.rhs != Neg(p)
    {
      if imp in MainPreyRules(p, mains, opts.allowAppearance) {
        MainPreyRuleHeads(p, mains, opts.allowAppearance, imp);
        var k :| 0 <= k < |mains| && imp.rhs in {Neg(mains[k]), Pos(p), Pos(mains[k])};
        assert mains[k] != p;
      } else {
        var rest := SecondaryRules(p, mains, secs, opts.preferential);
        assert imp in rest;
        var k :| 0 <= k < |rest| && rest[k] == imp;
        assert secs[k] != p;
      }
    }
  }

  /**
   * A non-autotroph with main preys can disappear once all of them are absent: some emitted rule
   * or constraint concluding `P-` is enabled in every such state.
   */
  lemma LossOfMainPreys(p: string, mains: seq<string>, secs: seq<string>, opts: PredationOptions,
                        present: set<string>)
    requires !opts.autotroph && mains != [] && AllAbsent(mains, present)
    ensures exists imp :: (imp in PredationRules(p, mains, secs, opts) || imp in DependenceConstraints(p, mains, secs, opts))
                          && imp.rhs == Neg(p) && Enabled(imp, present)
  {
    var main := Implication(Signed(mains, "-"), Neg(p));
    assert Enabled(main, present);
    if opts.strongDependence && secs == [] {
      assert mains + secs == mains;
      assert main in DependenceConstraints(p, mains, secs, opts);
    } else {
      assert main in DependenceRules(p, mains, secs, opts);
      assert main in PredationRules(p, mains, secs, opts);
    }
  }

  /**
   * Under strong dependence a non-autotroph with some prey is forced out: in every state where all
   * its main and secondary preys are absent, its constraint concluding `P-` is enabled.
   */
  lemma StrongDependenceForces(p: string, mains: seq<string>, secs: seq<string>, opts: PredationOptions,
                               present: set<string>)
    requires !opts.autotroph && opts.strongDependence && !PredationFails(mains, secs, opts)
    requires AllAbsent(mains, present) && AllAbsent(secs, present)
    ensures exists c :: c in DependenceConstraints(p, mains, secs, opts) && c.rhs == Neg(p) && Enabled(c, present)
  {
    var c := Implication(Signed(mains + secs, "-"), Neg(p));
    forall k | 0 <= k < |mains + secs|
      ensures Holds(c.lhs[k], present)
    {
      if k >= |mains| {
        assert (mains + secs)[k] == secs[k - |mains|];
      }
    }
    assert c in DependenceConstraints(p, mains, secs, opts);
  }

  /** A predator without main preys gets `P+ >> P-`: it has no viable prey at all. */
  lemma NoViablePrey(p: string, secs: seq<string>, opts: PredationOptions)
    requires !opts.autotroph
    ensures Implication([Pos(p)], Neg(p)) in PredationRules(p, [], secs, opts)
  {
    assert Implication([Pos(p)], Neg(p)) in DependenceRules(p, [], secs, opts);
  }

  /**
   * A preferential predator eats a secondary prey only once all its main preys are absent;
   * otherwise whenever it is present.
   */
  lemma SecondaryPreyEnabled(p: string, mains: seq<string>, s: string, preferential: bool, present: set<string>)
    requires p !in mains
    ensures SecondaryRule(p, mains, s, preferential).rhs == Neg(s)
    ensures Enabled(SecondaryRule(p, mains, s, preferential), present)
        <==> p in present && (preferential ==> AllAbsent(mains, present))
  {
    var imp := SecondaryRule(p, mains, s, preferential);
    if Enabled(imp, present) && preferential {
      forall k | 0 <= k < |mains|
        ensures mains[k] !in present
      {
        assert imp.lhs[k + 1] == Neg(mains[k]);
        assert Holds(imp.lhs[k + 1], present);
      }
      assert Holds(imp.lhs[0], present);
    }
    if !preferential {
      EnabledSingle(Pos(p), Neg(s), present);
    } else if p in present && AllAbsent(mains, present) {
      forall k | 0 <= k < |imp.lhs|
        ensures Holds(imp.lhs[k], present)
      {
        if k > 0 {
          assert imp.lhs[k] == Neg(mains[k - 1]);
          assert mains[k - 1] !in present;
        } else {
          assert imp.lhs[0] == Pos(p);
        }
      }
    }
  }

  // ---------------------------------------------------------------------------
  // add_competition, add_mutualism, add_appearance

  /** `A+ >> B-`, then `B+ >> A-` unless asymmetric. */
  function CompetitionRules(a: string, b: string, asymmetric: bool): seq<Implication>
  {
    [Implication([Pos(a)], Neg(b))] + (if asymmetric then [] else [Implication([Pos(b)], Neg(a))])
  }

  /** `B- >> A-`, then `A- >> B-` unless asymmetric. */
  function MutualismRules(a: string, b: string, asymmetric: bool): seq<Implication>
  {
    [Implication([Neg(b)], Neg(a))] + (if asymmetric then [] else [Implication([Neg(a)], Neg(b))])
  }

  /** `A- >> A+` without conditions; otherwise the absence conditions `-`, the presence conditions `+`, `>> A+`. */
  function AppearanceRule(a: string, absence: seq<string>, presence: seq<string>): Implication
  {
    if |absence| + |presence| == 0 then Implication([Neg(a)], Pos(a))
    else Implication(Signed(absence, "-") + Signed(presence, "+"), Pos(a))
  }

  /**
   * Competition: A present can exclude B; B present can exclude A exactly when the competition is
   * symmetric.
   */
  lemma CompetitionMeaning(a: string, b: string, asymmetric: bool, present: set<string>)
    requires a != b
    ensures (exists imp :: imp in CompetitionRules(a, b, asymmetric) && imp.rhs == Neg(b) && Enabled(imp, present))
        <==> a in present
    ensures (exists imp :: imp in CompetitionRules(a, b, asymmetric) && imp.rhs == Neg(a) && Enabled(imp, present))
        <==> !asymmetric && b in present
  {
    var first := Implication([Pos(a)], Neg(b));
    var second := Implication([Pos(b)], Neg(a));
    EnabledSingle(Pos(a), Neg(b), present);
    EnabledSingle(Pos(b), Neg(a), present);
    assert CompetitionRules(a, b, asymmetric)[0] == first;
    if !asymmetric {
      assert CompetitionRules(a, b, asymmetric)[1] == second;
    }
  }

  /** Mutualism: A depends on B (A can disappear when B is absent), and B on A unless asymmetric. */
  lemma MutualismMeaning(a: string, b: string, asymmetric: bool, present: set<string>)
    requires a != b
    ensures (exists imp :: imp in MutualismRules(a, b, asymmetric) && imp.rhs == Neg(a) && Enabled(imp, present))
        <==> b !in present
    ensures (exists imp :: imp in MutualismRules(a, b, asymmetric) && imp.rhs == Neg(b) && Enabled(imp, present))
        <==> !asymmetric && a !in present
  {
    var first := Implication([Neg(b)], Neg(a));
    var second := Implication([Neg(a)], Neg(b));
    EnabledSingle(Neg(b), Neg(a), present);
    EnabledSingle(Neg(a), Neg(b), present);
    assert MutualismRules(a, b, asymmetric)[0] == first;
    if !asymmetric {
      assert MutualismRules(a, b, asymmetric)[1] == second;
    }
  }

  /**
   * The appearance rule makes A present; it may fire when every absence condition is absent and
   * every presence condition present, or, with no condition at all, whenever A is absent.
   */
  lemma AppearanceMeaning(a: string, absence: seq<string>, presence: seq<string>, present: set<string>)
    ensures AppearanceRule(a, absence, presence).rhs == Pos(a)
    ensures AppearanceRule(a, absence, presence).lhs != []
    ensures Enabled(AppearanceRule(a, absence, presence), present)
        <==> if absence == [] && presence == [] then a !in present
             else AllAbsent(absence, present) && AllPresent(presence, present)
  {
    var imp := AppearanceRule(a, absence, presence);
    if absence != [] || presence != [] {
      var n := |absence|;
      assert forall k :: 0 <= k < n ==> imp.lhs[k] == Neg(absence[k]);
      assert forall k :: n <= k < |imp.lhs| ==> imp.lhs[k] == Pos(presence[k - n]);
      if Enabled(imp, present) {
        forall k | 0 <= k < |presence|
          ensures presence[k] in present
        {
          assert Holds(imp.lhs[n + k], present);
        }
        forall k | 0 <= k < n
          ensures absence[k] !in present
        {
          assert Holds(imp.lhs[k], present);
        }
      }
    } else {
      EnabledSingle(Neg(a), Pos(a), present);
    }
  }

  // ---------------------------------------------------------------------------
  // include_matrix

  /** A matrix given as rows: n rows of n entries. */
  predicate IsSquare(S: seq<seq<real>>, n: nat)
  {
    |S| == n && forall k :: 0 <= k < n ==> |S[k]| == n
  }

  /** The elements whose flag is set, in order (numpy boolean indexing). */
  function Selected(ids: seq<string>, keep: seq<bool>): (r: seq<string>)
    requires |keep| == |ids|
    ensures |r| <= |ids|
  {
    if ids == [] then []
    else (if keep[0] then [ids[0]] else []) + Selected(ids[1..], keep[1..])
  }

  /** What boolean indexing selects: exactly the flagged elements. */
  lemma {:induction false} SelectedMember(ids: seq<string>, keep: seq<bool>, x: string)
    requires |keep| == |ids|
    ensures x in Selected(ids, keep) <==> exists k :: 0 <= k < |ids| && keep[k] && ids[k] == x
  {
    if ids != [] {
      SelectedMember(ids[1..], keep[1..], x);
      if exists k :: 0 <= k < |ids| && keep[k] && ids[k] == x {
        var k :| 0 <= k < |ids| && keep[k] && ids[k] == x;
        if k > 0 {
          assert keep[1..][k - 1] && ids[1..][k - 1] == x;
        }
      }
      if x in Selected(ids[1..], keep[1..]) {
        var k :| 0 <= k < |ids[1..]| && keep[1..][k] && ids[1..][k] == x;
        assert keep[k + 1] && ids[k + 1] == x;
      }
    }
  }

  /** Main preys of species j: the rows whose entry in column j is 1, the diagonal set to zero. */
  function MainPreysIn(nodes: seq<string>, S: seq<seq<real>>, j: nat): seq<string>
    requires IsSquare(S, |nodes|) && j < |nodes|
  {
    Selected(nodes, seq(|nodes|, k requires 0 <= k < |nodes| => k != j && S[k][j] == 1.0))
  }

  /** Secondary preys of species j: the rows whose entry in column j lies strictly between 0 and 1. */
  function SecondaryPreysIn(nodes: seq<string>, S: seq<seq<real>>, j: nat): seq<string>
    requires IsSquare(S, |nodes|) && j < |nodes|
  {
    Selected(nodes, seq(|nodes|, k requires 0 <= k < |nodes| => k != j && 0.0 < S[k][j] < 1.0))
  }

  /** Competitors species j can exclude: the rows whose entry in column j is 1 (the diagonal is kept). */
  function CompetitorsIn(nodes: seq<string>, S: seq<seq<real>>, j: nat): seq<string>
    requires IsSquare(S, |nodes|) && j < |nodes|
  {
    Selected(nodes, seq(|nodes|, k requires 0 <= k < |nodes| => S[k][j] == 1.0))
  }

  /** Column j calls add_predation only if it lists at least one prey. */
  function ColumnPredationRules(nodes: seq<string>, S: seq<seq<real>>, j: nat, opts: PredationOptions)
    : seq<Implication>
    requires IsSquare(S, |nodes|) && j < |nodes|
  {
    var mains := MainPreysIn(nodes, S, j);
    var secs := SecondaryPreysIn(nodes, S, j);
    if mains + secs != [] then PredationRules(nodes[j], mains, secs, opts) else []
  }

  function ColumnPredationConstraints(nodes: seq<string>, S: seq<seq<real>>, j: nat, opts: PredationOptions)
    : seq<Implication>
    requires IsSquare(S, |nodes|) && j < |nodes|
  {
    var mains := MainPreysIn(nodes, S, j);
    var secs := SecondaryPreysIn(nodes, S, j);
    if mains + secs != [] then DependenceConstraints(nodes[j], mains, secs, opts) else []
  }

  function ColumnCompetitionRules(nodes: seq<string>, S: seq<seq<real>>, j: nat): seq<Implication>
    requires IsSquare(S, |nodes|) && j < |nodes|
  {
    var comps := CompetitorsIn(nodes, S, j);
    Flatten(seq(|comps|, c requires 0 <= c < |comps| => CompetitionRules(nodes[j], comps[c], true)))
  }

  function MatrixPredationRules(nodes: seq<string>, S: seq<seq<real>>, opts: PredationOptions): seq<Implication>
    requires IsSquare(S, |nodes|)
  {
    Flatten(seq(|nodes|, j requires 0 <= j < |nodes| => ColumnPredationRules(nodes, S, j, opts)))
  }

  function MatrixPredationConstraints(nodes: seq<string>, S: seq<seq<real>>, opts: PredationOptions)
    : seq<Implication>
    requires IsSquare(S, |nodes|)
  {
    Flatten(seq(|nodes|, j requires 0 <= j < |nodes| => ColumnPredationConstraints(nodes, S, j, opts)))
  }

  function MatrixCompetitionRules(nodes: seq<string>, S: seq<seq<real>>): seq<Implication>
    requires IsSquare(S, |nodes|)
  {
    Flatten(seq(|nodes|, j requires 0 <= j < |nodes| => ColumnCompetitionRules(nodes, S, j)))
  }

  // ---------------------------------------------------------------------------
  // include_matrix as written: the preys and competitors come out of a numpy array, so they are
  // numpy names, and create_rule prints a numpy name given alone as its last character only.

  /** The text create_rule prints for a non-empty numpy name given alone with a one-character sign. */
  function Shown(x: string): (r: string)
    ensures x != [] ==> r == [x[|x| - 1]]
  {
    if x == [] then [] else [x[|x| - 1]]
  }

  function ShownAll(xs: seq<string>): (r: seq<string>)
    ensures |r| == |xs|
    ensures forall k :: 0 <= k < |xs| ==> r[k] == Shown(xs[k])
  {
    seq(|xs|, k requires 0 <= k < |xs| => Shown(xs[k]))
  }

  /**
   * add_predation called with numpy preys: each prey given alone (`P+ >> N-`, `N+ >> P+`, `P- >> N+`
   * and the secondary `... >> n-`) is shown by its last character; the lists keep the full names.
   */
  function PredationRulesAsWritten(p: string, mains: seq<string>, secs: seq<string>, opts: PredationOptions)
    : seq<Implication>
  {
    MainPreyRules(p, ShownAll(mains), opts.allowAppearance) + DependenceRules(p, mains, secs, opts)
      + SecondaryRules(p, mains, ShownAll(secs), opts.preferential)
  }

  function ColumnPredationRulesAsWritten(nodes: seq<string>, S: seq<seq<real>>, j: nat, opts: PredationOptions)
    : seq<Implication>
    requires IsSquare(S, |nodes|) && j < |nodes|
  {
    var mains := MainPreysIn(nodes, S, j);
    var secs := SecondaryPreysIn(nodes, S, j);
    if mains + secs != [] then PredationRulesAsWritten(nodes[j], mains, secs, opts) else []
  }

  function MatrixPredationRulesAsWritten(nodes: seq<string>, S: seq<seq<real>>, opts: PredationOptions)
    : seq<Implication>
    requires IsSquare(S, |nodes|)
  {
    Flatten(seq(|nodes|, j requires 0 <= j < |nodes| => ColumnPredationRulesAsWritten(nodes, S, j, opts)))
  }

  /** add_competition(species, competitor, asymmetric=True) with a numpy competitor: `j+ >> c-`, c shown by its last character. */
  function ColumnCompetitionRulesAsWritten(nodes: seq<string>, S: seq<seq<real>>, j: nat): seq<Implication>
    requires IsSquare(S, |nodes|) && j < |nodes|
  {
    var comps := CompetitorsIn(nodes, S, j);
    Flatten(seq(|comps|, c requires 0 <= c < |comps| => CompetitionRules(nodes[j], Shown(comps[c]), true)))
  }

  function MatrixCompetitionRulesAsWritten(nodes: seq<string>, S: seq<seq<real>>): seq<Implication>
    requires IsSquare(S, |nodes|)
  {
    Flatten(seq(|nodes|, j requires 0 <= j < |nodes| => ColumnCompetitionRulesAsWritten(nodes, S, j)))
  }

  /** Boolean indexing of a two-element array. */
  lemma SelectedPair(a: string, b: string, keepA: bool, keepB: bool)
    ensures Selected([a, b], [keepA, keepB]) == (if keepA then [a] else []) + (if keepB then [b] else [])
  {
    assert [a, b][1..] == [b] && [keepA, keepB][1..] == [keepB];
    assert [b][1..] == [] && [keepB][1..] == [];
  }

  /** The main-prey block of a single prey is that prey's rules. */
  lemma OneMainPrey(p: string, n: string, appear: bool)
    ensures MainPreyRules(p, [n], appear) == PreyRules(p, n, appear)
  {
    var blocks := seq(1, k requires 0 <= k < 1 => PreyRules(p, [n][k], appear));
    assert blocks == [PreyRules(p, n, appear)];
    assert Flatten(blocks) == blocks[0] + Flatten(blocks[1..]);
    assert blocks[0] + [] == blocks[0];
  }

  /** The rules of two columns, in column order. */
  lemma FlattenPair(x: seq<Implication>, y: seq<Implication>)
    ensures Flatten([x, y]) == x + y
  {
    assert [x, y][1..] == [y] && [y][1..] == [];
    assert Flatten([y]) == y + Flatten([y][1..]);
  }

  /** In the matrix `[[0, 1], [0, 0]]` only column 1 lists a prey (or competitor): row 0. */
  lemma PairColumns(a: string, b: string)
    ensures var nodes, S := [a, b], [[0.0, 1.0], [0.0, 0.0]];
      && IsSquare(S, 2)
      && MainPreysIn(nodes, S, 0) == [] && SecondaryPreysIn(nodes, S, 0) == []
      && MainPreysIn(nodes, S, 1) == [a] && SecondaryPreysIn(nodes, S, 1) == []
      && CompetitorsIn(nodes, S, 0) == [] && CompetitorsIn(nodes, S, 1) == [a]
  {
    var S := [[0.0, 1.0], [0.0, 0.0]];
    assert seq(2, k requires 0 <= k < 2 => k != 0 && S[k][0] == 1.0) == [false, false];
    assert seq(2, k requires 0 <= k < 2 => k != 0 && 0.0 < S[k][0] < 1.0) == [false, false];
    assert seq(2, k requires 0 <= k < 2 => k != 1 && S[k][1] == 1.0) == [true, false];
    assert seq(2, k requires 0 <= k < 2 => k != 1 && 0.0 < S[k][1] < 1.0) == [false, false];
    assert seq(2, k requires 0 <= k < 2 => S[k][0] == 1.0) == [false, false];
    assert seq(2, k requires 0 <= k < 2 => S[k][1] == 1.0) == [true, false];
    SelectedPair(a, b, false, false);
    SelectedPair(a, b, true, false);
  }

  /** In the matrix `[[0, 1], [0, 0]]` column 1 gives the one rule `b+ >> a-`, column 0 none. */
  lemma PairCompetition(a: string, b: string)
    ensures var nodes, S := [a, b], [[0.0, 1.0], [0.0, 0.0]];
      && IsSquare(S, 2)
      && ColumnCompetitionRules(nodes, S, 0) == [] && ColumnCompetitionRulesAsWritten(nodes, S, 0) == []
      && ColumnCompetitionRules(nodes, S, 1) == [Implication([Pos(b)], Neg(a))]
      && ColumnCompetitionRulesAsWritten(nodes, S, 1) == [Implication([Pos(b)], Neg(Shown(a)))]
  {
    PairColumns(a, b);
    var pairs := seq(1, c requires 0 <= c < 1 => CompetitionRules(b, [a][c], true));
    var shown := seq(1, c requires 0 <= c < 1 => CompetitionRules(b, Shown([a][c]), true));
    assert pairs == [CompetitionRules(b, a, true)] && shown == [CompetitionRules(b, Shown(a), true)];
    assert Flatten(pairs) == pairs[0] + Flatten(pairs[1..]);
    assert Flatten(shown) == shown[0] + Flatten(shown[1..]);
  }

  /** Naming a species by its last character changes the rendered rule. */
  lemma RenderTruncated(p: string, x: string)
    requires |x| >= 2
    ensures Render(Implication([Pos(p)], Neg(x))) != Render(Implication([Pos(p)], Neg([x[|x| - 1]])))
  {
    assert |Render(Implication([Pos(p)], Neg(x)))| == |p| + |x| + 7;
    assert |Render(Implication([Pos(p)], Neg([x[|x| - 1]])))| == |p| + 8;
  }

  /**
   * With the matrix `[[0, 1], [0, 0]]` the second species preys on the first: as intended the first
   * rule is `predator+ >> prey-`, but as written include_matrix passes the prey as a numpy name,
   * so the rule names it by its last character, and a prey name of two or more characters is lost.
   */
  lemma MatrixPredationTruncates(prey: string, predator: string, opts: PredationOptions)
    requires |prey| >= 2
    ensures var rules := MatrixPredationRules([prey, predator], [[0.0, 1.0], [0.0, 0.0]], opts);
      rules != [] && rules[0] == Implication([Pos(predator)], Neg(prey))
    ensures var rules := MatrixPredationRulesAsWritten([prey, predator], [[0.0, 1.0], [0.0, 0.0]], opts);
      rules != [] && rules[0] == Implication([Pos(predator)], Neg([prey[|prey| - 1]]))
    ensures Render(Implication([Pos(predator)], Neg(prey))) != Render(Implication([Pos(predator)], Neg([prey[|prey| - 1]])))
  {
    var nodes, S := [prey, predator], [[0.0, 1.0], [0.0, 0.0]];
    PairColumns(prey, predator);
    OneMainPrey(predator, prey, opts.allowAppearance);
    OneMainPrey(predator, Shown(prey), opts.allowAppearance);
    assert ShownAll([prey]) == [Shown(prey)];
    var rb := seq(2, j requires 0 <= j < 2 => ColumnPredationRules(nodes, S, j, opts));
    var wb := seq(2, j requires 0 <= j < 2 => ColumnPredationRulesAsWritten(nodes, S, j, opts));
    assert rb == [[], rb[1]] && wb == [[], wb[1]];
    assert rb[1][0] == Implication([Pos(predator)], Neg(prey));
    assert wb[1][0] == Implication([Pos(predator)], Neg(Shown(prey)));
    FlattenPair([], rb[1]);
    FlattenPair([], wb[1]);
    RenderTruncated(predator, prey);
  }

  /**
   * With the matrix `[[0, 1], [0, 0]]` the second species outcompetes the first: as intended
   * `second+ >> first-`, but as written the first is named by its last character.
   */
  lemma MatrixCompetitionTruncates(first: string, second: string)
    requires |first| >= 2
    ensures var rules := MatrixCompetitionRules([first, second], [[0.0, 1.0], [0.0, 0.0]]);
      rules == [Implication([Pos(second)], Neg(first))]
    ensures var rules := MatrixCompetitionRulesAsWritten([first, second], [[0.0, 1.0], [0.0, 0.0]]);
      rules == [Implication([Pos(second)], Neg([first[|first| - 1]]))]
    ensures Render(Implication([Pos(second)], Neg(first))) != Render(Implication([Pos(second)], Neg([first[|first| - 1]])))
  {
    var nodes, S := [first, second], [[0.0, 1.0], [0.0, 0.0]];
    PairCompetition(first, second);
    var rb := seq(2, j requires 0 <= j < 2 => ColumnCompetitionRules(nodes, S, j));
    var wb := seq(2, j requires 0 <= j < 2 => ColumnCompetitionRulesAsWritten(nodes, S, j));
    assert rb == [[], rb[1]] && wb == [[], wb[1]];
    FlattenPair([], rb[1]);
    FlattenPair([], wb[1]);
    RenderTruncated(second, first);
  }

  /**
   * Main and secondary preys of species j are exactly the other species whose entry in column j
   * is 1, respectively strictly between 0 and 1; the species itself is never its own prey.
   */
  lemma ColumnPreys(nodes: seq<string>, S: seq<seq<real>>, j: nat, x: string)
    requires IsSquare(S, |nodes|) && j < |nodes|
    ensures x in MainPreysIn(nodes, S, j) <==> exists k :: 0 <= k < |nodes| && k != j && S[k][j] == 1.0 && nodes[k] == x
    ensures x in SecondaryPreysIn(nodes, S, j)
        <==> exists k :: 0 <= k < |nodes| && k != j && 0.0 < S[k][j] < 1.0 && nodes[k] == x
    ensures NoDup(nodes) ==> nodes[j] !in MainPreysIn(nodes, S, j) && nodes[j] !in SecondaryPreysIn(nodes, S, j)
  {
    SelectedMember(nodes, seq(|nodes|, k requires 0 <= k < |nodes| => k != j && S[k][j] == 1.0), x);
    SelectedMember(nodes, seq(|nodes|, k requires 0 <= k < |nodes| => k != j && 0.0 < S[k][j] < 1.0), x);
    SelectedMember(nodes, seq(|nodes|, k requires 0 <= k < |nodes| => k != j && S[k][j] == 1.0), nodes[j]);
    SelectedMember(nodes, seq(|nodes|, k requires 0 <= k < |nodes| => k != j && 0.0 < S[k][j] < 1.0), nodes[j]);
  }

  /** A predation matrix never makes a call that fails: every call has at least one prey. */
  lemma MatrixPredationRenderable(nodes: seq<string>, S: seq<seq<real>>, opts: PredationOptions)
    requires IsSquare(S, |nodes|)
    ensures Renderable(MatrixPredationRules(nodes, S, opts))
    ensures Renderable(MatrixPredationConstraints(nodes, S, opts))
  {
    var rb := seq(|nodes|, j requires 0 <= j < |nodes| => ColumnPredationRules(nodes, S, j, opts));
    var cb := seq(|nodes|, j requires 0 <= j < |nodes| => ColumnPredationConstraints(nodes, S, j, opts));
    forall j | 0 <= j < |nodes|
      ensures Renderable(rb[j]) && Renderable(cb[j])
    {
      PredationRenderable(nodes[j], MainPreysIn(nodes, S, j), SecondaryPreysIn(nodes, S, j), opts);
    }
    forall i | 0 <= i < |Flatten(rb)|
      ensures Flatten(rb)[i].lhs != []
    {
      FlattenMember(rb, Flatten(rb)[i]);
    }
    forall i | 0 <= i < |Flatten(cb)|
      ensures Flatten(cb)[i].lhs != []
    {
      FlattenMember(cb, Flatten(cb)[i]);
    }
  }
}
