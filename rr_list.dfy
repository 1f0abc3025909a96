/**
 * The rule set under construction (the class rr_list): its nodes, their initial values, the
 * rules and the constraints, the builders that append to them, and the two file writers.
 */
module RrList {
  import opened Wrappers
  import opened Seqs
  import opened Utils
  import opened Interactions
  import opened Serializers

  /** What the library reports through `warnings.warn` before carrying on. */
  datatype Warning =
    | UndefinedNode(id: string)
    | NonZeroDiagonal
    | UnknownInteraction(kind: string)
    | InitialisationReset

  /** The answer given when the file to write already exists. */
  datatype Decision = Overwrite | Abort

  /** The ValueError raised when the user declines to overwrite an existing file. */
  datatype WriteError = FileExists

  /** list.remove on a missing element (ValueError), or the misspelt `constraits` attribute (AttributeError). */
  datatype ReplaceError = NotInList | MissingAttribute

  /** The ValueError raised for a community matrix whose size is not the number of nodes. */
  datatype MatrixError = NotSquare

  /** One warning per listed id that is not a declared node, in the order of the ids. */
  function Undeclared(ids: seq<string>, nodes: seq<string>): (r: seq<Warning>)
    ensures |r| <= |ids|
    ensures forall w :: w in r ==> w.UndefinedNode? && w.id in ids && w.id !in nodes
    ensures forall x :: x in ids && x !in nodes ==> UndefinedNode(x) in r
  {
    if ids == [] then []
    else
      var init := ids[..|ids| - 1];
      var last := ids[|ids| - 1];
      assert ids == init + [last];
      Undeclared(init, nodes) + (if last in nodes then [] else [UndefinedNode(last)])
  }

  /** No warning exactly when every listed id is a declared node. */
  lemma UndeclaredNone(ids: seq<string>, nodes: seq<string>)
    ensures Undeclared(ids, nodes) == [] <==> forall x :: x in ids ==> x in nodes
  {
    var r := Undeclared(ids, nodes);
    if r != [] {
      assert r[0] in r;
    }
  }

  // ---------------------------------------------------------------------------
  // The lines create_rule returns for the calls the builders make

  /** `create_rule(x, s, y, t)` on single ids writes the line of `x s >> y t`. */
  lemma DyadRule(x: string, s: string, y: string, t: string)
    ensures CreateRule(Single(x), Sign(s), Single(y), Sign(t), "", "")
         == Success(Render(Implication([Literal(x, s)], Literal(y, t))))
  {
    SingleLhs(x, s, Single(y), Sign(t), "", "");
    var lits := [Literal(x, s)];
    assert Ids(lits) == [x] && SignsOf(lits) == [s];
    RenderIsCreateRule(Implication(lits, Literal(y, t)));
  }

  /** A list left-hand side whose per-element signs are those of the literals writes their line. */
  lemma ListRuleRender(lits: seq<Literal>, ids: seq<string>, signs: Signs, y: string, t: string)
    requires lits != [] && Ids(lits) == ids && SignsFit(Items(ids), signs)
    requires ElementSigns(ids, signs) == SignsOf(lits)
    ensures CreateRule(Items(ids), signs, Single(y), Sign(t), "", "") == Success(Render(Implication(lits, Literal(y, t))))
  {
    assert SideText(Items(ids), signs) == SideText(Items(ids), SignList(SignsOf(lits)));
    RenderIsCreateRule(Implication(lits, Literal(y, t)));
  }

  /** `create_rule(ids, s, y, t)`: one sign broadcast over the list; an empty list raises. */
  lemma SignedRule(ids: seq<string>, s: string, y: string, t: string)
    ensures ids == [] ==> CreateRule(Items(ids), Sign(s), Single(y), Sign(t), "", "") == Failure(EmptySide(Lhs))
    ensures ids != [] ==> CreateRule(Items(ids), Sign(s), Single(y), Sign(t), "", "")
                          == Success(Render(Implication(Signed(ids, s), Literal(y, t))))
  {
    if ids != [] {
      var lits := Signed(ids, s);
      assert Ids(lits) == ids;
      assert SignsOf(lits) == Repeat(s, |ids|);
      ListRuleRender(lits, ids, Sign(s), y, t);
    }
  }

  /** The preferential secondary-prey call: `[P] + mains` with `["+"] + ["-"] * len(mains)`. */
  lemma PreferentialRule(p: string, mains: seq<string>, s: string)
    ensures CreateRule(Items([p] + mains), SignList(["+"] + Repeat("-", |mains|)), Single(s), Sign("-"), "", "")
         == Success(Render(SecondaryRule(p, mains, s, true)))
  {
    var lits := [Pos(p)] + Signed(mains, "-");
    assert Ids(lits) == [p] + mains;
    assert SignsOf(lits) == ["+"] + Repeat("-", |mains|);
    ListRuleRender(lits, [p] + mains, SignList(["+"] + Repeat("-", |mains|)), s, "-");
  }

  /** The conditional appearance call: absences with `-`, presences with `+`. */
  lemma AppearanceCall(a: string, absence: seq<string>, presence: seq<string>)
    requires |absence| + |presence| > 0
    ensures CreateRule(Items(absence + presence), SignList(Repeat("-", |absence|) + Repeat("+", |presence|)),
                       Single(a), Sign("+"), "", "")
         == Success(Render(AppearanceRule(a, absence, presence)))
  {
    var lits := Signed(absence, "-") + Signed(presence, "+");
    assert Ids(lits) == absence + presence;
    assert SignsOf(lits) == Repeat("-", |absence|) + Repeat("+", |presence|);
    ListRuleRender(lits, absence + presence, SignList(Repeat("-", |absence|) + Repeat("+", |presence|)), a, "+");
  }

  /** `create_rule(x, s, y, t)` with a numpy name y: the line of `x s >> y' t`, y' the last character of y. */
  lemma NumpyDyadRhs(x: string, s: string, y: string, t: string)
    requires y != [] && |t| == 1
    ensures CreateRule(Single(x), Sign(s), Chars(y), Sign(t), "", "")
         == Success(Render(Implication([Literal(x, s)], Literal(Shown(y), t))))
  {
    NumpyNameRhs(Single(x), Sign(s), y, t, "", "");
    DyadRule(x, s, Shown(y), t);
  }

  /** `create_rule(x, s, y, t)` with a numpy name x: the line of `x' s >> y t`, x' the last character of x. */
  lemma NumpyDyadLhs(x: string, s: string, y: string, t: string)
    requires x != [] && |s| == 1
    ensures CreateRule(Chars(x), Sign(s), Single(y), Sign(t), "", "")
         == Success(Render(Implication([Literal(Shown(x), s)], Literal(y, t))))
  {
    NumpyNameLhs(x, s, Single(y), Sign(t), "", "");
    DyadRule(Shown(x), s, y, t);
  }

  /** The preferential secondary-prey call with a numpy secondary prey s: s is shown by its last character. */
  lemma NumpyPreferentialRule(p: string, mains: seq<string>, s: string)
    requires s != []
    ensures CreateRule(Items([p] + mains), SignList(["+"] + Repeat("-", |mains|)), Chars(s), Sign("-"), "", "")
         == Success(Render(SecondaryRule(p, mains, Shown(s), true)))
  {
    NumpyNameRhs(Items([p] + mains), SignList(["+"] + Repeat("-", |mains|)), s, "-", "", "");
    PreferentialRule(p, mains, Shown(s));
  }

  /** The builders' call `create_rule(x, s, y, t)` with one id and one sign on each side. */
  method CreateDyad(x: string, s: string, y: string, t: string) returns (line: string)
    ensures line == Render(Implication([Literal(x, s)], Literal(y, t)))
  {
    var r := BuildRule(Single(x), Sign(s), Single(y), Sign(t), "", "");
    DyadRule(x, s, y, t);
    line := r.value;
  }

  /** The builders' call `create_rule(ids, s, y, t)` with one sign for the whole list. */
  method CreateSigned(ids: seq<string>, s: string, y: string, t: string) returns (r: Result<string, RuleError>)
    ensures ids == [] ==> r == Failure(EmptySide(Lhs))
    ensures ids != [] ==> r == Success(Render(Implication(Signed(ids, s), Literal(y, t))))
  {
    r := BuildRule(Items(ids), Sign(s), Single(y), Sign(t), "", "");
    SignedRule(ids, s, y, t);
  }

  /** add_predation's call for a secondary prey of a preferential predator. */
  method CreatePreferential(p: string, mains: seq<string>, s: string) returns (line: string)
    ensures line == Render(SecondaryRule(p, mains, s, true))
  {
    var r := BuildRule(Items([p] + mains), SignList(["+"] + Repeat("-", |mains|)), Single(s), Sign("-"), "", "");
    PreferentialRule(p, mains, s);
    line := r.value;
  }

  /** add_appearance's call when there are conditions. */
  method CreateAppearance(a: string, absence: seq<string>, presence: seq<string>) returns (line: string)
    requires |absence| + |presence| > 0
    ensures line == Render(AppearanceRule(a, absence, presence))
  {
    var r := BuildRule(Items(absence + presence), SignList(Repeat("-", |absence|) + Repeat("+", |presence|)),
                       Single(a), Sign("+"), "", "");
    AppearanceCall(a, absence, presence);
    line := r.value;
  }

  /** The lines add_predation appends for one main prey. */
  lemma PreyLines(p: string, n: string, appear: bool)
    ensures Renderable(PreyRules(p, n, appear))
    ensures RenderAll(PreyRules(p, n, appear))
         == [Render(Implication([Pos(p)], Neg(n)))]
            + (if appear then [Render(Implication([Pos(n)], Pos(p))), Render(Implication([Neg(p)], Pos(n)))] else [])
  {
  }

  /** The lines add_competition appends. */
  lemma CompetitionLines(a: string, b: string, asymmetric: bool)
    ensures Renderable(CompetitionRules(a, b, asymmetric))
    ensures RenderAll(CompetitionRules(a, b, asymmetric))
         == [Render(Implication([Pos(a)], Neg(b)))] + (if asymmetric then [] else [Render(Implication([Pos(b)], Neg(a)))])
  {
  }

  /** The lines add_mutualism appends. */
  lemma MutualismLines(a: string, b: string, asymmetric: bool)
    ensures Renderable(MutualismRules(a, b, asymmetric))
    ensures RenderAll(MutualismRules(a, b, asymmetric))
         == [Render(Implication([Neg(b)], Neg(a)))] + (if asymmetric then [] else [Render(Implication([Neg(a)], Neg(b)))])
  {
  }

  lemma MainPreyRulesStep(p: string, mains: seq<string>, i: nat, appear: bool)
    requires i < |mains|
    ensures MainPreyRules(p, mains[..i + 1], appear) == MainPreyRules(p, mains[..i], appear) + PreyRules(p, mains[i], appear)
  {
    var blocks := seq(i + 1, k requires 0 <= k < i + 1 => PreyRules(p, mains[..i + 1][k], appear));
    assert blocks[..i] == seq(i, k requires 0 <= k < i => PreyRules(p, mains[..i][k], appear));
    assert blocks[..i + 1] == blocks;
    FlattenPrefixSnoc(blocks, i);
  }

  /** Cutting out position i keeps the rest in order and drops one copy of s[i]. */
  lemma SpliceOut(s: seq<string>, i: nat)
    requires i < |s|
    ensures var r := s[..i] + s[i + 1..];
      && |r| == |s| - 1
      && multiset(r) == multiset(s) - multiset{s[i]}
      && (forall k :: 0 <= k < i ==> r[k] == s[k])
      && (forall k :: i <= k < |r| ==> r[k] == s[k + 1])
  {
    var before, after := s[..i], s[i + 1..];
    assert s == before + [s[i]] + after;
    assert multiset(s) == multiset(before) + multiset{s[i]} + multiset(after);
    assert multiset(before + after) == multiset(before) + multiset(after);
  }

  /** The position list.remove deletes: the first occurrence. */
  function FirstIndex(s: seq<string>, x: string): (i: nat)
    requires x in s
    ensures i < |s| && s[i] == x
    ensures forall k :: 0 <= k < i ==> s[k] != x
  {
    if s[0] == x then 0 else 1 + FirstIndex(s[1..], x)
  }

  /** `list.remove(x)`: the first occurrence of x is deleted, the rest keeps its order. */
  function RemoveFirst(s: seq<string>, x: string): (r: seq<string>)
    requires x in s
    ensures |r| == |s| - 1
    ensures multiset(r) == multiset(s) - multiset{x}
    ensures forall k :: 0 <= k < FirstIndex(s, x) ==> r[k] == s[k]
    ensures forall k :: FirstIndex(s, x) <= k < |r| ==> r[k] == s[k + 1]
  {
    var i := FirstIndex(s, x);
    SpliceOut(s, i);
    s[..i] + s[i + 1..]
  }

  /** Whether some diagonal entry of the matrix is not zero. */
  predicate DiagonalNonZero(S: seq<seq<real>>)
  {
    exists j :: 0 <= j < |S| && j < |S[j]| && S[j][j] != 0.0
  }

  /** The main and secondary preys read off a column are declared nodes. */
  lemma ColumnPreysDeclared(nodes: seq<string>, S: seq<seq<real>>, j: nat)
    requires IsSquare(S, |nodes|) && j < |nodes|
    ensures Undeclared(MainPreysIn(nodes, S, j) + [nodes[j]] + SecondaryPreysIn(nodes, S, j), nodes) == []
  {
    var ids := MainPreysIn(nodes, S, j) + [nodes[j]] + SecondaryPreysIn(nodes, S, j);
    forall x | x in ids
      ensures x in nodes
    {
      ColumnPreys(nodes, S, j, x);
    }
    UndeclaredNone(ids, nodes);
  }

  lemma CompetitorsDeclared(nodes: seq<string>, S: seq<seq<real>>, j: nat, c: nat)
    requires IsSquare(S, |nodes|) && j < |nodes| && c < |CompetitorsIn(nodes, S, j)|
    ensures Undeclared([nodes[j], CompetitorsIn(nodes, S, j)[c]], nodes) == []
  {
    var comps := CompetitorsIn(nodes, S, j);
    var k := (comps[c], 0).1;
    SelectedMember(nodes, seq(|nodes|, k requires 0 <= k < |nodes| => S[k][j] == 1.0), comps[c]);
    assert comps[c] in comps;
    UndeclaredNone([nodes[j], comps[c]], nodes);
  }

  /** The three blocks add_predation appends make up PredationRules; the secondary block is empty when it fails. */
  lemma PredationLines(p: string, mains: seq<string>, secs: seq<string>, opts: PredationOptions)
    ensures Renderable(MainPreyRules(p, mains, opts.allowAppearance)) && Renderable(DependenceRules(p, mains, secs, opts))
         && Renderable(SecondaryRules(p, mains, secs, opts.preferential))
    ensures Renderable(PredationRules(p, mains, secs, opts))
    ensures RenderAll(PredationRules(p, mains, secs, opts))
         == RenderAll(MainPreyRules(p, mains, opts.allowAppearance)) + RenderAll(DependenceRules(p, mains, secs, opts))
            + RenderAll(SecondaryRules(p, mains, secs, opts.preferential))
    ensures PredationFails(mains, secs, opts) ==> SecondaryRules(p, mains, secs, opts.preferential) == []
  {
    var main := MainPreyRules(p, mains, opts.allowAppearance);
    var dep := DependenceRules(p, mains, secs, opts);
    var sec := SecondaryRules(p, mains, secs, opts.preferential);
    PredationRenderable(p, mains, secs, opts);
    assert Renderable(main) && Renderable(dep) && Renderable(sec) by {
      assert forall k :: 0 <= k < |main| ==> main[k] == PredationRules(p, mains, secs, opts)[k];
      assert forall k :: 0 <= k < |dep| ==> dep[k] == PredationRules(p, mains, secs, opts)[|main| + k];
      assert forall k :: 0 <= k < |sec| ==> sec[k] == PredationRules(p, mains, secs, opts)[|main| + |dep| + k];
    }
    RenderAllAppend(main, dep);
    RenderAllAppend(main + dep, sec);
  }

  /** The lines written for a list, one per element, in order. */
  method WriteAll(items: seq<string>) returns (lines: seq<string>)
    ensures lines == items
  {
    lines := [];
    for i := 0 to |items|
      invariant lines == items[..i]
    {
      lines := lines + [items[i]];
      assert items[..i + 1] == items[..i] + [items[i]];
    }
    assert items[..|items|] == items;
  }

  class RuleSet {
    var nodes: seq<string>
    var nodesInit: seq<InitValue>
    var rules: seq<string>
    var constraints: seq<string>

    /** A rule set over the given nodes, with no rule, no constraint and no initial values. */
    constructor (nodesList: seq<string>)
      ensures nodes == nodesList && nodesInit == [] && rules == [] && constraints == []
    {
      nodes := nodesList;
      nodesInit := [];
      rules := [];
      constraints := [];
    }

    /** The node check the builders start with. */
    method CheckNodes(ids: seq<string>) returns (warnings: seq<Warning>)
      ensures warnings == Undeclared(ids, nodes)
    {
      warnings := [];
      for i := 0 to |ids|
        invariant warnings == Undeclared(ids[..i], nodes)
      {
        assert ids[..i + 1][..i] == ids[..i];
        if ids[i] !in nodes {
          warnings := warnings + [UndefinedNode(ids[i])];
        }
      }
      assert ids[..|ids|] == ids;
    }

    /** replace_rule: list.remove then append; the constraint branch reads a misspelt attribute and raises. */
    method ReplaceRule(former: string, replacement: string, isConstraint: bool) returns (outcome: Outcome<ReplaceError>)
      modifies this
      ensures isConstraint ==> outcome == Fail(MissingAttribute) && rules == old(rules)
      ensures !isConstraint && former !in old(rules) ==> outcome == Fail(NotInList) && rules == old(rules)
      ensures !isConstraint && former in old(rules) ==>
        outcome == Pass && rules == RemoveFirst(old(rules), former) + [replacement]
      ensures nodes == old(nodes) && nodesInit == old(nodesInit) && constraints == old(constraints)
    {
      if isConstraint {
        return Fail(MissingAttribute);
      }
      if former !in rules {
        return Fail(NotInList);
      }
      rules := RemoveFirst(rules, former) + [replacement];
      outcome := Pass;
    }

    /** replace_constraint as written: the misspelt attribute raises before anything changes. */
    method ReplaceConstraintAsWritten(former: string, replacement: string) returns (outcome: Outcome<ReplaceError>)
      ensures outcome == Fail(MissingAttribute)
    {
      outcome := Fail(MissingAttribute);
    }

    /** replace_constraint as intended: list.remove on the constraints, then append. */
    method ReplaceConstraint(former: string, replacement: string) returns (outcome: Outcome<ReplaceError>)
      modifies this
      ensures former !in old(constraints) ==> outcome == Fail(NotInList) && constraints == old(constraints)
      ensures former in old(constraints) ==>
        outcome == Pass && constraints == RemoveFirst(old(constraints), former) + [replacement]
      ensures nodes == old(nodes) && nodesInit == old(nodesInit) && rules == old(rules)
    {
      if former !in constraints {
        return Fail(NotInList);
      }
      constraints := RemoveFirst(constraints, former) + [replacement];
      outcome := Pass;
    }

    /** The main-prey block of add_predation. */
    method AppendMainPreyRules(predator: string, mains: seq<string>, appear: bool)
      modifies this
      ensures Renderable(MainPreyRules(predator, mains, appear))
      ensures rules == old(rules) + RenderAll(MainPreyRules(predator, mains, appear))
      ensures nodes == old(nodes) && nodesInit == old(nodesInit) && constraints == old(constraints)
    {
      for i := 0 to |mains|
        invariant Renderable(MainPreyRules(predator, mains[..i], appear))
        invariant rules == old(rules) + RenderAll(MainPreyRules(predator, mains[..i], appear))
        invariant nodes == old(nodes) && nodesInit == old(nodesInit) && constraints == old(constraints)
      {
        ghost var done := RenderAll(MainPreyRules(predator, mains[..i], appear));
        AppendPreyRules(predator, mains[i], appear);
        MainPreyRulesStep(predator, mains, i, appear);
        RenderAllAppend(MainPreyRules(predator, mains[..i], appear), PreyRules(predator, mains[i], appear));
        AppendAssoc(old(rules), done, RenderAll(PreyRules(predator, mains[i], appear)));
      }
      assert mains[..|mains|] == mains;
    }

    /** The rules add_predation appends for one main prey. */
    method AppendPreyRules(predator: string, n: string, appear: bool)
      modifies this
      ensures Renderable(PreyRules(predator, n, appear))
      ensures rules == old(rules) + RenderAll(PreyRules(predator, n, appear))
      ensures nodes == old(nodes) && nodesInit == old(nodesInit) && constraints == old(constraints)
    {
      var eats := CreateDyad(predator, "+", n, "-");
      rules := rules + [eats];
      if appear {
        var follows := CreateDyad(n, "+", predator, "+");
        rules := rules + [follows];
        var regrows := CreateDyad(predator, "-", n, "+");
        rules := rules + [regrows];
      }
      PreyLines(predator, n, appear);
    }

    /** The dependence block of add_predation: the starvation rule and the strong-dependence constraint. */
    method AppendDependence(predator: string, mains: seq<string>, secs: seq<string>, opts: PredationOptions)
      returns (outcome: Outcome<RuleError>)
      modifies this
      ensures outcome == if PredationFails(mains, secs, opts) then Fail(EmptySide(Lhs)) else Pass
      ensures Renderable(DependenceRules(predator, mains, secs, opts))
      ensures rules == old(rules) + RenderAll(DependenceRules(predator, mains, secs, opts))
      ensures PredationFails(mains, secs, opts) ==> constraints == old(constraints)
      ensures !PredationFails(mains, secs, opts) ==>
        && Renderable(DependenceConstraints(predator, mains, secs, opts))
        && constraints == old(constraints) + RenderAll(DependenceConstraints(predator, mains, secs, opts))
      ensures nodes == old(nodes) && nodesInit == old(nodesInit)
    {
      outcome := Pass;
      if !opts.autotroph {
        if |mains| == 0 {
          var starves := CreateDyad(predator, "+", predator, "-");
          rules := rules + [starves];
          if opts.strongDependence {
            var c := CreateSigned(secs, "-", predator, "-");
            if c.Failure? {
              return Fail(c.error);
            }
            assert mains + secs == secs;
            constraints := constraints + [c.value];
          }
        } else {
          if opts.strongDependence {
            var c := CreateSigned(mains + secs, "-", predator, "-");
            constraints := constraints + [c.value];
            if |secs| > 0 {
              var r := CreateSigned(mains, "-", predator, "-");
              rules := rules + [r.value];
            }
          } else {
            var r := CreateSigned(mains, "-", predator, "-");
            rules := rules + [r.value];
          }
        }
      }
    }

    /** The secondary-prey block of add_predation. */
    method AppendSecondaryRules(predator: string, mains: seq<string>, secs: seq<string>, preferential: bool)
      modifies this
      ensures Renderable(SecondaryRules(predator, mains, secs, preferential))
      ensures rules == old(rules) + RenderAll(SecondaryRules(predator, mains, secs, preferential))
      ensures nodes == old(nodes) && nodesInit == old(nodesInit) && constraints == old(constraints)
    {
      for i := 0 to |secs|
        invariant Renderable(SecondaryRules(predator, mains, secs[..i], preferential))
        invariant rules == old(rules) + RenderAll(SecondaryRules(predator, mains, secs[..i], preferential))
        invariant nodes == old(nodes) && nodesInit == old(nodesInit) && constraints == old(constraints)
      {
        ghost var done := RenderAll(SecondaryRules(predator, mains, secs[..i], preferential));
        var s := secs[i];
        if preferential {
          var eats := CreatePreferential(predator, mains, s);
          rules := rules + [eats];
        } else {
          var eats := CreateDyad(predator, "+", s, "-");
          rules := rules + [eats];
        }
        assert SecondaryRules(predator, mains, secs[..i + 1], preferential)
            == SecondaryRules(predator, mains, secs[..i], preferential) + [SecondaryRule(predator, mains, s, preferential)];
        RenderAllAppend(SecondaryRules(predator, mains, secs[..i], preferential), [SecondaryRule(predator, mains, s, preferential)]);
        AppendAssoc(old(rules), done, [Render(SecondaryRule(predator, mains, s, preferential))]);
      }
      assert secs[..|secs|] == secs;
    }

    /**
     * add_predation: the node check, then the main-prey rules, the dependence rule and constraint,
     * and the secondary-prey rules; with strong dependence and no prey at all it raises after
     * appending the starvation rule.
     */
    method AddPredation(predator: string, mains: seq<string>, secs: seq<string>, opts: PredationOptions)
      returns (warnings: seq<Warning>, outcome: Outcome<RuleError>)
      modifies this
      ensures warnings == Undeclared(mains + [predator] + secs, old(nodes))
      ensures outcome == if PredationFails(mains, secs, opts) then Fail(EmptySide(Lhs)) else Pass
      ensures Renderable(PredationRules(predator, mains, secs, opts))
      ensures rules == old(rules) + RenderAll(PredationRules(predator, mains, secs, opts))
      ensures PredationFails(mains, secs, opts) ==> constraints == old(constraints)
      ensures !PredationFails(mains, secs, opts) ==>
        && Renderable(DependenceConstraints(predator, mains, secs, opts))
        && constraints == old(constraints) + RenderAll(DependenceConstraints(predator, mains, secs, opts))
      ensures nodes == old(nodes) && nodesInit == old(nodesInit)
    {
      warnings := CheckNodes(mains + [predator] + secs);
      PredationLines(predator, mains, secs, opts);
      ghost var main := RenderAll(MainPreyRules(predator, mains, opts.allowAppearance));
      ghost var dep := RenderAll(DependenceRules(predator, mains, secs, opts));
      ghost var sec := RenderAll(SecondaryRules(predator, mains, secs, opts.preferential));
      AppendMainPreyRules(predator, mains, opts.allowAppearance);
      outcome := AppendDependence(predator, mains, secs, opts);
      AppendAssoc(old(rules), main, dep);
      if outcome.Fail? {
        assert sec == [] && main + dep + sec == main + dep;
        return;
      }
      AppendSecondaryRules(predator, mains, secs, opts.preferential);
      AppendAssoc(old(rules), main + dep, sec);
    }

    /** add_competition: `A+ >> B-`, and `B+ >> A-` unless asymmetric. */
    method AddCompetition(a: string, b: string, asymmetric: bool) returns (warnings: seq<Warning>)
      modifies this
      ensures warnings == Undeclared([a, b], old(nodes))
      ensures Renderable(CompetitionRules(a, b, asymmetric))
      ensures rules == old(rules) + RenderAll(CompetitionRules(a, b, asymmetric))
      ensures nodes == old(nodes) && nodesInit == old(nodesInit) && constraints == old(constraints)
    {
      warnings := CheckNodes([a, b]);
      var excludes := CreateDyad(a, "+", b, "-");
      rules := rules + [excludes];
      if !asymmetric {
        var excluded := CreateDyad(b, "+", a, "-");
        rules := rules + [excluded];
      }
      CompetitionLines(a, b, asymmetric);
    }

    /** add_mutualism: `B- >> A-`, and `A- >> B-` unless asymmetric. */
    method AddMutualism(a: string, b: string, asymmetric: bool) returns (warnings: seq<Warning>)
      modifies this
      ensures warnings == Undeclared([a, b], old(nodes))
      ensures Renderable(MutualismRules(a, b, asymmetric))
      ensures rules == old(rules) + RenderAll(MutualismRules(a, b, asymmetric))
      ensures nodes == old(nodes) && nodesInit == old(nodesInit) && constraints == old(constraints)
    {
      warnings := CheckNodes([a, b]);
      var needs := CreateDyad(b, "-", a, "-");
      rules := rules + [needs];
      if !asymmetric {
        var needed := CreateDyad(a, "-", b, "-");
        rules := rules + [needed];
      }
      MutualismLines(a, b, asymmetric);
    }

    /** add_appearance: one rule making A appear under the given absences and presences. */
    method AddAppearance(a: string, absence: seq<string>, presence: seq<string>)
      modifies this
      ensures AppearanceRule(a, absence, presence).lhs != []
      ensures rules == old(rules) + [Render(AppearanceRule(a, absence, presence))]
      ensures nodes == old(nodes) && nodesInit == old(nodesInit) && constraints == old(constraints)
    {
      if |absence| + |presence| == 0 {
        var appears := CreateDyad(a, "-", a, "+");
        rules := rules + [appears];
      } else {
        var appears := CreateAppearance(a, absence, presence);
        rules := rules + [appears];
      }
    }

    /**
     * include_matrix: predation calls add_predation for every column listing a prey (the diagonal
     * ignored), competition calls add_competition(species, competitor, asymmetric) for every 1 in
     * the column, any other kind only warns.
     */
    method IncludeMatrix(S: seq<seq<real>>, kind: string, opts: PredationOptions)
      returns (warnings: seq<Warning>, outcome: Outcome<MatrixError>)
      modifies this
      ensures !IsSquare(S, |old(nodes)|) ==>
        outcome == Fail(NotSquare) && warnings == [] && rules == old(rules) && constraints == old(constraints)
      ensures IsSquare(S, |old(nodes)|) && kind == "predation" ==>
        && outcome == Pass
        && warnings == (if DiagonalNonZero(S) then [NonZeroDiagonal] else [])
        && Renderable(MatrixPredationRules(old(nodes), S, opts))
        && Renderable(MatrixPredationConstraints(old(nodes), S, opts))
        && rules == old(rules) + RenderAll(MatrixPredationRules(old(nodes), S, opts))
        && constraints == old(constraints) + RenderAll(MatrixPredationConstraints(old(nodes), S, opts))
      ensures IsSquare(S, |old(nodes)|) && kind == "competition" ==>
        && outcome == Pass && warnings == []
        && Renderable(MatrixCompetitionRules(old(nodes), S))
        && rules == old(rules) + RenderAll(MatrixCompetitionRules(old(nodes), S))
        && constraints == old(constraints)
      ensures IsSquare(S, |old(nodes)|) && kind != "predation" && kind != "competition" ==>
        outcome == Pass && warnings == [UnknownInteraction(kind)] && rules == old(rules) && constraints == old(constraints)
      ensures nodes == old(nodes) && nodesInit == old(nodesInit)
    {
      if !IsSquare(S, |nodes|) {
        return [], Fail(NotSquare);
      }
      outcome := Pass;
      if kind == "predation" {
        warnings := if DiagonalNonZero(S) then [NonZeroDiagonal] else [];
        IncludePredation(S, opts);
      } else if kind == "competition" {
        warnings := [];
        IncludeCompetition(S);
      } else {
        warnings := [UnknownInteraction(kind)];
      }
    }

    /** The predation branch of include_matrix, column by column. */
    method IncludePredation(S: seq<seq<real>>, opts: PredationOptions)
      requires IsSquare(S, |nodes|)
      modifies this
      ensures Renderable(MatrixPredationRules(old(nodes), S, opts))
      ensures Renderable(MatrixPredationConstraints(old(nodes), S, opts))
      ensures rules == old(rules) + RenderAll(MatrixPredationRules(old(nodes), S, opts))
      ensures constraints == old(constraints) + RenderAll(MatrixPredationConstraints(old(nodes), S, opts))
      ensures nodes == old(nodes) && nodesInit == old(nodesInit)
    {
      var ns := nodes;
      var ruleBlocks := seq(|ns|, j requires 0 <= j < |ns| => ColumnPredationRules(ns, S, j, opts));
      var constraintBlocks := seq(|ns|, j requires 0 <= j < |ns| => ColumnPredationConstraints(ns, S, j, opts));
      for j := 0 to |ns|
        invariant nodes == ns && nodesInit == old(nodesInit)
        invariant Renderable(Flatten(ruleBlocks[..j])) && Renderable(Flatten(constraintBlocks[..j]))
        invariant rules == old(rules) + RenderAll(Flatten(ruleBlocks[..j]))
        invariant constraints == old(constraints) + RenderAll(Flatten(constraintBlocks[..j]))
      {
        ghost var doneRules := RenderAll(Flatten(ruleBlocks[..j]));
        ghost var doneConstraints := RenderAll(Flatten(constraintBlocks[..j]));
        IncludePredationColumn(S, j, opts);
        FlattenPrefixSnoc(ruleBlocks, j);
        FlattenPrefixSnoc(constraintBlocks, j);
        RenderAllAppend(Flatten(ruleBlocks[..j]), ruleBlocks[j]);
        RenderAllAppend(Flatten(constraintBlocks[..j]), constraintBlocks[j]);
        AppendAssoc(old(rules), doneRules, RenderAll(ruleBlocks[j]));
        AppendAssoc(old(constraints), doneConstraints, RenderAll(constraintBlocks[j]));
      }
      assert ruleBlocks[..|ns|] == ruleBlocks && constraintBlocks[..|ns|] == constraintBlocks;
    }

    /** One column of a predation matrix: add_predation for species j when the column lists a prey. */
    method IncludePredationColumn(S: seq<seq<real>>, j: nat, opts: PredationOptions)
      requires IsSquare(S, |nodes|) && j < |nodes|
      modifies this
      ensures Renderable(ColumnPredationRules(old(nodes), S, j, opts))
      ensures Renderable(ColumnPredationConstraints(old(nodes), S, j, opts))
      ensures rules == old(rules) + RenderAll(ColumnPredationRules(old(nodes), S, j, opts))
      ensures constraints == old(constraints) + RenderAll(ColumnPredationConstraints(old(nodes), S, j, opts))
      ensures nodes == old(nodes) && nodesInit == old(nodesInit)
    {
      var predator := nodes[j];
      var mains := MainPreysIn(nodes, S, j);
      var secs := SecondaryPreysIn(nodes, S, j);
      PredationRenderable(predator, mains, secs, opts);
      if |mains + secs| > 0 {
        ColumnPreysDeclared(nodes, S, j);
        var warnings, outcome := AddPredation(predator, mains, secs, opts);
      } else {
        assert rules + [] == rules && constraints + [] == constraints;
      }
    }

    /** The competition branch of include_matrix, column by column and competitor by competitor. */
    method IncludeCompetition(S: seq<seq<real>>)
      requires IsSquare(S, |nodes|)
      modifies this
      ensures Renderable(MatrixCompetitionRules(old(nodes), S))
      ensures rules == old(rules) + RenderAll(MatrixCompetitionRules(old(nodes), S))
      ensures nodes == old(nodes) && nodesInit == old(nodesInit) && constraints == old(constraints)
    {
      var ns := nodes;
      var blocks := seq(|ns|, j requires 0 <= j < |ns| => ColumnCompetitionRules(ns, S, j));
      for j := 0 to |ns|
        invariant nodes == ns && nodesInit == old(nodesInit) && constraints == old(constraints)
        invariant Renderable(Flatten(blocks[..j]))
        invariant rules == old(rules) + RenderAll(Flatten(blocks[..j]))
      {
        ghost var doneColumns := RenderAll(Flatten(blocks[..j]));
        ghost var beforeColumn := rules;
        var species := ns[j];
        var comps := CompetitorsIn(ns, S, j);
        ghost var pairs := seq(|comps|, c requires 0 <= c < |comps| => CompetitionRules(species, comps[c], true));
        for c := 0 to |comps|
          invariant nodes == ns && nodesInit == old(nodesInit) && constraints == old(constraints)
          invariant Renderable(Flatten(pairs[..c]))
          invariant rules == beforeColumn + RenderAll(Flatten(pairs[..c]))
        {
          ghost var donePairs := RenderAll(Flatten(pairs[..c]));
          CompetitorsDeclared(ns, S, j, c);
          var w := AddCompetition(species, comps[c], true);
          FlattenPrefixSnoc(pairs, c);
          RenderAllAppend(Flatten(pairs[..c]), pairs[c]);
          AppendAssoc(beforeColumn, donePairs, RenderAll(pairs[c]));
        }
        assert pairs[..|comps|] == pairs;
        assert Flatten(pairs) == blocks[j];
        FlattenPrefixSnoc(blocks, j);
        RenderAllAppend(Flatten(blocks[..j]), blocks[j]);
        AppendAssoc(old(rules), doneColumns, RenderAll(blocks[j]));
      }
      assert blocks[..|ns|] == blocks;
    }

    /**
     * write_file: unless the user declines to overwrite an existing file, initial values of the
     * wrong length are reset to ones and the direct-format lines are written.
     */
    method WriteFile(fileExists: bool, decision: Decision) returns (warnings: seq<Warning>, result: Result<seq<string>, WriteError>)
      modifies this
      ensures fileExists && decision == Abort ==>
        result == Failure(FileExists) && warnings == [] && nodesInit == old(nodesInit)
      ensures !(fileExists && decision == Abort) ==>
        && nodesInit == EffectiveInits(old(nodes), old(nodesInit))
        && warnings == (if |old(nodesInit)| == |old(nodes)| then [] else [InitialisationReset])
        && result == Success(DirectLines(old(nodes), EffectiveInits(old(nodes), old(nodesInit)), old(rules), old(constraints)))
      ensures nodes == old(nodes) && rules == old(rules) && constraints == old(constraints)
    {
      if fileExists && decision == Abort {
        return [], Failure(FileExists);
      }
      warnings := [];
      if |nodesInit| != |nodes| {
        warnings := [InitialisationReset];
        nodesInit := seq(|nodes|, _ => Number(1.0));
      }
      var ns, inits := nodes, nodesInit;
      var nodeLines := [];
      for i := 0 to |ns|
        invariant |nodeLines| == i
        invariant forall k :: 0 <= k < i ==> nodeLines[k] == NodeLine(ns[k], inits[k])
      {
        if IsPresent(inits[i]) {
          nodeLines := nodeLines + [" " + ns[i] + "+ :"];
        } else {
          nodeLines := nodeLines + [" " + ns[i] + "- :"];
        }
      }
      assert nodeLines == NodeLines(ns, inits);
      var ruleLines := WriteAll(rules);
      var constraintLines := [];
      if |constraints| > 0 {
        var written := WriteAll(constraints);
        constraintLines := ["", "constraints:"] + written;
      }
      assert constraintLines == ConstraintBlock(constraints);
      result := Success(["nodes:"] + nodeLines + ["", "rules:"] + ruleLines + constraintLines);
    }

    /**
     * write_universe_file: unless the user declines to overwrite an existing file, the universe
     * lines; the rule set itself is left as it is.
     */
    method WriteUniverseFile(fileExists: bool, decision: Decision) returns (result: Result<seq<string>, WriteError>)
      ensures fileExists && decision == Abort ==> result == Failure(FileExists)
      ensures !(fileExists && decision == Abort) ==> result == Success(UniverseLines(nodes, rules, constraints))
    {
      if fileExists && decision == Abort {
        return Failure(FileExists);
      }
      var ns, rs, cs := nodes, rules, constraints;
      var absent := [];
      for i := 0 to |ns|
        invariant |absent| == i && forall k :: 0 <= k < i ==> absent[k] == " " + ns[k] + "- :"
      {
        absent := absent + [" " + ns[i] + "- :"];
      }
      var guarded := [];
      for i := 0 to |rs|
        invariant |guarded| == i && forall k :: 0 <= k < i ==> guarded[k] == UniverseRuleLine(rs[k])
      {
        guarded := guarded + [UniverseRuleLine(rs[i])];
      }
      var seeds := [];
      for i := 0 to |ns|
        invariant |seeds| == i && forall k :: 0 <= k < i ==> seeds[k] == " i+ >> " + ns[k] + "+"
      {
        seeds := seeds + [" i+ >> " + ns[i] + "+"];
      }
      var block := [];
      if |cs| > 0 {
        var guardedConstraints := [];
        for i := 0 to |cs|
          invariant |guardedConstraints| == i && forall k :: 0 <= k < i ==> guardedConstraints[k] == " i-," + cs[k]
        {
          guardedConstraints := guardedConstraints + [" i-," + cs[i]];
        }
        assert guardedConstraints == seq(|cs|, k requires 0 <= k < |cs| => " i-," + cs[k]);
        block := ["", "constraints:"] + guardedConstraints;
      }
      assert absent == seq(|ns|, k requires 0 <= k < |ns| => " " + ns[k] + "- :");
      assert guarded == seq(|rs|, k requires 0 <= k < |rs| => UniverseRuleLine(rs[k]));
      assert seeds == seq(|ns|, k requires 0 <= k < |ns| => " i+ >> " + ns[k] + "+");
      result := Success(["nodes:"] + absent + [" i+ :", "", "rules:"] + guarded + seeds + [" i+ >> i-"] + block);
    }
  }
}
