/**
 * The two text formats a rule set is written in, as the sequence of lines written to the file:
 * the direct `.rr` format and the "universe" format, whose reachable states from "everything
 * absent, `i` present" are all the states of the system. A parser for the direct format shows
 * that the direct format loses nothing but the exact initial values.
 */
module Serializers {
  import opened Wrappers
  import opened Seqs
  import opened Utils
  import opened Interactions

  /** A node's initial value as stored: a number (True and False are 1 and 0) or a string. */
  datatype InitValue = Number(x: real) | Symbol(s: string)

  /** `init in (1, "+", True)`: the node starts present; every other value is written absent. */
  predicate IsPresent(v: InitValue)
  {
    v == Number(1.0) || v == Symbol("+")
  }

  /** The initial values write_file uses: a list of the wrong length is replaced by all ones. */
  function EffectiveInits(nodes: seq<string>, inits: seq<InitValue>): (r: seq<InitValue>)
    ensures |r| == |nodes|
    ensures |inits| == |nodes| ==> r == inits
    ensures |inits| != |nodes| ==> forall k :: 0 <= k < |nodes| ==> r[k] == Number(1.0)
  {
    if |inits| == |nodes| then inits else seq(|nodes|, _ => Number(1.0))
  }

  /** ` id+ :` for a node that starts present, ` id- :` otherwise. */
  function NodeLine(id: string, init: InitValue): string
  {
    if IsPresent(init) then " " + id + "+ :" else " " + id + "- :"
  }

  function NodeLines(nodes: seq<string>, inits: seq<InitValue>): (r: seq<string>)
    requires |inits| == |nodes|
    ensures |r| == |nodes|
    ensures forall k :: 0 <= k < |nodes| ==> r[k] == NodeLine(nodes[k], inits[k])
  {
    seq(|nodes|, k requires 0 <= k < |nodes| => NodeLine(nodes[k], inits[k]))
  }

  /** The constraints block, present only when there are constraints. */
  function ConstraintBlock(constraints: seq<string>): seq<string>
  {
    if constraints == [] then [] else ["", "constraints:"] + constraints
  }

  /** The direct format: nodes with their initial sign, a blank line, the rules, then the constraints. */
  function DirectLines(nodes: seq<string>, inits: seq<InitValue>, rules: seq<string>, constraints: seq<string>)
    : seq<string>
    requires |inits| == |nodes|
  {
    ["nodes:"] + NodeLines(nodes, inits) + ["", "rules:"] + rules + ConstraintBlock(constraints)
  }

  // ---------------------------------------------------------------------------
  // Reading the direct format back

  /** What a direct-format file records: nodes, whether each starts present, rules, constraints. */
  datatype RuleFile = RuleFile(nodes: seq<string>, present: seq<bool>, rules: seq<string>, constraints: seq<string>)

  function Presence(inits: seq<InitValue>): (r: seq<bool>)
    ensures |r| == |inits|
    ensures forall k :: 0 <= k < |inits| ==> r[k] == IsPresent(inits[k])
  {
    seq(|inits|, k requires 0 <= k < |inits| => IsPresent(inits[k]))
  }

  /** The lines before the first blank line, whether there is one, and the lines after it. */
  function SplitAtBlank(lines: seq<string>): (seq<string>, bool, seq<string>)
  {
    if lines == [] then ([], false, [])
    else if lines[0] == "" then ([], true, lines[1..])
    else
      var rest := SplitAtBlank(lines[1..]);
      ([lines[0]] + rest.0, rest.1, rest.2)
  }

  predicate NoBlank(lines: seq<string>)
  {
    forall k :: 0 <= k < |lines| ==> lines[k] != ""
  }

  lemma {:induction false} SplitAtBlankFound(before: seq<string>, after: seq<string>)
    requires NoBlank(before)
    ensures SplitAtBlank(before + [""] + after) == (before, true, after)
  {
    var lines := before + [""] + after;
    if before == [] {
      assert lines[0] == "" && lines[1..] == after;
    } else {
      assert lines[0] == before[0] && lines[1..] == before[1..] + [""] + after;
      SplitAtBlankFound(before[1..], after);
      assert before == [before[0]] + before[1..];
    }
  }

  lemma {:induction false} SplitAtBlankMissing(lines: seq<string>)
    requires NoBlank(lines)
    ensures SplitAtBlank(lines) == (lines, false, [])
  {
    if lines != [] {
      SplitAtBlankMissing(lines[1..]);
      assert lines == [lines[0]] + lines[1..];
    }
  }

  function ParseNodeLine(line: string): Option<(string, bool)>
  {
    if |line| >= 4 && line[0] == ' ' && line[|line| - 2..] == " :"
       && (line[|line| - 3] == '+' || line[|line| - 3] == '-')
    then Some((line[1..|line| - 3], line[|line| - 3] == '+'))
    else None
  }

  function ParseNodeLines(lines: seq<string>): Option<(seq<string>, seq<bool>)>
  {
    if lines == [] then Some(([], []))
    else
      match ParseNodeLine(lines[0])
      case None => None
      case Some(node) =>
        match ParseNodeLines(lines[1..])
        case None => None
        case Some(more) => Some(([node.0] + more.0, [node.1] + more.1))
  }

  function ParseDirect(lines: seq<string>): Option<RuleFile>
  {
    if lines == [] || lines[0] != "nodes:" then None
    else
      var nodeBlock := SplitAtBlank(lines[1..]);
      if !nodeBlock.1 || nodeBlock.2 == [] || nodeBlock.2[0] != "rules:" then None
      else
        match ParseNodeLines(nodeBlock.0)
        case None => None
        case Some(parsed) =>
          var ruleBlock := SplitAtBlank(nodeBlock.2[1..]);
          if !ruleBlock.1 then Some(RuleFile(parsed.0, parsed.1, ruleBlock.0, []))
          else if ruleBlock.2 != [] && ruleBlock.2[0] == "constraints:" then
            Some(RuleFile(parsed.0, parsed.1, ruleBlock.0, ruleBlock.2[1..]))
          else None
  }

  lemma NodeLineRoundTrip(id: string, init: InitValue)
    ensures NodeLine(id, init) != ""
    ensures ParseNodeLine(NodeLine(id, init)) == Some((id, IsPresent(init)))
  {
    var line := NodeLine(id, init);
    assert line[1..|line| - 3] == id;
    assert line[|line| - 2..] == " :";
    assert line[|line| - 3] == if IsPresent(init) then '+' else '-';
  }

  lemma NodeLinesRoundTrip(nodes: seq<string>, inits: seq<InitValue>)
    requires |inits| == |nodes|
    ensures NoBlank(NodeLines(nodes, inits))
    ensures ParseNodeLines(NodeLines(nodes, inits)) == Some((nodes, Presence(inits)))
  {
    NodeLinesNoBlank(nodes, inits);
    ParseNodeLinesOf(NodeLines(nodes, inits), nodes, inits);
  }

  /** Lines that are the node lines of nodes and inits, one by one, parse back to them. */
  lemma {:induction false} ParseNodeLinesOf(lines: seq<string>, nodes: seq<string>, inits: seq<InitValue>)
    requires |lines| == |nodes| && |inits| == |nodes|
    requires forall k :: 0 <= k < |lines| ==> lines[k] == NodeLine(nodes[k], inits[k])
    ensures ParseNodeLines(lines) == Some((nodes, Presence(inits)))
  {
    if lines != [] {
      assert nodes == [nodes[0]] + nodes[1..];
      PresenceCons(inits);
      NodeLineRoundTrip(nodes[0], inits[0]);
      ParseNodeLinesOf(lines[1..], nodes[1..], inits[1..]);
    }
  }

  lemma NodeLinesNoBlank(nodes: seq<string>, inits: seq<InitValue>)
    requires |inits| == |nodes|
    ensures NoBlank(NodeLines(nodes, inits))
  {
    forall k | 0 <= k < |nodes|
      ensures NodeLines(nodes, inits)[k] != ""
    {
      NodeLineRoundTrip(nodes[k], inits[k]);
    }
  }

  lemma PresenceCons(inits: seq<InitValue>)
    requires inits != []
    ensures Presence(inits) == [IsPresent(inits[0])] + Presence(inits[1..])
  {
  }

  /**
   * Reading a written file back gives the nodes, which of them start present, the rules and the
   * constraints, in order (rules and constraints are never blank lines).
   */
  lemma DirectRoundTrip(nodes: seq<string>, inits: seq<InitValue>, rules: seq<string>, constraints: seq<string>)
    requires |inits| == |nodes|
    requires NoBlank(rules) && NoBlank(constraints)
    ensures ParseDirect(DirectLines(nodes, inits, rules, constraints))
         == Some(RuleFile(nodes, Presence(inits), rules, constraints))
  {
    var lines := DirectLines(nodes, inits, rules, constraints);
    var nodeLines := NodeLines(nodes, inits);
    var tail := ["rules:"] + (rules + ConstraintBlock(constraints));
    DirectShape(nodeLines, rules, ConstraintBlock(constraints));
    assert lines[1..] == nodeLines + [""] + tail;
    NodeLinesRoundTrip(nodes, inits);
    SplitAtBlankFound(nodeLines, tail);
    assert tail[1..] == rules + ConstraintBlock(constraints);
    RulesBlock(rules, constraints);
  }

  lemma DirectShape(nodeLines: seq<string>, rules: seq<string>, block: seq<string>)
    ensures ["nodes:"] + nodeLines + ["", "rules:"] + rules + block
         == ["nodes:"] + (nodeLines + [""] + (["rules:"] + (rules + block)))
  {
    AppendAssoc(["nodes:"] + nodeLines + ["", "rules:"], rules, block);
    AppendAssoc(["nodes:"] + nodeLines, ["", "rules:"], rules + block);
    assert ["", "rules:"] + (rules + block) == [""] + (["rules:"] + (rules + block));
    AppendAssoc(["nodes:"] + nodeLines, [""], ["rules:"] + (rules + block));
    AppendAssoc(["nodes:"], nodeLines, [""]);
    AppendAssoc(["nodes:"], nodeLines + [""], ["rules:"] + (rules + block));
  }

  lemma RulesBlock(rules: seq<string>, constraints: seq<string>)
    requires NoBlank(rules)
    ensures constraints == [] ==> SplitAtBlank(rules + ConstraintBlock(constraints)) == (rules, false, [])
    ensures constraints != [] ==>
      SplitAtBlank(rules + ConstraintBlock(constraints)) == (rules, true, ["constraints:"] + constraints)
  {
    if constraints == [] {
      assert rules + ConstraintBlock(constraints) == rules;
      SplitAtBlankMissing(rules);
    } else {
      assert rules + ConstraintBlock(constraints) == rules + [""] + (["constraints:"] + constraints);
      SplitAtBlankFound(rules, ["constraints:"] + constraints);
    }
  }

  // ---------------------------------------------------------------------------
  // The universe format

  /** The first position at or after i where `] ` occurs. */
  function TagEnd(s: string, i: nat): (r: Option<nat>)
    decreases |s| - i
    ensures r.Some? ==> i <= r.value && r.value + 1 < |s| && s[r.value] == ']' && s[r.value + 1] == ' '
  {
    if i + 1 >= |s| then None
    else if s[i] == ']' && s[i + 1] == ' ' then Some(i)
    else TagEnd(s, i + 1)
  }

  predicate NoCloseBetween(s: string, i: nat, e: nat)
  {
    forall j :: i <= j < e && j + 1 < |s| ==> !(s[j] == ']' && s[j + 1] == ' ')
  }

  lemma {:induction false} TagEndAt(s: string, i: nat, e: nat)
    requires i <= e && e + 1 < |s| && s[e] == ']' && s[e + 1] == ' '
    requires NoCloseBetween(s, i, e)
    ensures TagEnd(s, i) == Some(e)
    decreases e - i
  {
    if i < e {
      TagEndAt(s, i + 1, e);
    }
  }

  lemma {:induction false} TagEndNone(s: string, i: nat)
    requires NoCloseBetween(s, i, |s|)
    ensures TagEnd(s, i) == None
    decreases |s| - i
  {
    if i + 1 < |s| {
      TagEndNone(s, i + 1);
    }
  }

  /** The insertion of `i-` into one stored rule: after a leading `[tag]`, otherwise in front. */
  function UniverseRuleLine(rule: string): (r: string)
    ensures |r| == |rule| + |" i-,"|
  {
    if |rule| > 0 && rule[0] == '[' && TagEnd(rule, 0).Some? then
      var e := TagEnd(rule, 0).value;
      rule[..e] + "] i-, " + rule[e + 2..]
    else " i-," + rule
  }

  /**
   * The rewriting keeps the rule whole: ` i-,` is inserted at its start, or right after the
   * closing `]` of a leading tag.
   */
  lemma UniverseInsertion(rule: string)
    ensures exists p ::
      && 0 <= p <= |rule| && UniverseRuleLine(rule) == rule[..p] + " i-," + rule[p..]
      && (p == 0 || (rule[0] == '[' && rule[p - 1] == ']'))
  {
    if |rule| > 0 && rule[0] == '[' && TagEnd(rule, 0).Some? {
      var e := TagEnd(rule, 0).value;
      assert rule[..e + 1] == rule[..e] + "]";
      assert rule[e + 1..] == " " + rule[e + 2..];
      assert UniverseRuleLine(rule) == rule[..e + 1] + " i-," + rule[e + 1..];
    } else {
      assert UniverseRuleLine(rule) == rule[..0] + " i-," + rule[0..];
    }
  }

  /** The universe format: every node absent plus `i` present; guarded rules; `i+ >> n+`; `i+ >> i-`. */
  function UniverseLines(nodes: seq<string>, rules: seq<string>, constraints: seq<string>): seq<string>
  {
    ["nodes:"] + seq(|nodes|, k requires 0 <= k < |nodes| => " " + nodes[k] + "- :") + [" i+ :", "", "rules:"]
      + seq(|rules|, k requires 0 <= k < |rules| => UniverseRuleLine(rules[k]))
      + seq(|nodes|, k requires 0 <= k < |nodes| => " i+ >> " + nodes[k] + "+")
      + [" i+ >> i-"]
      + (if constraints == [] then []
         else ["", "constraints:"] + seq(|constraints|, k requires 0 <= k < |constraints| => " i-," + constraints[k]))
  }

  lemma TokensCons(x: string, s: string, ids: seq<string>, signs: seq<string>)
    requires |signs| == |ids|
    ensures Tokens([x] + ids, [s] + signs) == [x + s] + Tokens(ids, signs)
  {
  }

  /** Inserting the guard after the tag prefix create_rule writes. */
  lemma UniversePrefix(tag: string, x: string)
    requires ']' !in tag
    ensures UniverseRuleLine(TagPrefix(tag) + x) == TagPrefix(tag) + "i-, " + x
  {
    if tag == "" {
      var rule := " " + x;
      assert rule[0] == ' ';
      assert " i-," + rule == " " + "i-, " + x;
    } else {
      TaggedPrefix(tag, x);
    }
  }

  lemma TaggedPrefix(tag: string, x: string)
    requires tag != "" && ']' !in tag
    ensures UniverseRuleLine("[" + tag + "] " + x) == "[" + tag + "] " + "i-, " + x
  {
    var rule := "[" + tag + "] " + x;
    var e := |tag| + 1;
    TagEndOfTagged(tag, x);
    assert rule[0] == '[';
    assert rule[..e] == "[" + tag;
    assert rule[e + 2..] == x;
    assert "] " + "i-, " == "] i-, ";
    AppendAssoc("[" + tag, "] ", "i-, ");
  }

  /** The first `] ` of a tagged line closes its tag. */
  lemma TagEndOfTagged(tag: string, x: string)
    requires ']' !in tag
    ensures TagEnd("[" + tag + "] " + x, 0) == Some(|tag| + 1)
  {
    var rule := "[" + tag + "] " + x;
    var e := |tag| + 1;
    assert rule[e] == ']' && rule[e + 1] == ' ';
    forall j | 0 <= j < e && j + 1 < |rule|
      ensures !(rule[j] == ']' && rule[j + 1] == ' ')
    {
      if j > 0 {
        assert rule[j] == tag[j - 1];
      }
    }
    TagEndAt(rule, 0, e);
  }

  /**
   * In the universe file every stored rule gains `i-` as its first condition: the line written is
   * the rule create_rule gives for the same call with `i-` in front of the left-hand side,
   * whatever the tag (without `]`) and the comment.
   */
  lemma UniverseAddsCondition(ids: seq<string>, signs: seq<string>, b: Side, signB: Signs, tag: string, comment: string)
    requires |ids| > 0 && |signs| == |ids| && ']' !in tag
    requires CreateRule(Items(ids), SignList(signs), b, signB, tag, comment).Success?
    ensures UniverseRuleLine(CreateRule(Items(ids), SignList(signs), b, signB, tag, comment).value)
         == CreateRule(Items(["i"] + ids), SignList(["-"] + signs), b, signB, tag, comment).value
  {
    var lhs := SideText(Items(ids), SignList(signs));
    ListRule(ids, signs, b, signB, tag, comment);
    GuardedListRule(ids, signs, b, signB, tag, comment);
    UniversePrefix(tag, lhs + RuleTail(b, signB, comment));
  }

  /** What follows the left-hand side in a rule. */
  function RuleTail(b: Side, signB: Signs, comment: string): string
    requires SignsFit(b, signB) && HasLast(b, signB)
  {
    " >> " + SideText(b, signB) + CommentSuffix(comment)
  }

  /** The rule create_rule writes for a list of ids with one sign each. */
  lemma ListRule(ids: seq<string>, signs: seq<string>, b: Side, signB: Signs, tag: string, comment: string)
    requires |ids| > 0 && |signs| == |ids|
    requires CreateRule(Items(ids), SignList(signs), b, signB, tag, comment).Success?
    ensures SignsFit(b, signB) && HasLast(b, signB)
    ensures CreateRule(Items(ids), SignList(signs), b, signB, tag, comment).value
         == TagPrefix(tag) + (SideText(Items(ids), SignList(signs)) + RuleTail(b, signB, comment))
  {
    var t := TagPrefix(tag);
    var lhs := SideText(Items(ids), SignList(signs));
    var rhs := SideText(b, signB);
    var c := CommentSuffix(comment);
    assert CreateRule(Items(ids), SignList(signs), b, signB, tag, comment).value == t + lhs + " >> " + rhs + c;
    AppendAssoc(" >> ", rhs, c);
    AppendAssoc(lhs, " >> " + rhs, c);
    AppendAssoc(lhs, " >> ", rhs);
    AppendAssoc(t, lhs, RuleTail(b, signB, comment));
    AppendAssoc(t + lhs, " >> " + rhs, c);
    AppendAssoc(t + lhs, " >> ", rhs);
  }

  /** The rule create_rule writes with `i-` in front of a list left-hand side. */
  lemma GuardedListRule(ids: seq<string>, signs: seq<string>, b: Side, signB: Signs, tag: string, comment: string)
    requires |ids| > 0 && |signs| == |ids|
    requires CreateRule(Items(ids), SignList(signs), b, signB, tag, comment).Success?
    ensures SignsFit(b, signB) && HasLast(b, signB)
    ensures CreateRule(Items(["i"] + ids), SignList(["-"] + signs), b, signB, tag, comment).Success?
    ensures CreateRule(Items(["i"] + ids), SignList(["-"] + signs), b, signB, tag, comment).value
         == TagPrefix(tag) + "i-, " + (SideText(Items(ids), SignList(signs)) + RuleTail(b, signB, comment))
  {
    var lhs := SideText(Items(ids), SignList(signs));
    var rest := RuleTail(b, signB, comment);
    ListRule(["i"] + ids, ["-"] + signs, b, signB, tag, comment);
    GuardToken(ids, signs);
    Regroup(TagPrefix(tag), "i-, ", lhs, rest);
  }

  lemma Regroup(p: string, g: string, x: string, y: string)
    ensures p + ((g + x) + y) == p + g + (x + y)
  {
  }

  /** A list left-hand side with `i-` in front prints as `i-, ` followed by the side as it was. */
  lemma GuardToken(ids: seq<string>, signs: seq<string>)
    requires |ids| > 0 && |signs| == |ids|
    ensures SideText(Items(["i"] + ids), SignList(["-"] + signs)) == "i-, " + SideText(Items(ids), SignList(signs))
  {
    var toks' := Tokens(["i"] + ids, ["-"] + signs);
    assert toks'[0] == "i-";
    assert toks'[1..] == Tokens(ids, signs);
  }

  /** Every rule the builders emit is guarded by `i-` in the universe file. */
  lemma UniverseOfBuilderRule(imp: Implication)
    requires imp.lhs != []
    ensures UniverseRuleLine(Render(imp)) == Render(Implication([Neg("i")] + imp.lhs, imp.rhs))
  {
    UniverseAddsCondition(Ids(imp.lhs), SignsOf(imp.lhs), Single(imp.rhs.id), Sign(imp.rhs.sign), "", "");
    GuardLiteral(imp.lhs);
    RenderIsCreateRule(imp);
    RenderIsCreateRule(Implication([Neg("i")] + imp.lhs, imp.rhs));
  }

  lemma GuardLiteral(lhs: seq<Literal>)
    ensures Ids([Neg("i")] + lhs) == ["i"] + Ids(lhs)
    ensures SignsOf([Neg("i")] + lhs) == ["-"] + SignsOf(lhs)
  {
  }

  /** The guarded rule fires exactly when the unguarded rule would and `i` is absent. */
  lemma UniverseGuard(imp: Implication, present: set<string>)
    ensures Enabled(Implication([Neg("i")] + imp.lhs, imp.rhs), present)
        <==> "i" !in present && Enabled(imp, present)
  {
    var g := Implication([Neg("i")] + imp.lhs, imp.rhs);
    assert g.lhs[0] == Neg("i");
    assert forall k :: 0 <= k < |imp.lhs| ==> g.lhs[k + 1] == imp.lhs[k];
    if "i" !in present && Enabled(imp, present) {
      forall k | 0 <= k < |g.lhs|
        ensures Holds(g.lhs[k], present)
      {
        if k > 0 {
          assert g.lhs[k] == imp.lhs[k - 1];
        }
      }
    }
    if Enabled(g, present) {
      assert Holds(g.lhs[0], present);
      forall k | 0 <= k < |imp.lhs|
        ensures Holds(imp.lhs[k], present)
      {
        assert Holds(g.lhs[k + 1], present);
      }
    }
  }

  /** A two-node rule set with one rule `A+ >> B-` gives this universe file. */
  lemma UniverseExample()
    ensures UniverseLines(["A", "B"], [" A+ >> B-"], [])
         == ["nodes:", " A- :", " B- :", " i+ :", "", "rules:",
             " i-, A+ >> B-", " i+ >> A+", " i+ >> B+", " i+ >> i-"]
  {
    var nodes := ["A", "B"];
    var rule := " A+ >> B-";
    assert rule[0] == ' ';
    assert UniverseRuleLine(rule) == " i-," + rule;
    var absent := seq(|nodes|, k requires 0 <= k < |nodes| => " " + nodes[k] + "- :");
    assert absent[0] == " A- :" && absent[1] == " B- :";
    assert absent == [" A- :", " B- :"];
    var switches := seq(|nodes|, k requires 0 <= k < |nodes| => " i+ >> " + nodes[k] + "+");
    assert switches[0] == " i+ >> A+" && switches[1] == " i+ >> B+";
    assert switches == [" i+ >> A+", " i+ >> B+"];
    var rules := [rule];
    var guarded := seq(|rules|, k requires 0 <= k < |rules| => UniverseRuleLine(rules[k]));
    assert guarded[0] == " i-, A+ >> B-";
    assert guarded == [" i-, A+ >> B-"];
  }

  // ---------------------------------------------------------------------------
  // The universe rewriting as write_universe_file writes it

  /** `re.split("\] ", s)`: the pieces between the occurrences of `] `. */
  function SplitAtClose(s: string): (r: seq<string>)
    ensures |r| >= 1
    decreases |s|
  {
    match TagEnd(s, 0)
    case None => [s]
    case Some(i) => [s[..i]] + SplitAtClose(s[i + 2..])
  }

  /** Reading the second piece of a rule with `]` but no `] ` raises an IndexError. */
  datatype UniverseError = MissingPiece

  /**
   * The rewriting as written: any rule containing `]` anywhere is split at every `] `, and the
   * first two pieces are kept around `] i-, `.
   */
  function UniverseRuleLineAsWritten(rule: string): (r: Result<string, UniverseError>)
    ensures r.Failure? ==> ']' in rule
    ensures ']' !in rule ==> r == Success(" i-," + rule)
  {
    if ']' in rule then
      var pieces := SplitAtClose(rule);
      if |pieces| < 2 then Failure(MissingPiece) else Success(pieces[0] + "] i-, " + pieces[1])
    else Success(" i-," + rule)
  }

  /** The rewriting as written and the intended one agree on every rule without `]`. */
  lemma AsWrittenAgrees(rule: string)
    requires ']' !in rule
    ensures UniverseRuleLineAsWritten(rule) == Success(UniverseRuleLine(rule))
  {
    TagEndNone(rule, 0);
  }

  /** The guarded rules as written: the first rule whose rewriting raises stops the writing. */
  function GuardedRulesAsWritten(rules: seq<string>): (r: Result<seq<string>, UniverseError>)
    ensures r.Success? ==> |r.value| == |rules|
  {
    if rules == [] then Success([])
    else
      match UniverseRuleLineAsWritten(rules[0])
      case Failure(e) => Failure(e)
      case Success(line) =>
        match GuardedRulesAsWritten(rules[1..])
        case Failure(e) => Failure(e)
        case Success(rest) => Success([line] + rest)
  }

  /** The universe lines as write_universe_file writes them, or the error its rewriting raises. */
  function UniverseLinesAsWritten(nodes: seq<string>, rules: seq<string>, constraints: seq<string>)
    : Result<seq<string>, UniverseError>
  {
    match GuardedRulesAsWritten(rules)
    case Failure(e) => Failure(e)
    case Success(guarded) =>
      Success(["nodes:"] + seq(|nodes|, k requires 0 <= k < |nodes| => " " + nodes[k] + "- :") + [" i+ :", "", "rules:"]
        + guarded
        + seq(|nodes|, k requires 0 <= k < |nodes| => " i+ >> " + nodes[k] + "+")
        + [" i+ >> i-"]
        + (if constraints == [] then []
           else ["", "constraints:"] + seq(|constraints|, k requires 0 <= k < |constraints| => " i-," + constraints[k])))
  }

  /** The intended rewriting of every rule, in order. */
  function GuardedRules(rules: seq<string>): (r: seq<string>)
    ensures |r| == |rules|
    ensures forall k :: 0 <= k < |rules| ==> r[k] == UniverseRuleLine(rules[k])
  {
    seq(|rules|, k requires 0 <= k < |rules| => UniverseRuleLine(rules[k]))
  }

  lemma {:induction false} GuardedRulesAgree(rules: seq<string>)
    requires forall k :: 0 <= k < |rules| ==> ']' !in rules[k]
    ensures GuardedRulesAsWritten(rules) == Success(GuardedRules(rules))
  {
    if rules != [] {
      AsWrittenAgrees(rules[0]);
      GuardedRulesAgree(rules[1..]);
      assert [UniverseRuleLine(rules[0])] + GuardedRules(rules[1..]) == GuardedRules(rules);
    }
  }

  /** A rule set without `]` in any rule is written as the intended rewriting describes. */
  lemma UniverseLinesAgree(nodes: seq<string>, rules: seq<string>, constraints: seq<string>)
    requires forall k :: 0 <= k < |rules| ==> ']' !in rules[k]
    ensures UniverseLinesAsWritten(nodes, rules, constraints) == Success(UniverseLines(nodes, rules, constraints))
  {
    GuardedRulesAgree(rules);
    assert GuardedRules(rules) == seq(|rules|, k requires 0 <= k < |rules| => UniverseRuleLine(rules[k]));
  }

  /** The rule create_rule writes for one id on each side. */
  lemma SimpleRule(x: string, s: string, y: string, t: string, tag: string, comment: string)
    ensures CreateRule(Single(x), Sign(s), Single(y), Sign(t), tag, comment)
         == Success(TagPrefix(tag) + x + s + " >> " + y + t + CommentSuffix(comment))
  {
    var r := CreateRule(Single(x), Sign(s), Single(y), Sign(t), tag, comment);
    var p := TagPrefix(tag);
    assert r == Success(p + (x + s) + " >> " + (y + t) + CommentSuffix(comment));
    AppendAssoc(p, x, s);
    AppendAssoc(p + x + s + " >> ", y, t);
  }

  /** Splitting at the first `] ` when the text before it holds no `]`. */
  lemma SplitAtCloseFirst(head: string, rest: string)
    requires ']' !in head
    ensures SplitAtClose(head + "] " + rest) == [head] + SplitAtClose(rest)
  {
    var s := head + "] " + rest;
    forall j | 0 <= j < |head| && j + 1 < |s|
      ensures !(s[j] == ']' && s[j + 1] == ' ')
    {
      assert s[j] == head[j];
    }
    TagEndAt(s, 0, |head|);
    assert s[..|head|] == head;
    assert s[|head| + 2..] == rest;
  }

  /** Text without `]` is a single piece. */
  lemma SplitAtCloseNone(s: string)
    requires ']' !in s
    ensures SplitAtClose(s) == [s]
  {
    TagEndNone(s, 0);
  }

  /** The text of a rule without any `] ` does not start a tag. */
  lemma NoTagEnd(body: string)
    requires ']' !in body
    ensures TagEnd(body + "]", 0) == None
  {
    var s := body + "]";
    forall j | 0 <= j && j + 1 < |s|
      ensures !(s[j] == ']' && s[j + 1] == ' ')
    {
      assert s[j] == body[j];
    }
    TagEndNone(s, 0);
  }

  /** The text create_rule writes for `a+ >> b-` between the tag and the comment. */
  function PlainRuleBody(a: string, b: string): string
  {
    a + "+" + " >> " + b + "-" + "\t\t # "
  }

  lemma CommentedRule(a: string, b: string, tag: string, comment: string)
    requires comment != ""
    ensures CreateRule(Single(a), Sign("+"), Single(b), Sign("-"), tag, comment)
         == Success(TagPrefix(tag) + (PlainRuleBody(a, b) + comment))
  {
    SimpleRule(a, "+", b, "-", tag, comment);
    assert CommentSuffix(comment) == "\t\t # " + comment;
    var t := TagPrefix(tag);
    AppendAssoc(t + a + "+" + " >> " + b + "-", "\t\t # ", comment);
    AppendAssoc(t, PlainRuleBody(a, b), comment);
    AppendAssoc(t, a + "+" + " >> " + b + "-", "\t\t # ");
    AppendAssoc(t, a + "+" + " >> " + b, "-");
    AppendAssoc(t, a + "+" + " >> ", b);
    AppendAssoc(t, a + "+", " >> ");
    AppendAssoc(t, a, "+");
  }

  /**
   * An untagged rule whose comment holds `] ` gets `i-` inside the comment and none in its
   * left-hand side, while the intended rewriting guards the rule.
   */
  lemma CommentBracketMisplacesGuard(a: string, b: string, before: string, after: string)
    requires ']' !in a && ']' !in b && ']' !in before && ']' !in after
    ensures CreateRule(Single(a), Sign("+"), Single(b), Sign("-"), "", before + "] " + after).Success?
    ensures var rule := CreateRule(Single(a), Sign("+"), Single(b), Sign("-"), "", before + "] " + after).value;
      var head := " " + PlainRuleBody(a, b) + before;
      && rule == head + "] " + after
      && UniverseRuleLineAsWritten(rule) == Success(head + "] i-, " + after)
      && UniverseRuleLine(rule) == " i-," + rule
  {
    UntaggedCommentedRule(a, b, before, after);
    MisplacedGuard(" " + PlainRuleBody(a, b) + before, after);
  }

  /** The untagged `a+ >> b-` rule with a comment holding `] `, split at that `] `. */
  lemma UntaggedCommentedRule(a: string, b: string, before: string, after: string)
    requires ']' !in a && ']' !in b && ']' !in before
    ensures CreateRule(Single(a), Sign("+"), Single(b), Sign("-"), "", before + "] " + after).Success?
    ensures var head := " " + PlainRuleBody(a, b) + before;
      && CreateRule(Single(a), Sign("+"), Single(b), Sign("-"), "", before + "] " + after).value == head + "] " + after
      && |head| > 0 && head[0] == ' ' && ']' !in head
  {
    CommentedRule(a, b, "", before + "] " + after);
    assert TagPrefix("") == " ";
    UntaggedText(PlainRuleBody(a, b), before, after);
    PlainBodyNoBracket(a, b, before);
  }

  /** Regrouping the untagged line around the comment's `] `. */
  lemma UntaggedText(body: string, before: string, after: string)
    ensures " " + (body + (before + "] " + after)) == " " + body + before + "] " + after
  {
    AppendAssoc(body, before + "] ", after);
    AppendAssoc(body, before, "] ");
    AppendAssoc(" ", body + before + "] ", after);
    AppendAssoc(" ", body + before, "] ");
    AppendAssoc(" ", body, before);
  }

  /** The untagged text before the comment's `] ` starts with a space and holds no `]`. */
  lemma PlainBodyNoBracket(a: string, b: string, before: string)
    requires ']' !in a && ']' !in b && ']' !in before
    ensures var head := " " + PlainRuleBody(a, b) + before;
      |head| > 0 && head[0] == ' ' && ']' !in head
  {
  }

  /** The as-written rewriting of an untagged line whose only `] ` sits after `head`. */
  lemma MisplacedGuard(head: string, after: string)
    requires |head| > 0 && head[0] == ' ' && ']' !in head && ']' !in after
    ensures UniverseRuleLineAsWritten(head + "] " + after) == Success(head + "] i-, " + after)
    ensures UniverseRuleLine(head + "] " + after) == " i-," + (head + "] " + after)
  {
    SplitAtCloseFirst(head, after);
    SplitAtCloseNone(after);
    assert (head + "] " + after)[0] == ' ';
  }

  /** A rule whose only `]` is not followed by a space makes the as-written rewriting raise. */
  lemma TrailingBracketRaises(a: string, b: string, before: string)
    requires ']' !in a && ']' !in b && ']' !in before
    ensures CreateRule(Single(a), Sign("+"), Single(b), Sign("-"), "", before + "]").Success?
    ensures var rule := CreateRule(Single(a), Sign("+"), Single(b), Sign("-"), "", before + "]").value;
      && UniverseRuleLineAsWritten(rule) == Failure(MissingPiece)
      && UniverseRuleLine(rule) == " i-," + rule
  {
    var body := " " + PlainRuleBody(a, b) + before;
    CommentedRule(a, b, "", before + "]");
    assert TagPrefix("") == " ";
    AppendAssoc(PlainRuleBody(a, b), before, "]");
    AppendAssoc(" ", PlainRuleBody(a, b) + before, "]");
    AppendAssoc(" ", PlainRuleBody(a, b), before);
    PlainBodyNoBracket(a, b, before);
    TrailingBracketText(body);
  }

  /** The rewritings of an untagged line whose only `]` is its last character. */
  lemma TrailingBracketText(body: string)
    requires |body| > 0 && body[0] == ' ' && ']' !in body
    ensures UniverseRuleLineAsWritten(body + "]") == Failure(MissingPiece)
    ensures UniverseRuleLine(body + "]") == " i-," + (body + "]")
  {
    NoTagEnd(body);
    assert (body + "]")[|body|] == ']';
    assert (body + "]")[0] == ' ';
  }

  /** A tagged rule whose comment holds `] ` loses the comment's tail in the as-written rewriting. */
  lemma SecondBracketTruncates(a: string, b: string, tag: string, before: string, after: string)
    requires tag != "" && ']' !in tag && ']' !in a && ']' !in b && ']' !in before && ']' !in after
    ensures CreateRule(Single(a), Sign("+"), Single(b), Sign("-"), tag, before + "] " + after).Success?
    ensures var rule := CreateRule(Single(a), Sign("+"), Single(b), Sign("-"), tag, before + "] " + after).value;
      var body := PlainRuleBody(a, b) + before;
      && rule == "[" + tag + "] " + (body + "] " + after)
      && UniverseRuleLineAsWritten(rule) == Success("[" + tag + "] i-, " + body)
      && UniverseRuleLine(rule) == "[" + tag + "] " + "i-, " + (body + "] " + after)
  {
    var body := PlainRuleBody(a, b) + before;
    CommentedRule(a, b, tag, before + "] " + after);
    AppendAssoc(PlainRuleBody(a, b), before + "] ", after);
    AppendAssoc(PlainRuleBody(a, b), before, "] ");
    assert TagPrefix(tag) == "[" + tag + "] ";
    TaggedBodyNoBracket(a, b, before);
    SecondBracketText(tag, body, after);
  }

  lemma TaggedBodyNoBracket(a: string, b: string, before: string)
    requires ']' !in a && ']' !in b && ']' !in before
    ensures ']' !in PlainRuleBody(a, b) + before
  {
  }

  /** The rewritings of a tagged line with a second `] ` after `body`. */
  lemma SecondBracketText(tag: string, body: string, after: string)
    requires tag != "" && ']' !in tag && ']' !in body && ']' !in after
    ensures UniverseRuleLineAsWritten("[" + tag + "] " + (body + "] " + after)) == Success("[" + tag + "] i-, " + body)
    ensures UniverseRuleLine("[" + tag + "] " + (body + "] " + after)) == "[" + tag + "] " + "i-, " + (body + "] " + after)
  {
    var rest := body + "] " + after;
    assert ']' !in "[" + tag;
    SplitAtCloseFirst("[" + tag, rest);
    SplitAtCloseFirst(body, after);
    SplitAtCloseNone(after);
    assert TagPrefix(tag) == "[" + tag + "] ";
    UniversePrefix(tag, rest);
    assert ("[" + tag + "] " + rest)[|tag| + 1] == ']';
  }
}
