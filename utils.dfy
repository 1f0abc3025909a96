/**
 * The rule renderer: one signed implication rendered as one canonical line of the
 * rule language, ` [tag] A+, B- >> C-\t\t # comment`.
 */
module Utils {
  import opened Wrappers
  import opened Seqs

  /**
   * One side of a rule: a single species id (a `str`), an ordered list (or tuple) of ids, or a
   * name that is neither (a `numpy.str_` taken from a numpy array), which create_rule indexes
   * character by character as if it were a list.
   */
  datatype Side = Single(id: string) | Items(ids: seq<string>) | Chars(text: string)

  /** The sign argument of a side: one sign for the whole side, or one sign per element. */
  datatype Signs = Sign(sign: string) | SignList(signs: seq<string>)

  datatype Position = Lhs | Rhs

  /**
   * Why no rule was produced: a ValueError because a list side and its sign list differ in
   * length, or an IndexError because a list side is empty (its last element is read).
   */
  datatype RuleError = SignCountMismatch(side: Position) | EmptySide(side: Position)

  /** A sign list given with a list side must have the side's length; a single sign always fits. */
  predicate SignsFit(side: Side, signs: Signs)
  {
    side.Items? && signs.SignList? ==> |signs.signs| == |side.ids|
  }

  /**
   * The last element of the side can be read: a list must not be empty, and a numpy name and
   * its sign argument must both have at least one element.
   */
  predicate HasLast(side: Side, signs: Signs)
  {
    match side
    case Single(_) => true
    case Items(ids) => ids != []
    case Chars(x) => x != [] && SignUnits(signs) != []
  }

  /** A string iterated element by element: each character as a one-character string. */
  function CharUnits(x: string): (r: seq<string>)
    ensures |r| == |x|
    ensures forall k :: 0 <= k < |x| ==> r[k] == [x[k]]
  {
    seq(|x|, k requires 0 <= k < |x| => [x[k]])
  }

  /** The elements of a sign argument when it is indexed: the characters of a str, or the list. */
  function SignUnits(signs: Signs): seq<string>
  {
    match signs
    case Sign(s) => CharUnits(s)
    case SignList(ss) => ss
  }

  /** How many pairs `zip(A[:-1], sign_A[:-1])` yields for a numpy name and its sign elements. */
  function ZipCount(x: string, units: seq<string>): nat
    requires x != [] && units != []
  {
    (if |x| < |units| then |x| else |units|) - 1
  }

  /** The elements printed for a numpy name: the zipped characters, then the last one. */
  function CharIds(x: string, units: seq<string>): (r: seq<string>)
    requires x != [] && units != []
    ensures |r| == ZipCount(x, units) + 1
  {
    CharUnits(x)[..ZipCount(x, units)] + [[x[|x| - 1]]]
  }

  /** The signs printed for a numpy name: the zipped sign elements, then the last one. */
  function CharSigns(x: string, units: seq<string>): (r: seq<string>)
    requires x != [] && units != []
    ensures |r| == ZipCount(x, units) + 1
  {
    units[..ZipCount(x, units)] + [units[|units| - 1]]
  }

  /** `[sign] * n`: one sign copied n times. */
  function Repeat(sign: string, n: nat): (r: seq<string>)
    ensures |r| == n
    ensures forall k :: 0 <= k < n ==> r[k] == sign
  {
    seq(n, _ => sign)
  }

  /** The per-element signs of a list side once a single sign has been broadcast. */
  function ElementSigns(ids: seq<string>, signs: Signs): (r: seq<string>)
    requires SignsFit(Items(ids), signs)
    ensures |r| == |ids|
  {
    match signs
    case Sign(s) => Repeat(s, |ids|)
    case SignList(ss) => ss
  }

  /** The `id<sign>` tokens of a list side, in input order. */
  function Tokens(ids: seq<string>, signs: seq<string>): (r: seq<string>)
    requires |signs| == |ids|
    ensures |r| == |ids|
    ensures forall k :: 0 <= k < |ids| ==> r[k] == ids[k] + signs[k]
  {
    seq(|ids|, k requires 0 <= k < |ids| => ids[k] + signs[k])
  }

  /** The parts separated by `sep`, in order. */
  function Join(parts: seq<string>, sep: string): string
  {
    if |parts| == 0 then ""
    else if |parts| == 1 then parts[0]
    else parts[0] + sep + Join(parts[1..], sep)
  }

  /** Joining one more part at the end adds the separator and the part at the end. */
  lemma {:induction false} JoinSnoc(parts: seq<string>, sep: string, x: string)
    requires parts != []
    ensures Join(parts + [x], sep) == Join(parts, sep) + sep + x
  {
    if |parts| == 1 {
      assert parts + [x] == [parts[0], x];
      assert [parts[0], x][1..] == [x];
    } else {
      assert (parts + [x])[1..] == parts[1..] + [x];
      JoinSnoc(parts[1..], sep, x);
    }
  }

  /** How a sign argument prints after a single id: the sign itself, or the list's display `['+', '-']`. */
  function SignText(signs: Signs): string
  {
    match signs
    case Sign(s) => s
    case SignList(ss) => "[" + Join(seq(|ss|, k requires 0 <= k < |ss| => "'" + ss[k] + "'"), ", ") + "]"
  }

  /**
   * The text of one side: `id<sign>` for a single id, the comma-joined tokens for a list, and for a
   * numpy name the comma-joined tokens of its characters zipped with the sign's elements.
   */
  function SideText(side: Side, signs: Signs): string
    requires SignsFit(side, signs) && HasLast(side, signs)
  {
    match side
    case Single(x) => x + SignText(signs)
    case Items(ids) => Join(Tokens(ids, ElementSigns(ids, signs)), ", ")
    case Chars(x) =>
      var u := SignUnits(signs);
      Join(Tokens(CharIds(x, u), CharSigns(x, u)), ", ")
  }

  function TagPrefix(tag: string): string
  {
    if |tag| != 0 then "[" + tag + "] " else " "
  }

  function CommentSuffix(comment: string): string
  {
    if |comment| != 0 then "\t\t # " + comment else ""
  }

  /**
   * create_rule. The sign checks of A and then B come first; then the prefix; then the
   * left-hand side and the right-hand side, each of which fails when its last element is missing.
   */
  function CreateRule(a: Side, signA: Signs, b: Side, signB: Signs, tag: string, comment: string)
    : (r: Result<string, RuleError>)
    ensures r.Success? <==> SignsFit(a, signA) && SignsFit(b, signB) && HasLast(a, signA) && HasLast(b, signB)
    ensures !SignsFit(a, signA) ==> r == Failure(SignCountMismatch(Lhs))
    ensures SignsFit(a, signA) && !SignsFit(b, signB) ==> r == Failure(SignCountMismatch(Rhs))
    ensures SignsFit(a, signA) && SignsFit(b, signB) && !HasLast(a, signA) ==> r == Failure(EmptySide(Lhs))
  {
    if !SignsFit(a, signA) then Failure(SignCountMismatch(Lhs))
    else if !SignsFit(b, signB) then Failure(SignCountMismatch(Rhs))
    else if !HasLast(a, signA) then Failure(EmptySide(Lhs))
    else if !HasLast(b, signB) then Failure(EmptySide(Rhs))
    else Success(TagPrefix(tag) + SideText(a, signA) + " >> " + SideText(b, signB) + CommentSuffix(comment))
  }

  /**
   * create_rule as the library computes it: the sign arguments are normalised, and each list
   * side is accumulated token by token with `+=`.
   */
  method BuildRule(a: Side, signA: Signs, b: Side, signB: Signs, tag: string, comment: string)
    returns (r: Result<string, RuleError>)
    ensures r == CreateRule(a, signA, b, signB, tag, comment)
  {
    var sa := NormaliseSigns(a, signA, Lhs);
    if sa.Failure? {
      return Failure(sa.error);
    }
    var sb := NormaliseSigns(b, signB, Rhs);
    if sb.Failure? {
      return Failure(sb.error);
    }
    var tagStr := if |tag| != 0 then "[" + tag + "] " else " ";
    assert tagStr == TagPrefix(tag);
    var lhs := BuildSide(a, signA, sa.value, Lhs);
    if lhs.Failure? {
      return Failure(lhs.error);
    }
    var rhs := BuildSide(b, signB, sb.value, Rhs);
    if rhs.Failure? {
      return Failure(rhs.error);
    }
    var out := tagStr + lhs.value + " >> " + rhs.value;
    if |comment| != 0 {
      out := out + ("\t\t # " + comment);
    } else {
      assert out + CommentSuffix(comment) == out;
    }
    r := Success(out);
  }

  /**
   * The argument check of one side: a single sign given with a list side is copied once per
   * element, and a sign list of another length raises.
   */
  method NormaliseSigns(side: Side, signs: Signs, pos: Position) returns (r: Result<seq<string>, RuleError>)
    ensures r.Success? <==> SignsFit(side, signs)
    ensures r.Failure? ==> r.error == SignCountMismatch(pos)
    ensures r.Success? && side.Items? ==> r.value == ElementSigns(side.ids, signs)
  {
    r := Success([]);
    if side.Items? {
      if signs.Sign? {
        r := Success(Repeat(signs.sign, |side.ids|));
      } else if |side.ids| != |signs.signs| {
        r := Failure(SignCountMismatch(pos));
      } else {
        r := Success(signs.signs);
      }
    }
  }

  /**
   * The text of one side as create_rule accumulates it; reading the last element of an empty
   * side raises.
   */
  method BuildSide(side: Side, signs: Signs, elementSigns: seq<string>, pos: Position)
    returns (r: Result<string, RuleError>)
    requires SignsFit(side, signs)
    requires side.Items? ==> elementSigns == ElementSigns(side.ids, signs)
    ensures r == if HasLast(side, signs) then Success(SideText(side, signs)) else Failure(EmptySide(pos))
  {
    var text := "";
    if side.Single? {
      text := text + (side.id + SignText(signs));
      assert text == SideText(side, signs);
    } else if side.Items? {
      if |side.ids| == 0 {
        return Failure(EmptySide(pos));
      }
      text := JoinTokens(side.ids, elementSigns);
    } else {
      var units := SignUnits(signs);
      if |side.text| == 0 || |units| == 0 {
        return Failure(EmptySide(pos));
      }
      text := JoinTokens(CharIds(side.text, units), CharSigns(side.text, units));
    }
    r := Success(text);
  }

  /** The loop that writes `id<sign>, ` for every element but the last, then the last token. */
  method JoinTokens(ids: seq<string>, signs: seq<string>) returns (text: string)
    requires |ids| > 0 && |signs| == |ids|
    ensures text == Join(Tokens(ids, signs), ", ")
  {
    text := "";
    var i := 0;
    while i < |ids| - 1
      invariant 0 <= i <= |ids| - 1
      invariant text == JoinedPrefix(ids, signs, i)
    {
      JoinedPrefixStep(ids, signs, i);
      text := text + ids[i] + signs[i] + ", ";
      i := i + 1;
    }
    var n := |ids| - 1;
    JoinedPrefixStep(ids, signs, n);
    assert ids[..n + 1] == ids && signs[..n + 1] == signs;
    text := text + ids[n] + signs[n];
  }

  /** What the loop has written after the first i tokens: each followed by `, `. */
  function JoinedPrefix(ids: seq<string>, signs: seq<string>, i: nat): string
    requires i <= |ids| && |signs| == |ids|
  {
    if i == 0 then "" else Join(Tokens(ids[..i], signs[..i]), ", ") + ", "
  }

  /** Writing token i after the first i tokens gives the join of the first i + 1. */
  lemma JoinedPrefixStep(ids: seq<string>, signs: seq<string>, i: nat)
    requires i < |ids| && |signs| == |ids|
    ensures JoinedPrefix(ids, signs, i) + ids[i] + signs[i] == Join(Tokens(ids[..i + 1], signs[..i + 1]), ", ")
  {
    var last := ids[i] + signs[i];
    assert Tokens(ids[..i + 1], signs[..i + 1]) == Tokens(ids[..i], signs[..i]) + [last];
    if i > 0 {
      JoinSnoc(Tokens(ids[..i], signs[..i]), ", ", last);
      AppendAssoc(JoinedPrefix(ids, signs, i), ids[i], signs[i]);
    } else {
      assert Tokens(ids[..1], signs[..1]) == [last];
    }
  }

  /** A single sign given with a list side is copied to every element: same rule as the explicit list. */
  lemma BroadcastLhs(ids: seq<string>, s: string, b: Side, signB: Signs, tag: string, comment: string)
    ensures CreateRule(Items(ids), Sign(s), b, signB, tag, comment)
         == CreateRule(Items(ids), SignList(Repeat(s, |ids|)), b, signB, tag, comment)
  {
  }

  /** The same broadcast on the right-hand side. */
  lemma BroadcastRhs(a: Side, signA: Signs, ids: seq<string>, s: string, tag: string, comment: string)
    ensures CreateRule(a, signA, Items(ids), Sign(s), tag, comment)
         == CreateRule(a, signA, Items(ids), SignList(Repeat(s, |ids|)), tag, comment)
  {
  }

  /** A single id yields exactly one token: the same rule as the one-element list. */
  lemma SingleLhs(x: string, s: string, b: Side, signB: Signs, tag: string, comment: string)
    ensures CreateRule(Single(x), Sign(s), b, signB, tag, comment)
         == CreateRule(Items([x]), SignList([s]), b, signB, tag, comment)
  {
    assert Tokens([x], [s]) == [x + s];
  }

  /** The same on the right-hand side. */
  lemma SingleRhs(a: Side, signA: Signs, x: string, s: string, tag: string, comment: string)
    ensures CreateRule(a, signA, Single(x), Sign(s), tag, comment)
         == CreateRule(a, signA, Items([x]), SignList([s]), tag, comment)
  {
    assert Tokens([x], [s]) == [x + s];
  }

  /**
   * A numpy name given alone with a one-character sign yields a single token made of its last
   * character: the same rule as that character given as a str.
   */
  lemma NumpyNameLhs(x: string, s: string, b: Side, signB: Signs, tag: string, comment: string)
    requires x != [] && |s| == 1
    ensures CreateRule(Chars(x), Sign(s), b, signB, tag, comment)
         == CreateRule(Single([x[|x| - 1]]), Sign(s), b, signB, tag, comment)
  {
    assert s == [s[0]] && CharUnits(s)[0] == [s[0]];
    assert CharUnits(s) == [s];
    assert Tokens([[x[|x| - 1]]], [s]) == [[x[|x| - 1]] + s];
  }

  /** The same on the right-hand side. */
  lemma NumpyNameRhs(a: Side, signA: Signs, x: string, s: string, tag: string, comment: string)
    requires x != [] && |s| == 1
    ensures CreateRule(a, signA, Chars(x), Sign(s), tag, comment)
         == CreateRule(a, signA, Single([x[|x| - 1]]), Sign(s), tag, comment)
  {
    assert s == [s[0]] && CharUnits(s)[0] == [s[0]];
    assert CharUnits(s) == [s];
    assert Tokens([[x[|x| - 1]]], [s]) == [[x[|x| - 1]] + s];
  }

  /** The rule starts with `[tag] ` when a tag is given and with a single space otherwise. */
  lemma RulePrefix(a: Side, signA: Signs, b: Side, signB: Signs, tag: string, comment: string)
    requires CreateRule(a, signA, b, signB, tag, comment).Success?
    ensures IsPrefix(TagPrefix(tag), CreateRule(a, signA, b, signB, tag, comment).value)
    ensures tag != "" ==> TagPrefix(tag) == "[" + tag + "] "
    ensures tag == "" ==> TagPrefix(tag) == " "
  {
    var t := TagPrefix(tag);
    var lhs := t + SideText(a, signA);
    PrefixOfConcat(t, SideText(a, signA));
    PrefixExtends(t, lhs, " >> ");
    PrefixExtends(t, lhs + " >> ", SideText(b, signB));
    PrefixExtends(t, lhs + " >> " + SideText(b, signB), CommentSuffix(comment));
  }

  predicate IsPrefix(p: string, s: string)
  {
    |p| <= |s| && s[..|p|] == p
  }

  lemma PrefixOfConcat(p: string, q: string)
    ensures IsPrefix(p, p + q)
  {
    assert (p + q)[..|p|] == p;
  }

  lemma PrefixExtends(p: string, s: string, t: string)
    requires IsPrefix(p, s)
    ensures IsPrefix(p, s + t)
  {
    assert (s + t)[..|p|] == s[..|p|];
  }

  /** Without a comment nothing follows the right-hand side; with one, `\t\t # comment` is the tail. */
  lemma RuleSuffix(a: Side, signA: Signs, b: Side, signB: Signs, tag: string, comment: string)
    requires CreateRule(a, signA, b, signB, tag, comment).Success?
    ensures var line := CreateRule(a, signA, b, signB, tag, comment).value;
      var body := TagPrefix(tag) + SideText(a, signA) + " >> " + SideText(b, signB);
      if comment == "" then line == body
      else |line| == |body| + 5 + |comment| && line[..|body|] == body && line[|body|..] == "\t\t # " + comment
  {
  }

  /** Convenience wrapper with signs (+, +). */
  function Apbp(a: Side, b: Side, tag: string, comment: string): (r: Result<string, RuleError>)
    ensures r.Success? <==> a != Items([]) && a != Chars([]) && b != Items([]) && b != Chars([])
    ensures r == CreateRule(a, Sign("+"), b, Sign("+"), tag, comment)
  {
    CreateRule(a, Sign("+"), b, Sign("+"), tag, comment)
  }

  /** Convenience wrapper with signs (+, -). */
  function Apbm(a: Side, b: Side, tag: string, comment: string): (r: Result<string, RuleError>)
    ensures r.Success? <==> a != Items([]) && a != Chars([]) && b != Items([]) && b != Chars([])
    ensures r == CreateRule(a, Sign("+"), b, Sign("-"), tag, comment)
  {
    CreateRule(a, Sign("+"), b, Sign("-"), tag, comment)
  }

  /** Convenience wrapper with signs (-, +). */
  function Ambp(a: Side, b: Side, tag: string, comment: string): (r: Result<string, RuleError>)
    ensures r.Success? <==> a != Items([]) && a != Chars([]) && b != Items([]) && b != Chars([])
    ensures r == CreateRule(a, Sign("-"), b, Sign("+"), tag, comment)
  {
    CreateRule(a, Sign("-"), b, Sign("+"), tag, comment)
  }

  /** Convenience wrapper with signs (-, -). */
  function Ambm(a: Side, b: Side, tag: string, comment: string): (r: Result<string, RuleError>)
    ensures r.Success? <==> a != Items([]) && a != Chars([]) && b != Items([]) && b != Chars([])
    ensures r == CreateRule(a, Sign("-"), b, Sign("-"), tag, comment)
  {
    CreateRule(a, Sign("-"), b, Sign("-"), tag, comment)
  }
}
