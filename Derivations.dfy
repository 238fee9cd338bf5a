/**
 * Rebuilding a derivation from a trace (DPDA.java getRightMostReplacement and
 * getDerivations): the reduction rules recorded on the transitions are replayed
 * backwards, each one expanding the rightmost occurrence of its left-hand side.
 */
module Derivations {
  import opened Tokens
  import opened Transitions
  import opened Stacks
  import opened Run

  /** The largest index k with d[k].equals(x), or -1 when there is none. */
  function LastMatch(d: seq<GrammarToken>, x: StackToken): (k: int)
    ensures -1 <= k < |d|
  {
    if d == [] then -1
    else if Eq(d[|d| - 1], x) then |d| - 1
    else LastMatch(d[..|d| - 1], x)
  }

  /** The index found holds an equal token and none after it does. */
  lemma {:induction false} LastMatchSpec(d: seq<GrammarToken>, x: StackToken)
    ensures var k := LastMatch(d, x);
      (k >= 0 ==> Eq(d[k], x)) && forall j | k < j < |d| :: !Eq(d[j], x)
    decreases |d|
  {
    if d != [] && !Eq(d[|d| - 1], x) {
      var front := d[..|d| - 1];
      LastMatchSpec(front, x);
      assert forall j | 0 <= j < |front| :: front[j] == d[j];
    }
  }

  /** Scanning past a position that does not match leaves the last match to the shorter prefix. */
  lemma LastMatchSkip(d: seq<GrammarToken>, x: StackToken, k: nat)
    requires k < |d| && !Eq(d[k], x)
    ensures LastMatch(d[..k + 1], x) == LastMatch(d[..k], x)
  {
    assert d[..k + 1][..k] == d[..k];
  }

  /** The scan stops at a match, or below the first position. */
  lemma LastMatchStop(d: seq<GrammarToken>, x: StackToken, k: int)
    requires -1 <= k < |d|
    requires k >= 0 ==> Eq(d[k], x)
    ensures LastMatch(d[..k + 1], x) == k
  {
    if k >= 0 {
      assert d[..k + 1][k] == d[k];
    }
  }

  /** The last index is determined by the facts that define it. */
  lemma LastMatchIs(d: seq<GrammarToken>, x: StackToken, k: int)
    requires -1 <= k < |d|
    requires k >= 0 ==> Eq(d[k], x)
    requires forall j | k < j < |d| :: !Eq(d[j], x)
    ensures LastMatch(d, x) == k
  {
    LastMatchSpec(d, x);
  }

  /**
   * getRightMostReplacement: the rightmost occurrence of the rule's left-hand side
   * is replaced by its right-hand side; without an occurrence the form is unchanged.
   */
  function RightmostReplacement(d: seq<GrammarToken>, r: Rule): seq<GrammarToken>
  {
    var k := LastMatch(d, LhsToken(r));
    if k < 0 then d else d[..k] + r.rhs + d[k + 1..]
  }

  /** The replacement at the index the scan from the right stops at, the right-hand side kept in one piece. */
  lemma RightmostReplacementAtLast(d: seq<GrammarToken>, r: Rule, k: int)
    requires k == LastMatch(d, LhsToken(r))
    ensures RightmostReplacement(d, r) == if k < 0 then d else d[..k] + (r.rhs + d[k + 1..])
  {
  }

  /**
   * What a rightmost replacement does: with no occurrence of the left-hand side the
   * form is returned as it is; otherwise the tokens left and right of the last
   * occurrence are kept in order around the right-hand side.
   */
  lemma RightmostReplacementSpec(d: seq<GrammarToken>, r: Rule)
    ensures (forall j | 0 <= j < |d| :: d[j] != Variable(r.lhs)) ==> RightmostReplacement(d, r) == d
    ensures forall k | 0 <= k < |d| && d[k] == Variable(r.lhs) &&
                       (forall j | k < j < |d| :: d[j] != Variable(r.lhs)) ::
      RightmostReplacement(d, r) == d[..k] + r.rhs + d[k + 1..] &&
      |RightmostReplacement(d, r)| == |d| - 1 + |r.rhs|
  {
    LastMatchSpec(d, LhsToken(r));
    forall j | 0 <= j < |d| {
      GrammarTokenEqVariable(d[j], r.lhs);
    }
    forall k | 0 <= k < |d| && d[k] == Variable(r.lhs) && (forall j | k < j < |d| :: d[j] != Variable(r.lhs))
      ensures RightmostReplacement(d, r) == d[..k] + r.rhs + d[k + 1..]
    {
      LastMatchIs(d, LhsToken(r), k);
    }
  }

  /**
   * The rules getDerivations visits, in visiting order: the configurations from the
   * last but one down to the first, the rules of each from last to first.
   */
  function VisitOrder(configs: seq<Configuration>): seq<Rule>
  {
    if |configs| <= 1 then []
    else VisitOrder(configs[1..]) + Reverse(configs[0].transition.rulesForReduction)
  }

  /** The number of rules on the transitions of a list of configurations. */
  function RuleCount(configs: seq<Configuration>): nat
  {
    if configs == [] then 0 else |configs[0].transition.rulesForReduction| + RuleCount(configs[1..])
  }

  /** Every rule of every configuration but the last is visited exactly once. */
  lemma {:induction false} VisitOrderLength(configs: seq<Configuration>)
    requires configs != []
    ensures |VisitOrder(configs)| == RuleCount(configs[..|configs| - 1])
    decreases |configs|
  {
    if |configs| > 1 {
      VisitOrderLength(configs[1..]);
      assert configs[..|configs| - 1][1..] == configs[1..][..|configs| - 2];
    }
  }

  /**
   * The sentential forms produced from the rules in visiting order: the first rule
   * gives [lhs] and then its rhs, every later rule the rightmost replacement of
   * the previous form.
   */
  function Forms(rules: seq<Rule>): (fs: seq<seq<GrammarToken>>)
    ensures |fs| == if rules == [] then 0 else |rules| + 1
  {
    if rules == [] then []
    else if |rules| == 1 then [[LhsToken(rules[0])], rules[0].rhs]
    else
      var prev := Forms(rules[..|rules| - 1]);
      prev + [RightmostReplacement(prev[|prev| - 1], rules[|rules| - 1])]
  }

  /** The rules of one more configuration are visited after those of the later ones. */
  lemma VisitOrderFrom(configs: seq<Configuration>, i: nat)
    requires i + 1 < |configs|
    ensures VisitOrder(configs[i..]) ==
      VisitOrder(configs[i + 1..]) + Reverse(configs[i].transition.rulesForReduction)
  {
    assert configs[i..][1..] == configs[i + 1..];
  }

  /** The first rule visited gives two forms: [lhs] and its rhs. */
  lemma FormsFirst(r: Rule)
    ensures Forms([] + [r]) == [[LhsToken(r)], r.rhs]
  {
    assert [] + [r] == [r];
  }

  /** Every later rule adds the rightmost replacement of the last form. */
  lemma FormsNext(rules: seq<Rule>, r: Rule, last: seq<GrammarToken>)
    requires rules != [] && last == Forms(rules)[|Forms(rules)| - 1]
    ensures Forms(rules + [r]) == Forms(rules) + [RightmostReplacement(last, r)]
  {
    var next := rules + [r];
    assert next[..|next| - 1] == rules;
  }

  /** getDerivations: the forms of the rules the trace visits. */
  function Derivations(configs: seq<Configuration>): seq<seq<GrammarToken>>
  {
    Forms(VisitOrder(configs))
  }

  /** Forms of a longer rule list extend the forms of its prefixes. */
  lemma {:induction false} FormsExtend(rules: seq<Rule>, n: nat)
    requires 1 <= n <= |rules|
    ensures Forms(rules)[..n + 1] == Forms(rules[..n])
    decreases |rules|
  {
    if n < |rules| {
      var shorter := rules[..|rules| - 1];
      FormsExtend(shorter, n);
      assert shorter[..n] == rules[..n];
      if |rules| > 1 {
        assert Forms(rules)[..|rules|] == Forms(shorter);
        assert Forms(rules)[..n + 1] == Forms(rules)[..|rules|][..n + 1];
      }
    } else {
      assert rules[..n] == rules;
    }
  }

  /**
   * The shape of the derivation: one more form than rules visited (none when no
   * rule is visited), starting from [lhs] of the first rule and its rhs, each later
   * form the rightmost replacement of the previous one by the next rule.
   */
  lemma FormsShape(rules: seq<Rule>)
    requires rules != []
    ensures var fs := Forms(rules);
      |fs| == |rules| + 1 &&
      fs[0] == [LhsToken(rules[0])] && fs[1] == rules[0].rhs &&
      forall k | 1 <= k < |rules| :: fs[k + 1] == RightmostReplacement(fs[k], rules[k])
  {
    FormsExtend(rules, 1);
    assert rules[..1] == [rules[0]];
    assert Forms(rules)[..2] == [[LhsToken(rules[0])], rules[0].rhs];
    forall k | 1 <= k < |rules|
      ensures Forms(rules)[k + 1] == RightmostReplacement(Forms(rules)[k], rules[k])
    {
      FormsStep(rules, k);
    }
  }

  /** Form k + 1 is the rightmost replacement of form k by rule k. */
  lemma {:induction false} FormsStep(rules: seq<Rule>, k: nat)
    requires 1 <= k < |rules|
    ensures Forms(rules)[k + 1] == RightmostReplacement(Forms(rules)[k], rules[k])
    decreases |rules|
  {
    var front := rules[..|rules| - 1];
    var prev := Forms(front);
    var r := rules[|rules| - 1];
    assert front + [r] == rules;
    FormsNext(front, r, prev[|prev| - 1]);
    if k < |rules| - 1 {
      FormsStep(front, k);
      assert front[k] == rules[k];
    }
  }

  /**
   * Each step of the rebuilt derivation expands the rightmost occurrence of its
   * rule's left-hand side in place, or repeats the previous form when the left-hand
   * side does not occur.
   */
  lemma DerivationStepsAreRightmost(configs: seq<Configuration>, k: nat)
    requires 1 <= k < |VisitOrder(configs)|
    ensures var fs := Derivations(configs);
      var r := VisitOrder(configs)[k];
      |fs| == |VisitOrder(configs)| + 1 &&
      ((forall j | 0 <= j < |fs[k]| :: fs[k][j] != Variable(r.lhs)) ==> fs[k + 1] == fs[k]) &&
      (forall p | 0 <= p < |fs[k]| && fs[k][p] == Variable(r.lhs) &&
                  (forall j | p < j < |fs[k]| :: fs[k][j] != Variable(r.lhs)) ::
         fs[k + 1] == fs[k][..p] + r.rhs + fs[k][p + 1..])
  {
    FormsStep(VisitOrder(configs), k);
    RightmostReplacementSpec(Derivations(configs)[k], VisitOrder(configs)[k]);
  }
}
