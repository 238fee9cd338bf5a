/**
 * Rules, transitions, the stack-top matcher and the rules that keep a state's
 * transition list deterministic (DPDA.java: Rule, Transition, matchStackTop,
 * the validation and ambiguity checks of addTransition, the selection of match).
 */
module Transitions {
  import opened Options
  import opened Tokens

  /** A production lhs -> rhs, attached to transitions as a label for the derivation. */
  datatype Rule = Rule(lhs: string, rhs: seq<GrammarToken>)

  /** The variable token on the left of a rule. */
  function LhsToken(r: Rule): GrammarToken { Variable(r.lhs) }

  /**
   * (currState, inputSymbol, stackTop) -> (nextState, stackTopReplacement), with the
   * rules reduced on the way.  Both stack lists are top-first.
   */
  datatype Transition = Transition(
    currState: int,
    inputSymbol: TerminalToken,
    stackTop: seq<StackToken>,
    nextState: int,
    stackTopReplacement: seq<StackToken>,
    rulesForReduction: seq<Rule>)

  /** The index of the first element of `s` satisfying `p`, if any. */
  function FirstWhere<T>(s: seq<T>, p: T -> bool): (r: Option<nat>)
    ensures r.Some? ==> r.value < |s| && p(s[r.value]) && forall j | 0 <= j < r.value :: !p(s[j])
    ensures r.None? ==> forall j | 0 <= j < |s| :: !p(s[j])
  {
    if s == [] then None
    else if p(s[0]) then Some(0)
    else match FirstWhere(s[1..], p)
      case None => None
      case Some(k) => Some(k + 1)
  }

  /**
   * matchStackTop(a, b): one list is a prefix of the other, comparing the first
   * min(|a|, |b|) positions with the elements of `a` as receivers.
   */
  predicate PrefixCompatible(a: seq<StackToken>, b: seq<StackToken>)
  {
    forall k | 0 <= k < |a| && k < |b| :: Eq(a[k], b[k])
  }

  /**
   * The condition `match` tests for one transition: its input equals `sym`, and its
   * pattern is empty (when `emptyPattern`) or compatible with the top-first stack.
   */
  predicate Applies(t: Transition, sym: TerminalToken, emptyPattern: bool, top: seq<StackToken>)
  {
    Eq(t.inputSymbol, sym) &&
    if emptyPattern then t.stackTop == [] else PrefixCompatible(top, t.stackTop)
  }

  /** The index of the transition `match` returns: the first one in insertion order that applies. */
  function FirstMatch(ts: seq<Transition>, sym: TerminalToken, emptyPattern: bool, top: seq<StackToken>): (r: Option<nat>)
    ensures r.Some? ==> r.value < |ts|
  {
    if ts == [] then None
    else if Applies(ts[0], sym, emptyPattern, top) then Some(0)
    else match FirstMatch(ts[1..], sym, emptyPattern, top)
      case None => None
      case Some(k) => Some(k + 1)
  }

  /**
   * The index `match` returns is that of a transition that applies, with none before
   * it applying; there is none exactly when no transition of the list applies.
   */
  lemma {:induction false} FirstMatchSpec(ts: seq<Transition>, sym: TerminalToken, emptyPattern: bool,
                                          top: seq<StackToken>)
    ensures var r := FirstMatch(ts, sym, emptyPattern, top);
      r.Some? ==>
        Applies(ts[r.value], sym, emptyPattern, top) &&
        forall j | 0 <= j < r.value :: !Applies(ts[j], sym, emptyPattern, top)
    ensures FirstMatch(ts, sym, emptyPattern, top).None? <==>
      forall j | 0 <= j < |ts| :: !Applies(ts[j], sym, emptyPattern, top)
    decreases |ts|
  {
    if ts != [] && !Applies(ts[0], sym, emptyPattern, top) {
      FirstMatchSpec(ts[1..], sym, emptyPattern, top);
      assert forall j | 1 <= j < |ts| :: ts[j] == ts[1..][j - 1];
    }
  }

  /** The first applying transition is the one `match` returns. */
  lemma {:induction false} FirstMatchAt(ts: seq<Transition>, sym: TerminalToken, emptyPattern: bool, top: seq<StackToken>, k: nat)
    requires k < |ts| && Applies(ts[k], sym, emptyPattern, top)
    requires forall j | 0 <= j < k :: !Applies(ts[j], sym, emptyPattern, top)
    ensures FirstMatch(ts, sym, emptyPattern, top) == Some(k)
    decreases k
  {
    if k > 0 {
      FirstMatchAt(ts[1..], sym, emptyPattern, top, k - 1);
    }
  }

  /** A list none of whose transitions applies has no match. */
  lemma FirstMatchNone(ts: seq<Transition>, sym: TerminalToken, emptyPattern: bool, top: seq<StackToken>)
    requires forall j | 0 <= j < |ts| :: !Applies(ts[j], sym, emptyPattern, top)
    ensures FirstMatch(ts, sym, emptyPattern, top) == None
  {
    FirstMatchSpec(ts, sym, emptyPattern, top);
  }

  /** The transition `match` returns, or None for null. */
  function Matched(ts: seq<Transition>, sym: TerminalToken, emptyPattern: bool, top: seq<StackToken>): Option<Transition>
  {
    match FirstMatch(ts, sym, emptyPattern, top)
    case Some(k) => Some(ts[k])
    case None => None
  }

  /** The three ambiguities addTransition reports with an IllegalArgumentException. */
  datatype Ambiguity = ExistingEpsilon | NewEpsilon | SameInput

  /**
   * The determinism check of addTransition for one existing transition: only pairs
   * whose patterns are both non-empty and prefix-compatible (existing as receiver)
   * are examined, and the first failing test names the ambiguity.
   */
  function ConflictKind(existing: Transition, added: Transition): Option<Ambiguity>
  {
    if existing.stackTop != [] && added.stackTop != [] && PrefixCompatible(existing.stackTop, added.stackTop) then
      if existing.inputSymbol.Epsilon? then Some(ExistingEpsilon)
      else if added.inputSymbol.Epsilon? then Some(NewEpsilon)
      else if Eq(existing.inputSymbol, added.inputSymbol) then Some(SameInput)
      else None
    else None
  }

  /** No later transition of the list conflicts with an earlier one. */
  predicate Deterministic(ts: seq<Transition>)
  {
    forall j, k | 0 <= j < k < |ts| :: ConflictKind(ts[j], ts[k]).None?
  }

  /** The declared alphabet and state count of an automaton. */
  datatype Alphabet = Alphabet(nStates: int, terminals: set<string>, variables: set<string>)

  /** `terminalTokens.contains(t)`: the hash set holds a terminal with t's value. */
  predicate DeclaredTerminal(alpha: Alphabet, t: StackToken)
  {
    Value(t) in alpha.terminals
  }

  /**
   * A pattern token passes validation: terminals and variables must be declared,
   * a state token other than WILDCARD must lie in [0, nStates] (nStates included),
   * lookahead markers are not checked.
   */
  predicate ValidPatternToken(alpha: Alphabet, t: StackToken)
  {
    match t
    case Terminal(_) | Epsilon => DeclaredTerminal(alpha, t)
    case Variable(x) => x in alpha.variables
    case State(n) => 0 <= n <= alpha.nStates
    case Wildcard => true
    case LookAhead(_) => true
  }

  /** A replacement token passes validation: only terminals and variables are checked. */
  predicate ValidReplacementToken(alpha: Alphabet, t: StackToken)
  {
    match t
    case Terminal(_) | Epsilon => DeclaredTerminal(alpha, t)
    case Variable(x) => x in alpha.variables
    case _ => true
  }

  /** The checks of addTransition that do not look at the existing transitions. */
  predicate Admissible(alpha: Alphabet, t: Transition)
  {
    && 0 <= t.currState < alpha.nStates
    && 0 <= t.nextState < alpha.nStates
    && (t.inputSymbol.Epsilon? || DeclaredTerminal(alpha, t.inputSymbol))
    && (forall k | 0 <= k < |t.stackTop| :: ValidPatternToken(alpha, t.stackTop[k]))
    && (forall k | 0 <= k < |t.stackTopReplacement| :: ValidReplacementToken(alpha, t.stackTopReplacement[k]))
  }

  /** The exceptions addTransition throws. */
  datatype TableError =
    | InvalidStateException(state: int)
    | InvalidSymbolException(token: StackToken)
    | IllegalArgumentException(kind: Ambiguity, existing: Transition)

  /** The first pattern token that fails validation. */
  function FirstInvalidPattern(alpha: Alphabet, s: seq<StackToken>): (r: Option<nat>)
    ensures r.Some? ==>
      r.value < |s| && !ValidPatternToken(alpha, s[r.value]) &&
      forall j | 0 <= j < r.value :: ValidPatternToken(alpha, s[j])
    ensures r.None? <==> forall j | 0 <= j < |s| :: ValidPatternToken(alpha, s[j])
  {
    FirstWhere(s, tok => !ValidPatternToken(alpha, tok))
  }

  /** The first replacement token that fails validation. */
  function FirstInvalidReplacement(alpha: Alphabet, s: seq<StackToken>): (r: Option<nat>)
    ensures r.Some? ==>
      r.value < |s| && !ValidReplacementToken(alpha, s[r.value]) &&
      forall j | 0 <= j < r.value :: ValidReplacementToken(alpha, s[j])
    ensures r.None? <==> forall j | 0 <= j < |s| :: ValidReplacementToken(alpha, s[j])
  {
    FirstWhere(s, tok => !ValidReplacementToken(alpha, tok))
  }

  /** The first existing transition that `t` is ambiguous with. */
  function FirstConflict(existing: seq<Transition>, t: Transition): (r: Option<nat>)
    ensures r.Some? ==>
      r.value < |existing| && ConflictKind(existing[r.value], t).Some? &&
      forall j | 0 <= j < r.value :: ConflictKind(existing[j], t).None?
    ensures r.None? <==> forall j | 0 <= j < |existing| :: ConflictKind(existing[j], t).None?
  {
    FirstWhere(existing, e => ConflictKind(e, t).Some?)
  }

  /** The first invalid pattern token is the one a left-to-right scan stops at. */
  lemma FirstInvalidPatternAt(alpha: Alphabet, s: seq<StackToken>, k: nat)
    requires k < |s| && !ValidPatternToken(alpha, s[k])
    requires forall j | 0 <= j < k :: ValidPatternToken(alpha, s[j])
    ensures FirstInvalidPattern(alpha, s) == Some(k)
  {
  }

  /** The first invalid replacement token is the one a left-to-right scan stops at. */
  lemma FirstInvalidReplacementAt(alpha: Alphabet, s: seq<StackToken>, k: nat)
    requires k < |s| && !ValidReplacementToken(alpha, s[k])
    requires forall j | 0 <= j < k :: ValidReplacementToken(alpha, s[j])
    ensures FirstInvalidReplacement(alpha, s) == Some(k)
  {
  }

  /** The first conflicting transition is the one a left-to-right scan stops at. */
  lemma FirstConflictAt(existing: seq<Transition>, t: Transition, k: nat)
    requires k < |existing| && ConflictKind(existing[k], t).Some?
    requires forall j | 0 <= j < k :: ConflictKind(existing[j], t).None?
    ensures FirstConflict(existing, t) == Some(k)
  {
  }

  /**
   * The exception addTransition throws when adding `t` to a state whose list is
   * `existing`, or None when it appends: the first failing check, in source order.
   */
  function InsertionError(alpha: Alphabet, existing: seq<Transition>, t: Transition): Option<TableError>
  {
    if !(0 <= t.currState < alpha.nStates) then Some(InvalidStateException(t.currState))
    else if !(0 <= t.nextState < alpha.nStates) then Some(InvalidStateException(t.nextState))
    else if !t.inputSymbol.Epsilon? && !DeclaredTerminal(alpha, t.inputSymbol) then
      Some(InvalidSymbolException(t.inputSymbol))
    else
      match FirstInvalidPattern(alpha, t.stackTop)
      case Some(k) => Some(InvalidSymbolException(t.stackTop[k]))
      case None =>
        match FirstInvalidReplacement(alpha, t.stackTopReplacement)
        case Some(k) => Some(InvalidSymbolException(t.stackTopReplacement[k]))
        case None =>
          match FirstConflict(existing, t)
          case Some(k) => Some(IllegalArgumentException(ConflictKind(existing[k], t).value, existing[k]))
          case None => None
  }

  /**
   * transitionMap: each state's list of transitions, in insertion order; a state
   * absent from the map has no list (a lookup gives null).
   */
  type Table = map<int, seq<Transition>>

  /** The list of state `s`, empty when the table has none. */
  function ListAt(tbl: Table, s: int): seq<Transition>
  {
    if s in tbl then tbl[s] else []
  }

  /**
   * What addTransition maintains: every list is deterministic and holds only
   * validated transitions out of the state it is filed under.
   */
  predicate ValidTable(alpha: Alphabet, tbl: Table)
  {
    forall s | s in tbl ::
      Deterministic(tbl[s]) &&
      forall k | 0 <= k < |tbl[s]| :: tbl[s][k].currState == s && Admissible(alpha, tbl[s][k])
  }

  // ---------------------------------------------------------------------------
  // Properties of the table construction
  // ---------------------------------------------------------------------------

  /**
   * addTransition succeeds exactly when the transition passes every validation and
   * conflicts with none of the existing transitions of its state.
   */
  lemma InsertionAcceptedIff(alpha: Alphabet, ts: seq<Transition>, t: Transition)
    ensures InsertionError(alpha, ts, t).None? <==>
      Admissible(alpha, t) && forall j | 0 <= j < |ts| :: ConflictKind(ts[j], t).None?
  {
  }

  /** The table error names the first failing check. */
  lemma InsertionErrorIsFirstFailure(alpha: Alphabet, ts: seq<Transition>, t: Transition)
    ensures InsertionError(alpha, ts, t).Some? && InsertionError(alpha, ts, t).value.InvalidStateException? <==>
      !(0 <= t.currState < alpha.nStates && 0 <= t.nextState < alpha.nStates)
    ensures InsertionError(alpha, ts, t).Some? && InsertionError(alpha, ts, t).value.IllegalArgumentException? ==>
      Admissible(alpha, t) &&
      exists j | 0 <= j < |ts| :: ts[j] == InsertionError(alpha, ts, t).value.existing &&
        ConflictKind(ts[j], t) == Some(InsertionError(alpha, ts, t).value.kind) &&
        forall i | 0 <= i < j :: ConflictKind(ts[i], t).None?
  {
    var err := InsertionError(alpha, ts, t);
    if err.Some? && err.value.IllegalArgumentException? {
      var j := FirstConflict(ts, t).value;
      assert ts[j] == err.value.existing;
    }
  }

  /** A successful insertion keeps the list deterministic. */
  lemma InsertionKeepsDeterminism(alpha: Alphabet, ts: seq<Transition>, t: Transition)
    requires Deterministic(ts)
    requires InsertionError(alpha, ts, t).None?
    ensures Deterministic(ts + [t])
  {
    InsertionAcceptedIff(alpha, ts, t);
    var ts' := ts + [t];
    forall j, k | 0 <= j < k < |ts'|
      ensures ConflictKind(ts'[j], ts'[k]).None?
    {
      if k == |ts| {
        assert ts'[j] == ts[j] && ts'[k] == t;
      } else {
        assert ts'[j] == ts[j] && ts'[k] == ts[k];
      }
    }
  }

  /**
   * addTransition keeps the table valid: a successful insertion appends to the list
   * of the transition's own state and leaves every other list as it was.
   */
  lemma InsertionKeepsTableValid(alpha: Alphabet, tbl: Table, t: Transition)
    requires ValidTable(alpha, tbl)
    requires InsertionError(alpha, ListAt(tbl, t.currState), t).None?
    ensures ValidTable(alpha, tbl[t.currState := ListAt(tbl, t.currState) + [t]])
  {
    var ts := ListAt(tbl, t.currState);
    InsertionAcceptedIff(alpha, ts, t);
    InsertionKeepsDeterminism(alpha, ts, t);
    var tbl' := tbl[t.currState := ts + [t]];
    forall s | s in tbl'
      ensures Deterministic(tbl'[s])
      ensures forall k | 0 <= k < |tbl'[s]| :: tbl'[s][k].currState == s && Admissible(alpha, tbl'[s][k])
    {
      if s == t.currState {
        forall k | 0 <= k < |tbl'[s]|
          ensures tbl'[s][k].currState == s && Admissible(alpha, tbl'[s][k])
        {
          if k < |ts| {
            assert tbl'[s][k] == ts[k];
          }
        }
      }
    }
  }

  /**
   * For an admissible transition on a deterministic list, addTransition throws the
   * ambiguity exception exactly when appending would break determinism.
   */
  lemma AmbiguityIffNondeterministic(alpha: Alphabet, ts: seq<Transition>, t: Transition)
    requires Deterministic(ts) && Admissible(alpha, t)
    ensures InsertionError(alpha, ts, t).Some? <==> !Deterministic(ts + [t])
  {
    InsertionAcceptedIff(alpha, ts, t);
    if InsertionError(alpha, ts, t).Some? {
      var j :| 0 <= j < |ts| && ConflictKind(ts[j], t).Some?;
      assert (ts + [t])[j] == ts[j] && (ts + [t])[|ts|] == t;
    } else {
      InsertionKeepsDeterminism(alpha, ts, t);
    }
  }

  /**
   * Appending keeps earlier winners: the new transition is returned by `match` only
   * when none of the earlier ones applies.
   */
  lemma {:induction false} MatchAfterAppend(ts: seq<Transition>, t: Transition, sym: TerminalToken,
                                            emptyPattern: bool, top: seq<StackToken>)
    ensures FirstMatch(ts + [t], sym, emptyPattern, top) ==
      if FirstMatch(ts, sym, emptyPattern, top).Some? then FirstMatch(ts, sym, emptyPattern, top)
      else if Applies(t, sym, emptyPattern, top) then Some(|ts|)
      else None
    decreases |ts|
  {
    if ts == [] {
      assert [t][1..] == [];
    } else {
      assert (ts + [t])[1..] == ts[1..] + [t];
      MatchAfterAppend(ts[1..], t, sym, emptyPattern, top);
    }
  }

  /**
   * On a deterministic list, at most one transition with a non-empty pattern applies
   * for a given input and stack, provided the stack holds no WILDCARD and no
   * lookahead marker and is at least as deep as both patterns.
   */
  lemma StackMatchIsUnique(ts: seq<Transition>, sym: TerminalToken, top: seq<StackToken>, j: nat, k: nat)
    requires Deterministic(ts)
    requires j < k < |ts|
    requires ts[j].stackTop != [] && ts[k].stackTop != []
    requires |ts[j].stackTop| <= |top| && |ts[k].stackTop| <= |top|
    requires forall i | 0 <= i < |top| :: Plain(top[i])
    ensures !(Applies(ts[j], sym, false, top) && Applies(ts[k], sym, false, top))
  {
    if Applies(ts[j], sym, false, top) && Applies(ts[k], sym, false, top) {
      var p, q := ts[j].stackTop, ts[k].stackTop;
      TerminalEqTransitive(ts[j].inputSymbol, sym, ts[k].inputSymbol);
      forall i | 0 <= i < |p| && i < |q|
        ensures Eq(p[i], q[i])
      {
        EqThroughPlain(top[i], p[i], q[i]);
      }
      assert false;
    }
  }

  /**
   * The EPSILON tests of the ambiguity check keep an epsilon stack move and an input
   * stack move from both fitting one stack: when either transition reads the
   * EPSILON object, the stack-match tier for EPSILON and the one for the next input
   * token cannot both find a transition.
   */
  lemma EpsilonStackMoveIsExclusive(ts: seq<Transition>, sym: TerminalToken, top: seq<StackToken>, j: nat, k: nat)
    requires Deterministic(ts)
    requires j < |ts| && k < |ts| && j != k
    requires ts[j].stackTop != [] && ts[k].stackTop != []
    requires |ts[j].stackTop| <= |top| && |ts[k].stackTop| <= |top|
    requires forall i | 0 <= i < |top| :: Plain(top[i])
    requires ts[j].inputSymbol.Epsilon? || ts[k].inputSymbol.Epsilon?
    ensures !(Applies(ts[j], Epsilon, false, top) && Applies(ts[k], sym, false, top))
  {
    if Applies(ts[j], Epsilon, false, top) && Applies(ts[k], sym, false, top) {
      var p, q := ts[j].stackTop, ts[k].stackTop;
      forall i | 0 <= i < |p| && i < |q|
        ensures Eq(p[i], q[i]) && Eq(q[i], p[i])
      {
        EqThroughPlain(top[i], p[i], q[i]);
        EqThroughPlain(top[i], q[i], p[i]);
      }
      assert false;
    }
  }

  /**
   * The EPSILON tests compare by identity, while `match` compares input symbols by
   * value: a declared terminal named "epsilon" passes the ambiguity check beside an
   * input stack move, yet both fit the same stack.
   */
  lemma EpsilonNamedTerminalAdmitsTwoMatches()
    ensures var ts := [Transition(0, Terminal("epsilon"), [Terminal("$")], 1, [], []),
                       Transition(0, Terminal("a"), [Terminal("$")], 2, [], [])];
      Deterministic(ts) &&
      Applies(ts[0], Epsilon, false, [Terminal("$")]) && Applies(ts[1], Terminal("a"), false, [Terminal("$")])
  {
    var ts := [Transition(0, Terminal("epsilon"), [Terminal("$")], 1, [], []),
               Transition(0, Terminal("a"), [Terminal("$")], 2, [], [])];
    assert !Eq(ts[0].inputSymbol, ts[1].inputSymbol);
  }

  /** A stack shorter than both patterns lets two deterministic transitions apply. */
  lemma ShortStackAdmitsTwoMatches()
    ensures var ts := [Transition(0, Terminal("a"), [Terminal("$"), Terminal("a")], 1, [], []),
                       Transition(0, Terminal("a"), [Terminal("$"), Terminal("b")], 2, [], [])];
      Deterministic(ts) &&
      Applies(ts[0], Terminal("a"), false, [Terminal("$")]) &&
      Applies(ts[1], Terminal("a"), false, [Terminal("$")])
  {
    var ts := [Transition(0, Terminal("a"), [Terminal("$"), Terminal("a")], 1, [], []),
               Transition(0, Terminal("a"), [Terminal("$"), Terminal("b")], 2, [], [])];
    assert !Eq(ts[0].stackTop[1], ts[1].stackTop[1]);
    assert ConflictKind(ts[0], ts[1]).None?;
  }

  /** A WILDCARD on the stack matches two patterns the determinism check keeps apart. */
  lemma WildcardOnStackAdmitsTwoMatches()
    ensures var ts := [Transition(0, Terminal("a"), [State(3)], 1, [], []),
                       Transition(0, Terminal("a"), [State(4)], 2, [], [])];
      Deterministic(ts) &&
      Applies(ts[0], Terminal("a"), false, [Wildcard]) &&
      Applies(ts[1], Terminal("a"), false, [Wildcard])
  {
    var ts := [Transition(0, Terminal("a"), [State(3)], 1, [], []),
               Transition(0, Terminal("a"), [State(4)], 2, [], [])];
    assert !Eq(ts[0].stackTop[0], ts[1].stackTop[0]);
    assert ConflictKind(ts[0], ts[1]).None?;
  }

  /**
   * A lookahead marker on the stack matches a terminal pattern with the same value;
   * the determinism check compares existing-as-receiver, so a terminal pattern added
   * before the lookahead pattern is not seen as overlapping.
   */
  lemma LookAheadOnStackAdmitsTwoMatches()
    ensures var ts := [Transition(0, Terminal("a"), [Terminal("Lx")], 1, [], []),
                       Transition(0, Terminal("a"), [LookAhead("x")], 2, [], [])];
      Deterministic(ts) &&
      Applies(ts[0], Terminal("a"), false, [LookAhead("x")]) &&
      Applies(ts[1], Terminal("a"), false, [LookAhead("x")])
  {
    var ts := [Transition(0, Terminal("a"), [Terminal("Lx")], 1, [], []),
               Transition(0, Terminal("a"), [LookAhead("x")], 2, [], [])];
    LookAheadIsAsymmetric("x");
    assert "Lx" == "L" + "x";
    assert !Eq(ts[0].stackTop[0], ts[1].stackTop[0]);
    assert ConflictKind(ts[0], ts[1]).None?;
  }

  /** Transitions with empty patterns are never checked: duplicates are kept and the first wins. */
  lemma EmptyPatternDuplicatesAllowed(t: Transition, u: Transition, top: seq<StackToken>)
    requires t.stackTop == [] && u.stackTop == [] && t.inputSymbol == u.inputSymbol
    ensures Deterministic([t, u])
    ensures FirstMatch([t, u], t.inputSymbol, true, top) == Some(0)
  {
    EqReflexive(t.inputSymbol);
  }
}
