/**
 * The automaton object of DPDA.java: the declared alphabet, the transition map that
 * addTransition extends, and the working stack that process clears, reads and
 * rewrites.  Each method runs the source's loops and is proved equal to the
 * value-level functions of the Transitions, Stacks, Run and Derivations modules.
 */
module Automaton {
  import opened Options
  import opened Tokens
  import opened Transitions
  import opened Stacks
  import opened Run
  import opened Derivations

  class Dpda {
    const nStates: int
    const startState: int
    const terminals: set<string>
    const variables: set<string>
    const acceptStates: set<int>

    /** java.util.Stack: elements listed from the bottom, the top is the last one. */
    var stack: seq<StackToken>

    /** Per-state transition lists, in insertion order. */
    var transitionMap: map<int, seq<Transition>>

    function Alpha(): Alphabet
    {
      Alphabet(nStates, terminals, variables)
    }

    /** The list of a state, empty when the map has none. */
    function TransitionsAt(s: int): seq<Transition>
      reads this
    {
      ListAt(transitionMap, s)
    }

    /** Every list is deterministic and holds only validated transitions out of its own state. */
    ghost predicate Valid()
      reads this
    {
      ValidTable(Alpha(), transitionMap)
    }

    constructor (nStates: int, startState: int, terminals: set<string>, variables: set<string>,
                 acceptStates: set<int>)
      ensures this.nStates == nStates && this.startState == startState
      ensures this.terminals == terminals && this.variables == variables
      ensures this.acceptStates == acceptStates
      ensures stack == [] && transitionMap == map[]
      ensures Valid()
    {
      this.nStates := nStates;
      this.startState := startState;
      this.terminals := terminals;
      this.variables := variables;
      this.acceptStates := acceptStates;
      stack := [];
      transitionMap := map[];
    }

    /** matchStackTop: walks both lists together and fails on the first unequal pair. */
    method MatchStackTop(stackTop1: seq<StackToken>, stackTop2: seq<StackToken>) returns (r: bool)
      ensures r == PrefixCompatible(stackTop1, stackTop2)
    {
      var k := 0;
      while k < |stackTop1| && k < |stackTop2|
        invariant 0 <= k <= |stackTop1| && k <= |stackTop2|
        invariant forall j | 0 <= j < k :: Eq(stackTop1[j], stackTop2[j])
      {
        if !Eq(stackTop1[k], stackTop2[k]) {
          return false;
        }
        k := k + 1;
      }
      return true;
    }

    /**
     * The checks of addTransition, in source order: the two states, the input
     * symbol, each pattern token, each replacement token, then the determinism
     * check against the existing transitions of the state.  Nothing is changed.
     */
    method CheckTransition(t: Transition) returns (err: Option<TableError>)
      ensures err == InsertionError(Alpha(), TransitionsAt(t.currState), t)
    {
      if t.currState < 0 || t.currState >= nStates {
        return Some(InvalidStateException(t.currState));
      }
      if t.nextState < 0 || t.nextState >= nStates {
        return Some(InvalidStateException(t.nextState));
      }
      if !t.inputSymbol.Epsilon? && !DeclaredTerminal(Alpha(), t.inputSymbol) {
        return Some(InvalidSymbolException(t.inputSymbol));
      }
      var k := 0;
      while k < |t.stackTop|
        invariant 0 <= k <= |t.stackTop|
        invariant forall j | 0 <= j < k :: ValidPatternToken(Alpha(), t.stackTop[j])
      {
        if !ValidPatternToken(Alpha(), t.stackTop[k]) {
          FirstInvalidPatternAt(Alpha(), t.stackTop, k);
          return Some(InvalidSymbolException(t.stackTop[k]));
        }
        k := k + 1;
      }
      k := 0;
      while k < |t.stackTopReplacement|
        invariant 0 <= k <= |t.stackTopReplacement|
        invariant forall j | 0 <= j < k :: ValidReplacementToken(Alpha(), t.stackTopReplacement[j])
      {
        if !ValidReplacementToken(Alpha(), t.stackTopReplacement[k]) {
          FirstInvalidReplacementAt(Alpha(), t.stackTopReplacement, k);
          return Some(InvalidSymbolException(t.stackTopReplacement[k]));
        }
        k := k + 1;
      }
      var transitions := TransitionsAt(t.currState);
      k := 0;
      while k < |transitions|
        invariant 0 <= k <= |transitions|
        invariant forall j | 0 <= j < k :: ConflictKind(transitions[j], t).None?
      {
        var existing := transitions[k];
        if existing.stackTop != [] && t.stackTop != [] {
          var overlap := MatchStackTop(existing.stackTop, t.stackTop);
          if overlap {
            if existing.inputSymbol.Epsilon? || t.inputSymbol.Epsilon? || Eq(existing.inputSymbol, t.inputSymbol) {
              FirstConflictAt(transitions, t, k);
            }
            if existing.inputSymbol.Epsilon? {
              return Some(IllegalArgumentException(ExistingEpsilon, existing));
            }
            if t.inputSymbol.Epsilon? {
              return Some(IllegalArgumentException(NewEpsilon, existing));
            }
            if Eq(existing.inputSymbol, t.inputSymbol) {
              return Some(IllegalArgumentException(SameInput, existing));
            }
          }
        }
        k := k + 1;
      }
      return None;
    }

    /**
     * addTransition: runs the checks and appends the transition to the list of
     * `currState` when they pass.  The exception is returned; when there is one
     * the map is left as it was.
     */
    method AddTransition(currState: int, inputSymbol: TerminalToken, stackTop: seq<StackToken>,
                         nextState: int, stackTopReplacement: seq<StackToken>, rules: seq<Rule>)
      returns (err: Option<TableError>)
      requires Valid()
      modifies this`transitionMap
      ensures Valid()
      ensures var t := Transition(currState, inputSymbol, stackTop, nextState, stackTopReplacement, rules);
        err == InsertionError(Alpha(), old(TransitionsAt(currState)), t)
      ensures var t := Transition(currState, inputSymbol, stackTop, nextState, stackTopReplacement, rules);
        err.None? ==> transitionMap == old(transitionMap)[currState := old(TransitionsAt(currState)) + [t]]
      ensures err.Some? ==> transitionMap == old(transitionMap)
    {
      var t := Transition(currState, inputSymbol, stackTop, nextState, stackTopReplacement, rules);
      err := CheckTransition(t);
      if err.None? {
        InsertionKeepsTableValid(Alpha(), transitionMap, t);
        transitionMap := transitionMap[currState := TransitionsAt(currState) + [t]];
      }
    }

    /** copyStack: the stack as a top-first list. */
    method CopyStack() returns (stackTop: seq<StackToken>)
      ensures stackTop == Reverse(stack)
    {
      stackTop := [];
      var k := 0;
      while k < |stack|
        invariant 0 <= k <= |stack|
        invariant stackTop == Reverse(stack[..k])
      {
        assert stack[..k + 1][..k] == stack[..k];
        stackTop := [stack[k]] + stackTop;
        k := k + 1;
      }
      assert stack[..|stack|] == stack;
    }

    /**
     * match: the first transition of the state, in insertion order, whose input
     * equals `inputSymbol` and whose pattern is empty (`epsilonStack`) or compatible
     * with the current stack.  The state must have a list.
     */
    method Match(currState: int, inputSymbol: TerminalToken, epsilonStack: bool) returns (r: Option<Transition>)
      requires currState in transitionMap
      ensures r == Matched(transitionMap[currState], inputSymbol, epsilonStack, Reverse(stack))
    {
      var transitions := transitionMap[currState];
      var stackTop := CopyStack();
      var k := 0;
      while k < |transitions|
        invariant 0 <= k <= |transitions|
        invariant forall j | 0 <= j < k :: !Applies(transitions[j], inputSymbol, epsilonStack, stackTop)
      {
        var transition := transitions[k];
        if Eq(transition.inputSymbol, inputSymbol) {
          var found := false;
          if epsilonStack {
            found := transition.stackTop == [];
          } else {
            found := MatchStackTop(stackTop, transition.stackTop);
          }
          if found {
            FirstMatchAt(transitions, inputSymbol, epsilonStack, stackTop, k);
            return Some(transition);
          }
        }
        k := k + 1;
      }
      FirstMatchNone(transitions, inputSymbol, epsilonStack, stackTop);
      return None;
    }

    /**
     * actOnStack: pops the pattern token by token, stopping without pushing on the
     * first mismatch, then pushes the replacement last token first.  `thrown`
     * reports the EmptyStackException of a peek on the empty stack.
     */
    method ActOnStack(transition: Option<Transition>) returns (thrown: bool)
      modifies this`stack
      ensures thrown <==> Stacks.ActOnStack(Reverse(old(stack)), transition).None?
      ensures !thrown ==> Reverse(stack) == Stacks.ActOnStack(Reverse(old(stack)), transition).value
      ensures thrown ==> stack == []
    {
      thrown := false;
      if transition.Some? {
        var pattern := transition.value.stackTop;
        var k := 0;
        while k < |pattern|
          invariant 0 <= k <= |pattern|
          invariant PopPattern(Reverse(old(stack)), pattern) == PopPattern(Reverse(stack), pattern[k..])
        {
          PopPatternFrom(Reverse(stack), pattern, k);
          if stack == [] {
            return true;
          }
          ReversePop(stack);
          var stackToken := stack[|stack| - 1];
          if !Eq(stackToken, pattern[k]) {
            return;
          }
          stack := stack[..|stack| - 1];
          k := k + 1;
        }
        PopPatternFrom(Reverse(stack), pattern, k);
        PushReplacement(transition.value.stackTopReplacement);
      }
    }

    /** The push loop of actOnStack: last token first, so the first token ends on top. */
    method PushReplacement(replacement: seq<StackToken>)
      modifies this`stack
      ensures Reverse(stack) == replacement + Reverse(old(stack))
    {
      ghost var target := replacement + Reverse(stack);
      var i := |replacement| - 1;
      while i >= 0
        invariant -1 <= i < |replacement|
        invariant Reverse(stack) == target[i + 1..]
      {
        ReversePush(stack, replacement[i]);
        assert target[i..] == [replacement[i]] + target[i + 1..];
        stack := stack + [replacement[i]];
        i := i - 1;
      }
      assert target[0..] == target;
    }

    /**
     * The transition selection at the head of process's loop: the four `match`
     * calls in tier order, each tried only when the previous ones found nothing.
     */
    method SelectTransition(currState: int, input: seq<TerminalToken>, i: nat)
      returns (inputToken: TerminalToken, transition: Option<Transition>, ghost selected: Option<Choice>)
      requires currState in transitionMap && i <= |input|
      ensures transition.None? <==> Tier(transitionMap[currState], input, i, Reverse(stack)).None?
      ensures transition.Some? ==>
        Tier(transitionMap[currState], input, i, Reverse(stack)) == Some(Choice(inputToken, transition.value))
      ensures selected == Tier(transitionMap[currState], input, i, Reverse(stack))
    {
      TierCascade(transitionMap[currState], input, i, Reverse(stack));
      inputToken := Epsilon;
      transition := Match(currState, inputToken, true);
      if transition.None? {
        if i < |input| {
          inputToken := input[i];
          transition := Match(currState, inputToken, true);
        } else {
          transition := None;
        }
        if transition.None? {
          inputToken := Epsilon;
          transition := Match(currState, inputToken, false);
          if transition.None? {
            if i < |input| {
              inputToken := input[i];
              transition := Match(currState, inputToken, false);
            } else {
              transition := None;
            }
          }
        }
      }
      selected := if transition.None? then None else Some(Choice(inputToken, transition.value));
    }

    /**
     * process: clears the stack and runs the loop while input remains or the stack
     * holds more than its base, stopping after `maxSteps` iterations; the outcome
     * and the final stack are those of Run.Process.
     */
    method Process(input: seq<TerminalToken>, maxSteps: nat) returns (out: RunOutcome)
      modifies this`stack
      ensures out == Run.Process(transitionMap, acceptStates, startState, input, maxSteps)
      ensures Reverse(stack) == Loop(transitionMap, input, Initial(startState), maxSteps).last.top
    {
      stack := [];
      var i: nat := 0;
      var currState := startState;
      var transition: Option<Transition> := None;
      var configurations: seq<Configuration> := [];
      var fuel := maxSteps;
      ghost var tbl := transitionMap;
      ghost var h := Loop(tbl, input, Initial(startState), maxSteps);
      ghost var cur := Initial(startState);
      while i < |input| || |stack| > 1
        invariant i <= |input| && transitionMap == tbl
        invariant cur == Machine(i, currState, Reverse(stack), configurations)
        invariant Loop(tbl, input, cur, fuel) == h
        invariant configurations != [] ==> transition == Some(configurations[|configurations| - 1].transition)
        decreases fuel
      {
        LoopStopsAt(tbl, input, cur, fuel);
        if fuel == 0 {
          return StepLimit(configurations);
        }
        if currState !in transitionMap {
          return Thrown(NullTransitionList);
        }
        var inputToken;
        ghost var selected;
        inputToken, transition, selected := SelectTransition(currState, input, i);
        if transition.None? {
          LoopFindsNoTransition(tbl, input, cur, fuel);
          return Stuck(configurations);
        }
        ghost var choice := selected.value;
        var snapshot := CopyStack();
        configurations := configurations + [Configuration(currState, inputToken, snapshot, transition.value)];
        if !inputToken.Epsilon? {
          i := i + 1;
        }
        var thrown := ActOnStack(transition);
        if thrown {
          LoopFaults(tbl, input, cur, fuel, choice);
          return Thrown(EmptyStack);
        }
        LoopContinues(tbl, input, cur, fuel, choice, Reverse(stack));
        cur := Machine(if choice.consumed.Epsilon? then cur.i else cur.i + 1, choice.transition.nextState,
                       Reverse(stack), cur.configs + [Configuration(cur.state, choice.consumed, cur.top, choice.transition)]);
        currState := transition.value.nextState;
        fuel := fuel - 1;
      }
      LoopStopsAt(tbl, input, cur, fuel);
      if configurations == [] {
        return Thrown(IndexOutOfBounds);
      }
      if IsAccepting(acceptStates, configurations[|configurations| - 1]) {
        var snapshot := CopyStack();
        configurations := configurations + [Configuration(currState, Epsilon, snapshot, transition.value)];
      }
      return Completed(configurations);
    }

    /**
     * One of the prepending loops of getRightMostReplacement: the tokens, from the
     * last to the first, each added at index 0 of `acc`.
     */
    static method PrependEach(tokens: seq<GrammarToken>, acc: seq<GrammarToken>) returns (r: seq<GrammarToken>)
      ensures r == tokens + acc
    {
      r := acc;
      var m := |tokens| - 1;
      while m >= 0
        invariant -1 <= m < |tokens|
        invariant r == tokens[m + 1..|tokens|] + acc
      {
        PrependSlice(tokens, m, |tokens|, acc);
        r := [tokens[m]] + r;
        m := m - 1;
      }
      assert tokens[0..|tokens|] == tokens;
    }

    /** getRightMostReplacement: the form with the rightmost occurrence of the rule's lhs expanded. */
    static method GetRightMostReplacement(derivation: seq<GrammarToken>, rule: Rule)
      returns (newDerivation: seq<GrammarToken>)
      ensures newDerivation == RightmostReplacement(derivation, rule)
    {
      var k := |derivation| - 1;
      newDerivation := [];
      assert derivation[..|derivation|] == derivation;
      while k >= 0 && !Eq(derivation[k], LhsToken(rule))
        invariant -1 <= k < |derivation|
        invariant newDerivation == derivation[k + 1..]
        invariant LastMatch(derivation, LhsToken(rule)) == LastMatch(derivation[..k + 1], LhsToken(rule))
      {
        LastMatchSkip(derivation, LhsToken(rule), k);
        PrependSlice(derivation, k, |derivation|, []);
        newDerivation := [derivation[k]] + newDerivation;
        k := k - 1;
      }
      LastMatchStop(derivation, LhsToken(rule), k);
      RightmostReplacementAtLast(derivation, rule, k);
      if k >= 0 {
        newDerivation := PrependEach(rule.rhs, newDerivation);
        newDerivation := PrependEach(derivation[..k], newDerivation);
      }
    }

    /**
     * The inner loop of getDerivations over one configuration's rules, last to
     * first: the forms already built, extended by those of these rules.
     */
    static method AddRuleForms(rules: seq<Rule>, ghost visited: seq<Rule>, derivations: seq<seq<GrammarToken>>,
                               lastDerivation: seq<GrammarToken>, addStart: bool)
      returns (forms: seq<seq<GrammarToken>>, last: seq<GrammarToken>, start: bool)
      requires derivations == Forms(visited)
      requires addStart <==> visited == []
      requires !addStart ==> lastDerivation == derivations[|derivations| - 1]
      ensures forms == Forms(visited + Reverse(rules))
      ensures start <==> visited + Reverse(rules) == []
      ensures !start ==> last == forms[|forms| - 1]
    {
      forms, last, start := derivations, lastDerivation, addStart;
      ghost var seen := visited;
      var j := |rules| - 1;
      while j >= 0
        invariant -1 <= j < |rules|
        invariant seen == visited + Reverse(rules[j + 1..])
        invariant forms == Forms(seen)
        invariant start <==> seen == []
        invariant !start ==> last == forms[|forms| - 1]
      {
        var rule := rules[j];
        ReverseFrom(rules, j);
        if start {
          FormsFirst(rule);
          forms := forms + [[LhsToken(rule)]];
          last := rule.rhs;
          forms := forms + [last];
        } else {
          var form := GetRightMostReplacement(last, rule);
          FormsNext(seen, rule, last);
          forms := forms + [form];
          last := forms[|forms| - 1];
        }
        seen := seen + [rule];
        start := false;
        j := j - 1;
      }
      assert rules[0..] == rules;
    }

    /**
     * getDerivations: walks the trace from the last but one configuration to the
     * first and each one's rules from last to first; the first rule gives [lhs]
     * and its rhs, every later one the rightmost replacement of the previous form.
     */
    method GetDerivations(configs: seq<Configuration>) returns (derivations: seq<seq<GrammarToken>>)
      ensures derivations == Derivations.Derivations(configs)
    {
      derivations := [];
      var addStart := true;
      var lastDerivation: seq<GrammarToken> := [];
      // the rules visited so far, in visiting order
      ghost var visited: seq<Rule> := [];
      var i := |configs| - 2;
      while i >= 0
        invariant -2 <= i <= |configs| - 2 && (configs != [] ==> i >= -1)
        invariant configs != [] ==> visited == VisitOrder(configs[i + 1..])
        invariant configs == [] ==> visited == []
        invariant derivations == Forms(visited)
        invariant addStart <==> visited == []
        invariant !addStart ==> lastDerivation == derivations[|derivations| - 1]
      {
        var rules := configs[i].transition.rulesForReduction;
        derivations, lastDerivation, addStart := AddRuleForms(rules, visited, derivations, lastDerivation, addStart);
        VisitOrderFrom(configs, i);
        visited := visited + Reverse(rules);
        i := i - 1;
      }
      assert configs != [] ==> configs[0..] == configs;
    }
  }
}
