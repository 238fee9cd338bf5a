/**
 * The run loop of the automaton (DPDA.java `process`) as functions over values:
 * one loop iteration is `Step`, the loop is `Loop` with an explicit step ceiling,
 * and `Process` adds the closing accept configuration.  The class in Automaton.dfy
 * runs the same loop imperatively and is proved equal to `Process`.
 */
module Run {
  import opened Options
  import opened Tokens
  import opened Transitions
  import opened Stacks

  /**
   * One entry of the trace: the state before the step, the input token the step
   * consumed (EPSILON for an epsilon move), the top-first stack before the step and
   * the transition taken.
   */
  datatype Configuration = Configuration(
    currState: int,
    consumed: TerminalToken,
    fromStackState: seq<StackToken>,
    transition: Transition)

  /** Configuration.isAccepting: the transition leads to an accept state. */
  predicate IsAccepting(acceptStates: set<int>, c: Configuration)
  {
    c.transition.nextState in acceptStates
  }

  /** acceptString: the trace is non-empty and its last entry is accepting. */
  predicate AcceptString(acceptStates: set<int>, configs: seq<Configuration>)
  {
    configs != [] && IsAccepting(acceptStates, configs[|configs| - 1])
  }

  /**
   * isAccepting looks at the next state of the configuration's transition and at
   * nothing else: neither the state the step left from, nor its input token, nor
   * its stack snapshot.
   */
  lemma IsAcceptingByNextState(acceptStates: set<int>, c: Configuration, c': Configuration)
    requires c'.transition.nextState == c.transition.nextState
    ensures IsAccepting(acceptStates, c) <==> c.transition.nextState in acceptStates
    ensures IsAccepting(acceptStates, c) == IsAccepting(acceptStates, c')
  {
  }

  /**
   * acceptString rejects the empty trace, and otherwise only the last entry
   * decides: the entries before it play no part.
   */
  lemma AcceptStringLastEntryOnly(acceptStates: set<int>, earlier: seq<Configuration>, earlier': seq<Configuration>,
                                  c: Configuration)
    ensures !AcceptString(acceptStates, [])
    ensures AcceptString(acceptStates, earlier + [c]) <==> IsAccepting(acceptStates, c)
    ensures AcceptString(acceptStates, earlier + [c]) == AcceptString(acceptStates, earlier' + [c])
  {
  }

  /** The transition a tier selected, with the input token it consumes. */
  datatype Choice = Choice(consumed: TerminalToken, transition: Transition)

  /**
   * The tiers from `tier` on, in order: 0 is EPSILON with an empty pattern, 1 the
   * next input token with an empty pattern, 2 EPSILON with a stack match, 3 the next
   * input token with a stack match.  The input tiers are skipped once the input is
   * used up.
   */
  function TierFrom(ts: seq<Transition>, input: seq<TerminalToken>, i: nat, top: seq<StackToken>, tier: nat)
    : (r: Option<Choice>)
    ensures r.Some? ==> r.value.consumed == Epsilon || (i < |input| && r.value.consumed == input[i])
    decreases 4 - tier
  {
    if tier >= 4 then None
    else if tier % 2 == 1 && i >= |input| then TierFrom(ts, input, i, top, tier + 1)
    else
      var sym: TerminalToken := if tier % 2 == 1 then input[i] else Epsilon;
      match Matched(ts, sym, tier < 2, top)
      case Some(t) => Some(Choice(sym, t))
      case None => TierFrom(ts, input, i, top, tier + 1)
  }

  /** The selection at the head of process's loop: all four tiers. */
  function Tier(ts: seq<Transition>, input: seq<TerminalToken>, i: nat, top: seq<StackToken>): (r: Option<Choice>)
    ensures r.Some? ==> r.value.consumed == Epsilon || (i < |input| && r.value.consumed == input[i])
  {
    TierFrom(ts, input, i, top, 0)
  }

  /** The tiers written out as the nested tests of process. */
  lemma TierCascade(ts: seq<Transition>, input: seq<TerminalToken>, i: nat, top: seq<StackToken>)
    ensures Tier(ts, input, i, top) ==
      if Matched(ts, Epsilon, true, top).Some? then
        Some(Choice(Epsilon, Matched(ts, Epsilon, true, top).value))
      else if i < |input| && Matched(ts, input[i], true, top).Some? then
        Some(Choice(input[i], Matched(ts, input[i], true, top).value))
      else if Matched(ts, Epsilon, false, top).Some? then
        Some(Choice(Epsilon, Matched(ts, Epsilon, false, top).value))
      else if i < |input| && Matched(ts, input[i], false, top).Some? then
        Some(Choice(input[i], Matched(ts, input[i], false, top).value))
      else None
  {
    // Naming the later tiers makes the verifier unfold TierFrom at each of them.
    var later := [TierFrom(ts, input, i, top, 1), TierFrom(ts, input, i, top, 2),
                  TierFrom(ts, input, i, top, 3), TierFrom(ts, input, i, top, 4)];
  }

  /** The variables of the loop: input cursor, current state, top-first stack, trace so far. */
  datatype Machine = Machine(i: nat, state: int, top: seq<StackToken>, configs: seq<Configuration>)

  /** Runtime exceptions the loop can raise. */
  datatype Fault =
    | NullTransitionList     // match on a state with no list (a null dereference)
    | EmptyStack             // actOnStack peeks at an empty stack (EmptyStackException)
    | IndexOutOfBounds       // the loop never ran, so there is no last configuration

  /** Why the loop stopped. */
  datatype Halt = LoopEnded | NoTransition | Faulted(fault: Fault) | OutOfSteps

  datatype StepResult = Continue(next: Machine) | Stop(last: Machine, why: Halt)

  /** The loop condition: input remains or the stack holds more than its base. */
  predicate Running(input: seq<TerminalToken>, m: Machine)
  {
    m.i < |input| || |m.top| > 1
  }

  /**
   * One iteration: pick a transition by tier, record the configuration, advance
   * the cursor unless the consumed token is the EPSILON object, act on the stack
   * and move to the next state.
   */
  function Step(tbl: Table, input: seq<TerminalToken>, m: Machine): (r: StepResult)
    requires m.i <= |input|
    ensures r.Continue? ==> r.next.i <= |input|
  {
    if m.state !in tbl then Stop(m, Faulted(NullTransitionList))
    else match Tier(tbl[m.state], input, m.i, m.top)
      case None => Stop(m, NoTransition)
      case Some(Choice(tok, t)) =>
        var configs := m.configs + [Configuration(m.state, tok, m.top, t)];
        var i := if tok.Epsilon? then m.i else m.i + 1;
        match ActOnStack(m.top, Some(t))
        case None => Stop(Machine(i, m.state, [], configs), Faulted(EmptyStack))
        case Some(top) => Continue(Machine(i, t.nextState, top, configs))
  }

  /** The loop, run for at most `fuel` iterations. */
  function Loop(tbl: Table, input: seq<TerminalToken>, m: Machine, fuel: nat): (r: StepResult)
    requires m.i <= |input|
    ensures r.Stop?
    decreases fuel
  {
    if !Running(input, m) then Stop(m, LoopEnded)
    else if fuel == 0 then Stop(m, OutOfSteps)
    else match Step(tbl, input, m)
      case Stop(m', why) => Stop(m', why)
      case Continue(m') => Loop(tbl, input, m', fuel - 1)
  }

  /** The state of the loop on entry: stack cleared, cursor at 0, empty trace. */
  function Initial(startState: int): Machine
  {
    Machine(0, startState, [], [])
  }

  /** What `process` returns, or the exception it raises. */
  datatype RunOutcome =
    | Completed(configs: seq<Configuration>)   // the loop condition became false
    | Stuck(configs: seq<Configuration>)       // no tier matched: the partial trace
    | Thrown(fault: Fault)
    | StepLimit(configs: seq<Configuration>)   // the step ceiling was reached

  /** The tail of `process` after the loop: an accepting last entry is repeated as a closing configuration. */
  function Outcome(acceptStates: set<int>, h: StepResult): RunOutcome
    requires h.Stop?
  {
    var m := h.last;
    match h.why
    case LoopEnded =>
      if m.configs == [] then Thrown(IndexOutOfBounds)
      else
        var c := m.configs[|m.configs| - 1];
        if IsAccepting(acceptStates, c) then
          Completed(m.configs + [Configuration(m.state, Epsilon, m.top, c.transition)])
        else Completed(m.configs)
    case NoTransition => Stuck(m.configs)
    case Faulted(f) => Thrown(f)
    case OutOfSteps => StepLimit(m.configs)
  }

  /** `process(input)` with at most `fuel` loop iterations. */
  function Process(tbl: Table, acceptStates: set<int>, startState: int,
                   input: seq<TerminalToken>, fuel: nat): RunOutcome
  {
    Outcome(acceptStates, Loop(tbl, input, Initial(startState), fuel))
  }

  /** How the loop stops before selecting a transition: at the loop test, the step ceiling or a missing list. */
  lemma LoopStopsAt(tbl: Table, input: seq<TerminalToken>, m: Machine, fuel: nat)
    requires m.i <= |input|
    ensures !Running(input, m) ==> Loop(tbl, input, m, fuel) == Stop(m, LoopEnded)
    ensures Running(input, m) && fuel == 0 ==> Loop(tbl, input, m, fuel) == Stop(m, OutOfSteps)
    ensures Running(input, m) && fuel > 0 && m.state !in tbl ==>
      Loop(tbl, input, m, fuel) == Stop(m, Faulted(NullTransitionList))
  {
  }

  /** The loop stops when no tier matches. */
  lemma LoopFindsNoTransition(tbl: Table, input: seq<TerminalToken>, m: Machine, fuel: nat)
    requires m.i <= |input| && Running(input, m) && fuel > 0
    requires m.state in tbl && Tier(tbl[m.state], input, m.i, m.top).None?
    ensures Loop(tbl, input, m, fuel) == Stop(m, NoTransition)
  {
  }

  /** One iteration of a running loop that selected `c` and could act on the stack. */
  lemma LoopContinues(tbl: Table, input: seq<TerminalToken>, m: Machine, fuel: nat, c: Choice,
                      top: seq<StackToken>)
    requires m.i <= |input| && Running(input, m) && fuel > 0
    requires m.state in tbl && Tier(tbl[m.state], input, m.i, m.top) == Some(c)
    requires ActOnStack(m.top, Some(c.transition)) == Some(top)
    ensures Loop(tbl, input, m, fuel) ==
      Loop(tbl, input, Machine(if c.consumed.Epsilon? then m.i else m.i + 1, c.transition.nextState, top,
                               m.configs + [Configuration(m.state, c.consumed, m.top, c.transition)]), fuel - 1)
  {
  }

  /** One iteration of a running loop that selected `c` and peeked at an empty stack. */
  lemma LoopFaults(tbl: Table, input: seq<TerminalToken>, m: Machine, fuel: nat, c: Choice)
    requires m.i <= |input| && Running(input, m) && fuel > 0
    requires m.state in tbl && Tier(tbl[m.state], input, m.i, m.top) == Some(c)
    requires ActOnStack(m.top, Some(c.transition)).None?
    ensures Loop(tbl, input, m, fuel) ==
      Stop(Machine(if c.consumed.Epsilon? then m.i else m.i + 1, m.state, [],
                   m.configs + [Configuration(m.state, c.consumed, m.top, c.transition)]), Faulted(EmptyStack))
  {
  }

  // ---------------------------------------------------------------------------
  // Tier selection
  // ---------------------------------------------------------------------------

  /** The selected transition belongs to the state's list and matches the stack with the token it consumes. */
  lemma TierSound(ts: seq<Transition>, input: seq<TerminalToken>, i: nat, top: seq<StackToken>)
    ensures var r := Tier(ts, input, i, top);
      r.Some? ==> exists k | 0 <= k < |ts| ::
        ts[k] == r.value.transition && Applies(ts[k], r.value.consumed, false, top)
  {
    TierCascade(ts, input, i, top);
    var r := Tier(ts, input, i, top);
    if r.Some? {
      var tok := r.value.consumed;
      var e := if FirstMatch(ts, tok, true, top).Some? then true else false;
      FirstMatchSpec(ts, tok, e, top);
      var k := FirstMatch(ts, tok, e, top).value;
      assert ts[k] == r.value.transition;
      assert Applies(ts[k], tok, false, top);
    }
  }

  /**
   * The loop rejects exactly when no transition of the state fits the stack,
   * neither with EPSILON nor with the next input token.
   */
  lemma TierNoneIff(ts: seq<Transition>, input: seq<TerminalToken>, i: nat, top: seq<StackToken>)
    ensures Tier(ts, input, i, top).None? <==>
      forall k | 0 <= k < |ts| ::
        !Applies(ts[k], Epsilon, false, top) && (i < |input| ==> !Applies(ts[k], input[i], false, top))
  {
    TierCascade(ts, input, i, top);
    FirstMatchSpec(ts, Epsilon, false, top);
    if i < |input| {
      FirstMatchSpec(ts, input[i], false, top);
    }
    if Tier(ts, input, i, top).None? {
      forall k | 0 <= k < |ts|
        ensures !Applies(ts[k], Epsilon, false, top) && (i < |input| ==> !Applies(ts[k], input[i], false, top))
      {
        assert FirstMatch(ts, Epsilon, false, top).None?;
        assert i < |input| ==> FirstMatch(ts, input[i], false, top).None?;
      }
    } else {
      TierSound(ts, input, i, top);
    }
  }

  /** An epsilon move with an empty pattern always takes priority over any other move. */
  lemma EpsilonMoveFirst(ts: seq<Transition>, input: seq<TerminalToken>, i: nat, top: seq<StackToken>, k: nat)
    requires k < |ts| && Applies(ts[k], Epsilon, true, top)
    ensures Tier(ts, input, i, top).Some?
    ensures Tier(ts, input, i, top).value.consumed == Epsilon
    ensures Tier(ts, input, i, top).value.transition.stackTop == []
  {
    TierCascade(ts, input, i, top);
    FirstMatchSpec(ts, Epsilon, true, top);
  }

  // ---------------------------------------------------------------------------
  // The trace
  // ---------------------------------------------------------------------------

  /** The real input tokens the trace consumed, in order (epsilon moves consume none). */
  function Consumed(configs: seq<Configuration>): seq<TerminalToken>
  {
    if configs == [] then []
    else
      var c := configs[|configs| - 1];
      Consumed(configs[..|configs| - 1]) + (if c.consumed.Epsilon? then [] else [c.consumed])
  }

  /**
   * Configuration `c` leads to state `state` with top-first stack `top`: the pattern
   * was on top of the recorded stack and was replaced by the replacement, so the
   * depth changed by |replacement| - |pattern|.
   */
  predicate Follows(c: Configuration, state: int, top: seq<StackToken>)
  {
    && PrefixOf(c.transition.stackTop, c.fromStackState)
    && state == c.transition.nextState
    && top == c.transition.stackTopReplacement + c.fromStackState[|c.transition.stackTop|..]
  }

  /** Every recorded configuration took a transition of its state's list that fits its stack and token. */
  predicate Recorded(tbl: Table, c: Configuration)
  {
    && c.currState in tbl
    && c.transition in tbl[c.currState]
    && Applies(c.transition, c.consumed, false, c.fromStackState)
  }

  /**
   * The trace leads from the start state with an empty stack to `state` with the
   * top-first stack `top`: its last entry was recorded in the state and on the
   * stack the rest of the trace leads to, and it leads on to `state` and `top`.
   */
  predicate Leads(tbl: Table, startState: int, configs: seq<Configuration>, state: int, top: seq<StackToken>)
    decreases |configs|
  {
    if configs == [] then state == startState && top == []
    else
      var c := configs[|configs| - 1];
      && Recorded(tbl, c)
      && Follows(c, state, top)
      && Leads(tbl, startState, configs[..|configs| - 1], c.currState, c.fromStackState)
  }

  /**
   * The invariant of the loop: the trace leads from the start state and an empty
   * stack to the current state and stack, and it consumed exactly the input
   * before the cursor.
   */
  predicate Coherent(tbl: Table, input: seq<TerminalToken>, startState: int, m: Machine)
  {
    && m.i <= |input|
    && Leads(tbl, startState, m.configs, m.state, m.top)
    && Consumed(m.configs) == input[..m.i]
  }

  /**
   * What a trace that leads somewhere says, entry by entry: it starts at the start
   * state with an empty stack, every entry took a transition of its state's list
   * that fits its stack and token, each entry leads to the state and stack the
   * next one records, and the last one leads to `state` and `top`.
   */
  lemma {:induction false} LeadsSpec(tbl: Table, startState: int, configs: seq<Configuration>,
                                     state: int, top: seq<StackToken>)
    requires Leads(tbl, startState, configs, state, top)
    ensures configs == [] ==> state == startState && top == []
    ensures configs != [] ==> configs[0].currState == startState && configs[0].fromStackState == []
    ensures forall k | 0 <= k < |configs| :: Recorded(tbl, configs[k])
    ensures forall k | 0 <= k < |configs| - 1 ::
      Follows(configs[k], configs[k + 1].currState, configs[k + 1].fromStackState)
    ensures configs != [] ==> Follows(configs[|configs| - 1], state, top)
    decreases |configs|
  {
    if configs != [] {
      var front := configs[..|configs| - 1];
      var c := configs[|configs| - 1];
      LeadsSpec(tbl, startState, front, c.currState, c.fromStackState);
      assert forall k | 0 <= k < |front| :: configs[k] == front[k];
    }
  }

  /** Appending an entry that fits the current machine and leads to `m'` keeps the invariant. */
  lemma AppendKeepsCoherent(tbl: Table, input: seq<TerminalToken>, startState: int,
                            m: Machine, c: Configuration, m': Machine)
    requires Coherent(tbl, input, startState, m)
    requires Recorded(tbl, c) && c.currState == m.state && c.fromStackState == m.top
    requires Follows(c, m'.state, m'.top)
    requires m'.configs == m.configs + [c]
    requires c.consumed.Epsilon? ==> m'.i == m.i
    requires !c.consumed.Epsilon? ==> m.i < |input| && c.consumed == input[m.i] && m'.i == m.i + 1
    ensures Coherent(tbl, input, startState, m')
  {
    var configs := m'.configs;
    assert configs[..|configs| - 1] == m.configs;
    if !c.consumed.Epsilon? {
      assert input[..m.i + 1] == input[..m.i] + [input[m.i]];
    }
  }

  /** One iteration keeps the invariant, unless it faults. */
  lemma StepKeepsCoherent(tbl: Table, input: seq<TerminalToken>, startState: int, m: Machine)
    requires Coherent(tbl, input, startState, m)
    ensures Step(tbl, input, m).Continue? ==> Coherent(tbl, input, startState, Step(tbl, input, m).next)
    ensures Step(tbl, input, m).Stop? && !Step(tbl, input, m).why.Faulted? ==> Step(tbl, input, m).last == m
  {
    if m.state in tbl && Tier(tbl[m.state], input, m.i, m.top).Some? {
      var ch := Tier(tbl[m.state], input, m.i, m.top).value;
      var t := ch.transition;
      var c := Configuration(m.state, ch.consumed, m.top, t);
      TierSound(tbl[m.state], input, m.i, m.top);
      assert Recorded(tbl, c);
      if ActOnStack(m.top, Some(t)).Some? {
        var m' := Step(tbl, input, m).next;
        CompatibleNeverMismatches(m.top, t.stackTop);
        assert PrefixOf(t.stackTop, m.top);
        AppendKeepsCoherent(tbl, input, startState, m, c, m');
      }
    }
  }

  /** The loop keeps the invariant until it stops, unless it faults. */
  lemma {:induction false} LoopKeepsCoherent(tbl: Table, input: seq<TerminalToken>, startState: int,
                                              m: Machine, fuel: nat)
    requires Coherent(tbl, input, startState, m)
    ensures var h := Loop(tbl, input, m, fuel);
      !h.why.Faulted? ==> Coherent(tbl, input, startState, h.last)
    ensures Loop(tbl, input, m, fuel).why == LoopEnded ==> !Running(input, Loop(tbl, input, m, fuel).last)
    decreases fuel
  {
    if Running(input, m) && fuel > 0 {
      StepKeepsCoherent(tbl, input, startState, m);
      if Step(tbl, input, m).Continue? {
        LoopKeepsCoherent(tbl, input, startState, Step(tbl, input, m).next, fuel - 1);
      }
    }
  }

  /**
   * Every trace `process` returns is a coherent run from the start state: each
   * entry's transition belongs to its state and fits its stack, each entry's
   * successor records the stack after the pop-then-push, and the trace consumed
   * a prefix of the input.  A completed run consumed all of it and ended with at
   * most the base of the stack.
   */
  lemma ProcessTraceCoherent(tbl: Table, acceptStates: set<int>, startState: int,
                             input: seq<TerminalToken>, fuel: nat)
    ensures var h := Loop(tbl, input, Initial(startState), fuel);
      !h.why.Faulted? ==> Coherent(tbl, input, startState, h.last)
    ensures var h := Loop(tbl, input, Initial(startState), fuel);
      Process(tbl, acceptStates, startState, input, fuel).Completed? ==>
        h.why == LoopEnded && h.last.i == |input| && |h.last.top| <= 1 &&
        Consumed(h.last.configs) == input
  {
    assert Coherent(tbl, input, startState, Initial(startState));
    LoopKeepsCoherent(tbl, input, startState, Initial(startState), fuel);
    var h := Loop(tbl, input, Initial(startState), fuel);
    if h.why == LoopEnded {
      assert input[..|input|] == input;
    }
  }

  /** The acceptance the loop intends: the run completed and its last entry is accepting. */
  predicate Accepts(acceptStates: set<int>, o: RunOutcome)
  {
    o.Completed? && AcceptString(acceptStates, o.configs)
  }

  /**
   * An accepted run read its whole input, ended with at most the base of the stack,
   * and its trace closes with an EPSILON entry repeating the accepting transition.
   */
  lemma AcceptedRunReadsWholeInput(tbl: Table, acceptStates: set<int>, startState: int,
                                   input: seq<TerminalToken>, fuel: nat)
    requires Accepts(acceptStates, Process(tbl, acceptStates, startState, input, fuel))
    ensures var cs := Process(tbl, acceptStates, startState, input, fuel).configs;
      |cs| >= 2 && Consumed(cs) == input &&
      cs[|cs| - 1].consumed == Epsilon && |cs[|cs| - 1].fromStackState| <= 1 &&
      cs[|cs| - 1].transition == cs[|cs| - 2].transition &&
      cs[|cs| - 1].transition.nextState in acceptStates
  {
    ProcessTraceCoherent(tbl, acceptStates, startState, input, fuel);
    var h := Loop(tbl, input, Initial(startState), fuel);
    var m := h.last;
    var cs := Process(tbl, acceptStates, startState, input, fuel).configs;
    assert IsAccepting(acceptStates, m.configs[|m.configs| - 1]);
    assert cs == m.configs + [Configuration(m.state, Epsilon, m.top, m.configs[|m.configs| - 1].transition)];
    assert cs[..|cs| - 1] == m.configs;
  }

  /**
   * acceptString also holds of a run that got stuck: a move into an accept state
   * followed by no applicable transition leaves input unread, yet the partial trace
   * ends with an accepting entry.
   */
  lemma StuckRunPassesAcceptString()
    ensures var t0 := Transition(0, Terminal("a"), [], 1, [], []);
      var t1 := Transition(1, Terminal("b"), [], 1, [], []);
      var tbl := map[0 := [t0], 1 := [t1]];
      var input: seq<TerminalToken> := [Terminal("a"), Terminal("a")];
      var o := Process(tbl, {1}, 0, input, 5);
      o == Stuck([Configuration(0, Terminal("a"), [], t0)]) &&
      AcceptString({1}, o.configs) && Consumed(o.configs) != input &&
      !Accepts({1}, o)
  {
    var t0 := Transition(0, Terminal("a"), [], 1, [], []);
    var t1 := Transition(1, Terminal("b"), [], 1, [], []);
    var tbl := map[0 := [t0], 1 := [t1]];
    var input: seq<TerminalToken> := [Terminal("a"), Terminal("a")];
    var c0 := Configuration(0, Terminal("a"), [], t0);
    var m1 := Machine(1, 1, [], [c0]);
    assert Tier([t0], input, 0, []) == Some(Choice(Terminal("a"), t0)) by {
      TierCascade([t0], input, 0, []);
      assert !Applies(t0, Epsilon, true, []) && !Applies(t0, Epsilon, false, []);
      assert Applies(t0, Terminal("a"), true, []);
    }
    assert Step(tbl, input, Initial(0)) == Continue(m1);
    assert Tier([t1], input, 1, []) == None by {
      TierNoneIff([t1], input, 1, []);
      assert !Applies(t1, Epsilon, false, []) && !Applies(t1, Terminal("a"), false, []);
    }
    assert Step(tbl, input, m1) == Stop(m1, NoTransition);
    assert Loop(tbl, input, m1, 4) == Stop(m1, NoTransition);
    assert Consumed([c0]) == [Terminal("a")] by {
      assert [c0][..0] == [];
    }
  }
}
