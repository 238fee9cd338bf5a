# DPDA engine with an extended stack alphabet

This project models the deterministic pushdown automaton engine of `DPDA.java`
and the token classes that make up its stack alphabet. It also proves properties
of that model.

- **Stack alphabet.** There are terminals, with the distinguished `EPSILON`
  object, grammar variables, encoded parser states, with the distinguished
  `WILDCARD` object, and one-token lookahead markers.
- **Equality.** Java's `equals` is dispatched on the receiver, so the model's
  equality is a two-argument predicate `Eq(receiver, arg)`. Every comparison
  keeps the source's direction.
- **Transition table.** `addTransition` validates a transition, then checks it
  for ambiguity against the transitions already filed under its state, then
  appends it to that state's list.
- **Run.** `process` clears the stack and runs the automaton. Each step tries
  four match tiers in a fixed order:
  1. EPSILON with an empty pattern;
  2. the next input token with an empty pattern;
  3. EPSILON with a stack match;
  4. the next input token with a stack match.

  The step records a configuration, then pops the pattern and pushes the
  replacement. After the loop, an accepting last entry is repeated as a
  closing configuration.
- **Derivation.** `getDerivations` walks the trace backwards and rebuilds a
  rightmost derivation from the rules attached to the transitions.

Modules:

- `Tokens` (Tokens.dfy): the token datatype and the equality relation with its
  properties. It also has `value`, `toString` and `hashCode`, the 32-bit
  `String.hashCode` written out. `Options` holds the optional value that stands
  for a Java reference that may be null.
- `Transitions` (Transitions.dfy): rules, transitions and the stack-top
  matcher. It defines the first-match selection of `match`, the validation and
  ambiguity checks of `addTransition` as the function `InsertionError`, and the
  table invariant `ValidTable`.
- `Stacks` (Stacks.dfy): the top-first view of the stack and the pop-then-push
  of `actOnStack` as functions.
- `Run` (Run.dfy): one loop iteration (`Step`), the loop (`Loop`, with a step
  ceiling) and the outcome of `process`. It also has the trace invariant
  `Coherent` and the acceptance predicates.
- `Derivations` (Derivations.dfy): rightmost replacement, the order in which
  rules are visited, and the sentential forms.
- `Automaton` (Automaton.dfy): the class `Dpda`.
  - Its fields are the declared alphabet, `transitionMap` (a `map` of per-state
    `seq`s that `AddTransition` reassigns) and `stack` (a bottom-first `seq`,
    as `java.util.Stack` lists it).
  - Every method runs the source's loops. Each is proved equal to the
    value-level function of the modules above, and the properties are proved
    about those functions.
- `Demo` (Demo.dfy): the demonstration automaton of `test1`. It proves that each
  of its `addTransition` calls passes every check and that the table they build
  is valid.

Runtime exceptions are modelled as outcomes rather than ruled out by
preconditions:

- `addTransition`'s exceptions are returned as a `TableError`.
- `process` can end in `Thrown(fault)`, for three faults:
  - a state with no transition list (a null dereference in `match`);
  - a peek at the empty stack in `actOnStack`;
  - a loop that never ran, so there is no last configuration.

The demonstration automaton of `test1` has a state with no list, so these
cases do arise.

## Model

| member | source | states |
|---|---|---|
| Tokens.TerminalEquality | TerminalToken.java:24-31 | a terminal equals exactly the terminals with the same value, and never a variable of the same name, in either direction |
| Tokens.EpsilonEqualsItsValue | TerminalToken.java:9-17 | EPSILON equals, by value, a terminal built from "epsilon" in both directions, and no other terminal |
| Tokens.VariableEquality | VariableToken.java:18-25 | a variable equals exactly the variable with the same name |
| Tokens.GrammarTokenEqVariable | VariableToken.java:18-25 | a grammar token equals a variable iff it is that variable |
| Tokens.WildcardMatchesEveryState | StateToken.java:21-27 | WILDCARD equals every state token, as receiver and as argument, and nothing else |
| Tokens.WildcardIsAnIdentity | StateToken.java:9-26 | a separately built state 1000 has WILDCARD's value and number but is not a wildcard |
| Tokens.StateEquality | StateToken.java:21-27 | two ordinary state tokens are equal iff their numbers are |
| Tokens.StateEqualityNotTransitive | StateToken.java:21-27 | state equality is symmetric, but 3 = WILDCARD = 4 while 3 != 4 |
| Tokens.StateEqualsOnlyStates | StateToken.java:21-24 | a state token never equals a token of another class |
| Tokens.LookAheadEquality | LookAheadToken.java:7-11 | two lookahead markers are equal iff they wrap terminals with equal values |
| Tokens.LookAheadNeverEqualsState | LookAheadToken.java:9-11 | a lookahead marker never equals a state token, in either direction ("L..." is not a decimal string) |
| Tokens.LookAheadIsAsymmetric | LookAheadToken.java:7-11 | a lookahead marker equals a terminal or variable whose value is "L"+name, but not the other way round |
| Tokens.EqSymmetricWithoutLookAhead | StackToken.java:20-26 | without lookahead markers, equality is symmetric |
| Tokens.EqEquivalenceOnPlain | StackToken.java:20-26 | without WILDCARD and lookahead markers, equality is reflexive, symmetric and transitive |
| Tokens.EqThroughPlain | StackToken.java:20-26 | two tokens that one plain token equals are equal to each other |
| Tokens.EqReflexive | StackToken.java:20-26 | every token equals itself |
| Tokens.TerminalEqTransitive | TerminalToken.java:24-31 | on terminals, equality is value equality, hence transitive |
| Tokens.ToString | StackToken.java:28-31 | toString is the value, character for character |
| Tokens.DecimalString | StateToken.java:12-15 | a state's value is a non-empty decimal string: a minus sign exactly for a negative number, every other character a digit |
| Tokens.NatDigitsValue | StateToken.java:12-15 | the digits of a natural number spell it, with no leading zero except for zero itself |
| Tokens.DecimalStringRoundTrip | StateToken.java:12-15 | reading a state's value back as a signed decimal gives its number |
| Tokens.DecimalStringInjective | StateToken.java:12-15 | distinct state numbers give distinct values |
| Tokens.Value | StackToken.java:9-13 | every token carries the value its constructor set; a lookahead marker's value starts with 'L', a state's with a sign or a digit, so the two never coincide |
| Tokens.Eq | StackToken.java:20-26 | the receiver's `equals` (the base value test here, the overrides in StateToken.java:21-27, TerminalToken.java:24-31 and VariableToken.java:18-25): every token equals itself, equality never crosses between state tokens and the rest, and apart from a lookahead receiver it never crosses between terminals and the rest |
| Tokens.StringHashIsUtf16Hash | StackToken.java:15-18 | the character-by-character hash equals the hash of the value's UTF-16 code units, one 31*h + unit round per unit |
| Tokens.Utf16OfBmp | StackToken.java:15-18 | a value made of characters below 0x10000 is hashed one code unit per character |
| Tokens.SupplementaryCharHash | StackToken.java:15-18 | a character outside the basic plane is hashed as its UTF-16 surrogate pair, as `String.hashCode` does |
| Tokens.HashCode | StackToken.java:15-18 | the hash of the value's UTF-16 code units is a 32-bit signed int |
| Tokens.HashConsistentWithEq | StackToken.java:15-26 | apart from state receivers, equal tokens have equal hashes |
| Tokens.WildcardValue | StateToken.java:9-15 | WILDCARD's value is "1000" |
| Tokens.WildcardHashInconsistent | StateToken.java:9-26 | WILDCARD equals state 3 but hashes differently |
| Transitions.FirstMatchSpec | DPDA.java:267-283 | match returns a transition that applies (input equal, pattern empty or prefix-compatible), none before it applies, and null iff none applies |
| Transitions.FirstMatchAt | DPDA.java:270-279 | the first applying transition is the one match returns |
| Transitions.FirstMatchNone | DPDA.java:270-282 | with no applying transition, match returns null |
| Transitions.MatchAfterAppend | DPDA.java:245-246 | appending a transition keeps the earlier winner; the new one wins only when nothing earlier applies |
| Transitions.FirstInvalidPattern | DPDA.java:191-207 | the index reported is that of the first pattern token failing validation; none iff all pass |
| Transitions.FirstInvalidReplacement | DPDA.java:208-218 | the index reported is that of the first replacement token failing validation; none iff all pass |
| Transitions.FirstConflict | DPDA.java:225-244 | the index reported is that of the first existing transition the new one is ambiguous with; none iff there is none |
| Transitions.FirstInvalidPatternAt | DPDA.java:191-207 | the scan that stops at the first invalid pattern token reports that token |
| Transitions.FirstInvalidReplacementAt | DPDA.java:208-218 | the scan that stops at the first invalid replacement token reports that token |
| Transitions.FirstConflictAt | DPDA.java:225-244 | the scan that stops at the first ambiguous transition reports that transition |
| Transitions.InsertionAcceptedIff | DPDA.java:182-246 | addTransition succeeds iff the transition passes every validation and is ambiguous with no existing transition of its state |
| Transitions.InsertionErrorIsFirstFailure | DPDA.java:182-244 | InvalidStateException iff a state is out of range; an ambiguity names the first conflicting existing transition and its kind |
| Transitions.InsertionKeepsDeterminism | DPDA.java:225-246 | a successful insertion keeps the list deterministic |
| Transitions.InsertionKeepsTableValid | DPDA.java:220-246 | a successful insertion appends to its own state's list, and the table stays deterministic and validated |
| Transitions.AmbiguityIffNondeterministic | DPDA.java:225-244 | for an admissible transition, the ambiguity exception is thrown iff appending would break determinism |
| Transitions.EpsilonStackMoveIsExclusive | DPDA.java:225-243 | on a deterministic list and a deep enough stack with no WILDCARD or lookahead marker, a transition reading the EPSILON object and another transition never both fit the stack, one at the EPSILON tier and one at the input tier |
| Transitions.EpsilonNamedTerminalAdmitsTwoMatches | DPDA.java:229-237 | the EPSILON tests compare by identity: a declared terminal named "epsilon" passes them beside an input stack move, and both fit the same stack because `match` compares input symbols by value |
| Transitions.StackMatchIsUnique | DPDA.java:152-165 | on a deterministic list and a deep enough stack with no WILDCARD or lookahead marker, at most one stack-pattern transition applies |
| Transitions.ShortStackAdmitsTwoMatches | DPDA.java:152-165 | a stack shorter than the patterns lets two transitions the check accepted both apply |
| Transitions.WildcardOnStackAdmitsTwoMatches | StateToken.java:26 | a WILDCARD on the stack lets two transitions the check accepted both apply |
| Transitions.LookAheadOnStackAdmitsTwoMatches | DPDA.java:225-227 | a lookahead marker on the stack lets two transitions the check accepted both apply, because the check compares existing-as-receiver |
| Transitions.EmptyPatternDuplicatesAllowed | DPDA.java:226 | transitions with empty patterns are never checked; of two duplicates, the first wins |
| Stacks.Reverse | DPDA.java:249-256 | the top-first view lists the stack's elements in reverse order |
| Stacks.ReversePush | DPDA.java:303-305 | a push puts the token at the front of the top-first view |
| Stacks.ReversePop | DPDA.java:296-300 | peek is the first element of the top-first view, and pop drops it |
| Stacks.PopPrefix | DPDA.java:295-301 | popping a pattern that is a prefix of the stack removes exactly its length |
| Stacks.PopMismatch | DPDA.java:295-299 | popping stops at the first mismatching position and leaves the stack from there on |
| Stacks.PopRunsOut | DPDA.java:295-297 | a pattern longer than a stack it otherwise matches empties the stack and throws |
| Stacks.CompatibleNeverMismatches | DPDA.java:290-301 | a stack prefix-compatible with the pattern either pops cleanly or runs out; it never mismatches |
| Stacks.ActOnStackEffect | DPDA.java:290-307 | a prefix pattern is replaced by the replacement, so the depth changes by the difference of lengths; a mismatch keeps what was popped; null changes nothing |
| Run.TierCascade | DPDA.java:316-345 | selection is the four match calls in source order, the input tiers skipped once the input is used up |
| Run.TierSound | DPDA.java:316-345 | the selected transition is in the state's list and fits the stack with the token it consumes |
| Run.TierNoneIff | DPDA.java:328-342 | the loop rejects iff no transition fits the stack with EPSILON or with the next input token |
| Run.EpsilonMoveFirst | DPDA.java:318-320 | an applicable EPSILON move with an empty pattern always takes priority |
| Run.LeadsSpec | DPDA.java:346-352 | the trace starts at the start state with an empty stack; every entry took a transition of its state that fits its stack; each entry leads to the next entry's state and stack |
| Run.AppendKeepsCoherent | DPDA.java:346-352 | recording a fitting configuration and acting on the stack keeps the trace invariant |
| Run.StepKeepsCoherent | DPDA.java:316-353 | one iteration keeps the trace invariant unless it faults |
| Run.LoopKeepsCoherent | DPDA.java:316-353 | the loop keeps the trace invariant until it stops, and a normal exit fails the loop test |
| Run.ProcessTraceCoherent | DPDA.java:309-358 | the returned trace is a run from the start state; a completed run consumed the whole input and ended with at most the stack's base |
| Run.IsAcceptingByNextState | DPDA.java:87-93 | a configuration is accepting exactly when its transition's next state is an accept state; nothing else about it matters |
| Run.AcceptStringLastEntryOnly | DPDA.java:397-403 | the empty trace is rejected; otherwise the verdict is the last entry's, whatever the entries before it |
| Run.AcceptedRunReadsWholeInput | DPDA.java:354-358 | an accepted run read all its input and closes with an EPSILON entry that repeats the accepting transition |
| Run.StuckRunPassesAcceptString | DPDA.java:397-403 | acceptString holds of a run that got stuck with input left unread |
| Derivations.LastMatchSpec | DPDA.java:407-416 | the scan from the right stops at an index holding an equal token, with none after it |
| Derivations.LastMatchIs | DPDA.java:407-416 | the last matching index is determined by the facts that define it |
| Derivations.RightmostReplacementSpec | DPDA.java:405-426 | with no occurrence of the lhs the form is unchanged; otherwise the rightmost occurrence is replaced by the rhs, with the tokens on either side kept in order |
| Derivations.VisitOrderLength | DPDA.java:432-447 | every rule of every configuration except the last is visited exactly once |
| Derivations.FormsExtend | DPDA.java:428-450 | the forms of a rule list extend the forms of each of its prefixes |
| Derivations.FormsStep | DPDA.java:441-445 | form k+1 is the rightmost replacement of form k by rule k |
| Derivations.FormsShape | DPDA.java:428-450 | one more form than rules visited, starting with [lhs] and the rhs of the first rule, each later form a rightmost replacement of the previous one |
| Derivations.DerivationStepsAreRightmost | DPDA.java:428-450 | each step of the rebuilt derivation expands the rightmost occurrence of its rule's lhs in place, or repeats the previous form when there is none |
| Automaton.Dpda.constructor | DPDA.java:131-144 | the automaton starts with the given alphabet, an empty stack and an empty (valid) table |
| Automaton.Dpda.MatchStackTop | DPDA.java:152-165 | the loop's answer is prefix compatibility, with the first list's elements as receivers |
| Automaton.Dpda.CheckTransition | DPDA.java:182-244 | the checks, in source order, report exactly the first failure that InsertionError defines |
| Automaton.Dpda.AddTransition | DPDA.java:176-247 | returns the first failing check; on success only the state's own list grows, by the transition at the end; on failure the table is unchanged; the table stays valid |
| Automaton.Dpda.CopyStack | DPDA.java:249-256 | the snapshot is the stack top-first |
| Automaton.Dpda.Match | DPDA.java:267-283 | the loop returns the first transition in insertion order that applies to the current stack, or null |
| Automaton.Dpda.ActOnStack | DPDA.java:290-307 | the new stack is the pop-then-push of the transition on the old one; a peek at an empty stack throws and leaves the stack empty |
| Automaton.Dpda.SelectTransition | DPDA.java:318-345 | the four match calls select exactly the tiered choice |
| Automaton.Dpda.Process | DPDA.java:309-359 | the outcome and the final stack are those of the loop run on values from the cleared stack and the start state |
| Automaton.Dpda.PrependEach | DPDA.java:418-423 | adding tokens at index 0, last first, prepends them in order |
| Automaton.Dpda.GetRightMostReplacement | DPDA.java:405-426 | the loop computes the rightmost replacement |
| Automaton.Dpda.AddRuleForms | DPDA.java:435-447 | the inner loop extends the forms by those of one configuration's rules, visited last to first |
| Automaton.Dpda.GetDerivations | DPDA.java:428-450 | the loops compute the forms of the rules in visiting order |
| Demo.Test1EarlyCallsAccepted | DPDA.java:477-482 | the calls for states 0 to 3 raise no exception |
| Demo.SingleTerminalConflict | DPDA.java:225-243 | two transitions that read plain terminals and match single-terminal patterns are ambiguous exactly when both the input and the pattern names agree |
| Demo.List4Deterministic | DPDA.java:483-489 | the seven transitions of state 4 are pairwise unambiguous and each is admissible |
| Demo.Test1State4CallAccepted | DPDA.java:483-489 | each call for state 4 raises no exception against the transitions added before it |
| Demo.Test1TableBuilt | DPDA.java:477-489 | every `addTransition` call of the demonstration raises no exception against the table the earlier calls built |
| Demo.Test1ListValid | DPDA.java:477-489 | the list filed under each state holds only that state's transitions, all admissible and pairwise unambiguous |
| Demo.Test1TableValid | DPDA.java:477-489 | the table the demonstration builds satisfies the table invariant |

## Left out

- Rendering and console output are not modelled: `Transition.toString`,
  `Configuration.toString`, `printConfigs` and the printing in
  `printDerivations`. Only `printDerivations`'s guard, `acceptString`, is kept,
  as `Run.AcceptString`.
- The demonstration drivers `test2`, `test3` and `main` are not modelled.
  From `test1`, only the table construction is modelled, in `Demo`. Its two
  `process` runs are not replayed: a step-by-step proof of a run on the
  concrete automaton is too costly for the verifier.
  `Run.StuckRunPassesAcceptString` replays a small automaton of the same kind
  instead.
- The factory wrappers `toTerminal`, `toVariable`, `toState` and
  `toTerminalTokens` only call constructors, so they are not modelled.
- GrammarToken.java is not part of this model. Terminals and variables are the
  tokens that stand for it.
- Hash sets of tokens are not modelled. The declared terminals and variables
  are sets of names, and `contains` is membership of the token's value.
  `hashCode` is modelled only as a function, with its consistency lemmas.
- `Configuration.remainingInput` is the one-element list of the consumed token,
  so it is modelled as that token.
- `rulesForReduction` is a `seq` and is never null. The null dereference that a
  null rule list would raise in `getDerivations` is not modelled.
- Automaton.Dpda.Process: takes a step ceiling `maxSteps` and returns
  `StepLimit` when it is reached. The source has no bound, and an epsilon cycle
  runs forever.
- Automaton.Dpda.AddTransition: returns the exception as a value instead of
  throwing it.
- Automaton.Dpda.AddTransition: the empty list that the source files under a
  state with no list is not created separately. It is created only after the
  validation checks pass, and an empty list cannot conflict, so that state then
  always gets the new transition appended.
- Integers are unbounded. State numbers, `nStates` and the indices are Java
  `int`s, and no 32-bit overflow is modelled for them. Strings are sequences of
  Unicode `char`s. The string hash encodes them as UTF-16 code units first, as
  a Java `String` stores them, and wraps modulo 2^32 explicitly.
- The validation of pattern state tokens accepts the state number `nStates`
  itself, while the two transition states must lie below `nStates`. This is
  modelled as written (`Transitions.ValidPatternToken`).
- Helper methods only split the source's code; they add no behaviour:
  - `Automaton.Dpda.CheckTransition` holds the checks of `addTransition`.
  - `Automaton.Dpda.SelectTransition` holds the tier selection of `process`.
  - `Automaton.Dpda.PrependEach` holds the prepending loops of
    `getRightMostReplacement`.
  - `Automaton.Dpda.AddRuleForms` holds the inner loop of `getDerivations`.
  - `Automaton.Dpda.PushReplacement` holds the push loop of `actOnStack`.
- Unfolding lemmas are proof helpers for the `Automaton` methods and state no
  property of their own, so they have no row: `Run.LoopStopsAt`, `Run.LoopFindsNoTransition`,
  `Run.LoopContinues`, `Run.LoopFaults`,
  `Derivations.RightmostReplacementAtLast`, `Derivations.VisitOrderFrom`,
  `Derivations.FormsFirst` and `Derivations.FormsNext`.

## Findings

| source | as written | input that shows it | evidently intended | confidence | as-written member | corrected member |
|---|---|---|---|---|---|---|
| DPDA.java:397-403 | `acceptString` only asks whether the last configuration leads to an accept state. A run that got stuck returns its partial trace, and that trace passes too. | Transitions 0 -a-> 1 and 1 -b-> 1, both with empty patterns; accept state 1; input "a a". The run moves to state 1 and then gets stuck with one "a" unread, yet `acceptString` holds. | Accept only a run whose loop completed, which means it consumed the whole input. | not executed | Run.StuckRunPassesAcceptString | Run.AcceptedRunReadsWholeInput |
