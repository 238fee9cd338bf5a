/**
 * The demonstration automaton of DPDA.java `test1`: six states, accept state 5,
 * and the transitions that check a string over {a, b} ending in $.  The table is
 * built by the same sequence of addTransition calls, each of which passes its
 * checks, and the table they build is deterministic.
 */
module Demo {
  import opened Tokens
  import opened Transitions

  const A: TerminalToken := Terminal("a")
  const B: TerminalToken := Terminal("b")
  const End: TerminalToken := Terminal("$")

  /** new DPDA(6, 0, {a, b, $}, {A, B}, {5}) */
  const Alpha1: Alphabet := Alphabet(6, {"a", "b", "$"}, {"A", "B"})
  const Accept1: set<int> := {5}

  const T0: Transition := Transition(0, Epsilon, [], 1, [End], [])
  const T1: Transition := Transition(1, A, [End], 2, [End], [])
  const T2: Transition := Transition(1, B, [End], 3, [End], [])
  const T3: Transition := Transition(2, Epsilon, [], 4, [A], [])
  const T4: Transition := Transition(3, Epsilon, [], 4, [B], [])
  const T5: Transition := Transition(4, A, [End], 2, [End], [])
  const T6: Transition := Transition(4, A, [A], 2, [A], [])
  const T7: Transition := Transition(4, B, [End], 3, [End], [])
  const T8: Transition := Transition(4, B, [B], 3, [B], [])
  const T9: Transition := Transition(4, B, [A], 4, [], [])
  const T10: Transition := Transition(4, A, [B], 4, [], [])
  const T11: Transition := Transition(4, End, [End], 5, [], [])

  /** The transitions of state 4, in the order they are added. */
  const List4: seq<Transition> := [T5, T6, T7, T8, T9, T10, T11]

  const Table1: Table := map[0 := [T0], 1 := [T1, T2], 2 := [T3], 3 := [T4], 4 := List4]

  /** The calls for states 0 to 3 pass every check. */
  lemma Test1EarlyCallsAccepted()
    ensures InsertionError(Alpha1, [], T0).None?
    ensures InsertionError(Alpha1, [], T1).None?
    ensures InsertionError(Alpha1, [T1], T2).None?
    ensures InsertionError(Alpha1, [], T3).None?
    ensures InsertionError(Alpha1, [], T4).None?
  {
    InsertionAcceptedIff(Alpha1, [], T0);
    InsertionAcceptedIff(Alpha1, [], T1);
    InsertionAcceptedIff(Alpha1, [T1], T2);
    InsertionAcceptedIff(Alpha1, [], T3);
    InsertionAcceptedIff(Alpha1, [], T4);
  }

  /**
   * Two transitions on plain terminals whose patterns are single terminals are
   * ambiguous exactly when they read the same input with the same pattern.
   */
  lemma SingleTerminalConflict(x: Transition, y: Transition)
    requires x.inputSymbol.Terminal? && y.inputSymbol.Terminal?
    requires |x.stackTop| == 1 && x.stackTop[0].Terminal? && |y.stackTop| == 1 && y.stackTop[0].Terminal?
    ensures ConflictKind(x, y).Some? <==>
      x.inputSymbol.name == y.inputSymbol.name && x.stackTop[0].name == y.stackTop[0].name
  {
  }

  /** No transition of state 4 is ambiguous with one added before it, and each is admissible. */
  lemma List4Deterministic()
    ensures Deterministic(List4)
    ensures forall k | 0 <= k < |List4| :: Admissible(Alpha1, List4[k])
  {
    var keys := [("a", "$"), ("a", "a"), ("b", "$"), ("b", "b"), ("b", "a"), ("a", "b"), ("$", "$")];
    forall j, k | 0 <= j < k < |List4|
      ensures ConflictKind(List4[j], List4[k]).None?
    {
      assert keys[j] != keys[k];
      SingleTerminalConflict(List4[j], List4[k]);
    }
  }

  /** Each call for state 4 passes every check against the transitions added before it. */
  lemma Test1State4CallAccepted(k: nat)
    requires k < |List4|
    ensures InsertionError(Alpha1, List4[..k], List4[k]).None?
  {
    List4Deterministic();
    InsertionAcceptedIff(Alpha1, List4[..k], List4[k]);
  }

  /**
   * Every addTransition call of the demonstration passes its checks against the
   * list built by the calls before it.
   */
  lemma Test1TableBuilt()
    ensures InsertionError(Alpha1, ListAt(map[], 0), T0).None?
    ensures InsertionError(Alpha1, ListAt(map[0 := [T0]], 1), T1).None?
    ensures InsertionError(Alpha1, ListAt(map[0 := [T0], 1 := [T1]], 1), T2).None?
    ensures InsertionError(Alpha1, ListAt(map[0 := [T0], 1 := [T1, T2]], 2), T3).None?
    ensures InsertionError(Alpha1, ListAt(map[0 := [T0], 1 := [T1, T2], 2 := [T3]], 3), T4).None?
    ensures forall k | 0 <= k < |List4| :: InsertionError(Alpha1, ListAt(Table1[4 := List4[..k]], 4), List4[k]).None?
  {
    Test1EarlyCallsAccepted();
    forall k | 0 <= k < |List4|
      ensures InsertionError(Alpha1, ListAt(Table1[4 := List4[..k]], 4), List4[k]).None?
    {
      Test1State4CallAccepted(k);
    }
  }

  /** The transitions listed for one state of the demonstration are admissible and pairwise unambiguous. */
  lemma Test1ListValid(s: int)
    requires s in Table1
    ensures Deterministic(Table1[s])
    ensures forall k | 0 <= k < |Table1[s]| :: Table1[s][k].currState == s && Admissible(Alpha1, Table1[s][k])
  {
    if s == 4 {
      List4Deterministic();
    } else if s == 1 {
      SingleTerminalConflict(T1, T2);
    }
  }

  /** The table of the demonstration is deterministic and holds only validated transitions. */
  lemma Test1TableValid()
    ensures ValidTable(Alpha1, Table1)
  {
    forall s | s in Table1
      ensures Deterministic(Table1[s])
      ensures forall k | 0 <= k < |Table1[s]| :: Table1[s][k].currState == s && Admissible(Alpha1, Table1[s][k])
    {
      Test1ListValid(s);
    }
  }
}
