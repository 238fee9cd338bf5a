/** Optional values: the model's stand-in for a Java reference that may be null. */
module Options {
  datatype Option<+T> = None | Some(value: T)
}

/**
 * The extended stack alphabet of the automaton: terminals (with the distinguished
 * EPSILON object), grammar variables, encoded parser states (with the WILDCARD
 * object) and one-token lookahead markers.  Java's `equals` is dispatched on the
 * receiver, so equality is the two-argument predicate `Eq(receiver, arg)`, which
 * is neither symmetric nor transitive in general.
 */
module Tokens {

  datatype StackToken =
    | Terminal(name: string)       // new TerminalToken(name)
    | Epsilon                      // the object TerminalToken.EPSILON (value "epsilon")
    | Variable(name: string)       // new VariableToken(name)
    | State(n: int)                // new StateToken(n)
    | Wildcard                     // the object StateToken.WILDCARD (built with 1000)
    | LookAhead(name: string)      // new LookAheadToken(new TerminalToken(name))

  /** `instanceof TerminalToken` (EPSILON is an instance of an anonymous subclass). */
  predicate IsTerminal(t: StackToken) { t.Terminal? || t.Epsilon? }

  /** `instanceof StateToken`. */
  predicate IsState(t: StackToken) { t.State? || t.Wildcard? }

  /** The tokens that can stand where the source declares a `TerminalToken`. */
  type TerminalToken = t: StackToken | IsTerminal(t) witness Epsilon

  /** The tokens that can stand where the source declares a `GrammarToken`. */
  type GrammarToken = t: StackToken | IsTerminal(t) || t.Variable? witness Epsilon

  /** The state number the WILDCARD object was built with. */
  const WildcardState: int := 1000

  /** The character of one decimal digit. */
  function DigitChar(d: nat): (c: char)
    requires d < 10
    ensures '0' <= c <= '9'
    ensures c as int - '0' as int == d
  {
    ('0' as int + d) as char
  }

  /**
   * Decimal digits of a natural number, most significant first; the first digit
   * is '0' only for zero itself.
   */
  function NatDigits(n: nat): (s: string)
    ensures |s| > 0
    ensures forall k | 0 <= k < |s| :: '0' <= s[k] <= '9'
    ensures n > 0 ==> s[0] != '0'
    decreases n
  {
    if n < 10 then [DigitChar(n)] else NatDigits(n / 10) + [DigitChar(n % 10)]
  }

  /** `"" + n` for an int: an optional minus sign followed by the decimal digits. */
  function DecimalString(n: int): (s: string)
    ensures |s| > 0 && (s[0] == '-' || '0' <= s[0] <= '9')
    ensures s[0] == '-' <==> n < 0
    ensures forall k | 1 <= k < |s| :: '0' <= s[k] <= '9'
  {
    if n < 0 then "-" + NatDigits(-n) else NatDigits(n)
  }

  /** The number a string of decimal digits spells, most significant first. */
  function DigitsValue(s: string): (n: nat)
    requires forall k | 0 <= k < |s| :: '0' <= s[k] <= '9'
  {
    if s == [] then 0 else 10 * DigitsValue(s[..|s| - 1]) + (s[|s| - 1] as int - '0' as int)
  }

  /** The number a decimal string spells, reading an optional leading minus sign. */
  function DecimalValue(s: string): int
    requires |s| > 0 && (s[0] == '-' || '0' <= s[0] <= '9')
    requires forall k | 1 <= k < |s| :: '0' <= s[k] <= '9'
  {
    if s[0] == '-' then -(DigitsValue(s[1..]) as int) else DigitsValue(s)
  }

  /** The digits of n spell n. */
  lemma {:induction false} NatDigitsValue(n: nat)
    ensures DigitsValue(NatDigits(n)) == n
    decreases n
  {
    var s := NatDigits(n);
    if n >= 10 {
      NatDigitsValue(n / 10);
      assert s[..|s| - 1] == NatDigits(n / 10);
    } else {
      assert s[..0] == [];
    }
  }

  /** A state's value spells its number: reading the decimal string back gives n. */
  lemma DecimalStringRoundTrip(n: int)
    ensures DecimalValue(DecimalString(n)) == n
  {
    if n < 0 {
      NatDigitsValue(-n);
      assert DecimalString(n)[1..] == NatDigits(-n);
    } else {
      NatDigitsValue(n);
    }
  }

  /** Distinct numbers have distinct decimal strings. */
  lemma DecimalStringInjective(m: int, n: int)
    ensures DecimalString(m) == DecimalString(n) ==> m == n
  {
    DecimalStringRoundTrip(m);
    DecimalStringRoundTrip(n);
  }

  /** `state()` of a StateToken: WILDCARD was constructed with 1000. */
  function StateNumber(t: StackToken): int
    requires IsState(t)
  {
    if t.Wildcard? then WildcardState else t.n
  }

  /** The final `value` field every StackToken carries, set once by its constructor. */
  function Value(t: StackToken): (v: string)
    ensures t.LookAhead? ==> |v| > 0 && v[0] == 'L'
    ensures IsState(t) ==> |v| > 0 && (v[0] == '-' || '0' <= v[0] <= '9')
  {
    match t
    case Terminal(s) => s
    case Epsilon => "epsilon"
    case Variable(s) => s
    case State(n) => DecimalString(n)
    case Wildcard => DecimalString(WildcardState)
    case LookAhead(s) => "L" + s
  }

  /** `toString()`: the value, unchanged. */
  function ToString(t: StackToken): (s: string)
    ensures |s| == |Value(t)|
    ensures forall k | 0 <= k < |s| :: s[k] == Value(t)[k]
  {
    "" + Value(t)
  }

  /**
   * `receiver.equals(arg)`, following the class of the receiver:
   * terminals and variables compare values within their own class, state tokens
   * compare numbers unless either side is the WILDCARD object, and a lookahead
   * marker uses the base StackToken equality (same value, any class).
   */
  predicate Eq(receiver: StackToken, arg: StackToken): (b: bool)
    ensures receiver == arg ==> b
    ensures b ==> (IsState(receiver) <==> IsState(arg))
    ensures b && !receiver.LookAhead? ==> (IsTerminal(receiver) <==> IsTerminal(arg))
  {
    match receiver
    case Terminal(_) | Epsilon => IsTerminal(arg) && Value(arg) == Value(receiver)
    case Variable(_) => arg.Variable? && Value(arg) == Value(receiver)
    case State(n) => IsState(arg) && (arg.Wildcard? || n == StateNumber(arg))
    case Wildcard => IsState(arg)
    case LookAhead(_) => Value(arg) == Value(receiver)
  }

  /**
   * The UTF-16 code units of one character, as a Java `String` stores it: the
   * character itself below 0x10000, otherwise a high and a low surrogate.
   */
  function CodeUnits(c: char): (u: seq<nat>)
    ensures |u| == if c as int < 0x1_0000 then 1 else 2
    ensures forall k | 0 <= k < |u| :: u[k] < 0x1_0000
  {
    var v := c as int;
    if v < 0x1_0000 then [v]
    else [0xD800 + (v - 0x1_0000) / 0x400, 0xDC00 + (v - 0x1_0000) % 0x400]
  }

  /** The UTF-16 encoding of a string: the code units of its characters in order. */
  function Utf16(s: string): (u: seq<nat>)
    ensures |s| <= |u| <= 2 * |s|
    ensures forall k | 0 <= k < |u| :: u[k] < 0x1_0000
  {
    if s == [] then [] else Utf16(s[..|s| - 1]) + CodeUnits(s[|s| - 1])
  }

  /** A string of characters below 0x10000 is encoded one code unit per character. */
  lemma {:induction false} Utf16OfBmp(s: string)
    requires forall k | 0 <= k < |s| :: s[k] as int < 0x1_0000
    ensures |Utf16(s)| == |s|
    ensures forall k | 0 <= k < |s| :: Utf16(s)[k] == s[k] as int
  {
    if s != [] {
      Utf16OfBmp(s[..|s| - 1]);
    }
  }

  /** One round of `String.hashCode`: h = 31*h + unit, modulo 2^32. */
  function HashStep(h: nat, x: nat): (r: nat)
    ensures r < 0x1_0000_0000
  {
    (31 * h + x) % 0x1_0000_0000
  }

  /** The hash of a sequence of code units, one round per unit. */
  function UnitsHash(u: seq<nat>): (h: nat)
    ensures h < 0x1_0000_0000
  {
    if u == [] then 0 else HashStep(UnitsHash(u[..|u| - 1]), u[|u| - 1])
  }

  /** The rounds for the code units of one character. */
  function CharHash(h: nat, c: char): (r: nat)
    ensures r < 0x1_0000_0000
  {
    var u := CodeUnits(c);
    if |u| == 1 then HashStep(h, u[0]) else HashStep(HashStep(h, u[0]), u[1])
  }

  /** Java's `String.hashCode` before the conversion to a signed int, character by character. */
  function UnsignedStringHash(s: string): (h: nat)
    ensures h < 0x1_0000_0000
  {
    if s == [] then 0 else CharHash(UnsignedStringHash(s[..|s| - 1]), s[|s| - 1])
  }

  /** The hash of one more code unit. */
  lemma UnitsHashSnoc(u: seq<nat>, x: nat)
    ensures UnitsHash(u + [x]) == HashStep(UnitsHash(u), x)
  {
    assert (u + [x])[..|u|] == u;
  }

  /** The string hash is the hash of the UTF-16 code units, as a Java `String` stores them. */
  lemma {:induction false} StringHashIsUtf16Hash(s: string)
    ensures UnsignedStringHash(s) == UnitsHash(Utf16(s))
  {
    if s != [] {
      var front, c := s[..|s| - 1], s[|s| - 1];
      StringHashIsUtf16Hash(front);
      var w, u := Utf16(front), CodeUnits(c);
      UnitsHashSnoc(w, u[0]);
      if |u| == 1 {
        assert w + u == w + [u[0]];
      } else {
        UnitsHashSnoc(w + [u[0]], u[1]);
        assert w + u == (w + [u[0]]) + [u[1]];
      }
    }
  }

  /** A character outside the basic plane is hashed as its surrogate pair. */
  lemma SupplementaryCharHash()
    ensures Utf16("\U{1F600}") == [0xD83D, 0xDE00]
    ensures UnsignedStringHash("\U{1F600}") == 31 * 0xD83D + 0xDE00
  {
    assert "\U{1F600}"[..0] == [];
  }

  /** `hashCode()` of every token class: the hash of its value, as a 32-bit signed int. */
  function HashCode(t: StackToken): (h: int)
    ensures -0x8000_0000 <= h < 0x8000_0000
  {
    var u := UnsignedStringHash(Value(t));
    if u < 0x8000_0000 then u else u - 0x1_0000_0000
  }

  // ---------------------------------------------------------------------------
  // Properties of the equality relation
  // ---------------------------------------------------------------------------

  /** Two terminals are equal iff the argument is a terminal with the same value; never equal to a variable. */
  lemma TerminalEquality(x: string, t: StackToken)
    ensures Eq(Terminal(x), t) <==> IsTerminal(t) && Value(t) == x
    ensures !Eq(Terminal(x), Variable(x)) && !Eq(Variable(x), Terminal(x))
  {
  }

  /** EPSILON equals, by value, any terminal built from "epsilon", in both directions. */
  lemma EpsilonEqualsItsValue()
    ensures Eq(Epsilon, Terminal("epsilon")) && Eq(Terminal("epsilon"), Epsilon)
    ensures forall x :: Eq(Epsilon, Terminal(x)) <==> x == "epsilon"
  {
  }

  /** Two variables are equal iff the argument is a variable with the same name. */
  lemma VariableEquality(x: string, t: StackToken)
    ensures Eq(Variable(x), t) <==> t == Variable(x)
  {
  }

  /** WILDCARD equals every state token, as receiver and as argument, and nothing else. */
  lemma WildcardMatchesEveryState(t: StackToken)
    ensures Eq(Wildcard, t) <==> IsState(t)
    ensures Eq(t, Wildcard) <==> IsState(t)
  {
  }

  /**
   * The wildcard test is by identity: a separately built StateToken(1000) has the
   * WILDCARD's value and number but is an ordinary state token.
   */
  lemma WildcardIsAnIdentity()
    ensures Value(State(WildcardState)) == Value(Wildcard)
    ensures StateNumber(State(WildcardState)) == StateNumber(Wildcard)
    ensures !Eq(State(WildcardState), State(7)) && Eq(Wildcard, State(7))
  {
  }

  /** Two ordinary state tokens are equal iff their numbers are. */
  lemma StateEquality(m: int, n: int)
    ensures Eq(State(m), State(n)) <==> m == n
  {
  }

  /** State equality is symmetric but not transitive: 3 = WILDCARD = 4, yet 3 != 4. */
  lemma StateEqualityNotTransitive()
    ensures Eq(State(3), Wildcard) && Eq(Wildcard, State(4)) && !Eq(State(3), State(4))
    ensures forall s, t | IsState(s) && IsState(t) :: Eq(s, t) <==> Eq(t, s)
  {
  }

  /** A state token never equals a token of another class. */
  lemma StateEqualsOnlyStates(s: StackToken, t: StackToken)
    requires IsState(s) && !IsState(t)
    ensures !Eq(s, t)
  {
  }

  /** Two lookahead markers are equal iff they were built from terminals with equal values. */
  lemma LookAheadEquality(x: string, y: string)
    ensures Eq(LookAhead(x), LookAhead(y)) <==> x == y
  {
    if Value(LookAhead(x)) == Value(LookAhead(y)) {
      assert x == ("L" + x)[1..] && y == ("L" + y)[1..];
    }
  }

  /**
   * A lookahead marker never equals a state token in either direction: its value
   * starts with 'L' while a state's value is a decimal string.
   */
  lemma LookAheadNeverEqualsState(x: string, t: StackToken)
    requires IsState(t)
    ensures !Eq(LookAhead(x), t) && !Eq(t, LookAhead(x))
  {
    assert Value(LookAhead(x))[0] == 'L';
    assert Value(t)[0] == '-' || '0' <= Value(t)[0] <= '9';
  }

  /**
   * Equality across classes depends on the receiver: a lookahead marker equals a
   * terminal (or a variable) whose value is "L" + name, but not the other way round.
   */
  lemma LookAheadIsAsymmetric(x: string)
    ensures Eq(LookAhead(x), Terminal("L" + x)) && !Eq(Terminal("L" + x), LookAhead(x))
    ensures Eq(LookAhead(x), Variable("L" + x)) && !Eq(Variable("L" + x), LookAhead(x))
  {
  }

  /** Without lookahead markers the relation is symmetric. */
  lemma EqSymmetricWithoutLookAhead(a: StackToken, b: StackToken)
    requires !a.LookAhead? && !b.LookAhead?
    ensures Eq(a, b) <==> Eq(b, a)
  {
  }

  /** The tokens on which Eq is an equivalence: no WILDCARD and no lookahead marker. */
  predicate Plain(t: StackToken) { !t.Wildcard? && !t.LookAhead? }

  /** On plain tokens Eq is reflexive, symmetric and transitive. */
  lemma EqEquivalenceOnPlain(a: StackToken, b: StackToken, c: StackToken)
    requires Plain(a) && Plain(b) && Plain(c)
    ensures Eq(a, a)
    ensures Eq(a, b) ==> Eq(b, a)
    ensures Eq(a, b) && Eq(b, c) ==> Eq(a, c)
  {
  }

  /**
   * Two tokens that a plain token equals (as receiver) are equal to each other:
   * this is what lets two patterns that both match one stack be compared directly.
   */
  lemma EqThroughPlain(t: StackToken, a: StackToken, b: StackToken)
    requires Plain(t) && Eq(t, a) && Eq(t, b)
    ensures Eq(a, b)
  {
  }

  /** Every token is equal to itself (WILDCARD and lookahead markers included). */
  lemma EqReflexive(t: StackToken)
    ensures Eq(t, t)
  {
  }

  /** On terminals Eq is value equality, so it is an equivalence there. */
  lemma TerminalEqTransitive(a: TerminalToken, b: TerminalToken, c: TerminalToken)
    ensures Eq(a, b) <==> Value(a) == Value(b)
    ensures Eq(a, b) && Eq(c, b) ==> Eq(a, c)
  {
  }

  /** A grammar token equals a variable exactly when it is that variable. */
  lemma GrammarTokenEqVariable(g: GrammarToken, x: string)
    ensures Eq(g, Variable(x)) <==> g == Variable(x)
  {
  }

  /**
   * Hashing is consistent with equality for every receiver except state tokens:
   * equal tokens have equal values, hence equal hashes.
   */
  lemma HashConsistentWithEq(a: StackToken, b: StackToken)
    requires !IsState(a) && Eq(a, b)
    ensures HashCode(a) == HashCode(b)
  {
  }

  /** The WILDCARD's value is the decimal string "1000". */
  lemma WildcardValue()
    ensures Value(Wildcard) == "1000"
  {
    assert NatDigits(1) == "1";
    assert NatDigits(10) == NatDigits(1) + "0";
    assert NatDigits(100) == NatDigits(10) + "0";
    assert NatDigits(1000) == NatDigits(100) + "0";
  }

  /** The hash of WILDCARD's value "1000", computed character by character. */
  lemma HashOfThousand()
    ensures UnsignedStringHash("1000") == 1507423
  {
    assert "1"[..0] == [] && "10"[..1] == "1" && "100"[..2] == "10" && "1000"[..3] == "100";
    assert UnsignedStringHash("1") == 49;
    assert UnsignedStringHash("10") == 1567;
    assert UnsignedStringHash("100") == 48625;
  }

  /** WILDCARD's hash is that of "1000", so it differs from the hash of a state it equals. */
  lemma WildcardHashInconsistent()
    ensures Eq(Wildcard, State(3)) && HashCode(Wildcard) != HashCode(State(3))
  {
    WildcardValue();
    HashOfThousand();
    assert Value(State(3)) == "3";
    assert "3"[..0] == [];
    assert UnsignedStringHash("3") == 51;
  }
}
