/**
 * The working stack as the run sees it.  The automaton keeps a java.util.Stack,
 * whose elements are listed bottom first; copyStack turns that into the top-first
 * list that patterns, snapshots and this module's functions use.
 */
module Stacks {
  import opened Options
  import opened Tokens
  import opened Transitions

  /** The elements of `s` in the opposite order. */
  function Reverse<T>(s: seq<T>): (r: seq<T>)
    ensures |r| == |s|
    ensures forall k | 0 <= k < |s| :: r[k] == s[|s| - 1 - k]
  {
    if s == [] then [] else [s[|s| - 1]] + Reverse(s[..|s| - 1])
  }

  /** A push on the bottom-first stack puts the token in front of the top-first view. */
  lemma ReversePush<T>(s: seq<T>, x: T)
    ensures Reverse(s + [x]) == [x] + Reverse(s)
  {
    assert Reverse(s + [x]) == [x] + Reverse(s) by {
      assert forall k | 0 <= k < |s| + 1 :: (s + [x])[|s| - k] == ([x] + Reverse(s))[k];
    }
  }

  /** A pop on the bottom-first stack drops the first element of the top-first view. */
  lemma ReversePop<T>(s: seq<T>)
    requires s != []
    ensures Reverse(s[..|s| - 1]) == Reverse(s)[1..]
    ensures Reverse(s)[0] == s[|s| - 1]
  {
  }

  /** Reversing a suffix that starts one position earlier appends that position's element. */
  lemma ReverseFrom<T>(s: seq<T>, j: nat)
    requires j < |s|
    ensures Reverse(s[j..]) == Reverse(s[j + 1..]) + [s[j]]
  {
  }

  /** Putting the element at `lo` in front of the slice after it extends the slice down to `lo`. */
  lemma PrependSlice<T>(s: seq<T>, lo: nat, hi: nat, rest: seq<T>)
    requires lo < hi <= |s|
    ensures [s[lo]] + (s[lo + 1..hi] + rest) == s[lo..hi] + rest
  {
    assert s[lo..hi] == [s[lo]] + s[lo + 1..hi];
  }

  /** How popping a pattern off a top-first stack ends. */
  datatype Popped =
    | Popped(rest: seq<StackToken>)      // every pattern token matched and was popped
    | Mismatch(rest: seq<StackToken>)    // a token did not match: popping stopped there
    | RanOut                             // peek on the empty stack: EmptyStackException

  /**
   * The pop phase of actOnStack: for each pattern token in order, peek at the top,
   * stop on a mismatch (actual token as receiver), otherwise pop it.
   */
  function PopPattern(top: seq<StackToken>, pattern: seq<StackToken>): Popped
    decreases pattern
  {
    if pattern == [] then Popped(top)
    else if top == [] then RanOut
    else if !Eq(top[0], pattern[0]) then Mismatch(top)
    else PopPattern(top[1..], pattern[1..])
  }

  /** One round of the pop phase, from the k-th pattern token on. */
  lemma PopPatternFrom(top: seq<StackToken>, pattern: seq<StackToken>, k: nat)
    requires k <= |pattern|
    ensures PopPattern(top, pattern[k..]) ==
      if k == |pattern| then Popped(top)
      else if top == [] then RanOut
      else if !Eq(top[0], pattern[k]) then Mismatch(top)
      else PopPattern(top[1..], pattern[k + 1..])
  {
    if k < |pattern| {
      assert pattern[k..][1..] == pattern[k + 1..];
    }
  }

  /**
   * actOnStack on the top-first view: the new stack, or None when the pop phase
   * throws EmptyStackException (the stack is then empty).  A null transition
   * changes nothing; a mismatch keeps what was already popped and pushes nothing.
   */
  function ActOnStack(top: seq<StackToken>, t: Option<Transition>): Option<seq<StackToken>>
  {
    match t
    case None => Some(top)
    case Some(tr) =>
      match PopPattern(top, tr.stackTop)
      case Popped(rest) => Some(tr.stackTopReplacement + rest)
      case Mismatch(rest) => Some(rest)
      case RanOut => None
  }

  /** The pattern is a prefix of the stack, position by position. */
  predicate PrefixOf(pattern: seq<StackToken>, top: seq<StackToken>)
  {
    |pattern| <= |top| && forall k | 0 <= k < |pattern| :: Eq(top[k], pattern[k])
  }

  /** Popping a pattern that is a prefix of the stack removes exactly |pattern| tokens. */
  lemma {:induction false} PopPrefix(top: seq<StackToken>, pattern: seq<StackToken>)
    requires PrefixOf(pattern, top)
    ensures PopPattern(top, pattern) == Popped(top[|pattern|..])
    decreases pattern
  {
    if pattern != [] {
      assert Eq(top[0], pattern[0]);
      PopPrefix(top[1..], pattern[1..]);
      assert top[1..][|pattern| - 1..] == top[|pattern|..];
    }
  }

  /** Popping stops at the first mismatching position k and leaves the stack from k on. */
  lemma {:induction false} PopMismatch(top: seq<StackToken>, pattern: seq<StackToken>, k: nat)
    requires k < |pattern| && k < |top|
    requires forall i | 0 <= i < k :: Eq(top[i], pattern[i])
    requires !Eq(top[k], pattern[k])
    ensures PopPattern(top, pattern) == Mismatch(top[k..])
    decreases k
  {
    if k > 0 {
      assert Eq(top[0], pattern[0]);
      PopMismatch(top[1..], pattern[1..], k - 1);
      assert top[1..][k - 1..] == top[k..];
    }
  }

  /** A pattern longer than the stack whose covered positions all match empties the stack and throws. */
  lemma {:induction false} PopRunsOut(top: seq<StackToken>, pattern: seq<StackToken>)
    requires |pattern| > |top|
    requires forall i | 0 <= i < |top| :: Eq(top[i], pattern[i])
    ensures PopPattern(top, pattern) == RanOut
    decreases top
  {
    if top != [] {
      assert Eq(top[0], pattern[0]);
      PopRunsOut(top[1..], pattern[1..]);
    }
  }

  /** A stack compatible with the pattern either pops cleanly or runs out: it never mismatches. */
  lemma CompatibleNeverMismatches(top: seq<StackToken>, pattern: seq<StackToken>)
    requires PrefixCompatible(top, pattern)
    ensures |pattern| <= |top| ==> PopPattern(top, pattern) == Popped(top[|pattern|..])
    ensures |pattern| > |top| ==> PopPattern(top, pattern) == RanOut
  {
    if |pattern| <= |top| {
      PopPrefix(top, pattern);
    } else {
      PopRunsOut(top, pattern);
    }
  }

  /**
   * The effect of actOnStack: a matching pattern is replaced by the replacement
   * (its first token becoming the new top), so the depth changes by
   * |replacement| - |pattern|; a mismatch at k leaves the stack from k on.
   */
  lemma ActOnStackEffect(top: seq<StackToken>, t: Transition)
    ensures PrefixOf(t.stackTop, top) ==>
      ActOnStack(top, Some(t)) == Some(t.stackTopReplacement + top[|t.stackTop|..]) &&
      |ActOnStack(top, Some(t)).value| == |top| - |t.stackTop| + |t.stackTopReplacement|
    ensures forall k | 0 <= k < |t.stackTop| && k < |top| && !Eq(top[k], t.stackTop[k]) &&
                       (forall i | 0 <= i < k :: Eq(top[i], t.stackTop[i])) ::
      ActOnStack(top, Some(t)) == Some(top[k..])
    ensures ActOnStack(top, None) == Some(top)
  {
    if PrefixOf(t.stackTop, top) {
      PopPrefix(top, t.stackTop);
    }
    forall k | 0 <= k < |t.stackTop| && k < |top| && !Eq(top[k], t.stackTop[k]) &&
               (forall i | 0 <= i < k :: Eq(top[i], t.stackTop[i]))
      ensures ActOnStack(top, Some(t)) == Some(top[k..])
    {
      PopMismatch(top, t.stackTop, k);
    }
  }
}
