/** The stack of full states that the search stack stands for, and the replay of guesses (src/search_stack.cpp). */
module PlainStacks {
  import opened BitsliceFunctions
  import opened Cryptos
  import opened Worklists
  import opened Characteristics

  type State = seq<Cond>

  /** A guess at a one-bit condition: the choice made, and the other choice or none. */
  datatype Guess = Guess(pos: nat, first: Cond, second: Cond)

  /** An entry of the plain stack: a pushed state, or a guess with the state that it led to. */
  datatype Frame = Push(state: State, phase: int) | Guessed(guess: Guess, state: State)

  // ---- replaying guesses on a stored state ----

  /** The state with the first choice of every guess stored, not yet propagated. */
  ghost function Applied(state: State, guesses: seq<Guess>): (r: State)
    ensures |r| == |state|
  {
    if guesses == [] then state
    else
      var g := guesses[|guesses| - 1];
      var r := Applied(state, guesses[..|guesses| - 1]);
      if g.pos < |r| then r[g.pos := g.first] else r
  }

  ghost function Replayed(crypto: Crypto, state: State, guesses: seq<Guess>): (r: State)
    requires crypto.Valid() && |state| == crypto.Size()
    ensures |r| == crypto.Size()
  {
    Gfp(crypto, DEFAULT_PRIORITY, Applied(state, guesses))
  }

  /** A propagated state without a contradiction. */
  ghost predicate StateOk(crypto: Crypto, s: State)
    requires crypto.Valid()
  {
    CondsFit(crypto, s) && NoneEmpty(s) && AllFixed(crypto, DEFAULT_PRIORITY, s)
  }

  /** Both choices restrict the condition at the position, and the first one is possible. */
  ghost predicate GuessOk(crypto: Crypto, at: State, g: Guess)
    requires crypto.Valid() && |at| == crypto.Size()
  {
    && g.pos < crypto.Size() && g.first <= at[g.pos] && g.second <= at[g.pos]
    && NoneEmpty(Gfp(crypto, DEFAULT_PRIORITY, at[g.pos := g.first]))
  }

  /** Every guess is possible in the state that the guesses before it lead to. */
  ghost predicate GuessesOk(crypto: Crypto, state: State, guesses: seq<Guess>)
    requires crypto.Valid() && |state| == crypto.Size()
  {
    forall i :: 0 <= i < |guesses| ==> GuessOk(crypto, Replayed(crypto, state, guesses[..i]), guesses[i])
  }

  lemma GuessesPrefix(crypto: Crypto, state: State, guesses: seq<Guess>, n: nat)
    requires crypto.Valid() && |state| == crypto.Size() && GuessesOk(crypto, state, guesses) && n <= |guesses|
    ensures GuessesOk(crypto, state, guesses[..n])
  {
    hide Replayed, GuessOk;
    forall i | 0 <= i < n ensures GuessOk(crypto, Replayed(crypto, state, guesses[..n][..i]), guesses[..n][i]) {
      assert guesses[..n][..i] == guesses[..i];
    }
  }

  lemma GuessesExtend(crypto: Crypto, state: State, guesses: seq<Guess>, g: Guess)
    requires crypto.Valid() && |state| == crypto.Size() && GuessesOk(crypto, state, guesses)
    requires GuessOk(crypto, Replayed(crypto, state, guesses), g)
    ensures GuessesOk(crypto, state, guesses + [g])
  {
    hide Replayed, GuessOk;
    var all := guesses + [g];
    forall i | 0 <= i < |all| ensures GuessOk(crypto, Replayed(crypto, state, all[..i]), all[i]) {
      assert all[..i] == guesses[..i];
      assert guesses[..|guesses|] == guesses;
    }
  }

  /** Storing a further choice on the replayed guesses, or on their propagated state, leads to the same state. */
  lemma ReplayedChoice(crypto: Crypto, state: State, guesses: seq<Guess>, pos: nat, value: Cond)
    requires crypto.Valid() && |state| == crypto.Size() && pos < crypto.Size()
    requires value <= Replayed(crypto, state, guesses)[pos]
    ensures Gfp(crypto, DEFAULT_PRIORITY, Applied(state, guesses)[pos := value])
         == Gfp(crypto, DEFAULT_PRIORITY, Replayed(crypto, state, guesses)[pos := value])
  {
    hide Applied, Gfp;
    var a := Applied(state, guesses);
    GfpBelow(crypto, DEFAULT_PRIORITY, a);
    GfpReplay(crypto, DEFAULT_PRIORITY, a, a[pos := value], Replayed(crypto, state, guesses)[pos := value]);
  }

  lemma ReplayedExtend(crypto: Crypto, state: State, guesses: seq<Guess>, g: Guess)
    requires crypto.Valid() && |state| == crypto.Size() && GuessOk(crypto, Replayed(crypto, state, guesses), g)
    ensures Replayed(crypto, state, guesses + [g])
         == Gfp(crypto, DEFAULT_PRIORITY, Replayed(crypto, state, guesses)[g.pos := g.first])
  {
    hide Gfp;
    ReplayedChoice(crypto, state, guesses, g.pos, g.first);
    assert (guesses + [g])[..|guesses|] == guesses;
  }

  lemma ReplayedNone(crypto: Crypto, state: State)
    requires crypto.Valid() && StateOk(crypto, state)
    ensures Replayed(crypto, state, []) == state
  {
    GfpBelow(crypto, DEFAULT_PRIORITY, state);
    GfpReached(crypto, DEFAULT_PRIORITY, state, state);
  }

  lemma LastGuess(crypto: Crypto, state: State, guesses: seq<Guess>)
    requires crypto.Valid() && |state| == crypto.Size() && GuessesOk(crypto, state, guesses) && guesses != []
    ensures GuessOk(crypto, Replayed(crypto, state, guesses[..|guesses| - 1]), guesses[|guesses| - 1])
  {
  }

  /** Guesses only restrict the stored state, and lead to a propagated state without a contradiction. */
  lemma {:induction false} ReplayedOk(crypto: Crypto, state: State, guesses: seq<Guess>)
    requires crypto.Valid() && StateOk(crypto, state) && GuessesOk(crypto, state, guesses)
    ensures Leq(Applied(state, guesses), state) && StateOk(crypto, Replayed(crypto, state, guesses))
    ensures CondsFit(crypto, Applied(state, guesses)) && NoneEmpty(Applied(state, guesses))
  {
    hide Gfp, AllFixed, GuessesOk;
    var a := Applied(state, guesses);
    if guesses == [] {
      ReplayedNone(crypto, state);
    } else {
      var n := |guesses| - 1;
      GuessesPrefix(crypto, state, guesses, n);
      ReplayedOk(crypto, state, guesses[..n]);
      var before := Replayed(crypto, state, guesses[..n]);
      LastGuess(crypto, state, guesses);
      ReplayedExtend(crypto, state, guesses[..n], guesses[n]);
      assert guesses[..n] + [guesses[n]] == guesses;
      GfpBelow(crypto, DEFAULT_PRIORITY, Applied(state, guesses[..n]));
      assert Leq(a, Applied(state, guesses[..n]));
      LeqTransitive(a, Applied(state, guesses[..n]), state);
      GfpFixed(crypto, DEFAULT_PRIORITY, a);
      GfpBelow(crypto, DEFAULT_PRIORITY, a);
      InsideFit(crypto, state, a);
      InsideFit(crypto, a, Replayed(crypto, state, guesses));
      var r := Replayed(crypto, state, guesses);
      assert forall k :: 0 <= k < |r| ==> r[k] <= a[k] && r[k] != {};
    }
  }

  // ---- the plain stack ----

  ghost function GuessCount(view: seq<Frame>): nat {
    if view == [] then 0 else GuessCount(view[..|view| - 1]) + if view[|view| - 1].Guessed? then 1 else 0
  }

  ghost function TopState(view: seq<Frame>): State
    requires view != []
  {
    view[|view| - 1].state
  }

  /** The phase of the last pushed state. */
  ghost function TopPhase(view: seq<Frame>): int {
    if view == [] then 0
    else if view[|view| - 1].Push? then view[|view| - 1].phase
    else TopPhase(view[..|view| - 1])
  }

  /** The stack without pushed states on its top. */
  ghost function Stripped(view: seq<Frame>): (r: seq<Frame>) {
    if view != [] && view[|view| - 1].Push? then Stripped(view[..|view| - 1]) else view
  }

  /** Dropping `n` guesses: the bottom state stays, and a pushed state goes when a guess below it is dropped. */
  ghost function Dropped(view: seq<Frame>, n: nat): (r: seq<Frame>)
    ensures r <= view
    decreases |view|
  {
    if n == 0 || |view| <= 1 then view
    else Dropped(view[..|view| - 1], if view[|view| - 1].Guessed? then n - 1 else n)
  }

  /** The latest guess with a possible other choice takes that choice; everything after it is dropped. */
  ghost function OtherChoice(crypto: Crypto, view: seq<Frame>): (r: seq<Frame>)
    requires crypto.Valid() && forall k :: 0 <= k < |view| ==> |view[k].state| == crypto.Size()
    ensures forall k :: 0 <= k < |r| ==> |r[k].state| == crypto.Size()
    decreases |view|
  {
    if GuessCount(view) == 0 then view
    else
      var rest, top := view[..|view| - 1], view[|view| - 1];
      if top.Push? || top.guess.second == {} || rest == [] || top.guess.pos >= crypto.Size() then OtherChoice(crypto, rest)
      else
        var next := Gfp(crypto, DEFAULT_PRIORITY, TopState(rest)[top.guess.pos := top.guess.second]);
        if NoneEmpty(next) then rest + [Guessed(Guess(top.guess.pos, top.guess.second, {}), next)]
        else OtherChoice(crypto, rest)
  }

  lemma {:induction false} GuessCountAppend(v: seq<Frame>, w: seq<Frame>)
    ensures GuessCount(v + w) == GuessCount(v) + GuessCount(w)
  {
    if w == [] {
      assert v + w == v;
    } else {
      GuessCountAppend(v, w[..|w| - 1]);
      assert (v + w)[..|v + w| - 1] == v + w[..|w| - 1];
    }
  }

  /** Exactly min(n, number of guesses) guesses are dropped. */
  lemma {:induction false} DroppedCount(view: seq<Frame>, n: nat)
    requires view != [] && view[0].Push?
    ensures GuessCount(Dropped(view, n)) == if n <= GuessCount(view) then GuessCount(view) - n else 0
    ensures Dropped(view, n) != [] && Dropped(view, n) <= view
    decreases |view|
  {
    if n > 0 && |view| > 1 {
      var rest := view[..|view| - 1];
      DroppedCount(rest, if view[|view| - 1].Guessed? then n - 1 else n);
    } else if |view| == 1 {
      assert view == [view[0]];
      assert GuessCount(view[..0]) == 0;
    }
  }

  // ---- runs of operations ----

  /** A guess comes with the state that it is said to have led to. */
  datatype Op = OpPush(state: State, newPhase: int) | OpGuess(guess: Guess, led: State) | OpBacktrack(steps: nat) | OpOther

  /** What an operation leaves on top, and the number of guesses. */
  datatype Outcome = Outcome(state: State, phase: int, size: nat)

  ghost predicate SizesOk(crypto: Crypto, view: seq<Frame>) {
    forall k :: 0 <= k < |view| ==> |view[k].state| == crypto.Size()
  }

  /** States handed in are propagated, and guesses are possible in the state on top. */
  ghost predicate OpOk(crypto: Crypto, view: seq<Frame>, op: Op)
    requires crypto.Valid() && SizesOk(crypto, view)
  {
    match op
    case OpPush(state, _) => StateOk(crypto, state)
    case OpGuess(g, led) => view != [] && GuessOk(crypto, TopState(view), g) && StateOk(crypto, led)
    case _ => view != []
  }

  /** The state that a guess leads to. */
  ghost function Next(crypto: Crypto, view: seq<Frame>, g: Guess): (r: State)
    requires crypto.Valid() && SizesOk(crypto, view) && view != [] && g.pos < crypto.Size()
    ensures |r| == crypto.Size()
  {
    Gfp(crypto, DEFAULT_PRIORITY, TopState(view)[g.pos := g.first])
  }

  /** The plain stack after a guess. A state that is stored makes a difference only when it is not the one that the
      guess leads to. */
  ghost function WithGuess(crypto: Crypto, view: seq<Frame>, g: Guess, led: State, stored: bool): (r: seq<Frame>)
    requires crypto.Valid() && SizesOk(crypto, view) && view != [] && g.pos < crypto.Size() && |led| == crypto.Size()
    ensures SizesOk(crypto, r)
  {
    view + [Guessed(g, Next(crypto, view, g))]
      + if stored && led != Next(crypto, view, g) then [Push(led, TopPhase(view))] else []
  }

  /** The plain stack after an operation. */
  ghost function AfterOp(crypto: Crypto, view: seq<Frame>, op: Op, stored: bool): (r: seq<Frame>)
    requires crypto.Valid() && SizesOk(crypto, view) && OpOk(crypto, view, op)
    ensures SizesOk(crypto, r)
  {
    match op
    case OpPush(state, phase) => view + [Push(state, phase)]
    case OpGuess(g, led) => WithGuess(crypto, view, g, led, stored)
    case OpBacktrack(n) => Dropped(view, n)
    case OpOther => OtherChoice(crypto, view)
  }

  /** The operations are possible, whether states are stored or not. */
  ghost predicate RunOk(crypto: Crypto, view: seq<Frame>, ops: seq<Op>)
    requires crypto.Valid() && SizesOk(crypto, view)
    decreases |ops|
  {
    ops == [] || (OpOk(crypto, view, ops[0])
                  && forall stored :: RunOk(crypto, AfterOp(crypto, view, ops[0], stored), ops[1..]))
  }

  ghost function OutcomeOf(view: seq<Frame>): Outcome {
    Outcome(if view == [] then [] else TopState(view), TopPhase(view), GuessCount(view))
  }

  /** The outcomes of a run on the plain stack of full states, given after which operations a state is stored. */
  ghost function Outcomes(crypto: Crypto, view: seq<Frame>, ops: seq<Op>, stored: seq<bool>): seq<Outcome>
    requires crypto.Valid() && SizesOk(crypto, view) && RunOk(crypto, view, ops) && |stored| == |ops|
    decreases |ops|
  {
    if ops == [] then []
    else
      var next := AfterOp(crypto, view, ops[0], stored[0]);
      [OutcomeOf(next)] + Outcomes(crypto, next, ops[1..], stored[1..])
  }

  // ---- when it makes no difference which states are stored ----

  /** A guess is added with the state that it leads to. */
  ghost predicate Led(crypto: Crypto, view: seq<Frame>, op: Op)
    requires crypto.Valid() && SizesOk(crypto, view) && OpOk(crypto, view, op)
  {
    op.OpGuess? ==> op.led == Next(crypto, view, op.guess)
  }

  ghost predicate RunLed(crypto: Crypto, view: seq<Frame>, ops: seq<Op>)
    requires crypto.Valid() && SizesOk(crypto, view) && RunOk(crypto, view, ops)
    decreases |ops|
  {
    ops == [] || (Led(crypto, view, ops[0]) && RunLed(crypto, AfterOp(crypto, view, ops[0], false), ops[1..]))
  }

  ghost predicate AllAre(stored: seq<bool>, b: bool) {
    forall i :: 0 <= i < |stored| ==> stored[i] == b
  }

  /** With every guess led by its state the outcomes do not depend on the states that are stored. */
  lemma {:induction false} LedOutcomes(crypto: Crypto, view: seq<Frame>, ops: seq<Op>, p: seq<bool>, q: seq<bool>)
    requires crypto.Valid() && SizesOk(crypto, view) && RunOk(crypto, view, ops) && |p| == |q| == |ops|
    requires RunLed(crypto, view, ops)
    ensures Outcomes(crypto, view, ops, p) == Outcomes(crypto, view, ops, q)
    decreases |ops|
  {
    if ops != [] {
      hide Gfp, OtherChoice, Dropped, Crypto.Valid, OpOk;
      assert AfterOp(crypto, view, ops[0], p[0]) == AfterOp(crypto, view, ops[0], false) == AfterOp(crypto, view, ops[0], q[0]);
      LedOutcomes(crypto, AfterOp(crypto, view, ops[0], false), ops[1..], p[1..], q[1..]);
    }
  }

  /** A guess with another state: what is on top depends on whether that state is stored. */
  lemma LedOutcome(crypto: Crypto, view: seq<Frame>, op: Op)
    requires crypto.Valid() && SizesOk(crypto, view) && OpOk(crypto, view, op)
    ensures Led(crypto, view, op) <==> AfterOp(crypto, view, op, true) == AfterOp(crypto, view, op, false)
    ensures Led(crypto, view, op) <==>
      OutcomeOf(AfterOp(crypto, view, op, true)) == OutcomeOf(AfterOp(crypto, view, op, false))
  {
    hide Gfp, OtherChoice, Dropped, Crypto.Valid, OpOk, GuessCount, TopPhase;
  }

  /** Storing every state and storing none have the same outcomes exactly when every guess is led by its state. */
  lemma {:induction false} LedExactly(crypto: Crypto, view: seq<Frame>, ops: seq<Op>, all: seq<bool>, none: seq<bool>)
    requires crypto.Valid() && SizesOk(crypto, view) && RunOk(crypto, view, ops) && |all| == |none| == |ops|
    requires AllAre(all, true) && AllAre(none, false)
    ensures Outcomes(crypto, view, ops, all) == Outcomes(crypto, view, ops, none) <==> RunLed(crypto, view, ops)
    decreases |ops|
  {
    if ops != [] {
      hide Gfp, OtherChoice, Dropped, Crypto.Valid, OpOk, AfterOp, Led, OutcomeOf;
      LedOutcome(crypto, view, ops[0]);
      var a, b := AfterOp(crypto, view, ops[0], true), AfterOp(crypto, view, ops[0], false);
      assert all[0] && !none[0];
      assert Outcomes(crypto, view, ops, all) == [OutcomeOf(a)] + Outcomes(crypto, a, ops[1..], all[1..]);
      assert Outcomes(crypto, view, ops, none) == [OutcomeOf(b)] + Outcomes(crypto, b, ops[1..], none[1..]);
      LedExactly(crypto, b, ops[1..], all[1..], none[1..]);
      if OutcomeOf(a) != OutcomeOf(b) {
        assert ([OutcomeOf(a)] + Outcomes(crypto, a, ops[1..], all[1..]))[0] == OutcomeOf(a);
      } else {
        assert ([OutcomeOf(a)] + Outcomes(crypto, a, ops[1..], all[1..]))[1..] == Outcomes(crypto, a, ops[1..], all[1..]);
        assert ([OutcomeOf(b)] + Outcomes(crypto, b, ops[1..], none[1..]))[1..] == Outcomes(crypto, b, ops[1..], none[1..]);
      }
    }
  }

  // ---- the number of guesses ----

  lemma {:induction false} OtherChoiceCount(crypto: Crypto, view: seq<Frame>)
    requires crypto.Valid() && SizesOk(crypto, view)
    ensures GuessCount(OtherChoice(crypto, view)) <= GuessCount(view)
    decreases |view|
  {
    if GuessCount(view) > 0 {
      hide Gfp, Crypto.Valid;
      var rest := view[..|view| - 1];
      OtherChoiceCount(crypto, rest);
      forall f: Frame | f.Guessed? ensures GuessCount(rest + [f]) == GuessCount(rest) + 1 {
        GuessCountAppend(rest, [f]);
        assert [f][..0] == [];
      }
    }
  }

  lemma {:induction false} PrefixCount(v: seq<Frame>, n: nat)
    requires n <= |v|
    ensures GuessCount(v[..n]) <= GuessCount(v)
  {
    assert v == v[..n] + v[n..];
    GuessCountAppend(v[..n], v[n..]);
  }

  /** An operation adds at most one guess. */
  lemma AfterOpCount(crypto: Crypto, view: seq<Frame>, op: Op, stored: bool)
    requires crypto.Valid() && SizesOk(crypto, view) && OpOk(crypto, view, op)
    ensures GuessCount(AfterOp(crypto, view, op, stored)) <= GuessCount(view) + 1
  {
    hide Gfp, Crypto.Valid, OtherChoice, Dropped;
    match op
    case OpPush(state, phase) => GuessCountAppend(view, [Push(state, phase)]);
    case OpGuess(g, led) =>
      hide StateOk, NoneEmpty;
      var f := Guessed(g, Next(crypto, view, g));
      GuessCountAppend(view, [f]);
      GuessCountAppend(view + [f], [Push(led, TopPhase(view))]);
      assert view + [f] + [] == view + [f];
    case OpBacktrack(n) =>
      PrefixCount(view, |Dropped(view, n)|);
      assert Dropped(view, n) == view[..|Dropped(view, n)|];
    case OpOther => OtherChoiceCount(crypto, view);
  }

  lemma PushPhase(view: seq<Frame>, state: State, phase: int)
    ensures TopPhase(view + [Push(state, phase)]) == phase
  {
    var w := view + [Push(state, phase)];
    assert w[|w| - 1] == Push(state, phase);
  }

  lemma DroppedNone(view: seq<Frame>)
    ensures Dropped(view, 0) == view
  {
  }
}
