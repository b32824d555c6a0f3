/** Which solutions a search stack still covers (src/search.cpp, src/search_stack.cpp). */
module Coverage {
  import opened BitsliceFunctions
  import opened Cryptos
  import opened Worklists
  import opened Choices
  import opened Characteristics
  import opened PlainStacks

  /** Frames have states of the right size that only get smaller, guesses are possible in the state below them
      and led to the state above. */
  ghost predicate ViewOk(crypto: Crypto, view: seq<Frame>)
    requires crypto.Valid()
  {
    && view != [] && (forall k :: 0 <= k < |view| ==> |view[k].state| == crypto.Size())
    && (forall k :: 0 < k < |view| ==> FrameOk(crypto, view[k - 1].state, view[k]))
  }

  ghost predicate FrameOk(crypto: Crypto, below: State, f: Frame)
    requires crypto.Valid() && |below| == crypto.Size()
  {
    && Leq(f.state, below)
    && (f.Guessed? ==>
          && GuessOk(crypto, below, f.guess)
          && f.state == Gfp(crypto, DEFAULT_PRIORITY, below[f.guess.pos := f.guess.first]))
  }

  /** The solution `a` is allowed by the other choice of a guess on the stack. */
  ghost predicate InAlternative(view: seq<Frame>, a: seq<nat>) {
    exists k :: 0 < k < |view| && InOther(view[k - 1].state, view[k], a)
  }

  ghost predicate InOther(below: State, f: Frame, a: seq<nat>) {
    && f.Guessed? && f.guess.second != {} && f.guess.pos < |below|
    && Allowed(below[f.guess.pos := f.guess.second], a)
  }

  ghost predicate InView(view: seq<Frame>, a: seq<nat>) {
    view != [] && (Allowed(TopState(view), a) || InAlternative(view, a))
  }

  /** Every solution of the root is in the top state or in an alternative on the stack. */
  ghost predicate Covered(crypto: Crypto, root: State, view: seq<Frame>)
    requires crypto.Valid()
  {
    forall a :: Solution(crypto, DEFAULT_PRIORITY, a) && Allowed(root, a) ==> InView(view, a)
  }

  /** The top state has no solution of the root: every one is in an alternative. */
  ghost predicate Refuted(crypto: Crypto, root: State, view: seq<Frame>)
    requires crypto.Valid()
  {
    forall a :: Solution(crypto, DEFAULT_PRIORITY, a) && Allowed(root, a) ==> InAlternative(view, a)
  }

  ghost predicate NoSolution(crypto: Crypto, root: State)
    requires crypto.Valid()
  {
    forall a :: Solution(crypto, DEFAULT_PRIORITY, a) ==> !Allowed(root, a)
  }

  lemma AlternativePrefix(v: seq<Frame>, f: Frame, a: seq<nat>)
    requires v != []
    ensures InAlternative(v + [f], a) <==> InAlternative(v, a) || InOther(TopState(v), f, a)
  {
    var w := v + [f];
    if InAlternative(w, a) {
      var k :| 0 < k < |w| && InOther(w[k - 1].state, w[k], a);
      if k < |v| { assert InOther(v[k - 1].state, v[k], a); }
    }
    if InAlternative(v, a) {
      var k :| 0 < k < |v| && InOther(v[k - 1].state, v[k], a);
      assert InOther(w[k - 1].state, w[k], a);
    }
    if InOther(TopState(v), f, a) {
      assert InOther(w[|v| - 1].state, w[|v|], a);
    }
  }

  lemma ViewExtend(crypto: Crypto, view: seq<Frame>, f: Frame)
    requires crypto.Valid() && ViewOk(crypto, view) && |f.state| == crypto.Size() && FrameOk(crypto, TopState(view), f)
    ensures ViewOk(crypto, view + [f])
  {
    hide FrameOk;
  }

  lemma ViewPrefix(crypto: Crypto, view: seq<Frame>, n: nat)
    requires crypto.Valid() && ViewOk(crypto, view) && 0 < n <= |view|
    ensures ViewOk(crypto, view[..n])
  {
    hide FrameOk;
  }

  /** States lower in the stack allow everything that states above them allow. */
  lemma {:induction false} LowerAllows(crypto: Crypto, view: seq<Frame>, j: nat, k: nat, a: seq<nat>)
    requires crypto.Valid() && ViewOk(crypto, view) && j <= k < |view| && Allowed(view[k].state, a)
    ensures Allowed(view[j].state, a)
  {
    hide Gfp;
    if j < k {
      assert FrameOk(crypto, view[k - 1].state, view[k]);
      LowerAllows(crypto, view, j, k - 1, a);
    }
  }

  /** What an alternative allows the state below its guess allows, too. */
  lemma OtherBelow(crypto: Crypto, below: State, f: Frame, a: seq<nat>)
    requires crypto.Valid() && |below| == crypto.Size() && FrameOk(crypto, below, f) && InOther(below, f, a)
    ensures Allowed(below, a)
  {
    hide Gfp;
  }

  // ---- states without all the values that no solution takes ----

  /** A state in place of the top state: values that no solution takes may be gone. */
  ghost predicate Sharpens(crypto: Crypto, at: State, top: State)
    requires crypto.Valid()
  {
    |at| == |top| == crypto.Size() && Leq(at, top) && NoneLost(crypto, DEFAULT_PRIORITY, top, at)
  }

  lemma SharpensSame(crypto: Crypto, top: State)
    requires crypto.Valid() && |top| == crypto.Size()
    ensures Sharpens(crypto, top, top)
  {
  }

  lemma SharpensMore(crypto: Crypto, next: State, at: State, top: State)
    requires crypto.Valid() && Sharpens(crypto, at, top) && |next| == crypto.Size() && Leq(next, at)
    requires NoneLost(crypto, DEFAULT_PRIORITY, at, next)
    ensures Sharpens(crypto, next, top)
  {
    hide Solution;
    LeqTransitive(next, at, top);
  }

  /** The same choice at both states leads to such states again. */
  lemma SharpensGuess(crypto: Crypto, at: State, top: State, pos: nat, value: Cond)
    requires crypto.Valid() && Sharpens(crypto, at, top) && pos < crypto.Size() && value <= at[pos]
    ensures Sharpens(crypto, Gfp(crypto, DEFAULT_PRIORITY, at[pos := value]), Gfp(crypto, DEFAULT_PRIORITY, top[pos := value]))
  {
    hide Gfp, Solution;
    var a, b := at[pos := value], top[pos := value];
    GfpMonotone(crypto, DEFAULT_PRIORITY, a, b);
    forall x | Solution(crypto, DEFAULT_PRIORITY, x) && Allowed(Gfp(crypto, DEFAULT_PRIORITY, b), x)
      ensures Allowed(Gfp(crypto, DEFAULT_PRIORITY, a), x)
    {
      GfpKeepsSolutions(crypto, DEFAULT_PRIORITY, a, x);
      GfpKeepsSolutions(crypto, DEFAULT_PRIORITY, b, x);
      assert x[pos] in value && value <= top[pos];
      assert forall k :: 0 <= k < |x| && k != pos ==> x[k] in b[k] && b[k] == top[k];
      assert Allowed(top, x);
    }
  }

  /** Pushing such a state covers the same solutions. */
  lemma SharpenedCovers(crypto: Crypto, root: State, view: seq<Frame>, at: State, phase: int)
    requires crypto.Valid() && ViewOk(crypto, view) && Sharpens(crypto, at, TopState(view))
    ensures ViewOk(crypto, view + [Push(at, phase)])
    ensures Covered(crypto, root, view) <==> Covered(crypto, root, view + [Push(at, phase)])
  {
    hide Solution, InOther, InAlternative;
    var f := Push(at, phase);
    ViewExtend(crypto, view, f);
    forall a | Solution(crypto, DEFAULT_PRIORITY, a) ensures InView(view + [f], a) <==> InView(view, a) {
      AlternativePrefix(view, f, a);
      PushNoOther(TopState(view), f, a);
    }
    hide InView, ViewOk;
  }

  /** Without a solution left the stack is refuted. */
  lemma UnsolvableRefutes(crypto: Crypto, root: State, view: seq<Frame>, at: State)
    requires crypto.Valid() && ViewOk(crypto, view) && Covered(crypto, root, view)
    requires Sharpens(crypto, at, TopState(view)) && Unsolvable(crypto, DEFAULT_PRIORITY, at)
    ensures Refuted(crypto, root, view)
  {
    hide Solution, InAlternative, ViewOk;
  }

  // ---- guessing a bit ----

  /** A guess that keeps the other choice loses no solution. */
  lemma GuessCovers(crypto: Crypto, root: State, view: seq<Frame>, at: State, pos: nat, c: Cond, second: bool)
    requires crypto.Valid() && ViewOk(crypto, view) && Covered(crypto, root, view) && Sharpens(crypto, at, TopState(view))
    requires pos < crypto.Size() && OneBit(c) && at[pos] == c
    ensures var g := Guess(pos, Choice(c, second), Choice(c, !second));
            Covered(crypto, root, view + [Guessed(g, Gfp(crypto, DEFAULT_PRIORITY, TopState(view)[pos := g.first]))])
  {
    hide Choice, Solution, Gfp, InAlternative, Several, OneBit;
    ChoicesCover(c);
    var g := Guess(pos, Choice(c, second), Choice(c, !second));
    var top := TopState(view);
    var f := Guessed(g, Gfp(crypto, DEFAULT_PRIORITY, top[pos := g.first]));
    forall a | Solution(crypto, DEFAULT_PRIORITY, a) && Allowed(root, a) ensures InView(view + [f], a) {
      AlternativePrefix(view, f, a);
      GfpKeepsSolutions(crypto, DEFAULT_PRIORITY, top[pos := g.first], a);
      if Allowed(top, a) && a[pos] !in g.first {
        assert Allowed(at, a);
        assert Allowed(top[pos := g.second], a);
      }
    }
  }

  /** When the first choice fails the other choice alone loses no solution. */
  lemma SecondCovers(crypto: Crypto, root: State, view: seq<Frame>, at: State, pos: nat, c: Cond, second: bool)
    requires crypto.Valid() && ViewOk(crypto, view) && Covered(crypto, root, view) && Sharpens(crypto, at, TopState(view))
    requires pos < crypto.Size() && OneBit(c) && at[pos] == c
    requires !NoneEmpty(Gfp(crypto, DEFAULT_PRIORITY, at[pos := Choice(c, second)]))
    ensures var g := Guess(pos, Choice(c, !second), {});
            Covered(crypto, root, view + [Guessed(g, Gfp(crypto, DEFAULT_PRIORITY, TopState(view)[pos := g.first]))])
  {
    hide Choice, Solution, Gfp, InAlternative, Several, OneBit, NoneEmpty;
    ChoicesCover(c);
    var g := Guess(pos, Choice(c, !second), {});
    var top := TopState(view);
    var f := Guessed(g, Gfp(crypto, DEFAULT_PRIORITY, top[pos := g.first]));
    forall a | Solution(crypto, DEFAULT_PRIORITY, a) && Allowed(root, a) ensures InView(view + [f], a) {
      AlternativePrefix(view, f, a);
      GfpKeepsSolutions(crypto, DEFAULT_PRIORITY, top[pos := g.first], a);
      EmptiedNoSolution(crypto, DEFAULT_PRIORITY, at[pos := Choice(c, second)], a);
      if Allowed(top, a) {
        assert Allowed(at, a) && !Allowed(at[pos := Choice(c, second)], a);
      }
    }
  }

  /** When both choices fail the top state has no solution. */
  lemma BothRefute(crypto: Crypto, root: State, view: seq<Frame>, at: State, pos: nat, c: Cond)
    requires crypto.Valid() && ViewOk(crypto, view) && Covered(crypto, root, view) && Sharpens(crypto, at, TopState(view))
    requires pos < crypto.Size() && OneBit(c) && at[pos] == c
    requires !NoneEmpty(Gfp(crypto, DEFAULT_PRIORITY, at[pos := Choice(c, false)]))
    requires !NoneEmpty(Gfp(crypto, DEFAULT_PRIORITY, at[pos := Choice(c, true)]))
    ensures Refuted(crypto, root, view)
  {
    hide Choice, Solution, Gfp, InAlternative, Several, OneBit, NoneEmpty;
    ChoicesCover(c);
    forall a | Solution(crypto, DEFAULT_PRIORITY, a) && Allowed(root, a) ensures InAlternative(view, a) {
      EmptiedNoSolution(crypto, DEFAULT_PRIORITY, at[pos := Choice(c, false)], a);
      EmptiedNoSolution(crypto, DEFAULT_PRIORITY, at[pos := Choice(c, true)], a);
      assert InView(view, a) && (Allowed(TopState(view), a) ==> Allowed(at, a));
    }
  }

  /** The stack after a guess at a bit with condition `c` in the state `at`: the choice `index` is tried first, and its
      alternative stays on the stack if `keep` says so; if it fails the alternative is tried; if both fail nothing is
      added. */
  ghost function AfterGuess(crypto: Crypto, view: seq<Frame>, at: State, pos: nat, c: Cond, index: bool, keep: bool,
                            stored: bool): seq<Frame>
    requires crypto.Valid() && view != [] && SizesOk(crypto, view) && |at| == crypto.Size() && pos < crypto.Size()
  {
    var a, b := Choice(c, index), Choice(c, !index);
    var first, second := Gfp(crypto, DEFAULT_PRIORITY, at[pos := a]), Gfp(crypto, DEFAULT_PRIORITY, at[pos := b]);
    if NoneEmpty(first) then WithGuess(crypto, view, Guess(pos, a, if keep then b else {}), first, stored)
    else if NoneEmpty(second) then WithGuess(crypto, view, Guess(pos, b, {}), second, stored)
    else view
  }

  lemma ViewSizes(crypto: Crypto, view: seq<Frame>)
    requires crypto.Valid() && ViewOk(crypto, view)
    ensures view != [] && SizesOk(crypto, view) && |TopState(view)| == crypto.Size()
  {
  }

  /** A guess that is possible in the state `at` may be added to the stack, with the state that it leads to there. */
  lemma GuessAdded(crypto: Crypto, view: seq<Frame>, at: State, g: Guess, stored: bool)
    requires crypto.Valid() && ViewOk(crypto, view) && SizesOk(crypto, view) && Sharpens(crypto, at, TopState(view))
    requires g.pos < crypto.Size() && g.first <= at[g.pos] && g.second <= at[g.pos]
    requires NoneEmpty(Gfp(crypto, DEFAULT_PRIORITY, at[g.pos := g.first]))
    ensures GuessOk(crypto, TopState(view), g)
    ensures var led := Gfp(crypto, DEFAULT_PRIORITY, at[g.pos := g.first]);
            var after := WithGuess(crypto, view, g, led, stored);
            && ViewOk(crypto, after) && Sharpens(crypto, led, TopState(after)) && view < after
            && Leq(led, at) && led[g.pos] <= g.first
            && forall root :: Covered(crypto, root, view + [Guessed(g, Next(crypto, view, g))]) <==> Covered(crypto, root, after)
  {
    hide Gfp, Covered, TopPhase, NoneLost;
    var led, next := Gfp(crypto, DEFAULT_PRIORITY, at[g.pos := g.first]), Next(crypto, view, g);
    GuessFrameOk(crypto, view, at, g);
    SharpensGuess(crypto, at, TopState(view), g.pos, g.first);
    var one := view + [Guessed(g, next)];
    hide ViewOk;
    SharpensSame(crypto, led);
    assert one + [] == one;
    forall root ensures Covered(crypto, root, one) <==> Covered(crypto, root, one + [Push(led, TopPhase(view))]) {
      SharpenedCovers(crypto, root, one, led, TopPhase(view));
    }
    SharpenedCovers(crypto, led, one, led, TopPhase(view));
  }

  lemma GuessFrameOk(crypto: Crypto, view: seq<Frame>, at: State, g: Guess)
    requires crypto.Valid() && ViewOk(crypto, view) && SizesOk(crypto, view) && Sharpens(crypto, at, TopState(view))
    requires g.pos < crypto.Size() && g.first <= at[g.pos] && g.second <= at[g.pos]
    requires NoneEmpty(Gfp(crypto, DEFAULT_PRIORITY, at[g.pos := g.first]))
    ensures GuessOk(crypto, TopState(view), g) && ViewOk(crypto, view + [Guessed(g, Next(crypto, view, g))])
    ensures var led := Gfp(crypto, DEFAULT_PRIORITY, at[g.pos := g.first]); Leq(led, at) && led[g.pos] <= g.first
  {
    hide Gfp, NoneLost;
    var top := TopState(view);
    var a, b := at[g.pos := g.first], top[g.pos := g.first];
    GfpMonotone(crypto, DEFAULT_PRIORITY, a, b);
    GfpBelow(crypto, DEFAULT_PRIORITY, a);
    GfpBelow(crypto, DEFAULT_PRIORITY, b);
    LeqTransitive(Gfp(crypto, DEFAULT_PRIORITY, a), a, at);
    LeqTransitive(Gfp(crypto, DEFAULT_PRIORITY, b), b, top);
    LeqNoneEmpty(Gfp(crypto, DEFAULT_PRIORITY, a), Gfp(crypto, DEFAULT_PRIORITY, b));
    hide NoneEmpty;
    ViewExtend(crypto, view, Guessed(g, Gfp(crypto, DEFAULT_PRIORITY, b)));
  }

  lemma LeqNoneEmpty(a: State, b: State)
    requires Leq(a, b) && NoneEmpty(a)
    ensures NoneEmpty(b)
  {
    assert forall k :: 0 <= k < |a| ==> a[k] <= b[k] && a[k] != {};
  }

  /** A guess that keeps the alternative loses no solution; when nothing is added the top state is refuted. */
  lemma AfterGuessCovers(crypto: Crypto, root: State, view: seq<Frame>, at: State, pos: nat, c: Cond, index: bool,
                         stored: bool)
    requires crypto.Valid() && ViewOk(crypto, view) && SizesOk(crypto, view) && Covered(crypto, root, view)
    requires Sharpens(crypto, at, TopState(view)) && pos < crypto.Size() && OneBit(c) && at[pos] == c
    ensures var after := AfterGuess(crypto, view, at, pos, c, index, true, stored);
            Covered(crypto, root, after) && (after == view ==> Refuted(crypto, root, view))
  {
    var a, b := Choice(c, index), Choice(c, !index);
    ChoicesCover(c);
    assert |at| == crypto.Size();
    hide Choice, Gfp, Covered, Refuted, NoneEmpty, Several, OneBit, ViewOk, Sharpens, WithGuess;
    if NoneEmpty(Gfp(crypto, DEFAULT_PRIORITY, at[pos := a])) {
      GuessCovers(crypto, root, view, at, pos, c, index);
      GuessAdded(crypto, view, at, Guess(pos, a, b), stored);
    } else if NoneEmpty(Gfp(crypto, DEFAULT_PRIORITY, at[pos := b])) {
      SecondCovers(crypto, root, view, at, pos, c, index);
      GuessAdded(crypto, view, at, Guess(pos, b, {}), stored);
    } else {
      BothRefute(crypto, root, view, at, pos, c);
    }
  }

  /** Without the alternative a possible first choice covers the solutions exactly when those that only the other
      choice allows are already in an alternative on the stack. */
  lemma ChoiceGivenUp(crypto: Crypto, root: State, view: seq<Frame>, at: State, pos: nat, c: Cond, index: bool, stored: bool)
    requires crypto.Valid() && ViewOk(crypto, view) && SizesOk(crypto, view) && Covered(crypto, root, view)
    requires Sharpens(crypto, at, TopState(view)) && pos < crypto.Size() && OneBit(c) && at[pos] == c && Several(c)
    requires NoneEmpty(Gfp(crypto, DEFAULT_PRIORITY, at[pos := Choice(c, index)]))
    ensures Covered(crypto, root, AfterGuess(crypto, view, at, pos, c, index, false, stored)) <==>
            forall a :: Solution(crypto, DEFAULT_PRIORITY, a) && Allowed(root, a) ==>
              (Allowed(at[pos := Choice(c, !index)], a) ==> InAlternative(view, a))
  {
    ChoicesCover(c);
    FrameGivenUp(crypto, root, view, at, pos, c, index);
    hide Choice, Gfp, Covered, NoneEmpty, Several, OneBit, ViewOk, Sharpens, WithGuess, Solution, InAlternative, Allowed;
    GuessAdded(crypto, view, at, Guess(pos, Choice(c, index), {}), stored);
  }

  lemma FrameGivenUp(crypto: Crypto, root: State, view: seq<Frame>, at: State, pos: nat, c: Cond, index: bool)
    requires crypto.Valid() && ViewOk(crypto, view) && Covered(crypto, root, view) && Sharpens(crypto, at, TopState(view))
    requires pos < crypto.Size() && OneBit(c) && at[pos] == c && Several(c)
    ensures var top := TopState(view);
      Covered(crypto, root, view + [Guessed(Guess(pos, Choice(c, index), {}),
                                            Gfp(crypto, DEFAULT_PRIORITY, top[pos := Choice(c, index)]))]) <==>
        forall a :: Solution(crypto, DEFAULT_PRIORITY, a) && Allowed(root, a) ==>
          (Allowed(at[pos := Choice(c, !index)], a) ==> InAlternative(view, a))
  {
    hide Choice, Gfp, NoneEmpty, Several, OneBit, Solution, InAlternative;
    ChoicesCover(c);
    var top := TopState(view);
    var g := Guess(pos, Choice(c, index), {});
    var f := Guessed(g, Gfp(crypto, DEFAULT_PRIORITY, top[pos := g.first]));
    forall a | Solution(crypto, DEFAULT_PRIORITY, a) && Allowed(root, a)
      ensures InView(view + [f], a) <==> (Allowed(at[pos := Choice(c, !index)], a) ==> InAlternative(view, a))
    {
      AlternativePrefix(view, f, a);
      GfpKeepsSolutions(crypto, DEFAULT_PRIORITY, top[pos := g.first], a);
      assert InView(view, a);
      if Allowed(top, a) {
        assert Allowed(at, a);
        assert a[pos] in g.first || a[pos] in Choice(c, !index);
        assert Allowed(top[pos := g.first], a) <==> a[pos] in g.first;
        assert Allowed(at[pos := Choice(c, !index)], a) <==> a[pos] in Choice(c, !index);
      } else {
        assert InAlternative(view, a);
      }
    }
  }

  // ---- which probabilities keep all solutions ----

  /** A guess with a probability: the other choice is kept on the stack only strictly between 0 and 1, and the first
      choice is tried first unless the draw is above the probability. */
  ghost function Guessing(crypto: Crypto, view: seq<Frame>, at: State, pos: nat, c: Cond, probability: real, draw: real,
                          stored: bool): seq<Frame>
    requires crypto.Valid() && view != [] && SizesOk(crypto, view) && |at| == crypto.Size() && pos < crypto.Size()
  {
    AfterGuess(crypto, view, at, pos, c, probability < draw, 0.0 < probability < 1.0, stored)
  }

  /** A stack that covers the solutions of its root, and a state in place of its top with a condition of several values
      to guess. */
  ghost predicate Guessable(crypto: Crypto, root: State, view: seq<Frame>, at: State, pos: nat, c: Cond) {
    && crypto.Valid() && view != [] && ViewOk(crypto, view) && SizesOk(crypto, view) && Covered(crypto, root, view)
    && Sharpens(crypto, at, TopState(view)) && |at| == crypto.Size()
    && pos < crypto.Size() && OneBit(c) && at[pos] == c && Several(c)
  }

  /** One bit, no steps. */
  function FreeBit(): Crypto {
    Crypto([], [1])
  }

  lemma FreeBitFacts(conds: State)
    requires |conds| == 1
    ensures FreeBit().Valid() && Gfp(FreeBit(), DEFAULT_PRIORITY, conds) == conds
    ensures forall a :: Solution(FreeBit(), DEFAULT_PRIORITY, a) <==> |a| == 1
  {
    StepFreeGfp(FreeBit(), DEFAULT_PRIORITY, conds);
  }

  const DASH: Cond := {0, 3}

  /** With a probability of 0 or 1 a single bit with condition `-` loses a solution, whatever the draw. */
  lemma ChoiceLost(probability: real, draw: real, stored: bool)
    requires !(0.0 < probability < 1.0)
    ensures Guessable(FreeBit(), [DASH], [Push([DASH], 0)], [DASH], 0, DASH)
    ensures var a := if probability < draw then 0 else 3;
      && Solution(FreeBit(), DEFAULT_PRIORITY, [a]) && Allowed([DASH], [a])
      && !InView(Guessing(FreeBit(), [Push([DASH], 0)], [DASH], 0, DASH, probability, draw, stored), [a])
  {
    var index := probability < draw;
    var a := if index then 0 else 3;
    FreeBitGuessable();
    FreeBitFacts([DASH]);
    FreeBitGuess(index, stored);
    NotInGuess(index, a);
    hide Gfp, Choice, Crypto.Valid, Solution, AfterGuess, InView, Guessable;
  }

  lemma FreeBitGuessable()
    ensures Guessable(FreeBit(), [DASH], [Push([DASH], 0)], [DASH], 0, DASH)
  {
    FreeBitFacts([DASH]);
    assert 0 in DASH && 3 in DASH;
    hide Gfp, Choice, Solution;
  }

  lemma FreeBitGuess(index: bool, stored: bool)
    ensures FreeBit().Valid() && AfterGuess(FreeBit(), [Push([DASH], 0)], [DASH], 0, DASH, index, false, stored) ==
      [Push([DASH], 0), Guessed(Guess(0, if index then {3} else {0}, {}), [if index then {3} else {0}])]
  {
    DashChoices();
    var c: Cond := if index then {3} else {0};
    FreeBitFacts([c]);
    hide Gfp, Choice;
    assert [DASH][0 := c] == [c] && c != {};
  }

  lemma NotInGuess(index: bool, a: nat)
    requires a == if index then 0 else 3
    ensures !InView([Push([DASH], 0), Guessed(Guess(0, if index then {3} else {0}, {}), [if index then {3} else {0}])], [a])
  {
    var c: Cond := if index then {3} else {0};
    var view := [Push([DASH], 0), Guessed(Guess(0, c, {}), [c])];
    assert TopState(view) == [c];
    assert [c][0] == c && [a][0] == a && a !in c;
    forall k | 0 < k < |view| ensures !InOther(view[k - 1].state, view[k], [a]) {
    }
  }

  lemma DashChoices()
    ensures Choice(DASH, false) == {0} && Choice(DASH, true) == {3}
  {
    assert CodeOf(DASH) == 9 && ChoiceCode(9, false) == 1 && ChoiceCode(9, true) == 8;
  }

  /** Guesses lose no solution from any covered state, whatever the draw, exactly if the probability lies strictly
      between 0 and 1. */
  lemma KeepsAllExactly(probability: real)
    ensures 0.0 < probability < 1.0 <==>
      forall crypto: Crypto, root: State, view: seq<Frame>, at: State, pos: nat, c: Cond, draw: real, stored: bool ::
        Guessable(crypto, root, view, at, pos, c) && 0.0 <= draw < 1.0 ==>
          Covered(crypto, root, Guessing(crypto, view, at, pos, c, probability, draw, stored))
  {
    hide AfterGuess, Covered, ViewOk, SizesOk, Several, OneBit, Sharpens;
    if 0.0 < probability < 1.0 {
      forall crypto: Crypto, root: State, view: seq<Frame>, at: State, pos: nat, c: Cond, draw: real, stored: bool |
        Guessable(crypto, root, view, at, pos, c) && 0.0 <= draw < 1.0
        ensures Covered(crypto, root, Guessing(crypto, view, at, pos, c, probability, draw, stored))
      {
        AfterGuessCovers(crypto, root, view, at, pos, c, probability < draw, stored);
      }
    } else {
      ChoiceLost(probability, 0.5, false);
      NotCovered(FreeBit(), [DASH], Guessing(FreeBit(), [Push([DASH], 0)], [DASH], 0, DASH, probability, 0.5, false),
                 [if probability < 0.5 then 0 else 3]);
    }
  }

  lemma NotCovered(crypto: Crypto, root: State, view: seq<Frame>, a: seq<nat>)
    requires crypto.Valid() && Solution(crypto, DEFAULT_PRIORITY, a) && Allowed(root, a) && !InView(view, a)
    ensures !Covered(crypto, root, view)
  {
  }

  // ---- backtracking ----

  /** Dropping guesses loses no solution: what their alternatives allow the state below allows. */
  lemma DroppedCovers(crypto: Crypto, root: State, view: seq<Frame>, n: nat)
    requires crypto.Valid() && ViewOk(crypto, view) && view[0].Push? && Covered(crypto, root, view)
    ensures Dropped(view, n) != [] && Dropped(view, n) <= view && ViewOk(crypto, Dropped(view, n))
    ensures Covered(crypto, root, Dropped(view, n))
  {
    hide Solution, FrameOk, Dropped, GuessCount;
    DroppedCount(view, n);
    var w := Dropped(view, n);
    assert w == view[..|w|];
    ViewPrefix(crypto, view, |w|);
    forall a | Solution(crypto, DEFAULT_PRIORITY, a) && Allowed(root, a) ensures InView(w, a) {
      PrefixCovers(crypto, view, |w|, a);
    }
  }

  lemma PrefixCovers(crypto: Crypto, view: seq<Frame>, n: nat, a: seq<nat>)
    requires crypto.Valid() && ViewOk(crypto, view) && 0 < n <= |view| && InView(view, a)
    ensures InView(view[..n], a)
  {
    hide FrameOk, InOther, Allowed;
    var w := view[..n];
    if Allowed(TopState(view), a) {
      LowerAllows(crypto, view, n - 1, |view| - 1, a);
    } else {
      var k :| 0 < k < |view| && InOther(view[k - 1].state, view[k], a);
      if k < n {
        assert InOther(w[k - 1].state, w[k], a);
      } else {
        assert FrameOk(crypto, view[k - 1].state, view[k]);
        OtherBelow(crypto, view[k - 1].state, view[k], a);
        LowerAllows(crypto, view, n - 1, k - 1, a);
      }
    }
  }

  /** Going to another choice from a refuted state loses no solution. Running out of guesses means that the root
      has no solution. */
  lemma {:induction false} OtherChoiceCovers(crypto: Crypto, root: State, view: seq<Frame>)
    requires crypto.Valid() && ViewOk(crypto, view) && view[0].Push? && Refuted(crypto, root, view)
    ensures var w := OtherChoice(crypto, view);
            w != [] && w[0].Push? && ViewOk(crypto, w) && Covered(crypto, root, w)
            && (GuessCount(w) == 0 ==> NoSolution(crypto, root))
    decreases |view|, 0
  {
    hide Solution, FrameOk, InOther, Gfp, NoneEmpty;
    BottomCount(view);
    if GuessCount(view) == 0 {
      forall a | Solution(crypto, DEFAULT_PRIORITY, a) ensures !Allowed(root, a) {
        NoAlternative(view, a);
      }
    } else {
      var rest, top := view[..|view| - 1], view[|view| - 1];
      assert view == rest + [top];
      ViewPrefix(crypto, view, |rest|);
      OtherChoiceStep(crypto, root, rest, top);
    }
  }

  lemma BottomCount(view: seq<Frame>)
    requires view != [] && view[0].Push?
    ensures |view| == 1 ==> GuessCount(view) == 0
  {
    if |view| == 1 {
      assert view[..0] == [];
    }
  }

  lemma OtherChoiceStep(crypto: Crypto, root: State, rest: seq<Frame>, top: Frame)
    requires crypto.Valid() && rest != [] && ViewOk(crypto, rest + [top]) && ViewOk(crypto, rest) && rest[0].Push?
    requires Refuted(crypto, root, rest + [top]) && GuessCount(rest + [top]) > 0
    ensures var w := OtherChoice(crypto, rest + [top]);
            w != [] && w[0].Push? && ViewOk(crypto, w) && Covered(crypto, root, w)
            && (GuessCount(w) == 0 ==> NoSolution(crypto, root))
    decreases |rest|, 1
  {
    hide Solution, FrameOk, InOther, Gfp, NoneEmpty;
    var view := rest + [top];
    assert view[..|view| - 1] == rest;
    if top.Push? || top.guess.second == {} {
      RestRefuted(crypto, root, rest, top);
      OtherChoiceCovers(crypto, root, rest);
    } else {
      assert FrameOk(crypto, TopState(rest), top);
      GuessInside(crypto, TopState(rest), top);
      var next := Gfp(crypto, DEFAULT_PRIORITY, TopState(rest)[top.guess.pos := top.guess.second]);
      if NoneEmpty(next) {
        OtherTaken(crypto, root, rest, top);
      } else {
        RestRefuted(crypto, root, rest, top);
        OtherChoiceCovers(crypto, root, rest);
      }
    }
  }

  lemma GuessInside(crypto: Crypto, below: State, f: Frame)
    requires crypto.Valid() && |below| == crypto.Size() && FrameOk(crypto, below, f) && f.Guessed?
    ensures f.guess.pos < crypto.Size()
  {
  }

  /** A top frame without a possible other choice holds no solution. */
  lemma RestRefuted(crypto: Crypto, root: State, rest: seq<Frame>, top: Frame)
    requires crypto.Valid() && rest != [] && ViewOk(crypto, rest + [top]) && ViewOk(crypto, rest)
    requires Refuted(crypto, root, rest + [top])
    requires top.Push? || top.guess.second == {} || (top.guess.pos < crypto.Size() &&
      !NoneEmpty(Gfp(crypto, DEFAULT_PRIORITY, TopState(rest)[top.guess.pos := top.guess.second])))
    ensures Refuted(crypto, root, rest)
  {
    hide Solution, FrameOk, Gfp, NoneEmpty, InAlternative;
    forall a | Solution(crypto, DEFAULT_PRIORITY, a) && Allowed(root, a) ensures InAlternative(rest, a) {
      AlternativePrefix(rest, top, a);
      if top.Guessed? && top.guess.second != {} {
        EmptiedNoSolution(crypto, DEFAULT_PRIORITY, TopState(rest)[top.guess.pos := top.guess.second], a);
      }
    }
  }

  /** Taking the other choice of the top guess covers what that alternative covered. */
  lemma OtherTaken(crypto: Crypto, root: State, rest: seq<Frame>, top: Frame)
    requires crypto.Valid() && rest != [] && ViewOk(crypto, rest + [top]) && ViewOk(crypto, rest)
    requires Refuted(crypto, root, rest + [top]) && FrameOk(crypto, TopState(rest), top)
    requires top.Guessed? && top.guess.second != {} && top.guess.pos < crypto.Size()
    requires NoneEmpty(Gfp(crypto, DEFAULT_PRIORITY, TopState(rest)[top.guess.pos := top.guess.second]))
    ensures var next := Gfp(crypto, DEFAULT_PRIORITY, TopState(rest)[top.guess.pos := top.guess.second]);
            var w := rest + [Guessed(Guess(top.guess.pos, top.guess.second, {}), next)];
            ViewOk(crypto, w) && Covered(crypto, root, w) && GuessCount(w) > 0
  {
    hide Solution, Gfp, NoneEmpty, InAlternative;
    var other := TopState(rest)[top.guess.pos := top.guess.second];
    var next := Gfp(crypto, DEFAULT_PRIORITY, other);
    var f := Guessed(Guess(top.guess.pos, top.guess.second, {}), next);
    GfpBelow(crypto, DEFAULT_PRIORITY, other);
    LeqTransitive(next, other, TopState(rest));
    ViewExtend(crypto, rest, f);
    assert (rest + [f])[..|rest|] == rest;
    forall a | Solution(crypto, DEFAULT_PRIORITY, a) && Allowed(root, a) ensures InView(rest + [f], a) {
      AlternativePrefix(rest, top, a);
      AlternativePrefix(rest, f, a);
      GfpKeepsSolutions(crypto, DEFAULT_PRIORITY, other, a);
    }
  }

  lemma PushNoOther(below: State, f: Frame, a: seq<nat>)
    requires f.Push?
    ensures !InOther(below, f, a)
  {
  }

  lemma {:induction false} NoAlternative(view: seq<Frame>, a: seq<nat>)
    requires GuessCount(view) == 0
    ensures !InAlternative(view, a)
  {
    hide InOther;
    if |view| > 1 {
      var rest, top := view[..|view| - 1], view[|view| - 1];
      NoAlternative(rest, a);
      assert view == rest + [top];
      AlternativePrefix(rest, top, a);
      PushNoOther(TopState(rest), top, a);
    }
  }

  /** A new phase starts with a copy of the state of the search. */
  lemma PushCovers(crypto: Crypto, root: State, view: seq<Frame>, at: State, phase: int)
    requires crypto.Valid() && ViewOk(crypto, view) && Sharpens(crypto, at, TopState(view))
    ensures ViewOk(crypto, view + [Push(at, phase)]) && Sharpens(crypto, at, TopState(view + [Push(at, phase)]))
    ensures Covered(crypto, root, view) <==> Covered(crypto, root, view + [Push(at, phase)])
  {
    SharpenedCovers(crypto, root, view, at, phase);
    SharpensSame(crypto, at);
  }

  lemma RefutedCovered(crypto: Crypto, root: State, view: seq<Frame>)
    requires crypto.Valid() && view != [] && Refuted(crypto, root, view)
    ensures Covered(crypto, root, view)
  {
    hide Solution, InAlternative;
  }
}
