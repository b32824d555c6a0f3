/** The search stack: a full state only every `frequency` guesses, the states between them replayed
    (src/search_stack.cpp, src/search_stack.h). */
module SearchStacks {
  import opened BitsliceFunctions
  import opened Bitslices
  import opened Cryptos
  import opened Worklists
  import opened Characteristics
  import opened PlainStacks

  /** A full state and the guesses after it. */
  datatype StackElement = StackElement(state: State, guesses: seq<Guess>, phase: int)

  /** The plain frames of the guesses of one element. */
  ghost function GuessFrames(crypto: Crypto, state: State, guesses: seq<Guess>): (r: seq<Frame>)
    requires crypto.Valid() && |state| == crypto.Size()
    ensures |r| == |guesses|
    ensures forall k :: 0 <= k < |r| ==> r[k].Guessed? && |r[k].state| == crypto.Size()
  {
    if guesses == [] then []
    else
      var n := |guesses| - 1;
      GuessFrames(crypto, state, guesses[..n]) + [Guessed(guesses[n], Replayed(crypto, state, guesses))]
  }

  /** A copy made because of the frequency stands for nothing new; any other element for a pushed state. */
  ghost function ElementFrames(crypto: Crypto, e: StackElement, copy: bool): (r: seq<Frame>)
    requires crypto.Valid() && |e.state| == crypto.Size()
    ensures forall k :: 0 <= k < |r| ==> |r[k].state| == crypto.Size()
  {
    (if copy then [] else [Push(e.state, e.phase)]) + GuessFrames(crypto, e.state, e.guesses)
  }

  ghost predicate ElementOk(crypto: Crypto, e: StackElement)
    requires crypto.Valid()
  {
    StateOk(crypto, e.state) && GuessesOk(crypto, e.state, e.guesses)
  }

  /** The state of a copy is the state that the guesses below it lead to. */
  ghost predicate CopyOk(crypto: Crypto, below: StackElement, e: StackElement)
    requires crypto.Valid() && |below.state| == crypto.Size()
  {
    below.guesses != [] && e.state == Replayed(crypto, below.state, below.guesses) && e.phase == below.phase
  }

  ghost predicate StackOk(crypto: Crypto, stack: seq<StackElement>, copies: seq<bool>)
    requires crypto.Valid()
  {
    && |copies| == |stack|
    && (forall k :: 0 <= k < |stack| ==> ElementOk(crypto, stack[k]))
    && (forall k :: 0 <= k < |stack| && copies[k] ==> k > 0 && CopyOk(crypto, stack[k - 1], stack[k]))
  }

  /** The plain stack that the elements stand for. */
  ghost function Plain(crypto: Crypto, stack: seq<StackElement>, copies: seq<bool>): (r: seq<Frame>)
    requires crypto.Valid() && StackOk(crypto, stack, copies)
    ensures forall k :: 0 <= k < |r| ==> |r[k].state| == crypto.Size()
  {
    if stack == [] then []
    else
      var n := |stack| - 1;
      Plain(crypto, stack[..n], copies[..n]) + ElementFrames(crypto, stack[n], copies[n])
  }

  // ---- what the plain stack looks like at the top element ----

  lemma StackPrefix(crypto: Crypto, stack: seq<StackElement>, copies: seq<bool>, n: nat)
    requires crypto.Valid() && StackOk(crypto, stack, copies) && n <= |stack|
    ensures StackOk(crypto, stack[..n], copies[..n])
  {
    hide ElementOk, CopyOk;
  }

  lemma PlainAppend(crypto: Crypto, stack: seq<StackElement>, copies: seq<bool>, e: StackElement, copy: bool)
    requires crypto.Valid() && StackOk(crypto, stack, copies) && ElementOk(crypto, e)
    requires copy ==> stack != [] && CopyOk(crypto, stack[|stack| - 1], e)
    ensures StackOk(crypto, stack + [e], copies + [copy])
    ensures Plain(crypto, stack + [e], copies + [copy]) == Plain(crypto, stack, copies) + ElementFrames(crypto, e, copy)
  {
    StackAppend(crypto, stack, copies, e, copy);
    hide ElementOk, CopyOk, ElementFrames, StackOk;
    var s, c := stack + [e], copies + [copy];
    assert |stack| == |copies| by {
      StackSizes(crypto, stack, copies);
    }
    assert s[..|stack|] == stack && c[..|stack|] == copies;
  }

  lemma StackSizes(crypto: Crypto, stack: seq<StackElement>, copies: seq<bool>)
    requires crypto.Valid() && StackOk(crypto, stack, copies)
    ensures |copies| == |stack|
  {
  }

  lemma StackAppend(crypto: Crypto, stack: seq<StackElement>, copies: seq<bool>, e: StackElement, copy: bool)
    requires crypto.Valid() && StackOk(crypto, stack, copies) && ElementOk(crypto, e)
    requires copy ==> stack != [] && CopyOk(crypto, stack[|stack| - 1], e)
    ensures StackOk(crypto, stack + [e], copies + [copy])
  {
    hide ElementOk, CopyOk;
    var s, c, n := stack + [e], copies + [copy], |stack|;
    forall k | 0 <= k < |s| ensures ElementOk(crypto, s[k]) && |s[k].state| == crypto.Size() {
      assert s[k] == if k < n then stack[k] else e;
      ElementSize(crypto, s[k]);
    }
    forall k | 0 <= k < |s| && c[k] ensures k > 0 && CopyOk(crypto, s[k - 1], s[k]) {
      if k < n {
        assert copies[k] && s[k] == stack[k] && s[k - 1] == stack[k - 1];
      } else {
        assert s[k] == e && s[k - 1] == stack[n - 1];
      }
    }
  }

  lemma ElementSize(crypto: Crypto, e: StackElement)
    requires crypto.Valid() && ElementOk(crypto, e)
    ensures |e.state| == crypto.Size()
  {
  }

  /** Replacing the guesses of the top element by some of its first ones, or by more of them. */
  lemma PlainGuesses(crypto: Crypto, stack: seq<StackElement>, copies: seq<bool>, guesses: seq<Guess>)
    requires crypto.Valid() && StackOk(crypto, stack, copies) && stack != []
    requires GuessesOk(crypto, stack[|stack| - 1].state, guesses)
    ensures var n := |stack| - 1;
            var e := stack[n].(guesses := guesses);
            StackOk(crypto, stack[..n] + [e], copies) && StackOk(crypto, stack[..n], copies[..n])
            && Plain(crypto, stack[..n] + [e], copies) ==
               Plain(crypto, stack[..n], copies[..n]) + ElementFrames(crypto, e, copies[n])
  {
    hide ElementFrames, GuessesOk, StateOk;
    var n := |stack| - 1;
    var e := stack[n].(guesses := guesses);
    StackPrefix(crypto, stack, copies, n);
    assert ElementOk(crypto, stack[n]);
    PlainAppend(crypto, stack[..n], copies[..n], e, copies[n]);
    assert copies[..n] + [copies[n]] == copies;
  }

  lemma ElementShape(crypto: Crypto, stack: seq<StackElement>, copies: seq<bool>)
    requires crypto.Valid() && StackOk(crypto, stack, copies)
    ensures forall k :: 0 <= k < |stack| ==> |stack[k].state| == crypto.Size()
  {
    hide NoneEmpty, AllFixed, GuessesOk, CopyOk, FitsBits;
    forall k | 0 <= k < |stack| ensures |stack[k].state| == crypto.Size() {
      assert ElementOk(crypto, stack[k]);
    }
  }

  lemma TopOfElement(crypto: Crypto, below: seq<Frame>, e: StackElement, copy: bool)
    requires crypto.Valid() && ElementOk(crypto, e) && |e.state| == crypto.Size()
    requires copy ==> below != [] && TopState(below) == e.state && TopPhase(below) == e.phase
    ensures var view := below + ElementFrames(crypto, e, copy);
            view != [] && TopState(view) == Replayed(crypto, e.state, e.guesses) && TopPhase(view) == e.phase
  {
    hide Replayed, GuessesOk, StateOk;
    ReplayedNone(crypto, e.state);
    var v := below + if copy then [] else [Push(e.state, e.phase)];
    PhaseAppend(v, GuessFrames(crypto, e.state, e.guesses));
    assert below + ElementFrames(crypto, e, copy) == v + GuessFrames(crypto, e.state, e.guesses);
    if copy {
      assert v == below;
    } else {
      assert v[|v| - 1] == Push(e.state, e.phase);
    }
  }

  /** The top frame of the plain stack holds the state that the guesses of the top element lead to. */
  lemma {:induction false} PlainTop(crypto: Crypto, stack: seq<StackElement>, copies: seq<bool>)
    requires crypto.Valid() && StackOk(crypto, stack, copies) && stack != []
    ensures |stack[|stack| - 1].state| == crypto.Size()
    ensures var e := stack[|stack| - 1];
            var view := Plain(crypto, stack, copies);
            && view != [] && TopState(view) == Replayed(crypto, e.state, e.guesses)
            && TopPhase(view) == e.phase && view[0].Push?
  {
    var n := |stack| - 1;
    var e := stack[n];
    ElementShape(crypto, stack, copies);
    CopyBelow(crypto, stack, copies);
    BottomPush(crypto, stack, copies);
    StackPrefix(crypto, stack, copies, n);
    assert ElementOk(crypto, e) && |copies| == |stack|;
    hide Replayed, ElementOk, CopyOk, ElementFrames, TopPhase, StackOk;
    if n > 0 {
      PlainTop(crypto, stack[..n], copies[..n]);
      assert stack[..n][|stack[..n]| - 1] == stack[n - 1];
    }
    TopOfElement(crypto, Plain(crypto, stack[..n], copies[..n]), e, copies[n]);
  }

  lemma CopyBelow(crypto: Crypto, stack: seq<StackElement>, copies: seq<bool>)
    requires crypto.Valid() && StackOk(crypto, stack, copies) && stack != []
    requires forall k :: 0 <= k < |stack| ==> |stack[k].state| == crypto.Size()
    ensures var n := |stack| - 1;
            copies[n] ==> n > 0 && stack[n].state == Replayed(crypto, stack[n - 1].state, stack[n - 1].guesses)
                          && stack[n].phase == stack[n - 1].phase
  {
    hide Replayed, ElementOk;
    var n := |stack| - 1;
    if copies[n] {
      assert CopyOk(crypto, stack[n - 1], stack[n]);
    }
  }

  lemma BottomPush(crypto: Crypto, stack: seq<StackElement>, copies: seq<bool>)
    requires crypto.Valid() && StackOk(crypto, stack, copies) && |stack| > 0
    ensures |stack| == 1 ==> Plain(crypto, stack, copies) != [] && Plain(crypto, stack, copies)[0].Push?
  {
    hide Replayed, ElementOk, CopyOk;
  }

  lemma {:induction false} PhaseAppend(v: seq<Frame>, w: seq<Frame>)
    requires forall k :: 0 <= k < |w| ==> w[k].Guessed?
    ensures TopPhase(v + w) == TopPhase(v)
  {
    if w == [] {
      assert v + w == v;
    } else {
      PhaseAppend(v, w[..|w| - 1]);
      assert (v + w)[..|v + w| - 1] == v + w[..|w| - 1];
    }
  }

  lemma {:induction false} GuessFramesCount(crypto: Crypto, state: State, guesses: seq<Guess>)
    requires crypto.Valid() && |state| == crypto.Size()
    ensures GuessCount(GuessFrames(crypto, state, guesses)) == |guesses|
  {
    hide Replayed;
    if guesses != [] {
      GuessFramesCount(crypto, state, guesses[..|guesses| - 1]);
      var f := GuessFrames(crypto, state, guesses);
      assert f[..|f| - 1] == GuessFrames(crypto, state, guesses[..|guesses| - 1]);
    }
  }

  /** Sum of the sizes of the guess lists. */
  function GuessSum(stack: seq<StackElement>): nat {
    if stack == [] then 0 else GuessSum(stack[..|stack| - 1]) + |stack[|stack| - 1].guesses|
  }

  lemma {:induction false} GuessSumCount(crypto: Crypto, stack: seq<StackElement>, copies: seq<bool>)
    requires crypto.Valid() && StackOk(crypto, stack, copies)
    ensures GuessCount(Plain(crypto, stack, copies)) == GuessSum(stack)
  {
    hide Replayed, ElementOk, CopyOk;
    if stack != [] {
      var n := |stack| - 1;
      StackPrefix(crypto, stack, copies, n);
      GuessSumCount(crypto, stack[..n], copies[..n]);
      var e := stack[n];
      ElementShape(crypto, stack, copies);
      ElementCount(crypto, e, copies[n]);
      hide StackOk, ElementFrames;
      GuessCountAppend(Plain(crypto, stack[..n], copies[..n]), ElementFrames(crypto, e, copies[n]));
    }
  }

  lemma ElementCount(crypto: Crypto, e: StackElement, copy: bool)
    requires crypto.Valid() && |e.state| == crypto.Size()
    ensures GuessCount(ElementFrames(crypto, e, copy)) == |e.guesses|
  {
    GuessFramesCount(crypto, e.state, e.guesses);
    hide GuessFrames;
    var push := if copy then [] else [Push(e.state, e.phase)];
    GuessCountAppend(push, GuessFrames(crypto, e.state, e.guesses));
    assert GuessCount(push) == 0 by {
      assert push == [] || push[..0] == [];
    }
  }

  // ---- dropping guesses ----

  lemma {:induction false} DroppedGuesses(crypto: Crypto, v: seq<Frame>, state: State, guesses: seq<Guess>, n: nat)
    requires crypto.Valid() && |state| == crypto.Size() && v != []
    ensures n <= |guesses| ==>
      Dropped(v + GuessFrames(crypto, state, guesses), n) == v + GuessFrames(crypto, state, guesses[..|guesses| - n])
    ensures n >= |guesses| ==> Dropped(v + GuessFrames(crypto, state, guesses), n) == Dropped(v, n - |guesses|)
  {
    hide Replayed;
    if n == 0 {
      assert guesses[..|guesses|] == guesses;
      if guesses == [] { assert v + GuessFrames(crypto, state, guesses) == v; }
    } else if guesses == [] {
      assert v + GuessFrames(crypto, state, guesses) == v;
    } else {
      var m := |guesses| - 1;
      var f := v + GuessFrames(crypto, state, guesses);
      assert f[..|f| - 1] == v + GuessFrames(crypto, state, guesses[..m]);
      DroppedGuesses(crypto, v, state, guesses[..m], n - 1);
      if n <= |guesses| {
        assert guesses[..m][..m - (n - 1)] == guesses[..|guesses| - n];
      }
    }
  }

  /** Dropping more guesses than the top element has drops the element. */
  lemma DroppedElement(crypto: Crypto, stack: seq<StackElement>, copies: seq<bool>, n: nat)
    requires crypto.Valid() && StackOk(crypto, stack, copies) && |stack| > 1 && n > |stack[|stack| - 1].guesses|
    ensures StackOk(crypto, stack[..|stack| - 1], copies[..|stack| - 1])
    ensures Dropped(Plain(crypto, stack, copies), n) ==
            Dropped(Plain(crypto, stack[..|stack| - 1], copies[..|stack| - 1]), n - |stack[|stack| - 1].guesses|)
  {
    hide Replayed, ElementOk, CopyOk, Dropped;
    var m := |stack| - 1;
    var e := stack[m];
    ElementShape(crypto, stack, copies);
    StackPrefix(crypto, stack, copies, m);
    PlainTop(crypto, stack[..m], copies[..m]);
    var below := Plain(crypto, stack[..m], copies[..m]);
    assert Plain(crypto, stack, copies) == below + ElementFrames(crypto, e, copies[m]);
    hide Plain, GuessFrames;
    if copies[m] {
      DroppedGuesses(crypto, below, e.state, e.guesses, n);
      assert below + ElementFrames(crypto, e, true) == below + GuessFrames(crypto, e.state, e.guesses);
    } else {
      var v := below + [Push(e.state, e.phase)];
      DroppedGuesses(crypto, v, e.state, e.guesses, n);
      assert below + ElementFrames(crypto, e, false) == v + GuessFrames(crypto, e.state, e.guesses);
      DroppedPush(below, e.state, e.phase, n - |e.guesses|);
    }
  }

  lemma DroppedPush(v: seq<Frame>, state: State, phase: int, n: nat)
    requires v != [] && n > 0
    ensures Dropped(v + [Push(state, phase)], n) == Dropped(v, n)
  {
    var w := v + [Push(state, phase)];
    assert w[..|w| - 1] == v;
  }

  // ---- taking and adding a guess at the top element ----

  /** A top element without guesses may go: a copy stands for nothing, and a pushed state has no guess above it. */
  lemma BackEmpty(crypto: Crypto, stack: seq<StackElement>, copies: seq<bool>)
    requires crypto.Valid() && StackOk(crypto, stack, copies) && GuessSum(stack) > 0
    requires stack != [] && stack[|stack| - 1].guesses == []
    requires |copies| == |stack|
    ensures StackOk(crypto, stack[..|stack| - 1], copies[..|stack| - 1])
    ensures GuessSum(stack[..|stack| - 1]) == GuessSum(stack)
    ensures Stripped(Plain(crypto, stack[..|stack| - 1], copies[..|stack| - 1])) == Stripped(Plain(crypto, stack, copies))
  {
    hide Replayed, ElementOk, CopyOk, Stripped, GuessSum, ElementFrames;
    var n := |stack| - 1;
    var e := stack[n];
    SumEmpty(stack);
    ElementShape(crypto, stack, copies);
    StackPrefix(crypto, stack, copies, n);
    StrippedElement(crypto, Plain(crypto, stack[..n], copies[..n]), e, copies[n]);
  }

  lemma SumEmpty(stack: seq<StackElement>)
    requires stack != [] && stack[|stack| - 1].guesses == []
    ensures GuessSum(stack[..|stack| - 1]) == GuessSum(stack)
  {
  }

  lemma StrippedElement(crypto: Crypto, below: seq<Frame>, e: StackElement, copy: bool)
    requires crypto.Valid() && |e.state| == crypto.Size() && e.guesses == []
    ensures Stripped(below + ElementFrames(crypto, e, copy)) == Stripped(below)
  {
    var v := below + ElementFrames(crypto, e, copy);
    if copy {
      assert v == below;
    } else {
      assert v == below + [Push(e.state, e.phase)];
      assert v[..|v| - 1] == below;
    }
  }

  lemma TakeOk(crypto: Crypto, e: StackElement)
    requires crypto.Valid() && ElementOk(crypto, e) && |e.state| == crypto.Size() && e.guesses != []
    ensures var n := |e.guesses| - 1;
            && GuessesOk(crypto, e.state, e.guesses[..n])
            && GuessOk(crypto, Replayed(crypto, e.state, e.guesses[..n]), e.guesses[n])
            && ElementFrames(crypto, e, true) ==
               ElementFrames(crypto, e.(guesses := e.guesses[..n]), true)
               + [Guessed(e.guesses[n], Replayed(crypto, e.state, e.guesses))]
            && ElementFrames(crypto, e, false) ==
               ElementFrames(crypto, e.(guesses := e.guesses[..n]), false)
               + [Guessed(e.guesses[n], Replayed(crypto, e.state, e.guesses))]
  {
    hide Replayed, StateOk, GuessOk;
    GuessesPrefix(crypto, e.state, e.guesses, |e.guesses| - 1);
  }

  /** Removing the last guess of the top element removes the top frame. */
  lemma BackTake(crypto: Crypto, stack: seq<StackElement>, copies: seq<bool>)
    requires crypto.Valid() && StackOk(crypto, stack, copies)
    requires stack != [] && stack[|stack| - 1].guesses != []
    ensures var n := |stack| - 1;
            var e := stack[n];
            var m := |e.guesses| - 1;
            var next := stack[..n] + [e.(guesses := e.guesses[..m])];
            && |e.state| == crypto.Size() && StackOk(crypto, next, copies) && GuessSum(next) == GuessSum(stack) - 1
            && Plain(crypto, stack, copies) ==
               Plain(crypto, next, copies) + [Guessed(e.guesses[m], Replayed(crypto, e.state, e.guesses))]
            && Plain(crypto, next, copies) != []
            && GuessOk(crypto, TopState(Plain(crypto, next, copies)), e.guesses[m])
  {
    hide Replayed, ElementOk, CopyOk, GuessOk, ElementFrames;
    var n := |stack| - 1;
    var e := stack[n];
    var m := |e.guesses| - 1;
    ElementShape(crypto, stack, copies);
    assert ElementOk(crypto, e);
    TakeOk(crypto, e);
    PlainGuesses(crypto, stack, copies, e.guesses[..m]);
    var next := stack[..n] + [e.(guesses := e.guesses[..m])];
    assert next[..n] == stack[..n];
    PlainTop(crypto, next, copies);
  }

  lemma AddOk(crypto: Crypto, e: StackElement, g: Guess)
    requires crypto.Valid() && ElementOk(crypto, e) && |e.state| == crypto.Size()
    requires GuessOk(crypto, Replayed(crypto, e.state, e.guesses), g)
    ensures var r := Replayed(crypto, e.state, e.guesses + [g]);
            && ElementOk(crypto, e.(guesses := e.guesses + [g]))
            && r == Gfp(crypto, DEFAULT_PRIORITY, Replayed(crypto, e.state, e.guesses)[g.pos := g.first])
            && StateOk(crypto, r)
  {
    hide Replayed, StateOk, GuessOk, GuessesOk;
    GuessesExtend(crypto, e.state, e.guesses, g);
    ReplayedExtend(crypto, e.state, e.guesses, g);
    ReplayedOk(crypto, e.state, e.guesses + [g]);
  }

  lemma AddFrames(crypto: Crypto, e: StackElement, g: Guess, copy: bool)
    requires crypto.Valid() && |e.state| == crypto.Size() && ElementOk(crypto, e.(guesses := e.guesses + [g]))
    ensures ElementFrames(crypto, e.(guesses := e.guesses + [g]), copy) ==
            ElementFrames(crypto, e, copy) + [Guessed(g, Replayed(crypto, e.state, e.guesses + [g]))]
  {
    hide Replayed, ElementOk, ElementFrames;
    var all := e.(guesses := e.guesses + [g]);
    TakeOk(crypto, all);
    assert all.(guesses := all.guesses[..|all.guesses| - 1]) == e;
  }

  /** What adding a guess does to the plain stack. */
  lemma AfterOpGuess(crypto: Crypto, view: seq<Frame>, g: Guess, c: State)
    requires crypto.Valid() && SizesOk(crypto, view) && OpOk(crypto, view, OpGuess(g, c)) && g.pos < crypto.Size()
    ensures AfterOp(crypto, view, OpGuess(g, c), false) == view + [Guessed(g, Next(crypto, view, g))]
    ensures AfterOp(crypto, view, OpGuess(g, c), true) ==
      view + [Guessed(g, Next(crypto, view, g))] + if c == Next(crypto, view, g) then [] else [Push(c, TopPhase(view))]
  {
    hide Gfp, TopPhase, StateOk, GuessOk;
    var v := view + [Guessed(g, Next(crypto, view, g))];
    assert v + [] == v;
  }

  /** A guess at the top element adds a frame. */
  lemma GuessFrame(crypto: Crypto, stack: seq<StackElement>, copies: seq<bool>, g: Guess)
    requires crypto.Valid() && StackOk(crypto, stack, copies) && stack != []
    requires Plain(crypto, stack, copies) != [] && GuessOk(crypto, TopState(Plain(crypto, stack, copies)), g)
    ensures |copies| == |stack| && g.pos < crypto.Size()
    ensures var n := |stack| - 1;
            var e := stack[n].(guesses := stack[n].guesses + [g]);
            var view := Plain(crypto, stack, copies);
            && ElementOk(crypto, e) && |e.state| == crypto.Size()
            && Replayed(crypto, e.state, e.guesses) == Next(crypto, view, g) && TopPhase(view) == e.phase
            && StackOk(crypto, stack[..n] + [e], copies)
            && Plain(crypto, stack[..n] + [e], copies) == view + [Guessed(g, Next(crypto, view, g))]
  {
    hide Replayed, ElementOk, CopyOk, GuessOk, ElementFrames, TopPhase, GuessesOk, StateOk, Gfp;
    var n := |stack| - 1;
    var e := stack[n].(guesses := stack[n].guesses + [g]);
    var view := Plain(crypto, stack, copies);
    ElementShape(crypto, stack, copies);
    PlainTop(crypto, stack, copies);
    assert ElementOk(crypto, stack[n]);
    GuessPos(crypto, TopState(view), g);
    assert Next(crypto, view, g) == Gfp(crypto, DEFAULT_PRIORITY, TopState(view)[g.pos := g.first]);
    AddOk(crypto, stack[n], g);
    AddFrames(crypto, stack[n], g, copies[n]);
    ElementGuesses(crypto, e);
    PlainGuesses(crypto, stack, copies, e.guesses);
    PlainUnfolds(crypto, stack, copies);
    hide Plain, StackOk, Next;
    AppendLast(Plain(crypto, stack[..n], copies[..n]), ElementFrames(crypto, stack[n], copies[n]),
               Guessed(g, Replayed(crypto, e.state, e.guesses)));
    assert Next(crypto, view, g) == Replayed(crypto, e.state, e.guesses);
  }

  lemma PlainUnfolds(crypto: Crypto, stack: seq<StackElement>, copies: seq<bool>)
    requires crypto.Valid() && StackOk(crypto, stack, copies) && stack != []
    ensures var n := |stack| - 1;
      && |copies| == |stack| && StackOk(crypto, stack[..n], copies[..n]) && |stack[n].state| == crypto.Size()
      && Plain(crypto, stack, copies) == Plain(crypto, stack[..n], copies[..n]) + ElementFrames(crypto, stack[n], copies[n])
  {
    ElementShape(crypto, stack, copies);
    StackPrefix(crypto, stack, copies, |stack| - 1);
    hide ElementOk, CopyOk, ElementFrames;
  }

  lemma AppendLast<T>(a: seq<T>, b: seq<T>, x: T)
    ensures a + (b + [x]) == a + b + [x]
  {
  }

  /** A guess at the top adds a frame; a copy of the resulting state above it adds nothing, another state stands for a
      pushed one. */
  lemma AddGuessFrames(crypto: Crypto, stack: seq<StackElement>, copies: seq<bool>, g: Guess, c: State)
    requires crypto.Valid() && StackOk(crypto, stack, copies) && stack != [] && StateOk(crypto, c)
    requires Plain(crypto, stack, copies) != [] && GuessOk(crypto, TopState(Plain(crypto, stack, copies)), g)
    ensures var n := |stack| - 1;
            var e := stack[n].(guesses := stack[n].guesses + [g]);
            var next, above := stack[..n] + [e], StackElement(c, [], e.phase);
            var view := Plain(crypto, stack, copies);
            var led := c == Next(crypto, view, g);
            && StackOk(crypto, next, copies)
            && Plain(crypto, next, copies) == AfterOp(crypto, view, OpGuess(g, c), false)
            && StackOk(crypto, next + [above], copies + [led])
            && Plain(crypto, next + [above], copies + [led]) == AfterOp(crypto, view, OpGuess(g, c), true)
  {
    GuessFrame(crypto, stack, copies, g);
    var n := |stack| - 1;
    var e := stack[n].(guesses := stack[n].guesses + [g]);
    var next, above := stack[..n] + [e], StackElement(c, [], e.phase);
    var view := Plain(crypto, stack, copies);
    AfterOpGuess(crypto, view, g, c);
    PushedElement(crypto, above);
    hide Replayed, ElementOk, CopyOk, GuessOk, ElementFrames, TopPhase, StateOk, Gfp, Plain, StackOk, AfterOp, OpOk;
    if c == Next(crypto, view, g) {
      CopyFacts(crypto, e, above);
      PlainAppend(crypto, next, copies, above, true);
    } else {
      PlainAppend(crypto, next, copies, above, false);
    }
  }

  lemma PushedElement(crypto: Crypto, e: StackElement)
    requires crypto.Valid() && e.guesses == [] && StateOk(crypto, e.state)
    ensures ElementOk(crypto, e) && |e.state| == crypto.Size() && ElementFrames(crypto, e, false) == [Push(e.state, e.phase)]
  {
  }

  lemma ElementGuesses(crypto: Crypto, e: StackElement)
    requires crypto.Valid() && ElementOk(crypto, e) && |e.state| == crypto.Size()
    ensures GuessesOk(crypto, e.state, e.guesses)
  {
  }

  lemma CopyFacts(crypto: Crypto, e: StackElement, copy: StackElement)
    requires crypto.Valid() && |e.state| == crypto.Size() && e.guesses != [] && copy.guesses == []
    requires copy.state == Replayed(crypto, e.state, e.guesses) && copy.phase == e.phase && StateOk(crypto, copy.state)
    ensures CopyOk(crypto, e, copy) && ElementOk(crypto, copy) && ElementFrames(crypto, copy, true) == []
  {
  }

  // ---- what backtracking to another choice does to the top of the plain stack ----

  lemma {:induction false} OtherChoiceStripped(crypto: Crypto, view: seq<Frame>)
    requires crypto.Valid() && (forall k :: 0 <= k < |view| ==> |view[k].state| == crypto.Size())
    requires GuessCount(view) > 0
    ensures Stripped(view) != [] && Stripped(view)[|Stripped(view)| - 1].Guessed? && Stripped(view) <= view
    ensures OtherChoice(crypto, view) == OtherChoice(crypto, Stripped(view))
    ensures GuessCount(Stripped(view)) == GuessCount(view)
  {
    hide Gfp, NoneEmpty;
    if view[|view| - 1].Push? {
      OtherChoiceStripped(crypto, view[..|view| - 1]);
    }
  }

  /** The top frame is a guess: without another choice, or with an impossible one, it is dropped; otherwise the
      other choice takes its place. */
  lemma OtherChoiceTop(crypto: Crypto, rest: seq<Frame>, g: Guess, s: State)
    requires crypto.Valid() && (forall k :: 0 <= k < |rest| ==> |rest[k].state| == crypto.Size())
    requires |s| == crypto.Size() && rest != [] && g.pos < crypto.Size()
    ensures OtherChoice(crypto, rest + [Guessed(g, s)]) ==
              var next := Gfp(crypto, DEFAULT_PRIORITY, TopState(rest)[g.pos := g.second]);
              if g.second != {} && NoneEmpty(next) then rest + [Guessed(Guess(g.pos, g.second, {}), next)]
              else OtherChoice(crypto, rest)
  {
    hide Gfp, NoneEmpty;
    var view := rest + [Guessed(g, s)];
    assert view[..|view| - 1] == rest;
  }

  /** Replaying the guesses of the top element and propagating gives the state of the top frame. */
  lemma RedoneState(crypto: Crypto, e: StackElement, conds: State, ok: bool)
    requires crypto.Valid() && ElementOk(crypto, e) && |e.state| == crypto.Size()
    requires Inside(crypto, DEFAULT_PRIORITY, Applied(e.state, e.guesses), conds)
    requires ok <==> NoneEmptied(Applied(e.state, e.guesses), conds)
    requires ok ==> conds == Gfp(crypto, DEFAULT_PRIORITY, Applied(e.state, e.guesses))
    ensures ok && conds == Replayed(crypto, e.state, e.guesses)
  {
    hide Applied, Gfp, GuessesOk, AllFixed, CondsFit;
    ReplayedOk(crypto, e.state, e.guesses);
    EmptiedGfp(crypto, DEFAULT_PRIORITY, Applied(e.state, e.guesses), conds);
  }

  /** Replaying the guesses with a further choice gives the propagation of that choice from the top frame, and
      fails exactly when that is contradictory. */
  lemma RedoneChoice(crypto: Crypto, e: StackElement, g: Guess, start: State, conds: State, ok: bool)
    requires crypto.Valid() && ElementOk(crypto, e) && |e.state| == crypto.Size()
    requires GuessOk(crypto, Replayed(crypto, e.state, e.guesses), g) && g.second != {}
    requires start == Applied(e.state, e.guesses)[g.pos := g.second]
    requires Inside(crypto, DEFAULT_PRIORITY, start, conds)
    requires ok <==> NoneEmptied(start, conds)
    requires ok ==> conds == Gfp(crypto, DEFAULT_PRIORITY, start)
    ensures var next := Gfp(crypto, DEFAULT_PRIORITY, Replayed(crypto, e.state, e.guesses)[g.pos := g.second]);
            (ok <==> NoneEmpty(next)) && (ok ==> conds == next)
  {
    hide Applied, Gfp, GuessesOk, AllFixed, CondsFit;
    ReplayedOk(crypto, e.state, e.guesses);
    ReplayedChoice(crypto, e.state, e.guesses, g.pos, g.second);
    EmptiedGfp(crypto, DEFAULT_PRIORITY, start, conds);
    if ok { assert NoneEmpty(start); }
  }

  lemma StateFits(crypto: Crypto, conds: State)
    requires crypto.Valid() && StateOk(crypto, conds)
    ensures |conds| == crypto.Size()
    ensures CondsFit(crypto, conds) && NoneEmpty(conds) && AllFixed(crypto, DEFAULT_PRIORITY, conds)
  {
  }

  lemma SmallerFits(crypto: Crypto, conds: State, pos: nat, cond: Cond)
    requires CondsFit(crypto, conds) && pos < crypto.Size() && cond <= conds[pos]
    ensures FitsBits(cond, crypto.bitsize[pos]) && CondsFit(crypto, conds[pos := cond])
  {
    hide Pairs;
    assert FitsBits(conds[pos], crypto.bitsize[pos]);
  }

  lemma DecidedUpdate(crypto: Crypto, start: State, conds: State, ok: bool)
    requires crypto.Valid() && CondsFit(crypto, start) && NoneEmpty(start)
    requires ok <==> NoneEmptied(start, conds)
    requires !NoneEmptied(start, conds) ==> !NoneEmpty(Gfp(crypto, DEFAULT_PRIORITY, start))
    requires ok ==> conds == Gfp(crypto, DEFAULT_PRIORITY, start) && AllFixed(crypto, DEFAULT_PRIORITY, conds)
    ensures var next := Gfp(crypto, DEFAULT_PRIORITY, start);
            (ok <==> NoneEmpty(next)) && (ok ==> StateOk(crypto, next))
  {
    hide Gfp, AllFixed, FitsBits;
    GfpBelow(crypto, DEFAULT_PRIORITY, start);
    InsideFit(crypto, start, Gfp(crypto, DEFAULT_PRIORITY, start));
  }

  /** Stores a choice in a propagated state and propagates it. */
  method Propagate(c: Characteristic, pos: nat, cond: Cond) returns (ok: bool)
    requires c.Valid() && c.queue == {} && StateOk(c.crypto, c.conds)
    requires pos < c.crypto.Size() && cond <= c.conds[pos] && cond != {}
    modifies c, c.Caches()
    ensures c.Valid()
    ensures var next := Gfp(c.crypto, DEFAULT_PRIORITY, old(c.conds)[pos := cond]);
            (ok <==> NoneEmpty(next)) && (ok ==> c.conds == next && c.queue == {} && StateOk(c.crypto, next))
  {
    hide Gfp, Fixed, AllFixed, Crypto.Valid, StepsToUpdate, BitslicesValid, Pending, FitsBits, NoneEmptied, Inside;
    ghost var crypto, now := c.crypto, c.conds;
    PendingNone(crypto, DEFAULT_PRIORITY, now);
    SmallerFits(crypto, now, pos, cond);
    var set_ := c.SetCondition(pos, cond);
    ghost var start := c.conds;
    SetTouched(crypto, now, pos, cond, {}, c.queue);
    PendingTouched(crypto, DEFAULT_PRIORITY, now, start, {}, c.queue);
    ok := c.Update(DEFAULT_PRIORITY);
    EmptiedGfp(crypto, DEFAULT_PRIORITY, start, c.conds);
    DecidedUpdate(crypto, start, c.conds, ok);
  }

  class SearchStack {
    const frequency: nat
    const crypto: Crypto
    const bitslices: seq<Bitslice>
    var stack: seq<StackElement>
    /** Which elements are copies made because of the frequency. */
    ghost var copies: seq<bool>

    ghost function Caches(): set<object> {
      set s | 0 <= s < |bitslices| :: bitslices[s].dynamicCache
    }

    ghost predicate StackValid()
      reads this
    {
      crypto.Valid() && StackOk(crypto, stack, copies)
    }

    ghost predicate Valid()
      reads this
      reads set s | 0 <= s < |bitslices| :: bitslices[s].staticCache
      reads set s | 0 <= s < |bitslices| :: bitslices[s].dynamicCache
    {
      StackValid() && BitslicesValid(crypto, bitslices)
    }

    /** The stack of full states; nothing in it depends on the frequency. */
    ghost function View(): seq<Frame>
      requires StackValid()
      reads this
    {
      Plain(crypto, stack, copies)
    }

    constructor (crypto: Crypto, bitslices: seq<Bitslice>, frequency: nat)
      requires crypto.Valid() && BitslicesValid(crypto, bitslices)
      ensures Valid() && View() == [] && this.crypto == crypto && this.bitslices == bitslices
    {
      this.crypto, this.bitslices, this.frequency := crypto, bitslices, frequency;
      stack, copies := [], [];
    }

    method Clear()
      requires StackValid()
      modifies this
      ensures StackValid() && View() == []
    {
      stack, copies := [], [];
    }

    method Size() returns (size: nat)
      requires StackValid()
      ensures size == GuessCount(View()) == GuessSum(stack)
    {
      size := 0;
      for i: nat := 0 to |stack|
        invariant size == GuessSum(stack[..i])
      {
        assert stack[..i + 1][..i] == stack[..i];
        size := size + |stack[i].guesses|;
      }
      assert stack[..|stack|] == stack;
      GuessSumCount(crypto, stack, copies);
    }

    method Empty() returns (empty: bool)
      requires StackValid()
      ensures empty <==> GuessCount(View()) == 0
      ensures empty <==> GuessSum(stack) == 0
    {
      var size := Size();
      empty := size == 0;
    }

    method PushBack(c: Characteristic, phase: int)
      requires StackValid() && StateOk(crypto, c.conds)
      modifies this
      ensures StackValid() && View() == old(View()) + [Push(c.conds, phase)]
    {
      var e := StackElement(c.conds, [], phase);
      PlainAppend(crypto, stack, copies, e, false);
      stack := stack + [e];
      copies := copies + [false];
    }

    /** Adds a guess, and the state of `c` above it every `frequency` guesses. That state stands for nothing new if it is
        the one that the guess leads to, and for a pushed state otherwise. */
    method AddGuess(c: Characteristic, pos: nat, cond1: Cond, cond2: Cond) returns (ghost stored: bool)
      requires StackValid() && View() != [] && GuessOk(crypto, TopState(View()), Guess(pos, cond1, cond2))
      requires StateOk(crypto, c.conds)
      modifies this
      ensures StackValid() && View() == AfterOp(crypto, old(View()), OpGuess(Guess(pos, cond1, cond2), c.conds), stored)
      ensures stored <==> |old(stack)[|old(stack)| - 1].guesses| + 1 >= frequency
      ensures (frequency <= 1 ==> stored) && (frequency > GuessCount(old(View())) + 1 ==> !stored)
    {
      hide Gfp, StackOk, Plain, GuessOk, StateOk, AfterOp;
      var g := Guess(pos, cond1, cond2);
      StackNotEmpty(crypto, stack, copies);
      GuessPos(crypto, TopState(View()), g);
      AddGuessFrames(crypto, stack, copies, g, c.conds);
      GuessSumCount(crypto, stack, copies);
      ghost var led := c.conds == Next(crypto, View(), g);
      var n := |stack| - 1;
      stack := stack[..n] + [stack[n].(guesses := stack[n].guesses + [g])];
      stored := |stack[|stack| - 1].guesses| >= frequency;
      if |stack[|stack| - 1].guesses| >= frequency {
        stack := stack + [StackElement(c.conds, [], stack[|stack| - 1].phase)];
        copies := copies + [led];
      }
    }

    /** Removes the latest guess, and the pushed states above it. */
    method BackGuess() returns (g: Guess, ghost s: State)
      requires StackValid() && GuessCount(View()) > 0
      modifies this
      ensures StackValid() && stack != [] && View() != [] && Stripped(old(View())) == View() + [Guessed(g, s)]
      ensures |s| == crypto.Size() && GuessOk(crypto, TopState(View()), g)
      ensures GuessSum(stack) == GuessSum(old(stack)) - 1
    {
      hide Replayed, StackOk, Plain, GuessOk;
      GuessSumCount(crypto, stack, copies);
      ghost var sum := GuessSum(stack);
      while stack[|stack| - 1].guesses == []
        invariant StackValid() && GuessSum(stack) == sum && stack != []
        invariant Stripped(View()) == Stripped(old(View()))
        decreases |stack|
      {
        SameLength(crypto, stack, copies);
        BackEmpty(crypto, stack, copies);
        stack, copies := stack[..|stack| - 1], copies[..|stack| - 1];
      }
      BackTake(crypto, stack, copies);
      var n := |stack| - 1;
      var e := stack[n];
      g := e.guesses[|e.guesses| - 1];
      s := Replayed(crypto, e.state, e.guesses);
      stack := stack[..n] + [e.(guesses := e.guesses[..|e.guesses| - 1])];
    }

    /** The state of an element with its guesses stored, not yet propagated. */
    method Redo(e: StackElement) returns (c: Characteristic)
      requires crypto.Valid() && BitslicesValid(crypto, bitslices) && ElementOk(crypto, e) && |e.state| == crypto.Size()
      ensures fresh(c) && c.crypto == crypto && c.bitslices == bitslices && c.StateValid()
      ensures c.conds == Applied(e.state, e.guesses) && c.Settled(DEFAULT_PRIORITY)
    {
      hide Gfp, Fixed, AllFixed, Crypto.Valid, StepsToUpdate, BitslicesValid, Pending, FitsBits, GuessesOk, NoneEmpty;
      c := new Characteristic(crypto, bitslices, e.state);
      PendingNone(crypto, DEFAULT_PRIORITY, e.state);
      for i: nat := 0 to |e.guesses|
        invariant c.StateValid() && c.conds == Applied(e.state, e.guesses[..i]) && c.Settled(DEFAULT_PRIORITY)
      {
        var g := e.guesses[i];
        GuessFits(crypto, e, i);
        ghost var now, queued := c.conds, c.queue;
        var set_ := c.SetCondition(g.pos, g.first);
        SetTouched(crypto, now, g.pos, g.first, queued, c.queue);
        PendingTouched(crypto, DEFAULT_PRIORITY, now, c.conds, queued, c.queue);
        assert e.guesses[..i + 1][..i] == e.guesses[..i];
      }
      assert e.guesses[..|e.guesses|] == e.guesses;
    }

    /** Drops the latest `steps` guesses, or all of them; returns the state and the phase of the new top. */
    method Backtrack(steps: nat) returns (c: Characteristic, phase: int)
      requires Valid() && View() != []
      modifies this, Caches()
      ensures Valid() && View() == Dropped(old(View()), steps) && View() != []
      ensures GuessCount(View()) == if steps <= GuessCount(old(View())) then GuessCount(old(View())) - steps else 0
      ensures fresh(c) && c.conds == TopState(View()) && phase == TopPhase(View())
      ensures c.crypto == crypto && c.bitslices == bitslices && c.StateValid() && c.queue == {}
    {
      hide Gfp, StackOk, Plain, BitslicesValid, Dropped, Replayed, TopPhase, ElementOk, NoneEmptied, Inside, Pending, Applied;
      StackNotEmpty(crypto, stack, copies);
      PlainTop(crypto, stack, copies);
      DroppedCount(View(), steps);
      var left: nat := steps;
      while left > |stack[|stack| - 1].guesses| && |stack| > 1
        invariant Valid() && stack != [] && Dropped(View(), left) == Dropped(old(View()), steps)
        decreases |stack|
      {
        DroppedElement(crypto, stack, copies, left);
        SameLength(crypto, stack, copies);
        left := left - |stack[|stack| - 1].guesses|;
        stack, copies := stack[..|stack| - 1], copies[..|stack| - 1];
      }
      var n := |stack| - 1;
      var e := stack[n];
      phase := e.phase;
      var keep: nat := if left > |e.guesses| then 0 else |e.guesses| - left;
      KeepFrames(crypto, stack, copies, left, keep);
      stack := stack[..n] + [e.(guesses := e.guesses[..keep])];
      PlainTop(crypto, stack, copies);
      if left > |e.guesses| {
        ElementState(crypto, stack[n]);
        c := new Characteristic(crypto, bitslices, e.state);
        return;
      }
      c := Redo(stack[n]);
      var done := c.Update(DEFAULT_PRIORITY);
      RedoneState(crypto, stack[n], c.conds, done);
    }

    /** Returns to the latest guess of which the other choice is possible, and takes that choice. */
    method BacktrackToOtherChoice() returns (c: Characteristic, phase: int)
      requires Valid() && View() != []
      modifies this, Caches()
      ensures Valid() && View() == OtherChoice(crypto, old(View())) && View() != []
      ensures fresh(c) && c.conds == TopState(View()) && phase == TopPhase(View())
      ensures c.crypto == crypto && c.bitslices == bitslices && c.StateValid() && c.queue == {}
    {
      hide Gfp, StackOk, Plain, BitslicesValid, OtherChoice, Replayed, TopPhase, ElementOk, NoneEmptied, Inside, Pending,
        Applied, GuessOk, GuessCount, GuessSum, Stripped;
      ghost var goal := OtherChoice(crypto, View());
      while true
        invariant Valid() && View() != [] && OtherChoice(crypto, View()) == goal
        decreases GuessSum(stack)
      {
        var empty := Empty();
        if empty {
          OtherChoiceNone(crypto, View());
          c, phase := BackState();
          return;
        }
        ghost var entry := GuessSum(stack);
        OtherChoiceStripped(crypto, View());
        var g, s := BackGuess();
        GuessPos(crypto, TopState(View()), g);
        while g.second == {}
          invariant Valid() && View() != [] && stack != []
          invariant GuessOk(crypto, TopState(View()), g) && |s| == crypto.Size() && g.pos < crypto.Size()
          invariant OtherChoice(crypto, View() + [Guessed(g, s)]) == goal
          invariant GuessSum(stack) < entry
          decreases GuessSum(stack)
        {
          OtherChoiceTop(crypto, View(), g, s);
          empty := Empty();
          if empty {
            OtherChoiceNone(crypto, View());
            c, phase := BackState();
            return;
          }
          OtherChoiceStripped(crypto, View());
          g, s := BackGuess();
          GuessPos(crypto, TopState(View()), g);
        }
        var done;
        done, c, phase := Retake(g, s);
        if done {
          return;
        }
      }
    }

    /** Takes the other choice of the guess just removed and adds it as a guess, if it is possible. */
    method Retake(g: Guess, ghost s: State) returns (done: bool, c: Characteristic, phase: int)
      requires Valid() && View() != [] && GuessOk(crypto, TopState(View()), g) && g.second != {} && |s| == crypto.Size()
      modifies this, Caches()
      ensures Valid() && View() != [] && (!done ==> stack == old(stack) && View() == old(View()))
      ensures var other := OtherChoice(crypto, old(View()) + [Guessed(g, s)]);
              if done then View() == other else OtherChoice(crypto, View()) == other
      ensures fresh(c) && (done ==> c.conds == TopState(View()) && phase == TopPhase(View()))
      ensures c.crypto == crypto && c.bitslices == bitslices && c.StateValid() && (done ==> c.queue == {})
    {
      hide Gfp, StackOk, Plain, BitslicesValid, OtherChoice, Replayed, TopPhase, ElementOk, NoneEmptied, Inside, Pending,
        Applied, GuessOk, GuessCount, GuessSum, Stripped, StateOk;
      StackNotEmpty(crypto, stack, copies);
      GuessPos(crypto, TopState(View()), g);
      OtherChoiceTop(crypto, View(), g, s);
      done, c, phase := TakeOther(g);
      if done {
        OtherOk(crypto, TopState(View()), g);
        PhaseAppend(View(), [Guessed(Guess(g.pos, g.second, {}), c.conds)]);
        NextOk(crypto, stack, copies, Guess(g.pos, g.second, {}));
        ghost var stored := AddGuess(c, g.pos, g.second, {});
      }
    }

    /** Replays the guesses of the top element with the other choice of `g`. */
    method TakeOther(g: Guess) returns (done: bool, c: Characteristic, phase: int)
      requires Valid() && View() != [] && GuessOk(crypto, TopState(View()), g) && g.second != {}
      modifies Caches()
      ensures Valid() && fresh(c) && phase == TopPhase(View()) && g.pos < crypto.Size()
      ensures c.crypto == crypto && c.bitslices == bitslices && c.StateValid() && (done ==> c.queue == {})
      ensures var next := Gfp(crypto, DEFAULT_PRIORITY, TopState(View())[g.pos := g.second]);
              (done <==> NoneEmpty(next)) && (done ==> c.conds == next)
    {
      hide Gfp, StackOk, Plain, BitslicesValid, Replayed, TopPhase, ElementOk, NoneEmptied, Inside, Pending, Applied, GuessOk;
      StackNotEmpty(crypto, stack, copies);
      PlainTop(crypto, stack, copies);
      TopOk(crypto, stack, copies);
      var e := stack[|stack| - 1];
      phase := e.phase;
      c := Redo(e);
      SecondFits(crypto, TopState(View()), g);
      ghost var now, queued := c.conds, c.queue;
      var set_ := c.SetCondition(g.pos, g.second);
      ghost var start := c.conds;
      SetTouched(crypto, now, g.pos, g.second, queued, c.queue);
      PendingTouched(crypto, DEFAULT_PRIORITY, now, start, queued, c.queue);
      done := c.Update(DEFAULT_PRIORITY);
      RedoneChoice(crypto, e, g, start, c.conds, done);
    }

    /** The stored state of the top element, which has no guesses. */
    method BackState() returns (c: Characteristic, phase: int)
      requires Valid() && View() != [] && GuessCount(View()) == 0
      ensures fresh(c) && c.conds == TopState(View()) && phase == TopPhase(View()) && Valid()
      ensures c.crypto == crypto && c.bitslices == bitslices && c.StateValid() && c.queue == {}
    {
      hide Gfp, Plain, BitslicesValid, Replayed, TopPhase, ElementOk, CopyOk;
      StackNotEmpty(crypto, stack, copies);
      PlainTop(crypto, stack, copies);
      GuessSumCount(crypto, stack, copies);
      TopOk(crypto, stack, copies);
      ElementState(crypto, stack[|stack| - 1]);
      c := new Characteristic(crypto, bitslices, stack[|stack| - 1].state);
      phase := stack[|stack| - 1].phase;
    }

    /** Adds a guess with a state, and hands out what is on top then. */
    method PerformGuess(g: Guess, led: State) returns (c: Characteristic, phase: int, ghost stored: bool)
      requires Valid() && OpOk(crypto, View(), OpGuess(g, led))
      modifies this, Caches()
      ensures Valid() && View() == AfterOp(crypto, old(View()), OpGuess(g, led), stored)
      ensures View() != [] && c.conds == TopState(View()) && phase == TopPhase(View())
      ensures (frequency <= 1 ==> stored) && (frequency > GuessCount(old(View())) + 1 ==> !stored)
    {
      hide Gfp, StackOk, Plain, BitslicesValid, Dropped, OtherChoice, TopPhase, ElementOk, NoneEmptied, Inside, Pending,
        GuessOk, GuessCount, Crypto.Valid, StateOk;
      StateFits(crypto, led);
      c := new Characteristic(crypto, bitslices, led);
      stored := AddGuess(c, g.pos, g.first, g.second);
      c, phase := Backtrack(0);
      DroppedNone(AfterOp(crypto, old(View()), OpGuess(g, led), stored));
    }

    /** Carries out an operation; after a guess the outcome is what going back by no guess returns. */
    method Perform(op: Op) returns (c: Characteristic, phase: int, size: nat, ghost stored: bool)
      requires Valid() && OpOk(crypto, View(), op)
      modifies this, Caches()
      ensures Valid() && View() == AfterOp(crypto, old(View()), op, stored)
      ensures View() != [] && OutcomeOf(View()) == Outcome(c.conds, phase, size)
      ensures (frequency <= 1 ==> stored) && (frequency > GuessCount(old(View())) + 1 ==> !stored)
    {
      hide Gfp, StackOk, Plain, BitslicesValid, Dropped, OtherChoice, TopPhase, ElementOk, NoneEmptied, Inside, Pending,
        GuessOk, GuessCount, Crypto.Valid, StateOk;
      stored := frequency <= 1;
      match op {
        case OpPush(state, p) =>
          StateFits(crypto, state);
          c := new Characteristic(crypto, bitslices, state);
          PushBack(c, p);
          phase := p;
          PushPhase(old(View()), state, p);
        case OpGuess(g, led) => c, phase, stored := PerformGuess(g, led);
        case OpBacktrack(steps) => c, phase := Backtrack(steps);
        case OpOther => c, phase := BacktrackToOtherChoice();
      }
      size := Size();
    }

    /** For every run of operations the states, phases and sizes handed out are those of the plain stack of full states
        on which states are stored after some guesses: after all of them if the frequency is one, after none if it is
        above the number of guesses. With every guess led by its state the frequency has no influence on them. */
    method Run(ops: seq<Op>) returns (outcomes: seq<Outcome>, ghost stored: seq<bool>)
      requires Valid() && RunOk(crypto, View(), ops)
      modifies this, Caches()
      ensures Valid() && |stored| == |ops| && outcomes == Outcomes(crypto, old(View()), ops, stored)
      ensures (frequency <= 1 ==> AllAre(stored, true)) && (frequency > GuessCount(old(View())) + |ops| ==> AllAre(stored, false))
      ensures RunLed(crypto, old(View()), ops) ==>
        forall any: seq<bool> :: |any| == |ops| ==> outcomes == Outcomes(crypto, old(View()), ops, any)
    {
      outcomes, stored := RunFrom(ops);
      if RunLed(crypto, old(View()), ops) {
        forall any: seq<bool> | |any| == |ops| ensures outcomes == Outcomes(crypto, old(View()), ops, any) {
          LedOutcomes(crypto, old(View()), ops, stored, any);
        }
      }
    }

    method RunFrom(ops: seq<Op>) returns (outcomes: seq<Outcome>, ghost stored: seq<bool>)
      requires Valid() && RunOk(crypto, View(), ops)
      modifies this, Caches()
      ensures Valid() && |stored| == |ops| && outcomes == Outcomes(crypto, old(View()), ops, stored)
      ensures (frequency <= 1 ==> AllAre(stored, true)) && (frequency > GuessCount(old(View())) + |ops| ==> AllAre(stored, false))
      decreases |ops|
    {
      hide AfterOp, OpOk, StackOk, Plain, BitslicesValid, Crypto.Valid, GuessCount, TopPhase;
      if ops == [] {
        return [], [];
      }
      ghost var view := View();
      var c, phase, size, first := Perform(ops[0]);
      AfterOpCount(crypto, view, ops[0], first);
      var rest, more := RunFrom(ops[1..]);
      outcomes, stored := [Outcome(c.conds, phase, size)] + rest, [first] + more;
      assert stored[0] == first && stored[1..] == more;
    }
  }

  lemma NextOk(crypto: Crypto, stack: seq<StackElement>, copies: seq<bool>, g: Guess)
    requires crypto.Valid() && StackOk(crypto, stack, copies) && stack != []
    requires Plain(crypto, stack, copies) != [] && GuessOk(crypto, TopState(Plain(crypto, stack, copies)), g)
    ensures StateOk(crypto, Next(crypto, Plain(crypto, stack, copies), g))
  {
    hide Replayed, GuessOk, GuessesOk, StateOk, Gfp;
    ElementShape(crypto, stack, copies);
    PlainTop(crypto, stack, copies);
    assert ElementOk(crypto, stack[|stack| - 1]);
    AddOk(crypto, stack[|stack| - 1], g);
  }

  lemma StackNotEmpty(crypto: Crypto, stack: seq<StackElement>, copies: seq<bool>)
    requires crypto.Valid() && StackOk(crypto, stack, copies) && Plain(crypto, stack, copies) != []
    ensures stack != []
  {
  }

  lemma ElementState(crypto: Crypto, e: StackElement)
    requires crypto.Valid() && ElementOk(crypto, e) && |e.state| == crypto.Size()
    ensures CondsFit(crypto, e.state)
    ensures e.guesses == [] ==> Replayed(crypto, e.state, e.guesses) == e.state
  {
    if e.guesses == [] {
      ReplayedNone(crypto, e.state);
    }
  }

  lemma SameLength(crypto: Crypto, stack: seq<StackElement>, copies: seq<bool>)
    requires crypto.Valid() && StackOk(crypto, stack, copies)
    ensures |copies| == |stack|
  {
  }

  lemma PendingNone(crypto: Crypto, limit: nat, conds: State)
    requires crypto.Valid() && |conds| == crypto.Size() && AllFixed(crypto, limit, conds)
    ensures Pending(crypto, limit, conds, {})
  {
  }

  lemma GuessFits(crypto: Crypto, e: StackElement, i: nat)
    requires crypto.Valid() && ElementOk(crypto, e) && |e.state| == crypto.Size() && i < |e.guesses|
    ensures e.guesses[i].pos < crypto.Size() && FitsBits(e.guesses[i].first, crypto.bitsize[e.guesses[i].pos])
  {
    hide Replayed, AllFixed, Gfp;
    GuessesPrefix(crypto, e.state, e.guesses, i);
    ReplayedOk(crypto, e.state, e.guesses[..i]);
    var r := Replayed(crypto, e.state, e.guesses[..i]);
    assert GuessOk(crypto, r, e.guesses[i]);
    assert FitsBits(r[e.guesses[i].pos], crypto.bitsize[e.guesses[i].pos]);
  }

  /** Keeping some first guesses of the top element drops the other frames. */
  lemma KeepFrames(crypto: Crypto, stack: seq<StackElement>, copies: seq<bool>, n: nat, keep: nat)
    requires crypto.Valid() && StackOk(crypto, stack, copies) && stack != []
    requires n <= |stack[|stack| - 1].guesses| || |stack| == 1
    requires keep == if n > |stack[|stack| - 1].guesses| then 0 else |stack[|stack| - 1].guesses| - n
    ensures var m := |stack| - 1;
            var next := stack[..m] + [stack[m].(guesses := stack[m].guesses[..keep])];
            && ElementOk(crypto, next[m]) && |next[m].state| == crypto.Size() && StackOk(crypto, next, copies)
            && Plain(crypto, next, copies) == Dropped(Plain(crypto, stack, copies), n)
  {
    hide Replayed, CopyOk, Dropped, GuessesOk, StateOk;
    var m := |stack| - 1;
    var e := stack[m];
    ElementShape(crypto, stack, copies);
    assert ElementOk(crypto, e);
    GuessesPrefix(crypto, e.state, e.guesses, keep);
    PlainGuesses(crypto, stack, copies, e.guesses[..keep]);
    var below := Plain(crypto, stack[..m], copies[..m]);
    assert m == 0 ==> below == [] && !copies[m];
    PlainTop(crypto, stack, copies);
    if m > 0 {
      StackPrefix(crypto, stack, copies, m);
      PlainTop(crypto, stack[..m], copies[..m]);
    }
    assert Plain(crypto, stack, copies) == below + ElementFrames(crypto, e, copies[m]);
    hide Plain, StackOk, ElementOk;
    KeepElement(crypto, below, e, copies[m], n, keep);
  }

  lemma KeepElement(crypto: Crypto, below: seq<Frame>, e: StackElement, copy: bool, n: nat, keep: nat)
    requires crypto.Valid() && |e.state| == crypto.Size() && (copy ==> below != [])
    requires keep == if n > |e.guesses| then 0 else |e.guesses| - n
    requires n <= |e.guesses| || (below == [] && !copy)
    ensures below + ElementFrames(crypto, e.(guesses := e.guesses[..keep]), copy)
         == Dropped(below + ElementFrames(crypto, e, copy), n)
  {
    hide GuessFrames, Dropped;
    var v := below + if copy then [] else [Push(e.state, e.phase)];
    DroppedGuesses(crypto, v, e.state, e.guesses, n);
    assert below + ElementFrames(crypto, e, copy) == v + GuessFrames(crypto, e.state, e.guesses);
    assert below + ElementFrames(crypto, e.(guesses := e.guesses[..keep]), copy) ==
           v + GuessFrames(crypto, e.state, e.guesses[..keep]);
    if n > |e.guesses| {
      assert GuessFrames(crypto, e.state, e.guesses[..keep]) == [];
      DroppedBottom(v, n - |e.guesses|);
    }
  }

  lemma DroppedBottom(v: seq<Frame>, n: nat)
    requires |v| == 1
    ensures Dropped(v, n) == v
  {
  }

  lemma GuessPos(crypto: Crypto, at: State, g: Guess)
    requires crypto.Valid() && |at| == crypto.Size() && GuessOk(crypto, at, g)
    ensures g.pos < crypto.Size()
  {
  }

  /** The top state is propagated and without a contradiction. */
  lemma TopStateOk(crypto: Crypto, stack: seq<StackElement>, copies: seq<bool>)
    requires crypto.Valid() && StackOk(crypto, stack, copies) && Plain(crypto, stack, copies) != []
    ensures StateOk(crypto, TopState(Plain(crypto, stack, copies)))
  {
    hide AllFixed, Gfp, Replayed, CopyOk, Plain, ElementOk, NoneEmpty, CondsFit;
    StackNotEmpty(crypto, stack, copies);
    PlainTop(crypto, stack, copies);
    TopOk(crypto, stack, copies);
  }

  lemma OtherOk(crypto: Crypto, at: State, g: Guess)
    requires crypto.Valid() && |at| == crypto.Size() && GuessOk(crypto, at, g)
    requires NoneEmpty(Gfp(crypto, DEFAULT_PRIORITY, at[g.pos := g.second]))
    ensures GuessOk(crypto, at, Guess(g.pos, g.second, {}))
  {
  }

  lemma SecondFits(crypto: Crypto, at: State, g: Guess)
    requires crypto.Valid() && CondsFit(crypto, at) && GuessOk(crypto, at, g)
    ensures g.pos < crypto.Size() && FitsBits(g.second, crypto.bitsize[g.pos])
  {
    hide Gfp;
    assert FitsBits(at[g.pos], crypto.bitsize[g.pos]);
  }

  lemma OtherChoiceNone(crypto: Crypto, view: seq<Frame>)
    requires crypto.Valid() && (forall k :: 0 <= k < |view| ==> |view[k].state| == crypto.Size()) && GuessCount(view) == 0
    ensures OtherChoice(crypto, view) == view
  {
  }

  lemma TopOk(crypto: Crypto, stack: seq<StackElement>, copies: seq<bool>)
    requires crypto.Valid() && StackOk(crypto, stack, copies) && stack != []
    ensures var e := stack[|stack| - 1];
            && ElementOk(crypto, e) && |e.state| == crypto.Size() && StateOk(crypto, Replayed(crypto, e.state, e.guesses))
            && CondsFit(crypto, Replayed(crypto, e.state, e.guesses))
  {
    hide AllFixed, Gfp, Replayed, CopyOk;
    var e := stack[|stack| - 1];
    assert ElementOk(crypto, e);
    ReplayedOk(crypto, e.state, e.guesses);
  }
}
