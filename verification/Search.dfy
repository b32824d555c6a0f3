/** Guessing bits and backtracking (src/search.cpp, src/search.h). */
module Searches {
  import opened BitsliceFunctions
  import opened Bitslices
  import opened Cryptos
  import opened Priorities
  import opened Worklists
  import opened Choices
  import opened Characteristics
  import opened PlainStacks
  import opened SearchStacks
  import opened Coverage

  /** A condition to guess, and the probability with which its first choice is tried first. */
  datatype GuessSetting = GuessSetting(bc: Cond, choiceProbability: real)

  datatype Strategy = ToOtherChoice | TenPercent | Custom

  class Search {
    const crypto: Crypto
    const bitslices: seq<Bitslice>
    const characteristic: Characteristic
    const tmp: Characteristic
    const stack: SearchStack
    var phase: int
    var remainingCredits: int
    /** The last backtracking led to another phase, or left no guess on the stack. */
    var switchedBackOrStackEmpty: bool

    ghost function Caches(): set<object> {
      set s | 0 <= s < |bitslices| :: bitslices[s].dynamicCache
    }

    ghost predicate CachesValid()
      reads set s | 0 <= s < |bitslices| :: bitslices[s].staticCache
      reads set s | 0 <= s < |bitslices| :: bitslices[s].dynamicCache
    {
      BitslicesValid(crypto, bitslices)
    }

    /** All parts work on the same conditions with the same bitslices. */
    ghost predicate PartsValid()
      reads characteristic, tmp, stack
    {
      && characteristic != tmp
      && characteristic.crypto == crypto && characteristic.bitslices == bitslices && characteristic.StateValid()
      && tmp.crypto == crypto && tmp.bitslices == bitslices && tmp.StateValid()
      && stack.crypto == crypto && stack.bitslices == bitslices && stack.StackValid()
      && stack.View() != [] && stack.View()[0].Push? && ViewOk(crypto, stack.View())
    }

    /** The characteristic is propagated, and is the state on top of the stack except for values that no solution takes:
        those that completing has removed. */
    ghost predicate Valid()
      reads characteristic, tmp, stack
      reads set s | 0 <= s < |bitslices| :: bitslices[s].staticCache
      reads set s | 0 <= s < |bitslices| :: bitslices[s].dynamicCache
    {
      CachesValid() && StateCurrent()
    }

    ghost predicate StateCurrent()
      reads characteristic, tmp, stack
    {
      && PartsValid() && Sharpens(crypto, characteristic.conds, TopState(stack.View())) && characteristic.queue == {}
      && StateOk(crypto, characteristic.conds)
    }

    constructor (crypto: Crypto, bitslices: seq<Bitslice>, start: State, frequency: nat, credits: int)
      requires crypto.Valid() && BitslicesValid(crypto, bitslices) && StateOk(crypto, start)
      ensures Valid() && stack.View() == [Push(start, 0)] && characteristic.conds == start && phase == 0
      ensures remainingCredits == credits && !switchedBackOrStackEmpty
      ensures fresh(characteristic) && fresh(tmp) && fresh(stack)
      ensures this.crypto == crypto && this.bitslices == bitslices
    {
      hide Gfp, AllFixed, BitslicesValid, ViewOk, StackOk, Plain, Crypto.Valid, Sharpens;
      StateFits(crypto, start);
      OneFrame(crypto, start);
      SharpensSame(crypto, start);
      this.crypto, this.bitslices, phase := crypto, bitslices, 0;
      remainingCredits, switchedBackOrStackEmpty := credits, false;
      characteristic := new Characteristic(crypto, bitslices, start);
      tmp := new Characteristic(crypto, bitslices, start);
      stack := new SearchStack(crypto, bitslices, frequency);
      new;
      stack.PushBack(characteristic, 0);
      assert stack.View() == [Push(start, 0)];
      assert StateOk(crypto, characteristic.conds);
    }

    /** Adds the guess that led from the state `at` to the characteristic. */
    method AddGuess(pos: nat, cond: Cond, other: Cond, ghost at: State) returns (ghost stored: bool)
      requires CachesValid() && PartsValid() && pos < crypto.Size() && SizesOk(crypto, stack.View())
      requires Sharpens(crypto, at, TopState(stack.View())) && |at| == crypto.Size() && cond <= at[pos] && other <= at[pos]
      requires characteristic.conds == Gfp(crypto, DEFAULT_PRIORITY, at[pos := cond])
      requires characteristic.queue == {} && StateOk(crypto, characteristic.conds)
      modifies stack
      ensures Valid()
      ensures stack.View() ==
        WithGuess(crypto, old(stack.View()), PlainStacks.Guess.Guess(pos, cond, other), characteristic.conds, stored)
      ensures old(stack.View()) < stack.View() && Leq(characteristic.conds, at) && characteristic.conds[pos] <= cond
    {
      hide Gfp, AllFixed, BitslicesValid, ViewOk, CondsFit, StackOk, Plain, Crypto.Valid, GuessOk, Sharpens;
      StateFits(crypto, characteristic.conds);
      hide NoneEmpty;
      ghost var view := stack.View();
      ghost var g := PlainStacks.Guess.Guess(pos, cond, other);
      GuessFrameOk(crypto, view, at, g);
      stored := stack.AddGuess(characteristic, pos, cond, other);
      GuessAdded(crypto, view, at, g, stored);
      assert stack.View()[0] == view[0];
    }

    /** Tries a choice of a bit, and the other choice if the first one fails. With a probability strictly between
        zero and one the other choice of a successful first one stays on the stack, and no solution is lost. */
    method GuessBit(guess: GuessSetting, pos: nat, draw: real, ghost root: State) returns (ok: bool, ghost stored: bool)
      requires Valid() && pos < crypto.Size() && crypto.bitsize[pos] == 1
      requires guess.bc == characteristic.conds[pos] && Several(guess.bc)
      modifies characteristic, tmp, stack, Caches()
      ensures CachesValid() && PartsValid() && SizesOk(crypto, old(stack.View()))
      ensures EqualFirst(guess.bc, Choice(guess.bc, false), Choice(guess.bc, true))
      ensures stack.View() ==
        AfterGuess(crypto, old(stack.View()), old(characteristic.conds), pos, guess.bc, guess.choiceProbability < draw,
                   0.0 < guess.choiceProbability < 1.0, stored)
      ensures old(stack.View()) <= stack.View() && (ok <==> stack.View() != old(stack.View()))
      ensures ok ==> Valid() && Leq(characteristic.conds, old(characteristic.conds)) && characteristic.conds[pos] < guess.bc
      ensures Covered(crypto, root, old(stack.View())) && 0.0 < guess.choiceProbability < 1.0 ==>
                Covered(crypto, root, stack.View()) && (!ok ==> Refuted(crypto, root, stack.View()))
    {
      hide Gfp, Fixed, AllFixed, Crypto.Valid, BitslicesValid, FitsBits, Choice, OneBit, Several, Covered, Refuted, StateOk,
        ViewOk, StackOk, Plain, NoneEmpty, Sharpens, WithGuess, SizesOk, EqualFirst;
      ghost var view, at := stack.View(), characteristic.conds;
      var pushStack := 0.0 < guess.choiceProbability < 1.0;
      var index := guess.choiceProbability < draw;
      stored := false;
      StateFits(crypto, at);
      ViewSizes(crypto, view);
      ChoicesOf(crypto, at, pos);
      ChoiceOrder(guess.bc);
      hide AfterGuess;
      tmp.ShallowCopy(characteristic);
      var cond := Choice(guess.bc, index);
      var first := Propagate(characteristic, pos, cond);
      if first {
        stored := AddGuess(pos, cond, if pushStack then Choice(guess.bc, !index) else {}, at);
        FirstGuessed(crypto, root, view, at, pos, guess.bc, index, pushStack, stored);
        return true, stored;
      }
      cond := Choice(guess.bc, !index);
      var second := Propagate(tmp, pos, cond);
      if !second {
        BothFailed(crypto, root, view, at, pos, guess.bc, index, pushStack, stored);
        return false, stored;
      }
      characteristic.ShallowCopy(tmp);
      stored := AddGuess(pos, cond, {}, at);
      SecondGuessed(crypto, root, view, at, pos, guess.bc, index, pushStack, stored);
      return true, stored;
    }

    /** Guesses a bit until its condition is none of those to guess. */
    method Guess(guesses: seq<GuessSetting>, pos: nat, ghost root: State) returns (ok: bool)
      requires Valid() && pos < crypto.Size() && crypto.bitsize[pos] == 1
      requires forall g :: g in guesses ==> Several(g.bc)
      modifies characteristic, tmp, stack, Caches()
      ensures CachesValid() && PartsValid() && old(stack.View()) <= stack.View()
      ensures ok ==> Valid() && forall g :: g in guesses ==> g.bc != characteristic.conds[pos]
      ensures Covered(crypto, root, old(stack.View())) && Kept(guesses) ==>
                Covered(crypto, root, stack.View()) && (!ok ==> Refuted(crypto, root, stack.View()))
    {
      hide Gfp, Crypto.Valid, BitslicesValid, Several, Covered, Refuted, StateOk, ViewOk, StackOk, Plain, AfterGuess, Sharpens;
      ghost var view := stack.View();
      ghost var covered := Covered(crypto, root, view) && Kept(guesses);
      StateFits(crypto, characteristic.conds);
      var index := FindGuess(guesses, characteristic.conds[pos]);
      while index < |guesses|
        invariant Valid() && view <= stack.View() && |characteristic.conds| == crypto.Size()
        invariant index == FindGuess(guesses, characteristic.conds[pos])
        invariant covered ==> Covered(crypto, root, stack.View())
        decreases characteristic.conds[pos]
      {
        var draw: real := *;
        assert guesses[index] in guesses;
        ghost var stored;
        ok, stored := GuessBit(guesses[index], pos, draw, root);
        if !ok {
          return;
        }
        StateFits(crypto, characteristic.conds);
        index := FindGuess(guesses, characteristic.conds[pos]);
      }
      return true;
    }

    /** The stack after going back with a strategy. */
    ghost function WentBack(strategy: Strategy, view: seq<Frame>): seq<Frame>
      requires crypto.Valid() && ViewOk(crypto, view)
    {
      match strategy
      case ToOtherChoice => OtherChoice(crypto, view)
      case TenPercent => Dropped(view, GuessCount(view) / 10)
      case Custom => view
    }

    /** Going back by a tenth drops as many guesses as there are tens of them. */
    lemma TenthDropped(view: seq<Frame>)
      requires crypto.Valid() && ViewOk(crypto, view) && view[0].Push?
      ensures TenthLess(GuessCount(view), GuessCount(WentBack(TenPercent, view)))
    {
      DroppedCount(view, GuessCount(view) / 10);
    }

    /** Goes back in the stack: to the latest other choice that is possible, or by a tenth of the guesses. */
    method BackTrackStrategy(strategy: Strategy) returns (newPhase: int)
      requires CachesValid() && PartsValid()
      modifies characteristic, stack, Caches()
      ensures CachesValid() && PartsValid() && stack.View() == WentBack(strategy, old(stack.View()))
      ensures strategy.Custom? ==> newPhase == phase
      ensures !strategy.Custom? ==>
        Valid() && newPhase == TopPhase(stack.View()) && characteristic.conds == TopState(stack.View())
    {
      hide Gfp, Crypto.Valid, BitslicesValid, StateOk, ViewOk, StackOk, Plain, OtherChoice, Dropped, GuessCount, TopPhase,
        Sharpens;
      ghost var view := stack.View();
      newPhase := phase;
      var c;
      match strategy {
        case ToOtherChoice =>
          OtherChoiceOk(crypto, view);
          c, newPhase := stack.BacktrackToOtherChoice();
        case TenPercent =>
          var size := stack.Size();
          DroppedOk(crypto, view, size / 10);
          c, newPhase := stack.Backtrack(size / 10);
        case Custom => return;
      }
      TopStateOk(crypto, stack.stack, stack.copies);
      StateFits(crypto, TopState(stack.View()));
      SharpensSame(crypto, TopState(stack.View()));
      characteristic.ShallowCopy(c);
    }

    /** Going back from a refuted state loses no solution, and a stack without guesses after a search for another
        choice means that the root has no solution. */
    method BackTrack(strategy: Strategy, ghost root: State)
      requires CachesValid() && PartsValid()
      modifies this, characteristic, stack, Caches()
      ensures CachesValid() && PartsValid() && stack.View() == WentBack(strategy, old(stack.View()))
      ensures strategy.Custom? ==> phase == old(phase)
      ensures !strategy.Custom? ==>
        Valid() && phase == TopPhase(stack.View()) && characteristic.conds == TopState(stack.View())
      ensures switchedBackOrStackEmpty <==> phase != old(phase) || GuessCount(stack.View()) == 0
      ensures remainingCredits == old(remainingCredits) - 1
      ensures Refuted(crypto, root, old(stack.View())) ==> Covered(crypto, root, stack.View())
      ensures Refuted(crypto, root, old(stack.View())) && strategy.ToOtherChoice? && GuessCount(stack.View()) == 0 ==>
                NoSolution(crypto, root)
    {
      hide Gfp, Crypto.Valid, BitslicesValid, Covered, Refuted, StateOk, ViewOk, StackOk, Plain, WentBack, GuessCount, TopPhase,
        Sharpens, CondsFit, Characteristic.StateValid, NoSolution, NoneLost, Unsolvable, TopState;
      WentBackCovers(strategy, root, stack.View());
      var newPhase := BackTrackStrategy(strategy);
      switchedBackOrStackEmpty := newPhase != phase;
      phase := newPhase;
      var empty := stack.Empty();
      switchedBackOrStackEmpty := switchedBackOrStackEmpty || empty;
      remainingCredits := remainingCredits - 1;
    }

    lemma WentBackCovers(strategy: Strategy, root: State, view: seq<Frame>)
      requires crypto.Valid() && ViewOk(crypto, view) && view[0].Push?
      ensures Refuted(crypto, root, view) ==> Covered(crypto, root, WentBack(strategy, view))
      ensures Refuted(crypto, root, view) && strategy.ToOtherChoice? && GuessCount(WentBack(strategy, view)) == 0 ==>
                NoSolution(crypto, root)
    {
      assert view != [];
      hide ViewOk, Covered, Refuted, OtherChoice, Dropped, GuessCount, NoSolution;
      if Refuted(crypto, root, view) {
        RefutedCovered(crypto, root, view);
        match strategy {
          case ToOtherChoice => OtherChoiceCovers(crypto, root, view);
          case TenPercent => DroppedCovers(crypto, root, view, GuessCount(view) / 10);
          case Custom =>
        }
      }
    }

    /** Completes the characteristic, and goes back as long as that refutes it: until it is complete, another phase or an
        empty stack is reached, or the credits are used up. No solution is lost, although the values that completing has
        removed stay on the stack. */
    method CompleteCheck(mask: set<nat>, strategy: Strategy, ghost root: State) returns (result: bool)
      requires Valid() && Covered(crypto, root, stack.View()) && !strategy.Custom?
      modifies this, characteristic, stack, Caches()
      ensures Valid() && Covered(crypto, root, stack.View())
      ensures result ==> stack.View() == old(stack.View()) && Leq(characteristic.conds, old(characteristic.conds))
      ensures result ==> phase == old(phase) && remainingCredits == old(remainingCredits)
      ensures result ==> switchedBackOrStackEmpty == old(switchedBackOrStackEmpty)
      ensures !result ==> remainingCredits < old(remainingCredits)
      ensures !switchedBackOrStackEmpty && remainingCredits >= 0 ==>
        Examined(crypto, DEFAULT_PRIORITY, characteristic.conds, mask, {}, EqualOrDifferent)
      ensures !result && strategy.ToOtherChoice? && GuessCount(stack.View()) == 0 ==> NoSolution(crypto, root)
    {
      hide Gfp, Crypto.Valid, BitslicesValid, Covered, Refuted, StateOk, ViewOk, StackOk, Plain, WentBack, GuessCount,
        NoSolution, TopPhase, Sharpens, Examined, Unsolvable, Separates, NoneLost, Total, Stuck, AllFixed, NoneEmpty, CondsFit,
        Pending;
      EqualOrDifferentSeparates();
      result := true;
      while !switchedBackOrStackEmpty && remainingCredits >= 0
        invariant Valid() && Covered(crypto, root, stack.View())
        invariant result ==> stack.View() == old(stack.View()) && characteristic.conds == old(characteristic.conds)
        invariant result ==> phase == old(phase) && remainingCredits == old(remainingCredits)
        invariant result ==> switchedBackOrStackEmpty == old(switchedBackOrStackEmpty)
        invariant !result ==> remainingCredits < old(remainingCredits)
        invariant !result && strategy.ToOtherChoice? && GuessCount(stack.View()) == 0 ==> NoSolution(crypto, root)
        decreases remainingCredits + 1
      {
        ghost var at := characteristic.conds;
        StateSettled(crypto, at);
        FitsTotal(crypto, at);
        var limit: nat := |mask| + 64 * |characteristic.conds| + 1;
        var ok, ended := characteristic.Complete(EqualOrDifferent, mask, limit);
        SharpensMore(crypto, characteristic.conds, at, TopState(stack.View()));
        SettledState(crypto, characteristic.conds);
        if ok {
          return;
        }
        UnsolvableRefutes(crypto, root, stack.View(), at);
        BackTrack(strategy, root);
        result := false;
      }
    }

    /** Moves to the next phase. */
    method NextPhase(ghost root: State)
      requires Valid()
      modifies this, stack
      ensures Valid() && phase == old(phase) + 1 && TopState(stack.View()) == characteristic.conds
      ensures stack.View() == old(stack.View()) + [Push(characteristic.conds, phase)]
      ensures Covered(crypto, root, old(stack.View())) ==> Covered(crypto, root, stack.View())
    {
      hide Gfp, Crypto.Valid, BitslicesValid, Covered, StateOk, ViewOk, StackOk, Plain, Sharpens;
      phase := phase + 1;
      PushCovers(crypto, root, stack.View(), characteristic.conds, phase);
      stack.PushBack(characteristic, phase);
    }

    /** The loop of the search for a given order of the bits to guess and of the complete checks: go back after a guess
        that failed. The search is over when the stack has no guess left, and then the root has no solution. */
    method Explore(tasks: seq<Task>, strategy: Strategy, ghost root: State) returns (exhausted: bool)
      requires Valid() && Covered(crypto, root, stack.View()) && !strategy.Custom?
      requires forall t :: t in tasks ==> TaskOk(crypto, t)
      modifies this, characteristic, tmp, stack, Caches()
      ensures Valid() && Covered(crypto, root, stack.View())
      ensures exhausted && strategy.ToOtherChoice? ==> NoSolution(crypto, root)
    {
      hide Gfp, Crypto.Valid, BitslicesValid, Covered, Refuted, StateOk, ViewOk, StackOk, Plain, WentBack,
        GuessCount, Several, NoSolution, TopPhase, Sharpens, Examined;
      for i: nat := 0 to |tasks|
        invariant Valid() && Covered(crypto, root, stack.View())
      {
        assert TaskOk(crypto, tasks[i]);
        var ok;
        match tasks[i] {
          case ToGuess(guesses, pos) =>
            ok := Guess(guesses, pos, root);
            if !ok { BackTrack(strategy, root); }
          case ToComplete(mask) =>
            ok := CompleteCheck(mask, strategy, root);
        }
        if !ok {
          exhausted := stack.Empty();
          if exhausted {
            return;
          }
        }
      }
      return false;
    }
  }

  /** The greatest number of which ten times are not more than before is gone. */
  ghost predicate TenthLess(before: nat, after: nat) {
    after <= before && 10 * (before - after) <= before < 10 * (before - after) + 10
  }

  /** No values that the root allows are related in all steps. */
  ghost predicate NoneRelated(crypto: Crypto, root: State)
    requires crypto.Valid()
  {
    forall a :: EveryRelated(crypto, a) ==> !Allowed(root, a)
  }

  /** With default priorities no solution of the root means that no values it allows are related in all steps. */
  lemma NoneRelatedExactly(crypto: Crypto, bitslices: seq<Bitslice>, root: State)
    requires crypto.Valid() && BitslicesValid(crypto, bitslices) && DefaultPriorities(crypto)
    ensures NoSolution(crypto, root) <==> NoneRelated(crypto, root)
  {
    BitslicesFew(crypto, bitslices);
    hide Solution, EveryRelated, DefaultPriorities, FewSlots, BitslicesValid, Allowed;
    forall a ensures Solution(crypto, DEFAULT_PRIORITY, a) <==> EveryRelated(crypto, a) {
      DefaultLimit(crypto, root, a);
    }
  }

  /** A bit to guess, with the conditions to guess there, or bits to complete. */
  datatype Task = ToGuess(guesses: seq<GuessSetting>, pos: nat) | ToComplete(mask: set<nat>)

  ghost predicate TaskOk(crypto: Crypto, t: Task) {
    t.ToGuess? ==>
      && t.pos < crypto.Size() && crypto.bitsize[t.pos] == 1 && Kept(t.guesses)
      && forall g :: g in t.guesses ==> Several(g.bc)
  }

  /** Every guess keeps its other choice. */
  ghost predicate Kept(guesses: seq<GuessSetting>) {
    forall g :: g in guesses ==> 0.0 < g.choiceProbability < 1.0
  }

  /** The first guess setting for a condition, or the number of settings. */
  function FindGuess(guesses: seq<GuessSetting>, bc: Cond): (i: nat)
    ensures i <= |guesses| && (i < |guesses| ==> guesses[i].bc == bc)
    ensures i == |guesses| ==> forall g :: g in guesses ==> g.bc != bc
  {
    if guesses == [] || guesses[0].bc == bc then 0 else 1 + FindGuess(guesses[1..], bc)
  }

  lemma OtherChoiceOk(crypto: Crypto, view: seq<Frame>)
    requires crypto.Valid() && ViewOk(crypto, view) && view[0].Push?
    ensures var w := OtherChoice(crypto, view); w != [] && w[0].Push? && ViewOk(crypto, w)
  {
    hide OtherChoice, ViewOk, Solution, InAlternative, Covered;
    var none: State := [{}];
    forall a: seq<nat> ensures !Allowed(none, a) {
      assert |a| == 1 ==> a[0] !in none[0];
    }
    OtherChoiceCovers(crypto, none, view);
  }

  lemma DroppedOk(crypto: Crypto, view: seq<Frame>, n: nat)
    requires crypto.Valid() && ViewOk(crypto, view) && view[0].Push?
    ensures var w := Dropped(view, n); w != [] && w[0].Push? && ViewOk(crypto, w)
  {
    hide Dropped, FrameOk, GuessCount;
    DroppedCount(view, n);
    ViewPrefix(crypto, view, |Dropped(view, n)|);
  }

  lemma OneFrame(crypto: Crypto, start: State)
    requires crypto.Valid() && |start| == crypto.Size()
    ensures ViewOk(crypto, [Push(start, 0)])
  {
  }

  lemma ChoicesOf(crypto: Crypto, conds: State, pos: nat)
    requires CondsFit(crypto, conds) && pos < crypto.Size() && crypto.bitsize[pos] == 1 && Several(conds[pos])
    ensures OneBit(conds[pos])
    ensures forall second :: Choice(conds[pos], second) < conds[pos] && Choice(conds[pos], second) != {}
  {
    hide Choice, Several;
    assert FitsBits(conds[pos], crypto.bitsize[pos]);
    ChoicesCover(conds[pos]);
  }

  /** A propagated state is settled with an empty worklist, and the other way round. */
  lemma StateSettled(crypto: Crypto, conds: State)
    requires crypto.Valid() && StateOk(crypto, conds)
    ensures CondsFit(crypto, conds) && NoneEmpty(conds) && Pending(crypto, DEFAULT_PRIORITY, conds, {})
  {
  }

  lemma SettledState(crypto: Crypto, conds: State)
    requires crypto.Valid() && CondsFit(crypto, conds) && NoneEmpty(conds) && Pending(crypto, DEFAULT_PRIORITY, conds, {})
    ensures StateOk(crypto, conds)
  {
  }

  lemma GuessCovered(crypto: Crypto, root: State, view: seq<Frame>, at: State, pos: nat, c: Cond, index: bool, keep: bool,
                     stored: bool)
    requires crypto.Valid() && ViewOk(crypto, view) && SizesOk(crypto, view) && Sharpens(crypto, at, TopState(view))
    requires view != [] && |at| == crypto.Size() && pos < crypto.Size() && OneBit(c) && at[pos] == c
    ensures Covered(crypto, root, view) && keep ==>
      var after := AfterGuess(crypto, view, at, pos, c, index, keep, stored);
      Covered(crypto, root, after) && (after == view ==> Refuted(crypto, root, view))
  {
    hide AfterGuess, Covered, Refuted, Sharpens, ViewOk, SizesOk;
    if Covered(crypto, root, view) && keep {
      AfterGuessCovers(crypto, root, view, at, pos, c, index, stored);
    }
  }

  lemma FirstGuessed(crypto: Crypto, root: State, view: seq<Frame>, at: State, pos: nat, c: Cond, index: bool, keep: bool,
                     stored: bool)
    requires crypto.Valid() && ViewOk(crypto, view) && SizesOk(crypto, view) && Sharpens(crypto, at, TopState(view))
    requires view != [] && |at| == crypto.Size() && pos < crypto.Size() && OneBit(c) && at[pos] == c
    requires NoneEmpty(Gfp(crypto, DEFAULT_PRIORITY, at[pos := Choice(c, index)]))
    ensures var after := WithGuess(crypto, view, Guess(pos, Choice(c, index), if keep then Choice(c, !index) else {}),
                                   Gfp(crypto, DEFAULT_PRIORITY, at[pos := Choice(c, index)]), stored);
      && AfterGuess(crypto, view, at, pos, c, index, keep, stored) == after
      && (Covered(crypto, root, view) && keep ==> Covered(crypto, root, after))
  {
    hide Covered, Sharpens, ViewOk, SizesOk, WithGuess;
    GuessCovered(crypto, root, view, at, pos, c, index, keep, stored);
  }

  lemma SecondGuessed(crypto: Crypto, root: State, view: seq<Frame>, at: State, pos: nat, c: Cond, index: bool, keep: bool,
                      stored: bool)
    requires crypto.Valid() && ViewOk(crypto, view) && SizesOk(crypto, view) && Sharpens(crypto, at, TopState(view))
    requires view != [] && |at| == crypto.Size() && pos < crypto.Size() && OneBit(c) && at[pos] == c
    requires !NoneEmpty(Gfp(crypto, DEFAULT_PRIORITY, at[pos := Choice(c, index)]))
    requires NoneEmpty(Gfp(crypto, DEFAULT_PRIORITY, at[pos := Choice(c, !index)]))
    ensures var after := WithGuess(crypto, view, Guess(pos, Choice(c, !index), {}),
                                   Gfp(crypto, DEFAULT_PRIORITY, at[pos := Choice(c, !index)]), stored);
      && AfterGuess(crypto, view, at, pos, c, index, keep, stored) == after
      && (Covered(crypto, root, view) && keep ==> Covered(crypto, root, after))
  {
    hide Covered, Sharpens, ViewOk, SizesOk, WithGuess;
    GuessCovered(crypto, root, view, at, pos, c, index, keep, stored);
  }

  lemma BothFailed(crypto: Crypto, root: State, view: seq<Frame>, at: State, pos: nat, c: Cond, index: bool, keep: bool,
                   stored: bool)
    requires crypto.Valid() && ViewOk(crypto, view) && SizesOk(crypto, view) && Sharpens(crypto, at, TopState(view))
    requires view != [] && |at| == crypto.Size() && pos < crypto.Size() && OneBit(c) && at[pos] == c
    requires !NoneEmpty(Gfp(crypto, DEFAULT_PRIORITY, at[pos := Choice(c, index)]))
    requires !NoneEmpty(Gfp(crypto, DEFAULT_PRIORITY, at[pos := Choice(c, !index)]))
    ensures AfterGuess(crypto, view, at, pos, c, index, keep, stored) == view
    ensures Covered(crypto, root, view) && keep ==> Refuted(crypto, root, view)
  {
    hide Covered, Refuted, Sharpens, ViewOk, SizesOk, WithGuess;
    GuessCovered(crypto, root, view, at, pos, c, index, keep, stored);
  }
}
