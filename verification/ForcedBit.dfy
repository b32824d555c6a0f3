/** A run after which the states handed out depend on the frequency of the search stack: completing the characteristic
    forces a bit that is not on the stack, and a guess is added with the completed state (src/search.cpp,
    src/search_stack.cpp). */
module ForcedBits {
  import opened BitsliceFunctions
  import opened Choices
  import opened Cryptos
  import opened Worklists
  import opened Characteristics
  import opened PlainStacks
  import opened Completions
  import opened Coverage

  // ---- the system: y = x, z = x and not y, and a free bit ----

  function AndNot(): Func {
    Func(2, 1, [1, 1, 1], [0, 1, 2], (x: seq<nat>) => if |x| == 2 && x[1] <= 1 then [x[0] * (1 - x[1])] else [])
  }

  lemma AndNotValid()
    ensures AndNot().Valid() && AndNot().Slots() == 3
  {
    var fn := AndNot();
    forall x: seq<nat> | fn.InRange(x) ensures fn.FitsOut(fn.f(x)) {
      assert x[0] < fn.Base(0) && x[1] < fn.Base(1);
      assert x[0] == 0 || x[0] == 1;
    }
  }

  /** Codes of equal bits have the same bits in both messages. */
  lemma EqualMessages(t: seq<nat>, second: bool)
    requires |t| == 3 && forall i :: 0 <= i < 3 ==> t[i] in DASH
    ensures Message(AndNot(), t, second) == [t[0] / 3, t[1] / 3, t[2] / 3]
  {
    var fn := AndNot();
    assert forall i :: 0 <= i < 3 ==> fn.Base(i) == 2;
    assert forall i :: 0 <= i < 3 ==> t[i] == 0 || t[i] == 3;
  }

  lemma AndNotRelation(t: seq<nat>)
    requires |t| == 3 && forall i :: 0 <= i < 3 ==> t[i] in DASH
    ensures AndNot().Valid() && (Rel(AndNot(), t) <==> t[2] == if t[0] == 3 && t[1] == 0 then 3 else 0)
  {
    AndNotValid();
    EqualMessages(t, false);
    EqualMessages(t, true);
    AndNotBits(t[0] / 3, t[1] / 3, t[2] / 3);
    var fn := AndNot();
    hide Message, Func.Valid, AndNot;
    assert forall i :: 0 <= i < 3 ==> t[i] == 0 || t[i] == 3;
    assert t[0] / 3 == (if t[0] == 3 then 1 else 0) && t[1] / 3 == (if t[1] == 3 then 1 else 0);
    assert t[2] / 3 == (if t[2] == 3 then 1 else 0);
  }

  lemma AndNotBits(x: nat, y: nat, z: nat)
    requires x <= 1 && y <= 1 && z <= 1
    ensures AndNot().Slots() == |AndNot().bitsize| == 3 && AndNot().ins == 2 && forall i :: 0 <= i < 3 ==> AndNot().Base(i) == 2
    ensures [x, y, z][2..] == AndNot().f([x, y, z][..2]) <==> z == if x == 1 && y == 0 then 1 else 0
  {
    var m := [x, y, z];
    assert m[..2] == [x, y] && m[2..] == [z];
    assert AndNot().f([x, y]) == [x * (1 - y)];
    assert m[2..][0] == z && [x * (1 - y)][0] == x * (1 - y);
  }

  function Chain(): Crypto {
    Crypto([Step(Same(), 0, [[0, 1]]), Step(AndNot(), 0, [[0, 1, 2]])], [1, 1, 1, 1])
  }

  const LINK := StepUpdate(0, 0, 0)
  const GATE := StepUpdate(0, 1, 0)

  lemma ChainValid()
    ensures Chain().Valid() && Chain().Size() == 4
  {
    SameValid();
    AndNotValid();
    var c := Chain();
    hide Func.Valid;
    assert c.SlotsValid(Same(), [0, 1]);
    assert c.SlotsValid(AndNot(), [0, 1, 2]);
    assert c.steps[0] == Step(Same(), 0, [[0, 1]]) && c.steps[1] == Step(AndNot(), 0, [[0, 1, 2]]);
  }

  lemma ChainSteps(u: StepUpdate)
    ensures Chain().Has(u) <==> u == LINK || u == GATE
    ensures Chain().Has(LINK) && Chain().At(LINK) == [0, 1] && Chain().Fn(LINK) == Same()
    ensures Chain().Has(GATE) && Chain().At(GATE) == [0, 1, 2] && Chain().Fn(GATE) == AndNot()
  {
    var c := Chain();
    assert c.steps[0] == Step(Same(), 0, [[0, 1]]) && c.steps[1] == Step(AndNot(), 0, [[0, 1, 2]]);
  }

  // ---- states ----

  /** Equal bits, as the search starts with them; the last two conditions may be decided. */
  function Bits(z: Cond, w: Cond): State {
    [DASH, DASH, z, w]
  }

  lemma LinkFixed(z: Cond, w: Cond)
    ensures Chain().Valid() && Chain().Size() == 4 && Chain().Has(LINK) && Fixed(Chain(), LINK, Bits(z, w))
  {
    ChainValid();
    ChainSteps(LINK);
    SameProjected(DASH, DASH);
    hide Projected, Crypto.Valid, Func.Valid;
    assert Gather(Bits(z, w), [0, 1]) == [DASH, DASH];
    assert DASH * DASH == DASH;
  }

  /** Every value of the conditions at the gate is taken. */
  lemma GateTakes(z: Cond, i: nat, v: nat)
    requires (z == DASH || z == {0}) && i < 3 && v in [DASH, DASH, z][i]
    ensures AndNot().Valid() && Takes(AndNot(), [DASH, DASH, z], i, v)
  {
    AndNotValid();
    var t := if v == 0 then [0, 0, 0] else if i < 2 then [3, 3, 0] else [3, 0, 3];
    AndNotRelation(t);
    hide Rel, Func.Valid;
    assert Allowed([DASH, DASH, z], t) && t[i] == v;
  }

  lemma GateProjected(z: Cond)
    requires z == DASH || z == {0}
    ensures AndNot().Valid() && AndNot().Slots() == 3 && Projected(AndNot(), [DASH, DASH, z]) == [DASH, DASH, z]
  {
    AndNotValid();
    var conds: seq<Cond> := [DASH, DASH, z];
    ProjectionShrinks(AndNot(), conds);
    var r := Projected(AndNot(), conds);
    hide Takes, Func.Valid;
    forall i, v | 0 <= i < 3 && v in conds[i] ensures v in r[i] {
      ProjectedAt(AndNot(), conds, i, v);
      GateTakes(z, i, v);
    }
    hide Projected;
    LeqAntisymmetric(r, conds);
  }

  lemma GateFixed(z: Cond, w: Cond)
    requires z == DASH || z == {0}
    ensures Chain().Valid() && Chain().Size() == 4 && Chain().Has(GATE) && Fixed(Chain(), GATE, Bits(z, w))
  {
    ChainValid();
    ChainSteps(GATE);
    GateProjected(z);
    hide Projected, Crypto.Valid, Func.Valid, Crypto.At, Crypto.Fn, Crypto.Has;
    GateSlots(z, w);
  }

  lemma GateSlots(z: Cond, w: Cond)
    ensures Gather(Bits(z, w), [0, 1, 2]) == [DASH, DASH, z]
  {
  }

  lemma BitsFit(z: Cond, w: Cond)
    requires OneBit(z) && z != {} && OneBit(w) && w != {}
    ensures CondsFit(Chain(), Bits(z, w)) && NoneEmpty(Bits(z, w))
  {
    assert 0 in DASH;
    assert OneBit(DASH);
    assert forall k :: 0 <= k < 4 ==> FitsBits(Bits(z, w)[k], Chain().bitsize[k]);
  }

  lemma BitsOk(z: Cond, w: Cond)
    requires (z == DASH || z == {0}) && (w == DASH || w == {0})
    ensures Chain().Valid() && Chain().Size() == 4 && StateOk(Chain(), Bits(z, w))
    ensures Gfp(Chain(), DEFAULT_PRIORITY, Bits(z, w)) == Bits(z, w)
  {
    ChainValid();
    LinkFixed(z, w);
    GateFixed(z, w);
    BitsFit(z, w);
    var conds := Bits(z, w);
    hide Fixed, Crypto.Valid, Crypto.Has, CondsFit, NoneEmpty, Gfp, Bits;
    forall u | Active(Chain(), DEFAULT_PRIORITY, u) ensures Fixed(Chain(), u, conds) {
      ChainSteps(u);
    }
    GfpBelow(Chain(), DEFAULT_PRIORITY, conds);
    GfpReached(Chain(), DEFAULT_PRIORITY, conds, conds);
  }

  // ---- the forced bit ----

  /** A fixed gate with a one in z has for each value of x and of z a fitting value of y. */
  lemma GateNeeds(g: State, i: nat, v: nat) returns (t: seq<nat>)
    requires Chain().Valid() && Chain().Size() == 4 == |g| && Chain().Has(GATE) && Fixed(Chain(), GATE, g)
    requires g[0] <= DASH && g[1] <= DASH && g[2] <= DASH && i < 3 && v in g[i]
    ensures |t| == 3 && t[i] == v && t[0] in g[0] && t[1] in g[1] && t[2] in g[2]
    ensures t[2] == if t[0] == 3 && t[1] == 0 then 3 else 0
  {
    ChainSteps(GATE);
    hide Fixed, Rel, Crypto.Valid, Func.Valid;
    assert [0, 1, 2][i] == i;
    t := Supported(Chain(), GATE, g, i, v);
    assert t[0] in g[[0, 1, 2][0]] && t[1] in g[[0, 1, 2][1]] && t[2] in g[[0, 1, 2][2]];
    AndNotRelation(t);
  }

  lemma LinkNeeds(g: State, v: nat)
    requires Chain().Valid() && Chain().Size() == 4 == |g| && Chain().Has(LINK) && Fixed(Chain(), LINK, g) && v in g[1]
    ensures v in g[0]
  {
    ChainSteps(LINK);
    hide Fixed, Rel, Crypto.Valid, Func.Valid;
    assert [0, 1][1] == 1;
    var t := Supported(Chain(), LINK, g, 1, v);
    SameRelation(t);
    assert t[0] in g[[0, 1][0]];
  }

  /** If z is one, x is one and y is zero, but then a zero of x has to be equal to y and leaves no one for z. */
  lemma ForcedFixpoint(g: State)
    requires Chain().Valid() && Chain().Size() == 4 == |g| && AllFixed(Chain(), DEFAULT_PRIORITY, g)
    requires g[0] <= DASH && g[1] <= DASH && g[2] <= {3}
    ensures g[2] == {}
  {
    ChainSteps(LINK);
    ChainSteps(GATE);
    assert Active(Chain(), DEFAULT_PRIORITY, LINK) && Active(Chain(), DEFAULT_PRIORITY, GATE);
    hide Fixed, Crypto.Valid;
    if 3 in g[2] {
      var t := GateNeeds(g, 2, 3);
      LinkNeeds(g, 0);
      var r := GateNeeds(g, 0, 0);
      assert false;
    }
  }

  lemma ForcedBit()
    ensures Chain().Valid() && Chain().Size() == 4
    ensures !NoneEmpty(Gfp(Chain(), DEFAULT_PRIORITY, Bits({3}, DASH)))
  {
    ChainValid();
    var start := Bits({3}, DASH);
    var g := Gfp(Chain(), DEFAULT_PRIORITY, start);
    GfpBelow(Chain(), DEFAULT_PRIORITY, start);
    GfpFixed(Chain(), DEFAULT_PRIORITY, start);
    hide Gfp, AllFixed, Crypto.Valid;
    assert g[0] <= DASH && g[1] <= DASH && g[2] <= {3};
    ForcedFixpoint(g);
  }

  // ---- the run ----

  /** From a propagated state with `-` everywhere completing forces z to zero; nothing else is decided, so that the free
      bit may be guessed next, and the guess leads the completed state to one with z and w zero. */
  lemma CompletionForces()
    ensures Chain().Valid() && Chain().Size() == 4
    ensures StateOk(Chain(), Bits(DASH, DASH)) && EqualOrDifferent(DASH) && Choice(DASH, false) == {0} && Choice(DASH, true) == {3}
    ensures !NoneEmpty(Gfp(Chain(), DEFAULT_PRIORITY, Bits(DASH, DASH)[2 := {3}]))
    ensures Gfp(Chain(), DEFAULT_PRIORITY, Bits(DASH, DASH)[2 := {0}]) == Bits({0}, DASH)
    ensures Gfp(Chain(), DEFAULT_PRIORITY, Bits({0}, DASH)[3 := {0}]) == Bits({0}, {0})
  {
    DashChoices();
    ForcedBit();
    BitsOk(DASH, DASH);
    BitsOk({0}, DASH);
    BitsOk({0}, {0});
    hide Gfp, StateOk, Crypto.Valid, NoneEmpty, Choice;
    assert Bits(DASH, DASH)[2 := {3}] == Bits({3}, DASH) && Bits(DASH, DASH)[2 := {0}] == Bits({0}, DASH);
    assert Bits({0}, DASH)[3 := {0}] == Bits({0}, {0});
  }

  const TOP: State := Bits(DASH, DASH)
  const FREE := Guess(3, {0}, {3})
  const START := [Push(TOP, 0)]
  const GUESSED := [OpGuess(FREE, Bits({0}, {0}))]

  /** The guess alone does not decide z. */
  lemma GuessLeads()
    ensures Chain().Valid() && Chain().Size() == 4 && GuessOk(Chain(), TOP, FREE)
    ensures Gfp(Chain(), DEFAULT_PRIORITY, TOP[3 := {0}]) == Bits(DASH, {0})
  {
    BitsOk(DASH, {0});
    BitsFit(DASH, {0});
    hide Gfp, StateOk, Crypto.Valid, NoneEmpty;
    assert TOP[3 := {0}] == Bits(DASH, {0});
    assert 0 in DASH && 3 in DASH;
  }

  /** Adding the guess of the free bit with the completed state: a stack that stores the state hands it out again, one
      that replays the guess does not have z. */
  lemma FrequencyMatters()
    ensures Chain().Valid() && Chain().Size() == 4
    ensures SizesOk(Chain(), START) && RunOk(Chain(), START, GUESSED) && !RunLed(Chain(), START, GUESSED)
    ensures Outcomes(Chain(), START, GUESSED, [true]) == [Outcome(Bits({0}, {0}), 0, 1)]
    ensures Outcomes(Chain(), START, GUESSED, [false]) == [Outcome(Bits(DASH, {0}), 0, 1)]
  {
    GuessLeads();
    BitsOk({0}, {0});
    OneGuess(Chain(), TOP, FREE, Bits({0}, {0}));
    assert 3 in Bits(DASH, {0})[2] && 3 !in Bits({0}, {0})[2];
  }

  /** A run of one guess that is added with another state than the guess leads to. */
  lemma OneGuess(crypto: Crypto, top: State, g: Guess, led: State)
    requires crypto.Valid() && |top| == crypto.Size() && GuessOk(crypto, top, g) && StateOk(crypto, led)
    ensures var view, ops := [Push(top, 0)], [OpGuess(g, led)];
      && SizesOk(crypto, view) && RunOk(crypto, view, ops)
      && var next := Gfp(crypto, DEFAULT_PRIORITY, top[g.pos := g.first]);
      && (RunLed(crypto, view, ops) <==> led == next)
      && Outcomes(crypto, view, ops, [true]) == [Outcome(led, 0, 1)]
      && Outcomes(crypto, view, ops, [false]) == [Outcome(next, 0, 1)]
  {
    var view, ops := [Push(top, 0)], [OpGuess(g, led)];
    assert OpOk(crypto, view, ops[0]);
    hide Gfp, Crypto.Valid, StateOk, GuessOk, OpOk;
    assert ops[1..] == [];
    var next := Next(crypto, view, g);
    assert AfterOp(crypto, view, ops[0], false) == [Push(top, 0), Guessed(g, next)];
    OneCount(top, g, next, led);
    assert OutcomeOf(AfterOp(crypto, view, ops[0], false)) == Outcome(next, 0, 1);
    assert OutcomeOf(AfterOp(crypto, view, ops[0], true)) == Outcome(led, 0, 1) by {
      if led != next {
        assert AfterOp(crypto, view, ops[0], true) == [Push(top, 0), Guessed(g, next), Push(led, 0)];
      }
    }
    assert [true][0] && ![false][0];
    assert RunOk(crypto, AfterOp(crypto, view, ops[0], false), []);
    assert RunOk(crypto, AfterOp(crypto, view, ops[0], true), []);
  }

  lemma OneCount(top: State, g: Guess, next: State, led: State)
    ensures OutcomeOf([Push(top, 0), Guessed(g, next)]) == Outcome(next, 0, 1)
    ensures TopPhase([Push(top, 0)]) == 0
    ensures OutcomeOf([Push(top, 0), Guessed(g, next), Push(led, 0)]) == Outcome(led, 0, 1)
  {
    var push := [Push(top, 0)];
    var two := push + [Guessed(g, next)];
    var three := two + [Push(led, 0)];
    assert push[..0] == [] && two[..1] == push && three[..2] == two;
    assert GuessCount(push) == 0 && TopPhase(push) == 0;
    assert two[1].Guessed? && GuessCount(two) == 1 && TopPhase(two) == 0;
    assert three[2].Push? && GuessCount(three) == 1;
    assert two == [Push(top, 0), Guessed(g, next)] && three == [Push(top, 0), Guessed(g, next), Push(led, 0)];
  }
}
