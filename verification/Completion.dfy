/** For which filters completing a characteristic ends (src/characteristic.cpp): exactly for those that tell the two
    choices of a selected condition apart. */
module Completions {
  import opened BitsliceFunctions
  import opened Choices
  import opened Cryptos
  import opened Worklists
  import opened Characteristics

  // ---- a bit that is tried again is tried for ever ----

  /** The bits left to be tried after trying the first of them, when both of its choices are possible. */
  ghost function Trial(crypto: Crypto, conds: seq<Cond>, todo: set<nat>, p: nat, f: Cond -> bool): set<nat>
    requires crypto.Valid() && |conds| == crypto.Size() && p < |conds|
  {
    var between := ConditionMask(crypto, Gfp(crypto, DEFAULT_PRIORITY, conds[p := Choice(conds[p], false)]), todo, f);
    ConditionMask(crypto, Gfp(crypto, DEFAULT_PRIORITY, conds[p := Choice(conds[p], true)]), between, f)
  }

  /** `todos` are the bits left before each of a number of trials. */
  ghost predicate Trials(crypto: Crypto, conds: seq<Cond>, todos: seq<set<nat>>, f: Cond -> bool)
    requires crypto.Valid() && |conds| == crypto.Size()
  {
    forall i: nat, p: nat :: i < |todos| - 1 && IsFirst(todos[i], p) && p < |conds| ==>
      todos[i + 1] == Trial(crypto, conds, todos[i], p, f)
  }

  /** A bit that repeats, once it is the first one, stays the first one: the loop never gets past it. */
  lemma {:induction false} RepeatsForever(crypto: Crypto, conds: seq<Cond>, todos: seq<set<nat>>, f: Cond -> bool, p: nat,
                                          i: nat, j: nat)
    requires crypto.Valid() && CondsFit(crypto, conds) && p < crypto.Size() && crypto.bitsize[p] == 1
    requires Trials(crypto, conds, todos, f) && i <= j < |todos| && IsFirst(todos[i], p) && Repeats(crypto, conds, p, f)
    ensures IsFirst(todos[j], p)
  {
    if i < j {
      RepeatsForever(crypto, conds, todos, f, p, i, j - 1);
      hide Gfp, Choice;
      assert todos[j] == Trial(crypto, conds, todos[j - 1], p, f);
    }
  }

  // ---- a system in which an unseparated condition repeats ----

  /** The output is the input. */
  function Same(): Func {
    Func(1, 1, [1, 1], [0, 1], x => x)
  }

  lemma SameValid()
    ensures Same().Valid()
  {
    var fn := Same();
    forall x: seq<nat> | fn.InRange(x) ensures fn.FitsOut(fn.f(x)) {
      assert x[0] < fn.Base(0);
    }
  }

  lemma SameRelation(t: seq<nat>)
    ensures Same().Valid() && (Rel(Same(), t) <==> |t| == 2 && t[0] == t[1] < 4)
  {
    SameValid();
    var fn := Same();
    if |t| == 2 && t[0] < 4 && t[1] < 4 {
      assert Message(fn, t, false)[1..] == [t[1] % 2] && Message(fn, t, false)[..1] == [t[0] % 2];
      assert Message(fn, t, true)[1..] == [t[1] / 2] && Message(fn, t, true)[..1] == [t[0] / 2];
    }
    assert fn.Slots() == 2 && fn.Base(0) == fn.Base(1) == 2;
  }

  lemma SameTakes(a: Cond, b: Cond, i: nat, v: nat)
    requires OneBit(a) && OneBit(b) && i < 2
    ensures Same().Valid() && (Takes(Same(), [a, b], i, v) <==> v in a * b)
  {
    SameValid();
    var fn, conds := Same(), [a, b];
    hide Rel, Func.Valid;
    if v in a * b {
      SameRelation([v, v]);
      assert Allowed(conds, [v, v]);
    }
    if Takes(fn, conds, i, v) {
      var t :| Rel(fn, t) && Allowed(conds, t) && i < |t| && t[i] == v;
      SameRelation(t);
    }
  }

  lemma SameProjected(a: Cond, b: Cond)
    requires OneBit(a) && OneBit(b)
    ensures Same().Valid() && Same().Slots() == 2 && Projected(Same(), [a, b]) == [a * b, a * b]
  {
    SameValid();
    var r := Projected(Same(), [a, b]);
    hide Func.Valid, Takes;
    forall i: nat, v: nat | i < 2 ensures v in r[i] <==> v in a * b {
      ProjectedAt(Same(), [a, b], i, v);
      SameTakes(a, b, i, v);
    }
    hide Projected;
    assert r[0] == a * b && r[1] == a * b;
  }

  /** Two conditions of one bit that are to be equal. */
  function Linked(): Crypto {
    Crypto([Step(Same(), 0, [[0, 1]])], [1, 1])
  }

  lemma LinkedValid()
    ensures Linked().Valid() && Linked().Size() == 2
    ensures forall u :: Linked().Has(u) <==> u == StepUpdate(0, 0, 0)
  {
    SameValid();
    assert Linked().steps[0].fn == Same() && Linked().SlotsValid(Same(), [0, 1]);
  }

  lemma LinkedStep(conds: seq<Cond>, u: StepUpdate)
    requires |conds| == 2 && OneBit(conds[0]) && OneBit(conds[1]) && u == StepUpdate(0, 0, 0)
    ensures Linked().Valid() && Linked().Size() == 2 && Linked().Has(u)
    ensures Fixed(Linked(), u, conds) <==> conds[0] == conds[1]
  {
    LinkedValid();
    LinkedSlots(u);
    var a, b := conds[0], conds[1];
    SameProjected(a, b);
    PairGathered(conds);
    hide Projected, Crypto.Valid, Func.Valid, Crypto.At, Crypto.Fn, Crypto.Has, Same, Gather;
    BothSame(a, b);
  }

  lemma BothSame(a: Cond, b: Cond)
    ensures [a * b, a * b] == [a, b] <==> a == b
  {
    var meet := a * b;
    if a == b {
      assert meet == a;
    }
    if [meet, meet] == [a, b] {
      assert [meet, meet][0] == a && [meet, meet][1] == b;
    }
  }

  lemma LinkedSlots(u: StepUpdate)
    requires u == StepUpdate(0, 0, 0)
    ensures Linked().Has(u) && Linked().At(u) == [0, 1] && Linked().Fn(u) == Same()
  {
  }

  lemma PairGathered(conds: seq<Cond>)
    requires |conds| == 2
    ensures Gather(conds, [0, 1]) == [conds[0], conds[1]]
  {
  }

  lemma LinkedFixed(conds: seq<Cond>)
    requires |conds| == 2 && OneBit(conds[0]) && OneBit(conds[1])
    ensures Linked().Valid() && Linked().Size() == 2
    ensures AllFixed(Linked(), DEFAULT_PRIORITY, conds) <==> conds[0] == conds[1]
  {
    LinkedValid();
    var u := StepUpdate(0, 0, 0);
    LinkedStep(conds, u);
    hide Crypto.Valid, Fixed, Crypto.Has;
    assert Active(Linked(), DEFAULT_PRIORITY, u);
  }

  lemma LinkedGfp(a: Cond, b: Cond)
    requires OneBit(a) && OneBit(b)
    ensures Linked().Valid() && Linked().Size() == 2
    ensures Gfp(Linked(), DEFAULT_PRIORITY, [a, b]) == [a * b, a * b]
  {
    LinkedValid();
    var start, fix := [a, b], [a * b, a * b];
    var g := Gfp(Linked(), DEFAULT_PRIORITY, start);
    GfpBelow(Linked(), DEFAULT_PRIORITY, start);
    GfpFixed(Linked(), DEFAULT_PRIORITY, start);
    LinkedFixed(g);
    LinkedFixed(fix);
    hide Gfp, AllFixed, Crypto.Valid;
    assert Leq(g, fix);
    GfpReached(Linked(), DEFAULT_PRIORITY, start, fix);
  }

  /** A filter that selects a condition and a possible remainder of each of its choices repeats a bit: in a system of two
      linked bits the second condition leaves just these remainders. */
  lemma UnseparatedRepeats(f: Cond -> bool, c: Cond, d: Cond, e: Cond)
    requires OneBit(c) && f(c) && d <= Choice(c, false) && e <= Choice(c, true) && d != {} && e != {} && f(d) && f(e)
    ensures Linked().Valid() && CondsFit(Linked(), [c, d + e]) && NoneEmpty([c, d + e])
    ensures Repeats(Linked(), [c, d + e], 0, f)
  {
    LinkedValid();
    ChoicesCover(c);
    var conds, first, second := [c, d + e], Choice(c, false), Choice(c, true);
    Remainder(first, second, d, e, c);
    assert conds[0 := first] == [first, d + e] && conds[0 := second] == [second, d + e];
    LinkedGfp(first, d + e);
    LinkedGfp(second, d + e);
    hide Gfp, Choice, Crypto.Valid;
    assert forall k :: 0 <= k < 2 ==> FitsBits(conds[k], Linked().bitsize[k]);
  }

  lemma Remainder(first: Cond, second: Cond, d: Cond, e: Cond, c: Cond)
    requires first + second == c && OneBit(c) && d <= first && e <= second && d != {} && e != {}
    requires !Several(c) ==> first == c && second == c
    requires Several(c) ==> first !! second
    ensures first * (d + e) == d && second * (d + e) == e && OneBit(d + e) && OneBit(first) && OneBit(second) && c != {}
  {
    if !Several(c) {
      assert d == e == c by {
        var a :| a in d;
        var b :| b in e;
        forall v | v in c ensures v == a && v == b {
        }
      }
    }
  }

  /** Exactly the separating filters repeat no bit, whatever the system and the state without a contradiction. */
  lemma SeparatesExactly(f: Cond -> bool)
    ensures Separates(f) <==>
      forall crypto: Crypto, conds: seq<Cond>, p: nat ::
        crypto.Valid() && CondsFit(crypto, conds) && NoneEmpty(conds) && p < crypto.Size() && crypto.bitsize[p] == 1 ==>
          !Repeats(crypto, conds, p, f)
  {
    if Separates(f) {
      forall crypto: Crypto, conds: seq<Cond>, p: nat |
        crypto.Valid() && CondsFit(crypto, conds) && NoneEmpty(conds) && p < crypto.Size() && crypto.bitsize[p] == 1
        ensures !Repeats(crypto, conds, p, f)
      {
        SeparatedNeverRepeats(crypto, conds, p, f);
      }
    } else {
      var c: Cond, d: Cond, e: Cond :|
        OneBit(c) && f(c) && d <= Choice(c, false) && e <= Choice(c, true) && d != {} && e != {} && f(d) && f(e);
      UnseparatedRepeats(f, c, d, e);
    }
  }

  // ---- a propagated state in which an unseparated condition repeats ----

  /** A value that is left at a slot of a fixed step bit belongs to a solution of the step among the values left. */
  lemma Supported(crypto: Crypto, u: StepUpdate, conds: seq<Cond>, i: nat, v: nat) returns (t: seq<nat>)
    requires crypto.Valid() && crypto.Size() == |conds| && crypto.Has(u) && Fixed(crypto, u, conds)
    requires i < |crypto.At(u)| && crypto.At(u)[i] < |conds| && v in conds[crypto.At(u)[i]]
    ensures crypto.Fn(u).Valid() && Rel(crypto.Fn(u), t) && |t| == |crypto.At(u)| && t[i] == v
    ensures forall j :: 0 <= j < |t| ==> crypto.At(u)[j] < |conds| && t[j] in conds[crypto.At(u)[j]]
  {
    crypto.AtValid(u);
    var g := Gather(conds, crypto.At(u));
    assert v in Projected(crypto.Fn(u), g)[i];
    ProjectedAt(crypto.Fn(u), g, i, v);
    t :| Rel(crypto.Fn(u), t) && Allowed(g, t) && i < |t| && t[i] == v;
  }

  /** The outputs are the two bits of the input. */
  function Split(): Func {
    Func(1, 2, [2, 1, 1], [0, 1, 2], (x: seq<nat>) => if |x| == 1 then [x[0] % 2, x[0] / 2] else [])
  }

  lemma SplitValid()
    ensures Split().Valid() && Split().Slots() == 3
  {
    var fn := Split();
    forall x: seq<nat> | fn.InRange(x) ensures fn.FitsOut(fn.f(x)) {
      assert x[0] < fn.Base(0) == 4;
    }
  }

  /** The code of the two bits whose codes are `v` and `s`. */
  function Joint(v: nat, s: nat): nat {
    v % 2 + 2 * (s % 2) + 4 * (v / 2 + 2 * (s / 2))
  }

  lemma JointParts(v: nat, s: nat)
    requires v < 4 && s < 4
    ensures var w := Joint(v, s); w < 16 && w % 4 % 2 == v % 2 && w % 4 / 2 == s % 2 && w / 4 % 2 == v / 2 && w / 4 / 2 == s / 2
  {
    var lo, hi := v % 2 + 2 * (s % 2), v / 2 + 2 * (s / 2);
    TwoBits(v % 2, s % 2);
    TwoBits(v / 2, s / 2);
    TwoCodes(lo, hi);
  }

  lemma TwoBits(a: nat, b: nat)
    requires a < 2 && b < 2
    ensures a + 2 * b < 4 && (a + 2 * b) % 2 == a && (a + 2 * b) / 2 == b
  {
  }

  lemma TwoCodes(lo: nat, hi: nat)
    requires lo < 4 && hi < 4
    ensures lo + 4 * hi < 16 && (lo + 4 * hi) % 4 == lo && (lo + 4 * hi) / 4 == hi
  {
  }

  lemma JointInjective(v: nat, s: nat, v1: nat, s1: nat)
    requires v < 4 && s < 4 && v1 < 4 && s1 < 4 && Joint(v, s) == Joint(v1, s1)
    ensures v == v1 && s == s1
  {
    JointParts(v, s);
    JointParts(v1, s1);
    hide Joint;
  }

  lemma SplitRelation(w: nat, v: nat, s: nat)
    requires v < 4 && s < 4
    ensures Split().Valid() && (Rel(Split(), [w, v, s]) <==> w == Joint(v, s))
  {
    SplitValid();
    var fn, t := Split(), [w, v, s];
    JointParts(v, s);
    assert forall i :: 0 <= i < 3 ==> fn.Base(i) == if i == 0 then 4 else 2;
    assert Message(fn, t, false)[1..] == [v % 2, s % 2] && Message(fn, t, false)[..1] == [w % 4];
    assert Message(fn, t, true)[1..] == [v / 2, s / 2] && Message(fn, t, true)[..1] == [w / 4];
  }

  /** The pairs of a value of `c` and what `k` makes of it. */
  ghost function Graph(c: Cond, k: nat -> nat): Cond {
    set v | v in c :: Joint(v, k(v))
  }

  /** A condition, two conditions on it and a further bit, and that bit. */
  function Joined(): Crypto {
    Crypto([Step(Split(), 0, [[1, 0, 3], [2, 0, 3]])], [1, 2, 2, 1])
  }

  const BOTH: Cond := {0, 1}

  lemma JoinedValid()
    ensures Joined().Valid() && Joined().Size() == 4
  {
    SplitValid();
    hide Func.Valid;
    var c := Joined();
    assert c.steps[0] == Step(Split(), 0, [[1, 0, 3], [2, 0, 3]]);
    assert c.SlotsValid(Split(), [1, 0, 3]);
    assert c.SlotsValid(Split(), [2, 0, 3]);
  }

  /** The step bit that joins the condition, the further bit and condition `1 + b`. */
  function Join(b: nat): StepUpdate {
    StepUpdate(0, 0, b)
  }

  lemma JoinedSlots(u: StepUpdate)
    ensures Joined().Has(u) <==> u == Join(0) || u == Join(1)
    ensures forall b: nat :: b < 2 ==>
      Joined().Has(Join(b)) && Joined().At(Join(b)) == [1 + b, 0, 3] && Joined().Fn(Join(b)) == Split()
  {
    assert Joined().steps[0] == Step(Split(), 0, [[1, 0, 3], [2, 0, 3]]);
  }

  /** Every value of `c` is mapped to `s`, and every value of `s` is taken. */
  ghost predicate Onto(c: Cond, s: Cond, k: nat -> nat) {
    OneBit(c) && OneBit(s) && s == Image(c, k)
  }

  ghost function Image(c: Cond, k: nat -> nat): Cond {
    set v | v in c :: k(v)
  }

  lemma OntoAt(c: Cond, s: Cond, k: nat -> nat, v: nat)
    requires Onto(c, s, k) && v in c
    ensures v < 4 && k(v) < 4 && k(v) in s
  {
    assert k(v) in Image(c, k);
  }

  lemma GraphTakes(c: Cond, s: Cond, k: nat -> nat, i: nat, x: nat)
    requires Onto(c, s, k) && i < 3 && x in [Graph(c, k), c, s][i]
    ensures Split().Valid() && Takes(Split(), [Graph(c, k), c, s], i, x)
  {
    SplitValid();
    var conds := [Graph(c, k), c, s];
    var v :| v in c && (if i == 0 then Joint(v, k(v)) == x else if i == 1 then v == x else k(v) == x);
    OntoAt(c, s, k, v);
    SplitRelation(Joint(v, k(v)), v, k(v));
    hide Rel, Func.Valid, Joint, Onto;
    var t := [Joint(v, k(v)), v, k(v)];
    assert Allowed(conds, t) && t[i] == x;
  }

  lemma GraphProjected(c: Cond, s: Cond, k: nat -> nat)
    requires Onto(c, s, k)
    ensures Split().Valid() && Split().Slots() == 3 && Projected(Split(), [Graph(c, k), c, s]) == [Graph(c, k), c, s]
  {
    SplitValid();
    var conds := [Graph(c, k), c, s];
    ProjectionShrinks(Split(), conds);
    var r := Projected(Split(), conds);
    hide Takes, Func.Valid, Onto, Graph;
    forall i, x | 0 <= i < 3 && x in conds[i] ensures x in r[i] {
      ProjectedAt(Split(), conds, i, x);
      GraphTakes(c, s, k, i, x);
    }
    hide Projected;
    LeqAntisymmetric(r, conds);
  }

  ghost function Joining(c: Cond, s: Cond, k: nat -> nat, l: nat -> nat): seq<Cond> {
    [c, Graph(c, k), Graph(c, l), s]
  }

  lemma JoinGathered(c: Cond, s: Cond, k: nat -> nat, l: nat -> nat)
    ensures Gather(Joining(c, s, k, l), [1, 0, 3]) == [Graph(c, k), c, s]
    ensures Gather(Joining(c, s, k, l), [2, 0, 3]) == [Graph(c, l), c, s]
  {
    hide Graph;
  }

  lemma JoinFixed(c: Cond, s: Cond, k: nat -> nat, l: nat -> nat, b: nat)
    requires Onto(c, s, k) && Onto(c, s, l) && b < 2
    ensures Joined().Valid() && Joined().Size() == 4 && Joined().Has(Join(b))
    ensures Fixed(Joined(), Join(b), Joining(c, s, k, l))
  {
    JoinedValid();
    JoinedSlots(Join(b));
    JoinGathered(c, s, k, l);
    GraphProjected(c, s, if b == 0 then k else l);
    hide Projected, Crypto.Valid, Func.Valid, Crypto.At, Crypto.Fn, Crypto.Has, Onto, Graph, Gather, Split;
    assert [1 + b, 0, 3] == if b == 0 then [1, 0, 3] else [2, 0, 3];
  }

  lemma JoiningFixed(c: Cond, s: Cond, k: nat -> nat, l: nat -> nat)
    requires Onto(c, s, k) && Onto(c, s, l)
    ensures Joined().Valid() && Joined().Size() == 4 && AllFixed(Joined(), DEFAULT_PRIORITY, Joining(c, s, k, l))
  {
    JoinedValid();
    JoinFixed(c, s, k, l, 0);
    JoinFixed(c, s, k, l, 1);
    hide Fixed, Crypto.Valid, Crypto.Has, Onto, Joining;
    forall u | Active(Joined(), DEFAULT_PRIORITY, u) ensures Fixed(Joined(), u, Joining(c, s, k, l)) {
      JoinedSlots(u);
    }
  }

  lemma GraphFits(c: Cond, s: Cond, k: nat -> nat)
    requires Onto(c, s, k) && c != {}
    ensures Graph(c, k) != {} && FitsBits(Graph(c, k), 2) && FitsBits(c, 1) && FitsBits(s, 1)
  {
    var a :| a in c;
    assert Joint(a, k(a)) in Graph(c, k);
    forall v | v in c ensures Joint(v, k(v)) < 16 {
      OntoAt(c, s, k, v);
      JointParts(v, k(v));
    }
    hide Onto;
  }

  lemma JoiningFits(c: Cond, s: Cond, k: nat -> nat, l: nat -> nat)
    requires Onto(c, s, k) && Onto(c, s, l) && c != {} && s != {}
    ensures CondsFit(Joined(), Joining(c, s, k, l)) && NoneEmpty(Joining(c, s, k, l))
  {
    GraphFits(c, s, k);
    GraphFits(c, s, l);
    hide Graph, Onto, FitsBits;
  }

  /** A value left of the condition is mapped to a value left of the further bit, and that is what a value left of the
      condition is mapped to. */
  lemma JoinedLeft(c: Cond, k: nat -> nat, b: nat, g: seq<Cond>, i: nat, x: nat) returns (v: nat)
    requires Joined().Valid() && Joined().Size() == |g| == 4 && b < 2 && Joined().Has(Join(b))
    requires Fixed(Joined(), Join(b), g) && OneBit(c) && OneBit(g[0]) && OneBit(g[3]) && g[1 + b] <= Graph(c, k)
    requires (forall v :: v in c ==> k(v) < 4) && 1 <= i < 3 && x in g[if i == 1 then 0 else 3]
    ensures v in c && v in g[0] && k(v) in g[3] && x == if i == 1 then v else k(v)
  {
    JoinedSlots(Join(b));
    hide Fixed, Crypto.Valid, Crypto.Has, Rel, Func.Valid, Joint;
    assert [1 + b, 0, 3][i] == if i == 1 then 0 else 3;
    var t := Supported(Joined(), Join(b), g, i, x);
    assert t[0] in g[[1 + b, 0, 3][0]] && t[1] in g[[1 + b, 0, 3][1]] && t[2] in g[[1 + b, 0, 3][2]];
    assert t == [t[0], t[1], t[2]];
    SplitRelation(t[0], t[1], t[2]);
    v :| v in c && Joint(v, k(v)) == t[0];
    JointInjective(v, k(v), t[1], t[2]);
  }

  /** Restricting the condition to `half`, all of which `k` maps to `x`, leaves what `l` maps to `x`, too. */
  lemma PartLeft(c: Cond, k: nat -> nat, l: nat -> nat, half: Cond, part: Cond, x: nat)
    requires Onto(c, BOTH, k) && Onto(c, BOTH, l) && half <= c && part <= half && part != {} && x in BOTH
    requires (forall v :: v in half ==> k(v) == x) && forall v :: v in half ==> (l(v) == x <==> v in part)
    ensures Joined().Valid() && Joined().Size() == 4
    ensures var g := Gfp(Joined(), DEFAULT_PRIORITY, Joining(c, BOTH, k, l)[0 := half]); g[0] == part && NoneEmpty(g)
  {
    hide Gfp;
    JoinedValid();
    var start := Joining(c, BOTH, k, l)[0 := half];
    var g := Gfp(Joined(), DEFAULT_PRIORITY, start);
    GfpBelow(Joined(), DEFAULT_PRIORITY, start);
    GfpFixed(Joined(), DEFAULT_PRIORITY, start);
    PartSolved(c, k, l, half, part, x);
    JoinedSlots(Join(0));
    JoinedSlots(Join(1));
    forall b: nat | b < 2 ensures Fixed(Joined(), Join(b), g) {
      assert Active(Joined(), DEFAULT_PRIORITY, Join(b));
    }
    hide Crypto.Valid, Joint, Graph, AllFixed, Fixed, Onto;
    assert g[0] <= half && g[1] <= Graph(c, k) && g[2] <= Graph(c, l) && g[3] <= BOTH;
    PartAbove(c, k, l, half, part, x, g);
  }

  lemma PartAbove(c: Cond, k: nat -> nat, l: nat -> nat, half: Cond, part: Cond, x: nat, g: seq<Cond>)
    requires Joined().Valid() && Joined().Size() == |g| == 4 && Joined().Has(Join(0)) && Joined().Has(Join(1))
    requires Fixed(Joined(), Join(0), g) && Fixed(Joined(), Join(1), g) && Onto(c, BOTH, k) && Onto(c, BOTH, l)
    requires half <= c && g[0] <= half && g[1] <= Graph(c, k) && g[2] <= Graph(c, l) && g[3] <= BOTH
    requires (forall v :: v in half ==> k(v) == x) && forall v :: v in half ==> (l(v) == x <==> v in part)
    ensures g[0] <= part
  {
    forall v | v in c ensures v < 4 && k(v) < 4 && l(v) < 4 {
      OntoAt(c, BOTH, k, v);
      OntoAt(c, BOTH, l, v);
    }
    hide Fixed, Crypto.Valid, Crypto.Has, Graph, Onto;
    forall v | v in g[0] ensures v in part {
      var v1 := JoinedLeft(c, l, 1, g, 1, v);
      var v2 := JoinedLeft(c, k, 0, g, 2, l(v));
    }
  }

  /** The part is a fixpoint below. */
  lemma PartSolved(c: Cond, k: nat -> nat, l: nat -> nat, half: Cond, part: Cond, x: nat)
    requires Onto(c, BOTH, k) && Onto(c, BOTH, l) && half <= c && part <= half && part != {} && x in BOTH
    requires (forall v :: v in half ==> k(v) == x) && forall v :: v in half ==> (l(v) == x <==> v in part)
    ensures Joined().Valid() && Joined().Size() == 4
    ensures var g := Gfp(Joined(), DEFAULT_PRIORITY, Joining(c, BOTH, k, l)[0 := half]); part <= g[0] && NoneEmpty(g)
  {
    var start, fix := Joining(c, BOTH, k, l)[0 := half], Joining(part, {x}, k, l);
    PartOnto(part, x, k);
    PartOnto(part, x, l);
    JoiningFixed(part, {x}, k, l);
    JoiningFits(part, {x}, k, l);
    GraphBelow(part, c, k);
    GraphBelow(part, c, l);
    hide Graph, AllFixed, Crypto.Valid, Onto, CondsFit, Gfp;
    assert Leq(fix, start);
    GfpGreatest(Joined(), DEFAULT_PRIORITY, start, fix);
    var g := Gfp(Joined(), DEFAULT_PRIORITY, start);
    assert forall i :: 0 <= i < 4 ==> fix[i] <= g[i] && fix[i] != {};
  }

  lemma PartOnto(part: Cond, x: nat, k: nat -> nat)
    requires OneBit(part) && part != {} && x < 4 && forall v :: v in part ==> k(v) == x
    ensures Onto(part, {x}, k)
  {
    var a :| a in part;
    assert k(a) in Image(part, k);
  }

  lemma GraphBelow(a: Cond, c: Cond, k: nat -> nat)
    requires a <= c
    ensures Graph(a, k) <= Graph(c, k)
  {
  }

  /** Any three conditions that refute separation repeat a bit in a propagated state: a further bit tells the choices
      apart, once for all values and once only for those that are to be left. */
  lemma PropagatedRepeats(f: Cond -> bool, c: Cond, d: Cond, e: Cond) returns (crypto: Crypto, conds: seq<Cond>)
    requires OneBit(c) && f(c) && d <= Choice(c, false) && e <= Choice(c, true) && d != {} && e != {} && f(d) && f(e)
    ensures crypto.Valid() && CondsFit(crypto, conds) && NoneEmpty(conds) && AllFixed(crypto, DEFAULT_PRIORITY, conds)
    ensures crypto.Size() > 0 && crypto.bitsize[0] == 1 && Repeats(crypto, conds, 0, f)
  {
    ChoicesCover(c);
    var first, second := Choice(c, false), Choice(c, true);
    if Several(c) {
      var k := (v: nat) => Half(first, c, v);
      var l := (v: nat) => Half(first, d + e, v);
      HalfOnto(c, first, second, d, e, c, k);
      HalfOnto(c, first, second, d, e, d + e, l);
      crypto, conds := Joined(), Joining(c, BOTH, k, l);
      JoiningFixed(c, BOTH, k, l);
      JoiningFits(c, BOTH, k, l);
      PartLeft(c, k, l, first, d, 0);
      PartLeft(c, k, l, second, e, 1);
    } else {
      UnseparatedRepeats(f, c, d, e);
      Remainder(first, second, d, e, c);
      SingleParts(c, d, e);
      crypto, conds := Linked(), [c, c];
      LinkedFixed(conds);
    }
    hide Gfp, Choice, Crypto.Valid, AllFixed, Onto, Graph;
  }

  /** Which half a value is in: the other half for values that are not to be left. */
  function Half(first: Cond, left: Cond, v: nat): nat {
    if v in left then (if v in first then 0 else 1) else (if v in first then 1 else 0)
  }

  lemma HalfOnto(c: Cond, first: Cond, second: Cond, d: Cond, e: Cond, left: Cond, k: nat -> nat)
    requires OneBit(c) && first + second == c && first !! second && d <= first && e <= second && d != {} && e != {}
    requires d + e <= left <= c && forall v :: k(v) == Half(first, left, v)
    ensures Onto(c, BOTH, k)
  {
    var a :| a in d;
    var b :| b in e;
    assert k(a) == 0 && k(b) == 1;
    assert k(a) in Image(c, k) && k(b) in Image(c, k);
    hide Half;
    ImageBoth(c, k, a, b);
  }

  lemma ImageBoth(c: Cond, k: nat -> nat, a: nat, b: nat)
    requires a in c && b in c && k(a) == 0 && k(b) == 1 && forall v :: v in c ==> k(v) in BOTH
    ensures Image(c, k) == BOTH
  {
    assert k(a) in Image(c, k) && k(b) in Image(c, k);
  }

  lemma SingleParts(c: Cond, d: Cond, e: Cond)
    requires !Several(c) && d <= c && e <= c && d != {} && e != {}
    ensures d + e == c
  {
    var a :| a in d;
    forall v | v in c ensures v == a {
    }
  }

  /** The same on propagated states alone: they repeat no bit under exactly the same filters. */
  lemma SeparatesPropagated(f: Cond -> bool)
    ensures Separates(f) <==>
      forall crypto: Crypto, conds: seq<Cond>, p: nat ::
        crypto.Valid() && CondsFit(crypto, conds) && NoneEmpty(conds) && AllFixed(crypto, DEFAULT_PRIORITY, conds)
        && p < crypto.Size() && crypto.bitsize[p] == 1 ==>
          !Repeats(crypto, conds, p, f)
  {
    if Separates(f) {
      forall crypto: Crypto, conds: seq<Cond>, p: nat |
        crypto.Valid() && CondsFit(crypto, conds) && NoneEmpty(conds) && p < crypto.Size() && crypto.bitsize[p] == 1
        ensures !Repeats(crypto, conds, p, f)
      {
        SeparatedNeverRepeats(crypto, conds, p, f);
      }
    } else {
      var c: Cond, d: Cond, e: Cond :|
        OneBit(c) && f(c) && d <= Choice(c, false) && e <= Choice(c, true) && d != {} && e != {} && f(d) && f(e);
      var crypto, conds := PropagatedRepeats(f, c, d, e);
    }
  }
}
