/** A system of bitslice steps over stored conditions, and the greatest common fixpoint of their propagations
    (src/crypto.h, src/bitslice_step.h, src/step_update.h). */
module Cryptos {
  import opened BitsliceFunctions

  /** One step: for each bit the positions of the conditions in its slots. */
  datatype Step = Step(fn: Func, priority: nat, slots: seq<seq<nat>>)

  /** The entry of a step bit in the worklist. */
  datatype StepUpdate = StepUpdate(priority: nat, step: nat, bit: nat)

  datatype Crypto = Crypto(steps: seq<Step>, bitsize: seq<nat>) {
    /** Number of stored conditions. */
    function Size(): nat { |bitsize| }

    /** Every slot is a stored condition of its bit size, and the slots of a step bit are distinct conditions. */
    ghost predicate Valid() {
      forall s :: 0 <= s < |steps| ==>
        && steps[s].fn.Valid()
        && forall b :: 0 <= b < |steps[s].slots| ==> SlotsValid(steps[s].fn, steps[s].slots[b])
    }

    ghost predicate SlotsValid(fn: Func, at: seq<nat>)
      requires fn.Valid()
    {
      && |at| == fn.Slots()
      && (forall i :: 0 <= i < |at| ==> at[i] < Size() && bitsize[at[i]] == fn.bitsize[i])
      && (forall i, j :: 0 <= i < j < |at| ==> at[i] != at[j])
    }

    predicate Has(u: StepUpdate) {
      u.step < |steps| && u.bit < |steps[u.step].slots| && u.priority == steps[u.step].priority
    }

    function Fn(u: StepUpdate): Func
      requires Has(u)
    {
      steps[u.step].fn
    }

    function At(u: StepUpdate): seq<nat>
      requires Has(u)
    {
      steps[u.step].slots[u.bit]
    }

    lemma AtValid(u: StepUpdate)
      requires Valid() && Has(u)
      ensures Fn(u).Valid() && SlotsValid(Fn(u), At(u)) && |At(u)| == Fn(u).Slots()
      ensures forall i :: 0 <= i < |At(u)| ==> At(u)[i] < Size()
    {
    }
  }

  /** The order of the worklist. */
  predicate Before(u: StepUpdate, v: StepUpdate) {
    u.priority < v.priority || (u.priority == v.priority && (u.step < v.step || (u.step == v.step && u.bit < v.bit)))
  }

  lemma {:induction false} HasLeast(q: set<StepUpdate>)
    requires q != {}
    ensures exists u :: u in q && forall v :: v in q && v != u ==> Before(u, v)
  {
    var u :| u in q;
    if q != {u} {
      HasLeast(q - {u});
      var w :| w in q - {u} && forall v :: v in q - {u} && v != w ==> Before(w, v);
      var least := if Before(u, w) then u else w;
      forall v | v in q && v != least ensures Before(least, v) {
        if v != u && v != w { assert Before(w, v); }
      }
      assert least in q;
    } else {
      assert u in q && forall v :: v in q && v != u ==> Before(u, v);
    }
  }

  // ---- reading and writing the slots of a step bit ----

  ghost function Gather(conds: seq<Cond>, at: seq<nat>): (r: seq<Cond>)
    requires forall i :: 0 <= i < |at| ==> at[i] < |conds|
    ensures |r| == |at| && forall i :: 0 <= i < |r| ==> r[i] == conds[at[i]]
  {
    seq(|at|, i requires 0 <= i < |at| => conds[at[i]])
  }

  /** `after` is `now` with the slots written. */
  ghost predicate Scattered(now: seq<Cond>, at: seq<nat>, values: seq<Cond>, after: seq<Cond>) {
    && |now| == |after| && |values| == |at|
    && (forall i :: 0 <= i < |at| ==> at[i] < |after| && after[at[i]] == values[i])
    && (forall k :: 0 <= k < |after| && k !in at ==> after[k] == now[k])
  }

  /** The propagation of the step bit changes nothing. */
  ghost predicate Fixed(crypto: Crypto, u: StepUpdate, conds: seq<Cond>)
    requires crypto.Valid() && |conds| == crypto.Size() && crypto.Has(u)
  {
    Projected(crypto.Fn(u), Gather(conds, crypto.At(u))) == Gather(conds, crypto.At(u))
  }

  /** `after` is `now` with the slots of the step bit propagated. */
  ghost predicate Stepped(crypto: Crypto, u: StepUpdate, now: seq<Cond>, after: seq<Cond>)
    requires crypto.Valid() && |now| == crypto.Size() && crypto.Has(u)
  {
    Scattered(now, crypto.At(u), Projected(crypto.Fn(u), Gather(now, crypto.At(u))), after)
  }

  lemma GatherLeq(a: seq<Cond>, b: seq<Cond>, at: seq<nat>)
    requires Leq(a, b) && forall i :: 0 <= i < |at| ==> at[i] < |a|
    ensures Leq(Gather(a, at), Gather(b, at))
  {
  }

  lemma SteppedShrinks(crypto: Crypto, u: StepUpdate, now: seq<Cond>, after: seq<Cond>)
    requires crypto.Valid() && |now| == crypto.Size() && crypto.Has(u) && Stepped(crypto, u, now, after)
    ensures |after| == crypto.Size() && Leq(after, now)
  {
    hide Projected, Crypto.Valid, Crypto.Fn, Crypto.At, Crypto.Has;
    crypto.AtValid(u);
    ProjectionShrinks(crypto.Fn(u), Gather(now, crypto.At(u)));
    forall k | 0 <= k < |after| ensures after[k] <= now[k] {
      if k in crypto.At(u) {
        var i :| 0 <= i < |crypto.At(u)| && crypto.At(u)[i] == k;
        assert Gather(now, crypto.At(u))[i] == now[k];
      }
    }
  }

  /** The step bit itself needs no second visit: its own changes leave it fixed. */
  lemma SteppedFixed(crypto: Crypto, u: StepUpdate, now: seq<Cond>, after: seq<Cond>)
    requires crypto.Valid() && |now| == crypto.Size() && crypto.Has(u) && Stepped(crypto, u, now, after)
    ensures |after| == crypto.Size() && Fixed(crypto, u, after)
  {
    hide Projected, Crypto.Valid, Crypto.Fn, Crypto.At, Crypto.Has;
    crypto.AtValid(u);
    ProjectionIdempotent(crypto.Fn(u), Gather(now, crypto.At(u)));
    assert Gather(after, crypto.At(u)) == Projected(crypto.Fn(u), Gather(now, crypto.At(u)));
  }

  /** A step bit whose slots did not change stays fixed. */
  lemma UntouchedFixed(crypto: Crypto, u: StepUpdate, now: seq<Cond>, after: seq<Cond>)
    requires crypto.Valid() && |now| == |after| == crypto.Size() && crypto.Has(u) && Fixed(crypto, u, now)
    requires forall i :: 0 <= i < |crypto.At(u)| ==> after[crypto.At(u)[i]] == now[crypto.At(u)[i]]
    ensures Fixed(crypto, u, after)
  {
    hide Projected;
    assert Gather(after, crypto.At(u)) == Gather(now, crypto.At(u));
  }

  /** Conditions below which a fixpoint lies stay above it. */
  lemma SteppedAbove(crypto: Crypto, u: StepUpdate, now: seq<Cond>, after: seq<Cond>, fix: seq<Cond>)
    requires crypto.Valid() && |now| == crypto.Size() && crypto.Has(u) && Stepped(crypto, u, now, after)
    requires |fix| == crypto.Size() && Leq(fix, now) && Fixed(crypto, u, fix)
    ensures Leq(fix, after)
  {
    hide Projected, Crypto.Valid, Crypto.Fn, Crypto.At, Crypto.Has;
    crypto.AtValid(u);
    GatherLeq(fix, now, crypto.At(u));
    ProjectionMonotone(crypto.Fn(u), Gather(fix, crypto.At(u)), Gather(now, crypto.At(u)));
    forall k | 0 <= k < |after| ensures fix[k] <= after[k] {
      if k in crypto.At(u) {
        var i :| 0 <= i < |crypto.At(u)| && crypto.At(u)[i] == k;
        assert Gather(fix, crypto.At(u))[i] == fix[k];
      }
    }
  }

  // ---- the greatest fixpoint ----

  /** The step bits up to a priority limit. */
  predicate Active(crypto: Crypto, limit: nat, u: StepUpdate) {
    crypto.Has(u) && u.priority <= limit
  }

  lemma LeqAntisymmetric(a: seq<Cond>, b: seq<Cond>)
    requires Leq(a, b) && Leq(b, a)
    ensures a == b
  {
    assert forall i :: 0 <= i < |a| ==> a[i] == b[i];
  }

  ghost predicate AllFixed(crypto: Crypto, limit: nat, conds: seq<Cond>)
    requires crypto.Valid() && |conds| == crypto.Size()
  {
    forall u :: Active(crypto, limit, u) ==> Fixed(crypto, u, conds)
  }

  ghost predicate FixpointBelow(crypto: Crypto, limit: nat, start: seq<Cond>, fix: seq<Cond>)
    requires crypto.Valid() && |start| == crypto.Size()
  {
    Leq(fix, start) && AllFixed(crypto, limit, fix)
  }

  /** Some fixpoint below `start` allows value `v` in condition `k`. */
  ghost predicate Reaches(crypto: Crypto, limit: nat, start: seq<Cond>, k: nat, v: nat)
    requires crypto.Valid() && |start| == crypto.Size()
  {
    exists fix :: FixpointBelow(crypto, limit, start, fix) && k < |fix| && v in fix[k]
  }

  /** The union of all fixpoints below `start`. */
  ghost function Gfp(crypto: Crypto, limit: nat, start: seq<Cond>): (r: seq<Cond>)
    requires crypto.Valid() && |start| == crypto.Size()
    ensures |r| == crypto.Size()
  {
    seq(|start|, k requires 0 <= k < |start| => set v | v in start[k] && Reaches(crypto, limit, start, k, v))
  }

  lemma GfpBelow(crypto: Crypto, limit: nat, start: seq<Cond>)
    requires crypto.Valid() && |start| == crypto.Size()
    ensures Leq(Gfp(crypto, limit, start), start)
  {
  }

  lemma GfpGreatest(crypto: Crypto, limit: nat, start: seq<Cond>, fix: seq<Cond>)
    requires crypto.Valid() && |start| == crypto.Size() && FixpointBelow(crypto, limit, start, fix)
    ensures Leq(fix, Gfp(crypto, limit, start))
  {
    hide AllFixed;
    forall k, v | 0 <= k < |fix| && v in fix[k] ensures v in Gfp(crypto, limit, start)[k] {
      assert Reaches(crypto, limit, start, k, v);
    }
  }

  /** The union of fixpoints is itself a fixpoint. */
  lemma GfpFixed(crypto: Crypto, limit: nat, start: seq<Cond>)
    requires crypto.Valid() && |start| == crypto.Size()
    ensures AllFixed(crypto, limit, Gfp(crypto, limit, start))
  {
    hide Gfp;
    forall u | Active(crypto, limit, u) ensures Fixed(crypto, u, Gfp(crypto, limit, start)) {
      GfpFixedAt(crypto, limit, start, u);
    }
  }

  lemma GfpFixedAt(crypto: Crypto, limit: nat, start: seq<Cond>, u: StepUpdate)
    requires crypto.Valid() && |start| == crypto.Size() && Active(crypto, limit, u)
    ensures Fixed(crypto, u, Gfp(crypto, limit, start))
  {
    hide Projected, Crypto.Valid, Crypto.Fn, Crypto.At, Gfp, Reaches;
    crypto.AtValid(u);
    var g := Gfp(crypto, limit, start);
    var at, fn := crypto.At(u), crypto.Fn(u);
    ProjectionShrinks(fn, Gather(g, at));
    forall i, v | 0 <= i < |at| && v in g[at[i]] ensures v in Projected(fn, Gather(g, at))[i] {
      GfpStep(crypto, limit, start, u, i, v);
    }
    LeqAntisymmetric(Projected(fn, Gather(g, at)), Gather(g, at));
  }

  lemma GfpStep(crypto: Crypto, limit: nat, start: seq<Cond>, u: StepUpdate, i: nat, v: nat)
    requires crypto.Valid() && |start| == crypto.Size() && Active(crypto, limit, u)
    requires i < |crypto.At(u)| && crypto.At(u)[i] < crypto.Size() && v in Gfp(crypto, limit, start)[crypto.At(u)[i]]
    ensures var g := Gather(Gfp(crypto, limit, start), crypto.At(u));
            |g| == crypto.Fn(u).Slots() && crypto.Fn(u).Valid() && v in Projected(crypto.Fn(u), g)[i]
  {
    hide Projected, Crypto.Valid, Crypto.Fn, Crypto.At;
    crypto.AtValid(u);
    var at, fn, g := crypto.At(u), crypto.Fn(u), Gfp(crypto, limit, start);
    var fix :| FixpointBelow(crypto, limit, start, fix) && at[i] < |fix| && v in fix[at[i]];
    GfpGreatest(crypto, limit, start, fix);
    hide Gfp;
    GatherLeq(fix, g, at);
    ProjectionMonotone(fn, Gather(fix, at), Gather(g, at));
    assert Fixed(crypto, u, fix);
    assert v in Gather(fix, at)[i];
  }

  /** A fixpoint between the greatest one and the start is the greatest one. */
  lemma GfpReached(crypto: Crypto, limit: nat, start: seq<Cond>, conds: seq<Cond>)
    requires crypto.Valid() && |start| == |conds| == crypto.Size()
    requires Leq(Gfp(crypto, limit, start), conds) && Leq(conds, start) && AllFixed(crypto, limit, conds)
    ensures conds == Gfp(crypto, limit, start)
  {
    hide Gfp, AllFixed;
    GfpGreatest(crypto, limit, start, conds);
    LeqAntisymmetric(conds, Gfp(crypto, limit, start));
  }

  lemma GfpMonotone(crypto: Crypto, limit: nat, a: seq<Cond>, b: seq<Cond>)
    requires crypto.Valid() && |a| == crypto.Size() && Leq(a, b)
    ensures Leq(Gfp(crypto, limit, a), Gfp(crypto, limit, b))
  {
    hide Gfp, AllFixed;
    GfpFixed(crypto, limit, a);
    GfpBelow(crypto, limit, a);
    GfpGreatest(crypto, limit, b, Gfp(crypto, limit, a));
  }

  lemma GfpIdempotent(crypto: Crypto, limit: nat, start: seq<Cond>)
    requires crypto.Valid() && |start| == crypto.Size()
    ensures Gfp(crypto, limit, Gfp(crypto, limit, start)) == Gfp(crypto, limit, start)
  {
    hide Gfp, AllFixed;
    var g := Gfp(crypto, limit, start);
    GfpFixed(crypto, limit, start);
    GfpBelow(crypto, limit, g);
    GfpGreatest(crypto, limit, g, g);
    LeqAntisymmetric(Gfp(crypto, limit, g), g);
  }

  /** Propagating in two rounds gives what one round on the final restriction gives: `a` may be propagated before
      it is restricted to `b`. */
  lemma GfpReplay(crypto: Crypto, limit: nat, a: seq<Cond>, b: seq<Cond>, c: seq<Cond>)
    requires crypto.Valid() && |a| == |b| == |c| == crypto.Size()
    requires Leq(b, a) && Leq(c, b) && forall k :: 0 <= k < |a| ==> Gfp(crypto, limit, a)[k] * b[k] <= c[k]
    ensures Gfp(crypto, limit, c) == Gfp(crypto, limit, b)
  {
    hide Gfp, AllFixed;
    GfpMonotone(crypto, limit, c, b);
    GfpMonotone(crypto, limit, b, a);
    GfpBelow(crypto, limit, b);
    var g := Gfp(crypto, limit, b);
    assert Leq(g, c);
    GfpFixed(crypto, limit, b);
    GfpGreatest(crypto, limit, c, g);
    LeqAntisymmetric(Gfp(crypto, limit, c), g);
  }

  // ---- concrete solutions ----

  /** The values at the slots of every active step bit are related by its function in both messages. */
  ghost predicate Solution(crypto: Crypto, limit: nat, a: seq<nat>)
    requires crypto.Valid()
  {
    |a| == crypto.Size() && forall u :: Active(crypto, limit, u) ==> SlotsRelated(crypto, u, a)
  }

  ghost predicate SlotsRelated(crypto: Crypto, u: StepUpdate, a: seq<nat>)
    requires crypto.Valid() && crypto.Has(u) && |a| == crypto.Size()
  {
    crypto.AtValid(u);
    Rel(crypto.Fn(u), Values(a, crypto.At(u)))
  }

  ghost function Values(a: seq<nat>, at: seq<nat>): (r: seq<nat>)
    requires forall i :: 0 <= i < |at| ==> at[i] < |a|
    ensures |r| == |at| && forall i :: 0 <= i < |r| ==> r[i] == a[at[i]]
  {
    seq(|at|, i requires 0 <= i < |at| => a[at[i]])
  }

  ghost function Singletons(a: seq<nat>): (r: seq<Cond>)
    ensures |r| == |a| && forall k :: 0 <= k < |r| ==> r[k] == {a[k]}
  {
    seq(|a|, k requires 0 <= k < |a| => {a[k]})
  }

  lemma SolutionFixed(crypto: Crypto, limit: nat, a: seq<nat>)
    requires crypto.Valid() && Solution(crypto, limit, a)
    ensures AllFixed(crypto, limit, Singletons(a))
  {
    forall u | Active(crypto, limit, u) ensures Fixed(crypto, u, Singletons(a)) {
      SolutionFixedAt(crypto, u, a);
    }
  }

  lemma SolutionFixedAt(crypto: Crypto, u: StepUpdate, a: seq<nat>)
    requires crypto.Valid() && crypto.Has(u) && |a| == crypto.Size() && SlotsRelated(crypto, u, a)
    ensures Fixed(crypto, u, Singletons(a))
  {
    hide Projected, Crypto.Valid, Crypto.Fn, Crypto.At, Rel;
    crypto.AtValid(u);
    var fn, at := crypto.Fn(u), crypto.At(u);
    var c, t := Gather(Singletons(a), at), Values(a, at);
    ProjectionShrinks(fn, c);
    assert Allowed(c, t);
    ProjectionSound(fn, c, t);
    assert forall i :: 0 <= i < |c| ==> Projected(fn, c)[i] == c[i];
  }

  /** Propagation loses no solution. */
  lemma GfpKeepsSolutions(crypto: Crypto, limit: nat, start: seq<Cond>, a: seq<nat>)
    requires crypto.Valid() && |start| == crypto.Size() && Solution(crypto, limit, a)
    ensures Allowed(start, a) <==> Allowed(Gfp(crypto, limit, start), a)
  {
    assert |a| == crypto.Size();
    hide Gfp, AllFixed, Solution;
    GfpBelow(crypto, limit, start);
    if Allowed(start, a) {
      SolutionFixed(crypto, limit, a);
      assert Leq(Singletons(a), start);
      GfpGreatest(crypto, limit, start, Singletons(a));
      assert forall k :: 0 <= k < |a| ==> Singletons(a)[k] <= Gfp(crypto, limit, start)[k];
    }
  }
}
