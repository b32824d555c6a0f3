/** The worklist of step bits whose conditions changed (src/characteristic.cpp). */
module Worklists {
  import opened BitsliceFunctions
  import opened Cryptos

  /** The step bits that have condition `k` in a slot. */
  function StepsToUpdate(crypto: Crypto, k: nat): set<StepUpdate> {
    set s: nat, b: nat | s < |crypto.steps| && b < |crypto.steps[s].slots| && k in crypto.steps[s].slots[b]
      :: StepUpdate(crypto.steps[s].priority, s, b)
  }

  lemma InStepsToUpdate(crypto: Crypto, k: nat, u: StepUpdate)
    ensures u in StepsToUpdate(crypto, k) <==> crypto.Has(u) && k in crypto.At(u)
  {
    if crypto.Has(u) && k in crypto.At(u) {
      assert u == StepUpdate(crypto.steps[u.step].priority, u.step, u.bit);
    }
  }

  ghost predicate QueueValid(crypto: Crypto, queue: set<StepUpdate>) {
    forall u :: u in queue ==> crypto.Has(u)
  }

  /** Every condition has a set of values that fits its bit size. */
  ghost predicate CondsFit(crypto: Crypto, conds: seq<Cond>) {
    |conds| == crypto.Size() && forall k :: 0 <= k < |conds| ==> FitsBits(conds[k], crypto.bitsize[k])
  }

  /** Number of pairs of values of `bits` bits. */
  function Pairs(bits: nat): nat {
    if bits == 1 then 4 else if bits == 2 then 16 else 64
  }

  ghost predicate FitsBits(c: Cond, bits: nat) {
    forall v :: v in c ==> v < Pairs(bits)
  }

  /** Every active step bit that is not queued is fixed. */
  ghost predicate Pending(crypto: Crypto, limit: nat, conds: seq<Cond>, queue: set<StepUpdate>)
    requires crypto.Valid() && |conds| == crypto.Size()
  {
    forall u :: Active(crypto, limit, u) && u !in queue ==> Fixed(crypto, u, conds)
  }

  /** The queue after a change holds what it held before and all step bits of changed conditions. */
  ghost predicate Touched(crypto: Crypto, now: seq<Cond>, after: seq<Cond>, queue: set<StepUpdate>,
                          next: set<StepUpdate>) {
    && |now| == |after| && queue <= next
    && (forall k :: 0 <= k < |now| && after[k] != now[k] ==> StepsToUpdate(crypto, k) <= next)
    && (after == now ==> next == queue)
  }

  lemma PendingDone(crypto: Crypto, limit: nat, conds: seq<Cond>)
    requires crypto.Valid() && |conds| == crypto.Size() && Pending(crypto, limit, conds, {})
    ensures AllFixed(crypto, limit, conds)
  {
  }

  /** Setting a condition and touching its step bits leaves every unqueued step bit fixed. */
  lemma PendingTouched(crypto: Crypto, limit: nat, now: seq<Cond>, after: seq<Cond>, queue: set<StepUpdate>,
                       next: set<StepUpdate>)
    requires crypto.Valid() && |now| == |after| == crypto.Size()
    requires Pending(crypto, limit, now, queue) && Touched(crypto, now, after, queue, next)
    ensures Pending(crypto, limit, after, next)
  {
    hide Fixed, Crypto.Valid, Crypto.At, Crypto.Has;
    forall u | Active(crypto, limit, u) && u !in next ensures Fixed(crypto, u, after) {
      UnqueuedFixed(crypto, limit, now, after, queue, next, u);
    }
  }

  lemma UnqueuedFixed(crypto: Crypto, limit: nat, now: seq<Cond>, after: seq<Cond>, queue: set<StepUpdate>,
                      next: set<StepUpdate>, u: StepUpdate)
    requires crypto.Valid() && |now| == |after| == crypto.Size()
    requires Pending(crypto, limit, now, queue) && Touched(crypto, now, after, queue, next)
    requires Active(crypto, limit, u) && u !in next
    ensures Fixed(crypto, u, after)
  {
    hide Fixed, Crypto.Valid, Crypto.At, Crypto.Has, StepsToUpdate;
    crypto.AtValid(u);
    forall i | 0 <= i < |crypto.At(u)| ensures after[crypto.At(u)[i]] == now[crypto.At(u)[i]] {
      InStepsToUpdate(crypto, crypto.At(u)[i], u);
    }
    UntouchedFixed(crypto, u, now, after);
  }

  /** After its own step a step bit may be erased, although its changes have queued it again. */
  lemma PendingErased(crypto: Crypto, limit: nat, now: seq<Cond>, after: seq<Cond>, queue: set<StepUpdate>,
                      next: set<StepUpdate>, pos: StepUpdate)
    requires crypto.Valid() && |now| == |after| == crypto.Size() && crypto.Has(pos)
    requires Pending(crypto, limit, now, queue) && Touched(crypto, now, after, queue, next)
    requires Stepped(crypto, pos, now, after)
    ensures Pending(crypto, limit, after, next - {pos})
  {
    hide Fixed, Crypto.Valid, Crypto.At, Crypto.Has, Stepped, Touched;
    PendingTouched(crypto, limit, now, after, queue, next);
    SteppedFixed(crypto, pos, now, after);
  }

  /** An entry above the limit is not active. */
  lemma PendingDropped(crypto: Crypto, limit: nat, conds: seq<Cond>, queue: set<StepUpdate>, pos: StepUpdate)
    requires crypto.Valid() && |conds| == crypto.Size() && pos.priority > limit
    requires Pending(crypto, limit, conds, queue)
    ensures Pending(crypto, limit, conds, queue - {pos})
  {
    hide Fixed, Crypto.Valid, Crypto.At, Crypto.Has;
  }

  // ---- bounds ----

  ghost predicate Inside(crypto: Crypto, limit: nat, start: seq<Cond>, now: seq<Cond>)
    requires crypto.Valid() && |start| == crypto.Size()
  {
    |now| == |start| && Leq(Gfp(crypto, limit, start), now) && Leq(now, start)
  }

  /** A condition that is empty was empty at the start. */
  ghost predicate NoneEmptied(start: seq<Cond>, now: seq<Cond>) {
    |start| == |now| && forall k :: 0 <= k < |now| && now[k] == {} ==> start[k] == {}
  }

  ghost predicate NoneEmpty(conds: seq<Cond>) {
    forall k :: 0 <= k < |conds| ==> conds[k] != {}
  }

  lemma InsideStart(crypto: Crypto, limit: nat, start: seq<Cond>)
    requires crypto.Valid() && |start| == crypto.Size()
    ensures Inside(crypto, limit, start, start)
  {
    GfpBelow(crypto, limit, start);
  }

  lemma InsideStep(crypto: Crypto, limit: nat, start: seq<Cond>, now: seq<Cond>, after: seq<Cond>, pos: StepUpdate)
    requires crypto.Valid() && |start| == crypto.Size() && Inside(crypto, limit, start, now)
    requires Active(crypto, limit, pos) && Stepped(crypto, pos, now, after)
    ensures Inside(crypto, limit, start, after) && Leq(after, now)
  {
    var g := Gfp(crypto, limit, start);
    GfpFixed(crypto, limit, start);
    assert Fixed(crypto, pos, g);
    hide Gfp, Stepped, AllFixed, Crypto.Valid, Crypto.Has, Leq;
    SteppedAbove(crypto, pos, now, after, g);
    SteppedShrinks(crypto, pos, now, after);
    LeqTransitive(after, now, start);
  }

  lemma LeqTransitive(a: seq<Cond>, b: seq<Cond>, c: seq<Cond>)
    requires Leq(a, b) && Leq(b, c)
    ensures Leq(a, c)
  {
  }

  lemma InsideFit(crypto: Crypto, start: seq<Cond>, now: seq<Cond>)
    requires CondsFit(crypto, start) && Leq(now, start)
    ensures CondsFit(crypto, now)
  {
    hide Pairs;
    forall k | 0 <= k < |now| ensures FitsBits(now[k], crypto.bitsize[k]) {
      assert FitsBits(start[k], crypto.bitsize[k]);
    }
  }

  /** Number of values still allowed. */
  ghost function Total(conds: seq<Cond>): nat {
    if conds == [] then 0 else |conds[0]| + Total(conds[1..])
  }

  lemma {:induction false} TotalShrinks(a: seq<Cond>, b: seq<Cond>)
    requires Leq(a, b)
    ensures Total(a) <= Total(b) && (a != b ==> Total(a) < Total(b))
  {
    if a != [] {
      TotalShrinks(a[1..], b[1..]);
      SubsetCard(a[0], b[0]);
      if a[0] == b[0] && a[1..] == b[1..] {
        assert a == [a[0]] + a[1..] && b == [b[0]] + b[1..];
      }
    }
  }

  lemma SubsetCard(a: Cond, b: Cond)
    requires a <= b
    ensures |a| <= |b| && (a != b ==> |a| < |b|)
  {
    assert b == a + (b - a);
    if a != b {
      assert b - a != {};
    }
  }

  /** An emptied condition inside the bounds is empty in the greatest fixpoint. */
  lemma EmptiedInside(crypto: Crypto, limit: nat, start: seq<Cond>, now: seq<Cond>)
    requires crypto.Valid() && |start| == crypto.Size() && Inside(crypto, limit, start, now) && !NoneEmpty(now)
    ensures !NoneEmpty(Gfp(crypto, limit, start))
  {
    hide Gfp;
    var k :| 0 <= k < |now| && now[k] == {};
    assert Gfp(crypto, limit, start)[k] == {};
  }

  /** Where the greatest fixpoint is empty no solution starts. */
  lemma EmptiedNoSolution(crypto: Crypto, limit: nat, start: seq<Cond>, a: seq<nat>)
    requires crypto.Valid() && |start| == crypto.Size() && !NoneEmpty(Gfp(crypto, limit, start))
    requires Solution(crypto, limit, a)
    ensures !Allowed(start, a)
  {
    assert |a| == crypto.Size();
    hide Gfp, Solution;
    GfpKeepsSolutions(crypto, limit, start, a);
    var k :| 0 <= k < crypto.Size() && Gfp(crypto, limit, start)[k] == {};
    assert a[k] !in Gfp(crypto, limit, start)[k];
  }

  /** The loop ends with an empty worklist in the greatest fixpoint. */
  lemma Reached(crypto: Crypto, limit: nat, start: seq<Cond>, now: seq<Cond>)
    requires crypto.Valid() && |start| == crypto.Size() && Inside(crypto, limit, start, now)
    requires Pending(crypto, limit, now, {})
    ensures now == Gfp(crypto, limit, start) && AllFixed(crypto, limit, now)
  {
    PendingDone(crypto, limit, now);
    GfpReached(crypto, limit, start, now);
  }

  // ---- writing the slots one by one ----

  ghost predicate ScatteredTo(now: seq<Cond>, at: seq<nat>, values: seq<Cond>, i: nat, after: seq<Cond>) {
    && |now| == |after| && |values| == |at| && i <= |at|
    && (forall j :: 0 <= j < i ==> at[j] < |after| && after[at[j]] == values[j])
    && (forall k :: 0 <= k < |after| && k !in at[..i] ==> after[k] == now[k])
  }

  /** The first `i` slots are written: the step bits of changed conditions are queued, and `ok` tells whether a
      condition became empty. */
  ghost predicate Writing(crypto: Crypto, now: seq<Cond>, at: seq<nat>, values: seq<Cond>, i: nat, after: seq<Cond>,
                          queue: set<StepUpdate>, next: set<StepUpdate>, ok: bool) {
    && ScatteredTo(now, at, values, i, after)
    && Touched(crypto, now, after, queue, next)
    && (ok <==> NoneEmptied(now, after))
  }

  lemma WritingNext(crypto: Crypto, now: seq<Cond>, at: seq<nat>, values: seq<Cond>, i: nat, after: seq<Cond>,
                    queue: set<StepUpdate>, next: set<StepUpdate>, ok: bool)
    requires Writing(crypto, now, at, values, i, after, queue, next, ok) && i < |at| && at[i] < |now|
    requires forall j, k :: 0 <= j < k < |at| ==> at[j] != at[k]
    ensures Writing(crypto, now, at, values, i + 1, after[at[i] := values[i]], queue,
                    if after[at[i]] == values[i] then next else next + StepsToUpdate(crypto, at[i]),
                    ok && (values[i] == {} ==> after[at[i]] == {}))
  {
    hide StepsToUpdate;
    var k := at[i];
    assert k !in at[..i];
    var later := after[k := values[i]];
    assert at[..i + 1] == at[..i] + [k];
    if later == now {
      assert after == now by {
        assert forall l :: 0 <= l < |now| ==> after[l] == now[l];
      }
    }
  }

  lemma WritingDone(crypto: Crypto, now: seq<Cond>, at: seq<nat>, values: seq<Cond>, after: seq<Cond>,
                    queue: set<StepUpdate>, next: set<StepUpdate>, ok: bool)
    requires Writing(crypto, now, at, values, |at|, after, queue, next, ok)
    ensures Scattered(now, at, values, after) && Touched(crypto, now, after, queue, next)
    ensures ok <==> NoneEmptied(now, after)
  {
    assert at[..|at|] == at;
  }

  lemma {:induction false} HasMinimum(s: set<nat>)
    requires s != {}
    ensures exists p :: p in s && forall q :: q in s ==> p <= q
    decreases s
  {
    var p :| p in s;
    var below := set q | q in s && q < p;
    if below == {} {
      assert forall q :: q in s ==> q in below || p <= q;
    } else {
      HasMinimum(below);
      var m :| m in below && forall q :: q in below ==> m <= q;
      assert forall q :: q in s ==> q in below || m < q;
    }
  }
}
