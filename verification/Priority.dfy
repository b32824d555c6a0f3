/** The priorities with which steps are added (src/crypto.h, src/crypto.cpp, src/bitslice_step.h): with the default ones no
    step is above the default limit of an update. */
module Priorities {
  import opened BitsliceFunctions
  import opened BitsliceDatas
  import opened Cryptos

  /** Number of bits of the conditions on the inputs. */
  function LoopSize(fn: Func): nat
    requires fn.ins <= |fn.bitsize|
  {
    CIndex(fn, fn.ins)
  }

  /** A step with the slots of its bits is added; its priority is computed from two arguments. */
  function AddStep(crypto: Crypto, fn: Func, slots: seq<seq<nat>>, mul: nat := 1, add: nat := 0): Crypto
    requires fn.ins <= |fn.bitsize|
  {
    Crypto(crypto.steps + [Step(fn, mul * LoopSize(fn) + add, slots)], crypto.bitsize)
  }

  /** All steps were added with the default arguments: more input conditions mean a later step. */
  ghost predicate DefaultPriorities(crypto: Crypto) {
    forall s :: 0 <= s < |crypto.steps| ==> DefaultPriority(crypto.steps[s])
  }

  ghost predicate DefaultPriority(step: Step) {
    step.fn.ins <= |step.fn.bitsize| && step.priority == LoopSize(step.fn)
  }

  ghost predicate FewSlots(crypto: Crypto) {
    forall s :: 0 <= s < |crypto.steps| ==> |crypto.steps[s].fn.bitsize| <= MAX_SLOTS
  }

  lemma NoStepsDefault(bitsize: seq<nat>)
    ensures DefaultPriorities(Crypto([], bitsize)) && Crypto([], bitsize).Valid()
  {
  }

  lemma AddStepDefault(crypto: Crypto, fn: Func, slots: seq<seq<nat>>)
    requires crypto.Valid() && DefaultPriorities(crypto) && fn.Valid()
    requires forall b :: 0 <= b < |slots| ==> crypto.SlotsValid(fn, slots[b])
    ensures fn.ins <= |fn.bitsize| && AddStep(crypto, fn, slots).Valid() && DefaultPriorities(AddStep(crypto, fn, slots))
  {
    var next := AddStep(crypto, fn, slots);
    forall s | 0 <= s < |next.steps|
      ensures next.steps[s].fn.Valid() && DefaultPriority(next.steps[s])
      ensures forall b :: 0 <= b < |next.steps[s].slots| ==> next.SlotsValid(next.steps[s].fn, next.steps[s].slots[b])
    {
      hide Func.Valid;
      if s < |crypto.steps| {
        assert next.steps[s] == crypto.steps[s];
        forall b | 0 <= b < |crypto.steps[s].slots| ensures next.SlotsValid(next.steps[s].fn, next.steps[s].slots[b]) {
          assert crypto.SlotsValid(crypto.steps[s].fn, crypto.steps[s].slots[b]);
        }
      } else {
        assert next.steps[s] == Step(fn, LoopSize(fn), slots);
        forall b | 0 <= b < |slots| ensures next.SlotsValid(next.steps[s].fn, next.steps[s].slots[b]) {
          assert crypto.SlotsValid(fn, slots[b]);
        }
      }
    }
  }

  lemma {:induction false} CIndexBound(fn: Func, i: nat)
    requires i <= |fn.bitsize|
    ensures 4 * i <= CIndex(fn, i) <= 64 * i
  {
    if i > 0 {
      CIndexBound(fn, i - 1);
    }
  }

  /** No step is above a limit of 1024. */
  lemma AllActive(crypto: Crypto, limit: nat)
    requires DefaultPriorities(crypto) && FewSlots(crypto) && 64 * MAX_SLOTS <= limit
    ensures forall u :: Active(crypto, limit, u) <==> crypto.Has(u)
  {
    forall u | crypto.Has(u) ensures u.priority <= limit {
      var step := crypto.steps[u.step];
      assert DefaultPriority(step);
      CIndexBound(step.fn, step.fn.ins);
    }
  }

  // ---- the same without a limit ----

  /** The propagation of no step bit changes anything. */
  ghost predicate EveryFixed(crypto: Crypto, conds: seq<Cond>)
    requires crypto.Valid() && |conds| == crypto.Size()
  {
    forall u :: crypto.Has(u) ==> Fixed(crypto, u, conds)
  }

  /** The values at the slots of every step bit are related by its function in both messages. */
  ghost predicate EveryRelated(crypto: Crypto, a: seq<nat>)
    requires crypto.Valid()
  {
    |a| == crypto.Size() && forall u :: crypto.Has(u) ==> SlotsRelated(crypto, u, a)
  }

  lemma EveryStep(crypto: Crypto, limit: nat, conds: seq<Cond>, a: seq<nat>)
    requires crypto.Valid() && DefaultPriorities(crypto) && FewSlots(crypto) && 64 * MAX_SLOTS <= limit
    ensures |conds| == crypto.Size() ==> (AllFixed(crypto, limit, conds) <==> EveryFixed(crypto, conds))
    ensures Solution(crypto, limit, a) <==> EveryRelated(crypto, a)
  {
    AllActive(crypto, limit);
    hide Fixed, SlotsRelated, Crypto.Valid, Active, Crypto.Has;
  }
}
