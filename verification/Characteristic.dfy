/** The conditions of a characteristic and their propagation to the greatest common fixpoint
    (src/characteristic.cpp, src/container_condition_proxy.cpp, src/bitslice_step.h). */
module Characteristics {
  import opened BitsliceFunctions
  import opened BitsliceDatas
  import opened Bitslices
  import opened Choices
  import opened Cryptos
  import opened Priorities
  import opened Worklists

  /** The default priority limit of an update. */
  const DEFAULT_PRIORITY := 10000

  /** Every step has the bitslice of its function; different bitslices do not share a cache. */
  ghost predicate BitslicesValid(crypto: Crypto, bitslices: seq<Bitslice>)
    reads set s | 0 <= s < |bitslices| :: bitslices[s].staticCache
    reads set s | 0 <= s < |bitslices| :: bitslices[s].dynamicCache
  {
    && |bitslices| == |crypto.steps|
    && (forall s :: 0 <= s < |bitslices| ==> bitslices[s].Valid() && bitslices[s].fn == crypto.steps[s].fn)
    && (forall s, t :: 0 <= s < t < |bitslices| && bitslices[s] != bitslices[t] ==>
          bitslices[s].dynamicCache != bitslices[t].dynamicCache)
  }

  /** With default priorities an update leaves out no step: the default limit is above all of them. */
  lemma DefaultLimit(crypto: Crypto, conds: seq<Cond>, a: seq<nat>)
    requires crypto.Valid() && DefaultPriorities(crypto) && FewSlots(crypto)
    ensures |conds| == crypto.Size() ==> (AllFixed(crypto, DEFAULT_PRIORITY, conds) <==> EveryFixed(crypto, conds))
    ensures Solution(crypto, DEFAULT_PRIORITY, a) <==> EveryRelated(crypto, a)
  {
    EveryStep(crypto, DEFAULT_PRIORITY, conds, a);
  }

  /** Of the solutions over all steps those allowed at the start are allowed now; if it failed there are none. */
  ghost predicate Propagated(crypto: Crypto, start: seq<Cond>, now: seq<Cond>, ok: bool)
    requires crypto.Valid() && |now| == crypto.Size()
  {
    && (ok ==> EveryFixed(crypto, now))
    && forall a :: EveryRelated(crypto, a) && Allowed(start, a) ==> ok && Allowed(now, a)
  }

  lemma DefaultPropagated(crypto: Crypto, start: seq<Cond>, now: seq<Cond>, ok: bool)
    requires crypto.Valid() && FewSlots(crypto) && |now| == crypto.Size()
    requires NoneLost(crypto, DEFAULT_PRIORITY, start, now) && (!ok ==> Unsolvable(crypto, DEFAULT_PRIORITY, start))
    requires ok ==> AllFixed(crypto, DEFAULT_PRIORITY, now)
    ensures DefaultPriorities(crypto) ==> Propagated(crypto, start, now, ok)
  {
    hide AllFixed, EveryFixed, Solution, EveryRelated, DefaultPriorities, FewSlots, Crypto.Valid;
    if DefaultPriorities(crypto) {
      DefaultLimit(crypto, now, []);
      forall a | EveryRelated(crypto, a) && Allowed(start, a) ensures ok && Allowed(now, a) {
        DefaultLimit(crypto, now, a);
      }
    }
  }

  lemma BitslicesFew(crypto: Crypto, bitslices: seq<Bitslice>)
    requires crypto.Valid() && BitslicesValid(crypto, bitslices)
    ensures FewSlots(crypto)
  {
    forall s | 0 <= s < |crypto.steps| ensures |crypto.steps[s].fn.bitsize| <= MAX_SLOTS {
      assert bitslices[s].Valid() && bitslices[s].fn == crypto.steps[s].fn;
      hide RightTable, Right, Symmetric;
      SlotCount(crypto.steps[s].fn);
    }
  }

  class Characteristic {
    const crypto: Crypto
    const bitslices: seq<Bitslice>
    var conds: seq<Cond>
    var queue: set<StepUpdate>

    ghost function Caches(): set<object>
    {
      set s | 0 <= s < |bitslices| :: bitslices[s].dynamicCache
    }

    ghost predicate StateValid()
      reads this
    {
      crypto.Valid() && CondsFit(crypto, conds) && QueueValid(crypto, queue)
    }

    ghost predicate Valid()
      reads this
      reads set s | 0 <= s < |bitslices| :: bitslices[s].staticCache
      reads set s | 0 <= s < |bitslices| :: bitslices[s].dynamicCache
    {
      StateValid() && BitslicesValid(crypto, bitslices)
    }

    /** Everything known so far holds of the queue: unqueued step bits are fixed. */
    ghost predicate Settled(limit: nat)
      requires StateValid()
      reads this
    {
      Pending(crypto, limit, conds, queue)
    }

    constructor (crypto: Crypto, bitslices: seq<Bitslice>, conds: seq<Cond>)
      requires crypto.Valid() && BitslicesValid(crypto, bitslices) && CondsFit(crypto, conds)
      ensures Valid() && this.crypto == crypto && this.bitslices == bitslices
      ensures this.conds == conds && queue == {}
    {
      this.crypto, this.bitslices, this.conds, queue := crypto, bitslices, conds, {};
    }

    method ShallowCopy(s: Characteristic)
      requires s.StateValid() && crypto == s.crypto
      modifies this
      ensures conds == s.conds && queue == s.queue && StateValid()
    {
      conds, queue := s.conds, s.queue;
    }

    /** Queues every step bit that has condition `k` in a slot. */
    method Touch(k: nat)
      requires StateValid()
      modifies this`queue
      ensures queue == old(queue) + StepsToUpdate(crypto, k) && StateValid()
    {
      QueuedValid(crypto, queue, k);
      queue := queue + StepsToUpdate(crypto, k);
    }

    /** Storing a different value queues the step bits that read the condition. */
    method SetCondition(k: nat, value: Cond) returns (ok: bool)
      requires StateValid() && k < crypto.Size() && FitsBits(value, crypto.bitsize[k])
      modifies this
      ensures StateValid() && conds == old(conds)[k := value]
      ensures queue == if old(conds)[k] == value then old(queue) else old(queue) + StepsToUpdate(crypto, k)
      ensures ok <==> (value == {} ==> old(conds)[k] == {})
    {
      if conds[k] == value {
        assert conds == conds[k := value];
        return true;
      }
      Touch(k);
      conds := conds[k := value];
      return value != {};
    }

    /** Packs the conditions of the slots into a record. */
    method ReadSlots(u: StepUpdate) returns (input: BitsliceData)
      requires StateValid() && crypto.Has(u)
      ensures crypto.Fn(u).Valid() && input.Valid(crypto.Fn(u)) && |crypto.At(u)| == crypto.Fn(u).Slots()
      ensures forall i :: 0 <= i < |crypto.At(u)| ==> crypto.At(u)[i] < |conds|
      ensures input.Conditions(crypto.Fn(u)) == Gather(conds, crypto.At(u))
    {
      hide BitsliceData.GetCondition, BitsliceData.SetCondition, Blank, Func.Valid, Crypto.Valid, Crypto.At, Crypto.Fn,
        Crypto.Has, FitsBits;
      crypto.AtValid(u);
      var fn, at := crypto.Fn(u), crypto.At(u);
      BlankConditions(fn);
      input := Blank(fn);
      for i: nat := 0 to fn.Slots()
        invariant input.Valid(fn)
        invariant forall j :: 0 <= j < i ==> input.Conditions(fn)[j] == conds[at[j]]
      {
        SlotFits(crypto, conds, fn, at, i);
        input.SetConditions(fn, i, conds[at[i]]);
        input := input.SetCondition(fn, i, conds[at[i]]);
      }
    }

    /** Stores the conditions of the slots. */
    method WriteSlots(u: StepUpdate, output: BitsliceData) returns (ok: bool)
      requires StateValid() && crypto.Has(u) && crypto.Fn(u).Valid() && output.Valid(crypto.Fn(u))
      modifies this
      ensures StateValid()
      ensures Scattered(old(conds), crypto.At(u), output.Conditions(crypto.Fn(u)), conds)
      ensures Touched(crypto, old(conds), conds, old(queue), queue)
      ensures ok <==> NoneEmptied(old(conds), conds)
    {
      hide BitsliceData.GetCondition, Func.Valid, Crypto.Valid, Crypto.At, Crypto.Fn, Crypto.Has, Crypto.SlotsValid,
        StepsToUpdate, Writing, Scattered, Touched, NoneEmptied, FitsBits;
      crypto.AtValid(u);
      var fn, at := crypto.Fn(u), crypto.At(u);
      ghost var now, before := conds, queue;
      ghost var values := output.Conditions(fn);
      WritingStart(crypto, now, at, values, before);
      ok := true;
      for i: nat := 0 to |at|
        invariant StateValid() && Writing(crypto, now, at, values, i, conds, before, queue, ok)
      {
        SlotsFacts(crypto, fn, at);
        ValueFits(crypto, fn, at, output, i);
        WritingNext(crypto, now, at, values, i, conds, before, queue, ok);
        var r := SetCondition(at[i], output.GetCondition(fn, i));
        ok := ok && r;
      }
      WritingDone(crypto, now, at, values, conds, before, queue, ok);
    }

    /** Propagates one step bit: reads all slots, computes, writes all slots. */
    method UpdateStep(u: StepUpdate) returns (ok: bool)
      requires Valid() && crypto.Has(u)
      modifies this, Caches()
      ensures Valid()
      ensures Stepped(crypto, u, old(conds), conds)
      ensures Touched(crypto, old(conds), conds, old(queue), queue)
      ensures ok <==> NoneEmptied(old(conds), conds)
    {
      hide Projected, Bitslice.Valid, Func.Valid, Crypto.Valid, StepsToUpdate, Touched, NoneEmptied, FitsBits,
        BitsliceData.Conditions, BitsliceData.Valid, Scattered, CondsFit, QueueValid, Crypto.At;
      var b := bitslices[u.step];
      assert b.fn == crypto.Fn(u);
      var input := ReadSlots(u);
      var output := b.Compute(input);
      forall s | 0 <= s < |bitslices| ensures bitslices[s].Valid() {
        if bitslices[s] != b {
          assert bitslices[s].dynamicCache != b.dynamicCache;
        }
      }
      assert BitslicesValid(crypto, bitslices);
      ok := WriteSlots(u, output);
    }

    /** Processes the worklist in its order. Entries above the limit are dropped; an entry is erased after its
        step although that step may have queued it again. Never loses a solution; fails only if a condition
        became empty; otherwise ends in the greatest fixpoint below the start. */
    method Update(limit: nat) returns (ok: bool)
      requires Valid()
      modifies this, Caches()
      ensures Valid()
      ensures Inside(crypto, limit, old(conds), conds)
      ensures ok <==> NoneEmptied(old(conds), conds)
      ensures ok ==> queue == {}
      ensures ok && old(Settled(limit)) ==> conds == Gfp(crypto, limit, old(conds)) && AllFixed(crypto, limit, conds)
      ensures NoneLost(crypto, limit, old(conds), conds) && (!ok ==> Unsolvable(crypto, limit, old(conds)))
    {
      hide Stepped, Touched, NoneEmptied, FitsBits, BitslicesValid, Inside, Gfp, AllFixed, Pending, Crypto.Valid,
        Leq, Crypto.Has, Total, NoneLost, Unsolvable;
      ghost var start := conds;
      ghost var settled := Pending(crypto, limit, conds, queue);
      UpdateStart(crypto, limit, start);
      while queue != {}
        invariant Valid() && Inside(crypto, limit, start, conds)
        invariant settled ==> Pending(crypto, limit, conds, queue)
        invariant NoneEmptied(start, conds)
        decreases Total(conds), |queue|
      {
        HasLeast(queue);
        var pos :| pos in queue && forall v :: v in queue && v != pos ==> Before(pos, v);
        ghost var now, before := conds, queue;
        if pos.priority > limit {
          queue := queue - {pos};
          if settled { PendingDropped(crypto, limit, conds, before, pos); }
          continue;
        }
        var done := UpdateStep(pos);
        UpdateNext(crypto, limit, start, now, conds, before, queue, pos, settled);
        queue := queue - {pos};
        if !done {
          InsideSolutions(crypto, limit, start, conds);
          return false;
        }
      }
      InsideSolutions(crypto, limit, start, conds);
      if settled { Reached(crypto, limit, start, conds); }
      return true;
    }

    method UpdateAll() returns (ok: bool)
      requires Valid()
      modifies this, Caches()
      ensures Valid()
      ensures Inside(crypto, DEFAULT_PRIORITY, old(conds), conds)
      ensures ok <==> NoneEmptied(old(conds), conds)
      ensures ok ==> conds == Gfp(crypto, DEFAULT_PRIORITY, old(conds)) && AllFixed(crypto, DEFAULT_PRIORITY, conds)
      ensures NoneLost(crypto, DEFAULT_PRIORITY, old(conds), conds)
      ensures !ok ==> Unsolvable(crypto, DEFAULT_PRIORITY, old(conds))
      ensures DefaultPriorities(crypto) ==> Propagated(crypto, old(conds), conds, ok)
    {
      hide NoneLost, Unsolvable, Fixed, Gfp, AllFixed, Crypto.Valid, StepsToUpdate, NoneEmptied, Inside, BitslicesValid,
        DefaultPriorities, FewSlots, Propagated;
      ghost var start := conds;
      for k: nat := 0 to crypto.Size()
        invariant Valid() && conds == start
        invariant forall l :: 0 <= l < k ==> StepsToUpdate(crypto, l) <= queue
      {
        Touch(k);
      }
      AllQueued(crypto, DEFAULT_PRIORITY, start, queue);
      ok := Update(DEFAULT_PRIORITY);
      BitslicesFew(crypto, bitslices);
      DefaultPropagated(crypto, start, conds, ok);
    }

    /** Tries a condition on a copy: `ok` tells whether the propagation succeeds. */
    method Try(tmp: Characteristic, p: nat, choice: Cond, todo: set<nat>, f: Cond -> bool)
      returns (ok: bool, rest: set<nat>, ghost left: Cond)
      requires Valid() && tmp != this && tmp.crypto == crypto && tmp.bitslices == bitslices
      requires p < crypto.Size() && FitsBits(choice, crypto.bitsize[p])
      modifies tmp, Caches()
      ensures Valid() && tmp.Valid()
      ensures Tried(crypto, DEFAULT_PRIORITY, conds[p := choice], ok, Settled(DEFAULT_PRIORITY))
      ensures rest <= todo && left <= choice && (p in rest ==> f(left))
      ensures ok && Settled(DEFAULT_PRIORITY) ==>
                rest == ConditionMask(crypto, Gfp(crypto, DEFAULT_PRIORITY, conds[p := choice]), todo, f)
    {
      hide Fixed, Gfp, AllFixed, Crypto.Valid, StepsToUpdate, NoneEmptied, Inside, BitslicesValid, Touched, Pending, FitsBits,
        NoneLost, Unsolvable;
      tmp.ShallowCopy(this);
      var set_ := tmp.SetCondition(p, choice);
      ghost var start := tmp.conds;
      SetTouched(crypto, conds, p, choice, queue, tmp.queue);
      if Settled(DEFAULT_PRIORITY) { PendingTouched(crypto, DEFAULT_PRIORITY, conds, start, queue, tmp.queue); }
      ok := tmp.Update(DEFAULT_PRIORITY);
      TriedUpdate(crypto, DEFAULT_PRIORITY, start, tmp.conds, ok, Settled(DEFAULT_PRIORITY));
      left := tmp.conds[p];
      InsideAt(crypto, DEFAULT_PRIORITY, start, tmp.conds, p);
      rest := ConditionMask(crypto, tmp.conds, todo, f);
    }

    /** Tries both choices of a bit. Under a filter that tells the choices apart the bit is not tried again. */
    method TryBoth(tmp: Characteristic, p: nat, todo: set<nat>, f: Cond -> bool)
      returns (first: bool, second: bool, rest: set<nat>, ghost between: set<nat>)
      requires Valid() && tmp != this && tmp.crypto == crypto && tmp.bitslices == bitslices
      requires p < crypto.Size() && crypto.bitsize[p] == 1 && f(conds[p])
      modifies tmp, Caches()
      ensures Valid() && tmp.Valid() && rest <= todo
      ensures first && second && Separates(f) && (f({}) ==> Settled(DEFAULT_PRIORITY) && NoneEmpty(conds)) ==> p !in rest
      ensures Tried(crypto, DEFAULT_PRIORITY, conds[p := Choice(conds[p], false)], first, Settled(DEFAULT_PRIORITY))
      ensures Tried(crypto, DEFAULT_PRIORITY, conds[p := Choice(conds[p], true)], second, Settled(DEFAULT_PRIORITY))
      ensures first && second && Settled(DEFAULT_PRIORITY) ==>
        && between == ConditionMask(crypto, Gfp(crypto, DEFAULT_PRIORITY, conds[p := Choice(conds[p], false)]), todo, f)
        && rest == ConditionMask(crypto, Gfp(crypto, DEFAULT_PRIORITY, conds[p := Choice(conds[p], true)]), between, f)
    {
      hide Fixed, Gfp, Crypto.Valid, BitslicesValid, Pending, FitsBits, Separates, Tried, OneBit, Choice, QueueValid, NoneEmpty;
      ChoiceFacts(crypto, conds, p);
      ghost var d, e;
      first, rest, d := Try(tmp, p, Choice(conds[p], false), todo, f);
      between := rest;
      second, rest, e := Try(tmp, p, Choice(conds[p], true), rest, f);
      if first && second && Separates(f) && (f({}) ==> Settled(DEFAULT_PRIORITY) && NoneEmpty(conds)) {
        if f({}) {
          NotRepeated(crypto, conds, p, f, todo, between, rest);
        } else {
          NotBothLeft(crypto, conds, p, f, d, e);
        }
      }
    }

    /** Stores a choice whose alternative failed, and propagates it. From a propagated state without a contradiction
        the propagation cannot fail. */
    method Commit(p: nat, second: bool, ghost start: seq<Cond>, ghost good: bool) returns (done: bool)
      requires Valid() && p < crypto.Size() && crypto.bitsize[p] == 1
      requires NoneLost(crypto, DEFAULT_PRIORITY, start, conds) && Leq(conds, start)
      requires Tried(crypto, DEFAULT_PRIORITY, conds[p := Choice(conds[p], !second)], false, Settled(DEFAULT_PRIORITY))
      requires Tried(crypto, DEFAULT_PRIORITY, conds[p := Choice(conds[p], second)], true, Settled(DEFAULT_PRIORITY))
      requires good ==> Settled(DEFAULT_PRIORITY) && NoneEmpty(conds)
      modifies this, Caches()
      ensures Valid() && NoneLost(crypto, DEFAULT_PRIORITY, start, conds) && Leq(conds, start)
      ensures good || Several(old(conds)[p]) ==> Total(conds) < Total(old(conds))
      ensures good ==> done && Settled(DEFAULT_PRIORITY) && NoneEmpty(conds) && queue == {}
    {
      hide Fixed, Gfp, AllFixed, Crypto.Valid, StepsToUpdate, NoneEmptied, NoneEmpty, Inside, BitslicesValid, Pending,
        FitsBits, Solution, Allowed, NoneLost, Leq, Unsolvable, Tried, Total, OneBit, Choice, QueueValid, Several;
      ghost var now, queued := conds, queue;
      var choice := Choice(conds[p], second);
      ghost var next := conds[p := choice];
      ChoiceFacts(crypto, conds, p);
      CommitFacts(crypto, DEFAULT_PRIORITY, start, conds, p, second, Settled(DEFAULT_PRIORITY));
      if good { ChoiceNotEmpty(crypto, conds, p); }
      var set_ := SetCondition(p, choice);
      if good {
        SetTouched(crypto, now, p, choice, queued, queue);
        PendingTouched(crypto, DEFAULT_PRIORITY, now, next, queued, queue);
      }
      done := Update(DEFAULT_PRIORITY);
      CommitUpdate(crypto, DEFAULT_PRIORITY, start, now, next, conds, queue, done, good);
    }

    /** One pass over the selected bits, which ends with the first commitment or failure; `open` tells that bits are
        left to be tried after `limit` trials, which can only be under a filter that does not tell the choices apart. */
    method CompletePass(tmp: Characteristic, f: Cond -> bool, mask: set<nat>, limit: nat, ghost start: seq<Cond>,
                        ghost good: bool)
      returns (changed: bool, failed: bool, open: bool)
      requires Valid() && tmp.Valid() && tmp != this && tmp.crypto == crypto && tmp.bitslices == bitslices
      requires NoneLost(crypto, DEFAULT_PRIORITY, start, conds) && Leq(conds, start)
      requires good ==> Settled(DEFAULT_PRIORITY) && NoneEmpty(conds)
      modifies this, tmp, Caches()
      ensures Valid() && tmp.Valid() && NoneLost(crypto, DEFAULT_PRIORITY, start, conds) && Leq(conds, start)
      ensures good ==> Settled(DEFAULT_PRIORITY) && NoneEmpty(conds) && (old(queue) == {} ==> queue == {})
      ensures changed ==> !failed && !open && (good || (Separates(f) && !f({})) ==> Total(conds) < Total(old(conds)))
      ensures failed ==> !open && Unsolvable(crypto, DEFAULT_PRIORITY, start)
      ensures !changed ==> conds == old(conds)
      ensures !changed && !failed && !open && good ==> Examined(crypto, DEFAULT_PRIORITY, conds, mask, {}, f)
      ensures Separates(f) && (f({}) ==> good) && |mask| <= limit ==> !open
      ensures good && Stuck(crypto, old(conds), mask, f) ==> open
    {
      hide Fixed, Gfp, AllFixed, Crypto.Valid, StepsToUpdate, NoneEmptied, NoneEmpty, Inside, BitslicesValid, Pending,
        FitsBits, Solution, Allowed, NoneLost, Leq, Separates, Tried, Total, Examined, OneBit, Choice, QueueValid, Unsolvable,
        Several, Stuck, Trying;
      var todo := ConditionMask(crypto, conds, mask, f);
      TryingStart(crypto, conds, mask, f, good);
      var i := 0;
      while todo != {} && i < limit
        invariant Valid() && tmp.Valid() && conds == old(conds) && queue == old(queue) && i <= limit
        invariant Trying(crypto, conds, mask, todo, f, i, good)
        decreases limit - i
      {
        HasMinimum(todo);
        var p :| p in todo && forall q :: q in todo ==> p <= q;
        TryingFirst(crypto, conds, mask, todo, f, i, good, p);
        ghost var before := todo;
        var first, second;
        ghost var between;
        first, second, todo, between := TryBoth(tmp, p, todo, f);
        if first && second {
          TryingNext(crypto, conds, mask, before, between, todo, f, i, good, p);
          i := i + 1;
          continue;
        }
        TryingFailed(crypto, conds, mask, before, f, i, good, p, first, second);
        if !first && !second {
          BothFail(crypto, DEFAULT_PRIORITY, start, conds, p, Settled(DEFAULT_PRIORITY));
          return false, true, false;
        }
        if Separates(f) && !f({}) { SelectedSeveral(crypto, conds, p, f); }
        var done := Commit(p, second, start, good);
        return true, false, false;
      }
      TryingEnd(crypto, conds, mask, todo, f, i, good);
      return false, false, todo != {};
    }

    /** Tries both choices of each bit that `f` selects, and commits to a choice when the other one fails; stops after
        `limit` passes, or after `limit` trials in one pass. Never discards a solution. From a propagated state without a
        contradiction no committing update fails, and at the end both choices of every selected bit are possible,
        except for bits that some choice of such a bit decides. Under a filter that tells the choices apart it ends. */
    method Complete(f: Cond -> bool, mask: set<nat>, limit: nat) returns (ok: bool, ended: bool)
      requires Valid()
      modifies this, Caches()
      ensures Valid() && Leq(conds, old(conds))
      ensures NoneLost(crypto, DEFAULT_PRIORITY, old(conds), conds)
      ensures !ok ==> Unsolvable(crypto, DEFAULT_PRIORITY, old(conds))
      ensures old(Settled(DEFAULT_PRIORITY)) && NoneEmpty(old(conds)) ==>
                Settled(DEFAULT_PRIORITY) && NoneEmpty(conds) && (old(queue) == {} ==> queue == {}) &&
                (ok && ended ==> Examined(crypto, DEFAULT_PRIORITY, conds, mask, {}, f))
      ensures Separates(f) && (f({}) ==> old(Settled(DEFAULT_PRIORITY)) && NoneEmpty(old(conds))) ==>
                (|mask| <= limit && Total(old(conds)) < limit ==> ended)
      ensures old(Settled(DEFAULT_PRIORITY)) && NoneEmpty(old(conds)) && Stuck(crypto, old(conds), mask, f) ==> !ended
    {
      hide Fixed, Gfp, AllFixed, Crypto.Valid, StepsToUpdate, NoneEmptied, NoneEmpty, Inside, BitslicesValid, Pending,
        FitsBits, Solution, Allowed, NoneLost, Leq, Separates, Tried, Total, Examined, OneBit, Choice, QueueValid, Unsolvable,
        Stuck;
      ghost var start := conds;
      ghost var good := Settled(DEFAULT_PRIORITY) && NoneEmpty(conds);
      ghost var fits := Separates(f) && (f({}) ==> good) && |mask| <= limit;
      var tmp := new Characteristic(crypto, bitslices, conds);
      CompleteStart(crypto, start);
      for i := 0 to limit
        invariant Valid() && tmp.Valid() && Leq(conds, start) && NoneLost(crypto, DEFAULT_PRIORITY, start, conds)
        invariant good ==> Settled(DEFAULT_PRIORITY) && NoneEmpty(conds) && (old(queue) == {} ==> queue == {})
        invariant fits ==> Total(conds) + i <= Total(start)
        invariant good && Stuck(crypto, start, mask, f) ==> conds == start
      {
        var changed, failed, open := CompletePass(tmp, f, mask, limit, start, good);
        if !changed {
          return !failed, !open;
        }
      }
      return true, false;
    }
  }

  /** Of a selected condition not both choices can be left, by propagation, with a condition that is selected. */
  ghost predicate Separates(f: Cond -> bool) {
    forall c: Cond, d: Cond, e: Cond ::
      OneBit(c) && f(c) && d <= Choice(c, false) && e <= Choice(c, true) && d != {} && e != {} ==> !f(d) || !f(e)
  }

  /** The positions of one-bit conditions that `f` selects. */
  function ConditionMask(crypto: Crypto, conds: seq<Cond>, mask: set<nat>, f: Cond -> bool): (r: set<nat>)
    requires |conds| == crypto.Size()
    ensures forall p :: p in r <==> p in mask && p < crypto.Size() && crypto.bitsize[p] == 1 && f(conds[p])
  {
    set p | p in mask && p < crypto.Size() && crypto.bitsize[p] == 1 && f(conds[p])
  }

  ghost predicate Tried(crypto: Crypto, limit: nat, start: seq<Cond>, ok: bool, settled: bool)
    requires crypto.Valid() && |start| == crypto.Size()
  {
    && (!ok ==> !NoneEmpty(Gfp(crypto, limit, start)))
    && (ok && settled && NoneEmpty(start) ==> NoneEmpty(Gfp(crypto, limit, start)))
  }

  /** No solution that the start allows is lost. */
  ghost predicate NoneLost(crypto: Crypto, limit: nat, start: seq<Cond>, now: seq<Cond>)
    requires crypto.Valid()
  {
    forall a :: Solution(crypto, limit, a) && Allowed(start, a) ==> Allowed(now, a)
  }

  /** No solution starts here. */
  ghost predicate Unsolvable(crypto: Crypto, limit: nat, start: seq<Cond>)
    requires crypto.Valid()
  {
    forall a :: Solution(crypto, limit, a) ==> !Allowed(start, a)
  }

  /** Conditions that stay above the greatest fixpoint lose no solution; one that became empty rules all of them out. */
  lemma InsideSolutions(crypto: Crypto, limit: nat, start: seq<Cond>, now: seq<Cond>)
    requires crypto.Valid() && |start| == crypto.Size() && Inside(crypto, limit, start, now)
    ensures NoneLost(crypto, limit, start, now)
    ensures !NoneEmptied(start, now) ==> Unsolvable(crypto, limit, start)
  {
    hide Gfp, Solution, Crypto.Valid;
    forall a | Solution(crypto, limit, a) && Allowed(start, a) ensures Allowed(now, a) {
      GfpKeepsSolutions(crypto, limit, start, a);
    }
    EmptiedGfp(crypto, limit, start, now);
    hide NoneEmpty, NoneEmptied, Allowed;
    if !NoneEmptied(start, now) {
      forall a | Solution(crypto, limit, a) ensures !Allowed(start, a) {
        EmptiedNoSolution(crypto, limit, start, a);
      }
    }
  }

  /** Both choices of the bit `q` can be propagated. */
  ghost predicate BothPossible(crypto: Crypto, limit: nat, conds: seq<Cond>, q: nat)
    requires crypto.Valid() && |conds| == crypto.Size() && q < |conds|
  {
    && NoneEmpty(Gfp(crypto, limit, conds[q := Choice(conds[q], false)]))
    && NoneEmpty(Gfp(crypto, limit, conds[q := Choice(conds[q], true)]))
  }

  /** A choice of the bit `q` leaves bit `p` with a condition that `f` does not select. */
  ghost predicate Decides(crypto: Crypto, limit: nat, conds: seq<Cond>, q: nat, p: nat, f: Cond -> bool)
    requires crypto.Valid() && |conds| == crypto.Size() && q < |conds| && p < |conds|
  {
    exists second :: !f(Gfp(crypto, limit, conds[q := Choice(conds[q], second)])[p])
  }

  /** Selected bits outside `todo` have been tried, or are decided by a choice of a bit that has been tried. */
  ghost predicate Examined(crypto: Crypto, limit: nat, conds: seq<Cond>, mask: set<nat>, todo: set<nat>, f: Cond -> bool)
    requires crypto.Valid() && |conds| == crypto.Size()
  {
    forall p :: p in ConditionMask(crypto, conds, mask, f) - todo ==> Handled(crypto, limit, conds, mask, p, f)
  }

  /** Both choices are possible for `p`, or for a selected bit of which a choice decides `p`. */
  ghost predicate Handled(crypto: Crypto, limit: nat, conds: seq<Cond>, mask: set<nat>, p: nat, f: Cond -> bool)
    requires crypto.Valid() && |conds| == crypto.Size() && p < |conds|
  {
    exists q :: HandledBy(crypto, limit, conds, mask, p, q, f)
  }

  ghost predicate HandledBy(crypto: Crypto, limit: nat, conds: seq<Cond>, mask: set<nat>, p: nat, q: nat, f: Cond -> bool)
    requires crypto.Valid() && |conds| == crypto.Size() && p < |conds|
  {
    && q in ConditionMask(crypto, conds, mask, f) && BothPossible(crypto, limit, conds, q)
    && (q == p || Decides(crypto, limit, conds, q, p, f))
  }

  lemma CompleteStart(crypto: Crypto, start: seq<Cond>)
    requires crypto.Valid()
    ensures Leq(start, start) && NoneLost(crypto, DEFAULT_PRIORITY, start, start)
  {
  }

  lemma ChoiceFacts(crypto: Crypto, conds: seq<Cond>, p: nat)
    requires CondsFit(crypto, conds) && p < crypto.Size() && crypto.bitsize[p] == 1
    ensures forall second :: FitsBits(Choice(conds[p], second), crypto.bitsize[p])
  {
    hide Choice;
    assert FitsBits(conds[p], crypto.bitsize[p]);
    ChoicesCover(conds[p]);
    forall second ensures FitsBits(Choice(conds[p], second), crypto.bitsize[p]) {
      assert Choice(conds[p], second) <= conds[p];
    }
  }

  lemma NotBothLeft(crypto: Crypto, conds: seq<Cond>, p: nat, f: Cond -> bool, d: Cond, e: Cond)
    requires CondsFit(crypto, conds) && p < crypto.Size() && crypto.bitsize[p] == 1 && f(conds[p]) && Separates(f)
    requires d <= Choice(conds[p], false) && e <= Choice(conds[p], true) && (f({}) ==> d != {} && e != {})
    ensures !f(d) || !f(e)
  {
    hide Choice;
    assert FitsBits(conds[p], crypto.bitsize[p]);
    assert OneBit(conds[p]);
  }

  /** A condition that a separating `f` selects has several values, unless it is empty. */
  lemma SelectedSeveral(crypto: Crypto, conds: seq<Cond>, p: nat, f: Cond -> bool)
    requires CondsFit(crypto, conds) && p < crypto.Size() && crypto.bitsize[p] == 1 && f(conds[p]) && Separates(f) && !f({})
    ensures Several(conds[p])
  {
    hide Choice;
    ChoicesCover(conds[p]) by { assert FitsBits(conds[p], crypto.bitsize[p]); }
    NotBothLeft(crypto, conds, p, f, Choice(conds[p], false), Choice(conds[p], true));
  }

  /** After both choices the bit is left to be tried exactly when both leave it with a selected condition. */
  lemma LeftAgain(crypto: Crypto, conds: seq<Cond>, p: nat, f: Cond -> bool, todo: set<nat>, between: set<nat>, rest: set<nat>)
    requires crypto.Valid() && CondsFit(crypto, conds) && p < crypto.Size() && crypto.bitsize[p] == 1
    requires between == ConditionMask(crypto, Gfp(crypto, DEFAULT_PRIORITY, conds[p := Choice(conds[p], false)]), todo, f)
    requires rest == ConditionMask(crypto, Gfp(crypto, DEFAULT_PRIORITY, conds[p := Choice(conds[p], true)]), between, f)
    ensures p in rest <==> p in todo && LeftSelected(crypto, conds, p, f)
  {
    hide Gfp, Choice;
  }

  /** Both choices of the bit leave it with a selected condition. */
  ghost predicate LeftSelected(crypto: Crypto, conds: seq<Cond>, p: nat, f: Cond -> bool)
    requires crypto.Valid() && |conds| == crypto.Size() && p < |conds|
  {
    && f(Gfp(crypto, DEFAULT_PRIORITY, conds[p := Choice(conds[p], false)])[p])
    && f(Gfp(crypto, DEFAULT_PRIORITY, conds[p := Choice(conds[p], true)])[p])
  }

  /** The bit is tried and, both choices being possible, is to be tried again. */
  ghost predicate Repeats(crypto: Crypto, conds: seq<Cond>, p: nat, f: Cond -> bool)
    requires crypto.Valid() && |conds| == crypto.Size() && p < |conds|
  {
    f(conds[p]) && BothPossible(crypto, DEFAULT_PRIORITY, conds, p) && LeftSelected(crypto, conds, p, f)
  }

  /** Under a separating filter no bit is tried again. */
  lemma SeparatedNeverRepeats(crypto: Crypto, conds: seq<Cond>, p: nat, f: Cond -> bool)
    requires crypto.Valid() && CondsFit(crypto, conds) && p < crypto.Size() && crypto.bitsize[p] == 1 && Separates(f)
    ensures !Repeats(crypto, conds, p, f)
  {
    var a, b := conds[p := Choice(conds[p], false)], conds[p := Choice(conds[p], true)];
    GfpBelow(crypto, DEFAULT_PRIORITY, a);
    GfpBelow(crypto, DEFAULT_PRIORITY, b);
    var d, e := Gfp(crypto, DEFAULT_PRIORITY, a)[p], Gfp(crypto, DEFAULT_PRIORITY, b)[p];
    hide Gfp, Choice, Separates;
    if Repeats(crypto, conds, p, f) {
      assert d != {} && e != {};
      NotBothLeft(crypto, conds, p, f, d, e);
      assert false;
    }
  }

  ghost predicate IsFirst(todo: set<nat>, p: nat) {
    p in todo && forall q :: q in todo ==> p <= q
  }

  /** The first of the selected bits repeats. */
  ghost predicate Stuck(crypto: Crypto, conds: seq<Cond>, mask: set<nat>, f: Cond -> bool)
    requires crypto.Valid() && |conds| == crypto.Size()
  {
    exists p: nat :: p < |conds| && IsFirst(ConditionMask(crypto, conds, mask, f), p) && Repeats(crypto, conds, p, f)
  }

  /** Trying a bit that repeats leaves it the first one. */
  lemma StuckTrial(crypto: Crypto, conds: seq<Cond>, p: nat, f: Cond -> bool, todo: set<nat>, between: set<nat>,
                   rest: set<nat>)
    requires crypto.Valid() && CondsFit(crypto, conds) && p < crypto.Size() && crypto.bitsize[p] == 1
    requires Repeats(crypto, conds, p, f) && IsFirst(todo, p) && rest <= todo
    requires between == ConditionMask(crypto, Gfp(crypto, DEFAULT_PRIORITY, conds[p := Choice(conds[p], false)]), todo, f)
    requires rest == ConditionMask(crypto, Gfp(crypto, DEFAULT_PRIORITY, conds[p := Choice(conds[p], true)]), between, f)
    ensures IsFirst(rest, p)
  {
    hide Gfp, Choice, NoneEmpty;
    LeftAgain(crypto, conds, p, f, todo, between, rest);
  }

  lemma NotRepeated(crypto: Crypto, conds: seq<Cond>, p: nat, f: Cond -> bool, todo: set<nat>, between: set<nat>, rest: set<nat>)
    requires crypto.Valid() && CondsFit(crypto, conds) && p < crypto.Size() && crypto.bitsize[p] == 1 && Separates(f)
    requires f(conds[p]) && NoneEmpty(conds)
    requires forall second :: Tried(crypto, DEFAULT_PRIORITY, conds[p := Choice(conds[p], second)], true, true)
    requires between == ConditionMask(crypto, Gfp(crypto, DEFAULT_PRIORITY, conds[p := Choice(conds[p], false)]), todo, f)
    requires rest == ConditionMask(crypto, Gfp(crypto, DEFAULT_PRIORITY, conds[p := Choice(conds[p], true)]), between, f)
    ensures p !in rest
  {
    ChoiceNotEmpty(crypto, conds, p);
    LeftAgain(crypto, conds, p, f, todo, between, rest);
    SeparatedNeverRepeats(crypto, conds, p, f);
    hide Gfp, Choice, Separates, LeftSelected, NoneEmpty;
    assert Tried(crypto, DEFAULT_PRIORITY, conds[p := Choice(conds[p], false)], true, true);
    assert Tried(crypto, DEFAULT_PRIORITY, conds[p := Choice(conds[p], true)], true, true);
  }

  /** The conditions `-` (equal bits) and `x` (different bits), which the search completes. */
  predicate EqualOrDifferent(c: Cond) {
    c == {0, 3} || c == {1, 2}
  }

  /** They allow exactly the values with equal bits in both messages, or exactly those with different bits. */
  lemma EqualOrDifferentBits(c: Cond)
    requires OneBit(c)
    ensures EqualOrDifferent(c) <==>
      || (forall v :: 0 <= v < 4 ==> (v in c <==> FirstBit(v) == SecondBit(v)))
      || (forall v :: 0 <= v < 4 ==> (v in c <==> FirstBit(v) != SecondBit(v)))
  {
    assert FirstBit(0) == SecondBit(0) && FirstBit(3) == SecondBit(3);
    assert FirstBit(1) != SecondBit(1) && FirstBit(2) != SecondBit(2);
    if forall v :: 0 <= v < 4 ==> (v in c <==> FirstBit(v) == SecondBit(v)) {
      assert c == {0, 3};
    }
    if forall v :: 0 <= v < 4 ==> (v in c <==> FirstBit(v) != SecondBit(v)) {
      assert c == {1, 2};
    }
  }

  /** Their choices are single values, so no choice is selected again. */
  lemma EqualOrDifferentSeparates()
    ensures Separates(EqualOrDifferent)
  {
    forall c: Cond, d: Cond | OneBit(c) && EqualOrDifferent(c) && d <= Choice(c, false)
      ensures !EqualOrDifferent(d)
    {
      ChoicesCover(c);
      assert CodeOf(c) == if 0 in c then 9 else 6;
      assert ChoiceCode(9, false) == 1 && ChoiceCode(6, false) == 2;
      assert 3 !in d && !(1 in d && 2 in d);
    }
  }

  lemma StepFreeGfp(crypto: Crypto, limit: nat, conds: seq<Cond>)
    requires crypto.steps == [] && crypto.Valid() && |conds| == crypto.Size()
    ensures Gfp(crypto, limit, conds) == conds
  {
    GfpBelow(crypto, limit, conds);
    GfpReached(crypto, limit, conds, conds);
  }

  // ---- the state of a pass after `i` trials ----

  ghost predicate Trying(crypto: Crypto, conds: seq<Cond>, mask: set<nat>, todo: set<nat>, f: Cond -> bool, i: nat, good: bool)
    requires crypto.Valid() && |conds| == crypto.Size()
  {
    && todo <= ConditionMask(crypto, conds, mask, f)
    && (good ==> Examined(crypto, DEFAULT_PRIORITY, conds, mask, todo, f))
    && (Separates(f) && (f({}) ==> good) ==> |todo| + i <= |mask|)
    && (good && Stuck(crypto, conds, mask, f) ==>
          exists p: nat :: p < |conds| && IsFirst(todo, p) && Repeats(crypto, conds, p, f))
  }

  lemma TryingStart(crypto: Crypto, conds: seq<Cond>, mask: set<nat>, f: Cond -> bool, good: bool)
    requires crypto.Valid() && |conds| == crypto.Size()
    ensures Trying(crypto, conds, mask, ConditionMask(crypto, conds, mask, f), f, 0, good)
  {
    hide Gfp, Separates, Repeats;
    ExaminedNone(crypto, conds, mask, f);
    SubsetCard(ConditionMask(crypto, conds, mask, f), mask);
  }

  lemma TryingFirst(crypto: Crypto, conds: seq<Cond>, mask: set<nat>, todo: set<nat>, f: Cond -> bool, i: nat, good: bool,
                    p: nat)
    requires crypto.Valid() && |conds| == crypto.Size() && Trying(crypto, conds, mask, todo, f, i, good) && IsFirst(todo, p)
    ensures p < crypto.Size() && crypto.bitsize[p] == 1 && f(conds[p]) && todo <= ConditionMask(crypto, conds, mask, f)
    ensures good && Stuck(crypto, conds, mask, f) ==> Repeats(crypto, conds, p, f)
  {
    hide Examined, Separates, Repeats, Stuck;
    if good && Stuck(crypto, conds, mask, f) {
      var q: nat :| q < |conds| && IsFirst(todo, q) && Repeats(crypto, conds, q, f);
      assert q == p;
    }
  }

  /** Both choices of the first bit are possible. */
  lemma TryingNext(crypto: Crypto, conds: seq<Cond>, mask: set<nat>, todo: set<nat>, between: set<nat>, rest: set<nat>,
                   f: Cond -> bool, i: nat, good: bool, p: nat)
    requires crypto.Valid() && CondsFit(crypto, conds) && Trying(crypto, conds, mask, todo, f, i, good) && IsFirst(todo, p)
    requires p < crypto.Size() && crypto.bitsize[p] == 1 && rest <= todo && (good ==> NoneEmpty(conds))
    requires Separates(f) && (f({}) ==> good) ==> p !in rest
    requires good ==>
      && (forall second :: Tried(crypto, DEFAULT_PRIORITY, conds[p := Choice(conds[p], second)], true, true))
      && between == ConditionMask(crypto, Gfp(crypto, DEFAULT_PRIORITY, conds[p := Choice(conds[p], false)]), todo, f)
      && rest == ConditionMask(crypto, Gfp(crypto, DEFAULT_PRIORITY, conds[p := Choice(conds[p], true)]), between, f)
    ensures Trying(crypto, conds, mask, rest, f, i + 1, good)
  {
    hide Gfp, Choice, Tried, Crypto.Valid, NoneEmpty, FitsBits, Repeats, Separates, Examined, Stuck;
    TryingFirst(crypto, conds, mask, todo, f, i, good, p);
    if good {
      ExaminedNext(crypto, conds, mask, todo, between, rest, f, p);
      if Stuck(crypto, conds, mask, f) {
        StuckTrial(crypto, conds, p, f, todo, between, rest);
      }
    }
    if p !in rest {
      SubsetCard(rest, todo);
    }
  }

  /** A choice of a bit that repeats does not fail. */
  lemma TryingFailed(crypto: Crypto, conds: seq<Cond>, mask: set<nat>, todo: set<nat>, f: Cond -> bool, i: nat, good: bool,
                     p: nat, first: bool, second: bool)
    requires crypto.Valid() && CondsFit(crypto, conds) && Trying(crypto, conds, mask, todo, f, i, good) && IsFirst(todo, p)
    requires p < crypto.Size() && crypto.bitsize[p] == 1 && !(first && second)
    requires good ==>
      && Tried(crypto, DEFAULT_PRIORITY, conds[p := Choice(conds[p], false)], first, true)
      && Tried(crypto, DEFAULT_PRIORITY, conds[p := Choice(conds[p], true)], second, true)
    ensures !(good && Stuck(crypto, conds, mask, f))
  {
    hide Gfp, Choice, Trying, Crypto.Valid, NoneEmpty, FitsBits, Stuck, LeftSelected;
    TryingFirst(crypto, conds, mask, todo, f, i, good, p);
  }

  lemma TryingEnd(crypto: Crypto, conds: seq<Cond>, mask: set<nat>, todo: set<nat>, f: Cond -> bool, i: nat, good: bool)
    requires crypto.Valid() && |conds| == crypto.Size() && Trying(crypto, conds, mask, todo, f, i, good)
    ensures todo == {} && good ==> Examined(crypto, DEFAULT_PRIORITY, conds, mask, {}, f)
    ensures Separates(f) && (f({}) ==> good) && |mask| <= i ==> todo == {}
    ensures good && Stuck(crypto, conds, mask, f) ==> todo != {}
  {
    hide Examined, Separates, Repeats, Stuck;
  }

  lemma ExaminedNone(crypto: Crypto, conds: seq<Cond>, mask: set<nat>, f: Cond -> bool)
    requires crypto.Valid() && |conds| == crypto.Size()
    ensures Examined(crypto, DEFAULT_PRIORITY, conds, mask, ConditionMask(crypto, conds, mask, f), f)
  {
  }

  lemma ExaminedNext(crypto: Crypto, conds: seq<Cond>, mask: set<nat>, todo: set<nat>, between: set<nat>, rest: set<nat>,
                     f: Cond -> bool, p: nat)
    requires crypto.Valid() && |conds| == crypto.Size() && p in todo && todo <= ConditionMask(crypto, conds, mask, f)
    requires Examined(crypto, DEFAULT_PRIORITY, conds, mask, todo, f) && NoneEmpty(conds)
    requires CondsFit(crypto, conds)
    requires forall second ::
      Tried(crypto, DEFAULT_PRIORITY, conds[p := Choice(conds[p], second)], true, true)
    requires between == ConditionMask(crypto, Gfp(crypto, DEFAULT_PRIORITY, conds[p := Choice(conds[p], false)]), todo, f)
    requires rest == ConditionMask(crypto, Gfp(crypto, DEFAULT_PRIORITY, conds[p := Choice(conds[p], true)]), between, f)
    ensures Examined(crypto, DEFAULT_PRIORITY, conds, mask, rest, f)
  {
    hide Gfp, Choice, Crypto.Valid, FitsBits;
    ChoiceNotEmpty(crypto, conds, p);
    var all := ConditionMask(crypto, conds, mask, f);
    assert BothPossible(crypto, DEFAULT_PRIORITY, conds, p) by {
      assert forall second :: Tried(crypto, DEFAULT_PRIORITY, conds[p := Choice(conds[p], second)], true, true);
    }
    hide BothPossible;
    forall r | r in all - rest ensures Handled(crypto, DEFAULT_PRIORITY, conds, mask, r, f) {
      if r in todo {
        if r !in between {
          assert !f(Gfp(crypto, DEFAULT_PRIORITY, conds[p := Choice(conds[p], false)])[r]);
        } else {
          assert !f(Gfp(crypto, DEFAULT_PRIORITY, conds[p := Choice(conds[p], true)])[r]);
        }
        assert Decides(crypto, DEFAULT_PRIORITY, conds, p, r, f);
        assert HandledBy(crypto, DEFAULT_PRIORITY, conds, mask, r, p, f);
      }
    }
  }

  lemma ChoiceNotEmpty(crypto: Crypto, conds: seq<Cond>, p: nat)
    requires CondsFit(crypto, conds) && p < crypto.Size() && crypto.bitsize[p] == 1 && NoneEmpty(conds)
    ensures forall second :: NoneEmpty(conds[p := Choice(conds[p], second)])
  {
    hide Choice;
    assert FitsBits(conds[p], crypto.bitsize[p]);
    ChoicesCover(conds[p]);
  }

  /** When both choices fail there is no solution. */
  lemma BothFail(crypto: Crypto, limit: nat, start: seq<Cond>, conds: seq<Cond>, p: nat, s: bool)
    requires crypto.Valid() && CondsFit(crypto, conds) && p < crypto.Size() && crypto.bitsize[p] == 1
    requires NoneLost(crypto, limit, start, conds)
    requires forall second :: Tried(crypto, limit, conds[p := Choice(conds[p], second)], false, s)
    ensures Unsolvable(crypto, limit, start)
  {
    hide Gfp, Choice, Solution, Crypto.Valid, FitsBits, NoneEmpty;
    forall a | Solution(crypto, limit, a) ensures !Allowed(start, a) {
      if Allowed(conds, a) {
        var second := SplitSolution(crypto, conds, p, a);
        assert Tried(crypto, limit, conds[p := Choice(conds[p], second)], false, s);
        EmptiedNoSolution(crypto, limit, conds[p := Choice(conds[p], second)], a);
      }
    }
  }

  lemma SplitSolution(crypto: Crypto, conds: seq<Cond>, p: nat, a: seq<nat>) returns (second: bool)
    requires CondsFit(crypto, conds) && p < crypto.Size() && crypto.bitsize[p] == 1 && Allowed(conds, a)
    ensures Allowed(conds[p := Choice(conds[p], second)], a)
  {
    hide Choice;
    assert FitsBits(conds[p], crypto.bitsize[p]);
    ChoicesCover(conds[p]);
    second := a[p] !in Choice(conds[p], false);
  }

  /** Committing to a choice when the other one failed loses no solution; it decides something when the condition has
      several values, and in a propagated state without a contradiction it does. */
  lemma CommitFacts(crypto: Crypto, limit: nat, start: seq<Cond>, conds: seq<Cond>, p: nat, second: bool, s: bool)
    requires crypto.Valid() && CondsFit(crypto, conds) && p < crypto.Size() && crypto.bitsize[p] == 1
    requires NoneLost(crypto, limit, start, conds)
    requires Tried(crypto, limit, conds[p := Choice(conds[p], !second)], false, s)
    requires Tried(crypto, limit, conds[p := Choice(conds[p], second)], true, s)
    ensures var next := conds[p := Choice(conds[p], second)];
            NoneLost(crypto, limit, start, next) && Leq(next, conds) &&
            (Several(conds[p]) || (s && NoneEmpty(conds)) ==> next != conds)
  {
    hide Gfp, Choice, Solution, Crypto.Valid, NoneEmpty;
    var next := conds[p := Choice(conds[p], second)];
    assert FitsBits(conds[p], crypto.bitsize[p]);
    assert OneBit(conds[p]);
    ChoicesCover(conds[p]);
    forall a | Solution(crypto, limit, a) && Allowed(start, a) ensures Allowed(next, a) {
      EmptiedNoSolution(crypto, limit, conds[p := Choice(conds[p], !second)], a);
      var which := SplitSolution(crypto, conds, p, a);
    }
    if !Several(conds[p]) {
      assert next == conds == conds[p := Choice(conds[p], !second)];
    } else {
      assert next[p] != conds[p];
    }
  }

  lemma InsideAt(crypto: Crypto, limit: nat, start: seq<Cond>, now: seq<Cond>, p: nat)
    requires crypto.Valid() && |start| == crypto.Size() && Inside(crypto, limit, start, now) && p < |start|
    ensures now[p] <= start[p]
  {
    hide Gfp;
  }

  lemma FixedPending(crypto: Crypto, limit: nat, conds: seq<Cond>)
    requires crypto.Valid() && |conds| == crypto.Size() && AllFixed(crypto, limit, conds)
    ensures Pending(crypto, limit, conds, {})
  {
  }

  lemma CommitUpdate(crypto: Crypto, limit: nat, start: seq<Cond>, now: seq<Cond>, next: seq<Cond>, after: seq<Cond>,
                     queue: set<StepUpdate>, done: bool, good: bool)
    requires crypto.Valid() && |now| == |next| == crypto.Size() && Inside(crypto, limit, next, after)
    requires NoneLost(crypto, limit, start, next) && Leq(next, now) && Leq(now, start)
    requires done <==> NoneEmptied(next, after)
    requires good ==> Tried(crypto, limit, next, true, true) && NoneEmpty(next)
    requires done ==> queue == {}
    requires done && good ==> AllFixed(crypto, limit, after) && after == Gfp(crypto, limit, next)
    ensures NoneLost(crypto, limit, start, after) && Leq(after, start) && (next != now ==> Total(after) < Total(now))
    ensures good ==> done && Pending(crypto, limit, after, queue) && NoneEmpty(after)
  {
    hide Gfp, Solution, Crypto.Valid, Total, AllFixed;
    LeqTransitive(next, now, start);
    LeqTransitive(after, next, start);
    TotalShrinks(next, now);
    TotalShrinks(after, next);
    forall a | Solution(crypto, limit, a) && Allowed(start, a) ensures Allowed(after, a) {
      GfpKeepsSolutions(crypto, limit, next, a);
      assert |a| == |after|;
    }
    EmptiedGfp(crypto, limit, next, after);
    if good {
      FixedPending(crypto, limit, after);
    }
  }

  lemma TriedUpdate(crypto: Crypto, limit: nat, start: seq<Cond>, now: seq<Cond>, ok: bool, settled: bool)
    requires crypto.Valid() && |start| == crypto.Size() && Inside(crypto, limit, start, now)
    requires ok <==> NoneEmptied(start, now)
    requires ok && settled ==> now == Gfp(crypto, limit, start)
    ensures Tried(crypto, limit, start, ok, settled)
  {
    hide Gfp;
    EmptiedGfp(crypto, limit, start, now);
  }

  lemma EmptiedGfp(crypto: Crypto, limit: nat, start: seq<Cond>, now: seq<Cond>)
    requires crypto.Valid() && |start| == crypto.Size() && Inside(crypto, limit, start, now)
    ensures !NoneEmptied(start, now) ==> !NoneEmpty(Gfp(crypto, limit, start))
  {
    hide Gfp;
    if !NoneEmptied(start, now) {
      var k :| 0 <= k < |now| && now[k] == {} && start[k] != {};
      assert !NoneEmpty(now);
      EmptiedInside(crypto, limit, start, now);
    }
  }

  lemma SetTouched(crypto: Crypto, conds: seq<Cond>, k: nat, value: Cond, queue: set<StepUpdate>, next: set<StepUpdate>)
    requires k < |conds|
    requires next == if conds[k] == value then queue else queue + StepsToUpdate(crypto, k)
    ensures Touched(crypto, conds, conds[k := value], queue, next)
  {
  }

  lemma AllQueued(crypto: Crypto, limit: nat, conds: seq<Cond>, queue: set<StepUpdate>)
    requires crypto.Valid() && |conds| == crypto.Size()
    requires forall k :: 0 <= k < crypto.Size() ==> StepsToUpdate(crypto, k) <= queue
    ensures Pending(crypto, limit, conds, queue)
  {
    hide Fixed, StepsToUpdate;
    forall u | Active(crypto, limit, u) ensures u in queue {
      crypto.AtValid(u);
      InStepsToUpdate(crypto, crypto.At(u)[0], u);
    }
  }

  lemma UpdateStart(crypto: Crypto, limit: nat, start: seq<Cond>)
    requires crypto.Valid() && |start| == crypto.Size()
    ensures Inside(crypto, limit, start, start) && NoneEmptied(start, start)
  {
    InsideStart(crypto, limit, start);
  }

  /** What one pass of the update loop keeps. */
  lemma UpdateNext(crypto: Crypto, limit: nat, start: seq<Cond>, now: seq<Cond>, after: seq<Cond>,
                   queue: set<StepUpdate>, next: set<StepUpdate>, pos: StepUpdate, settled: bool)
    requires crypto.Valid() && |start| == |now| == crypto.Size() && Active(crypto, limit, pos) && pos in queue
    requires Inside(crypto, limit, start, now) && Stepped(crypto, pos, now, after)
    requires Touched(crypto, now, after, queue, next) && (settled ==> Pending(crypto, limit, now, queue))
    ensures |after| == crypto.Size()
    ensures Inside(crypto, limit, start, after)
    ensures settled ==> Pending(crypto, limit, after, next - {pos})
    ensures NoneEmptied(start, now) && NoneEmptied(now, after) ==> NoneEmptied(start, after)
    ensures NoneEmptied(start, after) ==> NoneEmptied(now, after)
    ensures Total(after) < Total(now) || (Total(after) == Total(now) && next == queue)
  {
    hide Gfp, Stepped, Pending, StepsToUpdate, Total;
    InsideStep(crypto, limit, start, now, after, pos);
    if settled { PendingErased(crypto, limit, now, after, queue, next, pos); }
    TotalShrinks(after, now);
    assert NoneEmptied(start, after) ==> NoneEmptied(now, after) by {
      assert Leq(now, start) && Leq(after, now);
      if NoneEmptied(start, after) {
        forall k | 0 <= k < |after| && after[k] == {} ensures now[k] == {} {
          assert now[k] <= start[k];
        }
      }
    }
  }

  lemma WritingStart(crypto: Crypto, now: seq<Cond>, at: seq<nat>, values: seq<Cond>, queue: set<StepUpdate>)
    requires |values| == |at|
    ensures Writing(crypto, now, at, values, 0, now, queue, queue, true)
  {
  }

  lemma SlotsFacts(crypto: Crypto, fn: Func, at: seq<nat>)
    requires fn.Valid() && crypto.SlotsValid(fn, at)
    ensures forall i :: 0 <= i < |at| ==> at[i] < crypto.Size()
    ensures forall j, k :: 0 <= j < k < |at| ==> at[j] != at[k]
  {
  }

  lemma SlotFits(crypto: Crypto, conds: seq<Cond>, fn: Func, at: seq<nat>, i: nat)
    requires fn.Valid() && crypto.SlotsValid(fn, at) && CondsFit(crypto, conds) && i < |at|
    ensures at[i] < |conds| && i < |fn.bitsize| && forall k :: k in conds[at[i]] ==> k < Size(fn, i)
  {
    assert FitsBits(conds[at[i]], crypto.bitsize[at[i]]);
  }

  lemma ValueFits(crypto: Crypto, fn: Func, at: seq<nat>, output: BitsliceData, i: nat)
    requires fn.Valid() && crypto.SlotsValid(fn, at) && output.Valid(fn) && i < |at|
    ensures i < fn.Slots() && at[i] < crypto.Size() && FitsBits(output.GetCondition(fn, i), crypto.bitsize[at[i]])
    ensures output.Conditions(fn)[i] == output.GetCondition(fn, i)
  {
    hide BitsliceData.GetCondition;
    output.GetBits(fn, i);
  }

  lemma QueuedValid(crypto: Crypto, queue: set<StepUpdate>, k: nat)
    requires QueueValid(crypto, queue)
    ensures QueueValid(crypto, queue + StepsToUpdate(crypto, k))
  {
    forall u | u in StepsToUpdate(crypto, k) ensures crypto.Has(u) {
      InStepsToUpdate(crypto, k, u);
    }
  }

  // ---- how long completing takes at most ----

  lemma {:induction false} SizeBelow(c: Cond, n: nat)
    requires forall v :: v in c ==> v < n
    ensures |c| <= n
  {
    if n > 0 {
      SizeBelow(c - {n - 1}, n - 1);
      assert c <= (c - {n - 1}) + {n - 1};
    } else {
      assert c == {};
    }
  }

  lemma {:induction false} TotalBound(conds: seq<Cond>, n: nat)
    requires forall k :: 0 <= k < |conds| ==> forall v :: v in conds[k] ==> v < n
    ensures Total(conds) <= n * |conds|
  {
    if conds != [] {
      SizeBelow(conds[0], n);
      TotalBound(conds[1..], n);
    }
  }

  lemma FitsTotal(crypto: Crypto, conds: seq<Cond>)
    requires CondsFit(crypto, conds)
    ensures Total(conds) <= 64 * |conds|
  {
    forall k, v | 0 <= k < |conds| && v in conds[k] ensures v < 64 {
      assert FitsBits(conds[k], crypto.bitsize[k]);
    }
    TotalBound(conds, 64);
  }
}
