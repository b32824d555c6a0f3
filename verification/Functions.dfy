/** The additions and the exclusive or as bitslice functions (src/functions.h, examples/sha2/sha2.cpp). */
module Functions {
  import opened BitsliceFunctions
  import opened Adders
  import opened Sha2

  /** Swapping inputs that the symmetry declares exchangeable does not change the outputs. */
  ghost predicate SwapSafe(fn: Func)
    requires fn.Valid()
  {
    forall i: nat, j: nat, x: seq<nat> :: Exchangeable(fn, i, j) && i != j && fn.InRange(x) ==>
      i < fn.ins && j < fn.ins && fn.f(Swap(x, i, j)) == fn.f(x)
  }

  lemma MessageSwap(fn: Func, t: seq<nat>, i: nat, j: nat, second: bool)
    requires fn.Valid() && |t| == fn.Slots() && i < fn.ins && j < fn.ins && fn.bitsize[i] == fn.bitsize[j]
    ensures Message(fn, Swap(t, i, j), second)[..fn.ins] == Swap(Message(fn, t, second)[..fn.ins], i, j)
    ensures Message(fn, Swap(t, i, j), second)[fn.ins..] == Message(fn, t, second)[fn.ins..]
  {
  }

  lemma MessageInRange(fn: Func, t: seq<nat>, second: bool)
    requires fn.Valid() && Rel(fn, t)
    ensures fn.InRange(Message(fn, t, second)[..fn.ins])
  {
    forall i | 0 <= i < fn.ins ensures Message(fn, t, second)[i] < fn.Base(i) {
      CodeDecode(fn, i, t[i]);
    }
  }

  /** The relation of such a function is symmetric. */
  lemma SwapSafeSymmetric(fn: Func)
    requires fn.Valid() && SwapSafe(fn)
    ensures Symmetric(fn)
  {
    hide SwapSafe, Func.Valid;
    SlotCount(fn);
    forall i, j, t | Exchangeable(fn, i, j) && Rel(fn, t) ensures Rel(fn, Swap(t, i, j)) {
      if i == j {
        assert Swap(t, i, j) == t;
      } else {
        SwapRelated(fn, t, i, j);
      }
    }
  }

  lemma SwapRelated(fn: Func, t: seq<nat>, i: nat, j: nat)
    requires fn.Valid() && SwapSafe(fn) && Exchangeable(fn, i, j) && i != j && Rel(fn, t)
    ensures i < |t| && j < |t| && Rel(fn, Swap(t, i, j))
  {
    assert fn.bitsize[i] == fn.bitsize[j] && fn.Base(i) == fn.Base(j) by {
      assert i < j || j < i;
    }
    hide Func.Base, Func.Decode;
    MessageInRange(fn, t, false);
    MessageInRange(fn, t, true);
    var x := Message(fn, t, false)[..fn.ins];
    assert i < fn.ins && j < fn.ins && fn.f(Swap(x, i, j)) == fn.f(x);
    var lo, hi := if i < j then i else j, if i < j then j else i;
    assert fn.bitsize[lo] == fn.bitsize[hi];
    MessageSwap(fn, t, i, j, false);
    MessageSwap(fn, t, i, j, true);
  }

  // ---- ADD<N> ----

  /** The addition of `n` bits with a carry; a carry has as many bits as n - 1. */
  function AddFunc(n: nat): Func
    requires 2 <= n <= 8
  {
    Func(n + 1, 2, seq(n + 3, (i: nat) => AddBitsize(n, i)), seq(n + 3, (i: nat) => AddSymmetry(n, i)), x => AddOutputs(x))
  }

  function AddBitsize(n: nat, i: nat): nat
    requires n > 0
  {
    if i == n || i == n + 2 then Log2(n - 1) + 1 else 1
  }

  function AddSymmetry(n: nat, i: nat): nat {
    if i < n then 0 else i
  }

  lemma CarryBits(n: nat)
    requires 2 <= n <= 8
    ensures Log2(n - 1) + 1 == if n == 2 then 1 else if n <= 4 then 2 else 3
  {
    assert Log2(1) == 0 && Log2(2) == 1 && Log2(3) == 1;
    assert Log2(4) == 2 && Log2(5) == 2 && Log2(6) == 2 && Log2(7) == 2;
  }

  lemma {:induction false} SumUpdate(x: seq<nat>, i: nat, v: nat)
    requires i < |x|
    ensures Sum(x[i := v]) + x[i] == Sum(x) + v
  {
    if i < |x| - 1 {
      SumUpdate(x[..|x| - 1], i, v);
      assert x[i := v][..|x| - 1] == x[..|x| - 1][i := v];
    } else {
      assert x[i := v][..i] == x[..i];
    }
  }

  lemma SumSwap(x: seq<nat>, i: nat, j: nat)
    requires i < |x| && j < |x|
    ensures Sum(Swap(x, i, j)) == Sum(x)
  {
    SumUpdate(x, i, x[j]);
    SumUpdate(x[i := x[j]], j, x[i]);
  }

  /** Outputs fit their slots: a carry out fits as many bits as a carry in. */
  lemma AddFuncValid(n: nat)
    requires 2 <= n <= 8
    ensures AddFunc(n).Valid()
  {
    CarryBits(n);
    var fn := AddFunc(n);
    AddShape(n);
    forall x: seq<nat> | fn.InRange(x) ensures fn.FitsOut(fn.f(x)) {
      AddFits(n, x);
    }
  }

  /** The bits and the sum have one bit, the carries have room for n - 1. */
  lemma AddShape(n: nat)
    requires 2 <= n <= 8
    ensures |AddFunc(n).bitsize| == AddFunc(n).Slots() == n + 3
    ensures forall i :: 0 <= i < n ==> AddFunc(n).Base(i) == 2
    ensures AddFunc(n).Base(n + 1) == 2 && n <= AddFunc(n).Base(n) == AddFunc(n).Base(n + 2) <= 8
  {
    CarryBits(n);
  }

  lemma AddFits(n: nat, x: seq<nat>)
    requires 2 <= n <= 8 && |AddFunc(n).bitsize| == AddFunc(n).Slots() && AddFunc(n).InRange(x)
    ensures AddFunc(n).FitsOut(AddOutputs(x))
  {
    AddShape(n);
    var carry := AddFunc(n).Base(n);
    assert |x| == n + 1 && x[n] < carry && forall k :: 0 <= k < n ==> x[k] < AddFunc(n).Base(k);
    AddOutputsFit(n, x, carry);
    hide AddOutputs, AddFunc;
  }

  lemma AddOutputsFit(n: nat, x: seq<nat>, carry: nat)
    requires |x| == n + 1 && (forall k :: 0 <= k < n ==> x[k] < 2) && x[n] < carry && n <= carry <= 8
    ensures AddOutputs(x)[0] < 2 && AddOutputs(x)[1] < carry
  {
    SumBound(x[..n]);
    AccumulateSum(x);
    var total := Sum(x);
    assert total <= n + x[n];
    assert total < 2 * carry && total < 256;
    hide Sum, Accumulate;
    assert AddOutputs(x) == [total % 2, total / 2];
  }

  lemma AddSymmetric(n: nat)
    requires 2 <= n <= 8
    ensures AddFunc(n).Valid() && Symmetric(AddFunc(n))
  {
    AddFuncValid(n);
    var fn := AddFunc(n);
    hide Func.Valid;
    forall i: nat, j: nat, x: seq<nat> | Exchangeable(fn, i, j) && i != j && fn.InRange(x)
      ensures i < fn.ins && j < fn.ins && fn.f(Swap(x, i, j)) == fn.f(x)
    {
      SumSwap(x, i, j);
      AccumulateSum(x);
      AccumulateSum(Swap(x, i, j));
    }
    SwapSafeSymmetric(fn);
  }

  // ---- SADD ----

  function SaddFunc(): Func {
    Func(5, 2, [1, 1, 1, 1, 2, 1, 2], [0, 0, 0, 3, 4, 5, 6], x => if |x| == 5 then SaddOutputs(x) else [])
  }

  lemma SaddFuncValid()
    ensures SaddFunc().Valid()
  {
    var fn := SaddFunc();
    assert fn.bitsize == [1, 1, 1, 1, 2, 1, 2] && fn.symmetry == [0, 0, 0, 3, 4, 5, 6];
    forall x: seq<nat> | fn.InRange(x) ensures fn.FitsOut(fn.f(x)) {
      assert |x| == 5 && fn.f(x) == SaddOutputs(x);
      hide SaddOutputs;
      SaddRange(x);
    }
  }

  lemma SaddRange(x: seq<nat>)
    requires |x| == 5
    ensures SaddOutputs(x)[0] < 2 && SaddOutputs(x)[1] < 4
  {
  }

  lemma SaddSwap(x: seq<nat>, i: nat, j: nat)
    requires |x| == 5 && i < 3 && j < 3
    ensures SaddOutputs(Swap(x, i, j)) == SaddOutputs(x)
  {
    var z := Swap(x, i, j);
    assert z[0] + z[1] + z[2] == x[0] + x[1] + x[2] && z[3] == x[3] && z[4] == x[4];
  }

  lemma SaddExchange(x: seq<nat>, i: nat, j: nat)
    requires Exchangeable(SaddFunc(), i, j) && i != j && |x| == 5
    ensures i < 3 && j < 3 && SaddOutputs(Swap(x, i, j)) == SaddOutputs(x)
  {
    hide SaddOutputs;
    assert SaddFunc().symmetry == [0, 0, 0, 3, 4, 5, 6];
    SaddSwap(x, i, j);
  }

  lemma SaddSymmetric()
    ensures SaddFunc().Valid() && Symmetric(SaddFunc())
  {
    SaddFuncValid();
    var fn := SaddFunc();
    hide Func.Valid, SaddOutputs;
    forall i: nat, j: nat, x: seq<nat> | Exchangeable(fn, i, j) && i != j && fn.InRange(x)
      ensures i < fn.ins && j < fn.ins && fn.f(Swap(x, i, j)) == fn.f(x)
    {
      SaddExchange(x, i, j);
    }
    SwapSafeSymmetric(fn);
  }

  // ---- XOR<N> ----

  /** The exclusive or of bits. */
  function Parity(x: seq<nat>): nat {
    Sum(x) % 2
  }

  function XorFunc(n: nat): Func
    requires n > 0
  {
    Func(n, 1, seq(n + 1, i => 1), seq(n + 1, i => if i == n then 1 else 0), x => [Parity(x)])
  }

  lemma XorSymmetric(n: nat)
    requires n > 0
    ensures XorFunc(n).Valid() && Symmetric(XorFunc(n))
  {
    var fn := XorFunc(n);
    assert fn.Valid();
    forall i: nat, j: nat, x: seq<nat> | Exchangeable(fn, i, j) && i != j && fn.InRange(x)
      ensures i < fn.ins && j < fn.ins && fn.f(Swap(x, i, j)) == fn.f(x)
    {
      SumSwap(x, i, j);
    }
    SwapSafeSymmetric(fn);
  }
}
