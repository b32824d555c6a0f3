/** Bitslice functions as finite relations on pairs of values, and exact projection onto their slots
    (src/functions.h, src/propagate.h). */
module BitsliceFunctions {

  /** Values of a slot in the two messages. */
  datatype Pair = Pair(first: nat, second: nat)

  /** A condition on a slot is the set of the codes of its allowed pairs. */
  type Cond = set<nat>

  /** A function with `ins` input and `outs` output slots; `f` computes the outputs of one message. */
  datatype Func = Func(ins: nat, outs: nat, bitsize: seq<nat>, symmetry: seq<nat>, f: seq<nat> -> seq<nat>) {
    function Slots(): nat { ins + outs }

    /** Number of values of slot `i` in one message. */
    function Base(i: nat): nat
      requires i < |bitsize|
    {
      if bitsize[i] == 1 then 2 else if bitsize[i] == 2 then 4 else 8
    }

    ghost predicate Valid() {
      && ins > 0
      && |bitsize| == |symmetry| == Slots()
      && (forall i :: 0 <= i < Slots() ==> 1 <= bitsize[i] <= 3)
      && (forall i, j :: 0 <= i < j < Slots() && symmetry[i] == symmetry[j] ==> bitsize[i] == bitsize[j])
      && (forall x: seq<nat> :: InRange(x) ==> FitsOut(f(x)))
    }

    ghost predicate InRange(x: seq<nat>)
      requires |bitsize| == Slots()
    {
      |x| == ins && forall i :: 0 <= i < ins ==> x[i] < Base(i)
    }

    ghost predicate FitsOut(y: seq<nat>)
      requires |bitsize| == Slots()
    {
      |y| == outs && forall j :: 0 <= j < outs ==> y[j] < Base(ins + j)
    }

    function Code(i: nat, p: Pair): nat
      requires i < |bitsize|
    {
      p.second * Base(i) + p.first
    }

    function Decode(i: nat, v: nat): Pair
      requires i < |bitsize|
    {
      Pair(v % Base(i), v / Base(i))
    }

    ghost predicate Fits(conds: seq<Cond>)
      requires |bitsize| == Slots()
    {
      |conds| == Slots() && forall i :: 0 <= i < |conds| ==> forall v :: v in conds[i] ==> v < Base(i) * Base(i)
    }
  }

  lemma SlotCount(fn: Func)
    requires fn.Valid()
    ensures |fn.bitsize| == |fn.symmetry| == fn.Slots() && fn.ins > 0
  {
  }

  lemma CodeDecode(fn: Func, i: nat, v: nat)
    requires i < |fn.bitsize|
    ensures fn.Code(i, fn.Decode(i, v)) == v
    ensures v < fn.Base(i) * fn.Base(i) ==> fn.Decode(i, v).first < fn.Base(i) && fn.Decode(i, v).second < fn.Base(i)
  {
  }

  lemma DecodeCode(fn: Func, i: nat, p: Pair)
    requires i < |fn.bitsize| && p.first < fn.Base(i) && p.second < fn.Base(i)
    ensures fn.Decode(i, fn.Code(i, p)) == p
    ensures fn.Code(i, p) < fn.Base(i) * fn.Base(i) <= 64
  {
  }

  /** Bit `j` of a number. */
  function Bit(v: nat, j: nat): (b: nat)
    ensures b < 2
  {
    if j == 0 then v % 2 else Bit(v / 2, j - 1)
  }

  /** The code of a pair of values of k bits has the bits of the first message first: bit j of the first value has
      weight 2^j, bit j of the second one weight 2^(k+j). */
  lemma CodeBits(fn: Func, i: nat, v: nat, j: nat)
    requires i < |fn.bitsize| && 1 <= fn.bitsize[i] <= 3 && v < fn.Base(i) * fn.Base(i) && j < fn.bitsize[i]
    ensures Bit(fn.Decode(i, v).first, j) == Bit(v, j)
    ensures Bit(fn.Decode(i, v).second, j) == Bit(v, fn.bitsize[i] + j)
  {
    var k := fn.bitsize[i];
    assert fn.Base(i) == TwoTo(k);
    BitLow(v, k, j);
    BitHigh(v, k, j);
  }

  function TwoTo(k: nat): (m: nat)
    ensures m > 0 && (k <= 3 ==> m == [1, 2, 4, 8][k])
  {
    if k == 0 then 1 else 2 * TwoTo(k - 1)
  }

  lemma {:induction false} BitLow(v: nat, k: nat, j: nat)
    requires j < k <= 3
    ensures Bit(v % TwoTo(k), j) == Bit(v, j)
  {
    ModHalf(v, TwoTo(k - 1));
    if j > 0 {
      BitLow(v / 2, k - 1, j - 1);
    }
  }

  lemma {:induction false} BitHigh(v: nat, k: nat, j: nat)
    requires k <= 3
    ensures Bit(v / TwoTo(k), j) == Bit(v, k + j)
  {
    if k > 0 {
      ModHalf(v, TwoTo(k - 1));
      BitHigh(v / 2, k - 1, j);
    }
  }

  lemma ModHalf(v: nat, m: nat)
    requires m == 1 || m == 2 || m == 4
    ensures v % (2 * m) % 2 == v % 2 && v % (2 * m) / 2 == v / 2 % m && v / 2 / m == v / (2 * m)
  {
    if m == 2 {
      ModFour(v);
    } else if m == 4 {
      ModEight(v);
    }
  }

  lemma ModFour(v: nat)
    ensures v % 4 % 2 == v % 2 && v % 4 / 2 == v / 2 % 2 && v / 2 / 2 == v / 4
  {
    var q, r := v / 4, v % 4;
    assert v == 4 * q + r && v / 2 == 2 * q + r / 2;
  }

  lemma ModEight(v: nat)
    ensures v % 8 % 2 == v % 2 && v % 8 / 2 == v / 2 % 4 && v / 2 / 4 == v / 8
  {
    var q, r := v / 8, v % 8;
    assert v == 8 * q + r && v / 2 == 4 * q + r / 2;
  }

  /** One message of a tuple of codes. */
  ghost function Message(fn: Func, t: seq<nat>, second: bool): seq<nat>
    requires |t| <= |fn.bitsize|
  {
    seq(|t|, i requires 0 <= i < |t| => if second then fn.Decode(i, t[i]).second else fn.Decode(i, t[i]).first)
  }

  /** In both messages the outputs are the function of the inputs. */
  ghost predicate Rel(fn: Func, t: seq<nat>)
    requires fn.Valid()
  {
    && |t| == fn.Slots()
    && (forall i :: 0 <= i < |t| ==> t[i] < fn.Base(i) * fn.Base(i))
    && Message(fn, t, false)[fn.ins..] == fn.f(Message(fn, t, false)[..fn.ins])
    && Message(fn, t, true)[fn.ins..] == fn.f(Message(fn, t, true)[..fn.ins])
  }

  ghost predicate Allowed(conds: seq<Cond>, t: seq<nat>) {
    |t| == |conds| && forall i :: 0 <= i < |t| ==> t[i] in conds[i]
  }

  /** Slot `i` takes value `v` in some allowed solution. */
  ghost predicate Takes(fn: Func, conds: seq<Cond>, i: nat, v: nat)
    requires fn.Valid()
  {
    exists t :: Rel(fn, t) && Allowed(conds, t) && i < |t| && t[i] == v
  }

  /** For each slot the values that it takes over all allowed solutions. */
  ghost function Projected(fn: Func, conds: seq<Cond>): (r: seq<Cond>)
    requires fn.Valid() && |conds| == fn.Slots()
    ensures |r| == |conds|
  {
    seq(|conds|, i requires 0 <= i < |conds| => set v | v in conds[i] && Takes(fn, conds, i, v))
  }

  lemma ProjectedAt(fn: Func, conds: seq<Cond>, i: nat, v: nat)
    requires fn.Valid() && |conds| == fn.Slots() && i < |conds|
    ensures v in Projected(fn, conds)[i] <==> Takes(fn, conds, i, v)
  {
    if Takes(fn, conds, i, v) {
      var t :| Rel(fn, t) && Allowed(conds, t) && i < |t| && t[i] == v;
    }
  }

  // ---- laws of projection ----

  ghost predicate Leq(a: seq<Cond>, b: seq<Cond>) {
    |a| == |b| && forall i :: 0 <= i < |a| ==> a[i] <= b[i]
  }

  lemma ProjectionShrinks(fn: Func, conds: seq<Cond>)
    requires fn.Valid() && |conds| == fn.Slots()
    ensures Leq(Projected(fn, conds), conds)
  {
  }

  /** No allowed solution is lost. */
  lemma ProjectionSound(fn: Func, conds: seq<Cond>, t: seq<nat>)
    requires fn.Valid() && |conds| == fn.Slots()
    ensures Rel(fn, t) && Allowed(conds, t) <==> Rel(fn, t) && Allowed(Projected(fn, conds), t)
  {
    if Rel(fn, t) && Allowed(conds, t) {
      forall i | 0 <= i < |t| ensures t[i] in Projected(fn, conds)[i] {
        assert Takes(fn, conds, i, t[i]);
      }
    }
  }

  lemma ProjectionMonotone(fn: Func, a: seq<Cond>, b: seq<Cond>)
    requires fn.Valid() && |a| == fn.Slots() && Leq(a, b)
    ensures Leq(Projected(fn, a), Projected(fn, b))
  {
    forall i, v | 0 <= i < |a| && v in Projected(fn, a)[i] ensures v in Projected(fn, b)[i] {
      var t :| Rel(fn, t) && Allowed(a, t) && i < |t| && t[i] == v;
      assert Allowed(b, t);
      assert Takes(fn, b, i, v);
    }
  }

  lemma ProjectionIdempotent(fn: Func, conds: seq<Cond>)
    requires fn.Valid() && |conds| == fn.Slots()
    ensures Projected(fn, Projected(fn, conds)) == Projected(fn, conds)
  {
    var p := Projected(fn, conds);
    forall i | 0 <= i < |p| ensures Projected(fn, p)[i] == p[i] {
      forall v | v in p[i] ensures v in Projected(fn, p)[i] {
        var t :| Rel(fn, t) && Allowed(conds, t) && i < |t| && t[i] == v;
        ProjectionSound(fn, conds, t);
        assert Takes(fn, p, i, v);
      }
    }
  }

  // ---- slots with the same symmetry ----

  ghost predicate Exchangeable(fn: Func, i: nat, j: nat) {
    i < |fn.symmetry| && j < |fn.symmetry| && fn.symmetry[i] == fn.symmetry[j]
  }

  function Swap<T>(s: seq<T>, i: nat, j: nat): seq<T>
    requires i < |s| && j < |s|
  {
    s[i := s[j]][j := s[i]]
  }

  /** Swapping two slots with the same symmetry does not change the relation. */
  ghost predicate Symmetric(fn: Func)
    requires fn.Valid()
  {
    forall i, j, t :: Exchangeable(fn, i, j) && Rel(fn, t) ==> Rel(fn, Swap(t, i, j))
  }

  lemma SwapProjects(fn: Func, conds: seq<Cond>, i: nat, j: nat)
    requires fn.Valid() && Symmetric(fn) && |conds| == fn.Slots() > i && |conds| > j && Exchangeable(fn, i, j)
    ensures Projected(fn, Swap(conds, i, j)) == Swap(Projected(fn, conds), i, j)
  {
    hide Projected, Symmetric, Func.Valid;
    forall k | 0 <= k < |conds| ensures Projected(fn, Swap(conds, i, j))[k] == Swap(Projected(fn, conds), i, j)[k] {
      SlotProjects(fn, conds, i, j, k);
    }
  }

  /** The slot that ends up at position `k` when `i` and `j` are swapped. */
  function Other(i: nat, j: nat, k: nat): nat {
    if k == i then j else if k == j then i else k
  }

  lemma SlotProjects(fn: Func, conds: seq<Cond>, i: nat, j: nat, k: nat)
    requires fn.Valid() && Symmetric(fn) && |conds| == fn.Slots() > i && |conds| > j && Exchangeable(fn, i, j) && k < |conds|
    ensures Projected(fn, Swap(conds, i, j))[k] == Projected(fn, conds)[Other(i, j, k)]
  {
    hide Projected, Symmetric, Func.Valid, Takes;
    var l := Other(i, j, k);
    var swapped := Swap(conds, i, j);
    assert Swap(swapped, i, j) == conds;
    forall v: nat ensures v in Projected(fn, swapped)[k] <==> v in Projected(fn, conds)[l] {
      ProjectedAt(fn, swapped, k, v);
      ProjectedAt(fn, conds, l, v);
      if Takes(fn, conds, l, v) { SwapTakes(fn, conds, i, j, l, v); }
      if Takes(fn, swapped, k, v) { SwapTakes(fn, swapped, i, j, k, v); }
    }
  }

  lemma SwapTakes(fn: Func, conds: seq<Cond>, i: nat, j: nat, l: nat, v: nat)
    requires fn.Valid() && Symmetric(fn) && |conds| == fn.Slots() > i && |conds| > j && Exchangeable(fn, i, j) && l < |conds|
    requires Takes(fn, conds, l, v)
    ensures Takes(fn, Swap(conds, i, j), Other(i, j, l), v)
  {
    hide Rel, Func.Valid;
    var t :| Rel(fn, t) && Allowed(conds, t) && l < |t| && t[l] == v;
    var s := Swap(t, i, j);
    assert |t| == |conds|;
    assert Rel(fn, s) && Allowed(Swap(conds, i, j), s) && s[Other(i, j, l)] == v;
  }
}
