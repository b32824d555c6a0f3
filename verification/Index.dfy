/** An odometer over all combinations of one choice for each input (src/index.h). */
module Indices {

  /** Number of combinations of the first `n` wheels. */
  function Weight(size: seq<nat>, n: nat): nat
    requires n <= |size|
  {
    if n == 0 then 1 else Weight(size, n - 1) * size[n - 1]
  }

  /** The number read off the first `n` wheels, wheel 0 turning fastest. */
  function Rank(val: seq<nat>, size: seq<nat>, n: nat): nat
    requires n <= |size| == |val|
  {
    if n == 0 then 0 else Rank(val, size, n - 1) + val[n - 1] * Weight(size, n - 1)
  }

  ghost predicate InBox(val: seq<nat>, size: seq<nat>) {
    |val| == |size| && forall j :: 0 <= j < |val| ==> val[j] < size[j]
  }

  /** Turning wheel `j` changes the number by the weight of the wheel. */
  lemma {:induction false} RankUpdate(val: seq<nat>, size: seq<nat>, n: nat, j: nat, x: nat)
    requires n <= |size| == |val| && j < |val|
    ensures Rank(val[j := x], size, n) == Rank(val, size, n) + if j < n then (x - val[j]) * Weight(size, j) else 0
  {
    if n > 0 {
      RankUpdate(val, size, n - 1, j, x);
      if j == n - 1 {
        Distributes(x, val[j], Weight(size, j));
      }
    }
  }

  lemma Distributes(x: nat, y: nat, w: nat)
    ensures x * w == y * w + (x - y) * w
  {
  }

  lemma {:induction false} RankZero(val: seq<nat>, size: seq<nat>, n: nat)
    requires n <= |size| == |val| && forall k :: 0 <= k < n ==> val[k] == 0
    ensures Rank(val, size, n) == 0
  {
    if n > 0 {
      RankZero(val, size, n - 1);
    }
  }

  lemma {:induction false} RankBound(val: seq<nat>, size: seq<nat>, n: nat)
    requires InBox(val, size) && n <= |val|
    ensures Rank(val, size, n) < Weight(size, n)
  {
    if n > 0 {
      RankBound(val, size, n - 1);
      Wheel(Rank(val, size, n - 1), val[n - 1], size[n - 1], Weight(size, n - 1));
    }
  }

  lemma Wheel(rest: nat, digit: nat, size: nat, weight: nat)
    requires rest < weight && digit < size
    ensures rest + digit * weight < weight * size
  {
    assert digit * weight + weight <= size * weight by {
      assert (digit + 1) * weight <= size * weight;
    }
  }

  /** Different combinations have different numbers. */
  lemma {:induction false} RankInjective(a: seq<nat>, b: seq<nat>, size: seq<nat>, n: nat)
    requires InBox(a, size) && InBox(b, size) && n <= |size|
    requires Rank(a, size, n) == Rank(b, size, n)
    ensures a[..n] == b[..n]
  {
    if n > 0 {
      RankBound(a, size, n - 1);
      RankBound(b, size, n - 1);
      SameDigit(Rank(a, size, n - 1), Rank(b, size, n - 1), a[n - 1], b[n - 1], Weight(size, n - 1));
      RankInjective(a, b, size, n - 1);
      assert a[..n] == a[..n - 1] + [a[n - 1]] && b[..n] == b[..n - 1] + [b[n - 1]];
    }
  }

  lemma SameDigit(r: nat, s: nat, x: nat, y: nat, w: nat)
    requires r < w && s < w && r + x * w == s + y * w
    ensures x == y && r == s
  {
    MulOrder(x, y, w);
    MulOrder(y, x, w);
  }

  lemma MulOrder(x: nat, y: nat, w: nat)
    ensures x < y ==> x * w + w <= y * w
  {
    if x < y {
      assert (x + 1) * w <= y * w;
    }
  }

  /** Carrying over from a full wheel keeps the number. */
  lemma CarryKeepsRank(val: seq<nat>, size: seq<nat>, j: nat)
    requires |val| == |size| && j + 1 < |val| && val[j] == size[j]
    ensures Rank(val[j := 0][j + 1 := val[j + 1] + 1], size, |val|) == Rank(val, size, |val|)
  {
    hide Rank;
    var w := val[j := 0];
    RankUpdate(val, size, |val|, j, 0);
    RankUpdate(w, size, |val|, j + 1, w[j + 1] + 1);
    Cancel(val[j], Weight(size, j));
    assert Weight(size, j + 1) == Weight(size, j) * val[j];
    hide Weight;
    assert Rank(w[j + 1 := w[j + 1] + 1], size, |val|) == Rank(w, size, |val|) + Weight(size, j + 1);
  }

  lemma Cancel(x: nat, w: nat)
    ensures (0 - x) * w + w * x == 0
  {
  }

  lemma FirstWheel(val: seq<nat>, size: seq<nat>)
    requires |val| == |size| > 0
    ensures Rank(val[0 := val[0] + 1], size, |val|) == Rank(val, size, |val|) + 1
  {
    RankUpdate(val, size, |val|, 0, val[0] + 1);
  }

  lemma LastWheelFull(val: seq<nat>, size: seq<nat>)
    requires |val| == |size| > 0 && val[|val| - 1] == size[|val| - 1]
    requires forall k :: 0 <= k < |val| - 1 ==> val[k] == 0
    ensures Rank(val, size, |val|) == Weight(size, |val|)
  {
    RankZero(val, size, |val| - 1);
  }

  class Index {
    const val: array<nat>
    const size: array<nat>

    constructor (n: nat)
      ensures fresh(val) && fresh(size) && val != size && val.Length == size.Length == n
      ensures val[..] == seq(n, i => 0) == size[..]
    {
      val := new nat[n](i => 0);
      size := new nat[n](i => 0);
    }

    /** Steps to the next combination: the number grows by one, and there is no next combination exactly when
        the number was the last one. */
    method Increment() returns (more: bool)
      requires val != size && val.Length == size.Length > 0 && InBox(val[..], size[..])
      modifies val
      ensures more <==> old(Rank(val[..], size[..], val.Length)) + 1 < Weight(size[..], size.Length)
      ensures more ==> InBox(val[..], size[..])
      ensures more ==> Rank(val[..], size[..], val.Length) == old(Rank(val[..], size[..], val.Length)) + 1
    {
      hide Rank, Weight;
      var n := val.Length;
      ghost var s := size[..];
      ghost var start := val[..];
      FirstWheel(start, s);
      val[0] := val[0] + 1;
      assert val[..] == start[0 := start[0] + 1];
      for j: nat := 0 to n
        invariant size[..] == s
        invariant forall k :: 0 <= k < n && k != j ==> val[k] < size[k]
        invariant j < n ==> val[j] <= size[j]
        invariant j < n && val[j] == size[j] ==> forall k :: 0 <= k < j ==> val[k] == 0
        invariant Rank(val[..], s, n) == Rank(start, s, n) + 1
      {
        if val[j] == size[j] {
          ghost var v := val[..];
          if j == n - 1 {
            LastWheelFull(v, s);
            return false;
          }
          CarryKeepsRank(v, s, j);
          val[j] := 0;
          val[j + 1] := val[j + 1] + 1;
          assert val[..] == v[j := 0][j + 1 := v[j + 1] + 1];
        }
      }
      RankBound(val[..], s, n);
      return true;
    }
  }
}
