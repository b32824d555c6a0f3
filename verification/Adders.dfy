/** Carry-chained slices of modular additions (src/functions.h, examples/sha2/sha2.cpp, src/condition_word.cpp). */
module Adders {
  import opened Counting

  // ---- words as numbers ----

  /** The sum of t[i] * 2^i for i below `n`. */
  function Weighted(t: seq<int>, n: nat): int
    requires n <= |t|
  {
    if n == 0 then 0 else Weighted(t, n - 1) + t[n - 1] * Pow2(n - 1)
  }

  predicate IsWord(w: seq<int>) {
    forall i :: 0 <= i < |w| ==> w[i] == 0 || w[i] == 1
  }

  function Value(w: seq<int>): int {
    Weighted(w, |w|)
  }

  lemma {:induction false} WordRange(w: seq<int>, n: nat)
    requires IsWord(w) && n <= |w|
    ensures 0 <= Weighted(w, n) < Pow2(n)
  {
    if n > 0 {
      WordRange(w, n - 1);
    }
  }

  lemma {:induction false} WordUnique(v: seq<int>, w: seq<int>, n: nat)
    requires IsWord(v) && IsWord(w) && n <= |v| == |w| && Weighted(v, n) == Weighted(w, n)
    ensures v[..n] == w[..n]
  {
    if n > 0 {
      WordRange(v, n - 1);
      WordRange(w, n - 1);
      WordUnique(v, w, n - 1);
      assert v[..n] == v[..n - 1] + [v[n - 1]] && w[..n] == w[..n - 1] + [w[n - 1]];
    }
  }

  // ---- carry chains ----

  /** In every slice the column sum and the incoming carry are the output bit and twice the outgoing carry; the
      first slice has no incoming carry. */
  ghost predicate Chained(t: seq<int>, s: seq<int>, k: seq<int>) {
    |t| == |s| == |k| && forall i :: 0 <= i < |t| ==> SliceHolds(t, s, k, i)
  }

  predicate SliceHolds(t: seq<int>, s: seq<int>, k: seq<int>, i: nat)
    requires i < |t| == |s| == |k|
  {
    t[i] + CarryIn(k, i) == 2 * k[i] + s[i]
  }

  /** The carry word shifted by one, with a constant zero in the first slice. */
  function CarryIn(k: seq<int>, i: nat): int
    requires i <= |k|
  {
    if i == 0 then 0 else k[i - 1]
  }

  /** The sum of the columns is the output word and the last carry. */
  lemma {:induction false} ChainSum(t: seq<int>, s: seq<int>, k: seq<int>, n: nat)
    requires Chained(t, s, k) && n <= |t|
    ensures Weighted(t, n) == Weighted(s, n) + CarryIn(k, n) * Pow2(n)
  {
    if n > 0 {
      ChainSum(t, s, k, n - 1);
      assert SliceHolds(t, s, k, n - 1);
      Distribute(t[n - 1], CarryIn(k, n - 1), k[n - 1], s[n - 1], Pow2(n - 1));
    }
  }

  lemma Distribute(t: int, carry: int, k: int, s: int, w: int)
    requires t + carry == 2 * k + s
    ensures carry * w + t * w == s * w + k * (2 * w)
  {
    assert (t + carry) * w == (2 * k + s) * w;
  }

  /** The carries and the output bits of the columns. */
  function RunCarry(t: seq<int>, i: nat): int
    requires i < |t|
  {
    (t[i] + if i == 0 then 0 else RunCarry(t, i - 1)) / 2
  }

  function Carries(t: seq<int>): (k: seq<int>)
    ensures |k| == |t| && forall i :: 0 <= i < |t| ==> k[i] == RunCarry(t, i)
  {
    seq(|t|, i requires 0 <= i < |t| => RunCarry(t, i))
  }

  function Outputs(t: seq<int>): (s: seq<int>)
    ensures |s| == |t| && IsWord(s)
  {
    seq(|t|, i requires 0 <= i < |t| => (t[i] + if i == 0 then 0 else RunCarry(t, i - 1)) % 2)
  }

  lemma OutputsChained(t: seq<int>)
    ensures Chained(t, Outputs(t), Carries(t))
  {
  }

  /** A word closes the chain for some carries exactly when it is the sum of the columns modulo 2^n. */
  lemma ChainModular(t: seq<int>, s: seq<int>)
    requires |s| == |t| && IsWord(s)
    ensures Value(s) == Weighted(t, |t|) % Pow2(|t|) ==> Chained(t, s, Carries(t))
    ensures forall k :: Chained(t, s, k) ==> Value(s) == Weighted(t, |t|) % Pow2(|t|)
  {
    var n := |t|;
    forall k | Chained(t, s, k) ensures Value(s) == Weighted(t, n) % Pow2(n) {
      ChainSum(t, s, k, n);
      WordRange(s, n);
      Modular(Value(s), CarryIn(k, n), Pow2(n));
    }
    if Value(s) == Weighted(t, n) % Pow2(n) {
      OutputsChained(t);
      var o := Outputs(t);
      ChainSum(t, o, Carries(t), n);
      WordRange(o, n);
      Modular(Value(o), CarryIn(Carries(t), n), Pow2(n));
      WordUnique(s, o, n);
      assert s == s[..n] && o == o[..n];
    }
  }

  lemma Modular(v: int, k: int, m: int)
    requires 0 <= v < m
    ensures (v + k * m) % m == v
  {
    var x := v + k * m;
    var d := k - x / m;
    assert d * m == k * m - (x / m) * m;
    assert d * m == x % m - v;
    NoMultiple(d, m);
  }

  lemma NoMultiple(d: int, m: int)
    requires m > 0 && -m < d * m < m
    ensures d == 0
  {
    MulBounds(d, m);
  }

  lemma MulBounds(d: int, m: int)
    requires m > 0
    ensures d > 0 ==> d * m >= m
    ensures d < 0 ==> d * m <= -m
  {
    if d < 0 {
      assert (-1 - d) * m >= 0;
    } else if d > 0 {
      assert (d - 1) * m >= 0;
    }
  }

  // ---- words added column by column ----

  function Sum(x: seq<nat>): nat {
    if x == [] then 0 else Sum(x[..|x| - 1]) + x[|x| - 1]
  }

  function Column(words: seq<seq<nat>>, i: nat): (x: seq<nat>)
    requires forall w :: w in words ==> i < |w|
    ensures |x| == |words|
  {
    seq(|words|, k requires 0 <= k < |words| => words[k][i])
  }

  ghost predicate AreWords(words: seq<seq<nat>>, n: nat) {
    forall w :: w in words ==> |w| == n && IsWord(w)
  }

  function ColumnSums(words: seq<seq<nat>>, n: nat): (t: seq<int>)
    requires forall w :: w in words ==> |w| == n
    ensures |t| == n && forall i :: 0 <= i < n ==> t[i] == Sum(Column(words, i))
  {
    seq(n, i requires 0 <= i < n => Sum(Column(words, i)))
  }

  function SumValues(words: seq<seq<nat>>): int {
    if words == [] then 0 else SumValues(words[..|words| - 1]) + Value(words[|words| - 1])
  }

  lemma {:induction false} WeightedAdd(a: seq<int>, b: seq<int>, c: seq<int>, n: nat)
    requires |a| == |b| == |c| && n <= |a| && forall i :: 0 <= i < |a| ==> c[i] == a[i] + b[i]
    ensures Weighted(c, n) == Weighted(a, n) + Weighted(b, n)
  {
    if n > 0 {
      WeightedAdd(a, b, c, n - 1);
      assert c[n - 1] * Pow2(n - 1) == a[n - 1] * Pow2(n - 1) + b[n - 1] * Pow2(n - 1);
    }
  }

  lemma {:induction false} WeightedZero(a: seq<int>, n: nat)
    requires n <= |a| && forall i :: 0 <= i < |a| ==> a[i] == 0
    ensures Weighted(a, n) == 0
  {
    if n > 0 {
      WeightedZero(a, n - 1);
    }
  }

  lemma SumFront(x: seq<nat>)
    requires x != []
    ensures Sum(x) == Sum(x[..|x| - 1]) + x[|x| - 1]
  {
  }

  lemma ColumnsLast(words: seq<seq<nat>>, n: nat)
    requires words != [] && forall w :: w in words ==> |w| == n
    ensures words[|words| - 1] in words && (forall w :: w in words[..|words| - 1] ==> w in words)
    ensures forall i :: 0 <= i < n ==>
      ColumnSums(words, n)[i] == ColumnSums(words[..|words| - 1], n)[i] + words[|words| - 1][i]
  {
    hide Sum;
    var m := |words| - 1;
    forall i | 0 <= i < n ensures Sum(Column(words, i)) == Sum(Column(words[..m], i)) + words[m][i] {
      assert Column(words, i)[..m] == Column(words[..m], i);
      SumFront(Column(words, i));
    }
  }

  /** Summing columns first or words first is the same. */
  lemma {:induction false} ColumnsWords(words: seq<seq<nat>>, n: nat)
    requires forall w :: w in words ==> |w| == n
    ensures Weighted(ColumnSums(words, n), n) == SumValues(words)
  {
    if words == [] {
      assert forall i :: 0 <= i < n ==> Column(words, i) == [];
      WeightedZero(ColumnSums(words, n), n);
    } else {
      hide Weighted, Sum;
      var m := |words| - 1;
      var rest, last := words[..m], words[m];
      assert last in words && forall w :: w in rest ==> w in words;
      ColumnsWords(rest, n);
      ColumnsLast(words, n);
      hide ColumnSums;
      WeightedAdd(ColumnSums(rest, n), last, ColumnSums(words, n), n);
    }
  }

  lemma {:induction false} SumBound(x: seq<nat>)
    requires forall k :: 0 <= k < |x| ==> x[k] <= 1
    ensures Sum(x) <= |x|
  {
    if x != [] {
      SumBound(x[..|x| - 1]);
    }
  }

  // ---- ADD<N> ----

  /** Adding bytes from left to right. */
  function Accumulate(x: seq<nat>): nat {
    if x == [] then 0 else (Accumulate(x[..|x| - 1]) + x[|x| - 1]) % 256
  }

  lemma {:induction false} AccumulateSum(x: seq<nat>)
    ensures Accumulate(x) == Sum(x) % 256
  {
    if x != [] {
      var rest, last := x[..|x| - 1], x[|x| - 1];
      AccumulateSum(rest);
      ModAdds(Sum(rest), last);
    }
  }

  lemma ModAdds(a: nat, b: nat)
    ensures (a % 256 + b) % 256 == (a + b) % 256
  {
    assert a == a / 256 * 256 + a % 256;
  }

  /** The output bit and the outgoing carry of the bits and the incoming carry. */
  function AddOutputs(x: seq<nat>): (y: seq<nat>)
    ensures |y| == 2
  {
    [Accumulate(x) % 2, Accumulate(x) / 2]
  }

  method Add(x: seq<nat>, y: array<nat>)
    requires |x| > 0 && y.Length == 2 && x[0] < 256
    modifies y
    ensures y[..] == AddOutputs(x)
  {
    y[0] := x[0];
    assert x[..1] == [x[0]];
    assert Accumulate(x[..1]) == Accumulate([]) + x[0] by { assert x[..1][..0] == []; }
    for i: nat := 1 to |x|
      invariant y[0] == Accumulate(x[..i])
    {
      assert x[..i + 1][..i] == x[..i];
      y[0] := (y[0] + x[i]) % 256;
    }
    assert x[..|x|] == x;
    y[1] := y[0] / 2;
    y[0] := y[0] % 2;
  }

  /** All slices of an addition hold. */
  ghost predicate AddSlices(words: seq<seq<nat>>, s: seq<nat>, c: seq<nat>)
    requires AreWords(words, |s|)
  {
    |c| == |s| && forall i :: 0 <= i < |s| ==> AddHolds(words, s, c, i)
  }

  predicate AddHolds(words: seq<seq<nat>>, s: seq<nat>, c: seq<int>, i: nat)
    requires (forall w :: w in words ==> i < |w|) && i < |s| == |c| && CarryIn(c, i) >= 0
  {
    AddOutputs(Column(words, i) + [CarryIn(c, i)]) == [s[i], c[i]]
  }

  lemma SliceOutputs(x: seq<nat>, carry: nat)
    ensures AddOutputs(x + [carry]) == [(Sum(x) + carry) % 256 % 2, (Sum(x) + carry) % 256 / 2]
  {
    assert (x + [carry])[..|x|] == x;
    SumFront(x + [carry]);
    AccumulateSum(x + [carry]);
  }

  /** While carries stay below the number of summands the bytes do not wrap. */
  lemma AddSlice(words: seq<seq<nat>>, n: nat, i: nat, carry: nat)
    requires AreWords(words, n) && i < n && 2 <= |words| <= 128 && carry < |words|
    ensures var t := Sum(Column(words, i)) + carry;
            AddOutputs(Column(words, i) + [carry]) == [t % 2, t / 2] && t / 2 < |words|
  {
    var x := Column(words, i);
    ColumnBits(words, n, i);
    hide AreWords, IsWord, Column;
    SumBound(x);
    SliceOutputs(x, carry);
    hide Sum, AddOutputs, Accumulate;
    assert Sum(x) + carry < 2 * |words| <= 256;
  }

  lemma ColumnBits(words: seq<seq<nat>>, n: nat, i: nat)
    requires AreWords(words, n) && i < n
    ensures forall k :: 0 <= k < |words| ==> Column(words, i)[k] <= 1
  {
    forall k | 0 <= k < |words| ensures Column(words, i)[k] <= 1 {
      assert words[k] in words;
    }
  }

  /** One slice, with an incoming carry below the number of words. */
  lemma AddHoldsAt(words: seq<seq<nat>>, s: seq<nat>, c: seq<int>, i: nat)
    requires AreWords(words, |s|) && 2 <= |words| <= 128 && IsWord(s) && i < |s| == |c| && 0 <= CarryIn(c, i) < |words|
    ensures AddHolds(words, s, c, i) <==> SliceHolds(ColumnSums(words, |s|), s, c, i)
    ensures AddHolds(words, s, c, i) ==> 0 <= c[i] < |words|
  {
    AddSlice(words, |s|, i, CarryIn(c, i));
  }

  lemma NextCarry(c: seq<int>, i: nat, bound: int)
    requires i <= |c| && 0 < bound && (i > 0 ==> 0 <= c[i - 1] < bound)
    ensures 0 <= CarryIn(c, i) < bound
  {
  }

  /** Every carry of an addition of N words is at most N - 1, and the slices form a carry chain. */
  lemma {:induction false} AddCarries(words: seq<seq<nat>>, s: seq<nat>, c: seq<nat>, n: nat)
    requires AreWords(words, |s|) && 2 <= |words| <= 128 && IsWord(s) && AddSlices(words, s, c) && n <= |s|
    ensures forall i :: 0 <= i < n ==> c[i] < |words|
    ensures forall i :: 0 <= i < n ==> SliceHolds(ColumnSums(words, |s|), s, c, i)
  {
    hide CarryIn, AddHolds, SliceHolds, AreWords, IsWord;
    if n > 0 {
      AddCarries(words, s, c, n - 1);
      NextCarry(c, n - 1, |words|);
      AddHoldsAt(words, s, c, n - 1);
    }
  }

  lemma {:induction false} ChainedAdds(words: seq<seq<nat>>, s: seq<nat>, k: seq<int>, n: nat)
    requires AreWords(words, |s|) && 2 <= |words| <= 128 && IsWord(s) && n <= |s|
    requires Chained(ColumnSums(words, |s|), s, k)
    ensures forall i :: 0 <= i < n ==> 0 <= k[i] < |words|
    ensures forall i :: 0 <= i < n ==> CarryIn(k, i) >= 0 && AddHolds(words, s, k, i)
  {
    hide CarryIn, AddHolds, SliceHolds, IsWord;
    if n > 0 {
      ChainedAdds(words, s, k, n - 1);
      NextCarry(k, n - 1, |words|);
      SliceCarry(words, s, k, n - 1);
    }
  }

  lemma SliceCarry(words: seq<seq<nat>>, s: seq<nat>, k: seq<int>, i: nat)
    requires AreWords(words, |s|) && 2 <= |words| <= 128 && IsWord(s) && i < |s| == |k| && 0 <= CarryIn(k, i) < |words|
    requires SliceHolds(ColumnSums(words, |s|), s, k, i)
    ensures AddHolds(words, s, k, i) && 0 <= k[i] < |words|
  {
    AddSlice(words, |s|, i, CarryIn(k, i));
  }

  lemma AddSound(words: seq<seq<nat>>, s: seq<nat>, c: seq<nat>)
    requires AreWords(words, |s|) && 2 <= |words| <= 128 && IsWord(s) && AddSlices(words, s, c)
    ensures Value(s) == SumValues(words) % Pow2(|s|)
  {
    ColumnsWords(words, |s|);
    hide CarryIn, AddHolds, SliceHolds, IsWord, Weighted, AreWords;
    AddCarries(words, s, c, |s|);
    ChainModular(ColumnSums(words, |s|), s);
    assert Chained(ColumnSums(words, |s|), s, c);
  }

  lemma AddComplete(words: seq<seq<nat>>, s: seq<nat>) returns (c: seq<nat>)
    requires AreWords(words, |s|) && 2 <= |words| <= 128 && IsWord(s)
    requires Value(s) == SumValues(words) % Pow2(|s|)
    ensures AddSlices(words, s, c)
  {
    var t := ColumnSums(words, |s|);
    ColumnsWords(words, |s|);
    hide CarryIn, AddHolds, SliceHolds, IsWord, Weighted, AreWords;
    ChainModular(t, s);
    ChainedAdds(words, s, Carries(t), |s|);
    c := Carries(t);
  }

  /** The chained slices of N words hold for some carry word exactly when the output word is the sum modulo 2^n. */
  lemma AddWords(words: seq<seq<nat>>, s: seq<nat>)
    requires AreWords(words, |s|) && 2 <= |words| <= 128 && IsWord(s)
    ensures (exists c :: AddSlices(words, s, c)) <==> Value(s) == SumValues(words) % Pow2(|s|)
  {
    hide AddSlices, IsWord, Weighted, AreWords;
    forall c | AddSlices(words, s, c) ensures Value(s) == SumValues(words) % Pow2(|s|) {
      AddSound(words, s, c);
    }
    if Value(s) == SumValues(words) % Pow2(|s|) {
      var c := AddComplete(words, s);
    }
  }

  function Log2(x: nat): nat {
    if x < 2 then 0 else 1 + Log2(x / 2)
  }

  lemma {:induction false} Log2Bound(x: nat)
    ensures x < Pow2(Log2(x) + 1)
  {
    if x >= 2 {
      Log2Bound(x / 2);
    }
  }

  /** Every carry fits the carry word. */
  lemma AddCarryFits(words: seq<seq<nat>>, s: seq<nat>, c: seq<nat>, i: nat)
    requires AreWords(words, |s|) && 2 <= |words| <= 128 && IsWord(s) && AddSlices(words, s, c) && i < |s|
    ensures c[i] <= |words| - 1 && c[i] < Pow2(Log2(|words| - 1) + 1)
  {
    hide CarryIn, AddHolds, SliceHolds, AreWords, IsWord;
    AddCarries(words, s, c, |s|);
    Log2Bound(|words| - 1);
  }

  // ---- how many words can be added in bytes ----

  /** The chained slices of `k` words of `n` bits hold exactly for the sum. */
  ghost predicate AddsExactly(k: nat, n: nat) {
    forall words: seq<seq<nat>>, s: seq<nat> :: |words| == k && |s| == n && AreWords(words, n) && IsWord(s) ==>
      ((exists c :: AddSlices(words, s, c)) <==> Value(s) == SumValues(words) % Pow2(n))
  }

  /** The bits below `ones` are set. */
  function Low(ones: nat): (w: seq<nat>)
    ensures |w| == 16 && IsWord(w) && forall i :: 0 <= i < 16 ==> w[i] == if i < ones then 1 else 0
  {
    seq(16, i requires 0 <= i < 16 => if i < ones then 1 else 0)
  }

  /** 129 times the word 255, the other words zero. */
  function Many(k: nat): (words: seq<seq<nat>>)
    ensures |words| == k && forall j :: 0 <= j < k ==> words[j] == if j < 129 then Low(8) else Low(0)
    ensures AreWords(words, 16)
  {
    seq(k, j requires 0 <= j < k => if j < 129 then Low(8) else Low(0))
  }

  lemma {:induction false} LowValue(ones: nat, n: nat)
    requires n <= 16
    ensures Weighted(Low(ones), n) == Pow2(if ones < n then ones else n) - 1
  {
    if n > 0 {
      LowValue(ones, n - 1);
    }
  }

  lemma {:induction false} ManyColumn(k: nat, i: nat)
    requires i < 16
    ensures Sum(Column(Many(k), i)) == if i >= 8 then 0 else if k <= 129 then k else 129
  {
    if k > 0 {
      ManyColumn(k - 1, i);
      hide AreWords, IsWord, Sum;
      var x := Column(Many(k), i);
      assert x[..k - 1] == Column(Many(k - 1), i);
      SumFront(x);
    }
  }

  lemma LowWord(ones: nat)
    requires ones <= 16
    ensures Value(Low(ones)) == Pow2(ones) - 1
  {
    LowValue(ones, 16);
  }

  lemma {:induction false} ManyValue(k: nat)
    ensures SumValues(Many(k)) == 255 * if k <= 129 then k else 129
  {
    if k > 0 {
      ManyValue(k - 1);
      LowWord(8);
      LowWord(0);
      PowersOfTwo();
      assert Many(k)[..k - 1] == Many(k - 1);
      hide AreWords, IsWord, Weighted, Pow2, Low, Many;
    }
  }

  /** In slice 7 the carry 127 and 129 bits wrap around to zero. */
  function WrappedCarry(i: nat): nat {
    if i == 0 then 64 else if i == 1 then 96 else if i == 2 then 112 else if i == 3 then 120
    else if i == 4 then 124 else if i == 5 then 126 else if i == 6 then 127 else 0
  }

  function WrappedCarries(): (c: seq<nat>)
    ensures |c| == 16 && forall i :: 0 <= i < 16 ==> c[i] == WrappedCarry(i)
  {
    seq(16, i requires 0 <= i < 16 => WrappedCarry(i))
  }

  lemma WrapStep(i: nat, carry: nat)
    requires i < 16 && carry == if i == 0 then 0 else WrappedCarry(i - 1)
    ensures var t := (if i < 8 then 129 else 0) + carry;
            t % 256 % 2 == (if i < 7 then 1 else 0) && t % 256 / 2 == WrappedCarry(i)
  {
  }

  lemma WrapsAt(words: seq<seq<nat>>, s: seq<nat>, c: seq<nat>, i: nat)
    requires i < 16 == |s| == |c| && forall w :: w in words ==> i < |w|
    requires Sum(Column(words, i)) == if i < 8 then 129 else 0
    requires s[i] == (if i < 7 then 1 else 0) && c[i] == WrappedCarry(i) && (i > 0 ==> c[i - 1] == WrappedCarry(i - 1))
    ensures AddHolds(words, s, c, i)
  {
    var carry := if i == 0 then 0 else WrappedCarry(i - 1);
    SliceOutputs(Column(words, i), carry);
    WrapStep(i, carry);
    hide Column, WrappedCarry, AddOutputs, Sum;
    assert CarryIn(c, i) == carry;
  }

  /** The slices lose the carry 128, and with it bit 15 of the sum. */
  lemma ManyWraps(k: nat)
    requires k > 128
    ensures AddSlices(Many(k), Low(7), WrappedCarries())
  {
    forall i | 0 <= i < 16 ensures AddHolds(Many(k), Low(7), WrappedCarries(), i) {
      ManyColumn(k, i);
      assert forall w :: w in Many(k) ==> i < |w|;
      hide Column, Sum, Many, Low, WrappedCarry, AddHolds;
      WrapsAt(Many(k), Low(7), WrappedCarries(), i);
    }
    hide AreWords, IsWord, Many, Low, AddHolds;
  }

  lemma PowersOfTwo()
    ensures Pow2(0) == 1 && Pow2(7) == 128 && Pow2(8) == 256 && Pow2(16) == 65536
  {
    assert Pow2(4) == 16;
    Pow2Sum(4, 4);
    Pow2Sum(8, 8);
  }

  lemma ManyFails(k: nat)
    requires k > 128
    ensures !AddsExactly(k, 16)
  {
    ManyWraps(k);
    LowWord(7);
    ManyValue(k);
    PowersOfTwo();
    hide Pow2, AreWords, IsWord, Low, Weighted, SumValues, AddSlices;
    assert 255 * 129 % 65536 == 32895;
  }

  /** Bytes add up to 128 words of every size exactly, and not more words. */
  lemma AddsUpTo128(k: nat)
    requires 2 <= k
    ensures (forall n :: AddsExactly(k, n)) <==> k <= 128
  {
    if k <= 128 {
      forall n, words: seq<seq<nat>>, s: seq<nat> | |words| == k && |s| == n && AreWords(words, n) && IsWord(s)
        ensures (exists c :: AddSlices(words, s, c)) <==> Value(s) == SumValues(words) % Pow2(n)
      {
        AddWords(words, s);
      }
    } else {
      ManyFails(k);
    }
  }
}
