/** The signed-carry addition of SHA-2 and the update of the state words (examples/sha2/sha2.cpp). */
module Sha2 {
  import opened Counting
  import opened Adders

  /** A carry code as a number: code 3 stands for -1. */
  function Signed(code: int): int {
    if code == 3 then -1 else code
  }

  /** The outputs of a slice, computed in bytes. */
  function SaddOutputs(x: seq<nat>): (y: seq<nat>)
    requires |x| == 5
    ensures |y| == 2
  {
    var cin := if x[4] == 3 then 255 else x[4];
    var y := (x[0] + x[1] + x[2] + (256 - x[3] % 256) + cin) % 256;
    [y % 2, y / 2 % 4]
  }

  /** Addition of bytes; subtracting a byte adds its complement to 256. */
  function AddByte(a: nat, b: nat): nat {
    (a + b) % 256
  }

  lemma ByteSum(a: nat, b: nat)
    ensures AddByte(a % 256, b) == (a + b) % 256
  {
  }

  lemma ByteSums(a: nat, b: nat, c: nat, d: nat, e: nat)
    ensures AddByte(AddByte(AddByte(AddByte(a, b), c), d), e) == (a + b + c + d + e) % 256
  {
    assert AddByte(a, b) == (a + b) % 256;
    hide AddByte;
    ByteSum(a + b, c);
    ByteSum(a + b + c, d);
    ByteSum(a + b + c + d, e);
  }

  method Sadd(x: seq<nat>, y: array<nat>)
    requires |x| == 5 && y.Length == 2 && forall k :: 0 <= k < 5 ==> x[k] < 256
    modifies y
    ensures y[..] == SaddOutputs(x)
  {
    var cin := if x[4] == 3 then 255 else x[4];
    y[0] := AddByte(AddByte(AddByte(AddByte(x[0], x[1]), x[2]), 256 - x[3]), cin);
    ByteSums(x[0], x[1], x[2], 256 - x[3], cin);
    assert x[3] % 256 == x[3];
    ghost var sum := (x[0] + x[1] + x[2] + (256 - x[3]) + cin) % 256;
    assert SaddOutputs(x) == [sum % 2, sum / 2 % 4];
    hide AddByte, SaddOutputs;
    y[1] := y[0] / 2 % 4;
    y[0] := y[0] % 2;
  }

  /** The signed sum of the bits of a column. */
  function SaddColumn(words: seq<seq<nat>>, i: nat): int
    requires |words| == 4 && forall k :: 0 <= k < 4 ==> i < |words[k]|
  {
    var sum: int := words[0][i] + words[1][i] + words[2][i];
    sum - words[3][i]
  }

  function SaddColumns(words: seq<seq<nat>>, n: nat): (t: seq<int>)
    requires |words| == 4 && forall k :: 0 <= k < 4 ==> |words[k]| == n
    ensures |t| == n && forall i :: 0 <= i < n ==> t[i] == SaddColumn(words, i)
  {
    seq(n, i requires 0 <= i < n => SaddColumn(words, i))
  }

  ghost predicate FourWords(words: seq<seq<nat>>, n: nat) {
    |words| == 4 && forall k :: 0 <= k < 4 ==> |words[k]| == n && IsWord(words[k])
  }

  /** Carry codes. */
  ghost predicate Codes(c: seq<nat>) {
    forall i :: 0 <= i < |c| ==> c[i] < 4
  }

  function CodeIn(c: seq<nat>, i: nat): nat
    requires i <= |c|
  {
    if i == 0 then 0 else c[i - 1]
  }

  /** All slices of the signed addition hold. */
  ghost predicate SaddSlices(words: seq<seq<nat>>, s: seq<nat>, c: seq<nat>)
    requires FourWords(words, |s|)
  {
    |c| == |s| && forall i :: 0 <= i < |s| ==> SaddHolds(words, s, c, i)
  }

  predicate SaddHolds(words: seq<seq<nat>>, s: seq<nat>, c: seq<nat>, i: nat)
    requires |words| == 4 && (forall k :: 0 <= k < 4 ==> i < |words[k]|) && i < |s| == |c|
  {
    SaddOutputs([words[0][i], words[1][i], words[2][i], words[3][i], CodeIn(c, i)]) == [s[i], c[i]]
  }

  /** The code of a carry between -1 and 2. */
  function CodeOf(k: int): nat {
    k % 4
  }

  function SignedWord(c: seq<nat>): (k: seq<int>)
    ensures |k| == |c| && forall i :: 0 <= i < |c| ==> k[i] == Signed(c[i])
  {
    seq(|c|, i requires 0 <= i < |c| => Signed(c[i]))
  }

  function CodeWord(k: seq<int>): (c: seq<nat>)
    ensures |c| == |k| && forall i :: 0 <= i < |c| ==> c[i] == CodeOf(k[i])
  {
    seq(|k|, i requires 0 <= i < |k| => CodeOf(k[i]))
  }

  /** One slice: byte arithmetic on codes is exact arithmetic with carries from -1 to 2. */
  lemma SaddSlice(a: nat, b: nat, c: nat, d: nat, code: nat)
    requires a <= 1 && b <= 1 && c <= 1 && d <= 1 && code < 4
    ensures var v := a + b + c - d + Signed(code);
            && -2 <= v <= 5 && SaddOutputs([a, b, c, d, code]) == [v % 2, CodeOf(v / 2)]
            && -1 <= v / 2 <= 2 && Signed(CodeOf(v / 2)) == v / 2
  {
    var v := a + b + c - d + Signed(code);
    if v < 0 {
      assert (a + b + c + (256 - d % 256) + if code == 3 then 255 else code) % 256 == v + 256;
    } else {
      assert (a + b + c + (256 - d % 256) + if code == 3 then 255 else code) % 256 == v;
    }
  }

  lemma BitsAt(words: seq<seq<nat>>, n: nat, i: nat)
    requires FourWords(words, n) && i < n
    ensures forall k :: 0 <= k < 4 ==> words[k][i] <= 1
  {
    forall k | 0 <= k < 4 ensures words[k][i] <= 1 {
      assert IsWord(words[k]);
    }
  }

  /** One slice, for carry codes of signed carries. */
  lemma SaddHoldsAt(words: seq<seq<nat>>, s: seq<nat>, c: seq<nat>, k: seq<int>, i: nat)
    requires FourWords(words, |s|) && IsWord(s) && i < |s| == |c| == |k|
    requires CodeIn(c, i) < 4 && CarryIn(k, i) == Signed(CodeIn(c, i))
    ensures SaddHolds(words, s, c, i) ==> c[i] < 4
    ensures SaddHolds(words, s, c, i) && k[i] == Signed(c[i]) ==> SliceHolds(SaddColumns(words, |s|), s, k, i)
    ensures SliceHolds(SaddColumns(words, |s|), s, k, i) ==> -1 <= k[i] <= 2
    ensures SliceHolds(SaddColumns(words, |s|), s, k, i) && c[i] == CodeOf(k[i]) ==>
              SaddHolds(words, s, c, i) && c[i] < 4 && k[i] == Signed(c[i])
  {
    hide SaddOutputs;
    BitsAt(words, |s|, i);
    SaddSlice(words[0][i], words[1][i], words[2][i], words[3][i], CodeIn(c, i));
  }

  lemma NextCode(c: seq<nat>, k: seq<int>, i: nat)
    requires i <= |c| == |k| && (i > 0 ==> c[i - 1] < 4 && k[i - 1] == Signed(c[i - 1]))
    ensures CodeIn(c, i) < 4 && CarryIn(k, i) == Signed(CodeIn(c, i))
  {
  }

  lemma {:induction false} SaddChain(words: seq<seq<nat>>, s: seq<nat>, c: seq<nat>, n: nat)
    requires FourWords(words, |s|) && IsWord(s) && SaddSlices(words, s, c) && n <= |s|
    ensures forall i :: 0 <= i < n ==> c[i] < 4
    ensures forall i :: 0 <= i < n ==> SliceHolds(SaddColumns(words, |s|), s, SignedWord(c), i)
  {
    hide CodeIn, CarryIn, SaddHolds, SliceHolds, FourWords, IsWord, Signed;
    if n > 0 {
      SaddChain(words, s, c, n - 1);
      NextCode(c, SignedWord(c), n - 1);
      SaddHoldsAt(words, s, c, SignedWord(c), n - 1);
    }
  }

  lemma {:induction false} ChainedSadd(words: seq<seq<nat>>, s: seq<nat>, k: seq<int>, n: nat)
    requires FourWords(words, |s|) && IsWord(s) && Chained(SaddColumns(words, |s|), s, k) && n <= |s|
    ensures forall i :: 0 <= i < n ==> CodeWord(k)[i] < 4 && k[i] == Signed(CodeWord(k)[i])
    ensures forall i :: 0 <= i < n ==> SaddHolds(words, s, CodeWord(k), i)
  {
    hide CodeIn, CarryIn, SaddHolds, SliceHolds, FourWords, IsWord, Signed, CodeOf;
    if n > 0 {
      ChainedSadd(words, s, k, n - 1);
      NextCode(CodeWord(k), k, n - 1);
      SaddHoldsAt(words, s, CodeWord(k), k, n - 1);
    }
  }

  lemma {:induction false} SaddWeighted(words: seq<seq<nat>>, n: nat, m: nat)
    requires FourWords(words, n) && m <= n
    ensures Weighted(SaddColumns(words, n), m) ==
            Weighted(words[0], m) + Weighted(words[1], m) + Weighted(words[2], m) - Weighted(words[3], m)
  {
    if m > 0 {
      SaddWeighted(words, n, m - 1);
      FourTimes(words[0][m - 1], words[1][m - 1], words[2][m - 1], words[3][m - 1], Pow2(m - 1));
    }
  }

  lemma FourTimes(a: int, b: int, c: int, d: int, w: int)
    ensures (a + b + c - d) * w == a * w + b * w + c * w - d * w
  {
  }

  function SaddValue(words: seq<seq<nat>>): int
    requires |words| == 4
  {
    Value(words[0]) + Value(words[1]) + Value(words[2]) - Value(words[3])
  }

  lemma SaddSound(words: seq<seq<nat>>, s: seq<nat>, c: seq<nat>)
    requires FourWords(words, |s|) && IsWord(s) && SaddSlices(words, s, c)
    ensures Value(s) == SaddValue(words) % Pow2(|s|) && Codes(c)
  {
    hide CodeIn, CarryIn, SaddHolds, SliceHolds, IsWord, Weighted, Signed;
    SaddChain(words, s, c, |s|);
    SaddWeighted(words, |s|, |s|);
    ChainModular(SaddColumns(words, |s|), s);
    assert Chained(SaddColumns(words, |s|), s, SignedWord(c));
  }

  lemma SaddComplete(words: seq<seq<nat>>, s: seq<nat>) returns (c: seq<nat>)
    requires FourWords(words, |s|) && IsWord(s) && Value(s) == SaddValue(words) % Pow2(|s|)
    ensures SaddSlices(words, s, c)
  {
    hide CodeIn, CarryIn, SaddHolds, SliceHolds, IsWord, Weighted, Signed, CodeOf;
    var t := SaddColumns(words, |s|);
    SaddWeighted(words, |s|, |s|);
    ChainModular(t, s);
    ChainedSadd(words, s, Carries(t), |s|);
    c := CodeWord(Carries(t));
  }

  /** The chained slices hold for some carry word exactly when the output is x0 + x1 + x2 - x3 modulo 2^n. */
  lemma SaddWords(words: seq<seq<nat>>, s: seq<nat>)
    requires FourWords(words, |s|) && IsWord(s)
    ensures (exists c :: SaddSlices(words, s, c)) <==> Value(s) == SaddValue(words) % Pow2(|s|)
  {
    hide SaddSlices, IsWord, Weighted;
    forall c | SaddSlices(words, s, c) ensures Value(s) == SaddValue(words) % Pow2(|s|) {
      SaddSound(words, s, c);
    }
    if Value(s) == SaddValue(words) % Pow2(|s|) {
      var c := SaddComplete(words, s);
    }
  }

  // ---- one round ----

  lemma ModShift(x: int, y: int, m: int)
    requires m > 0
    ensures (x + y % m) % m == (x + y) % m
  {
    var z := x + y % m;
    var p, q, r := z / m, y / m, z % m;
    Divided(z, m);
    Divided(y, m);
    SumTimes(p, q, m);
    Modular(r, p + q, m);
  }

  lemma Divided(x: int, m: int)
    requires m > 0
    ensures x == x / m * m + x % m && 0 <= x % m < m
  {
  }

  lemma SumTimes(p: int, q: int, m: int)
    ensures (p + q) * m == p * m + q * m
  {
  }

  /** The two additions of a round, from one state word four rounds back, give the new state words of section 6.2.2
      of FIPS 180-4: with T1 = h + S1 + Ch + K + W and T2 = S0 + Maj, the new e is d + T1 and the new a is T1 + T2. */
  lemma RoundUpdate(s1: seq<nat>, ch: seq<nat>, w: seq<nat>, d: seq<nat>, h: seq<nat>, k: seq<nat>, e: seq<nat>,
                    ce: seq<nat>, s0: seq<nat>, maj: seq<nat>, a: seq<nat>, ca: seq<nat>)
    requires AreWords([s1, ch, w, d, h, k], |e|) && IsWord(e) && AddSlices([s1, ch, w, d, h, k], e, ce)
    requires |a| == |e| && IsWord(a) && FourWords([s0, maj, e, d], |a|) && SaddSlices([s0, maj, e, d], a, ca)
    ensures var t1 := Value(h) + Value(s1) + Value(ch) + Value(k) + Value(w);
            var t2 := Value(s0) + Value(maj);
            Value(e) == (Value(d) + t1) % Pow2(|e|) && Value(a) == (t1 + t2) % Pow2(|e|)
  {
    hide AddSlices, IsWord, Weighted, SaddSlices, AreWords, FourWords;
    var six, m := [s1, ch, w, d, h, k], Pow2(|e|);
    AddSound(six, e, ce);
    SixValues(s1, ch, w, d, h, k);
    SaddSound([s0, maj, e, d], a, ca);
    var t1 := Value(h) + Value(s1) + Value(ch) + Value(k) + Value(w);
    ModShift(Value(s0) + Value(maj) - Value(d), Value(d) + t1, m);
  }

  lemma SixValues(a: seq<nat>, b: seq<nat>, c: seq<nat>, d: seq<nat>, e: seq<nat>, f: seq<nat>)
    ensures SumValues([a, b, c, d, e, f]) == Value(a) + Value(b) + Value(c) + Value(d) + Value(e) + Value(f)
  {
    hide Value;
    assert [a] + [b] == [a, b] && [a, b] + [c] == [a, b, c] && [a, b, c] + [d] == [a, b, c, d];
    assert [a, b, c, d] + [e] == [a, b, c, d, e] && [a, b, c, d, e] + [f] == [a, b, c, d, e, f] && [] + [a] == [a];
    SumLast([a, b, c, d, e], f);
    SumLast([a, b, c, d], e);
    SumLast([a, b, c], d);
    SumLast([a, b], c);
    SumLast([a], b);
    SumLast([], a);
  }

  lemma SumLast(words: seq<seq<nat>>, w: seq<nat>)
    ensures SumValues(words + [w]) == SumValues(words) + Value(w)
  {
    assert (words + [w])[..|words|] == words;
  }
}
