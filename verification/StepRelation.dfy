/** What the relations of the steps say about words: the bits of a code, and chained additions in both messages
    (src/functions.h, src/bitslice_data.h, examples/sha2/sha2.cpp). */
module StepRelations {
  import opened Counting
  import opened BitsliceFunctions
  import opened BitsliceDatas
  import opened Priorities
  import opened Adders
  import opened Sha2
  import opened Functions

  // ---- one bit in both messages ----

  /** The bits of one message of a word of codes of one bit. */
  function InMessage(w: seq<nat>, second: bool): (bits: seq<nat>)
    ensures |bits| == |w| && forall i :: 0 <= i < |w| ==> bits[i] == Bit(w[i], if second then 1 else 0)
    ensures IsWord(bits)
  {
    seq(|w|, i requires 0 <= i < |w| => Bit(w[i], if second then 1 else 0))
  }

  function WordsIn(words: seq<seq<nat>>, second: bool): (r: seq<seq<nat>>)
    ensures |r| == |words| && forall k :: 0 <= k < |words| ==> r[k] == InMessage(words[k], second)
  {
    seq(|words|, k requires 0 <= k < |words| => InMessage(words[k], second))
  }

  /** A word of `n` codes of one bit. */
  ghost predicate IsCodes(w: seq<nat>, n: nat) {
    |w| == n && forall i :: 0 <= i < n ==> w[i] < 4
  }

  ghost predicate AreCodes(words: seq<seq<nat>>, n: nat) {
    forall k :: 0 <= k < |words| ==> IsCodes(words[k], n)
  }

  lemma MessageWords(words: seq<seq<nat>>, n: nat, second: bool)
    requires AreCodes(words, n)
    ensures AreWords(WordsIn(words, second), n)
  {
  }

  ghost predicate InSlots(fn: Func, t: seq<nat>)
    requires |t| <= |fn.bitsize|
  {
    forall j :: 0 <= j < |t| ==> t[j] < fn.Base(j) * fn.Base(j)
  }

  /** The relation in terms of inputs and outputs of the two messages. */
  lemma RelParts(fn: Func, t: seq<nat>, x: seq<nat>, y: seq<nat>, v: seq<nat>, w: seq<nat>)
    requires fn.Valid() && |t| == fn.Slots() == |fn.bitsize| && |x| == |v| == fn.ins
    requires Message(fn, t, false) == x + y && Message(fn, t, true) == v + w
    ensures Rel(fn, t) <==> InSlots(fn, t) && y == fn.f(x) && w == fn.f(v)
  {
    hide Message, Func.Valid;
    assert (x + y)[..fn.ins] == x && (x + y)[fn.ins..] == y;
    assert (v + w)[..fn.ins] == v && (v + w)[fn.ins..] == w;
  }

  // ---- ADD<N> ----

  /** The codes of the carries in one message; a carry slot takes `base` values. */
  function CarriesIn(c: seq<nat>, base: nat, second: bool): (k: seq<nat>)
    requires base > 0
    ensures |k| == |c| && forall i :: 0 <= i < |c| ==> k[i] == if second then c[i] / base else c[i] % base
  {
    seq(|c|, i requires 0 <= i < |c| => if second then c[i] / base else c[i] % base)
  }

  /** The codes at one bit of the step: a column of the inputs, the carry from the bit below, the sum and the carry. */
  function AddTuple(words: seq<seq<nat>>, s: seq<nat>, c: seq<nat>, i: nat): (t: seq<nat>)
    requires (forall w :: w in words ==> i < |w|) && i < |s| == |c|
    ensures |t| == |words| + 3
  {
    Column(words, i) + [CodeIn(c, i), s[i], c[i]]
  }

  lemma CodesColumn(words: seq<seq<nat>>, n: nat, i: nat)
    requires AreCodes(words, n) && i < n
    ensures forall w :: w in words ==> i < |w|
  {
  }

  /** The codes at every bit of the step are related by its function. */
  ghost predicate AddRelated(words: seq<seq<nat>>, s: seq<nat>, c: seq<nat>)
    requires 2 <= |words| <= 8 && AreCodes(words, |s|)
  {
    |c| == |s| && forall i :: 0 <= i < |s| ==> AddRelatedAt(words, s, c, i)
  }

  ghost predicate AddRelatedAt(words: seq<seq<nat>>, s: seq<nat>, c: seq<nat>, i: nat)
    requires 2 <= |words| <= 8 && AreCodes(words, |s|) && i < |s| == |c|
  {
    CodesColumn(words, |s|, i);
    AddFuncValid(|words|);
    Rel(AddFunc(|words|), AddTuple(words, s, c, i))
  }

  /** The output is the sum in one message. */
  ghost predicate SumsIn(words: seq<seq<nat>>, s: seq<nat>, second: bool) {
    Value(InMessage(s, second)) == SumValues(WordsIn(words, second)) % Pow2(|s|)
  }

  /** Number of values of a carry. */
  function CarryBase(n: nat): (b: nat)
    requires 2 <= n <= 8
    ensures b == 2 || b == 4 || b == 8
  {
    if n == 2 then 2 else if n <= 4 then 4 else 8
  }

  lemma AddBases(n: nat)
    requires 2 <= n <= 8
    ensures |AddFunc(n).bitsize| == AddFunc(n).Slots() == n + 3 && AddFunc(n).ins == n + 1 && n <= CarryBase(n)
    ensures forall k :: 0 <= k < n ==> AddFunc(n).Base(k) == 2
    ensures AddFunc(n).Base(n + 1) == 2 && AddFunc(n).Base(n) == AddFunc(n).Base(n + 2) == CarryBase(n)
  {
    CarryBits(n);
  }

  /** All codes of a bit are pairs of values of their slots. */
  ghost predicate CarriesFit(c: seq<nat>, base: nat, i: nat)
    requires i < |c|
  {
    c[i] < base * base && CodeIn(c, i) < base * base
  }

  lemma BitCode(v: nat)
    requires v < 4
    ensures Bit(v, 0) == v % 2 && Bit(v, 1) == v / 2
  {
    assert Bit(v, 1) == Bit(v / 2, 0);
  }

  lemma CarryParts(c: seq<nat>, base: nat, i: nat, second: bool)
    requires base > 0 && i < |c|
    ensures CarryIn(CarriesIn(c, base, second), i) == if second then CodeIn(c, i) / base else CodeIn(c, i) % base
  {
  }

  lemma BitDecoded(fn: Func, j: nat, v: nat)
    requires j < |fn.bitsize| && fn.Base(j) == 2 && v < 4
    ensures fn.Decode(j, v) == Pair(Bit(v, 0), Bit(v, 1))
  {
    BitCode(v);
  }

  /** One message of the codes at a bit. */
  lemma AddMessage(words: seq<seq<nat>>, s: seq<nat>, c: seq<nat>, i: nat, second: bool)
    requires 2 <= |words| <= 8 && AreCodes(words, |s|) && IsCodes(s, |s|) && i < |s| == |c|
    requires forall w :: w in words ==> i < |w|
    ensures forall w :: w in WordsIn(words, second) ==> i < |w|
    ensures |AddFunc(|words|).bitsize| == |words| + 3
    ensures var k := CarriesIn(c, CarryBase(|words|), second);
      Message(AddFunc(|words|), AddTuple(words, s, c, i), second)
        == (Column(WordsIn(words, second), i) + [CarryIn(k, i)]) + [InMessage(s, second)[i], k[i]]
  {
    var n, fn, t := |words|, AddFunc(|words|), AddTuple(words, s, c, i);
    var base := CarryBase(n);
    AddBases(n);
    CarryParts(c, base, i, second);
    var k := CarriesIn(c, base, second);
    var m := Message(fn, t, second);
    var r := (Column(WordsIn(words, second), i) + [CarryIn(k, i)]) + [InMessage(s, second)[i], k[i]];
    hide AddFunc, CarryBase, CarryIn, CodeIn;
    forall j | 0 <= j < n ensures m[j] == r[j] {
      assert IsCodes(words[j], |s|);
      BitCode(words[j][i]);
    }
    BitCode(s[i]);
    assert t[n] == CodeIn(c, i) && t[n + 1] == s[i] && t[n + 2] == c[i];
    assert |m| == |r| == n + 3 && m[n] == r[n] && m[n + 1] == r[n + 1] && m[n + 2] == r[n + 2];
  }

  /** The codes at a bit are related exactly when the slice holds in both messages. */
  lemma AddRelatedHolds(words: seq<seq<nat>>, s: seq<nat>, c: seq<nat>, i: nat)
    requires 2 <= |words| <= 8 && AreCodes(words, |s|) && IsCodes(s, |s|) && i < |s| == |c|
    ensures forall second: bool, w :: w in WordsIn(words, second) ==> i < |w|
    ensures AddRelatedAt(words, s, c, i) <==>
      && CarriesFit(c, CarryBase(|words|), i)
      && AddHolds(WordsIn(words, false), InMessage(s, false), CarriesIn(c, CarryBase(|words|), false), i)
      && AddHolds(WordsIn(words, true), InMessage(s, true), CarriesIn(c, CarryBase(|words|), true), i)
  {
    hide AddOutputs, Func.Base, Bit;
    CodesColumn(words, |s|, i);
    AddFuncValid(|words|);
    AddBases(|words|);
    AddMessage(words, s, c, i, false);
    AddMessage(words, s, c, i, true);
    AddRange(words, s, c, i);
    var p, q := WordsIn(words, false), WordsIn(words, true);
    var a, b := CarriesIn(c, CarryBase(|words|), false), CarriesIn(c, CarryBase(|words|), true);
    RelParts(AddFunc(|words|), AddTuple(words, s, c, i), Column(p, i) + [CarryIn(a, i)], [InMessage(s, false)[i], a[i]],
             Column(q, i) + [CarryIn(b, i)], [InMessage(s, true)[i], b[i]]);
    hide Message, Func.Valid, CarryBase, CarryIn, CodeIn, AddOutputs, Column, InMessage, WordsIn, CarriesIn, Rel, InSlots;
  }

  lemma AddRange(words: seq<seq<nat>>, s: seq<nat>, c: seq<nat>, i: nat)
    requires 2 <= |words| <= 8 && AreCodes(words, |s|) && IsCodes(s, |s|) && i < |s| == |c|
    requires forall w :: w in words ==> i < |w|
    ensures var fn, t := AddFunc(|words|), AddTuple(words, s, c, i);
      && |t| == fn.Slots() == |fn.bitsize|
      && (InSlots(fn, t) <==> CarriesFit(c, CarryBase(|words|), i))
  {
    var n, fn, t := |words|, AddFunc(|words|), AddTuple(words, s, c, i);
    AddBases(n);
    hide AddFunc, CarryBase, CodeIn;
    assert t[n] == CodeIn(c, i) && t[n + 1] == s[i] && t[n + 2] == c[i];
    forall j | 0 <= j < n ensures t[j] < 4 {
      assert IsCodes(words[j], |s|);
    }
  }

  lemma AddRelatedSound(words: seq<seq<nat>>, s: seq<nat>, c: seq<nat>, second: bool)
    requires 2 <= |words| <= 8 && AreCodes(words, |s|) && IsCodes(s, |s|) && AddRelated(words, s, c)
    ensures SumsIn(words, s, second)
  {
    var k := CarriesIn(c, CarryBase(|words|), second);
    MessageWords(words, |s|, second);
    hide AddRelatedAt, AddHolds, IsWord, CarryBase, AreCodes, IsCodes;
    forall i | 0 <= i < |s| ensures AddHolds(WordsIn(words, second), InMessage(s, second), k, i) {
      AddRelatedHolds(words, s, c, i);
    }
    AddSound(WordsIn(words, second), InMessage(s, second), k);
  }

  lemma CarryJoin(a: nat, b: nat, base: nat)
    requires (base == 2 || base == 4 || base == 8) && a < base && b < base
    ensures (a + b * base) % base == a && (a + b * base) / base == b && a + b * base < base * base
  {
    if base == 2 {
      assert (a + b * 2) % 2 == a && (a + b * 2) / 2 == b;
    } else if base == 4 {
      assert (a + b * 4) % 4 == a && (a + b * 4) / 4 == b;
    } else {
      assert (a + b * 8) % 8 == a && (a + b * 8) / 8 == b;
    }
  }

  /** The codes of two carry words. */
  lemma JoinedCarries(a: seq<nat>, b: seq<nat>, base: nat) returns (c: seq<nat>)
    requires (base == 2 || base == 4 || base == 8) && |a| == |b|
    requires forall i :: 0 <= i < |a| ==> a[i] < base && b[i] < base
    ensures CarriesIn(c, base, false) == a && CarriesIn(c, base, true) == b
    ensures |c| == |a| && forall i :: 0 <= i < |c| ==> CarriesFit(c, base, i)
  {
    c := seq(|a|, i requires 0 <= i < |a| => a[i] + b[i] * base);
    forall i | 0 <= i < |a| ensures c[i] % base == a[i] && c[i] / base == b[i] && c[i] < base * base {
      CarryJoin(a[i], b[i], base);
    }
  }

  lemma AddRelatedJoined(words: seq<seq<nat>>, s: seq<nat>, a: seq<nat>, b: seq<nat>, c: seq<nat>)
    requires 2 <= |words| <= 8 && AreCodes(words, |s|) && IsCodes(s, |s|) && |c| == |s|
    requires AreWords(WordsIn(words, false), |s|) && AreWords(WordsIn(words, true), |s|)
    requires AddSlices(WordsIn(words, false), InMessage(s, false), a)
    requires AddSlices(WordsIn(words, true), InMessage(s, true), b)
    requires CarriesIn(c, CarryBase(|words|), false) == a && CarriesIn(c, CarryBase(|words|), true) == b
    requires forall i :: 0 <= i < |c| ==> CarriesFit(c, CarryBase(|words|), i)
    ensures AddRelated(words, s, c)
  {
    hide AddRelatedAt, AddHolds, IsWord, AreWords, CarryBase, AreCodes, IsCodes, AddFunc, WordsIn, InMessage, CarriesFit;
    forall i | 0 <= i < |s| ensures AddRelatedAt(words, s, c, i) {
      AddRelatedHolds(words, s, c, i);
    }
  }

  lemma CarriesBelow(words: seq<seq<nat>>, s: seq<nat>, second: bool) returns (a: seq<nat>)
    requires 2 <= |words| <= 8 && AreCodes(words, |s|) && SumsIn(words, s, second)
    ensures AreWords(WordsIn(words, second), |s|) && AddSlices(WordsIn(words, second), InMessage(s, second), a)
    ensures |a| == |s| && forall i :: 0 <= i < |a| ==> a[i] < CarryBase(|words|)
  {
    MessageWords(words, |s|, second);
    AddBases(|words|);
    hide AddHolds, IsWord, AreWords, CarryBase, AreCodes, SliceHolds, ColumnSums, AddFunc, WordsIn, InMessage;
    a := AddComplete(WordsIn(words, second), InMessage(s, second));
    AddCarries(WordsIn(words, second), InMessage(s, second), a, |s|);
  }

  lemma AddRelatedComplete(words: seq<seq<nat>>, s: seq<nat>) returns (c: seq<nat>)
    requires 2 <= |words| <= 8 && AreCodes(words, |s|) && IsCodes(s, |s|)
    requires SumsIn(words, s, false) && SumsIn(words, s, true)
    ensures AddRelated(words, s, c)
  {
    hide AddRelated, AddSlices, AreWords, AreCodes, IsCodes, CarryBase, SumsIn, CarriesFit, CarriesIn;
    var a := CarriesBelow(words, s, false);
    var b := CarriesBelow(words, s, true);
    c := JoinedCarries(a, b, CarryBase(|words|));
    AddRelatedJoined(words, s, a, b, c);
  }

  /** The step of an addition of N words: for some carries the codes at all bits are related exactly when in both messages
      the output is the sum of the inputs modulo 2^n. */
  lemma AddRelation(words: seq<seq<nat>>, s: seq<nat>)
    requires 2 <= |words| <= 8 && AreCodes(words, |s|) && IsCodes(s, |s|)
    ensures (exists c :: AddRelated(words, s, c)) <==> SumsIn(words, s, false) && SumsIn(words, s, true)
  {
    hide AddRelated, SumsIn, AreCodes, IsCodes;
    forall c | AddRelated(words, s, c) ensures SumsIn(words, s, false) && SumsIn(words, s, true) {
      AddRelatedSound(words, s, c, false);
      AddRelatedSound(words, s, c, true);
    }
    if SumsIn(words, s, false) && SumsIn(words, s, true) {
      var c := AddRelatedComplete(words, s);
    }
  }

  /** The priority of the step: 4 for each word, and the number of pairs of carries. */
  lemma AddLoopSize(n: nat)
    requires 2 <= n <= 8
    ensures AddFunc(n).ins <= |AddFunc(n).bitsize| && LoopSize(AddFunc(n)) == 4 * n + CarryBase(n) * CarryBase(n)
  {
    AddBases(n);
    BitsIndex(AddFunc(n), n);
    SizeIsSquare(AddFunc(n), n);
    hide AddFunc;
  }

  lemma {:induction false} BitsIndex(fn: Func, n: nat)
    requires n <= |fn.bitsize| && forall k :: 0 <= k < n ==> fn.Base(k) == 2
    ensures CIndex(fn, n) == 4 * n
  {
    if n > 0 {
      BitsIndex(fn, n - 1);
      SizeIsSquare(fn, n - 1);
    }
  }

  // ---- SADD ----

  lemma SaddBases()
    ensures SaddFunc().Slots() == |SaddFunc().bitsize| == 7 && SaddFunc().ins == 5
    ensures forall j :: 0 <= j < 7 ==> SaddFunc().Base(j) == if j == 4 || j == 6 then 4 else 2
  {
    assert SaddFunc().bitsize == [1, 1, 1, 1, 2, 1, 2];
  }

  /** The codes at one bit: three summands, the word to subtract, the carry from the bit below, the output and the
      carry. */
  function SaddTuple(words: seq<seq<nat>>, s: seq<nat>, c: seq<nat>, i: nat): (t: seq<nat>)
    requires |words| == 4 && (forall k :: 0 <= k < 4 ==> i < |words[k]|) && i < |s| == |c|
    ensures |t| == 7
  {
    [words[0][i], words[1][i], words[2][i], words[3][i], CodeIn(c, i), s[i], c[i]]
  }

  ghost predicate SaddRelated(words: seq<seq<nat>>, s: seq<nat>, c: seq<nat>)
    requires |words| == 4 && AreCodes(words, |s|)
  {
    |c| == |s| && forall i :: 0 <= i < |s| ==> SaddRelatedAt(words, s, c, i)
  }

  ghost predicate SaddRelatedAt(words: seq<seq<nat>>, s: seq<nat>, c: seq<nat>, i: nat)
    requires |words| == 4 && AreCodes(words, |s|) && i < |s| == |c|
  {
    SaddFuncValid();
    assert forall k :: 0 <= k < 4 ==> IsCodes(words[k], |s|);
    Rel(SaddFunc(), SaddTuple(words, s, c, i))
  }

  ghost predicate SignedSumsIn(words: seq<seq<nat>>, s: seq<nat>, second: bool)
    requires |words| == 4
  {
    Value(InMessage(s, second)) == SaddValue(WordsIn(words, second)) % Pow2(|s|)
  }

  lemma FourMessages(words: seq<seq<nat>>, n: nat, second: bool)
    requires |words| == 4 && AreCodes(words, n)
    ensures FourWords(WordsIn(words, second), n)
  {
    forall k | 0 <= k < 4 ensures |WordsIn(words, second)[k]| == n && IsWord(WordsIn(words, second)[k]) {
      assert IsCodes(words[k], n);
    }
  }

  lemma CodeParts(c: seq<nat>, i: nat, second: bool)
    requires i < |c|
    ensures CodeIn(CarriesIn(c, 4, second), i) == if second then CodeIn(c, i) / 4 else CodeIn(c, i) % 4
  {
  }

  /** The inputs of a slice. */
  function SaddInputs(words: seq<seq<nat>>, k: seq<nat>, i: nat): (x: seq<nat>)
    requires |words| == 4 && (forall j :: 0 <= j < 4 ==> i < |words[j]|) && i <= |k|
    ensures |x| == 5
  {
    [words[0][i], words[1][i], words[2][i], words[3][i], CodeIn(k, i)]
  }

  lemma SevenItems(m: seq<nat>, x: seq<nat>, y: seq<nat>)
    requires |m| == 7 && |x| == 5 && |y| == 2 && m[5] == y[0] && m[6] == y[1]
    requires m[0] == x[0] && m[1] == x[1] && m[2] == x[2] && m[3] == x[3] && m[4] == x[4]
    ensures m == x + y
  {
  }

  lemma SaddMessage(words: seq<seq<nat>>, s: seq<nat>, c: seq<nat>, i: nat, second: bool)
    requires |words| == 4 && AreCodes(words, |s|) && IsCodes(s, |s|) && i < |s| == |c|
    requires forall k :: 0 <= k < 4 ==> i < |words[k]|
    ensures |SaddFunc().bitsize| == 7
    ensures forall j :: 0 <= j < 4 ==> i < |WordsIn(words, second)[j]|
    ensures var w, k := WordsIn(words, second), CarriesIn(c, 4, second);
      Message(SaddFunc(), SaddTuple(words, s, c, i), second)
        == SaddInputs(w, k, i) + [InMessage(s, second)[i], k[i]]
  {
    hide Bit, Func.Valid;
    SaddBases();
    CodeParts(c, i, second);
    var fn, t, w, k := SaddFunc(), SaddTuple(words, s, c, i), WordsIn(words, second), CarriesIn(c, 4, second);
    var m := Message(fn, t, second);
    forall j | 0 <= j < 4 ensures t[j] < 4 && m[j] == w[j][i] {
      assert IsCodes(words[j], |s|);
      BitDecoded(fn, j, t[j]);
    }
    BitDecoded(fn, 5, s[i]);
    hide SaddFunc, CodeIn, Bit, Func.Valid;
    assert t[4] == CodeIn(c, i) && t[5] == s[i] && t[6] == c[i];
    assert fn.Base(4) == 4 && fn.Base(6) == 4;
    assert m[4] == CodeIn(k, i) && m[5] == InMessage(s, second)[i] && m[6] == k[i];
    SevenItems(m, SaddInputs(w, k, i), [InMessage(s, second)[i], k[i]]);
  }

  lemma SaddRelatedHolds(words: seq<seq<nat>>, s: seq<nat>, c: seq<nat>, i: nat)
    requires |words| == 4 && AreCodes(words, |s|) && IsCodes(s, |s|) && i < |s| == |c|
    ensures forall second: bool, k :: 0 <= k < 4 ==> i < |WordsIn(words, second)[k]|
    ensures SaddRelatedAt(words, s, c, i) <==>
      && CarriesFit(c, 4, i)
      && SaddHolds(WordsIn(words, false), InMessage(s, false), CarriesIn(c, 4, false), i)
      && SaddHolds(WordsIn(words, true), InMessage(s, true), CarriesIn(c, 4, true), i)
  {
    assert forall k :: 0 <= k < 4 ==> IsCodes(words[k], |s|);
    SaddFuncValid();
    SaddMessage(words, s, c, i, false);
    SaddMessage(words, s, c, i, true);
    SaddRange(words, s, c, i);
    var p, q := WordsIn(words, false), WordsIn(words, true);
    var a, b := CarriesIn(c, 4, false), CarriesIn(c, 4, true);
    var x, y := SaddInputs(p, a, i), SaddInputs(q, b, i);
    RelParts(SaddFunc(), SaddTuple(words, s, c, i), x, [InMessage(s, false)[i], a[i]], y, [InMessage(s, true)[i], b[i]]);
    assert SaddFunc().f(x) == SaddOutputs(x) && SaddFunc().f(y) == SaddOutputs(y);
    hide Message, Func.Valid, CodeIn, SaddOutputs, InMessage, WordsIn, CarriesIn, CarriesFit, Rel, InSlots, SaddTuple, SaddFunc;
  }

  lemma SaddRange(words: seq<seq<nat>>, s: seq<nat>, c: seq<nat>, i: nat)
    requires |words| == 4 && AreCodes(words, |s|) && IsCodes(s, |s|) && i < |s| == |c|
    requires forall k :: 0 <= k < 4 ==> i < |words[k]|
    ensures SaddFunc().Slots() == |SaddFunc().bitsize| == 7 && SaddFunc().ins == 5
    ensures InSlots(SaddFunc(), SaddTuple(words, s, c, i)) <==> CarriesFit(c, 4, i)
  {
    SaddBases();
    var t := SaddTuple(words, s, c, i);
    assert forall k :: 0 <= k < 4 ==> IsCodes(words[k], |s|);
    assert t[4] == CodeIn(c, i) && t[5] == s[i] && t[6] == c[i];
    hide SaddFunc, CodeIn;
  }

  lemma SaddRelatedSound(words: seq<seq<nat>>, s: seq<nat>, c: seq<nat>, second: bool)
    requires |words| == 4 && AreCodes(words, |s|) && IsCodes(s, |s|) && SaddRelated(words, s, c)
    ensures SignedSumsIn(words, s, second)
  {
    FourMessages(words, |s|, second);
    hide SaddRelatedAt, SaddHolds, IsWord, AreCodes, IsCodes;
    forall i | 0 <= i < |s| ensures SaddHolds(WordsIn(words, second), InMessage(s, second), CarriesIn(c, 4, second), i) {
      SaddRelatedHolds(words, s, c, i);
    }
    SaddSound(WordsIn(words, second), InMessage(s, second), CarriesIn(c, 4, second));
  }

  lemma SaddRelatedJoined(words: seq<seq<nat>>, s: seq<nat>, a: seq<nat>, b: seq<nat>, c: seq<nat>)
    requires |words| == 4 && AreCodes(words, |s|) && IsCodes(s, |s|) && |c| == |s|
    requires FourWords(WordsIn(words, false), |s|) && FourWords(WordsIn(words, true), |s|)
    requires SaddSlices(WordsIn(words, false), InMessage(s, false), a)
    requires SaddSlices(WordsIn(words, true), InMessage(s, true), b)
    requires CarriesIn(c, 4, false) == a && CarriesIn(c, 4, true) == b && forall i :: 0 <= i < |c| ==> CarriesFit(c, 4, i)
    ensures SaddRelated(words, s, c)
  {
    hide SaddRelatedAt, SaddHolds, IsWord, AreCodes, IsCodes, WordsIn, InMessage, CarriesFit;
    forall i | 0 <= i < |s| ensures SaddRelatedAt(words, s, c, i) {
      SaddRelatedHolds(words, s, c, i);
    }
  }

  /** The step of a signed addition: for some carries the codes at all bits are related exactly when in both messages the
      output is x0 + x1 + x2 - x3 modulo 2^n. */
  lemma SaddRelation(words: seq<seq<nat>>, s: seq<nat>)
    requires |words| == 4 && AreCodes(words, |s|) && IsCodes(s, |s|)
    ensures (exists c :: SaddRelated(words, s, c)) <==> SignedSumsIn(words, s, false) && SignedSumsIn(words, s, true)
  {
    hide SaddRelated, AreCodes, IsCodes;
    forall c | SaddRelated(words, s, c) ensures SignedSumsIn(words, s, false) && SignedSumsIn(words, s, true) {
      SaddRelatedSound(words, s, c, false);
      SaddRelatedSound(words, s, c, true);
    }
    if SignedSumsIn(words, s, false) && SignedSumsIn(words, s, true) {
      FourMessages(words, |s|, false);
      FourMessages(words, |s|, true);
      hide FourWords, SaddSlices, IsWord;
      var a := SaddCodes(words, s, false);
      var b := SaddCodes(words, s, true);
      var c := JoinedCarries(a, b, 4);
      SaddRelatedJoined(words, s, a, b, c);
    }
  }

  lemma SaddCodes(words: seq<seq<nat>>, s: seq<nat>, second: bool) returns (a: seq<nat>)
    requires |words| == 4 && FourWords(WordsIn(words, second), |s|) && SignedSumsIn(words, s, second)
    ensures SaddSlices(WordsIn(words, second), InMessage(s, second), a)
    ensures |a| == |s| && forall i :: 0 <= i < |a| ==> a[i] < 4
  {
    hide SaddHolds, FourWords, InMessage, WordsIn;
    a := SaddComplete(WordsIn(words, second), InMessage(s, second));
    SaddSound(WordsIn(words, second), InMessage(s, second), a);
  }

  // ---- XOR<N> ----

  /** The exclusive or of bits, from left to right. */
  function ExclusiveOr(x: seq<nat>): bool {
    x != [] && ExclusiveOr(x[..|x| - 1]) != (x[|x| - 1] == 1)
  }

  lemma {:induction false} ParityExclusive(x: seq<nat>)
    requires forall k :: 0 <= k < |x| ==> x[k] < 2
    ensures Parity(x) == 1 <==> ExclusiveOr(x)
    ensures Parity(x) < 2
  {
    if x != [] {
      ParityExclusive(x[..|x| - 1]);
    }
  }

  /** The codes of an exclusive or are related exactly when in both messages the output is the exclusive or of the
      inputs. */
  lemma XorRelation(n: nat, x: seq<nat>, y: nat)
    requires 0 < n == |x| && IsCodes(x, n) && y < 4
    ensures XorFunc(n).Valid()
    ensures Rel(XorFunc(n), x + [y]) <==>
      && (Bit(y, 0) == 1 <==> ExclusiveOr(InMessage(x, false)))
      && (Bit(y, 1) == 1 <==> ExclusiveOr(InMessage(x, true)))
  {
    XorSymmetric(n);
    var p, q := InMessage(x, false), InMessage(x, true);
    ParityExclusive(p);
    ParityExclusive(q);
    XorMessage(n, x, y, false);
    XorMessage(n, x, y, true);
    RelParts(XorFunc(n), x + [y], p, [Bit(y, 0)], q, [Bit(y, 1)]);
    XorOutputs(n, p, q, y);
    hide Message, Func.Valid, ExclusiveOr, Parity, InMessage, Bit, Rel, XorFunc;
  }

  lemma XorOutputs(n: nat, p: seq<nat>, q: seq<nat>, y: nat)
    requires n > 0
    ensures [Bit(y, 0)] == XorFunc(n).f(p) <==> Bit(y, 0) == Parity(p)
    ensures [Bit(y, 1)] == XorFunc(n).f(q) <==> Bit(y, 1) == Parity(q)
  {
    hide Bit, Parity;
    assert XorFunc(n).f(p)[0] == Parity(p) && XorFunc(n).f(q)[0] == Parity(q);
    assert [Bit(y, 0)][0] == Bit(y, 0) && [Bit(y, 1)][0] == Bit(y, 1);
  }

  lemma XorMessage(n: nat, x: seq<nat>, y: nat, second: bool)
    requires 0 < n == |x| && IsCodes(x, n) && y < 4
    ensures |XorFunc(n).bitsize| == n + 1 && XorFunc(n).ins == n && InSlots(XorFunc(n), x + [y])
    ensures Message(XorFunc(n), x + [y], second) == InMessage(x, second) + [Bit(y, if second then 1 else 0)]
  {
    var fn, t := XorFunc(n), x + [y];
    assert forall j :: 0 <= j <= n ==> fn.Base(j) == 2 && t[j] < 4;
    forall j | 0 <= j < n ensures Message(fn, t, second)[j] == InMessage(x, second)[j] {
      BitCode(x[j]);
    }
    BitCode(y);
    assert Message(fn, t, second)[n] == Bit(y, if second then 1 else 0);
  }

  // ---- the bits of a code ----

  /** Splits a value of `k` bits. */
  function BitsFunc(k: nat): Func {
    Func(1, k, [k] + seq(k, j => 1), seq(k + 1, j => j),
         (x: seq<nat>) => if |x| == 1 then seq(k, (j: nat) => Bit(x[0], j)) else [])
  }

  lemma BitsFuncValid(k: nat)
    requires 1 <= k <= 3
    ensures BitsFunc(k).Valid() && BitsFunc(k).Slots() == |BitsFunc(k).bitsize| == k + 1
    ensures BitsFunc(k).bitsize[0] == k && BitsFunc(k).Base(0) == TwoTo(k)
    ensures forall j :: 1 <= j <= k ==> BitsFunc(k).Base(j) == 2
  {
    var fn := BitsFunc(k);
    hide Bit;
    assert forall j :: 0 <= j <= k ==> fn.bitsize[j] == if j == 0 then k else 1;
  }

  /** The code of a value of `k` bits in both messages: bit j of the first message is its bit j, bit j of the second
      message its bit k + j. */
  lemma BitsRelation(k: nat, w: nat, b: seq<nat>)
    requires 1 <= k <= 3 && w < TwoTo(k) * TwoTo(k) && IsCodes(b, k)
    ensures BitsFunc(k).Valid()
    ensures Rel(BitsFunc(k), [w] + b) <==> forall j :: 0 <= j < k ==> Coded(b[j], k, w, j)
  {
    BitsFuncValid(k);
    var fn, t := BitsFunc(k), [w] + b;
    var v, x, y := fn.Decode(0, w), InMessage(b, false), InMessage(b, true);
    BitsMessage(k, w, b, false);
    BitsMessage(k, w, b, true);
    RelParts(fn, t, [v.first], x, [v.second], y);
    BitsRange(k, w, b);
    SameBits(k, w, x, false);
    SameBits(k, w, y, true);
    JoinedBits(k, w, b);
    hide Message, Func.Valid, Rel, BitsFunc, InSlots, InMessage, HasBits, Coded;
  }

  ghost predicate BitOf(bit: nat, w: nat, j: nat) {
    bit == Bit(w, j)
  }

  /** The code `c` of one bit has bit j of both messages of the code `w` of `k` bits. */
  ghost predicate Coded(c: nat, k: nat, w: nat, j: nat) {
    c == Bit(w, j) + 2 * Bit(w, k + j)
  }

  /** A word has the bits of one message of the code `w`. */
  ghost predicate HasBits(x: seq<nat>, w: nat, second: bool) {
    forall j :: 0 <= j < |x| ==> BitOf(x[j], w, if second then |x| + j else j)
  }

  lemma SameBits(k: nat, w: nat, x: seq<nat>, second: bool)
    requires 1 <= k <= 3 && w < TwoTo(k) * TwoTo(k) && |x| == k
    ensures |BitsFunc(k).bitsize| > 0
    ensures var v := BitsFunc(k).Decode(0, w);
      x == BitsFunc(k).f([if second then v.second else v.first]) <==> HasBits(x, w, second)
  {
    SplitBits(k, w, second);
    hide BitsFunc, Bit;
  }

  lemma JoinedBits(k: nat, w: nat, b: seq<nat>)
    requires IsCodes(b, k)
    ensures (forall j :: 0 <= j < k ==> Coded(b[j], k, w, j)) <==>
      HasBits(InMessage(b, false), w, false) && HasBits(InMessage(b, true), w, true)
  {
    var x, y := InMessage(b, false), InMessage(b, true);
    assert |x| == |y| == |b| == k;
    forall j | 0 <= j < k ensures Coded(b[j], k, w, j) <==> BitOf(x[j], w, j) && BitOf(y[j], w, k + j) {
      JoinedBit(k, w, b, j);
    }
    hide Coded, BitOf, InMessage;
    if HasBits(x, w, false) && HasBits(y, w, true) {
      forall j | 0 <= j < k ensures Coded(b[j], k, w, j) {
        assert BitOf(x[j], w, j) && BitOf(y[j], w, k + j);
      }
    }
  }

  lemma JoinedBit(k: nat, w: nat, b: seq<nat>, j: nat)
    requires IsCodes(b, k) && j < k
    ensures Coded(b[j], k, w, j) <==> BitOf(InMessage(b, false)[j], w, j) && BitOf(InMessage(b, true)[j], w, k + j)
  {
    BitCode(b[j]);
    BitPair(InMessage(b, false)[j], InMessage(b, true)[j], Bit(w, j), Bit(w, k + j));
  }

  lemma BitPair(a: nat, b: nat, c: nat, d: nat)
    requires a < 2 && b < 2 && c < 2 && d < 2
    ensures a + 2 * b == c + 2 * d <==> a == c && b == d
  {
  }

  lemma BitsRange(k: nat, w: nat, b: seq<nat>)
    requires 1 <= k <= 3 && w < TwoTo(k) * TwoTo(k) && IsCodes(b, k)
    ensures |BitsFunc(k).bitsize| == k + 1 && InSlots(BitsFunc(k), [w] + b)
  {
    BitsFuncValid(k);
    hide BitsFunc, TwoTo;
    forall j | 0 <= j <= k ensures ([w] + b)[j] < BitsFunc(k).Base(j) * BitsFunc(k).Base(j) {
      if j > 0 {
        assert BitsFunc(k).Base(j) == 2 && b[j - 1] < 4;
      }
    }
  }

  lemma BitsMessage(k: nat, w: nat, b: seq<nat>, second: bool)
    requires 1 <= k <= 3 && w < TwoTo(k) * TwoTo(k) && IsCodes(b, k)
    ensures |BitsFunc(k).bitsize| == k + 1
    ensures var v := BitsFunc(k).Decode(0, w);
      Message(BitsFunc(k), [w] + b, second) == [if second then v.second else v.first] + InMessage(b, second)
  {
    BitsFuncValid(k);
    hide BitsFunc;
    forall j | 0 <= j < k ensures BitsFunc(k).Base(j + 1) == 2 && b[j] < 4 && Bit(b[j], 0) == b[j] % 2 && Bit(b[j], 1) == b[j] / 2 {
      BitCode(b[j]);
    }
    hide Bit;
  }

  lemma SplitBits(k: nat, w: nat, second: bool)
    requires 1 <= k <= 3 && w < TwoTo(k) * TwoTo(k)
    ensures |BitsFunc(k).bitsize| > 0
    ensures var v := BitsFunc(k).Decode(0, w);
      var r := BitsFunc(k).f([if second then v.second else v.first]);
      |r| == k && forall j :: 0 <= j < k ==> r[j] == Bit(w, if second then k + j else j)
  {
    hide BitsFunc, Bit, TwoTo, Func.Base, Func.Valid, Func.Decode;
    BitsFuncValid(k);
    var v := BitsFunc(k).Decode(0, w);
    var x := if second then v.second else v.first;
    BitsOutput(k, x);
    forall j | 0 <= j < k ensures BitsFunc(k).f([x])[j] == Bit(w, if second then k + j else j) {
      CodeBits(BitsFunc(k), 0, w, j);
    }
  }

  lemma BitsOutput(k: nat, x: nat)
    ensures |BitsFunc(k).f([x])| == k && forall j :: 0 <= j < k ==> BitsFunc(k).f([x])[j] == Bit(x, j)
  {
    hide Bit;
  }
}
