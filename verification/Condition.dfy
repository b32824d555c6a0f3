/** Conditions on two and three bits as words, and their restriction and projection to single bits and pairs of bits
    (src/condition.cpp, src/condition.h). Bit `(second << n) | first` of the word of an n-bit condition says whether
    the pair of values is allowed. */
module Conditions {

  /** What is read from or merged into a condition: bits `BitI` or `BitsIJ` of a condition on two or three bits. */
  datatype Part = TwoBit0 | TwoBit1 | ThreeBit0 | ThreeBit1 | ThreeBit2 | ThreeBits01 | ThreeBits12

  /** Number of pairs of the whole condition. */
  function Size(part: Part): bv7 {
    if part.TwoBit0? || part.TwoBit1? then 16 else 64
  }

  /** Number of pairs of the part. */
  function Width(part: Part): bv7 {
    if part.ThreeBits01? || part.ThreeBits12? then 16 else 4
  }

  /** The word of a condition. */
  datatype Word = Word(bits: bv64)

  /** The condition allows the pair `j`. */
  predicate Has(c: Word, j: bv7)
    requires j < 64
  {
    (c.bits >> j) & 1 == 1
  }

  /** The part of the pair `j`: the same bits of both values, the second value above the first. */
  function Index(part: Part, j: bv7): bv7 {
    match part
    case TwoBit0 => (j & 1) | (((j >> 2) & 1) << 1)
    case TwoBit1 => ((j >> 1) & 1) | (((j >> 3) & 1) << 1)
    case ThreeBit0 => (j & 1) | (((j >> 3) & 1) << 1)
    case ThreeBit1 => ((j >> 1) & 1) | (((j >> 4) & 1) << 1)
    case ThreeBit2 => ((j >> 2) & 1) | (((j >> 5) & 1) << 1)
    case ThreeBits01 => (j & 3) | (((j >> 3) & 3) << 2)
    case ThreeBits12 => ((j >> 1) & 3) | (((j >> 4) & 3) << 2)
  }

  // ---- merging ----

  function Of4(k: bv7, a: bv64, b: bv64, c: bv64, d: bv64): bv64 {
    if k == 0 then a else if k == 1 then b else if k == 2 then c else d
  }

  /** Entry `k` of the table of masks: the pairs that stay when value `k` of the part is excluded. */
  function Mask(part: Part, k: bv7): bv64 {
    match part
    case TwoBit0 => Of4(k, 0xfafa, 0xf5f5, 0xafaf, 0x5f5f)
    case TwoBit1 => Of4(k, 0xffcc, 0xff33, 0xccff, 0x33ff)
    case ThreeBit0 => Of4(k, 0xffaaffaaffaaffaa, 0xff55ff55ff55ff55, 0xaaffaaffaaffaaff, 0x55ff55ff55ff55ff)
    case ThreeBit1 => Of4(k, 0xffffccccffffcccc, 0xffff3333ffff3333, 0xccccffffccccffff, 0x3333ffff3333ffff)
    case ThreeBit2 => Of4(k, 0xfffffffff0f0f0f0, 0xffffffff0f0f0f0f, 0xf0f0f0f0ffffffff, 0x0f0f0f0fffffffff)
    case ThreeBits01 =>
      if k < 4 then Of4(k, 0xffffffeeffffffee, 0xffffffddffffffdd, 0xffffffbbffffffbb, 0xffffff77ffffff77)
      else if k < 8 then Of4(k - 4, 0xffffeeffffffeeff, 0xffffddffffffddff, 0xffffbbffffffbbff, 0xffff77ffffff77ff)
      else if k < 12 then Of4(k - 8, 0xffeeffffffeeffff, 0xffddffffffddffff, 0xffbbffffffbbffff, 0xff77ffffff77ffff)
      else Of4(k - 12, 0xeeffffffeeffffff, 0xddffffffddffffff, 0xbbffffffbbffffff, 0x77ffffff77ffffff)
    case ThreeBits12 =>
      if k < 4 then Of4(k, 0xfffffffffffffcfc, 0xfffffffffffff3f3, 0xffffffffffffcfcf, 0xffffffffffff3f3f)
      else if k < 8 then Of4(k - 4, 0xfffffffffcfcffff, 0xfffffffff3f3ffff, 0xffffffffcfcfffff, 0xffffffff3f3fffff)
      else if k < 12 then Of4(k - 8, 0xfffffcfcffffffff, 0xfffff3f3ffffffff, 0xffffcfcfffffffff, 0xffff3f3fffffffff)
      else Of4(k - 12, 0xfcfcffffffffffff, 0xf3f3ffffffffffff, 0xcfcfffffffffffff, 0x3f3fffffffffffff)
  }

  function And(a: Word, b: Word): Word {
    Word(a.bits & b.bits)
  }

  function BitOr(a: bv64, b: bv64): bv64 {
    a | b
  }

  function Union(a: Word, b: Word): Word {
    Word(BitOr(a.bits, b.bits))
  }

  /** The condition that allows only the pair `j`. */
  function Only(j: bv7): Word
    requires j < 64
  {
    Word(1 << j)
  }

  const NONE := Word(0)

  /** The masks of the excluded values below `n`. */
  function MergeTo(part: Part, c: Word, d: Word, n: bv7): Word
    requires n <= 16
    decreases n
  {
    if n == 0 then c
    else
      var r := MergeTo(part, c, d, n - 1);
      if Has(d, n - 1) then r else And(r, Word(Mask(part, n - 1)))
  }

  /** The condition restricted to the pairs whose part `d` allows. */
  function Merged(part: Part, c: Word, d: Word): Word {
    MergeTo(part, c, d, Width(part))
  }

  // ---- projecting ----

  function Or(h: bv64, shift: bv7): bv64
    requires shift < 64
  {
    h | (h >> shift)
  }

  /** The values of the part that some allowed pair has. */
  function Get(part: Part, c: Word): Word {
    Word(GetBits(part, c.bits))
  }

  function GetBits(part: Part, c: bv64): bv64 {
    match part
    case TwoBit0 =>
      var help := Or(Or(c, 2), 8);
      (help & 0x3) | ((help >> 2) & 0xc)
    case TwoBit1 =>
      var help := Or(Or(((c >> 4) | c) & 0x0f0f, 4), 1);
      (1 & help) | (2 & (help >> 1)) | (4 & (help >> 2)) | (8 & (help >> 3))
    case ThreeBit0 =>
      var help := Or(Or(Or(Or(c, 2), 4), 16), 32);
      (help & 0x3) | ((help >> 6) & 0xc)
    case ThreeBit1 =>
      var h := Or(Or(Or(Or(c, 1), 4), 8), 32);
      var help := (h & 0x10001) | ((h & 0x40004) >> 1);
      (help & 0x3) | ((help >> 14) & 0xc)
    case ThreeBit2 =>
      var h := Or(Or(Or(Or(c, 1), 2), 8), 16);
      var help := (h & 0x100000001) | ((h & 0x1000000010) >> 3);
      (help & 0x3) | ((help >> 30) & 0xc)
    case ThreeBits01 =>
      var h := Or(Or(c, 4), 32);
      var help := (h & 0xf000f) | ((h & 0xf000f00) >> 4);
      (help & 0xff) | ((help & 0xff0000) >> 8)
    case ThreeBits12 =>
      var h := Or(Or(c, 1), 8);
      var i := (h & 0x1000100010001) | ((h & 0x54005400540054) >> 1);
      var k := (i & 0x3000300030003) | ((i & 0x28002800280028) >> 1);
      var l := (k & 0x7000700070007) | ((k & 0x10001000100010) >> 1);
      var help := (l & 0xf0000000f) | ((l & 0xf0000000f0000) >> 12);
      (help & 0xff) | ((help >> 24) & 0xff00)
  }

  // ---- facts about words ----

  lemma AndHas(a: Word, b: Word, j: bv7)
    requires j < 64
    ensures Has(And(a, b), j) <==> Has(a, j) && Has(b, j)
  {
  }

  lemma UnionHas(a: Word, b: Word, j: bv7)
    requires j < 64
    ensures Has(Union(a, b), j) <==> Has(a, j) || Has(b, j)
  {
  }

  lemma OnlyHas(i: bv7, j: bv7)
    requires i < 64 && j < 64
    ensures Has(Only(i), j) <==> i == j
  {
  }

  lemma NoneHas(j: bv7)
    requires j < 64
    ensures !Has(NONE, j)
  {
  }

  /** The pairs below `n`. */
  function Prefix(c: Word, n: bv7): Word
    requires n <= 64
  {
    Word(c.bits & !(0xffff_ffff_ffff_ffff << n))
  }

  lemma PrefixSplit(c: Word, n: bv7)
    requires n < 64
    ensures Prefix(c, n + 1) == Union(Prefix(c, n), And(c, Only(n)))
  {
  }

  lemma OnePair(c: Word, n: bv7)
    requires n < 64
    ensures And(c, Only(n)) == if Has(c, n) then Only(n) else NONE
  {
  }

  lemma PrefixNext(c: Word, n: bv7)
    requires n < 64
    ensures Prefix(c, n + 1) == if Has(c, n) then Union(Prefix(c, n), Only(n)) else Prefix(c, n)
  {
    hide Has, Prefix, And, Only, Union;
    PrefixSplit(c, n);
    OnePair(c, n);
    UnionNone(Prefix(c, n));
  }

  lemma UnionNone(a: Word)
    ensures Union(a, NONE) == a
  {
  }

  lemma PrefixNone(c: Word)
    ensures Prefix(c, 0) == NONE
  {
  }

  lemma PrefixAll(c: Word)
    ensures Prefix(c, 64) == c
  {
  }

  lemma PrefixHalf(c: Word)
    requires c.bits <= 0xffff
    ensures Prefix(c, 16) == c
  {
  }

  // ---- exactness, for any projection that is determined by single pairs ----

  /** The projection of a union is the union of the projections. */
  ghost predicate Additive(get: Word -> Word) {
    get(NONE) == NONE && forall c: Word, d: Word :: get(Union(c, d)) == Union(get(c), get(d))
  }

  /** The projection of one pair is its part. */
  ghost predicate Singles(get: Word -> Word, index: bv7 -> bv7, size: bv7, width: bv7) {
    && size <= 64 && width <= 16
    && forall j: bv7 :: j < size ==> index(j) < width && get(Only(j)) == Only(index(j))
  }

  /** Some allowed pair below `n` has the value `v` in the part. */
  ghost predicate Taken(index: bv7 -> bv7, c: Word, n: bv7, v: bv7)
    requires n <= 64
    decreases n
  {
    n > 0 && (Taken(index, c, n - 1, v) || (Has(c, n - 1) && index(n - 1) == v))
  }

  lemma ProjectsNext(get: Word -> Word, c: Word, before: Word, after: Word, m: bv7, i: bv7, v: bv7)
    requires Additive(get) && m < 64 && after == (if Has(c, m) then Union(before, Only(m)) else before)
    requires i < 64 && v < 64 && get(Only(m)) == Only(i)
    ensures Has(get(after), v) <==> Has(get(before), v) || (Has(c, m) && i == v)
  {
    hide Has, Union, Only;
    if Has(c, m) {
      UnionHas(get(before), Only(i), v);
      OnlyHas(i, v);
    }
  }

  lemma SingleAt(get: Word -> Word, index: bv7 -> bv7, size: bv7, width: bv7, j: bv7)
    requires Singles(get, index, size, width) && j < size
    ensures j < 64 && index(j) < width && index(j) < 64 && get(Only(j)) == Only(index(j))
  {
    hide Only;
  }

  lemma TakenNext(index: bv7 -> bv7, c: Word, m: bv7, v: bv7)
    requires m < 64
    ensures Taken(index, c, m + 1, v) <==> Taken(index, c, m, v) || (Has(c, m) && index(m) == v)
  {
    hide Has;
    assert m + 1 - 1 == m;
  }

  lemma ProjectsPrefix(get: Word -> Word, index: bv7 -> bv7, size: bv7, width: bv7, c: Word, n: bv7,
                                          v: bv7)
    requires Additive(get) && Singles(get, index, size, width) && n <= size && v < width
    ensures size <= 64 && width <= 16
    ensures Has(get(Prefix(c, n)), v) <==> Taken(index, c, n, v)
  {
    hide Has, Prefix, Taken, Singles, Additive, Union, Only;
    ProjectsNone(get, index, size, width, c, v);
    var m: bv7 := 0;
    while m < n
      invariant m <= n && (Has(get(Prefix(c, m)), v) <==> Taken(index, c, m, v))
      decreases n - m
    {
      ProjectsStep(get, index, size, width, c, m, v);
      m := m + 1;
    }
  }

  lemma ProjectsNone(get: Word -> Word, index: bv7 -> bv7, size: bv7, width: bv7, c: Word, v: bv7)
    requires Additive(get) && Singles(get, index, size, width) && v < width
    ensures size <= 64 && width <= 16 && (Has(get(Prefix(c, 0)), v) <==> Taken(index, c, 0, v))
  {
    PrefixNone(c);
    NoneHas(v);
    hide Has, Prefix;
  }

  lemma ProjectsStep(get: Word -> Word, index: bv7 -> bv7, size: bv7, width: bv7, c: Word, m: bv7, v: bv7)
    requires Additive(get) && Singles(get, index, size, width) && m < size && v < width
    requires Has(get(Prefix(c, m)), v) <==> Taken(index, c, m, v)
    ensures Has(get(Prefix(c, m + 1)), v) <==> Taken(index, c, m + 1, v)
  {
    SingleAt(get, index, size, width, m);
    PrefixNext(c, m);
    hide Has, Prefix, Taken, Singles, Union, Only;
    ProjectsNext(get, c, Prefix(c, m), Prefix(c, m + 1), m, index(m), v);
    TakenNext(index, c, m, v);
  }

  // ---- the parts ----

  lemma MaskTwoBit0(part: Part, v: bv7, j: bv7)
    requires part == TwoBit0 && j < Size(part) && v < Width(part)
    ensures Has(Word(Mask(part, v)), j) <==> Index(part, j) != v
  {
  }

  lemma SingleTwoBit0(j: bv7)
    requires j < Size(TwoBit0)
    ensures Index(TwoBit0, j) < Width(TwoBit0) && Get(TwoBit0, Only(j)) == Only(Index(TwoBit0, j))
  {
  }

  lemma OrTwoBit0(c: bv64, d: bv64)
    ensures GetBits(TwoBit0, c | d) == GetBits(TwoBit0, c) | GetBits(TwoBit0, d)
  {
  }

  lemma UnionTwoBit0(c: bv64, d: bv64)
    ensures GetBits(TwoBit0, BitOr(c, d)) == BitOr(GetBits(TwoBit0, c), GetBits(TwoBit0, d))
  {
    hide GetBits;
    OrTwoBit0(c, d);
  }

  lemma MaskTwoBit1(part: Part, v: bv7, j: bv7)
    requires part == TwoBit1 && j < Size(part) && v < Width(part)
    ensures Has(Word(Mask(part, v)), j) <==> Index(part, j) != v
  {
  }

  lemma SingleTwoBit1(j: bv7)
    requires j < Size(TwoBit1)
    ensures Index(TwoBit1, j) < Width(TwoBit1) && Get(TwoBit1, Only(j)) == Only(Index(TwoBit1, j))
  {
  }

  lemma OrTwoBit1(c: bv64, d: bv64)
    ensures GetBits(TwoBit1, c | d) == GetBits(TwoBit1, c) | GetBits(TwoBit1, d)
  {
  }

  lemma UnionTwoBit1(c: bv64, d: bv64)
    ensures GetBits(TwoBit1, BitOr(c, d)) == BitOr(GetBits(TwoBit1, c), GetBits(TwoBit1, d))
  {
    hide GetBits;
    OrTwoBit1(c, d);
  }

  lemma MaskThreeBit0(part: Part, v: bv7, j: bv7)
    requires part == ThreeBit0 && j < Size(part) && v < Width(part)
    ensures Has(Word(Mask(part, v)), j) <==> Index(part, j) != v
  {
  }

  lemma SingleThreeBit0(j: bv7)
    requires j < Size(ThreeBit0)
    ensures Index(ThreeBit0, j) < Width(ThreeBit0) && Get(ThreeBit0, Only(j)) == Only(Index(ThreeBit0, j))
  {
  }

  lemma OrThreeBit0(c: bv64, d: bv64)
    ensures GetBits(ThreeBit0, c | d) == GetBits(ThreeBit0, c) | GetBits(ThreeBit0, d)
  {
  }

  lemma UnionThreeBit0(c: bv64, d: bv64)
    ensures GetBits(ThreeBit0, BitOr(c, d)) == BitOr(GetBits(ThreeBit0, c), GetBits(ThreeBit0, d))
  {
    hide GetBits;
    OrThreeBit0(c, d);
  }

  lemma MaskThreeBit1(part: Part, v: bv7, j: bv7)
    requires part == ThreeBit1 && j < Size(part) && v < Width(part)
    ensures Has(Word(Mask(part, v)), j) <==> Index(part, j) != v
  {
  }

  lemma SingleThreeBit1(j: bv7)
    requires j < Size(ThreeBit1)
    ensures Index(ThreeBit1, j) < Width(ThreeBit1) && Get(ThreeBit1, Only(j)) == Only(Index(ThreeBit1, j))
  {
  }

  lemma OrThreeBit1(c: bv64, d: bv64)
    ensures GetBits(ThreeBit1, c | d) == GetBits(ThreeBit1, c) | GetBits(ThreeBit1, d)
  {
  }

  lemma UnionThreeBit1(c: bv64, d: bv64)
    ensures GetBits(ThreeBit1, BitOr(c, d)) == BitOr(GetBits(ThreeBit1, c), GetBits(ThreeBit1, d))
  {
    hide GetBits;
    OrThreeBit1(c, d);
  }

  lemma MaskThreeBit2(part: Part, v: bv7, j: bv7)
    requires part == ThreeBit2 && j < Size(part) && v < Width(part)
    ensures Has(Word(Mask(part, v)), j) <==> Index(part, j) != v
  {
  }

  lemma SingleThreeBit2(j: bv7)
    requires j < Size(ThreeBit2)
    ensures Index(ThreeBit2, j) < Width(ThreeBit2) && Get(ThreeBit2, Only(j)) == Only(Index(ThreeBit2, j))
  {
  }

  lemma OrThreeBit2(c: bv64, d: bv64)
    ensures GetBits(ThreeBit2, c | d) == GetBits(ThreeBit2, c) | GetBits(ThreeBit2, d)
  {
  }

  lemma UnionThreeBit2(c: bv64, d: bv64)
    ensures GetBits(ThreeBit2, BitOr(c, d)) == BitOr(GetBits(ThreeBit2, c), GetBits(ThreeBit2, d))
  {
    hide GetBits;
    OrThreeBit2(c, d);
  }

  lemma MasksBits01(v: bv7, j: bv7)
    requires j < 64 && v < 16
    ensures Has(Word(Mask(ThreeBits01, v)), j) <==> Index(ThreeBits01, j) != v
  {
  }

  lemma MaskThreeBits01(part: Part, v: bv7, j: bv7)
    requires part == ThreeBits01 && j < Size(part) && v < Width(part)
    ensures Has(Word(Mask(part, v)), j) <==> Index(part, j) != v
  {
    hide Has, Mask, Index;
    MasksBits01(v, j);
  }

  lemma SingleThreeBits01(j: bv7)
    requires j < Size(ThreeBits01)
    ensures Index(ThreeBits01, j) < Width(ThreeBits01) && Get(ThreeBits01, Only(j)) == Only(Index(ThreeBits01, j))
  {
  }

  lemma OrThreeBits01(c: bv64, d: bv64)
    ensures GetBits(ThreeBits01, c | d) == GetBits(ThreeBits01, c) | GetBits(ThreeBits01, d)
  {
  }

  lemma UnionThreeBits01(c: bv64, d: bv64)
    ensures GetBits(ThreeBits01, BitOr(c, d)) == BitOr(GetBits(ThreeBits01, c), GetBits(ThreeBits01, d))
  {
    hide GetBits;
    OrThreeBits01(c, d);
  }

  lemma MasksBits12(v: bv7, j: bv7)
    requires j < 64 && v < 16
    ensures Has(Word(Mask(ThreeBits12, v)), j) <==> Index(ThreeBits12, j) != v
  {
  }

  lemma MaskThreeBits12(part: Part, v: bv7, j: bv7)
    requires part == ThreeBits12 && j < Size(part) && v < Width(part)
    ensures Has(Word(Mask(part, v)), j) <==> Index(part, j) != v
  {
    hide Has, Mask, Index;
    MasksBits12(v, j);
  }

  lemma SingleThreeBits12(j: bv7)
    requires j < Size(ThreeBits12)
    ensures Index(ThreeBits12, j) < Width(ThreeBits12) && Get(ThreeBits12, Only(j)) == Only(Index(ThreeBits12, j))
  {
  }

  lemma OrThreeBits12(c: bv64, d: bv64)
    ensures GetBits(ThreeBits12, c | d) == GetBits(ThreeBits12, c) | GetBits(ThreeBits12, d)
  {
  }

  lemma UnionThreeBits12(c: bv64, d: bv64)
    ensures GetBits(ThreeBits12, BitOr(c, d)) == BitOr(GetBits(ThreeBits12, c), GetBits(ThreeBits12, d))
  {
    hide GetBits;
    OrThreeBits12(c, d);
  }

  /** A word with no bits at or beyond `width`. */
  predicate Below(c: Word, width: bv7)
    requires width <= 16
  {
    c.bits >> width == 0
  }

  lemma BelowTwoBit0(c: Word)
    ensures Below(Get(TwoBit0, c), Width(TwoBit0))
  {
  }

  lemma BelowTwoBit1(c: Word)
    ensures Below(Get(TwoBit1, c), Width(TwoBit1))
  {
  }

  lemma BelowThreeBit0(c: Word)
    ensures Below(Get(ThreeBit0, c), Width(ThreeBit0))
  {
  }

  lemma BelowThreeBit1(c: Word)
    ensures Below(Get(ThreeBit1, c), Width(ThreeBit1))
  {
  }

  lemma BelowThreeBit2(c: Word)
    ensures Below(Get(ThreeBit2, c), Width(ThreeBit2))
  {
  }

  lemma BelowThreeBits01(c: Word)
    ensures Below(Get(ThreeBits01, c), Width(ThreeBits01))
  {
  }

  lemma BelowThreeBits12(c: Word)
    ensures Below(Get(ThreeBits12, c), Width(ThreeBits12))
  {
  }

  /** A mask keeps a pair exactly when the part of the pair is another value. */
  lemma MaskKeeps(part: Part, v: bv7, j: bv7)
    requires j < Size(part) && v < Width(part)
    ensures Has(Word(Mask(part, v)), j) <==> Index(part, j) != v
  {
    hide Has, Mask, Index, Size, Width;
    match part
    case TwoBit0 => MaskTwoBit0(part, v, j);
    case TwoBit1 => MaskTwoBit1(part, v, j);
    case ThreeBit0 => MaskThreeBit0(part, v, j);
    case ThreeBit1 => MaskThreeBit1(part, v, j);
    case ThreeBit2 => MaskThreeBit2(part, v, j);
    case ThreeBits01 => MaskThreeBits01(part, v, j);
    case ThreeBits12 => MaskThreeBits12(part, v, j);
  }

  lemma GetSingle(part: Part, j: bv7)
    requires j < Size(part)
    ensures Index(part, j) < Width(part) && Get(part, Only(j)) == Only(Index(part, j))
  {
    hide Get, Index, Only, Size, Width;
    match part
    case TwoBit0 => SingleTwoBit0(j);
    case TwoBit1 => SingleTwoBit1(j);
    case ThreeBit0 => SingleThreeBit0(j);
    case ThreeBit1 => SingleThreeBit1(j);
    case ThreeBit2 => SingleThreeBit2(j);
    case ThreeBits01 => SingleThreeBits01(j);
    case ThreeBits12 => SingleThreeBits12(j);
  }

  lemma GetUnion(part: Part, c: Word, d: Word)
    ensures Get(part, Union(c, d)) == Union(Get(part, c), Get(part, d))
  {
    hide GetBits, BitOr;
    var x, y := c.bits, d.bits;
    match part
    case TwoBit0 => UnionTwoBit0(x, y);
    case TwoBit1 => UnionTwoBit1(x, y);
    case ThreeBit0 => UnionThreeBit0(x, y);
    case ThreeBit1 => UnionThreeBit1(x, y);
    case ThreeBit2 => UnionThreeBit2(x, y);
    case ThreeBits01 => UnionThreeBits01(x, y);
    case ThreeBits12 => UnionThreeBits12(x, y);
  }

  lemma GetNone(part: Part)
    ensures Get(part, NONE) == NONE
  {
  }

  /** A projection has no bits beyond its part, whatever the word of the condition. */
  lemma GetBelow(part: Part, c: Word)
    ensures Below(Get(part, c), Width(part))
  {
    hide Below, Get, Size;
    match part
    case TwoBit0 => BelowTwoBit0(c);
    case TwoBit1 => BelowTwoBit1(c);
    case ThreeBit0 => BelowThreeBit0(c);
    case ThreeBit1 => BelowThreeBit1(c);
    case ThreeBit2 => BelowThreeBit2(c);
    case ThreeBits01 => BelowThreeBits01(c);
    case ThreeBits12 => BelowThreeBits12(c);
  }

  lemma NothingBeyond(c: Word, width: bv7, v: bv7)
    requires width <= 16 && Below(c, width) && width <= v < 64
    ensures !Has(c, v)
  {
    if Has(c, v) { OneBeyond(c.bits, width, v); }
  }

  lemma OneBeyond(bits: bv64, width: bv7, v: bv7)
    requires width <= 16 && width <= v < 64 && (bits >> v) & 1 == 1
    ensures bits >> width != 0
  {
  }

  // ---- merging is exact ----

  lemma {:induction false} MergeToHas(part: Part, c: Word, d: Word, n: bv7, j: bv7)
    requires n <= 16 && j < 64
    ensures Has(MergeTo(part, c, d, n), j) <==>
            Has(c, j) && forall k: bv7 :: k < n ==> Has(d, k) || Has(Word(Mask(part, k)), j)
    decreases n
  {
    hide Has, Mask, And;
    if n > 0 {
      MergeToHas(part, c, d, n - 1, j);
      AndHas(MergeTo(part, c, d, n - 1), Word(Mask(part, n - 1)), j);
    }
  }

  /** Merging keeps exactly the pairs whose part is allowed. */
  lemma MergeExact(part: Part, c: Word, d: Word, j: bv7)
    requires j < Size(part)
    ensures Index(part, j) < Width(part)
    ensures Has(Merged(part, c, d), j) <==> Has(c, j) && Has(d, Index(part, j))
  {
    hide Has, Mask, And, Index, Get;
    GetSingle(part, j);
    MergeToHas(part, c, d, Width(part), j);
    forall v: bv7 | v < Width(part) ensures Has(Word(Mask(part, v)), j) <==> Index(part, j) != v {
      MaskKeeps(part, v, j);
    }
  }

  /** A word with no bits outside the condition. */
  predicate Fits(part: Part, c: Word) {
    Size(part) == 16 ==> c.bits <= 0xffff
  }

  lemma MergedFits(part: Part, c: Word, d: Word)
    requires Fits(part, c)
    ensures Fits(part, Merged(part, c, d))
  {
    hide Mask, Has, MergeTo;
    if Size(part) == 16 { MergeToSmaller(part, c, d, Width(part)); }
  }

  lemma {:induction false} MergeToSmaller(part: Part, c: Word, d: Word, n: bv7)
    requires n <= 16 && c.bits <= 0xffff
    ensures MergeTo(part, c, d, n).bits <= 0xffff
    decreases n
  {
    hide Has, Mask;
    if n > 0 {
      MergeToSmaller(part, c, d, n - 1);
      AndSmaller(MergeTo(part, c, d, n - 1), Word(Mask(part, n - 1)));
      hide And;
    }
  }

  lemma AndSmaller(a: Word, b: Word)
    requires a.bits <= 0xffff
    ensures And(a, b).bits <= 0xffff
  {
  }

  // ---- projecting is exact ----

  /** Projecting gives exactly the values that allowed pairs have. */
  lemma GetExact(part: Part, c: Word, v: bv7)
    requires Fits(part, c) && v < 64
    ensures Has(Get(part, c), v) <==> Taken((j: bv7) => Index(part, j), c, Size(part), v)
  {
    hide Has, Index, Get, Taken, Below;
    if v < Width(part) {
      GetInside(part, c, v);
    } else {
      GetBelow(part, c);
      NothingBeyond(Get(part, c), Width(part), v);
      var index := (j: bv7) => Index(part, j);
      if Taken(index, c, Size(part), v) {
        var j := TakenWitness(index, c, Size(part), v);
        GetSingle(part, j);
      }
    }
  }

  lemma GetInside(part: Part, c: Word, v: bv7)
    requires Fits(part, c) && v < Width(part)
    ensures Has(Get(part, c), v) <==> Taken((j: bv7) => Index(part, j), c, Size(part), v)
  {
    hide Has, Index, Get, Prefix, Taken, Only, Union;
    var get, index := (w: Word) => Get(part, w), (j: bv7) => Index(part, j);
    GetNone(part);
    forall x: Word, y: Word ensures get(Union(x, y)) == Union(get(x), get(y)) {
      GetUnion(part, x, y);
    }
    forall j: bv7 | j < Size(part) ensures index(j) < Width(part) && get(Only(j)) == Only(index(j)) {
      GetSingle(part, j);
    }
    ProjectsPrefix(get, index, Size(part), Width(part), c, Size(part), v);
    if Size(part) == 16 { PrefixHalf(c); } else { PrefixAll(c); }
  }

  lemma {:induction false} TakenSome(index: bv7 -> bv7, c: Word, n: bv7, j: bv7)
    requires j < n <= 64 && Has(c, j)
    ensures Taken(index, c, n, index(j))
    decreases n
  {
    hide Has;
    if j < n - 1 {
      TakenSome(index, c, n - 1, j);
    }
  }

  /** A value that is projected is the part of some allowed pair. */
  lemma {:induction false} TakenWitness(index: bv7 -> bv7, c: Word, n: bv7, v: bv7) returns (j: bv7)
    requires n <= 64 && Taken(index, c, n, v)
    ensures j < n && Has(c, j) && index(j) == v
    decreases n
  {
    hide Has;
    if Has(c, n - 1) && index(n - 1) == v {
      j := n - 1;
    } else {
      j := TakenWitness(index, c, n - 1, v);
    }
  }

  // ---- merging and projecting ----

  /** Projecting after merging gives the old projection met with what was merged. */
  lemma GetMerged(part: Part, c: Word, d: Word, v: bv7)
    requires Fits(part, c) && v < 64
    ensures Has(Get(part, Merged(part, c, d)), v) <==> Has(Get(part, c), v) && Has(d, v)
  {
    hide Has, Mask, Index, Get, MergeTo, Taken;
    var index := (j: bv7) => Index(part, j);
    MergedFits(part, c, d);
    GetExact(part, c, v);
    GetExact(part, Merged(part, c, d), v);
    TakenMerged(part, index, c, d, Size(part), v);
  }

  lemma {:induction false} TakenMerged(part: Part, index: bv7 -> bv7, c: Word, d: Word, n: bv7, v: bv7)
    requires n <= Size(part) && v < 64 && forall j: bv7 :: index(j) == Index(part, j)
    ensures Taken(index, Merged(part, c, d), n, v) <==> Taken(index, c, n, v) && Has(d, v)
    decreases n
  {
    hide Has, Mask, Index, MergeTo, Merged;
    if n > 0 {
      TakenMerged(part, index, c, d, n - 1, v);
      MergeExact(part, c, d, n - 1);
    }
  }

  /** Merging a condition's own projection changes nothing. */
  lemma MergedGet(part: Part, c: Word, j: bv7)
    requires Fits(part, c) && j < Size(part)
    ensures Has(Merged(part, c, Get(part, c)), j) <==> Has(c, j)
  {
    hide Has, Mask, Index, Get, MergeTo, Taken;
    var index := (i: bv7) => Index(part, i);
    MergeExact(part, c, Get(part, c), j);
    GetExact(part, c, Index(part, j));
    if Has(c, j) { TakenSome(index, c, Size(part), j); }
  }

  class Condition {
    var condition: Word

    constructor (c: Word)
      ensures condition == c
    {
      condition := c;
    }

    /** Excludes the pairs with a value of the part that `cond` does not allow, one value after the other. */
    method Merge(part: Part, cond: Word)
      modifies this
      ensures condition == Merged(part, old(condition), cond)
    {
      hide Mask, And, Has;
      var i: bv7 := 0;
      while i < Width(part)
        invariant i <= Width(part) <= 16 && condition == MergeTo(part, old(condition), cond, i)
        decreases Width(part) - i
      {
        if !Has(cond, i) {
          condition := And(condition, Word(Mask(part, i)));
        }
        i := i + 1;
      }
    }
  }
}
