/** Sets of bit positions kept as a sorted list of words with their bits (src/bitmask.cpp, src/bitmask.h). */
module Bitmasks {

  /** The bits of one word; the mask is the set of the positions of its one bits. */
  datatype WordMask = WordMask(word: nat, mask: set<nat>)

  datatype Bitpos = Bitpos(word: nat, bit: nat)

  /** Words in ascending order, none empty, no bit outside the word size. */
  ghost predicate Sorted(masks: seq<WordMask>, wordSize: nat) {
    && (forall i, j :: 0 <= i < j < |masks| ==> masks[i].word < masks[j].word)
    && (forall i :: 0 <= i < |masks| ==> masks[i].mask != {} && forall b :: b in masks[i].mask ==> b < wordSize)
  }

  /** The set that the list denotes. */
  ghost predicate Denotes(masks: seq<WordMask>, word: nat, bit: nat) {
    exists i :: 0 <= i < |masks| && masks[i].word == word && bit in masks[i].mask
  }

  /** First index whose word is not below `word`. */
  function LowerBound(masks: seq<WordMask>, word: nat): (i: nat)
    ensures i <= |masks|
    ensures forall k :: 0 <= k < i ==> masks[k].word < word
    ensures i < |masks| ==> masks[i].word >= word
  {
    if masks == [] || masks[0].word >= word then 0 else 1 + LowerBound(masks[1..], word)
  }

  /** The bits of a word in the list. */
  function WordBits(masks: seq<WordMask>, word: nat): set<nat> {
    var i := LowerBound(masks, word);
    if i < |masks| && masks[i].word == word then masks[i].mask else {}
  }

  lemma WordBitsDenote(masks: seq<WordMask>, wordSize: nat, word: nat, bit: nat)
    requires Sorted(masks, wordSize)
    ensures bit in WordBits(masks, word) <==> Denotes(masks, word, bit)
  {
    var i := LowerBound(masks, word);
    if Denotes(masks, word, bit) {
      var k :| 0 <= k < |masks| && masks[k].word == word && bit in masks[k].mask;
      assert !(k < i) && !(i < k);
    }
  }

  function Below(n: nat): (s: set<nat>)
    ensures forall k: nat :: k in s <==> k < n
  {
    if n == 0 then {} else Below(n - 1) + {n - 1}
  }

  /** The bits of the word size that are in `mask`. */
  function Clip(mask: set<nat>, wordSize: nat): (r: set<nat>)
    ensures forall b: nat :: b in r <==> b in mask && b < wordSize
  {
    mask * Below(wordSize)
  }

  // ---- updates as functions ----

  function WithBits(masks: seq<WordMask>, word: nat, bits: set<nat>): seq<WordMask> {
    var i := LowerBound(masks, word);
    if bits == {} then masks
    else if i < |masks| && masks[i].word == word then masks[i := WordMask(word, masks[i].mask + bits)]
    else masks[..i] + [WordMask(word, bits)] + masks[i..]
  }

  function WithoutBits(masks: seq<WordMask>, word: nat, bits: set<nat>): seq<WordMask> {
    var i := LowerBound(masks, word);
    if i < |masks| && masks[i].word == word then
      if masks[i].mask - bits == {} then masks[..i] + masks[i + 1..]
      else masks[i := WordMask(word, masks[i].mask - bits)]
    else masks
  }

  lemma WithBitsSorted(masks: seq<WordMask>, wordSize: nat, word: nat, bits: set<nat>)
    requires Sorted(masks, wordSize) && forall b :: b in bits ==> b < wordSize
    ensures Sorted(WithBits(masks, word, bits), wordSize)
  {
    var i := LowerBound(masks, word);
    hide LowerBound;
    if bits != {} && !(i < |masks| && masks[i].word == word) {
      var r := masks[..i] + [WordMask(word, bits)] + masks[i..];
      forall k | 0 <= k < |r| ensures r[k].mask != {} && forall b :: b in r[k].mask ==> b < wordSize {
        assert k < i ==> r[k] == masks[k];
        assert k > i ==> r[k] == masks[k - 1];
      }
      forall k, l | 0 <= k < l < |r| ensures r[k].word < r[l].word {
        assert k < i ==> r[k] == masks[k];
        assert l > i ==> r[l] == masks[l - 1];
        assert k > i ==> r[k] == masks[k - 1];
      }
    }
  }

  lemma WithBitsDenote(masks: seq<WordMask>, wordSize: nat, word: nat, bits: set<nat>, w: nat, b: nat)
    requires Sorted(masks, wordSize)
    ensures Denotes(WithBits(masks, word, bits), w, b) <==> Denotes(masks, w, b) || (w == word && b in bits)
  {
    hide Denotes;
    var i := LowerBound(masks, word);
    SplitDenotes(masks, i, w, b);
    if i < |masks| && masks[i].word == word {
      SplitDenotes(masks[i := WordMask(word, masks[i].mask + bits)], i, w, b);
      assert masks[i := WordMask(word, masks[i].mask + bits)][i + 1..] == masks[i + 1..];
    } else {
      var r := masks[..i] + [WordMask(word, bits)] + masks[i..];
      SplitDenotes(r, i, w, b);
      assert r[..i] == masks[..i] && r[i + 1..] == masks[i..];
      TailDenotes(masks, i, w, b);
    }
  }

  lemma PartsDenote(a: seq<WordMask>, c: seq<WordMask>, w: nat, b: nat)
    ensures Denotes(a + c, w, b) <==> Denotes(a, w, b) || Denotes(c, w, b)
  {
    if Denotes(a, w, b) {
      var k :| 0 <= k < |a| && a[k].word == w && b in a[k].mask;
      assert (a + c)[k].word == w;
    }
    if Denotes(c, w, b) {
      var k :| 0 <= k < |c| && c[k].word == w && b in c[k].mask;
      assert (a + c)[|a| + k].word == w;
    }
  }

  /** The list before, at and after index `i`. */
  lemma SplitDenotes(masks: seq<WordMask>, i: nat, w: nat, b: nat)
    requires i <= |masks|
    ensures i < |masks| ==> (Denotes(masks, w, b) <==>
              Denotes(masks[..i], w, b) || (masks[i].word == w && b in masks[i].mask) || Denotes(masks[i + 1..], w, b))
    ensures i == |masks| ==> masks[..i] == masks
  {
    if i < |masks| {
      assert masks == masks[..i] + ([masks[i]] + masks[i + 1..]);
      PartsDenote(masks[..i], [masks[i]] + masks[i + 1..], w, b);
      PartsDenote([masks[i]], masks[i + 1..], w, b);
      assert Denotes([masks[i]], w, b) <==> masks[i].word == w && b in masks[i].mask by {
        if masks[i].word == w && b in masks[i].mask { assert [masks[i]][0].word == w; }
      }
    }
  }

  lemma TailDenotes(masks: seq<WordMask>, i: nat, w: nat, b: nat)
    requires i <= |masks|
    ensures Denotes(masks, w, b) <==> Denotes(masks[..i], w, b) || Denotes(masks[i..], w, b)
  {
    assert masks == masks[..i] + masks[i..];
    PartsDenote(masks[..i], masks[i..], w, b);
  }

  lemma WithoutBitsSorted(masks: seq<WordMask>, wordSize: nat, word: nat, bits: set<nat>)
    requires Sorted(masks, wordSize)
    ensures Sorted(WithoutBits(masks, word, bits), wordSize)
  {
    var i := LowerBound(masks, word);
    hide LowerBound;
    if i < |masks| && masks[i].word == word && masks[i].mask - bits == {} {
      var r := masks[..i] + masks[i + 1..];
      forall k | 0 <= k < |r| ensures r[k] == masks[if k < i then k else k + 1] {
      }
    }
  }

  /** Inserting the bits of an entry changes nothing. */
  lemma WithOwnBits(masks: seq<WordMask>, wordSize: nat, i: nat)
    requires Sorted(masks, wordSize) && i < |masks|
    ensures WithBits(masks, masks[i].word, Clip(masks[i].mask, wordSize)) == masks
  {
    var k := LowerBound(masks, masks[i].word);
    hide LowerBound;
    assert k == i;
    assert Clip(masks[i].mask, wordSize) == masks[i].mask;
    assert masks[i].mask + masks[i].mask == masks[i].mask;
  }

  lemma WithoutBitsDenote(masks: seq<WordMask>, wordSize: nat, word: nat, bits: set<nat>, w: nat, b: nat)
    requires Sorted(masks, wordSize)
    ensures Denotes(WithoutBits(masks, word, bits), w, b) <==> Denotes(masks, w, b) && !(w == word && b in bits)
  {
    var i := LowerBound(masks, word);
    SplitDenotes(masks, i, w, b);
    OtherWords(masks, wordSize, i, w, b);
    hide Denotes;
    if i < |masks| && masks[i].word == word {
      assert b in masks[i].mask - bits <==> b in masks[i].mask && b !in bits;
      if masks[i].mask - bits == {} {
        PartsDenote(masks[..i], masks[i + 1..], w, b);
      } else {
        SplitDenotes(masks[i := WordMask(word, masks[i].mask - bits)], i, w, b);
        assert masks[i := WordMask(word, masks[i].mask - bits)][i + 1..] == masks[i + 1..];
      }
    } else {
      WordBitsDenote(masks, wordSize, word, b);
    }
  }

  /** The word at index `i` is at no other index. */
  lemma OtherWords(masks: seq<WordMask>, wordSize: nat, i: nat, w: nat, b: nat)
    requires Sorted(masks, wordSize)
    ensures i < |masks| && masks[i].word == w ==> !Denotes(masks[..i], w, b) && !Denotes(masks[i + 1..], w, b)
  {
  }

  // ---- positions in order ----

  /** The positions of one word below `n`, in order. */
  function WordList(m: WordMask, n: nat): (r: seq<Bitpos>) {
    if n == 0 then [] else WordList(m, n - 1) + if n - 1 in m.mask then [Bitpos(m.word, n - 1)] else []
  }

  function List(masks: seq<WordMask>): seq<Bitpos> {
    if masks == [] then [] else List(masks[..|masks| - 1]) + WordList(masks[|masks| - 1], 64)
  }

  predicate Before(p: Bitpos, q: Bitpos) {
    p.word < q.word || (p.word == q.word && p.bit < q.bit)
  }

  ghost predicate Ascending(s: seq<Bitpos>) {
    forall i, j :: 0 <= i < j < |s| ==> Before(s[i], s[j])
  }

  lemma {:induction false} WordListHas(m: WordMask, n: nat)
    ensures forall p :: p in WordList(m, n) <==> p.word == m.word && p.bit in m.mask && p.bit < n
    ensures Ascending(WordList(m, n))
  {
    if n > 0 {
      WordListHas(m, n - 1);
      var rest := WordList(m, n - 1);
      assert forall i :: 0 <= i < |rest| ==> rest[i] in rest;
    }
  }

  /** The list has exactly the positions of the set, in ascending order. */
  lemma {:induction false} ListHas(masks: seq<WordMask>, wordSize: nat)
    requires Sorted(masks, wordSize) && wordSize <= 64
    ensures forall p :: p in List(masks) <==> Denotes(masks, p.word, p.bit)
    ensures Ascending(List(masks))
  {
    if masks != [] {
      var n := |masks| - 1;
      var rest, last := masks[..n], masks[n];
      ListHas(rest, wordSize);
      WordListHas(last, 64);
      var a, b := List(rest), WordList(last, 64);
      forall p ensures p in List(masks) <==> Denotes(masks, p.word, p.bit) {
        LastDenotes(masks, p.word, p.bit);
      }
      forall i | 0 <= i < |a| ensures a[i].word < last.word {
        assert a[i] in a && Denotes(rest, a[i].word, a[i].bit);
      }
      forall i | 0 <= i < |b| ensures b[i].word == last.word {
        assert b[i] in b;
      }
    }
  }

  lemma LastDenotes(masks: seq<WordMask>, word: nat, bit: nat)
    requires masks != []
    ensures Denotes(masks, word, bit) <==>
            Denotes(masks[..|masks| - 1], word, bit) || (masks[|masks| - 1].word == word && bit in masks[|masks| - 1].mask)
  {
    var n := |masks| - 1;
    if Denotes(masks[..n], word, bit) {
      var i :| 0 <= i < n && masks[..n][i].word == word && bit in masks[..n][i].mask;
      assert masks[i].word == word;
    }
    if Denotes(masks, word, bit) {
      var i :| 0 <= i < |masks| && masks[i].word == word && bit in masks[i].mask;
      if i < n { assert masks[..n][i].word == word; }
    }
  }

  /** One entry more. */
  lemma NextDenotes(masks: seq<WordMask>, i: nat)
    requires i < |masks|
    ensures forall w: nat, b: nat :: Denotes(masks[..i + 1], w, b) <==>
              Denotes(masks[..i], w, b) || (w == masks[i].word && b in masks[i].mask)
  {
    hide Denotes;
    forall w: nat, b: nat
      ensures Denotes(masks[..i + 1], w, b) <==> Denotes(masks[..i], w, b) || (w == masks[i].word && b in masks[i].mask)
    {
      assert masks[..i + 1][..i] == masks[..i];
      LastDenotes(masks[..i + 1], w, b);
    }
  }

  lemma {:induction false} WordListSize(m: WordMask, n: nat)
    ensures |WordList(m, n)| == |m.mask * Below(n)|
  {
    SizeStep(m, n);
    hide WordList, Below;
    if n > 0 {
      WordListSize(m, n - 1);
    }
  }

  lemma SizeStep(m: WordMask, n: nat)
    ensures |WordList(m, 0)| == |m.mask * Below(0)| == 0
    ensures n > 0 ==> |WordList(m, n)| == |WordList(m, n - 1)| + if n - 1 in m.mask then 1 else 0
    ensures n > 0 ==> |m.mask * Below(n)| == |m.mask * Below(n - 1)| + if n - 1 in m.mask then 1 else 0
  {
    assert m.mask * Below(0) == {};
    if n > 0 {
      NextBelow(m.mask, n);
    }
  }

  lemma NextBelow(mask: set<nat>, n: nat)
    requires n > 0
    ensures |mask * Below(n)| == |mask * Below(n - 1)| + if n - 1 in mask then 1 else 0
  {
    var rest := mask * Below(n - 1);
    assert n - 1 !in rest;
    if n - 1 in mask {
      assert mask * Below(n) == rest + {n - 1};
    } else {
      assert mask * Below(n) == rest;
    }
  }

  /** The Hamming weight of a mask is the number of its positions. */
  lemma Weight(m: WordMask, wordSize: nat)
    requires wordSize <= 64 && forall b :: b in m.mask ==> b < wordSize
    ensures |WordList(m, 64)| == |m.mask|
  {
    WordListSize(m, 64);
    assert m.mask * Below(64) == m.mask;
  }

  class Bitmask {
    const wordSize: nat
    var masks: seq<WordMask>

    ghost predicate Valid()
      reads this
    {
      wordSize <= 64 && Sorted(masks, wordSize)
    }

    ghost predicate Contains(word: nat, bit: nat)
      reads this
    {
      Denotes(masks, word, bit)
    }

    constructor (wordSize: nat)
      requires wordSize <= 64
      ensures Valid() && masks == [] && this.wordSize == wordSize
    {
      this.wordSize := wordSize;
      masks := [];
    }

    method GetWordMask(word: nat) returns (mask: set<nat>)
      requires Valid()
      ensures forall b: nat :: b in mask <==> Contains(word, b)
      ensures forall b :: b in mask ==> b < wordSize
    {
      mask := WordBits(masks, word);
      forall b: nat ensures b in mask <==> Contains(word, b) {
        WordBitsDenote(masks, wordSize, word, b);
      }
    }

    method SetBits(word: nat, mask: set<nat>)
      requires Valid()
      modifies this
      ensures Valid()
      ensures forall w: nat, b: nat :: Contains(w, b) <==> old(Contains(w, b)) || (w == word && b in mask && b < wordSize)
      ensures masks == WithBits(old(masks), word, Clip(mask, wordSize))
    {
      hide Denotes, Sorted;
      var clipped := Clip(mask, wordSize);
      ghost var was := masks;
      masks := WithBits(masks, word, clipped);
      WithBitsSorted(was, wordSize, word, clipped);
      forall w: nat, b: nat ensures Denotes(masks, w, b) <==> Denotes(was, w, b) || (w == word && b in clipped) {
        WithBitsDenote(was, wordSize, word, clipped, w, b);
      }
    }

    method ClearBits(word: nat, mask: set<nat>)
      requires Valid()
      modifies this
      ensures Valid()
      ensures forall w: nat, b: nat :: Contains(w, b) <==> old(Contains(w, b)) && !(w == word && b in mask && b < wordSize)
    {
      hide Denotes, Sorted;
      var clipped := Clip(mask, wordSize);
      ghost var was := masks;
      masks := WithoutBits(masks, word, clipped);
      WithoutBitsSorted(was, wordSize, word, clipped);
      forall w: nat, b: nat ensures Denotes(masks, w, b) <==> Denotes(was, w, b) && !(w == word && b in clipped) {
        WithoutBitsDenote(was, wordSize, word, clipped, w, b);
      }
    }

    /** On an empty mask: all bits of the first words. */
    method SetAll(numWords: nat)
      requires Valid() && masks == [] && wordSize > 0
      modifies this
      ensures Valid()
      ensures forall w: nat, b: nat :: Contains(w, b) <==> w < numWords && b < wordSize
    {
      for i: nat := 0 to numWords
        invariant |masks| == i && forall k :: 0 <= k < i ==> masks[k] == WordMask(k, Below(wordSize))
      {
        masks := masks + [WordMask(i, Below(wordSize))];
      }
      assert 0 in Below(wordSize);
      forall w: nat, b: nat ensures Contains(w, b) <==> w < numWords && b < wordSize {
        if w < numWords { assert masks[w].word == w; }
      }
    }

    /** Intersection, also with the mask itself. */
    method And(rhs: Bitmask)
      requires Valid() && rhs.Valid() && wordSize == rhs.wordSize
      modifies this
      ensures Valid()
      ensures forall w: nat, b: nat :: Contains(w, b) <==> old(Contains(w, b)) && old(rhs.Contains(w, b))
    {
      var last := if masks == [] then 0 else masks[|masks| - 1].word;
      var rhsLast := if rhs.masks == [] then 0 else rhs.masks[|rhs.masks| - 1].word;
      var max := if last < rhsLast then rhsLast else last;
      LastWord(masks, wordSize);
      hide Denotes, Sorted;
      for i: nat := 0 to max + 1
        invariant Valid() && rhs.Valid()
        invariant forall w: nat, b: nat ::
          Contains(w, b) <==> old(Contains(w, b)) && (w < i ==> old(rhs.Contains(w, b)))
      {
        var mask := rhs.GetWordMask(i);
        assert forall b: nat :: b in mask ==> old(rhs.Contains(i, b));
        assert forall b: nat :: old(Contains(i, b)) && old(rhs.Contains(i, b)) ==> b in mask;
        BitBelow(masks, wordSize);
        ClearBits(i, Below(64) - mask);
      }
    }

    /** Union, also with the mask itself. */
    method Or(rhs: Bitmask)
      requires Valid() && rhs.Valid() && wordSize == rhs.wordSize
      modifies this
      ensures Valid()
      ensures forall w: nat, b: nat :: Contains(w, b) <==> old(Contains(w, b)) || old(rhs.Contains(w, b))
    {
      assert forall w: nat, b: nat :: !Denotes(rhs.masks[..0], w, b);
      hide Denotes, Sorted, WithBits, Clip;
      ghost var others := rhs.masks;
      var i: nat := 0;
      while i < |rhs.masks|
        invariant Valid() && i <= |others| && rhs.masks == others
        invariant forall w: nat, b: nat :: Contains(w, b) <==> old(Contains(w, b)) || Denotes(others[..i], w, b)
      {
        var m := rhs.masks[i];
        BitInside(others, wordSize, i);
        WithOwnBits(others, wordSize, i);
        SetBits(m.word, m.mask);
        NextDenotes(others, i);
        i := i + 1;
      }
      assert others[..|others|] == others;
    }

    /** All positions, each once and in ascending order. */
    method GetBitposList() returns (list: seq<Bitpos>)
      requires Valid()
      ensures list == List(masks)
      ensures Ascending(list) && forall p :: p in list <==> Contains(p.word, p.bit)
    {
      hide Denotes, Sorted, Ascending;
      list := [];
      for i: nat := 0 to |masks|
        invariant list == List(masks[..i])
      {
        ghost var before := list;
        for j: nat := 0 to 64
          invariant list == before + WordList(masks[i], j)
        {
          if j in masks[i].mask {
            list := list + [Bitpos(masks[i].word, j)];
          }
        }
        assert masks[..i + 1][..i] == masks[..i];
      }
      assert masks[..|masks|] == masks;
      ListHas(masks, wordSize);
    }

    method GetNumBitsSet() returns (hw: nat)
      requires Valid()
      ensures hw == |List(masks)|
    {
      hw := 0;
      for i: nat := 0 to |masks|
        invariant hw == |List(masks[..i])|
      {
        Weight(masks[i], wordSize);
        assert masks[..i + 1][..i] == masks[..i];
        hw := hw + |masks[i].mask|;
      }
      assert masks[..|masks|] == masks;
    }

    /** The position with the given index in the list of positions. */
    method GetBitpos(index: nat) returns (p: Bitpos)
      requires Valid() && index < |List(masks)|
      ensures p == List(masks)[index]
    {
      hide Sorted, Denotes, Ascending;
      var tmp: nat := 0;
      p := Bitpos(0, 0);
      assert masks[..|masks|] == masks;
      for i: nat := 0 to |masks|
        invariant tmp == |List(masks[..i])| <= index
      {
        ghost var start := tmp;
        BitInside(masks, wordSize, i);
        Weight(masks[i], wordSize);
        assert masks[..i + 1][..i] == masks[..i];
        ListPrefix(masks, i + 1);
        tmp := tmp + |masks[i].mask|;
        if index < tmp {
          tmp := tmp - |masks[i].mask|;
          for j: nat := 0 to 64
            invariant tmp == start + |WordList(masks[i], j)| <= index
          {
            if j in masks[i].mask {
              if tmp == index {
                WordListPrefix(masks[i], j + 1, 64);
                p := Bitpos(masks[i].word, j);
                return;
              }
              tmp := tmp + 1;
            }
          }
          assert false;
        }
      }
    }

    method First() returns (p: Bitpos)
      requires Valid() && masks != []
      ensures |List(masks)| > 0 && p == List(masks)[0]
    {
      ListPrefix(masks, 1);
      assert masks[..1] == [masks[0]];
      assert List(masks[..1]) == WordList(masks[0], 64) by { assert masks[..1][..0] == []; }
      Weight(masks[0], wordSize);
      p := Bitpos(0, 0);
      for j: nat := 0 to 64
        invariant WordList(masks[0], j) == []
      {
        if j in masks[0].mask {
          WordListPrefix(masks[0], j + 1, 64);
          return Bitpos(masks[0].word, j);
        }
      }
      assert false;
    }
  }

  lemma LastWord(masks: seq<WordMask>, wordSize: nat)
    requires Sorted(masks, wordSize)
    ensures forall w: nat, b: nat :: Denotes(masks, w, b) ==> masks != [] && w <= masks[|masks| - 1].word
  {
  }

  lemma BitBelow(masks: seq<WordMask>, wordSize: nat)
    requires Sorted(masks, wordSize)
    ensures forall w: nat, b: nat :: Denotes(masks, w, b) ==> b < wordSize
  {
  }

  lemma BitInside(masks: seq<WordMask>, wordSize: nat, i: nat)
    requires Sorted(masks, wordSize) && i < |masks|
    ensures forall b :: b in masks[i].mask ==> b < wordSize
  {
  }

  lemma {:induction false} ListPrefix(masks: seq<WordMask>, n: nat)
    requires n <= |masks|
    ensures List(masks[..n]) <= List(masks)
    decreases |masks|
  {
    if n < |masks| {
      var m := |masks| - 1;
      ListPrefix(masks[..m], n);
      assert masks[..m][..n] == masks[..n];
    } else {
      assert masks[..n] == masks;
    }
  }

  lemma {:induction false} WordListPrefix(m: WordMask, j: nat, n: nat)
    requires j <= n
    ensures WordList(m, j) <= WordList(m, n)
  {
    if j < n {
      WordListPrefix(m, j, n - 1);
    }
  }
}
