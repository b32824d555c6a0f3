/** Bit windows over an array of 64-bit words (src/word_container.h, src/utils.h). A word is the set of the
    positions of its one bits. */
module WordContainers {

  type Word = set<nat>

  function Mask(n: nat): (m: Word)
    ensures forall k: nat :: k in m <==> k < n
  {
    if n == 0 then {} else Mask(n - 1) + {n - 1}
  }

  function Shr(w: Word, n: nat): Word {
    set k | k in w && k >= n :: k - n
  }

  /** Left shift; bits that leave the word are lost. */
  function Shl(w: Word, n: nat): Word {
    set k | k in w && k + n < 64 :: k + n
  }

  function GetWindowBits(w: Word, n: nat, len: nat): Word
    requires n < 64 && 1 <= len <= 64 - n
  {
    Shr(w, n) * Mask(len)
  }

  function SetWindowBits(w: Word, n: nat, len: nat, b: Word): Word
    requires n < 64 && 1 <= len <= 64 - n
  {
    var mask := Shl(Mask(len), n);
    (w - mask) + (Shl(b, n) * mask)
  }

  datatype WordContainer = WordContainer(words: seq<Word>) {
    /** Bit `p` of the words laid end to end. */
    ghost predicate Bit(p: nat)
      requires p < 64 * |words|
    {
      p % 64 in words[p / 64]
    }

    /** The window from `start` to `end`, which may lie in two words. */
    function Get(start: nat, end: nat): Word
      requires start <= end < 64 * |words| && end - start < 64
    {
      var word0, word1, startBit, endBit := start / 64, end / 64, start % 64, end % 64;
      if word0 == word1 then GetWindowBits(words[word0], startBit, endBit - startBit + 1)
      else
        var len := 63 - startBit + 1;
        GetWindowBits(words[word0], startBit, len) + Shl(GetWindowBits(words[word1], 0, endBit + 1), len)
    }

    function Set(start: nat, end: nat, cond: Word): WordContainer
      requires start <= end < 64 * |words| && end - start < 64
    {
      var word0, word1, startBit, endBit := start / 64, end / 64, start % 64, end % 64;
      if word0 == word1 then
        WordContainer(words[word0 := SetWindowBits(words[word0], startBit, endBit - startBit + 1, cond)])
      else
        var len := 63 - startBit + 1;
        var first := words[word0 := SetWindowBits(words[word0], startBit, len, cond * Mask(len))];
        WordContainer(first[word1 := SetWindowBits(first[word1], 0, endBit + 1, Shr(cond, len))])
    }

    /** A window reads the bits at its positions, and nothing else, also over a word boundary. */
    lemma GetBits(start: nat, end: nat)
      requires start <= end < 64 * |words| && end - start < 64
      ensures forall k: nat :: k in Get(start, end) <==> k <= end - start && Bit(start + k)
    {
      var word0, word1, startBit, endBit := start / 64, end / 64, start % 64, end % 64;
      if word0 == word1 {
        forall k: nat ensures k in Get(start, end) <==> k <= end - start && Bit(start + k) {
          InShr(words[word0], startBit, k);
          if k <= end - start {
            assert (start + k) / 64 == word0 && (start + k) % 64 == startBit + k;
          }
        }
      } else {
        var len := 64 - startBit;
        forall k: nat ensures k in Get(start, end) <==> k <= end - start && Bit(start + k) {
          InShr(words[word0], startBit, k);
          if k >= len {
            InShr(words[word1], 0, k - len);
          }
          InShl(GetWindowBits(words[word1], 0, endBit + 1), len, k);
          if k < len {
            assert (start + k) / 64 == word0 && (start + k) % 64 == startBit + k;
          } else if k <= end - start {
            assert (start + k) / 64 == word1 && (start + k) % 64 == k - len;
          }
        }
      }
    }

    /** Writing a window changes the bits at its positions and no other bit. */
    lemma SetBits(start: nat, end: nat, cond: Word, p: nat)
      requires start <= end < 64 * |words| && end - start < 64 && p < 64 * |words|
      ensures |Set(start, end, cond).words| == |words|
      ensures Set(start, end, cond).Bit(p) <==> if start <= p <= end then p - start in cond else Bit(p)
    {
      var word0, word1, startBit, endBit := start / 64, end / 64, start % 64, end % 64;
      if word0 == word1 {
        if p / 64 == word0 {
          InWindow(words[word0], startBit, endBit - startBit + 1, cond, p % 64);
          assert p - start == p % 64 - startBit;
        }
      } else {
        SetTwoWords(start, end, cond, p);
      }
    }

    /** The same for a window in two words. */
    lemma SetTwoWords(start: nat, end: nat, cond: Word, p: nat)
      requires start <= end < 64 * |words| && end - start < 64 && p < 64 * |words| && start / 64 != end / 64
      ensures |Set(start, end, cond).words| == |words|
      ensures Set(start, end, cond).Bit(p) <==> if start <= p <= end then p - start in cond else Bit(p)
    {
      var word0, word1, startBit, endBit := start / 64, end / 64, start % 64, end % 64;
      var len, k := 64 - startBit, p % 64;
      assert word1 == word0 + 1 && p == 64 * (p / 64) + k && start == 64 * word0 + startBit && end == 64 * word1 + endBit;
      InWindow(words[word0], startBit, len, cond * Mask(len), k);
      InWindow(words[word1], 0, endBit + 1, Shr(cond, len), k);
      InShr(cond, len, k);
      hide SetWindowBits, Shr;
      if p / 64 == word0 {
        assert start <= p <= end <==> startBit <= k;
        assert p - start == k - startBit;
      } else if p / 64 == word1 {
        assert start <= p <= end <==> k <= endBit;
        assert p - start == k + len;
      }
    }
  }

  lemma InShr(w: Word, n: nat, k: nat)
    ensures k in Shr(w, n) <==> k + n in w
  {
    if k + n in w {
      assert (k + n) - n == k;
    }
  }

  lemma InShl(w: Word, n: nat, k: nat)
    ensures k in Shl(w, n) <==> n <= k < 64 && k - n in w
  {
    if n <= k < 64 && k - n in w {
      assert (k - n) + n == k;
    }
  }

  lemma InWindow(w: Word, n: nat, len: nat, b: Word, k: nat)
    requires n < 64 && 1 <= len <= 64 - n && k < 64
    ensures k in SetWindowBits(w, n, len, b) <==> if n <= k < n + len then k - n in b else k in w
  {
    InShl(Mask(len), n, k);
    InShl(b, n, k);
  }
}
