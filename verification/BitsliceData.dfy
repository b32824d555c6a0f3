/** The conditions of all slots of a bitslice packed into words (src/bitslice_data.h). */
module BitsliceDatas {
  import opened WordContainers
  import opened BitsliceFunctions

  const MAX_SLOTS := 16

  /** Number of bits of the condition on slot `i`: one for each pair of values. */
  function Size(fn: Func, i: nat): (n: nat)
    requires i < |fn.bitsize|
    ensures n == 4 || n == 16 || n == 64
  {
    if fn.bitsize[i] == 1 then 4 else if fn.bitsize[i] == 2 then 16 else 64
  }

  lemma SizeIsSquare(fn: Func, i: nat)
    requires i < |fn.bitsize|
    ensures Size(fn, i) == fn.Base(i) * fn.Base(i)
  {
  }

  /** Position of the first bit of slot `i`. */
  function CIndex(fn: Func, i: nat): nat
    requires i <= |fn.bitsize|
  {
    if i == 0 then 0 else CIndex(fn, i - 1) + Size(fn, i - 1)
  }

  function NumBits(fn: Func): nat {
    CIndex(fn, |fn.bitsize|)
  }

  function NumWords(fn: Func): nat
    requires NumBits(fn) > 0
  {
    (NumBits(fn) - 1) / 64 + 1
  }

  lemma {:induction false} CIndexOrder(fn: Func, i: nat, j: nat)
    requires i < j <= |fn.bitsize|
    ensures CIndex(fn, i) + Size(fn, i) <= CIndex(fn, j)
  {
    if i + 1 < j {
      CIndexOrder(fn, i, j - 1);
    }
  }

  lemma NumBitsPositive(fn: Func)
    requires fn.Valid()
    ensures NumBits(fn) > 0
  {
    CIndexOrder(fn, 0, |fn.bitsize|);
  }

  lemma WindowInside(fn: Func, i: nat)
    requires fn.Valid() && i < fn.Slots()
    ensures NumBits(fn) > 0 && CIndex(fn, i) <= CIndex(fn, i + 1) - 1 < 64 * NumWords(fn)
    ensures CIndex(fn, i + 1) - 1 - CIndex(fn, i) == Size(fn, i) - 1 < 64
  {
    CIndexOrder(fn, i, |fn.bitsize|);
  }

  datatype BitsliceData = BitsliceData(conditions: WordContainer) {

    ghost predicate Valid(fn: Func)
      requires fn.Valid()
    {
      NumBits(fn) > 0 && |conditions.words| == NumWords(fn)
    }

    function GetCondition(fn: Func, i: nat): Cond
      requires fn.Valid() && Valid(fn) && i < fn.Slots()
    {
      WindowInside(fn, i);
      conditions.Get(CIndex(fn, i), CIndex(fn, i + 1) - 1)
    }

    function SetCondition(fn: Func, i: nat, cond: Cond): (r: BitsliceData)
      requires fn.Valid() && Valid(fn) && i < fn.Slots()
    {
      WindowInside(fn, i);
      BitsliceData(conditions.Set(CIndex(fn, i), CIndex(fn, i + 1) - 1, cond))
    }

    /** All conditions, unpacked. */
    ghost function Conditions(fn: Func): (r: seq<Cond>)
      requires fn.Valid() && Valid(fn)
      ensures |r| == fn.Slots()
    {
      seq(fn.Slots(), i requires 0 <= i < fn.Slots() => GetCondition(fn, i))
    }

    lemma GetBits(fn: Func, i: nat)
      requires fn.Valid() && Valid(fn) && i < fn.Slots()
      ensures forall k: nat {:trigger k in GetCondition(fn, i)} ::
                k in GetCondition(fn, i) ==> k < Size(fn, i)
      ensures forall k: nat {:trigger k in GetCondition(fn, i)} :: k < Size(fn, i) ==>
                CIndex(fn, i) + k < 64 * |conditions.words| &&
                (k in GetCondition(fn, i) <==> conditions.Bit(CIndex(fn, i) + k))
    {
      hide WordContainer.Get;
      WindowInside(fn, i);
      conditions.GetBits(CIndex(fn, i), CIndex(fn, i + 1) - 1);
    }

    /** A read condition has no bits outside its slot. */
    lemma ConditionsFit(fn: Func)
      requires fn.Valid() && Valid(fn)
      ensures fn.Fits(Conditions(fn))
    {
      hide GetCondition, Func.Valid, Func.Base, Size;
      SlotCount(fn);
      forall i, v | 0 <= i < fn.Slots() && v in Conditions(fn)[i] ensures v < fn.Base(i) * fn.Base(i) {
        GetBits(fn, i);
        SizeIsSquare(fn, i);
      }
    }

    /** Writing a condition and reading all of them back: the written slot has the new condition, the other
        slots keep theirs. */
    lemma SetConditions(fn: Func, i: nat, cond: Cond)
      requires fn.Valid() && Valid(fn) && i < fn.Slots()
      requires forall k :: k in cond ==> k < Size(fn, i)
      ensures SetCondition(fn, i, cond).Valid(fn)
      ensures SetCondition(fn, i, cond).Conditions(fn) == Conditions(fn)[i := cond]
    {
      hide WordContainer.Get, WordContainer.Set, WordContainer.Bit;
      SetKeepsValid(fn, i, cond);
      var r := SetCondition(fn, i, cond);
      forall j | 0 <= j < fn.Slots() ensures r.GetCondition(fn, j) == if j == i then cond else GetCondition(fn, j) {
        r.GetBits(fn, j);
        GetBits(fn, j);
        forall k: nat | k < Size(fn, j)
          ensures k in r.GetCondition(fn, j) <==> k in if j == i then cond else GetCondition(fn, j)
        {
          SetReads(fn, i, cond, j, k);
        }
      }
    }

    lemma SetKeepsValid(fn: Func, i: nat, cond: Cond)
      requires fn.Valid() && Valid(fn) && i < fn.Slots()
      ensures SetCondition(fn, i, cond).Valid(fn)
    {
      WindowInside(fn, i);
      conditions.SetBits(CIndex(fn, i), CIndex(fn, i + 1) - 1, cond, 0);
    }

    lemma SetReads(fn: Func, i: nat, cond: Cond, j: nat, k: nat)
      requires fn.Valid() && Valid(fn) && i < fn.Slots() && j < fn.Slots() && k < Size(fn, j)
      ensures CIndex(fn, j) + k < 64 * |conditions.words| == 64 * |SetCondition(fn, i, cond).conditions.words|
      ensures SetCondition(fn, i, cond).conditions.Bit(CIndex(fn, j) + k) <==>
              if i == j then k in cond else conditions.Bit(CIndex(fn, j) + k)
    {
      hide WordContainer.Get, WordContainer.Set, WordContainer.Bit, CIndex, NumWords;
      WindowInside(fn, i);
      WindowInside(fn, j);
      var p := CIndex(fn, j) + k;
      if i < j { CIndexOrder(fn, i, j); }
      if j < i { CIndexOrder(fn, j, i); }
      SetKeepsValid(fn, i, cond);
      conditions.SetBits(CIndex(fn, i), CIndex(fn, i + 1) - 1, cond, p);
      assert CIndex(fn, i) <= p <= CIndex(fn, i + 1) - 1 <==> i == j;
    }
  }

  /** All words zero. */
  function Zeros(n: nat): (r: seq<Word>)
    ensures |r| == n && forall i :: 0 <= i < n ==> r[i] == {}
  {
    if n == 0 then [] else Zeros(n - 1) + [{}]
  }

  /** Conditions that allow nothing. */
  function Empties(n: nat): (r: seq<Cond>)
    ensures |r| == n && forall i :: 0 <= i < n ==> r[i] == {}
  {
    Zeros(n)
  }

  function Blank(fn: Func): BitsliceData
    requires fn.Valid()
  {
    NumBitsPositive(fn);
    BitsliceData(WordContainer(Zeros(NumWords(fn))))
  }

  lemma BlankConditions(fn: Func)
    requires fn.Valid()
    ensures Blank(fn).Valid(fn)
    ensures Blank(fn).Conditions(fn) == Empties(fn.Slots())
  {
    hide WordContainer.Get;
    NumBitsPositive(fn);
    var d := Blank(fn);
    forall i | 0 <= i < fn.Slots() ensures d.GetCondition(fn, i) == {} {
      d.GetBits(fn, i);
    }
  }
}
