/** Propagation of one bitslice through a cache (src/bitslice.h, src/cache.h, src/bitslice_data.h). */
module Bitslices {
  import opened WordContainers
  import opened BitsliceFunctions
  import opened BitsliceDatas
  import opened SymmetricKeys
  import opened Propagation
  import opened Caches
  import opened Counting

  const MAX_STATIC_CACHE_SIZE := 16
  const MAX_DYNAMIC_CACHE_SIZE := 22

  // ---- words as numbers ----

  /** The number whose one bits below `n` are those of `w`. */
  function Number(w: Word, n: nat): (x: nat)
    ensures x < Pow2(n)
  {
    if n == 0 then 0 else Number(w, n - 1) + if n - 1 in w then Pow2(n - 1) else 0
  }

  function Bits(x: nat, n: nat): (w: Word)
    ensures forall k :: k in w ==> k < n
  {
    if n == 0 then {}
    else if x >= Pow2(n - 1) then Bits(x - Pow2(n - 1), n - 1) + {n - 1}
    else Bits(x, n - 1)
  }

  lemma {:induction false} BitsNumber(w: Word, n: nat)
    ensures forall k: nat :: k in Bits(Number(w, n), n) <==> k in w && k < n
  {
    if n > 0 {
      BitsNumber(w, n - 1);
    }
  }

  lemma {:induction false} NumberBits(x: nat, n: nat)
    requires x < Pow2(n)
    ensures Number(Bits(x, n), n) == x
  {
    if n > 0 {
      var y := if x >= Pow2(n - 1) then x - Pow2(n - 1) else x;
      NumberBits(y, n - 1);
      NumberBelow(Bits(x, n), Bits(y, n - 1), n - 1);
    }
  }

  lemma {:induction false} NumberBelow(v: Word, w: Word, n: nat)
    requires forall k: nat :: k < n ==> (k in v <==> k in w)
    ensures Number(v, n) == Number(w, n)
  {
    if n > 0 {
      NumberBelow(v, w, n - 1);
    }
  }

  // ---- keys of the static cache ----

  predicate Small(fn: Func) {
    NumBits(fn) <= MAX_STATIC_CACHE_SIZE
  }

  /** In a small function every slot starts at a multiple of four, as the index of the static cache has it. */
  lemma {:induction false} SmallIndex(fn: Func, i: nat)
    requires Small(fn) && i < |fn.bitsize|
    ensures CIndex(fn, i) == 4 * i
  {
    if i > 0 {
      SmallIndex(fn, i - 1);
      CIndexOrder(fn, i, |fn.bitsize|);
    }
  }

  /** The first `n` conditions side by side, four bits each. */
  function KeyWord(fn: Func, data: BitsliceData, n: nat): Word
    requires fn.Valid() && data.Valid(fn) && n <= fn.Slots()
  {
    if n == 0 then {} else KeyWord(fn, data, n - 1) + Shl(data.GetCondition(fn, n - 1), 4 * (n - 1))
  }

  function KeyIndex(fn: Func, data: BitsliceData): nat
    requires fn.Valid() && data.Valid(fn)
  {
    Number(KeyWord(fn, data, fn.Slots()), NumBits(fn))
  }

  /** Condition `j` in the bits of a table index. */
  function IndexCondition(fn: Func, w: Word, j: nat): Cond
    requires j < |fn.bitsize|
  {
    Shr(w, CIndex(fn, j)) * Mask(Size(fn, j))
  }

  ghost function IndexConditions(fn: Func, w: Word): (r: seq<Cond>)
    requires fn.Valid()
    ensures |r| == fn.Slots()
  {
    seq(fn.Slots(), j requires 0 <= j < fn.Slots() => IndexCondition(fn, w, j))
  }

  lemma InIndexCondition(fn: Func, w: Word, j: nat, k: nat)
    requires j < |fn.bitsize|
    ensures k in IndexCondition(fn, w, j) <==> k < Size(fn, j) && CIndex(fn, j) + k in w
  {
    hide Shr, Mask, CIndex, Size;
    InShr(w, CIndex(fn, j), k);
  }

  lemma {:induction false} KeyWordBits(fn: Func, data: BitsliceData, w: Word, n: nat)
    requires fn.Valid() && data.Valid(fn) && Small(fn) && n <= fn.Slots()
    requires data.Conditions(fn) == IndexConditions(fn, w)
    ensures forall b: nat :: b in KeyWord(fn, data, n) <==> b < CIndex(fn, n) && b in w
  {
    hide BitsliceData.GetCondition, Func.Valid, IndexCondition;
    SlotCount(fn);
    if n > 0 {
      KeyWordBits(fn, data, w, n - 1);
      SmallIndex(fn, n - 1);
      CIndexOrder(fn, n - 1, |fn.bitsize|);
      var c := data.GetCondition(fn, n - 1);
      assert c == data.Conditions(fn)[n - 1] == IndexCondition(fn, w, n - 1);
      forall b: nat ensures b in KeyWord(fn, data, n) <==> b < CIndex(fn, n) && b in w {
        InShl(c, 4 * (n - 1), b);
        if b >= 4 * (n - 1) {
          InIndexCondition(fn, w, n - 1, b - 4 * (n - 1));
        }
      }
    }
  }

  /** A key holds the conditions of its own index. */
  lemma KeyConditions(fn: Func, data: BitsliceData)
    requires fn.Valid() && data.Valid(fn) && Small(fn)
    ensures data.Conditions(fn) == IndexConditions(fn, Bits(KeyIndex(fn, data), NumBits(fn)))
  {
    hide BitsliceData.GetCondition, Func.Valid, IndexCondition, WordContainer.Bit;
    SlotCount(fn);
    var w := BitsOf(fn, data, NumBits(fn));
    DataBits(fn, data);
    KeyWordBits(fn, data, w, fn.Slots());
    assert KeyWord(fn, data, fn.Slots()) == w;
    BitsNumber(w, NumBits(fn));
    assert Bits(KeyIndex(fn, data), NumBits(fn)) == w;
  }

  ghost function BitsOf(fn: Func, data: BitsliceData, n: nat): (w: Word)
    requires fn.Valid() && data.Valid(fn) && n <= NumBits(fn)
    ensures forall b: nat :: b in w ==> b < n
    ensures forall b: nat {:trigger data.conditions.Bit(b)} :: b < n ==> (b in w <==> data.conditions.Bit(b))
  {
    if n == 0 then {} else BitsOf(fn, data, n - 1) + if data.conditions.Bit(n - 1) then {n - 1} else {}
  }

  lemma DataBits(fn: Func, data: BitsliceData)
    requires fn.Valid() && data.Valid(fn)
    ensures data.Conditions(fn) == IndexConditions(fn, BitsOf(fn, data, NumBits(fn)))
  {
    hide BitsliceData.GetCondition, Func.Valid, IndexCondition, WordContainer.Bit, BitsOf;
    SlotCount(fn);
    var w := BitsOf(fn, data, NumBits(fn));
    forall j | 0 <= j < fn.Slots() ensures data.GetCondition(fn, j) == IndexCondition(fn, w, j) {
      data.GetBits(fn, j);
      CIndexOrder(fn, j, |fn.bitsize|);
      forall k: nat ensures k in data.GetCondition(fn, j) <==> k in IndexCondition(fn, w, j) {
        InIndexCondition(fn, w, j, k);
        if k < Size(fn, j) {
          assert data.conditions.Bit(CIndex(fn, j) + k) <==> CIndex(fn, j) + k in w;
        }
      }
    }
  }

  /** The entry for index `x` is stored at index `x`. */
  lemma IndexKey(fn: Func, data: BitsliceData, x: nat)
    requires fn.Valid() && data.Valid(fn) && Small(fn) && x < Pow2(NumBits(fn))
    requires data.Conditions(fn) == IndexConditions(fn, Bits(x, NumBits(fn)))
    ensures KeyIndex(fn, data) == x
  {
    hide BitsliceData.GetCondition, Func.Valid, IndexCondition;
    SlotCount(fn);
    var w := Bits(x, NumBits(fn));
    KeyWordBits(fn, data, w, fn.Slots());
    assert KeyWord(fn, data, fn.Slots()) == w;
    NumberBits(x, NumBits(fn));
  }

  // ---- what the caches hold ----

  /** `value` is the exact propagation of the conditions of `key`. */
  ghost predicate Right(fn: Func, key: BitsliceData, value: BitsliceData)
    requires fn.Valid()
  {
    key.Valid(fn) && value.Valid(fn) && value.Conditions(fn) == Projected(fn, key.Conditions(fn))
  }

  /** Entry `x` of the table is the exact propagation of the conditions in the bits of `x`. */
  ghost predicate RightAt(fn: Func, table: seq<BitsliceData>, x: nat)
    requires fn.Valid() && x < |table|
  {
    table[x].Valid(fn) && table[x].Conditions(fn) == Projected(fn, IndexConditions(fn, Bits(x, NumBits(fn))))
  }

  ghost predicate RightTo(fn: Func, table: seq<BitsliceData>, n: nat)
    requires fn.Valid()
  {
    n <= |table| && forall x :: 0 <= x < n ==> RightAt(fn, table, x)
  }

  ghost predicate RightTable(fn: Func, table: seq<BitsliceData>)
    requires fn.Valid()
  {
    |table| == Pow2(NumBits(fn)) && RightTo(fn, table, |table|)
  }

  lemma StaticMatch(fn: Func, table: seq<BitsliceData>, key: BitsliceData)
    requires fn.Valid() && key.Valid(fn) && Small(fn) && RightTable(fn, table)
    ensures KeyIndex(fn, key) < |table| && Right(fn, key, table[KeyIndex(fn, key)])
  {
    hide BitsliceData.GetCondition, Func.Valid, Projected, IndexConditions, Bits, Pow2;
    KeyConditions(fn, key);
    assert RightAt(fn, table, KeyIndex(fn, key));
  }

  lemma StaticEntry(fn: Func, table: seq<BitsliceData>, key: BitsliceData, value: BitsliceData, x: nat)
    requires fn.Valid() && key.Valid(fn) && Small(fn) && |table| == Pow2(NumBits(fn)) && x < |table|
    requires key.Conditions(fn) == IndexConditions(fn, Bits(x, NumBits(fn))) && Right(fn, key, value)
    requires RightTo(fn, table, x)
    ensures KeyIndex(fn, key) == x
    ensures RightTo(fn, table[x := value], x + 1)
  {
    hide BitsliceData.GetCondition, Func.Valid, Projected, IndexConditions, Bits, Pow2;
    IndexKey(fn, key, x);
    var next := table[x := value];
    forall y | 0 <= y < x + 1 ensures RightAt(fn, next, y) {
      if y < x {
        assert RightAt(fn, table, y);
      }
    }
  }

  lemma ProjectedRight(fn: Func, key: BitsliceData, value: BitsliceData)
    requires fn.Valid() && key.Valid(fn) && value.Valid(fn) && value.Conditions(fn) == Projected(fn, key.Conditions(fn))
    ensures Right(fn, key, value)
  {
  }

  /** Sorting the input, propagating the key and undoing the permutation propagates the input. */
  lemma KeyResult(fn: Func, input: BitsliceData, key: BitsliceData, value: BitsliceData, perm: seq<nat>, inv: seq<nat>)
    requires fn.Valid() && input.Valid(fn) && Right(fn, key, value)
    requires Sorting(fn, input.Conditions(fn), key.Conditions(fn), perm, inv)
    ensures Rearranges(fn, perm, inv)
    ensures value.Conditions(fn) == Permuted(Projected(fn, input.Conditions(fn)), perm)
  {
  }

  /** The input whose conditions are the bits of the table index `i`. */
  method IndexInput(fn: Func, data: BitsliceData, i: nat) returns (input: BitsliceData)
    requires fn.Valid() && data.Valid(fn)
    ensures input.Valid(fn) && input.Conditions(fn) == IndexConditions(fn, Bits(i, NumBits(fn)))
  {
    hide BitsliceData.GetCondition, BitsliceData.SetCondition, Func.Valid, IndexCondition, Bits;
    SlotCount(fn);
    var w := Bits(i, NumBits(fn));
    input := data;
    for j: nat := 0 to fn.Slots()
      invariant input.Valid(fn) && input.Conditions(fn)[..j] == IndexConditions(fn, w)[..j]
    {
      var cond := Shr(w, CIndex(fn, j)) * Mask(Size(fn, j));
      IndexConditionIs(fn, w, j);
      input.SetConditions(fn, j, cond);
      input := input.SetCondition(fn, j, cond);
    }
    assert input.Conditions(fn) == input.Conditions(fn)[..fn.Slots()] == IndexConditions(fn, w)[..fn.Slots()];
  }

  class Bitslice {
    const fn: Func
    const staticCache: StaticCache<BitsliceData>
    const dynamicCache: DynamicCache<BitsliceData, BitsliceData>

    /** Whatever the caches hold is right; the table of a small function is complete. */
    ghost predicate Valid()
      reads staticCache, dynamicCache
    {
      && fn.Valid() && Symmetric(fn) && fn.Slots() <= MAX_SLOTS
      && dynamicCache.Valid() && dynamicCache.capacity == Pow2(MAX_DYNAMIC_CACHE_SIZE)
      && (Small(fn) ==> staticCache.isInitialized && RightTable(fn, staticCache.data))
      && (forall key :: key in dynamicCache.data ==> Right(fn, key, dynamicCache.data[key]))
    }

    constructor (fn: Func)
      requires fn.Valid() && Symmetric(fn) && fn.Slots() <= MAX_SLOTS
      ensures Valid() && this.fn == fn && fresh(staticCache) && fresh(dynamicCache)
    {
      hide Func.Valid, Symmetric, RightTable, Pow2;
      this.fn := fn;
      var table := new StaticCache<BitsliceData>();
      staticCache := table;
      dynamicCache := new DynamicCache(Pow2(MAX_DYNAMIC_CACHE_SIZE));
      new;
      if Small(fn) {
        InitStaticCachePropagate(fn, table);
      }
    }

    /** Fills the table with the propagation of every possible input. */
    static method InitStaticCachePropagate(fn: Func, table: StaticCache<BitsliceData>)
      requires fn.Valid() && Symmetric(fn) && fn.Slots() <= MAX_SLOTS && Small(fn)
      modifies table
      ensures table.isInitialized && RightTable(fn, table.data)
    {
      hide Func.Valid, Projected, Bits, Pow2, Blank, RightAt, Symmetric;
      BlankConditions(fn);
      var size := Pow2(NumBits(fn));
      var input := Blank(fn);
      table.SetSize(size, Blank(fn));
      for i: nat := 0 to size
        invariant |table.data| == size && input.Valid(fn)
        invariant RightTo(fn, table.data, i)
      {
        input := IndexInput(fn, input, i);
        var output, _ := Loop(fn, input);
        StaticEntry(fn, table.data, input, output, i);
        table.Insert(KeyIndex(fn, input), output);
      }
      table.SetInitialized();
    }

    /** The same as the loop, for every input and every state of the caches. */
    method Compute(input: BitsliceData) returns (output: BitsliceData)
      requires Valid() && input.Valid(fn)
      modifies dynamicCache
      ensures Valid() && output.Valid(fn)
      ensures output.Conditions(fn) == Projected(fn, input.Conditions(fn))
    {
      hide Projected, RightTable, Symmetric, Func.Valid, Sorting, Sorted, BitsliceData.Conditions, BitsliceData.Valid, Pow2,
        Small;
      var key, perm, inv := SortInput(fn, input);
      output := Find(key);
      KeyResult(fn, input, key, output, perm, inv);
      output := ResortOutput(fn, output, perm, inv);
    }

    /** The propagation of a key, from a cache or computed and stored. */
    method Find(key: BitsliceData) returns (output: BitsliceData)
      requires Valid() && key.Valid(fn)
      modifies dynamicCache
      ensures Valid() && Right(fn, key, output)
    {
      hide Projected, RightTable, Symmetric, Func.Valid, BitsliceData.Conditions, BitsliceData.Valid, Pow2, KeyIndex, NumBits,
        Right, DynamicCache.Valid, CIndex;
      if Small(fn) {
        StaticMatch(fn, staticCache.data, key);
        output := staticCache.Find(KeyIndex(fn, key));
      } else {
        var result := dynamicCache.Find(key);
        match result {
          case Matched(value) => output := value;
          case NoMatch =>
            var size;
            output, size := Loop(fn, key);
            ProjectedRight(fn, key, output);
            dynamicCache.Insert(key, output);
        }
      }
    }
  }

  lemma IndexConditionIs(fn: Func, w: Word, j: nat)
    requires fn.Valid() && j < fn.Slots()
    ensures Shr(w, CIndex(fn, j)) * Mask(Size(fn, j)) == IndexConditions(fn, w)[j]
    ensures forall k :: k in Shr(w, CIndex(fn, j)) * Mask(Size(fn, j)) ==> k < Size(fn, j)
  {
  }
}
