/** The key under which a propagation is cached: conditions of exchangeable slots in descending order, and the
    permutation that brings the result back (src/bitslice_data.h). */
module SymmetricKeys {
  import opened BitsliceFunctions
  import opened BitsliceDatas

  // ---- comparing conditions as numbers ----

  /** Is `a` less than `b` as a number of `n` bits? */
  predicate LessBelow(a: Cond, b: Cond, n: nat) {
    n > 0 && if (n - 1 in a) != (n - 1 in b) then n - 1 in b else LessBelow(a, b, n - 1)
  }

  predicate Less(a: Cond, b: Cond) {
    LessBelow(a, b, 64)
  }

  lemma {:induction false} LessBelowAsymmetric(a: Cond, b: Cond, n: nat)
    requires LessBelow(a, b, n)
    ensures !LessBelow(b, a, n)
  {
    if (n - 1 in a) == (n - 1 in b) {
      LessBelowAsymmetric(a, b, n - 1);
    }
  }

  /** If `a` is not below `b` and `b` not below `c` then `a` is not below `c`. */
  lemma {:induction false} NotLessBelowTransitive(a: Cond, b: Cond, c: Cond, n: nat)
    requires !LessBelow(a, b, n) && !LessBelow(b, c, n)
    ensures !LessBelow(a, c, n)
  {
    if n > 0 && (n - 1 in a) == (n - 1 in b) == (n - 1 in c) {
      NotLessBelowTransitive(a, b, c, n - 1);
    }
  }

  /** Conditions of at most `n` bits of which none is below the other are equal. */
  lemma {:induction false} LessBelowTotal(a: Cond, b: Cond, n: nat)
    requires !LessBelow(a, b, n) && !LessBelow(b, a, n)
    ensures forall k: nat :: k < n ==> (k in a <==> k in b)
  {
    if n > 0 {
      LessBelowTotal(a, b, n - 1);
    }
  }

  // ---- permutations of slots with equal symmetry ----

  ghost predicate Rearranges(fn: Func, perm: seq<nat>, inv: seq<nat>)
    requires fn.Valid()
  {
    && |perm| == |inv| == fn.Slots()
    && (forall i :: 0 <= i < |perm| ==> perm[i] < |perm| && inv[perm[i]] == i && Exchangeable(fn, i, perm[i]))
    && (forall i :: 0 <= i < |perm| ==> inv[i] < |perm| && perm[inv[i]] == i)
  }

  ghost function Permuted<T>(s: seq<T>, perm: seq<nat>): (r: seq<T>)
    requires |s| == |perm| && forall i :: 0 <= i < |perm| ==> perm[i] < |s|
    ensures |r| == |s|
  {
    seq(|s|, i requires 0 <= i < |s| => s[perm[i]])
  }

  function Identity(n: nat): (r: seq<nat>)
    ensures |r| == n && forall i :: 0 <= i < n ==> r[i] == i
  {
    if n == 0 then [] else Identity(n - 1) + [n - 1]
  }

  /** The slots below `i` are in order with respect to all later exchangeable slots. */
  ghost predicate SortedTo(fn: Func, c: seq<Cond>, i: nat) {
    forall k, l :: 0 <= k < i && k < l < |c| && Exchangeable(fn, k, l) ==> !Less(c[k], c[l])
  }

  ghost predicate Sorted(fn: Func, c: seq<Cond>) {
    SortedTo(fn, c, |c|)
  }

  /** Slot `i` is in order with respect to the exchangeable slots after it and before `j`. */
  ghost predicate SortedRow(fn: Func, c: seq<Cond>, i: nat, j: nat)
    requires i < |c|
  {
    forall l :: i < l < j && l < |c| && Exchangeable(fn, i, l) ==> !Less(c[i], c[l])
  }

  /** What holds between the two loops of the sort: `now` is `start` permuted, and so are their projections. */
  ghost predicate Sorting(fn: Func, start: seq<Cond>, now: seq<Cond>, perm: seq<nat>, inv: seq<nat>)
    requires fn.Valid()
  {
    && |start| == |now| == fn.Slots()
    && Rearranges(fn, perm, inv)
    && now == Permuted(start, perm)
    && Projected(fn, now) == Permuted(Projected(fn, start), perm)
  }

  lemma SortingStart(fn: Func, start: seq<Cond>)
    requires fn.Valid() && |start| == fn.Slots()
    ensures Sorting(fn, start, start, Identity(fn.Slots()), Identity(fn.Slots()))
  {
    hide Projected;
    var p := Identity(fn.Slots());
    assert Permuted(start, p) == start;
    assert Permuted(Projected(fn, start), p) == Projected(fn, start);
  }

  lemma SortingSwap(fn: Func, start: seq<Cond>, now: seq<Cond>, perm: seq<nat>, inv: seq<nat>, i: nat, j: nat)
    requires fn.Valid() && Symmetric(fn) && Sorting(fn, start, now, perm, inv)
    requires i < j < |now| && Exchangeable(fn, i, j)
    ensures Sorting(fn, start, Swap(now, i, j), Swap(perm, i, j), inv[perm[i] := j][perm[j] := i])
  {
    hide Projected, Func.Valid, Symmetric;
    var perm', inv' := Swap(perm, i, j), inv[perm[i] := j][perm[j] := i];
    assert perm[i] != perm[j] by { assert inv[perm[i]] == i; }
    assert Rearranges(fn, perm', inv') by {
      forall k | 0 <= k < |perm| ensures perm'[k] < |perm| && inv'[perm'[k]] == k && Exchangeable(fn, k, perm'[k]) {
        assert perm'[k] == perm[Other(i, j, k)] && inv[perm[Other(i, j, k)]] == Other(i, j, k);
      }
      forall k | 0 <= k < |perm| ensures inv'[k] < |perm| && perm'[inv'[k]] == k {
        assert perm[inv[k]] == k;
      }
    }
    SwapProjects(fn, now, i, j);
    SwapPermuted(start, perm, i, j);
    SwapPermuted(Projected(fn, start), perm, i, j);
  }

  lemma SwapPermuted<T>(s: seq<T>, perm: seq<nat>, i: nat, j: nat)
    requires |s| == |perm| && (forall k :: 0 <= k < |perm| ==> perm[k] < |s|) && i < j < |s|
    ensures Permuted(s, Swap(perm, i, j)) == Swap(Permuted(s, perm), i, j)
  {
  }

  lemma SwapSorts(fn: Func, c: seq<Cond>, i: nat, j: nat)
    requires i < j < |c| && Exchangeable(fn, i, j) && Less(c[i], c[j])
    requires SortedTo(fn, c, i) && SortedRow(fn, c, i, j)
    ensures SortedTo(fn, Swap(c, i, j), i) && SortedRow(fn, Swap(c, i, j), i, j + 1)
  {
    hide Less;
    var d := Swap(c, i, j);
    forall k, l | 0 <= k < i && k < l < |d| && Exchangeable(fn, k, l) ensures !Less(d[k], d[l]) {
      assert Exchangeable(fn, k, Other(i, j, l)) && d[l] == c[Other(i, j, l)];
    }
    forall l | i < l < j + 1 && l < |d| && Exchangeable(fn, i, l) ensures !Less(d[i], d[l]) {
      NotLess(c[j], c[i]);
      if l < j {
        assert !Less(c[i], c[l]);
        NotLessTransitive(c[j], c[i], c[l]);
      }
    }
  }

  lemma NotLess(a: Cond, b: Cond)
    ensures Less(b, a) ==> !Less(a, b)
  {
    if Less(b, a) { LessBelowAsymmetric(b, a, 64); }
  }

  lemma NotLessTransitive(a: Cond, b: Cond, c: Cond)
    requires !Less(a, b) && !Less(b, c)
    ensures !Less(a, c)
  {
    NotLessBelowTransitive(a, b, c, 64);
  }

  // ---- the sorted key is canonical ----

  /** The slots up to `n` that are exchangeable with slot `i`. */
  ghost function Class(fn: Func, i: nat, n: nat): (r: set<nat>)
    ensures forall k: nat :: k in r <==> k < n && Exchangeable(fn, i, k)
  {
    if n == 0 then {}
    else Class(fn, i, n - 1) + if Exchangeable(fn, i, n - 1) then {n - 1} else {}
  }

  lemma {:induction false} InjectiveSize(s: set<nat>, t: set<nat>, perm: seq<nat>)
    requires forall k :: k in s ==> k < |perm| && perm[k] in t
    requires forall k, l :: k in s && l in s && perm[k] == perm[l] ==> k == l
    ensures |s| <= |t|
  {
    if s != {} {
      var k :| k in s;
      InjectiveSize(s - {k}, t - {perm[k]}, perm);
    }
  }

  lemma ClassNext(fn: Func, i: nat)
    requires i < |fn.symmetry|
    ensures |Class(fn, i, i + 1)| == |Class(fn, i, i)| + 1
  {
    assert Class(fn, i, i + 1) == Class(fn, i, i) + {i};
  }

  /** A condition above `a[i]` stands before slot `i`, and the conditions of `b` up to slot `i` are above it. */
  lemma AboveStandsBefore(fn: Func, a: seq<Cond>, perm: seq<nat>, i: nat, k: nat)
    requires |a| == |perm| && (forall l :: 0 <= l < |perm| ==> perm[l] < |a|) && k <= i < |a|
    requires Sorted(fn, a) && Sorted(fn, Permuted(a, perm)) && Less(a[i], Permuted(a, perm)[i])
    requires Exchangeable(fn, i, k) && Exchangeable(fn, i, perm[k])
    ensures perm[k] < i
  {
    hide Less;
    var b := Permuted(a, perm);
    assert !Less(b[k], b[i]) by { NotLess(b[i], b[i]); }
    if perm[k] >= i {
      assert !Less(a[i], a[perm[k]]) by { NotLess(a[i], a[i]); }
      NotLessTransitive(a[i], a[perm[k]], b[i]);
    }
  }

  lemma BackAt(fn: Func, perm: seq<nat>, inv: seq<nat>, k: nat)
    requires fn.Valid() && Rearranges(fn, perm, inv) && k < |perm|
    ensures perm[k] < |inv| && inv[perm[k]] == k
  {
  }

  lemma NotAboveSorted(fn: Func, a: seq<Cond>, perm: seq<nat>, inv: seq<nat>, i: nat)
    requires fn.Valid() && |a| == fn.Slots() && Rearranges(fn, perm, inv) && i < |a|
    requires Sorted(fn, a) && Sorted(fn, Permuted(a, perm))
    ensures !Less(a[i], Permuted(a, perm)[i])
  {
    hide Less, Func.Valid, Sorted;
    if Less(a[i], Permuted(a, perm)[i]) {
      var upto, before := Class(fn, i, i + 1), Class(fn, i, i);
      ClassNext(fn, i);
      forall k | k in upto ensures perm[k] in before {
        assert Exchangeable(fn, k, perm[k]);
        AboveStandsBefore(fn, a, perm, i, k);
      }
      forall k, l | k in upto && l in upto && perm[k] == perm[l] ensures k == l {
        BackAt(fn, perm, inv, k);
        BackAt(fn, perm, inv, l);
      }
      InjectiveSize(upto, before, perm);
    }
  }

  /** Inputs that differ only in the order of exchangeable slots have the same key. */
  lemma CanonicalKey(fn: Func, a: seq<Cond>, b: seq<Cond>, perm: seq<nat>, inv: seq<nat>)
    requires fn.Valid() && |a| == fn.Slots() && Rearranges(fn, perm, inv) && b == Permuted(a, perm)
    requires fn.Fits(a) && fn.Fits(b) && Sorted(fn, a) && Sorted(fn, b)
    ensures a == b
  {
    hide Less, Func.Valid, Sorted, Func.Fits;
    forall i | 0 <= i < |a| ensures a[i] == b[i] {
      NotAboveSorted(fn, a, perm, inv, i);
      assert Permuted(b, inv) == a by {
        assert forall k :: 0 <= k < |a| ==> perm[inv[k]] == k;
      }
      assert Rearranges(fn, inv, perm) by {
        assert forall k :: 0 <= k < |a| ==> perm[inv[k]] == k && Exchangeable(fn, inv[k], perm[inv[k]]);
      }
      NotAboveSorted(fn, b, inv, perm, i);
      EqualConditions(fn, a, b, i);
    }
  }

  lemma EqualConditions(fn: Func, a: seq<Cond>, b: seq<Cond>, i: nat)
    requires fn.Valid() && fn.Fits(a) && fn.Fits(b) && i < |a|
    requires !Less(a[i], b[i]) && !Less(b[i], a[i])
    ensures a[i] == b[i]
  {
    LessBelowTotal(a[i], b[i], 64);
    forall k | k in a[i] || k in b[i] ensures k < 64 {
      assert k < fn.Base(i) * fn.Base(i) <= 64 by { SizeIsSquare(fn, i); }
    }
  }

  // ---- sorting a record and undoing the permutation ----

  lemma SwapReads(fn: Func, data: BitsliceData, a: nat, b: nat)
    requires fn.Valid() && data.Valid(fn) && a < fn.Slots() && b < fn.Slots() && Size(fn, a) == Size(fn, b)
    ensures var r := data.SetCondition(fn, a, data.GetCondition(fn, b));
            r.Valid(fn) &&
            r.SetCondition(fn, b, data.GetCondition(fn, a)).Valid(fn) &&
            r.SetCondition(fn, b, data.GetCondition(fn, a)).Conditions(fn) == Swap(data.Conditions(fn), a, b)
  {
    hide BitsliceData.GetCondition, BitsliceData.SetCondition, Func.Valid;
    data.GetBits(fn, a);
    data.GetBits(fn, b);
    var c := data.Conditions(fn);
    assert c[a] == data.GetCondition(fn, a) && c[b] == data.GetCondition(fn, b);
    data.SetConditions(fn, a, c[b]);
    data.SetCondition(fn, a, c[b]).SetConditions(fn, b, c[a]);
  }

  method SwapCondition(fn: Func, data: BitsliceData, a: nat, b: nat) returns (r: BitsliceData)
    requires fn.Valid() && data.Valid(fn) && a < fn.Slots() && b < fn.Slots() && Exchangeable(fn, a, b)
    ensures r.Valid(fn) && r.Conditions(fn) == Swap(data.Conditions(fn), a, b)
  {
    hide BitsliceData.GetCondition, BitsliceData.SetCondition, BitsliceData.Conditions;
    assert fn.bitsize[a] == fn.bitsize[b];
    SwapReads(fn, data, a, b);
    var aa := data.GetCondition(fn, a);
    var bb := data.GetCondition(fn, b);
    r := data.SetCondition(fn, a, bb);
    r := r.SetCondition(fn, b, aa);
  }

  /** Exchange sort of exchangeable slots; `perm[i]` is the slot whose condition ended up at `i`. */
  method SortInput(fn: Func, input: BitsliceData) returns (key: BitsliceData, perm: seq<nat>, ghost inv: seq<nat>)
    requires fn.Valid() && Symmetric(fn) && fn.Slots() <= MAX_SLOTS && input.Valid(fn)
    ensures key.Valid(fn)
    ensures Sorting(fn, input.Conditions(fn), key.Conditions(fn), perm, inv)
    ensures Sorted(fn, key.Conditions(fn))
  {
    hide BitsliceData.GetCondition, BitsliceData.SetCondition, Less, Sorting, SortedTo, SortedRow, Symmetric;
    ghost var start := input.Conditions(fn);
    var n := fn.Slots();
    key, perm := input, Identity(n);
    inv := perm;
    SortingStart(fn, start);
    SortedNone(fn, start);
    for i: nat := 0 to n
      invariant key.Valid(fn) && Sorting(fn, start, key.Conditions(fn), perm, inv)
      invariant SortedTo(fn, key.Conditions(fn), i)
    {
      SortedRowNone(fn, key.Conditions(fn), i);
      for j: nat := i + 1 to n
        invariant key.Valid(fn) && Sorting(fn, start, key.Conditions(fn), perm, inv)
        invariant SortedTo(fn, key.Conditions(fn), i)
        invariant SortedRow(fn, key.Conditions(fn), i, j)
      {
        ghost var c := key.Conditions(fn);
        SortingShape(fn, start, c, perm, inv, i, j);
        if fn.symmetry[i] == fn.symmetry[j] && Less(key.GetCondition(fn, i), key.GetCondition(fn, j)) {
          SortingSwap(fn, start, c, perm, inv, i, j);
          SwapSorts(fn, c, i, j);
          key := SwapCondition(fn, key, i, j);
          inv := inv[perm[i] := j][perm[j] := i];
          perm := Swap(perm, i, j);
        } else {
          SortedRowNext(fn, c, i, j);
        }
      }
      SortedToNext(fn, key.Conditions(fn), i);
    }
  }

  lemma SortedNone(fn: Func, c: seq<Cond>)
    ensures SortedTo(fn, c, 0)
  {
  }

  lemma SortedRowNone(fn: Func, c: seq<Cond>, i: nat)
    requires i < |c|
    ensures SortedRow(fn, c, i, i + 1)
  {
  }

  lemma SortedRowNext(fn: Func, c: seq<Cond>, i: nat, j: nat)
    requires i < j < |c| && SortedRow(fn, c, i, j) && !(Exchangeable(fn, i, j) && Less(c[i], c[j]))
    ensures SortedRow(fn, c, i, j + 1)
  {
    hide Less;
  }

  lemma SortedToNext(fn: Func, c: seq<Cond>, i: nat)
    requires i < |c| && SortedTo(fn, c, i) && SortedRow(fn, c, i, |c|)
    ensures SortedTo(fn, c, i + 1)
  {
    hide Less;
  }

  lemma SortingShape(fn: Func, start: seq<Cond>, now: seq<Cond>, perm: seq<nat>, inv: seq<nat>, i: nat, j: nat)
    requires fn.Valid() && Sorting(fn, start, now, perm, inv) && i < j < fn.Slots()
    ensures |perm| == |inv| == fn.Slots() && perm[i] < |inv| && perm[j] < |inv|
  {
  }

  /** Writes the condition at slot `i` to slot `perm[i]`. */
  method ResortOutput(fn: Func, data: BitsliceData, perm: seq<nat>, ghost inv: seq<nat>) returns (r: BitsliceData)
    requires fn.Valid() && data.Valid(fn) && Rearranges(fn, perm, inv)
    ensures r.Valid(fn) && data.Conditions(fn) == Permuted(r.Conditions(fn), perm)
    ensures forall c: seq<Cond> :: |c| == |perm| && data.Conditions(fn) == Permuted(c, perm) ==> r.Conditions(fn) == c
  {
    hide BitsliceData.GetCondition, BitsliceData.SetCondition, Func.Base, Size;
    r := data;
    for i: nat := 0 to fn.Slots()
      invariant r.Valid(fn)
      invariant forall k :: 0 <= k < i ==> r.Conditions(fn)[perm[k]] == data.Conditions(fn)[k]
    {
      var cond := data.GetCondition(fn, i);
      MovedFits(fn, data, i, perm[i]);
      r.SetConditions(fn, perm[i], cond);
      ghost var before := r.Conditions(fn);
      r := r.SetCondition(fn, perm[i], cond);
      assert forall k :: 0 <= k < i ==> perm[k] != perm[i] by {
        assert forall k :: 0 <= k <= i ==> inv[perm[k]] == k;
      }
    }
    PermutedUnique(fn, perm, inv, data.Conditions(fn), r.Conditions(fn));
  }

  lemma MovedFits(fn: Func, data: BitsliceData, i: nat, j: nat)
    requires fn.Valid() && data.Valid(fn) && i < fn.Slots() && j < fn.Slots() && Exchangeable(fn, i, j)
    ensures forall k :: k in data.GetCondition(fn, i) ==> k < Size(fn, j)
  {
    data.GetBits(fn, i);
  }

  lemma PermutedUnique(fn: Func, perm: seq<nat>, inv: seq<nat>, s: seq<Cond>, r: seq<Cond>)
    requires fn.Valid() && Rearranges(fn, perm, inv) && |s| == |r| == |perm|
    requires forall k :: 0 <= k < |perm| ==> r[perm[k]] == s[k]
    ensures s == Permuted(r, perm)
    ensures forall c: seq<Cond> :: |c| == |perm| && s == Permuted(c, perm) ==> r == c
  {
    forall c: seq<Cond> | |c| == |perm| && s == Permuted(c, perm) ensures r == c {
      forall l | 0 <= l < |c| ensures r[l] == c[l] {
        assert perm[inv[l]] == l;
        assert r[perm[inv[l]]] == s[inv[l]] == c[perm[inv[l]]];
      }
    }
  }
}
