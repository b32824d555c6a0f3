/** Exact propagation by visiting all combinations of allowed input pairs (src/bitslice.h, src/propagate.h,
    src/bitslice_data.h). */
module Propagation {
  import opened BitsliceFunctions
  import opened BitsliceDatas
  import opened Indices

  // ---- the pairs of one slot ----

  ghost predicate InBase(fn: Func, j: nat, p: Pair)
    requires j < |fn.bitsize|
  {
    p.first < fn.Base(j) && p.second < fn.Base(j)
  }

  /** `l` lists the allowed pairs before (a, b), each once. */
  ghost predicate ListsTo(fn: Func, cond: Cond, j: nat, l: seq<Pair>, a: nat, b: nat)
    requires j < |fn.bitsize|
  {
    && (forall k, m :: 0 <= k < m < |l| ==> l[k] != l[m])
    && forall p :: p in l <==> InBase(fn, j, p) && fn.Code(j, p) in cond && (p.first < a || (p.first == a && p.second < b))
  }

  /** `l` lists the allowed pairs, each once. */
  ghost predicate ListsAll(fn: Func, cond: Cond, j: nat, l: seq<Pair>)
    requires j < |fn.bitsize|
  {
    ListsTo(fn, cond, j, l, fn.Base(j), 0)
  }

  lemma ListsNext(fn: Func, cond: Cond, j: nat, l: seq<Pair>, a: nat, b: nat)
    requires j < |fn.bitsize| && a < fn.Base(j) && b < fn.Base(j) && ListsTo(fn, cond, j, l, a, b)
    ensures ListsTo(fn, cond, j, if fn.Code(j, Pair(a, b)) in cond then l + [Pair(a, b)] else l, a, b + 1)
  {
    hide Func.Code, Func.Base;
    var q := Pair(a, b);
    var m := if fn.Code(j, q) in cond then l + [q] else l;
    forall p ensures p in m <==> InBase(fn, j, p) && fn.Code(j, p) in cond && (p.first < a || (p.first == a && p.second < b + 1)) {
      assert p == q || (p in m <==> p in l);
    }
  }

  lemma ListsRow(fn: Func, cond: Cond, j: nat, l: seq<Pair>, a: nat)
    requires j < |fn.bitsize| && ListsTo(fn, cond, j, l, a, fn.Base(j))
    ensures ListsTo(fn, cond, j, l, a + 1, 0)
  {
    hide Func.Code, Func.Base;
  }

  ghost predicate Column(pairs: array2<Pair>, j: nat, l: seq<Pair>)
    requires j < pairs.Length1 && |l| <= pairs.Length0
    reads pairs
  {
    forall k :: 0 <= k < |l| ==> pairs[k, j] == l[k]
  }

  /** Writes the allowed pairs of slot `j` to column `j`; every pair is written, and kept only if it is allowed. */
  method FillColumn(fn: Func, cond: Cond, j: nat, pairs: array2<Pair>, indices: Index) returns (ghost l: seq<Pair>)
    requires j < |fn.bitsize| && pairs.Length0 == 64 && j < pairs.Length1 && j < indices.size.Length
    modifies pairs, indices.size
    ensures ListsAll(fn, cond, j, l) && indices.size[j] == |l| <= 64 && Column(pairs, j, l)
    ensures forall k :: 0 <= k < indices.size.Length && k != j ==> indices.size[k] == old(indices.size[k])
    ensures forall r, k :: 0 <= r < 64 && 0 <= k < pairs.Length1 && k != j ==> pairs[r, k] == old(pairs[r, k])
  {
    hide ListsTo;
    var num := fn.Base(j);
    l := [];
    indices.size[j] := 0;
    ListsNone(fn, cond, j);
    for a: nat := 0 to num
      invariant ListsTo(fn, cond, j, l, a, 0) && indices.size[j] == |l| <= a * num
      invariant Column(pairs, j, l)
      invariant forall k :: 0 <= k < indices.size.Length && k != j ==> indices.size[k] == old(indices.size[k])
      invariant forall r, k :: 0 <= r < 64 && 0 <= k < pairs.Length1 && k != j ==> pairs[r, k] == old(pairs[r, k])
    {
      for b: nat := 0 to num
        invariant ListsTo(fn, cond, j, l, a, b) && indices.size[j] == |l| <= a * num + b
        invariant Column(pairs, j, l)
        invariant forall k :: 0 <= k < indices.size.Length && k != j ==> indices.size[k] == old(indices.size[k])
        invariant forall r, k :: 0 <= r < 64 && 0 <= k < pairs.Length1 && k != j ==> pairs[r, k] == old(pairs[r, k])
      {
        ListsNext(fn, cond, j, l, a, b);
        RowBound(fn, j, a, b);
        var c := if b * num + a in cond then 1 else 0;
        pairs[indices.size[j], j] := Pair(a, b);
        indices.size[j] := indices.size[j] + c;
        l := if fn.Code(j, Pair(a, b)) in cond then l + [Pair(a, b)] else l;
      }
      ListsRow(fn, cond, j, l, a);
    }
  }

  lemma ListsNone(fn: Func, cond: Cond, j: nat)
    requires j < |fn.bitsize|
    ensures ListsTo(fn, cond, j, [], 0, 0)
  {
  }

  lemma RowBound(fn: Func, j: nat, a: nat, b: nat)
    requires j < |fn.bitsize| && a < fn.Base(j) && b < fn.Base(j)
    ensures a * fn.Base(j) + b < 64
  {
  }

  ghost predicate ListsInputs(fn: Func, conds: seq<Cond>, lists: seq<seq<Pair>>)
    requires fn.Valid() && |conds| == fn.Slots()
  {
    |lists| == fn.ins && forall j :: 0 <= j < fn.ins ==> ListsAll(fn, conds[j], j, lists[j])
  }

  /** The first |lists[j]| entries of each column from `from` on. */
  ghost predicate Columns(pairs: array2<Pair>, indices: Index, lists: seq<seq<Pair>>, from: nat)
    reads pairs, indices.size
  {
    && |lists| == pairs.Length1 == indices.size.Length && pairs.Length0 == 64
    && forall j :: from <= j < |lists| ==> |lists[j]| <= 64 && indices.size[j] == |lists[j]| && Column(pairs, j, lists[j])
  }

  method SetupPairs(fn: Func, data: BitsliceData, pairs: array2<Pair>, indices: Index)
    returns (ok: bool, ghost lists: seq<seq<Pair>>)
    requires fn.Valid() && data.Valid(fn)
    requires pairs.Length0 == 64 && pairs.Length1 == fn.ins == indices.size.Length
    modifies pairs, indices.size
    ensures !ok ==> exists j :: 0 <= j < fn.ins && data.Conditions(fn)[j] == {}
    ensures ok ==> ListsInputs(fn, data.Conditions(fn), lists) && Columns(pairs, indices, lists, 0)
    ensures ok ==> forall j :: 0 <= j < fn.ins ==> indices.size[j] > 0
  {
    hide ListsAll, BitsliceData.GetCondition, Func.Base;
    lists := seq(fn.ins, i => []);
    for j: nat := fn.ins downto 0
      invariant |lists| == fn.ins
      invariant forall k :: j <= k < fn.ins ==> ListsAll(fn, data.Conditions(fn)[k], k, lists[k])
      invariant Columns(pairs, indices, lists, j)
      invariant forall k :: j <= k < fn.ins ==> indices.size[k] > 0
    {
      var cond := data.GetCondition(fn, j);
      ghost var l := FillColumn(fn, cond, j, pairs, indices);
      lists := lists[j := l];
      if indices.size[j] == 0 {
        EmptyList(fn, data, j);
        return false, lists;
      }
    }
    return true, lists;
  }

  lemma EmptyList(fn: Func, data: BitsliceData, j: nat)
    requires fn.Valid() && data.Valid(fn) && j < fn.Slots() && ListsAll(fn, data.Conditions(fn)[j], j, [])
    ensures data.Conditions(fn)[j] == {}
  {
    hide BitsliceData.GetCondition, ListsAll;
    var c := data.Conditions(fn)[j];
    if c != {} {
      var v :| v in c;
      data.ConditionsFit(fn);
      ListedCode(fn, data.Conditions(fn), j, [], v);
    }
  }

  lemma ListedCode(fn: Func, conds: seq<Cond>, j: nat, l: seq<Pair>, v: nat)
    requires fn.Valid() && |conds| == fn.Slots() && fn.Fits(conds) && j < fn.Slots() && ListsAll(fn, conds[j], j, l)
    requires v in conds[j]
    ensures fn.Decode(j, v) in l
  {
    CodeDecode(fn, j, v);
  }

  // ---- combinations ----

  ghost function Chosen(lists: seq<seq<Pair>>, w: seq<nat>): (r: seq<Pair>)
    requires |w| == |lists| && forall j :: 0 <= j < |w| ==> w[j] < |lists[j]|
    ensures |r| == |lists|
  {
    seq(|w|, j requires 0 <= j < |w| => lists[j][w[j]])
  }

  function Sizes(lists: seq<seq<Pair>>): (r: seq<nat>)
    ensures |r| == |lists| && forall j :: 0 <= j < |r| ==> r[j] == |lists[j]|
  {
    seq(|lists|, j requires 0 <= j < |lists| => |lists[j]|)
  }

  function Firsts(x: seq<Pair>): (r: seq<nat>)
    ensures |r| == |x| && forall j :: 0 <= j < |r| ==> r[j] == x[j].first
  {
    seq(|x|, j requires 0 <= j < |x| => x[j].first)
  }

  function Seconds(x: seq<Pair>): (r: seq<nat>)
    ensures |r| == |x| && forall j :: 0 <= j < |r| ==> r[j] == x[j].second
  {
    seq(|x|, j requires 0 <= j < |x| => x[j].second)
  }

  ghost predicate InputsInBase(fn: Func, x: seq<Pair>)
    requires fn.Valid()
  {
    |x| == fn.ins && forall j :: 0 <= j < |x| ==> InBase(fn, j, x[j])
  }

  /** The inputs followed by the outputs of the function, in both messages. */
  function Whole(fn: Func, x: seq<Pair>): (r: seq<Pair>)
    requires fn.Valid() && InputsInBase(fn, x)
    ensures |r| == fn.Slots() && r[..fn.ins] == x
  {
    assert fn.InRange(Firsts(x)) && fn.InRange(Seconds(x));
    var y, z := fn.f(Firsts(x)), fn.f(Seconds(x));
    x + seq(fn.outs, j requires 0 <= j < fn.outs => Pair(y[j], z[j]))
  }

  function Codes(fn: Func, x: seq<Pair>): (r: seq<nat>)
    requires |x| <= |fn.bitsize|
    ensures |r| == |x| && forall i :: 0 <= i < |r| ==> r[i] == fn.Code(i, x[i])
  {
    seq(|x|, i requires 0 <= i < |x| => fn.Code(i, x[i]))
  }

  function Decoded(fn: Func, t: seq<nat>): (r: seq<Pair>)
    requires |t| <= |fn.bitsize|
    ensures |r| == |t| && forall i :: 0 <= i < |r| ==> r[i] == fn.Decode(i, t[i])
  {
    seq(|t|, i requires 0 <= i < |t| => fn.Decode(i, t[i]))
  }

  /** Every combination of input pairs gives a solution. */
  lemma WholeRelated(fn: Func, x: seq<Pair>)
    requires fn.Valid() && InputsInBase(fn, x)
    ensures Rel(fn, Codes(fn, Whole(fn, x)))
  {
    WholeInRange(fn, x);
    WholeMessage(fn, x, false);
    WholeMessage(fn, x, true);
    hide Message, Codes, Whole, Func.Valid, Func.Code, Func.Base, Firsts, Seconds;
  }

  lemma WholeInRange(fn: Func, x: seq<Pair>)
    requires fn.Valid() && InputsInBase(fn, x)
    ensures var t := Codes(fn, Whole(fn, x));
            forall i :: 0 <= i < |t| ==> t[i] < fn.Base(i) * fn.Base(i) && fn.Decode(i, t[i]) == Whole(fn, x)[i]
  {
    hide Func.Code, Func.Decode, Func.Base;
    WholeInBase(fn, x);
    var whole := Whole(fn, x);
    hide Whole, Func.Valid;
    forall i | 0 <= i < |whole|
      ensures fn.Code(i, whole[i]) < fn.Base(i) * fn.Base(i) && fn.Decode(i, fn.Code(i, whole[i])) == whole[i]
    {
      DecodeCode(fn, i, whole[i]);
    }
  }

  /** One message of a combination: its inputs and the outputs of the function. */
  lemma WholeMessage(fn: Func, x: seq<Pair>, second: bool)
    requires fn.Valid() && InputsInBase(fn, x)
    ensures var msg := Message(fn, Codes(fn, Whole(fn, x)), second);
            msg[..fn.ins] == (if second then Seconds(x) else Firsts(x))
            && msg[fn.ins..] == fn.f(if second then Seconds(x) else Firsts(x))
  {
    WholeInRange(fn, x);
    WholeOutputs(fn, x);
    var whole := Whole(fn, x);
    var msg := Message(fn, Codes(fn, whole), second);
    hide Func.Code, Func.Decode, Func.Base, Whole, Func.Valid;
    assert forall i :: 0 <= i < |whole| ==> msg[i] == if second then whole[i].second else whole[i].first;
    hide Message, Codes;
    var inputs, outputs := if second then Seconds(x) else Firsts(x), fn.f(if second then Seconds(x) else Firsts(x));
    assert forall i :: 0 <= i < fn.ins ==> whole[i] == whole[..fn.ins][i];
    assert msg[..fn.ins] == inputs;
    forall j | 0 <= j < fn.outs ensures msg[fn.ins + j] == outputs[j] {
    }
    assert msg[fn.ins..] == outputs;
  }

  lemma WholeOutputs(fn: Func, x: seq<Pair>)
    requires fn.Valid() && InputsInBase(fn, x)
    ensures |fn.f(Firsts(x))| == |fn.f(Seconds(x))| == fn.outs
    ensures forall j :: 0 <= j < fn.outs ==> Whole(fn, x)[fn.ins + j] == Pair(fn.f(Firsts(x))[j], fn.f(Seconds(x))[j])
  {
    assert fn.InRange(Firsts(x)) && fn.InRange(Seconds(x));
    hide Func.Base;
  }

  lemma WholeInBase(fn: Func, x: seq<Pair>)
    requires fn.Valid() && InputsInBase(fn, x)
    ensures forall i :: 0 <= i < fn.Slots() ==> InBase(fn, i, Whole(fn, x)[i])
  {
    hide Func.Base;
    assert fn.InRange(Firsts(x)) && fn.InRange(Seconds(x));
    var y, z := fn.f(Firsts(x)), fn.f(Seconds(x));
    assert fn.FitsOut(y) && fn.FitsOut(z);
    forall i | 0 <= i < fn.Slots() ensures InBase(fn, i, Whole(fn, x)[i]) {
      if i >= fn.ins {
        assert Whole(fn, x)[i] == Pair(y[i - fn.ins], z[i - fn.ins]);
        assert fn.ins + (i - fn.ins) == i;
      } else {
        assert Whole(fn, x)[i] == x[i];
      }
    }
  }

  /** Every solution is the combination of its input pairs. */
  lemma RelatedWhole(fn: Func, t: seq<nat>)
    requires fn.Valid() && Rel(fn, t)
    ensures InputsInBase(fn, Decoded(fn, t[..fn.ins]))
    ensures Codes(fn, Whole(fn, Decoded(fn, t[..fn.ins]))) == t
  {
    hide Func.Code, Func.Decode, Func.Base;
    var x := Decoded(fn, t[..fn.ins]);
    forall i | 0 <= i < |t| ensures InBase(fn, i, fn.Decode(i, t[i])) && fn.Code(i, fn.Decode(i, t[i])) == t[i] {
      CodeDecode(fn, i, t[i]);
    }
    assert Message(fn, t, false)[..fn.ins] == Firsts(x);
    assert Message(fn, t, true)[..fn.ins] == Seconds(x);
    assert Message(fn, t, false)[fn.ins..] == fn.f(Firsts(x));
    assert Message(fn, t, true)[fn.ins..] == fn.f(Seconds(x));
    forall i | 0 <= i < |t| ensures Whole(fn, x)[i] == fn.Decode(i, t[i]) {
      if i >= fn.ins {
        assert Message(fn, t, false)[i] == fn.f(Firsts(x))[i - fn.ins];
        assert Message(fn, t, true)[i] == fn.f(Seconds(x))[i - fn.ins];
        assert fn.Decode(i, t[i]) == Pair(Message(fn, t, false)[i], Message(fn, t, true)[i]);
      }
    }
  }

  // ---- what has been collected ----

  lemma ListsLength(fn: Func, conds: seq<Cond>, lists: seq<seq<Pair>>)
    requires fn.Valid() && |conds| == fn.Slots() && ListsInputs(fn, conds, lists)
    ensures |lists| == |Sizes(lists)| == fn.ins
  {
  }

  /** The solution chosen by the combination `w`. */
  ghost function TupleAt(fn: Func, conds: seq<Cond>, lists: seq<seq<Pair>>, w: seq<nat>): (t: seq<nat>)
    requires fn.Valid() && |conds| == fn.Slots() && ListsInputs(fn, conds, lists) && InBox(w, Sizes(lists))
    ensures Rel(fn, t) && |t| == fn.Slots() && forall j :: 0 <= j < fn.ins ==> t[j] in conds[j]
  {
    var x := Chosen(lists, w);
    assert InputsInBase(fn, x) && forall j :: 0 <= j < fn.ins ==> fn.Code(j, x[j]) in conds[j] by {
      forall j | 0 <= j < fn.ins ensures InBase(fn, j, x[j]) && fn.Code(j, x[j]) in conds[j] {
        assert x[j] in lists[j];
      }
    }
    WholeRelated(fn, x);
    assert forall j :: 0 <= j < fn.ins ==> Whole(fn, x)[j] == Whole(fn, x)[..fn.ins][j];
    Codes(fn, Whole(fn, x))
  }

  ghost predicate Passes(fn: Func, conds: seq<Cond>, t: seq<nat>) {
    |t| == |conds| == fn.Slots() && forall j :: fn.ins <= j < |t| ==> t[j] in conds[j]
  }

  ghost predicate SeenBy(fn: Func, conds: seq<Cond>, lists: seq<seq<Pair>>, i: nat, v: nat, r: nat, w: seq<nat>)
    requires fn.Valid() && |conds| == fn.Slots() && ListsInputs(fn, conds, lists)
  {
    && InBox(w, Sizes(lists)) && Rank(w, Sizes(lists), fn.ins) < r && i < fn.Slots()
    && Passes(fn, conds, TupleAt(fn, conds, lists, w)) && TupleAt(fn, conds, lists, w)[i] == v
  }

  /** One of the first `r` combinations passes the outputs with value `v` in slot `i`. */
  ghost predicate Seen(fn: Func, conds: seq<Cond>, lists: seq<seq<Pair>>, i: nat, v: nat, r: nat)
    requires fn.Valid() && |conds| == fn.Slots() && ListsInputs(fn, conds, lists)
  {
    exists w :: SeenBy(fn, conds, lists, i, v, r, w)
  }

  ghost predicate Collected(fn: Func, conds: seq<Cond>, lists: seq<seq<Pair>>, out: seq<Cond>, r: nat)
    requires fn.Valid() && |conds| == fn.Slots() && ListsInputs(fn, conds, lists)
  {
    |out| == fn.Slots() && forall i, v: nat :: 0 <= i < fn.Slots() ==> (v in out[i] <==> Seen(fn, conds, lists, i, v, r))
  }

  function Added(out: seq<Cond>, t: seq<nat>): (r: seq<Cond>)
    requires |out| == |t|
    ensures |r| == |out|
  {
    seq(|out|, i requires 0 <= i < |out| => out[i] + {t[i]})
  }

  lemma CollectedStart(fn: Func, conds: seq<Cond>, lists: seq<seq<Pair>>)
    requires fn.Valid() && |conds| == fn.Slots() && ListsInputs(fn, conds, lists)
    ensures Collected(fn, conds, lists, Empties(fn.Slots()), 0)
  {
  }

  lemma SeenNext(fn: Func, conds: seq<Cond>, lists: seq<seq<Pair>>, i: nat, v: nat, w: seq<nat>)
    requires fn.Valid() && |conds| == fn.Slots() && ListsInputs(fn, conds, lists)
    requires InBox(w, Sizes(lists)) && i < fn.Slots()
    ensures Seen(fn, conds, lists, i, v, Rank(w, Sizes(lists), fn.ins) + 1) <==>
            || Seen(fn, conds, lists, i, v, Rank(w, Sizes(lists), fn.ins))
            || (Passes(fn, conds, TupleAt(fn, conds, lists, w)) && TupleAt(fn, conds, lists, w)[i] == v)
  {
    hide Func.Valid, ListsInputs, TupleAt, Passes, Rank;
    ListsLength(fn, conds, lists);
    var r := Rank(w, Sizes(lists), fn.ins);
    if Seen(fn, conds, lists, i, v, r + 1) {
      var u :| SeenBy(fn, conds, lists, i, v, r + 1, u);
      if Rank(u, Sizes(lists), fn.ins) == r {
        SameRank(u, w, Sizes(lists), fn.ins);
      } else {
        assert SeenBy(fn, conds, lists, i, v, r, u);
      }
    }
    if Seen(fn, conds, lists, i, v, r) {
      var u :| SeenBy(fn, conds, lists, i, v, r, u);
      assert SeenBy(fn, conds, lists, i, v, r + 1, u);
    }
    if Passes(fn, conds, TupleAt(fn, conds, lists, w)) && TupleAt(fn, conds, lists, w)[i] == v {
      assert SeenBy(fn, conds, lists, i, v, r + 1, w);
    }
  }

  lemma SameRank(u: seq<nat>, w: seq<nat>, sizes: seq<nat>, n: nat)
    requires InBox(u, sizes) && InBox(w, sizes) && n == |sizes| && Rank(u, sizes, n) == Rank(w, sizes, n)
    ensures u == w
  {
    RankInjective(u, w, sizes, n);
    assert u == u[..n] && w == w[..n];
  }

  /** Visiting one more combination. */
  lemma CollectedNext(fn: Func, conds: seq<Cond>, lists: seq<seq<Pair>>, out: seq<Cond>, w: seq<nat>)
    requires fn.Valid() && |conds| == fn.Slots() && ListsInputs(fn, conds, lists) && InBox(w, Sizes(lists))
    requires Collected(fn, conds, lists, out, Rank(w, Sizes(lists), fn.ins))
    ensures var t := TupleAt(fn, conds, lists, w);
            Collected(fn, conds, lists, if Passes(fn, conds, t) then Added(out, t) else out,
                      Rank(w, Sizes(lists), fn.ins) + 1)
  {
    hide Func.Valid, ListsInputs, TupleAt, Passes, Rank, Seen;
    ListsLength(fn, conds, lists);
    var t := TupleAt(fn, conds, lists, w);
    var next := if Passes(fn, conds, t) then Added(out, t) else out;
    forall i, v: nat | 0 <= i < fn.Slots()
      ensures v in next[i] <==> Seen(fn, conds, lists, i, v, Rank(w, Sizes(lists), fn.ins) + 1)
    {
      SeenNext(fn, conds, lists, i, v, w);
    }
  }

  /** After all combinations: every value that a slot takes over all allowed solutions, and no other. */
  lemma CollectedAll(fn: Func, conds: seq<Cond>, lists: seq<seq<Pair>>, out: seq<Cond>)
    requires fn.Valid() && |conds| == fn.Slots() && fn.Fits(conds) && ListsInputs(fn, conds, lists)
    requires Collected(fn, conds, lists, out, Weight(Sizes(lists), fn.ins))
    ensures out == Projected(fn, conds)
  {
    hide Func.Valid, Func.Fits, ListsInputs, TupleAt, Passes, Seen, Takes, Projected, Weight, Sizes;
    forall i | 0 <= i < fn.Slots() ensures out[i] == Projected(fn, conds)[i] {
      forall v: nat ensures v in out[i] <==> v in Projected(fn, conds)[i] {
        ProjectedAt(fn, conds, i, v);
        SeenTakes(fn, conds, lists, i, v);
      }
    }
  }

  lemma SeenTakes(fn: Func, conds: seq<Cond>, lists: seq<seq<Pair>>, i: nat, v: nat)
    requires fn.Valid() && |conds| == fn.Slots() && fn.Fits(conds) && ListsInputs(fn, conds, lists) && i < fn.Slots()
    ensures Seen(fn, conds, lists, i, v, Weight(Sizes(lists), fn.ins)) <==> Takes(fn, conds, i, v)
  {
    hide Func.Valid, Func.Fits, ListsInputs, TupleAt, Rel, Rank, Weight, Sizes;
    ListsLength(fn, conds, lists);
    var all := Weight(Sizes(lists), fn.ins);
    if Seen(fn, conds, lists, i, v, all) {
      var w :| SeenBy(fn, conds, lists, i, v, all, w);
      var t := TupleAt(fn, conds, lists, w);
      assert Rel(fn, t) && Allowed(conds, t) && t[i] == v;
    }
    if Takes(fn, conds, i, v) {
      var t :| Rel(fn, t) && Allowed(conds, t) && i < |t| && t[i] == v;
      var w := Choice(fn, conds, lists, t);
      RankBound(w, Sizes(lists), fn.ins);
      assert SeenBy(fn, conds, lists, i, v, all, w);
    }
  }

  function IndexOf<T(==)>(l: seq<T>, p: T): (k: nat)
    requires p in l
    ensures k < |l| && l[k] == p
  {
    if l[0] == p then 0 else 1 + IndexOf(l[1..], p)
  }

  /** The combination that chooses the solution `t`. */
  lemma Choice(fn: Func, conds: seq<Cond>, lists: seq<seq<Pair>>, t: seq<nat>) returns (w: seq<nat>)
    requires fn.Valid() && |conds| == fn.Slots() && fn.Fits(conds) && ListsInputs(fn, conds, lists)
    requires Rel(fn, t) && Allowed(conds, t)
    ensures InBox(w, Sizes(lists)) && TupleAt(fn, conds, lists, w) == t
  {
    hide ListsAll, Func.Decode, Func.Code, Whole, Func.Base;
    var x := Decoded(fn, t[..fn.ins]);
    forall j | 0 <= j < fn.ins ensures x[j] in lists[j] {
      ListedCode(fn, conds, j, lists[j], t[j]);
    }
    w := seq(fn.ins, j requires 0 <= j < fn.ins => IndexOf(lists[j], x[j]));
    assert Chosen(lists, w) == x;
    RelatedWhole(fn, t);
  }

  // ---- counting combinations ----

  /** The number of combinations of allowed input pairs. */
  function Combinations(fn: Func, conds: seq<Cond>): nat
    requires |conds| == fn.Slots()
  {
    Weight(seq(fn.ins, j requires 0 <= j < fn.ins => |conds[j]|), fn.ins)
  }

  lemma ListSize(fn: Func, conds: seq<Cond>, j: nat, l: seq<Pair>)
    requires fn.Valid() && |conds| == fn.Slots() && fn.Fits(conds) && j < fn.Slots() && ListsAll(fn, conds[j], j, l)
    ensures |l| == |conds[j]|
  {
    hide Func.Code, Func.Decode, Func.Base;
    var codes := set p | p in l :: fn.Code(j, p);
    assert forall p, q :: p in l && q in l && fn.Code(j, p) == fn.Code(j, q) ==> p == q by {
      forall p, q | p in l && q in l && fn.Code(j, p) == fn.Code(j, q) ensures p == q {
        DecodeCode(fn, j, p);
        DecodeCode(fn, j, q);
      }
    }
    CodesSize(fn, j, l);
    forall v ensures v in codes <==> v in conds[j] {
      if v in conds[j] {
        ListedCode(fn, conds, j, l, v);
        CodeDecode(fn, j, v);
      }
    }
    assert codes == conds[j];
  }

  lemma {:induction false} CodesSize(fn: Func, j: nat, l: seq<Pair>)
    requires j < |fn.bitsize|
    requires forall k, m :: 0 <= k < m < |l| ==> l[k] != l[m]
    requires forall p, q :: p in l && q in l && fn.Code(j, p) == fn.Code(j, q) ==> p == q
    ensures |set p | p in l :: fn.Code(j, p)| == |l|
  {
    hide Func.Code;
    if l != [] {
      var rest, last := l[..|l| - 1], l[|l| - 1];
      CodesSize(fn, j, rest);
      var codes := set p | p in rest :: fn.Code(j, p);
      assert fn.Code(j, last) !in codes;
      assert (set p | p in l :: fn.Code(j, p)) == codes + {fn.Code(j, last)};
    }
  }

  lemma CombinationsSize(fn: Func, conds: seq<Cond>, lists: seq<seq<Pair>>)
    requires fn.Valid() && |conds| == fn.Slots() && fn.Fits(conds) && ListsInputs(fn, conds, lists)
    ensures Weight(Sizes(lists), fn.ins) == Combinations(fn, conds)
  {
    hide ListsAll;
    forall j | 0 <= j < fn.ins ensures |lists[j]| == |conds[j]| {
      ListSize(fn, conds, j, lists[j]);
    }
    assert Sizes(lists) == seq(fn.ins, j requires 0 <= j < fn.ins => |conds[j]|);
  }

  /** An input slot that allows nothing: no combination, and nothing is collected. */
  lemma EmptyInput(fn: Func, conds: seq<Cond>, j: nat)
    requires fn.Valid() && |conds| == fn.Slots() && j < fn.ins && conds[j] == {}
    ensures Combinations(fn, conds) == 0
    ensures Projected(fn, conds) == Empties(fn.Slots())
  {
    hide Takes, Projected, Func.Valid;
    EmptyWheel(seq(fn.ins, j requires 0 <= j < fn.ins => |conds[j]|), fn.ins, j);
    forall i | 0 <= i < fn.Slots() ensures Projected(fn, conds)[i] == {} {
      forall v: nat ensures v !in Projected(fn, conds)[i] {
        ProjectedAt(fn, conds, i, v);
        NothingTaken(fn, conds, i, v, j);
      }
    }
  }

  lemma NothingTaken(fn: Func, conds: seq<Cond>, i: nat, v: nat, j: nat)
    requires fn.Valid() && |conds| == fn.Slots() && j < fn.ins && conds[j] == {}
    ensures !Takes(fn, conds, i, v)
  {
  }

  lemma {:induction false} EmptyWheel(size: seq<nat>, n: nat, j: nat)
    requires j < n <= |size| && size[j] == 0
    ensures Weight(size, n) == 0
  {
    if j < n - 1 {
      EmptyWheel(size, n - 1, j);
    }
  }

  // ---- the loop ----

  method GetPair(fn: Func, pairs: array2<Pair>, indices: Index, ghost lists: seq<seq<Pair>>) returns (x: seq<Pair>)
    requires fn.ins == pairs.Length1 == indices.val.Length && Columns(pairs, indices, lists, 0)
    requires InBox(indices.val[..], Sizes(lists))
    ensures x == Chosen(lists, indices.val[..])
  {
    x := [];
    for j: nat := 0 to fn.ins
      invariant |x| == j && forall k :: 0 <= k < j ==> x[k] == lists[k][indices.val[k]]
    {
      assert indices.val[j] == indices.val[..][j] < |lists[j]| && Column(pairs, j, lists[j]);
      x := x + [pairs[indices.val[j], j]];
    }
  }

  method IsPair(fn: Func, data: BitsliceData, t: seq<nat>) returns (isPair: bool)
    requires fn.Valid() && data.Valid(fn) && |t| == fn.Slots()
    ensures isPair == Passes(fn, data.Conditions(fn), t)
  {
    hide BitsliceData.GetCondition;
    isPair := true;
    for j: nat := 0 to fn.outs
      invariant isPair <==> forall k :: fn.ins <= k < fn.ins + j ==> t[k] in data.Conditions(fn)[k]
    {
      isPair := isPair && t[fn.ins + j] in data.GetCondition(fn, fn.ins + j);
    }
  }

  method Collect(fn: Func, output: BitsliceData, t: seq<nat>) returns (r: BitsliceData)
    requires fn.Valid() && output.Valid(fn) && |t| == fn.Slots() && Rel(fn, t)
    ensures r.Valid(fn) && r.Conditions(fn) == Added(output.Conditions(fn), t)
  {
    hide BitsliceData.GetCondition, BitsliceData.SetCondition, Rel, Func.Valid;
    r := output;
    for i: nat := 0 to fn.Slots()
      invariant r.Valid(fn)
      invariant r.Conditions(fn) == Added(output.Conditions(fn), t)[..i] + output.Conditions(fn)[i..]
    {
      assert r.Conditions(fn)[i] == output.Conditions(fn)[i];
      AddedFits(fn, r, t, i);
      var cond := r.GetCondition(fn, i) + {t[i]};
      r.SetConditions(fn, i, cond);
      r := r.SetCondition(fn, i, cond);
    }
  }

  lemma AddedFits(fn: Func, r: BitsliceData, t: seq<nat>, i: nat)
    requires fn.Valid() && r.Valid(fn) && i < fn.Slots() && Rel(fn, t)
    ensures |fn.bitsize| == fn.Slots() && forall k :: k in r.GetCondition(fn, i) + {t[i]} ==> k < Size(fn, i)
  {
    hide BitsliceData.GetCondition;
    r.GetBits(fn, i);
    SizeIsSquare(fn, i);
  }

  /** One pass of the loop: the current combination, the function, and the outputs if they are allowed. */
  method Visit(fn: Func, input: BitsliceData, pairs: array2<Pair>, indices: Index, ghost lists: seq<seq<Pair>>,
               output: BitsliceData) returns (r: BitsliceData)
    requires fn.Valid() && input.Valid(fn) && output.Valid(fn)
    requires fn.ins == pairs.Length1 == indices.val.Length && Columns(pairs, indices, lists, 0)
    requires ListsInputs(fn, input.Conditions(fn), lists) && InBox(indices.val[..], Sizes(lists))
    requires Collected(fn, input.Conditions(fn), lists, output.Conditions(fn), Rank(indices.val[..], Sizes(lists), fn.ins))
    ensures r.Valid(fn)
    ensures Collected(fn, input.Conditions(fn), lists, r.Conditions(fn), Rank(indices.val[..], Sizes(lists), fn.ins) + 1)
  {
    hide BitsliceData.GetCondition, BitsliceData.SetCondition, Func.Valid, Func.Base, ListsInputs, Collected, Rank, Weight,
      Passes, TupleAt, Rel, Whole;
    ghost var conds := input.Conditions(fn);
    ghost var w := indices.val[..];
    var x := GetPair(fn, pairs, indices, lists);
    ChosenFacts(fn, conds, lists, w);
    var t := Codes(fn, Whole(fn, x));
    CollectedNext(fn, conds, lists, output.Conditions(fn), w);
    var isPair := IsPair(fn, input, t);
    r := output;
    if isPair {
      r := Collect(fn, output, t);
    }
  }

  /** Visits every combination of allowed input pairs exactly once; the result is the exact projection. */
  method Loop(fn: Func, input: BitsliceData) returns (output: BitsliceData, size: nat)
    requires fn.Valid() && input.Valid(fn)
    ensures output.Valid(fn)
    ensures output.Conditions(fn) == Projected(fn, input.Conditions(fn))
    ensures size == Combinations(fn, input.Conditions(fn))
  {
    hide BitsliceData.GetCondition, BitsliceData.SetCondition, Func.Valid, Func.Base, ListsInputs, Collected, Rank, Weight,
      Passes, TupleAt, Rel, Blank, Whole;
    SlotCount(fn);
    BlankConditions(fn);
    input.ConditionsFit(fn);
    ghost var conds := input.Conditions(fn);
    output := Blank(fn);
    size := 0;
    var indices := new Index(fn.ins);
    var pairs := new Pair[64, fn.ins]((i, j) => Pair(0, 0));
    var ok, lists := SetupPairs(fn, input, pairs, indices);
    if !ok {
      ghost var j :| 0 <= j < fn.ins && conds[j] == {};
      EmptyInput(fn, conds, j);
      return;
    }
    CollectedStart(fn, conds, lists);
    CombinationsSize(fn, conds, lists);
    ghost var sizes := Sizes(lists);
    assert indices.size[..] == sizes;
    RankZero(indices.val[..], sizes, fn.ins);
    var more := true;
    while more
      invariant output.Valid(fn) && size <= Weight(sizes, fn.ins)
      invariant fresh(indices.val) && indices.size[..] == sizes && Columns(pairs, indices, lists, 0)
      invariant more ==> InBox(indices.val[..], sizes) && size == Rank(indices.val[..], sizes, fn.ins)
      invariant !more ==> size == Weight(sizes, fn.ins)
      invariant Collected(fn, conds, lists, output.Conditions(fn), size)
      decreases Weight(sizes, fn.ins) - size, more
    {
      output := Visit(fn, input, pairs, indices, lists, output);
      size := size + 1;
      RankBound(indices.val[..], sizes, fn.ins);
      more := indices.Increment();
    }
    CollectedAll(fn, conds, lists, output.Conditions(fn));
  }

  lemma ChosenFacts(fn: Func, conds: seq<Cond>, lists: seq<seq<Pair>>, w: seq<nat>)
    requires fn.Valid() && |conds| == fn.Slots() && ListsInputs(fn, conds, lists) && InBox(w, Sizes(lists))
    ensures |fn.bitsize| == fn.Slots() && |w| == fn.ins
    ensures InputsInBase(fn, Chosen(lists, w)) && Codes(fn, Whole(fn, Chosen(lists, w))) == TupleAt(fn, conds, lists, w)
  {
    var x := Chosen(lists, w);
    forall j | 0 <= j < fn.ins ensures InBase(fn, j, x[j]) {
      assert x[j] in lists[j];
    }
  }
}
