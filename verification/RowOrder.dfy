/** The rows of a matrix over GF(2) and their virtual-to-physical order (src/bit_matrix.h), permutations of that order
    (src/change.h) and what sorting it by pivot means (src/bit_matrix.cpp). */
module RowOrders {
  import opened Gf2

  /** A virtual row: the physical row it stands for and that row's pivot. */
  datatype Row = Row(index: nat, pivot: nat)

  /** A row at a place of the row order. */
  datatype Place = Place(at: nat, row: Row)

  /** Rows taken out of the row order and the places they were put back at. */
  datatype Permutation = Permutation(start: int, end: int, from: seq<Place>, to: seq<Place>)

  const NoPermutation := Permutation(0, 0, [], [])

  /** The contents of a `BitMatrix`. The inverse row map is determined by `row` (see `InverseUnique`). */
  datatype Matrix = Matrix(data: seq<set<nat>>, row: seq<Row>) {
    function Bits(i: nat): set<nat>
      requires i < |row| && row[i].index < |data|
    {
      data[row[i].index]
    }
  }

  ghost predicate DistinctIndices(row: seq<Row>) {
    forall i, j :: 0 <= i < j < |row| ==> row[i].index != row[j].index
  }

  ghost predicate Wf(m: Matrix, cols: nat) {
    && |m.data| == |m.row|
    && DistinctIndices(m.row)
    && (forall p :: 0 <= p < |m.data| ==> forall c :: c in m.data[p] ==> c < cols)
    && (forall i :: 0 <= i < |m.row| ==> m.row[i].index < |m.data|)
    && (forall i :: 0 <= i < |m.row| ==> m.row[i].pivot == PivotOf(m.data[m.row[i].index], cols))
  }

  ghost predicate IsInverse(rowinv: seq<nat>, row: seq<Row>) {
    && |rowinv| == |row|
    && forall i :: 0 <= i < |row| ==> row[i].index < |row| && rowinv[row[i].index] == i
  }

  ghost predicate Among(row: seq<Row>, was: seq<Row>) {
    forall i :: 0 <= i < |row| ==> row[i] in was
  }

  ghost predicate SortedByPivot(row: seq<Row>) {
    forall i, j :: 0 <= i < j < |row| ==> row[i].pivot <= row[j].pivot
  }

  /** Only rows in `changed` can have moved out of order, and only because their pivot grew. */
  ghost predicate OnlyGrown(row: seq<Row>, changed: set<nat>) {
    && (forall k :: k in changed ==> k < |row|)
    && forall j, k :: 0 <= j < k < |row| && j !in changed ==> row[j].pivot <= row[k].pivot
  }

  lemma WfDistinct(m: Matrix, cols: nat)
    requires Wf(m, cols)
    ensures DistinctIndices(m.row)
  {
  }

  lemma WfPivots(m: Matrix, cols: nat)
    requires Wf(m, cols)
    ensures forall i :: 0 <= i < |m.row| ==> m.row[i].pivot <= cols
  {
  }

  lemma InverseLength(rowinv: seq<nat>, row: seq<Row>)
    requires IsInverse(rowinv, row)
    ensures |rowinv| == |row|
  {
  }

  lemma GrownInside(row: seq<Row>, changed: set<nat>)
    requires OnlyGrown(row, changed)
    ensures forall k :: k in changed ==> k < |row|
  {
  }

  lemma ReorderedWf(m: Matrix, cols: nat, row: seq<Row>)
    requires Wf(m, cols) && |row| == |m.row| && DistinctIndices(row) && Among(row, m.row)
    ensures Wf(Matrix(m.data, row), cols)
  {
    forall i | 0 <= i < |row|
      ensures row[i].index < |m.data| && row[i].pivot == PivotOf(m.data[row[i].index], cols)
    {
      assert row[i] in m.row;
    }
  }

  /** `OnlyGrown` is what is left of a sorted list after pivots of changed rows have grown. */
  lemma GrownFromSorted(was: seq<Row>, row: seq<Row>, changed: set<nat>)
    requires |was| == |row| && SortedByPivot(was)
    requires forall k :: k in changed ==> k < |row|
    requires forall k :: 0 <= k < |row| ==> was[k].pivot <= row[k].pivot
    requires forall k :: 0 <= k < |row| && k !in changed ==> was[k].pivot == row[k].pivot
    ensures OnlyGrown(row, changed)
  {
    forall j, k | 0 <= j < k < |row| && j !in changed ensures row[j].pivot <= row[k].pivot {
      assert was[j].pivot <= was[k].pivot;
    }
  }

  lemma InverseUnique(row: seq<Row>, a: seq<nat>, b: seq<nat>)
    requires DistinctIndices(row)
    requires IsInverse(a, row) && IsInverse(b, row)
    ensures a == b
  {
    forall p | 0 <= p < |row| ensures a[p] == b[p] {
      var i := RowOf(row, p);
    }
  }

  /** Every physical row is some virtual row. */
  lemma RowOf(row: seq<Row>, p: nat) returns (i: nat)
    requires DistinctIndices(row) && p < |row|
    requires forall i :: 0 <= i < |row| ==> row[i].index < |row|
    ensures i < |row| && row[i].index == p
  {
    var s: seq<nat> := seq(|row|, i requires 0 <= i < |row| => row[i].index);
    Pigeonhole(s, |row|);
    assert p in s;
    i :| 0 <= i < |s| && s[i] == p;
  }

  // ---- adding a set of columns to one row ----

  /** Row `i` becomes its sum with `s`, with the pivot recomputed. */
  function XorInto(m: Matrix, cols: nat, i: nat, s: set<nat>): Matrix
    requires i < |m.row| && m.row[i].index < |m.data|
  {
    var p := m.row[i].index;
    var v := Xor(m.data[p], s);
    Matrix(m.data[p := v], m.row[i := Row(p, PivotOf(v, cols))])
  }

  /** The pivot that is stored when columns from `first` on were flipped: it is computed only when it was `first`. */
  function StoredPivot(pivot: nat, first: nat, after: set<nat>, cols: nat): nat {
    if pivot > first then first else if pivot == first then PivotOf(after, cols) else pivot
  }

  /** It is the true pivot unless the first column has a larger pivot and cancels out. */
  lemma StoredPivotRight(s: set<nat>, cols: nat, e: seq<nat>)
    requires (forall c :: c in s ==> c < cols) && e != [] && NonDescending(e) && e[|e| - 1] < cols
    ensures var after := Xor(s, Toggled(e));
      && (forall c :: c in after ==> c < cols)
      && (StoredPivot(PivotOf(s, cols), e[0], after, cols) == PivotOf(after, cols) <==>
          PivotOf(s, cols) <= e[0] || multiset(e)[e[0]] % 2 == 1)
  {
    var t := Toggled(e);
    ToggledInside(e);
    ToggledOdd(e, e[0]);
    var after := Xor(s, t);
    if PivotOf(s, cols) < e[0] {
      PivotUnique(after, cols, PivotOf(s, cols));
    } else if PivotOf(s, cols) > e[0] && e[0] in t {
      PivotUnique(after, cols, e[0]);
    }
  }

  /** A column given twice leaves an empty row empty, but its pivot is stored. */
  lemma RepeatedColumn(c: nat, cols: nat)
    requires c < cols
    ensures NonDescending([c, c]) && Xor({}, Toggled([c, c])) == {}
    ensures PivotOf({}, cols) == cols && StoredPivot(cols, c, {}, cols) == c
  {
    assert [c, c][..1] == [c] && [c][..0] == [];
    assert Toggled([c]) == {c};
    PivotUnique({}, cols, cols);
  }

  lemma XorIntoWf(m: Matrix, cols: nat, i: nat, s: set<nat>)
    requires Wf(m, cols) && i < |m.row|
    requires forall c :: c in s ==> c < cols
    ensures Wf(XorInto(m, cols, i, s), cols)
    ensures forall j :: 0 <= j < |m.row| ==>
      XorInto(m, cols, i, s).Bits(j) == if j == i then Xor(m.Bits(i), s) else m.Bits(j)
  {
  }

  /** The bookkeeping after the columns of `e` were flipped in row `i`. */
  lemma XorRowValid(m: Matrix, cols: nat, i: nat, e: seq<nat>, after: Matrix)
    requires Wf(m, cols) && i < |m.row| && e != [] && NonDescending(e) && e[|e| - 1] < cols
    requires m.row[i].index < |m.data| && after.data == m.data[m.row[i].index := Xor(m.Bits(i), Toggled(e))]
    requires after.row == m.row[i := Row(m.row[i].index,
                                         StoredPivot(m.row[i].pivot, e[0], Xor(m.Bits(i), Toggled(e)), cols))]
    ensures Wf(after, cols) <==> m.row[i].pivot <= e[0] || multiset(e)[e[0]] % 2 == 1
    ensures Ascending(e) ==> Wf(after, cols) && after == XorInto(m, cols, i, Columns(e))
    ensures Ascending(e) ==> (m.row[i].pivot >= e[0] <==> m.row[i].pivot != after.row[i].pivot)
  {
    StoredPivotRight(m.Bits(i), cols, e);
    ToggledInside(e);
    ToggledOdd(e, e[0]);
    XorIntoWf(m, cols, i, Toggled(e));
    if Ascending(e) {
      ToggledOnce(e);
      assert e[0] in Columns(e);
    }
    hide PivotOf, Xor, Ascending, NonDescending, Toggled;
    if StoredPivot(m.row[i].pivot, e[0], Xor(m.Bits(i), Toggled(e)), cols) == PivotOf(Xor(m.Bits(i), Toggled(e)), cols) {
      assert after == XorInto(m, cols, i, Toggled(e));
    } else {
      assert after.row[i].pivot != PivotOf(after.data[after.row[i].index], cols);
    }
  }

  lemma XorIntoTwice(m: Matrix, cols: nat, i: nat, s: set<nat>)
    requires Wf(m, cols) && i < |m.row|
    requires forall c :: c in s ==> c < cols
    ensures XorInto(XorInto(m, cols, i, s), cols, i, s) == m
  {
    XorIntoWf(m, cols, i, s);
    XorTwice(m.Bits(i), s);
    var p := m.row[i].index;
    var n := XorInto(XorInto(m, cols, i, s), cols, i, s);
    assert n.data == m.data;
    assert n.row == m.row;
  }

  // ---- moving rows ----

  function Keys(l: seq<Place>): set<nat> {
    set i | 0 <= i < |l| :: l[i].at
  }

  ghost predicate AscendingKeys(l: seq<Place>) {
    forall i, j :: 0 <= i < j < |l| ==> l[i].at < l[j].at
  }

  /** The rows in `[lo, hi)` whose position is not in `out`, in order. */
  function Rest(row: seq<Row>, out: set<nat>, lo: nat, hi: nat): seq<Row>
    requires lo <= hi <= |row|
    decreases hi - lo
  {
    if lo == hi then []
    else if hi - 1 in out then Rest(row, out, lo, hi - 1)
    else Rest(row, out, lo, hi - 1) + [row[hi - 1]]
  }

  function ToMap(l: seq<Place>): map<nat, Row> {
    if l == [] then map[] else ToMap(l[..|l| - 1])[l[|l| - 1].at := l[|l| - 1].row]
  }

  /** The row list of length `n` that has `at` at its keys and `rest`, in order, everywhere else. */
  function Rebuild(n: nat, at: map<nat, Row>, rest: seq<Row>): seq<Row>
    decreases n
  {
    if n == 0 then []
    else if n - 1 in at then Rebuild(n - 1, at, rest) + [at[n - 1]]
    else if rest == [] then Rebuild(n - 1, at, []) + [Row(0, 0)]
    else Rebuild(n - 1, at, rest[..|rest| - 1]) + [rest[|rest| - 1]]
  }

  /** The rows at `from` are taken out, the others close up around the places of `to`, which are filled. */
  function PermuteRows(row: seq<Row>, from: seq<Place>, to: seq<Place>): seq<Row> {
    Rebuild(|row|, ToMap(to), Rest(row, Keys(from), 0, |row|))
  }

  lemma {:induction false} ToMapOf(l: seq<Place>)
    requires AscendingKeys(l)
    ensures ToMap(l).Keys == Keys(l)
    ensures forall i :: 0 <= i < |l| ==> l[i].at in ToMap(l) && ToMap(l)[l[i].at] == l[i].row
  {
    if l != [] {
      var k := l[..|l| - 1];
      ToMapOf(k);
      KeysLast(l);
      hide Keys;
      assert forall i :: 0 <= i < |k| ==> k[i] == l[i] && l[i].at != l[|l| - 1].at;
    }
  }

  lemma KeysLast(l: seq<Place>)
    requires l != []
    ensures Keys(l) == Keys(l[..|l| - 1]) + {l[|l| - 1].at}
  {
    assert l == l[..|l| - 1] + [l[|l| - 1]];
  }

  lemma {:induction false} RestSplit(row: seq<Row>, out: set<nat>, lo: nat, mid: nat, hi: nat)
    requires lo <= mid <= hi <= |row|
    ensures Rest(row, out, lo, hi) == Rest(row, out, lo, mid) + Rest(row, out, mid, hi)
    decreases hi
  {
    if mid < hi {
      RestSplit(row, out, lo, mid, hi - 1);
    }
  }

  lemma {:induction false} RestSame(a: seq<Row>, outA: set<nat>, b: seq<Row>, outB: set<nat>, lo: nat, hi: nat)
    requires lo <= hi <= |a| && hi <= |b|
    requires forall i :: lo <= i < hi ==> a[i] == b[i] && (i in outA <==> i in outB)
    ensures Rest(a, outA, lo, hi) == Rest(b, outB, lo, hi)
    decreases hi
  {
    if lo < hi {
      RestSame(a, outA, b, outB, lo, hi - 1);
    }
  }

  lemma {:induction false} RebuildPrefix(row: seq<Row>, at: map<nat, Row>, n: nat)
    requires n <= |row|
    requires forall k :: k in at && k < n ==> row[k] == at[k]
    ensures Rebuild(n, at, Rest(row, at.Keys, 0, n)) == row[..n]
  {
    if n > 0 {
      RebuildPrefix(row, at, n - 1);
      var r := Rest(row, at.Keys, 0, n);
      if n - 1 !in at {
        assert r[..|r| - 1] == Rest(row, at.Keys, 0, n - 1);
      }
      assert row[..n] == row[..n - 1] + [row[n - 1]];
    }
  }

  /** A row list with `to` at its places and the rows of `was` outside `from` elsewhere is the permuted one. */
  lemma IsPermuted(was: seq<Row>, row: seq<Row>, from: seq<Place>, to: seq<Place>)
    requires |row| == |was|
    requires AscendingKeys(to)
    requires forall i :: 0 <= i < |to| ==> to[i].at < |row| && row[to[i].at] == to[i].row
    requires Rest(row, Keys(to), 0, |row|) == Rest(was, Keys(from), 0, |was|)
    ensures PermuteRows(was, from, to) == row
  {
    ToMapOf(to);
    RebuildPrefix(row, ToMap(to), |row|);
    assert row[..|row|] == row;
  }

  function CountBelow(s: set<nat>, n: nat): nat {
    if n == 0 then 0 else CountBelow(s, n - 1) + if n - 1 in s then 1 else 0
  }

  lemma {:induction false} CountKeys(l: seq<Place>, n: nat)
    requires AscendingKeys(l)
    requires forall i :: 0 <= i < |l| ==> l[i].at < n
    ensures CountBelow(Keys(l), n) == |l|
  {
    if n > 0 {
      if l != [] && l[|l| - 1].at == n - 1 {
        var k := l[..|l| - 1];
        CountKeys(k, n - 1);
        assert forall c :: c < n - 1 ==> (c in Keys(k) <==> c in Keys(l)) by {
          assert l == k + [l[|l| - 1]];
        }
        CountSame(Keys(k), Keys(l), n - 1);
        assert l[|l| - 1].at in Keys(l);
      } else {
        CountKeys(l, n - 1);
        assert n - 1 !in Keys(l);
      }
    }
  }

  lemma {:induction false} CountSame(s: set<nat>, t: set<nat>, n: nat)
    requires forall c: nat :: c < n ==> (c in s <==> c in t)
    ensures CountBelow(s, n) == CountBelow(t, n)
  {
    if n > 0 {
      CountSame(s, t, n - 1);
    }
  }

  lemma {:induction false} RestLength(row: seq<Row>, out: set<nat>, n: nat)
    requires n <= |row|
    ensures |Rest(row, out, 0, n)| + CountBelow(out, n) == n
  {
    if n > 0 {
      RestLength(row, out, n - 1);
    }
  }

  lemma {:induction false} RebuildParts(n: nat, at: map<nat, Row>, rest: seq<Row>)
    requires |rest| + CountBelow(at.Keys, n) == n
    ensures |Rebuild(n, at, rest)| == n
    ensures Rest(Rebuild(n, at, rest), at.Keys, 0, n) == rest
    ensures forall k :: k in at && k < n ==> Rebuild(n, at, rest)[k] == at[k]
  {
    hide Rest;
    if n == 0 {
      RestNone(Rebuild(n, at, rest), at.Keys);
    } else if n - 1 in at {
      RebuildParts(n - 1, at, rest);
      RebuildStep(n - 1, at, rest, Rebuild(n - 1, at, rest), at[n - 1]);
    } else {
      CountAtMost(at.Keys, n - 1);
      var l := |rest| - 1;
      RebuildParts(n - 1, at, rest[..l]);
      RebuildStep(n - 1, at, rest[..l], Rebuild(n - 1, at, rest[..l]), rest[l]);
      assert rest == rest[..l] + [rest[l]];
    }
  }

  lemma RestNone(row: seq<Row>, out: set<nat>)
    ensures Rest(row, out, 0, 0) == []
  {
  }

  /** One more row at the end: a placed one, or the next of the rest. */
  lemma RebuildStep(n: nat, at: map<nat, Row>, rest: seq<Row>, row: seq<Row>, r: Row)
    requires |row| == n && Rest(row, at.Keys, 0, n) == rest && forall k :: k in at && k < n ==> row[k] == at[k]
    requires n in at ==> r == at[n]
    ensures Rest(row + [r], at.Keys, 0, n + 1) == if n in at then rest else rest + [r]
    ensures forall k :: k in at && k < n + 1 ==> (row + [r])[k] == at[k]
  {
    hide Rest;
    RestExtend(row, r, at.Keys);
  }

  lemma RestExtend(row: seq<Row>, r: Row, out: set<nat>)
    ensures Rest(row + [r], out, 0, |row| + 1) == Rest(row, out, 0, |row|) + if |row| in out then [] else [r]
  {
    RestSame(row + [r], out, row, out, 0, |row|);
  }

  lemma {:induction false} CountAtMost(s: set<nat>, n: nat)
    ensures CountBelow(s, n) <= n
  {
    if n > 0 {
      CountAtMost(s, n - 1);
    }
  }

  /** Rows are taken out at the places of `from` and the same rows are put back at the places of `to`. */
  ghost predicate Moves(row: seq<Row>, from: seq<Place>, to: seq<Place>) {
    && |from| == |to|
    && AscendingKeys(from) && AscendingKeys(to)
    && (forall i :: 0 <= i < |from| ==> from[i].at < |row| && from[i].row == row[from[i].at])
    && (forall i :: 0 <= i < |to| ==> to[i].at < |row|)
    && SameRows(from, to)
  }

  ghost predicate SameRows(from: seq<Place>, to: seq<Place>) {
    && HasRowsOf(from, to) && HasRowsOf(to, from)
    && DistinctRows(from) && DistinctRows(to)
  }

  ghost predicate HasRowsOf(l: seq<Place>, other: seq<Place>) {
    forall i :: 0 <= i < |other| ==> HasRow(l, other[i].row)
  }

  ghost predicate HasRow(l: seq<Place>, r: Row) {
    exists s :: 0 <= s < |l| && l[s].row == r
  }

  ghost predicate DistinctRows(l: seq<Place>) {
    forall i, j :: 0 <= i < j < |l| ==> l[i].row.index != l[j].row.index
  }

  /** Every row is put back at or after the place with the same number it was taken from. */
  ghost predicate Later(from: seq<Place>, to: seq<Place>) {
    && |from| == |to|
    && forall i :: 0 <= i < |from| ==> from[i].at <= to[i].at
  }

  /** The moved list has `to` at its places and the untouched rows, in order, elsewhere. */
  lemma PermuteParts(row: seq<Row>, from: seq<Place>, to: seq<Place>)
    requires Moves(row, from, to)
    ensures |PermuteRows(row, from, to)| == |row|
    ensures forall i :: 0 <= i < |to| ==> PermuteRows(row, from, to)[to[i].at] == to[i].row
    ensures Rest(PermuteRows(row, from, to), Keys(to), 0, |row|) == Rest(row, Keys(from), 0, |row|)
  {
    var n := |row|;
    ToMapOf(to);
    CountKeys(from, n);
    CountKeys(to, n);
    RestLength(row, Keys(from), n);
    RebuildParts(n, ToMap(to), Rest(row, Keys(from), 0, n));
    forall i | 0 <= i < |to| ensures PermuteRows(row, from, to)[to[i].at] == to[i].row {
      assert to[i].at in ToMap(to);
    }
  }

  /** Moving rows and moving them back is the identity, and the way back is again a move. */
  lemma PermuteBack(row: seq<Row>, from: seq<Place>, to: seq<Place>)
    requires Moves(row, from, to)
    ensures Moves(PermuteRows(row, from, to), to, from)
    ensures PermuteRows(PermuteRows(row, from, to), to, from) == row
  {
    PermuteParts(row, from, to);
    IsPermuted(PermuteRows(row, from, to), row, to, from);
  }

  // ---- which row comes where ----

  lemma {:induction false} RestAt(row: seq<Row>, out: set<nat>, j: nat, n: nat)
    requires j < n <= |row| && j !in out
    ensures CountBelow(out, j) <= j
    ensures j - CountBelow(out, j) < |Rest(row, out, 0, n)|
    ensures Rest(row, out, 0, n)[j - CountBelow(out, j)] == row[j]
  {
    CountAtMost(out, j);
    RestLength(row, out, n - 1);
    if j < n - 1 {
      RestAt(row, out, j, n - 1);
    }
  }

  lemma {:induction false} RestSource(row: seq<Row>, out: set<nat>, m: nat, n: nat) returns (j: nat)
    requires n <= |row| && m < |Rest(row, out, 0, n)|
    ensures j < n && j !in out && row[j] == Rest(row, out, 0, n)[m]
    ensures j == m + CountBelow(out, j)
  {
    RestLength(row, out, n - 1);
    if n - 1 in out || m < |Rest(row, out, 0, n)| - 1 {
      j := RestSource(row, out, m, n - 1);
    } else {
      j := n - 1;
    }
  }

  lemma {:induction false} CountPlaces(l: seq<Place>, w: nat, q: nat)
    requires AscendingKeys(l) && q <= |l|
    requires forall i :: 0 <= i < q ==> l[i].at < w
    requires forall i :: q <= i < |l| ==> w <= l[i].at
    ensures CountBelow(Keys(l), w) == q
  {
    CountKeys(l[..q], w);
    forall c: nat | c < w ensures c in Keys(l[..q]) <==> c in Keys(l) {
      if c in Keys(l) {
        var i :| 0 <= i < |l| && l[i].at == c;
        assert l[..q][i].at == c;
      }
    }
    CountSame(Keys(l[..q]), Keys(l), w);
  }

  /** The place of row `r` that stays is the one with as many staying rows before it. */
  lemma SamePlace(row: seq<Row>, from: seq<Place>, to: seq<Place>, w: nat, r: nat)
    requires Moves(row, from, to)
    requires w < |row| && r < |row| && w !in Keys(to) && r !in Keys(from)
    requires w - CountBelow(Keys(to), w) == r - CountBelow(Keys(from), r)
    ensures |PermuteRows(row, from, to)| == |row|
    ensures PermuteRows(row, from, to)[w] == row[r]
  {
    PermuteParts(row, from, to);
    RestAt(PermuteRows(row, from, to), Keys(to), w, |row|);
    RestAt(row, Keys(from), r, |row|);
  }

  lemma {:induction false} CountStep(s: set<nat>, i: nat, j: nat)
    requires i < j && i !in s
    ensures CountBelow(s, j) - CountBelow(s, i) < j - i
  {
    if i + 1 < j {
      CountStep(s, i, j - 1);
    }
  }

  /** Where the row now at `i` was before. */
  lemma Origin(row: seq<Row>, from: seq<Place>, to: seq<Place>, i: nat) returns (j: nat)
    requires Moves(row, from, to) && i < |row|
    ensures |PermuteRows(row, from, to)| == |row|
    ensures j < |row| && PermuteRows(row, from, to)[i] == row[j]
    ensures i in Keys(to) <==> j in Keys(from)
    ensures i !in Keys(to) ==> i - CountBelow(Keys(to), i) == j - CountBelow(Keys(from), j)
  {
    PermuteParts(row, from, to);
    if i in Keys(to) {
      var t :| 0 <= t < |to| && to[t].at == i;
      assert HasRow(from, to[t].row);
      var s :| 0 <= s < |from| && from[s].row == to[t].row;
      j := from[s].at;
    } else {
      RestAt(PermuteRows(row, from, to), Keys(to), i, |row|);
      j := RestSource(row, Keys(from), i - CountBelow(Keys(to), i), |row|);
    }
  }

  /** Moving rows keeps them different and adds none. */
  lemma PermuteKeeps(row: seq<Row>, from: seq<Place>, to: seq<Place>)
    requires Moves(row, from, to) && DistinctIndices(row)
    ensures |PermuteRows(row, from, to)| == |row|
    ensures DistinctIndices(PermuteRows(row, from, to)) && Among(PermuteRows(row, from, to), row)
  {
    PermuteParts(row, from, to);
    var target := PermuteRows(row, from, to);
    forall i | 0 <= i < |row| ensures target[i] in row {
      var j := Origin(row, from, to, i);
    }
    forall i, j | 0 <= i < j < |row| ensures target[i].index != target[j].index {
      DistinctPlaces(row, from, to, i, j);
    }
  }

  lemma DistinctPlaces(row: seq<Row>, from: seq<Place>, to: seq<Place>, i: nat, j: nat)
    requires Moves(row, from, to) && DistinctIndices(row) && i < j < |row|
    ensures |PermuteRows(row, from, to)| == |row|
    ensures PermuteRows(row, from, to)[i].index != PermuteRows(row, from, to)[j].index
  {
    var a := Origin(row, from, to, i);
    var b := Origin(row, from, to, j);
    if i in Keys(to) && j in Keys(to) {
      PermuteParts(row, from, to);
      var s :| 0 <= s < |to| && to[s].at == i;
      var t :| 0 <= t < |to| && to[t].at == j;
      assert s != t;
    } else if i !in Keys(to) && j !in Keys(to) {
      CountStep(Keys(to), i, j);
      assert a != b;
    }
  }

  /** A permutation that `SortByPivot` may record for `row`. */
  ghost predicate Recorded(row: seq<Row>, perm: Permutation) {
    && Moves(row, perm.from, perm.to)
    && Later(perm.from, perm.to)
    && (perm.from != [] ==> perm.start == perm.from[0].at)
    && (perm.to != [] ==> perm.to[|perm.to| - 1].at < perm.end <= |row|)
  }

  lemma NothingMoved(row: seq<Row>)
    ensures Recorded(row, NoPermutation)
    ensures PermuteRows(row, [], []) == row
    ensures OnlyGrown(row, {}) ==> SortedByPivot(row)
  {
    RestSame(row, {}, row, Keys([]), 0, |row|);
    IsPermuted(row, row, [], []);
  }

  /** A list that a recorded permutation has led to. */
  ghost predicate Recordable(row: seq<Row>, perm: Permutation) {
    && Moves(row, perm.to, perm.from)
    && Later(perm.from, perm.to)
    && (perm.from != [] ==> perm.start == perm.from[0].at)
    && (perm.to != [] ==> perm.to[|perm.to| - 1].at < perm.end <= |row|)
  }

  // ---- std::sort ----

  ghost predicate PermutedBy(sorted: seq<Row>, rows: seq<Row>, p: seq<nat>) {
    && |sorted| == |rows| == |p|
    && (forall i :: 0 <= i < |p| ==> p[i] < |rows| && sorted[i] == rows[p[i]])
    && (forall i, j :: 0 <= i < j < |p| ==> p[i] != p[j])
  }

  /** Sorts rows by pivot; rows with the same pivot may come in any order. */
  method SortRows(rows: seq<Row>) returns (sorted: seq<Row>, ghost p: seq<nat>)
    ensures SortedByPivot(sorted)
    ensures PermutedBy(sorted, rows, p)
  {
    sorted, p := [], [];
    for i := 0 to |rows|
      invariant SortedByPivot(sorted)
      invariant PermutedBy(sorted, rows[..i], p)
    {
      var k := i;
      while k > 0 && sorted[k - 1].pivot > rows[i].pivot
        invariant 0 <= k <= i
        invariant k < i ==> sorted[k].pivot > rows[i].pivot
      {
        k := k - 1;
      }
      InsertSorted(sorted, rows[i], k);
      InsertPermuted(sorted, rows, p, i, k);
      sorted, p := sorted[..k] + [rows[i]] + sorted[k..], p[..k] + [i] + p[k..];
    }
    assert rows[..|rows|] == rows;
  }

  lemma InsertSorted(sorted: seq<Row>, r: Row, k: nat)
    requires SortedByPivot(sorted) && k <= |sorted|
    requires k < |sorted| ==> sorted[k].pivot > r.pivot
    requires k > 0 ==> sorted[k - 1].pivot <= r.pivot
    ensures SortedByPivot(sorted[..k] + [r] + sorted[k..])
  {
    forall j | 0 <= j < k ensures sorted[j].pivot <= r.pivot {
      assert sorted[j].pivot <= sorted[k - 1].pivot;
    }
    forall j | k <= j < |sorted| ensures r.pivot <= sorted[j].pivot {
      assert sorted[k].pivot <= sorted[j].pivot;
    }
  }

  lemma InsertPermuted(sorted: seq<Row>, rows: seq<Row>, p: seq<nat>, i: nat, k: nat)
    requires i < |rows| && k <= i
    requires PermutedBy(sorted, rows[..i], p)
    ensures PermutedBy(sorted[..k] + [rows[i]] + sorted[k..], rows[..i + 1], p[..k] + [i] + p[k..])
  {
    var s, q := sorted[..k] + [rows[i]] + sorted[k..], p[..k] + [i] + p[k..];
    forall j | 0 <= j < |q| ensures q[j] < i + 1 && s[j] == rows[..i + 1][q[j]] {
      if j < k {
        assert q[j] == p[j] && s[j] == sorted[j];
      } else if j > k {
        assert q[j] == p[j - 1] && s[j] == sorted[j - 1];
      }
    }
    forall j, l | 0 <= j < l < |q| ensures q[j] != q[l] {
      assert q[j] == if j < k then p[j] else if j == k then i else p[j - 1];
      assert q[l] == if l < k then p[l] else if l == k then i else p[l - 1];
    }
  }

  /** If all rows from the k-th on have pivot at least `v`, so do the sorted rows from the k-th on. */
  lemma SortedTail(sorted: seq<Row>, rows: seq<Row>, p: seq<nat>, k: nat, v: nat)
    requires SortedByPivot(sorted) && PermutedBy(sorted, rows, p)
    requires forall i :: k <= i < |rows| ==> v <= rows[i].pivot
    ensures forall i :: k <= i < |sorted| ==> v <= sorted[i].pivot
  {
    forall i | k <= i < |sorted| ensures v <= sorted[i].pivot {
      if sorted[i].pivot < v {
        forall j | 0 <= j <= i ensures p[j] < k {
          assert sorted[j].pivot <= sorted[i].pivot;
        }
        Pigeonhole(p[..i + 1], k);
      }
    }
  }

  lemma PermutedOnto(sorted: seq<Row>, rows: seq<Row>, p: seq<nat>, i: nat) returns (j: nat)
    requires PermutedBy(sorted, rows, p) && i < |rows|
    ensures j < |p| && p[j] == i
  {
    Pigeonhole(p, |rows|);
    assert i in p;
    j :| 0 <= j < |p| && p[j] == i;
  }
}
