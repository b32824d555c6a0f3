/** The rows of a matrix over GF(2), reached through a virtual-to-physical row order that is kept
    sorted by pivot (src/bit_matrix.h, src/bit_matrix.cpp). */
module BitMatrices {
  import opened Gf2
  import opened RowOrders
  import opened MergePasses
  import opened Replays

  /** Number of rows that are not empty. */
  ghost function PivotRows(row: seq<Row>, cols: nat, n: nat): nat
    requires n <= |row|
  {
    if n == 0 then 0 else PivotRows(row, cols, n - 1) + if row[n - 1].pivot < cols then 1 else 0
  }

  class BitMatrix {
    const rows: nat
    const NOPIVOT: nat
    var data: seq<set<nat>>
    var row: seq<Row>
    var rowinv: seq<nat>

    ghost predicate Valid()
      reads this
    {
      && |row| == rows
      && Wf(View(), NOPIVOT)
      && IsInverse(rowinv, row)
    }

    ghost function View(): Matrix
      reads this
    {
      Matrix(data, row)
    }

    /** All rows are empty and in their physical order. */
    constructor (rows: nat, cols: nat)
      ensures Valid()
      ensures this.rows == rows && NOPIVOT == 64 * (cols / 64 + if cols % 64 > 0 then 1 else 0)
      ensures data == seq(rows, i => {})
      ensures row == seq(rows, (i: nat) => Row(i, NOPIVOT))
    {
      var n := 64 * (cols / 64 + if cols % 64 > 0 then 1 else 0);
      this.rows, NOPIVOT := rows, n;
      data := seq(rows, i => {});
      row := seq(rows, (i: nat) => Row(i, n));
      rowinv := seq(rows, i => i);
    }

    function GetPivot(i: nat): nat
      requires i < |row|
      reads this
    {
      row[i].pivot
    }

    predicate GetBit(i: nat, col: nat)
      requires i < |row| && row[i].index < |data|
      reads this
    {
      col in data[row[i].index]
    }

    /** The least set column of a physical row. */
    method ComputePivot(p: nat) returns (pivot: nat)
      requires p < |data|
      ensures pivot == PivotOf(data[p], NOPIVOT)
    {
      pivot := 0;
      while pivot < NOPIVOT && pivot !in data[p]
        invariant 0 <= pivot <= NOPIVOT
        invariant PivotOf(data[p], NOPIVOT) == FirstFrom(data[p], pivot, NOPIVOT)
      {
        pivot := pivot + 1;
      }
    }

    method XorBit(i: nat, col: nat) returns (changed: bool)
      requires Valid() && i < rows && col < NOPIVOT
      modifies this`data, this`row
      ensures Valid() && View() == XorInto(old(View()), NOPIVOT, i, {col})
      ensures changed <==> old(row[i].pivot) != row[i].pivot
    {
      ghost var m := View();
      var p := row[i].index;
      XorIntoWf(m, NOPIVOT, i, {col});
      data := data[p := Xor(data[p], {col})];
      changed := col <= row[i].pivot;
      if col < row[i].pivot {
        PivotUnique(data[p], NOPIVOT, col);
        row := row[i := Row(p, col)];
      } else if col == row[i].pivot {
        var pivot := ComputePivot(p);
        row := row[i := Row(p, pivot)];
      } else {
        PivotUnique(data[p], NOPIVOT, row[i].pivot);
      }
      assert View().row == XorInto(m, NOPIVOT, i, {col}).row;
    }

    /** Flips the columns of `equation` in virtual row `i`; says whether the pivot is at the first of them or later. The
        stored pivot is the true one exactly if it was not larger or the first column occurs an odd number of times. */
    method XorRow(i: nat, equation: seq<nat>) returns (changed: bool)
      requires Valid() && i < rows
      requires equation != [] && NonDescending(equation) && equation[|equation| - 1] < NOPIVOT
      modifies this`data, this`row
      ensures var p := old(row[i].index);
              && data == old(data)[p := Xor(old(data[p]), Toggled(equation))]
              && row == old(row)[i := Row(p, StoredPivot(old(row[i].pivot), equation[0], data[p], NOPIVOT))]
      ensures changed <==> old(row[i].pivot) >= equation[0]
      ensures Valid() <==> old(row[i].pivot) <= equation[0] || multiset(equation)[equation[0]] % 2 == 1
      ensures Ascending(equation) ==> Valid() && View() == XorInto(old(View()), NOPIVOT, i, Columns(equation))
      ensures Ascending(equation) ==> (changed <==> old(row[i].pivot) != row[i].pivot)
    {
      hide PivotOf, Xor, Ascending, NonDescending;
      ghost var m := View();
      var p := row[i].index;
      changed := row[i].pivot >= equation[0];
      XorNone(data[p]);
      for k := 0 to |equation|
        invariant row == m.row
        invariant data == m.data[p := Xor(m.data[p], Toggled(equation[..k]))]
      {
        assert equation[..k + 1][..k] == equation[..k];
        XorNext(m.data[p], Toggled(equation[..k]), {equation[k]});
        data := data[p := Xor(data[p], {equation[k]})];
      }
      assert equation[..|equation|] == equation;
      if changed {
        if row[i].pivot == equation[0] {
          var pivot := ComputePivot(p);
          row := row[i := Row(p, pivot)];
        } else {
          row := row[i := Row(p, equation[0])];
        }
      }
      XorRowValid(m, NOPIVOT, i, equation, View());
    }

    /** Adds virtual row `b` to virtual row `a`; says whether the pivot of `a` may have moved. */
    method XorRowtoRow(a: nat, b: nat) returns (changed: bool)
      requires Valid() && a < rows && b < rows
      modifies this`data, this`row
      ensures Valid() && View() == XorInto(old(View()), NOPIVOT, a, old(View()).Bits(b))
      ensures changed <==> old(row[b].pivot <= row[a].pivot)
      ensures !changed ==> row == old(row)
    {
      ghost var m := View();
      var e := data[row[b].index];
      var p := row[a].index;
      XorIntoWf(m, NOPIVOT, a, e);
      data := data[p := Xor(data[p], e)];
      changed := row[b].pivot <= row[a].pivot;
      if row[b].pivot < row[a].pivot {
        PivotUnique(data[p], NOPIVOT, row[b].pivot);
        row := row[a := Row(p, row[b].pivot)];
      } else if row[a].pivot == row[b].pivot {
        var pivot := ComputePivot(p);
        row := row[a := Row(p, pivot)];
      } else {
        PivotUnique(data[p], NOPIVOT, row[a].pivot);
      }
      assert View().row == XorInto(m, NOPIVOT, a, e).row;
    }

    /** Re-sorts the rows after the pivots of the rows in `changed` have grown: the rows in `changed` are
        taken out, sorted, and merged back in place with the rows that stay. */
    method SortByPivot(changed: set<nat>) returns (perm: Permutation)
      requires Valid() && OnlyGrown(row, changed)
      modifies this`row, this`rowinv
      ensures Valid() && SortedByPivot(row)
      ensures Recorded(old(row), perm)
      ensures row == PermuteRows(old(row), perm.from, perm.to)
    {
      hide Lists, Pass.Merged, Recorded, PermutedBy, Wf, DistinctIndices, IsInverse, SortedByPivot, OnlyGrown, Among;
      hide InOrder, PermuteRows;
      var was := row;
      ghost var wasinv := rowinv;
      if changed == {} {
        NothingMoved(row);
        return NoPermutation;
      }
      WfDistinct(View(), NOPIVOT);
      var f := InOrder(changed, rows);
      GrownInside(row, changed);
      InverseLength(rowinv, row);
      InOrderLists(changed, rows);
      Listed(f, changed);
      var fromRows := seq(|f|, i requires 0 <= i < |f| => was[f[i]]);
      var from := seq(|f|, i requires 0 <= i < |f| => Place(f[i], was[f[i]]));
      var toRow, p := SortRows(fromRows);
      ghost var pass := Pass(was, wasinv, changed, f, fromRows, toRow, p);
      assert Extracted(was, wasinv, changed, f, fromRows, toRow, p);
      var to, end := Merge(f, toRow, pass);
      pass.Result(from, to, row, rowinv, end);
      ReorderedWf(old(View()), NOPIVOT, row);
      perm := Permutation(f[0], end, from, to);
    }

    /** The merge pass. A row is written only at a place that has been read already. */
    method Merge(f: seq<nat>, toRow: seq<Row>, ghost pass: Pass) returns (to: seq<Place>, w: nat)
      requires PassOver(pass) && pass.was == row && pass.wasinv == rowinv && pass.f == f && pass.toRow == toRow
      requires |row| == |rowinv| == rows && |toRow| == |f| && f != [] && f[0] < rows
      modifies this`row, this`rowinv
      ensures pass.Merged(row, rowinv, to, w)
    {
      hide Extracted, Pass.Merging, Pass.Merged;
      var r: nat, k: nat, q: nat := f[0], 0, 0;
      w, to := f[0], [];
      ghost var src: map<nat, nat> := Identity(From(0, f[0], {}));
      pass.Start();
      pass.ToRows();
      while w != rows && q != |f|
        invariant Counted(f, rows, w, r, k, q) && |row| == |rowinv| == rows && |to| == q
        invariant pass.Merging(row, rowinv, src, to, w, r, k, q)
      {
        if w == r && k != |f| {
          pass.Skip(row, rowinv, src, to, w, k, q);
          src := src + Identity(From(r, f[k], pass.out));
          w := f[k];
          r := w;
        }
        while k != |f| && r == f[k]
          invariant Counted(f, rows, w, r, k, q) && |row| == |rowinv| == rows && |to| == q
          invariant pass.Merging(row, rowinv, src, to, w, r, k, q)
          invariant q < k || (k < |f| && r == f[k])
        {
          pass.TakeOut(row, rowinv, src, to, w, r, k, q);
          k, r := k + 1, r + 1;
        }
        if r == rows || toRow[q].pivot <= row[r].pivot {
          pass.PutBack(row, rowinv, src, to, w, r, k, q);
          assert toRow[q].index < rows;
          src := src[w := pass.wasinv[toRow[q].index]];
          row := row[w := toRow[q]];
          to := to + [Place(w, toRow[q])];
          q := q + 1;
        } else {
          pass.MoveUp(row, rowinv, src, to, w, r, k, q);
          assert row[r].index < rows;
          src := src[w := r];
          row := row[w := row[r]];
          r := r + 1;
        }
        rowinv := rowinv[row[w].index := w];
        w := w + 1;
      }
      pass.Finish(row, rowinv, src, to, w, r, k, q);
    }

    /** Replays a recorded permutation, or takes it back. */
    method ApplyPermutation(perm: Permutation, inverse: bool)
      requires Valid()
      requires !inverse ==> Recorded(row, perm)
      requires inverse ==> Recordable(row, perm)
      modifies this`row, this`rowinv
      ensures Valid()
      ensures row == if inverse then PermuteRows(old(row), perm.to, perm.from)
                                else PermuteRows(old(row), perm.from, perm.to)
    {
      if perm.from == [] {
        NothingMoved(row);
      } else if inverse {
        ApplyBackward(perm);
      } else {
        ApplyForward(perm);
      }
    }

    method ApplyForward(perm: Permutation)
      requires Valid() && Recorded(row, perm) && perm.from != []
      modifies this`row, this`rowinv
      ensures Valid() && row == PermuteRows(old(row), perm.from, perm.to)
    {
      hide Moves, PermuteRows, Wf, DistinctIndices, GoingUp, IsInverse, Among;
      var from, to := perm.from, perm.to;
      ghost var was := row;
      WfDistinct(View(), NOPIVOT);
      UpStart(was, rowinv, from, to);
      var w: nat, r: nat, k: nat, q: nat := from[0].at, from[0].at, 0, 0;
      while w != perm.end && q != |to|
        invariant q <= |to| && GoingUp(was, from, to, row, rowinv, w, r, k, q)
        decreases rows - w
      {
        UpFacts(was, from, to, row, rowinv, w, r, k, q);
        if w == r && k != |from| {
          UpSkip(was, from, to, row, rowinv, r, k);
          w := from[k].at;
          r := w;
        }
        while k != |from| && r == from[k].at
          invariant q <= k <= |from| && w + (k - q) == r
          invariant GoingUp(was, from, to, row, rowinv, w, r, k, q)
          invariant q < k || (k < |from| && r == from[k].at)
        {
          UpTake(was, from, to, row, rowinv, w, r, k, q);
          k, r := k + 1, r + 1;
        }
        UpFacts(was, from, to, row, rowinv, w, r, k, q);
        if w == to[q].at {
          UpPut(was, from, to, row, rowinv, w, r, k, q);
          row := row[w := to[q].row];
          q := q + 1;
        } else {
          UpMove(was, from, to, row, rowinv, w, r, k, q);
          row := row[w := row[r]];
          r := r + 1;
        }
        rowinv := rowinv[row[w].index := w];
        w := w + 1;
      }
      UpFacts(was, from, to, row, rowinv, w, r, k, q);
      if w == perm.end {
        NoneLeft(to, w, q);
      }
      UpDone(was, from, to, row, rowinv, w, r, k);
      PermuteKeeps(was, from, to);
      ReorderedWf(old(View()), NOPIVOT, row);
    }

    /** One step back: at its old place a row is put back, elsewhere the next unread row moves towards the end. */
    method PutBack(ghost was: seq<Row>, from: seq<Place>, ghost to: seq<Place>, w: int, r: int, ghost k: int, q: int)
      returns (r1: int, q1: int)
      requires |was| == rows && GoingDown(was, from, to, row, rowinv, w, r, k, q) && 0 <= k < q
      requires k > 0 ==> k <= |to| && r != to[k - 1].at
      modifies this`row, this`rowinv
      ensures |row| == rows && 0 <= q1 && GoingDown(was, from, to, row, rowinv, w - 1, r1, k, q1)
    {
      hide Moves, PermuteRows, GoingDown;
      DownFacts(was, from, to, row, rowinv, w, r, k, q);
      r1, q1 := r, q;
      if w == from[q - 1].at {
        DownPut(was, from, to, row, rowinv, w, r, k, q);
        row := row[w := from[q - 1].row];
        q1 := q - 1;
      } else {
        DownMove(was, from, to, row, rowinv, w, r, k, q);
        row := row[w := row[r]];
        r1 := r - 1;
      }
      assert 0 <= w && row[w].index < rows;
      rowinv := rowinv[row[w].index := w];
    }

    /** The way back, from the end of the list to its start. */
    method ApplyBackward(perm: Permutation)
      requires Valid() && Recordable(row, perm) && perm.from != []
      modifies this`row, this`rowinv
      ensures Valid() && row == PermuteRows(old(row), perm.to, perm.from)
    {
      hide Moves, PermuteRows, Wf, DistinctIndices, GoingDown, IsInverse, Among;
      var from, to := perm.from, perm.to;
      ghost var was := row;
      WfDistinct(View(), NOPIVOT);
      PlacesOf(was, to, from);
      assert perm.start == from[0].at;
      DownStart(was, rowinv, from, to);
      assert rows == |was|;
      hide Recordable, Valid, Split, Later;
      var k: int, q: int := |to|, |from|;
      var w: int, r: int := to[k - 1].at, to[k - 1].at;
      while w != perm.start - 1 && q != 0
        invariant q >= 0 && GoingDown(was, from, to, row, rowinv, w, r, k, q)
        decreases w + 1
      {
        DownFacts(was, from, to, row, rowinv, w, r, k, q);
        if w == r && k != 0 {
          DownSkip(was, from, to, row, rowinv, r, k);
          w := to[k - 1].at;
          r := w;
        }
        while k != 0 && r == to[k - 1].at
          invariant 0 <= k <= q <= |from| && w - (q - k) == r
          invariant GoingDown(was, from, to, row, rowinv, w, r, k, q)
          invariant k < q || (k > 0 && r == to[k - 1].at)
          decreases k
        {
          DownTake(was, from, to, row, rowinv, w, r, k, q);
          k, r := k - 1, r - 1;
        }
        r, q := PutBack(was, from, to, w, r, k, q);
        w := w - 1;
      }
      DownEnd(was, from, to, row, rowinv, w, r, k, q, perm.start);
      ReorderedWf(old(View()), NOPIVOT, row);
    }

    method GetPivotRowCount() returns (n: nat)
      requires Valid()
      ensures n == PivotRows(row, NOPIVOT, rows)
    {
      hide Wf, IsInverse;
      WfPivots(View(), NOPIVOT);
      n := 0;
      for i := 0 to rows
        invariant n == PivotRows(row, NOPIVOT, i)
      {
        if row[i].pivot != NOPIVOT {
          n := n + 1;
        }
      }
    }

    /** Number of rows whose pivot is at most `col`, by the halving search of `std::upper_bound`. The answer
        is meaningful when those rows come first, which is weaker than the list being sorted. */
    method GetPivotUpperBound(col: nat) returns (b: nat)
      ensures b <= |row|
      ensures SplitAt(row, col) ==> forall j :: 0 <= j < |row| ==> (row[j].pivot <= col <==> j < b)
    {
      b := 0;
      var len := |row|;
      while len > 0
        invariant 0 <= b <= b + len <= |row|
        invariant SplitAt(row, col) ==> forall j :: 0 <= j < b ==> row[j].pivot <= col
        invariant SplitAt(row, col) ==> forall j :: b + len <= j < |row| ==> row[j].pivot > col
      {
        var half := len / 2;
        var mid := b + half;
        if col < row[mid].pivot {
          len := half;
        } else {
          b := mid + 1;
          len := len - half - 1;
        }
      }
    }
  }

  /** The rows with pivot at most `col` come first. */
  ghost predicate SplitAt(row: seq<Row>, col: nat) {
    forall i, j :: 0 <= i < j < |row| && row[j].pivot <= col ==> row[i].pivot <= col
  }
}
