/** A matrix in reduced row echelon form that takes equations one by one and can take them back
    (src/linear_matrix.h, src/linear_matrix.cpp). */
module LinearMatrices {
  import opened Gf2
  import opened BitMatrices
  import opened RowOrders
  import opened Changes
  import opened LinearSystems
  import opened Substitutions

  class LinearMatrix {
    const matrix: BitMatrix
    const RHS: nat
    var changes: seq<Change>
    var stash: seq<Change>
    var rowsToExtract: seq<nat>
    var updateRows: set<nat>
    var updatePivot: set<nat>
    /** The matrix when the log was last emptied. */
    ghost var base: Matrix
    /** The rows when conditions were last read from all rows that were to be read. */
    ghost var lastRead: seq<set<nat>>

    ghost predicate Valid()
      reads this, matrix
    {
      && matrix.Valid()
      && RHS < matrix.NOPIVOT && Within(matrix.View(), RHS)
      && (forall i :: i in updateRows ==> i < matrix.rows)
      && (forall i :: i in updatePivot ==> i < matrix.rows)
      && (forall p :: p in rowsToExtract ==> p < matrix.rows) && NoneTwice(rowsToExtract)
      && UnlistedRead(lastRead, matrix.data, rowsToExtract)
    }

    ghost predicate AllListed()
      reads this
    {
      forall p :: 0 <= p < matrix.rows ==> p in rowsToExtract
    }

    ghost function View(): Matrix
      reads this, matrix
    {
      matrix.View()
    }

    /** The log leads from `base` to the present matrix. */
    ghost predicate LogOk()
      reads this, matrix
    {
      && Runs(base, matrix.NOPIVOT, changes) && Replayed(base, matrix.NOPIVOT, changes) == View()
      && (forall i :: 0 <= i < |changes| ==> Inside(changes[i], RHS))
    }

    /** The stashed log can be replayed from `base`. */
    ghost predicate CanRestore()
      reads this, matrix
    {
      Runs(base, matrix.NOPIVOT, stash) && forall i :: 0 <= i < |stash| ==> Inside(stash[i], RHS)
    }

    /** The state between two operations. */
    ghost predicate Settled()
      reads this, matrix
    {
      Valid() && updateRows == {} && updatePivot == {}
    }

    ghost predicate IsReduced()
      reads this, matrix
    {
      Settled() && Reduced(View(), matrix.NOPIVOT, RHS)
    }

    /** A zero matrix; the right-hand side is the last of the `cols + 64` requested columns. */
    constructor (rows: nat, cols: nat)
      ensures Settled() && LogOk() && fresh(matrix)
      ensures matrix.rows == rows && RHS == cols + 63
      ensures matrix.data == seq(rows, i => {})
      ensures matrix.row == seq(rows, (i: nat) => Row(i, matrix.NOPIVOT))
      ensures rowsToExtract == seq(rows, i => i) && AllListed() && stash == []
    {
      matrix := new BitMatrix(rows, cols + 64);
      RHS := cols + 63;
      changes, stash := [InitChange], [];
      rowsToExtract := seq(rows, i => i);
      updateRows, updatePivot := {}, {};
      new;
      base, lastRead := matrix.View(), matrix.data;
      assert changes[..0] == [];
      forall p | 0 <= p < rows ensures p in rowsToExtract {
        assert rowsToExtract[p] == p;
      }
    }

    /** Flips one bit, without logging; for setting the matrix up only. */
    method InitBit(i: nat, col: nat)
      requires Valid() && AllListed() && i < matrix.rows && col <= RHS
      modifies matrix
      ensures Valid() && View() == XorInto(old(View()), matrix.NOPIVOT, i, {col})
    {
      WithinXor(View(), matrix.NOPIVOT, RHS, i, {col});
      UnlistedXor(lastRead, View(), matrix.NOPIVOT, rowsToExtract, i, {col});
      var _ := matrix.XorBit(i, col);
    }

    // ---- undo log ----

    method FixChanges()
      requires Valid()
      modifies this`changes, this`base
      ensures Valid() && LogOk() && changes == [] && base == View()
    {
      changes := [];
      base := matrix.View();
    }

    method Extract(i: nat)
      requires Valid() && i < matrix.rows
      modifies this`rowsToExtract
      ensures Valid() && matrix.row[i].index in rowsToExtract
      ensures forall p :: p in old(rowsToExtract) ==> p in rowsToExtract
    {
      if matrix.row[i].index !in rowsToExtract {
        UnlistedMore(lastRead, matrix.data, rowsToExtract, rowsToExtract + [matrix.row[i].index]);
        NoneTwiceMore(rowsToExtract, matrix.row[i].index);
        rowsToExtract := rowsToExtract + [matrix.row[i].index];
      }
    }

    method ListAll()
      requires Valid()
      modifies this`rowsToExtract
      ensures Valid() && AllListed()
    {
      rowsToExtract := seq(matrix.rows, i => i);
      forall p | 0 <= p < matrix.rows ensures p in rowsToExtract {
        assert rowsToExtract[p] == p;
      }
      SameCount(View(), matrix.NOPIVOT);
    }

    method ApplyChange(c: Change)
      requires Valid() && CanApply(View(), matrix.NOPIVOT, c) && Inside(c, RHS)
      modifies this`rowsToExtract, matrix
      ensures Valid() && View() == Applied(old(View()), matrix.NOPIVOT, c)
    {
      hide UnlistedRead, Moves, PermuteRows, Wf, IsInverse, XorInto, Within;
      AppliedWithin(View(), matrix.NOPIVOT, RHS, c);
      match c
      case InitChange => ListAll();
      case SortChange(perm) => matrix.ApplyPermutation(perm, false);
      case XorRowChange(i, e) =>
        Extract(i);
        UnlistedXor(lastRead, View(), matrix.NOPIVOT, rowsToExtract, i, Columns(e));
        var _ := matrix.XorRow(i, e);
      case XorRowToRowChange(a, b) =>
        Extract(a);
        IndexAt(View(), matrix.NOPIVOT, b);
        UnlistedXor(lastRead, View(), matrix.NOPIVOT, rowsToExtract, a, View().Bits(b));
        var _ := matrix.XorRowtoRow(a, b);
      case XorBitChange(i, col) =>
        Extract(i);
        UnlistedXor(lastRead, View(), matrix.NOPIVOT, rowsToExtract, i, {col});
        var _ := matrix.XorBit(i, col);
    }

    method UndoChange(c: Change)
      requires Valid() && CanUndo(View(), matrix.NOPIVOT, c) && Inside(c, RHS)
      modifies this`rowsToExtract, matrix
      ensures Valid() && View() == Undone(old(View()), matrix.NOPIVOT, c)
    {
      hide UnlistedRead, Moves, PermuteRows, Wf, IsInverse, XorInto, Within;
      UndoneWithin(View(), matrix.NOPIVOT, RHS, c);
      match c
      case InitChange => ListAll();
      case SortChange(perm) => matrix.ApplyPermutation(perm, true);
      case XorRowChange(i, e) =>
        Extract(i);
        UnlistedXor(lastRead, View(), matrix.NOPIVOT, rowsToExtract, i, Columns(e));
        var _ := matrix.XorRow(i, e);
      case XorRowToRowChange(a, b) =>
        Extract(a);
        IndexAt(View(), matrix.NOPIVOT, b);
        UnlistedXor(lastRead, View(), matrix.NOPIVOT, rowsToExtract, a, View().Bits(b));
        var _ := matrix.XorRowtoRow(a, b);
      case XorBitChange(i, col) =>
        Extract(i);
        UnlistedXor(lastRead, View(), matrix.NOPIVOT, rowsToExtract, i, {col});
        var _ := matrix.XorBit(i, col);
    }

    /** Takes the log back, last entry first: the matrix is again what it was when the log was emptied. */
    method UndoChanges()
      requires Valid() && LogOk()
      modifies this`rowsToExtract, matrix
      ensures Valid() && View() == base
    {
      hide UnlistedRead, Moves, PermuteRows, Wf, IsInverse, Within, CanApply, CanUndo, Applied, Undone;
      assert changes[..|changes|] == changes;
      for i := |changes| downto 0
        invariant Valid()
        invariant Runs(base, matrix.NOPIVOT, changes[..i])
        invariant View() == Replayed(base, matrix.NOPIVOT, changes[..i])
      {
        RunsPrefix(base, matrix.NOPIVOT, changes, i);
        UndoneApplied(Replayed(base, matrix.NOPIVOT, changes[..i]), matrix.NOPIVOT, changes[i]);
        UndoChange(changes[i]);
      }
      assert changes[..0] == [];
    }

    /** Goes back to the matrix at the last `FixChanges` and keeps the log for `UndoAndRestore`. */
    method Undo()
      requires Valid() && LogOk()
      modifies this, matrix
      ensures Settled() && LogOk() && View() == base == old(base)
      ensures changes == [] && stash == old(changes) && lastRead == old(lastRead)
      ensures CanRestore() && Replayed(base, matrix.NOPIVOT, stash) == old(View())
    {
      hide UnlistedRead, Wf, Moves, PermuteRows, Within, Applied, CanApply;
      updateRows, updatePivot := {}, {};
      UndoChanges();
      stash, changes := changes, [];
    }

    /** Takes the log back and brings back the state the last `Undo` had left. */
    method UndoAndRestore()
      requires Valid() && LogOk() && CanRestore()
      modifies this, matrix
      ensures Settled() && LogOk()
      ensures View() == Replayed(old(base), matrix.NOPIVOT, old(stash))
      ensures changes == [] && stash == [] && base == View() && lastRead == old(lastRead)
    {
      hide UnlistedRead, Moves, PermuteRows, Wf, IsInverse, Within, CanApply, CanUndo, Applied, Undone;
      updateRows, updatePivot := {}, {};
      UndoChanges();
      assert stash[..0] == [];
      for i := 0 to |stash|
        invariant Valid() && updateRows == updatePivot == {}
        invariant stash == old(stash) && base == old(base) && lastRead == old(lastRead)
        invariant Runs(base, matrix.NOPIVOT, stash[..i])
        invariant View() == Replayed(base, matrix.NOPIVOT, stash[..i])
      {
        RunsPrefix(base, matrix.NOPIVOT, stash, i);
        ApplyChange(stash[i]);
      }
      assert stash[..|stash|] == stash;
      FixChanges();
      stash := [];
    }

    // ---- logged modification ----

    /** Adds an equation to virtual row `i`. */
    method XorRow(i: nat, e: seq<nat>, log: bool)
      requires Valid() && i < matrix.rows
      requires e != [] && Ascending(e) && e[|e| - 1] <= RHS
      modifies this`rowsToExtract, this`changes, matrix
      ensures Valid() && View() == XorInto(old(View()), matrix.NOPIVOT, i, Columns(e))
      ensures log && old(LogOk()) ==> LogOk()
      ensures !log ==> changes == old(changes)
    {
      hide UnlistedRead, Wf, IsInverse, XorInto, Within, Runs, Replayed;
      ghost var m, c := View(), XorRowChange(i, e);
      CanApplyXorRow(m, i, e);
      AppliedWithin(m, matrix.NOPIVOT, RHS, c);
      if log {
        changes := changes + [XorRowChange(i, e)];
      }
      Extract(i);
      UnlistedXor(lastRead, m, matrix.NOPIVOT, rowsToExtract, i, Columns(e));
      var _ := matrix.XorRow(i, e);
      if log && old(LogOk()) {
        RunsMore(base, matrix.NOPIVOT, old(changes), c);
      }
    }

    lemma CanApplyXorRow(m: Matrix, i: nat, e: seq<nat>)
      requires Wf(m, matrix.NOPIVOT) && i < |m.row| && RHS < matrix.NOPIVOT
      requires e != [] && Ascending(e) && e[|e| - 1] <= RHS
      ensures CanApply(m, matrix.NOPIVOT, XorRowChange(i, e)) && Inside(XorRowChange(i, e), RHS)
    {
    }

    /** Adds virtual row `b` to virtual row `a`. */
    method XorRowtoRow(a: nat, b: nat, log: bool) returns (changed: bool)
      requires Valid() && a < matrix.rows && b < matrix.rows && a != b
      modifies this`rowsToExtract, this`changes, matrix
      ensures Valid() && View() == XorInto(old(View()), matrix.NOPIVOT, a, old(View()).Bits(b))
      ensures changed <==> old(View()).row[b].pivot <= old(View()).row[a].pivot
      ensures log && old(LogOk()) ==> LogOk()
      ensures !log ==> changes == old(changes)
    {
      hide UnlistedRead, Wf, IsInverse, XorInto, Within, Runs, Replayed;
      ghost var m, c := View(), XorRowToRowChange(a, b);
      AppliedWithin(m, matrix.NOPIVOT, RHS, c);
      if log {
        changes := changes + [XorRowToRowChange(a, b)];
      }
      Extract(a);
      IndexAt(m, matrix.NOPIVOT, b);
      UnlistedXor(lastRead, m, matrix.NOPIVOT, rowsToExtract, a, m.Bits(b));
      changed := matrix.XorRowtoRow(a, b);
      if log && old(LogOk()) {
        RunsMore(base, matrix.NOPIVOT, old(changes), c);
      }
    }

    /** Re-sorts the rows whose pivots have grown. */
    method SortByPivot(log: bool)
      requires Valid() && OnlyGrown(matrix.row, updatePivot)
      modifies this`changes, this`updatePivot, matrix
      ensures Valid() && updatePivot == {}
      ensures matrix.data == old(matrix.data) && SortedByPivot(matrix.row)
      ensures log && old(LogOk()) ==> LogOk()
      ensures !log ==> changes == old(changes)
    {
      hide UnlistedRead, Wf, IsInverse, Recorded, Runs, Replayed, PermuteRows, SortedByPivot;
      ghost var m := View();
      var perm := matrix.SortByPivot(updatePivot);
      updatePivot := {};
      if log {
        changes := changes + [SortChange(perm)];
      }
      assert Within(View(), RHS);
      if log && old(LogOk()) {
        RunsMore(base, matrix.NOPIVOT, old(changes), SortChange(perm));
      }
    }

    method Touch(i: nat, pivotchanged: bool)
      requires i < matrix.rows
      modifies this`updateRows, this`updatePivot
      ensures updateRows == old(updateRows) + {i}
      ensures updatePivot == old(updatePivot) + if pivotchanged then {i} else {}
    {
      updateRows := updateRows + {i};
      if pivotchanged {
        updatePivot := updatePivot + {i};
      }
    }

    predicate IsContradiction(i: nat)
      requires i < |matrix.row|
      reads this, matrix
    {
      matrix.GetPivot(i) == RHS
    }

    /** Adds row `b` to every other row that has its pivot column; rows whose pivot rises are queued. */
    method ClearColumn(b: nat, backtrack: bool, ghost m0: Matrix) returns (ok: bool)
      requires Valid() && Clearing(m0, View(), matrix.NOPIVOT, RHS, updateRows, updatePivot, b, 0)
      modifies this`rowsToExtract, this`changes, this`updateRows, this`updatePivot, matrix
      ensures Valid()
      ensures ok ==> Queued(m0, View(), matrix.NOPIVOT, RHS, updateRows, updatePivot)
      ensures ok ==> (Slack(matrix.row, matrix.NOPIVOT) < old(Slack(matrix.row, matrix.NOPIVOT)) ||
        (Slack(matrix.row, matrix.NOPIVOT) == old(Slack(matrix.row, matrix.NOPIVOT)) && updateRows <= old(updateRows)))
      ensures !ok ==> SameSolutions(m0, View(), RHS) && KeepsEmptyColumns(m0, View()) && forall x :: !Solves(View(), RHS, x)
      ensures backtrack && old(LogOk()) ==> LogOk()
      ensures !backtrack ==> changes == old(changes)
    {
      hide UnlistedRead, Wf, IsInverse, Within, Runs, Replayed, SameSolutions, KeepsEmptyColumns, OnlyGrown, Clean, Queued, Clearing, Slack;
      hide Solves, XorInto;
      var cols := matrix.NOPIVOT;
      ClearPivot(m0, View(), cols, RHS, updateRows, updatePivot, b);
      var pivot := matrix.GetPivot(b);
      for i := 0 to matrix.rows
        invariant Valid() && Clearing(m0, View(), cols, RHS, updateRows, updatePivot, b, i)
        invariant matrix.row[b].pivot == pivot
        invariant Slack(matrix.row, cols) < old(Slack(matrix.row, cols)) ||
          (Slack(matrix.row, cols) == old(Slack(matrix.row, cols)) && updateRows <= old(updateRows))
        invariant backtrack && old(LogOk()) ==> LogOk()
        invariant !backtrack ==> changes == old(changes)
      {
        ghost var m := View();
        IndexAt(m, cols, i);
        if i == b || !matrix.GetBit(i, pivot) {
          ClearPass(m0, m, cols, RHS, updateRows, updatePivot, b, i);
        } else {
          ghost var s := if m.row[b].pivot <= m.row[i].pivot then {i} else {};
          ClearStep(m0, m, cols, RHS, updateRows, updatePivot, b, i, s);
          var changed := XorRowtoRow(i, b, backtrack);
          if changed {
            Touch(i, true);
          }
          assert updateRows + s == updateRows && updatePivot + s == updatePivot;
          if IsContradiction(i) {
            ClearingContradiction(m0, View(), cols, RHS, updateRows, updatePivot, b, i + 1);
            return false;
          }
        }
      }
      ClearEnd(m0, View(), cols, RHS, updateRows, updatePivot, b);
      ok := true;
    }

    /** Eliminates with the queued rows until none is left. The solutions stay the same; the answer is false
        only if there are none, and otherwise the matrix ends reduced. */
    method EpsilonGauss(backtrack: bool) returns (ok: bool)
      requires Valid() && Queued(View(), View(), matrix.NOPIVOT, RHS, updateRows, updatePivot)
      modifies this, matrix
      ensures Valid() && SameSolutions(old(View()), View(), RHS) && KeepsEmptyColumns(old(View()), View())
      ensures ok ==> IsReduced()
      ensures !ok ==> forall x :: !Solves(View(), RHS, x)
      ensures backtrack && old(LogOk()) ==> LogOk()
      ensures !backtrack ==> changes == old(changes)
      ensures base == old(base) && stash == old(stash) && lastRead == old(lastRead)
    {
      hide UnlistedRead, Wf, IsInverse, Within, Runs, Replayed, SameSolutions, KeepsEmptyColumns, OnlyGrown, Clean, Queued, Clearing, Slack;
      ghost var m0 := View();
      var cols := matrix.NOPIVOT;
      while updateRows != {}
        invariant Valid() && Queued(m0, View(), cols, RHS, updateRows, updatePivot)
        invariant backtrack && old(LogOk()) ==> LogOk()
        invariant !backtrack ==> changes == old(changes)
        invariant base == old(base) && stash == old(stash) && lastRead == old(lastRead)
        decreases Slack(matrix.row, cols), |updateRows|
      {
        assert exists c :: c in updateRows && c < matrix.rows by {
          var c :| c in updateRows;
        }
        var b := PivotOf(updateRows, matrix.rows);
        ghost var queue, slack := updateRows, Slack(matrix.row, cols);
        var pivot := matrix.GetPivot(b);
        if IsContradiction(b) {
          QueuedContradiction(m0, View(), cols, RHS, updateRows, updatePivot, b);
          updateRows := updateRows - {b};
          return false;
        }
        if pivot == cols {
          SkipRow(m0, View(), cols, RHS, updateRows, updatePivot, b);
          updateRows := updateRows - {b};
          continue;
        }
        ClearStart(m0, View(), cols, RHS, updateRows, updatePivot, b);
        updateRows := updateRows - {b};
        var cleared := ClearColumn(b, backtrack, m0);
        if !cleared {
          return false;
        }
        SubsetSize(queue - {b}, queue);
        if updateRows <= queue - {b} {
          SubsetSize(updateRows, queue - {b});
        }
      }
      ghost var m, touched := View(), updatePivot;
      QueuedGrown(m0, m, cols, RHS, updateRows, touched);
      SortByPivot(backtrack);
      QueueDone(m0, m, cols, RHS, touched, View());
      ok := true;
    }

    /** The row with pivot `col`, if there is one before the upper bound of `col`. */
    method Lookup(col: nat) returns (r: int)
      requires Valid()
      ensures -1 <= r < matrix.rows
      ensures SplitAt(matrix.row, col) ==> forall k :: 0 <= k < |matrix.row| ==> (matrix.row[k].pivot <= col <==> k < r + 1)
    {
      var bound: int := matrix.GetPivotUpperBound(col);
      r := bound - 1;
    }

    /** Clears the later columns of `e` that are pivots of other rows from row `b`. */
    method ClearRow(b: nat, e: seq<nat>, backtrack: bool, ghost m0: Matrix)
      requires Valid() && Substituting(m0, View(), matrix.NOPIVOT, RHS, e, b, 1)
      modifies this`rowsToExtract, this`changes, matrix
      ensures Valid() && Substituting(m0, View(), matrix.NOPIVOT, RHS, e, b, |e|)
      ensures backtrack && old(LogOk()) ==> LogOk()
      ensures !backtrack ==> changes == old(changes)
    {
      hide UnlistedRead, Wf, IsInverse, Within, Runs, Replayed, Substituting, SplitAt, Solves, XorInto;
      SubstSizes(m0, View(), matrix.NOPIVOT, RHS, e, b, 1);
      for i := 1 to |e|
        invariant Valid() && Substituting(m0, View(), matrix.NOPIVOT, RHS, e, b, i)
        invariant backtrack && old(LogOk()) ==> LogOk()
        invariant !backtrack ==> changes == old(changes)
      {
        ghost var m := View();
        SubstSizes(m0, m, matrix.NOPIVOT, RHS, e, b, i);
        var r := Lookup(e[i]);
        SubstLookup(m0, m, matrix.NOPIVOT, RHS, e, b, i, r + 1);
        if r >= 0 && b != r && matrix.GetPivot(r) == e[i] {
          SubstStep(m0, m, matrix.NOPIVOT, RHS, e, b, i, r);
          var _ := XorRowtoRow(b, r, backtrack);
        } else {
          SubstPass(m0, m, matrix.NOPIVOT, RHS, e, b, i);
        }
      }
    }

    /** Adds the equation to every row that has its first column. */
    method SubstituteFree(last: int, e: seq<nat>, backtrack: bool, ghost m0: Matrix)
      requires Valid() && m0 == View() && Adding(m0, View(), matrix.NOPIVOT, RHS, e, 0)
      requires -1 <= last < matrix.rows
      modifies this`rowsToExtract, this`changes, matrix
      ensures Valid() && Adding(m0, View(), matrix.NOPIVOT, RHS, e, last + 1)
      ensures backtrack && old(LogOk()) ==> LogOk()
      ensures !backtrack ==> changes == old(changes)
    {
      hide UnlistedRead, Wf, IsInverse, Within, Runs, Replayed, Adding, XorInto, Reduced;
      AddSizes(m0, View(), matrix.NOPIVOT, RHS, e, 0);
      for r := 0 to last + 1
        invariant Valid() && Adding(m0, View(), matrix.NOPIVOT, RHS, e, r)
        invariant backtrack && old(LogOk()) ==> LogOk()
        invariant !backtrack ==> changes == old(changes)
      {
        ghost var m := View();
        AddSizes(m0, m, matrix.NOPIVOT, RHS, e, r);
        IndexAt(m, matrix.NOPIVOT, r);
        if matrix.GetBit(r, e[0]) {
          AddStep(m0, m, matrix.NOPIVOT, RHS, e, r);
          XorRow(r, e, backtrack);
        } else {
          AddPass(m0, m, matrix.NOPIVOT, RHS, e, r);
        }
      }
    }

    /** Queues the rows whose pivots are later columns of the equation. */
    method QueuePivots(e: seq<nat>)
      requires Valid() && updateRows == {} && e != [] && SortedByPivot(matrix.row)
      requires forall j, k :: 0 <= j < k < |matrix.row| && matrix.row[j].pivot in e ==> matrix.row[j].pivot != matrix.row[k].pivot
      modifies this`updateRows, this`updatePivot
      ensures Valid() && updatePivot == old(updatePivot)
      ensures forall j :: 0 <= j < |matrix.row| && matrix.row[j].pivot in e[1..] ==> j in updateRows
    {
      hide UnlistedRead, Wf, IsInverse, Within;
      for i := 1 to |e|
        invariant Valid() && updatePivot == old(updatePivot)
        invariant forall j, t :: 0 <= j < |matrix.row| && 1 <= t < i && matrix.row[j].pivot == e[t] ==> j in updateRows
      {
        var r := Lookup(e[i]);
        if r >= 0 && matrix.GetPivot(r) == e[i] {
          Touch(r, false);
        }
        forall j | 0 <= j < |matrix.row| && matrix.row[j].pivot == e[i] ensures j in updateRows {
          assert e[i] in e;
          assert SplitAt(matrix.row, e[i]);
          assert j < r + 1;
          assert matrix.row[j].pivot <= matrix.row[r].pivot;
        }
      }
      forall j | 0 <= j < |matrix.row| && matrix.row[j].pivot in e[1..] ensures j in updateRows {
        var t :| 0 <= t < |e[1..]| && e[1..][t] == matrix.row[j].pivot;
        assert e[t + 1] == matrix.row[j].pivot;
      }
    }

    /** Removes the first column of the equation from the matrix and queues the rows to eliminate with. */
    method Substitute(e: seq<nat>, backtrack: bool)
      requires IsReduced() && IsEquation(e, RHS)
      modifies this`rowsToExtract, this`changes, this`updateRows, this`updatePivot, matrix
      ensures Valid() && Queued(View(), View(), matrix.NOPIVOT, RHS, updateRows, updatePivot)
      ensures updateRows == {} ==> updatePivot == {}
      ensures SameWith(old(View()), View(), RHS, Columns(e))
      ensures KeepsOutside(old(View()), View(), Columns(e)) && EmptyColumn(View(), e[0])
      ensures backtrack && old(LogOk()) ==> LogOk()
      ensures !backtrack ==> changes == old(changes)
    {
      hide UnlistedRead, Wf, IsInverse, Within, Runs, Replayed, Reduced, Substituting, Adding, Queued, KeepsOutside, EmptyColumn, KeepsEmptyColumns;
      hide SameWith, SameSolutions, Solves, XorInto, SplitAt;
      ghost var m0 := View();
      var cols := matrix.NOPIVOT;
      var last := Lookup(e[0]);
      LookupFirst(m0, cols, RHS, e[0], last + 1);
      if last >= 0 && matrix.GetPivot(last) == e[0] {
        SubstStart(m0, cols, RHS, e, last);
        XorRow(last, e, backtrack);
        Touch(last, true);
        assert updateRows == {last} && updatePivot == {last};
        ClearRow(last, e, backtrack, m0);
        SubstDone(m0, View(), cols, RHS, e, last);
        SubstParts(m0, View(), cols, RHS, e, last);
      } else {
        AddStart(m0, cols, RHS, e);
        SubstituteFree(last, e, backtrack, m0);
        AddParts(m0, View(), cols, RHS, e, last + 1);
        QueuePivots(e);
        AddQueue(m0, View(), cols, RHS, e, last + 1, updateRows);
      }
    }

    /** Adds an equation with right-hand side `c`. The answer says whether the matrix has a solution that meets
        it; if so, the matrix is again reduced, the first column of the equation is gone from it, and together
        with the equation it has the same solutions as before. */
    method AddEquation(equation: seq<nat>, c: bool, backtrack: bool) returns (ok: bool)
      requires IsReduced()
      requires equation != [] && Ascending(equation) && equation[|equation| - 1] < RHS
      modifies this, matrix
      ensures Valid() && base == old(base) && stash == old(stash) && lastRead == old(lastRead)
      ensures ok <==> exists x :: Solves(old(View()), RHS, x) && !Value(WithRhs(equation, c, RHS), x)
      ensures ok ==> IsReduced() && EmptyColumn(View(), equation[0])
      ensures KeepsOutside(old(View()), View(), WithRhs(equation, c, RHS))
      ensures forall x :: !Value(WithRhs(equation, c, RHS), x) ==> (Solves(View(), RHS, x) <==> Solves(old(View()), RHS, x))
      ensures backtrack && old(LogOk()) ==> LogOk()
      ensures !backtrack ==> changes == old(changes)
    {
      hide UnlistedRead, Wf, IsInverse, Within, Runs, Replayed, Reduced, Substituting, Adding, Queued, KeepsOutside, EmptyColumn, KeepsEmptyColumns;
      hide SameWith, SameSolutions, Solves, XorInto, SplitAt;
      ghost var m0 := View();
      var e := if c then equation + [RHS] else equation;
      AppendRhs(equation, c, RHS, e);
      Substitute(e, backtrack);
      ghost var m := View();
      ok := true;
      if updateRows != {} {
        ok := EpsilonGauss(backtrack);
        AfterGauss(m0, m, View(), RHS, Columns(e), e[0]);
      } else {
        NothingQueued(m, matrix.NOPIVOT, RHS);
      }
      SameWithUse(m0, View(), RHS, Columns(e));
      if ok {
        Completed(m0, View(), matrix.NOPIVOT, RHS, e);
      } else {
        Refuted(m0, View(), RHS, Columns(e));
      }
    }
  }
}
