/** The change log of a matrix: what each entry does and how it is taken back (src/change.h, src/change.cpp). */
module Changes {
  import opened Gf2
  import opened RowOrders
  import opened LinearSystems

  datatype Change =
    | InitChange
    | SortChange(perm: Permutation)
    | XorRowChange(row: nat, equation: seq<nat>)
    | XorRowToRowChange(rowa: nat, rowb: nat)
    | XorBitChange(bitrow: nat, col: nat)

  ghost predicate CanApply(m: Matrix, cols: nat, c: Change) {
    && Wf(m, cols)
    && match c
       case InitChange => true
       case SortChange(perm) => Recorded(m.row, perm)
       case XorRowChange(i, e) => i < |m.row| && e != [] && Ascending(e) && e[|e| - 1] < cols
       case XorRowToRowChange(a, b) => a < |m.row| && b < |m.row| && a != b
       case XorBitChange(i, col) => i < |m.row| && col < cols
  }

  ghost predicate CanUndo(m: Matrix, cols: nat, c: Change) {
    && Wf(m, cols)
    && match c
       case InitChange => true
       case SortChange(perm) => Recordable(m.row, perm)
       case XorRowChange(i, e) => i < |m.row| && e != [] && Ascending(e) && e[|e| - 1] < cols
       case XorRowToRowChange(a, b) => a < |m.row| && b < |m.row| && a != b
       case XorBitChange(i, col) => i < |m.row| && col < cols
  }

  ghost function Applied(m: Matrix, cols: nat, c: Change): Matrix
    requires CanApply(m, cols, c)
  {
    match c
    case InitChange => m
    case SortChange(perm) => Matrix(m.data, PermuteRows(m.row, perm.from, perm.to))
    case XorRowChange(i, e) => XorInto(m, cols, i, Columns(e))
    case XorRowToRowChange(a, b) => XorInto(m, cols, a, m.Bits(b))
    case XorBitChange(i, col) => XorInto(m, cols, i, {col})
  }

  ghost function Undone(m: Matrix, cols: nat, c: Change): Matrix
    requires CanUndo(m, cols, c)
  {
    match c
    case InitChange => m
    case SortChange(perm) => Matrix(m.data, PermuteRows(m.row, perm.to, perm.from))
    case XorRowChange(i, e) => XorInto(m, cols, i, Columns(e))
    case XorRowToRowChange(a, b) => XorInto(m, cols, a, m.Bits(b))
    case XorBitChange(i, col) => XorInto(m, cols, i, {col})
  }

  lemma AscendingBound(e: seq<nat>, cols: nat)
    requires e != [] && Ascending(e) && e[|e| - 1] < cols
    ensures forall c :: c in Columns(e) ==> e[0] <= c < cols
  {
  }

  /** Taking an entry back right after it was applied restores the matrix, whatever the entry. */
  lemma UndoneApplied(m: Matrix, cols: nat, c: Change)
    requires CanApply(m, cols, c)
    ensures CanUndo(Applied(m, cols, c), cols, c)
    ensures Undone(Applied(m, cols, c), cols, c) == m
  {
    hide PermuteRows, PivotOf, HasRowsOf;
    match c
    case InitChange =>
    case SortChange(perm) => UndoneSort(m, cols, perm);
    case XorRowChange(i, e) =>
      AscendingBound(e, cols);
      XorIntoWf(m, cols, i, Columns(e));
      XorIntoTwice(m, cols, i, Columns(e));
    case XorRowToRowChange(a, b) =>
      BitsBound(m, cols, b);
      XorIntoWf(m, cols, a, m.Bits(b));
      XorIntoTwice(m, cols, a, m.Bits(b));
    case XorBitChange(i, col) =>
      XorIntoWf(m, cols, i, {col});
      XorIntoTwice(m, cols, i, {col});
  }

  lemma BitsBound(m: Matrix, cols: nat, i: nat)
    requires Wf(m, cols) && i < |m.row|
    ensures forall c :: c in m.Bits(i) ==> c < cols
  {
  }

  lemma UndoneSort(m: Matrix, cols: nat, perm: Permutation)
    requires CanApply(m, cols, SortChange(perm))
    ensures CanUndo(Applied(m, cols, SortChange(perm)), cols, SortChange(perm))
    ensures Undone(Applied(m, cols, SortChange(perm)), cols, SortChange(perm)) == m
  {
    hide Wf, Moves, PermuteRows, Among, DistinctIndices;
    WfDistinct(m, cols);
    PermuteBack(m.row, perm.from, perm.to);
    PermuteKeeps(m.row, perm.from, perm.to);
    ReorderedWf(m, cols, PermuteRows(m.row, perm.from, perm.to));
  }

  /** `cs` can be applied one after the other from `m` on. */
  ghost predicate Runs(m: Matrix, cols: nat, cs: seq<Change>)
    decreases |cs|, 0
  {
    if cs == [] then Wf(m, cols)
    else
      var k := |cs| - 1;
      Runs(m, cols, cs[..k]) && CanApply(Replayed(m, cols, cs[..k]), cols, cs[k])
  }

  ghost function Replayed(m: Matrix, cols: nat, cs: seq<Change>): Matrix
    requires Runs(m, cols, cs)
    decreases |cs|, 1
  {
    if cs == [] then m else var k := |cs| - 1; Applied(Replayed(m, cols, cs[..k]), cols, cs[k])
  }

  lemma RunsMore(m: Matrix, cols: nat, cs: seq<Change>, c: Change)
    requires Runs(m, cols, cs) && CanApply(Replayed(m, cols, cs), cols, c)
    ensures Runs(m, cols, cs + [c])
    ensures Replayed(m, cols, cs + [c]) == Applied(Replayed(m, cols, cs), cols, c)
  {
    assert (cs + [c])[..|cs|] == cs;
  }

  lemma {:induction false} RunsPrefix(m: Matrix, cols: nat, cs: seq<Change>, k: nat)
    requires Runs(m, cols, cs) && k < |cs|
    ensures Runs(m, cols, cs[..k]) && CanApply(Replayed(m, cols, cs[..k]), cols, cs[k])
    ensures Runs(m, cols, cs[..k + 1])
    ensures Replayed(m, cols, cs[..k + 1]) == Applied(Replayed(m, cols, cs[..k]), cols, cs[k])
  {
    if k < |cs| - 1 {
      RunsPrefix(m, cols, cs[..|cs| - 1], k);
      assert cs[..|cs| - 1][..k] == cs[..k];
      assert cs[..|cs| - 1][..k + 1] == cs[..k + 1];
    } else {
      assert cs[..k + 1] == cs;
    }
  }

  // ---- entries that stay left of the right-hand side, or on it ----

  ghost predicate Inside(c: Change, rhs: nat) {
    match c
    case XorRowChange(i, e) => e != [] ==> e[|e| - 1] <= rhs
    case XorBitChange(i, col) => col <= rhs
    case _ => true
  }

  lemma AppliedWithin(m: Matrix, cols: nat, rhs: nat, c: Change)
    requires CanApply(m, cols, c) && Within(m, rhs) && Inside(c, rhs)
    ensures Within(Applied(m, cols, c), rhs)
  {
    hide PermuteRows, PivotOf, HasRowsOf;
  }

  lemma UndoneWithin(m: Matrix, cols: nat, rhs: nat, c: Change)
    requires CanUndo(m, cols, c) && Within(m, rhs) && Inside(c, rhs)
    ensures Within(Undone(m, cols, c), rhs)
  {
    hide PermuteRows, PivotOf, HasRowsOf;
  }

  // ---- rows to read again ----

  /** Rows that are not listed have the contents they had when they were last read. */
  ghost predicate UnlistedRead(read: seq<set<nat>>, data: seq<set<nat>>, list: seq<nat>) {
    |read| == |data| && forall p :: 0 <= p < |data| && p !in list ==> data[p] == read[p]
  }

  /** No row is listed twice. */
  ghost predicate NoneTwice(list: seq<nat>) {
    forall i, j :: 0 <= i < j < |list| ==> list[i] != list[j]
  }

  lemma NoneTwiceNone()
    ensures NoneTwice([])
  {
  }

  lemma NoneTwiceMore(list: seq<nat>, p: nat)
    requires NoneTwice(list) && p !in list
    ensures NoneTwice(list + [p])
  {
  }

  lemma UnlistedNone(data: seq<set<nat>>)
    ensures UnlistedRead(data, data, [])
  {
  }

  lemma UnlistedMore(read: seq<set<nat>>, data: seq<set<nat>>, list: seq<nat>, more: seq<nat>)
    requires UnlistedRead(read, data, list) && forall p :: p in list ==> p in more
    ensures UnlistedRead(read, data, more)
  {
  }

  lemma UnlistedXor(read: seq<set<nat>>, m: Matrix, cols: nat, list: seq<nat>, i: nat, s: set<nat>)
    requires Wf(m, cols) && i < |m.row| && m.row[i].index in list
    requires UnlistedRead(read, m.data, list)
    ensures UnlistedRead(read, XorInto(m, cols, i, s).data, list)
  {
  }
}
