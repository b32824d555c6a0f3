/** Solutions of a matrix, reduced row echelon form, and what one elimination step keeps
    (src/linear_matrix.cpp). */
module LinearSystems {
  import opened Gf2
  import opened RowOrders

  /** `x` makes every row zero; the right-hand side column counts as one. */
  ghost predicate Solves(m: Matrix, rhs: nat, x: set<nat>) {
    rhs in x && forall p :: 0 <= p < |m.data| ==> !Value(m.data[p], x)
  }

  /** No column lies beyond the right-hand side. */
  ghost predicate Within(m: Matrix, rhs: nat) {
    forall p :: 0 <= p < |m.data| ==> forall c :: c in m.data[p] ==> c <= rhs
  }

  ghost predicate EmptyColumn(m: Matrix, c: nat) {
    forall p :: 0 <= p < |m.data| ==> c !in m.data[p]
  }

  /** Row `r` is empty, or it alone has its pivot column and it is not a contradiction. */
  ghost predicate Clean(data: seq<set<nat>>, r: Row, cols: nat, rhs: nat) {
    r.pivot == cols || (r.pivot != rhs && forall p :: 0 <= p < |data| && p != r.index ==> r.pivot !in data[p])
  }

  ghost predicate AllClean(m: Matrix, cols: nat, rhs: nat) {
    forall i :: 0 <= i < |m.row| ==> Clean(m.data, m.row[i], cols, rhs)
  }

  /** Sorted reduced row echelon form without a contradiction. */
  ghost predicate Reduced(m: Matrix, cols: nat, rhs: nat) {
    SortedByPivot(m.row) && AllClean(m, cols, rhs)
  }

  ghost predicate SameSolutions(m: Matrix, n: Matrix, rhs: nat) {
    forall x :: Solves(m, rhs, x) <==> Solves(n, rhs, x)
  }

  /** The same solutions among those of equation `e`. */
  ghost predicate SameWith(m: Matrix, n: Matrix, rhs: nat, e: set<nat>) {
    forall x :: !Value(e, x) ==> (Solves(m, rhs, x) <==> Solves(n, rhs, x))
  }

  ghost predicate KeepsEmptyColumns(m: Matrix, n: Matrix) {
    forall c :: EmptyColumn(m, c) ==> EmptyColumn(n, c)
  }

  // ---- adding rows and equations ----

  lemma XorSolves(m: Matrix, cols: nat, rhs: nat, i: nat, s: set<nat>, x: set<nat>)
    requires Wf(m, cols) && i < |m.row| && !Value(s, x)
    ensures Solves(XorInto(m, cols, i, s), rhs, x) <==> Solves(m, rhs, x)
  {
    var p := m.row[i].index;
    ValueXor(m.data[p], s, x);
    var n := XorInto(m, cols, i, s);
    assert forall q :: 0 <= q < |m.data| ==> Value(n.data[q], x) == Value(m.data[q], x);
  }

  /** Adding an equation to a row does not change which of its solutions solve the matrix. */
  lemma XorEquation(m: Matrix, cols: nat, rhs: nat, i: nat, e: set<nat>)
    requires Wf(m, cols) && i < |m.row|
    ensures SameWith(m, XorInto(m, cols, i, e), rhs, e)
  {
    forall x | !Value(e, x) ensures Solves(m, rhs, x) <==> Solves(XorInto(m, cols, i, e), rhs, x) {
      XorSolves(m, cols, rhs, i, e, x);
    }
  }

  /** Adding one row to another keeps the solutions. */
  lemma XorRows(m: Matrix, cols: nat, rhs: nat, a: nat, b: nat)
    requires Wf(m, cols) && a < |m.row| && b < |m.row| && a != b
    ensures SameSolutions(m, XorInto(m, cols, a, m.Bits(b)), rhs)
    ensures KeepsEmptyColumns(m, XorInto(m, cols, a, m.Bits(b)))
  {
    var n := XorInto(m, cols, a, m.Bits(b));
    assert m.row[a].index != m.row[b].index;
    assert n.data[m.row[b].index] == m.Bits(b);
    forall x ensures Solves(m, rhs, x) <==> Solves(n, rhs, x) {
      if !Value(m.Bits(b), x) {
        XorSolves(m, cols, rhs, a, m.Bits(b), x);
      }
    }
  }

  lemma WithinXor(m: Matrix, cols: nat, rhs: nat, i: nat, s: set<nat>)
    requires Wf(m, cols) && i < |m.row| && Within(m, rhs)
    requires forall c :: c in s ==> c <= rhs
    ensures Within(XorInto(m, cols, i, s), rhs)
  {
  }

  // ---- solvability ----

  /** A contradiction row rules out every assignment. */
  lemma NoSolution(m: Matrix, cols: nat, rhs: nat, i: nat)
    requires Wf(m, cols) && Within(m, rhs) && i < |m.row| && m.row[i].pivot == rhs < cols
    ensures forall x :: !Solves(m, rhs, x)
  {
    assert m.Bits(i) == {rhs};
    forall x ensures !Solves(m, rhs, x) {
      if rhs in x {
        assert m.Bits(i) * x == {rhs};
        assert Value(m.data[m.row[i].index], x);
      }
    }
  }

  /** The solution with every free variable zero. */
  ghost function Canonical(m: Matrix, cols: nat, rhs: nat): set<nat>
    requires forall i :: 0 <= i < |m.row| ==> m.row[i].index < |m.data|
  {
    {rhs} + set i | 0 <= i < |m.row| && m.row[i].pivot < cols && rhs in m.Bits(i) :: m.row[i].pivot
  }

  /** A clean matrix is solvable. */
  lemma CleanSolvable(m: Matrix, cols: nat, rhs: nat)
    requires Wf(m, cols) && AllClean(m, cols, rhs) && rhs < cols
    ensures Solves(m, rhs, Canonical(m, cols, rhs))
  {
    var x := Canonical(m, cols, rhs);
    forall p | 0 <= p < |m.data| ensures !Value(m.data[p], x) {
      var i := RowOf(m.row, p);
      CanonicalRow(m, cols, rhs, i);
    }
  }

  lemma CanonicalRow(m: Matrix, cols: nat, rhs: nat, i: nat)
    requires Wf(m, cols) && AllClean(m, cols, rhs) && rhs < cols && i < |m.row|
    ensures !Value(m.Bits(i), Canonical(m, cols, rhs))
  {
    var x, b := Canonical(m, cols, rhs), m.Bits(i);
    CanonicalInRow(m, cols, rhs, i);
    hide Canonical, PivotOf, Wf, AllClean, Value;
    if rhs in b {
      TwoCommon(b, x, rhs, m.row[i].pivot);
    } else {
      NoneCommon(b, x);
    }
  }

  lemma TwoCommon(e: set<nat>, x: set<nat>, c: nat, d: nat)
    requires c != d && c in e && c in x && d in e && d in x && forall k :: k in e && k in x ==> k == c || k == d
    ensures !Value(e, x)
  {
    assert e * x == {c, d};
  }

  lemma NoneCommon(e: set<nat>, x: set<nat>)
    requires forall k :: k in e ==> k !in x
    ensures !Value(e, x)
  {
    assert e * x == {};
  }

  lemma CanonicalInRow(m: Matrix, cols: nat, rhs: nat, i: nat)
    requires Wf(m, cols) && AllClean(m, cols, rhs) && rhs < cols && i < |m.row|
    ensures forall c :: c in m.Bits(i) && c in Canonical(m, cols, rhs) ==>
      rhs in m.Bits(i) && (c == rhs || c == m.row[i].pivot)
    ensures rhs in m.Bits(i) ==>
      m.row[i].pivot != rhs && m.row[i].pivot in m.Bits(i) && m.row[i].pivot in Canonical(m, cols, rhs)
    ensures rhs in Canonical(m, cols, rhs)
  {
    assert Clean(m.data, m.row[i], cols, rhs);
    forall c | c in m.Bits(i) && c in Canonical(m, cols, rhs)
      ensures rhs in m.Bits(i) && (c == rhs || c == m.row[i].pivot)
    {
      if c != rhs {
        var j :| 0 <= j < |m.row| && m.row[j].pivot == c && c < cols && rhs in m.Bits(j);
        assert Clean(m.data, m.row[j], cols, rhs);
      }
    }
  }

  // ---- one elimination step ----

  /** What is left of the pivots to rise. */
  ghost function Slack(row: seq<Row>, cols: nat): nat {
    if row == [] then 0
    else Slack(row[1..], cols) + if row[0].pivot < cols then cols - row[0].pivot else 0
  }

  lemma {:induction false} SlackDrops(row: seq<Row>, cols: nat, i: nat, r: Row)
    requires i < |row| && row[i].pivot < r.pivot <= cols
    ensures Slack(row[i := r], cols) < Slack(row, cols)
  {
    if i == 0 {
      assert row[0 := r][1..] == row[1..];
    } else {
      SlackDrops(row[1..], cols, i - 1, r);
      assert row[i := r][1..] == row[1..][i - 1 := r];
    }
  }

  lemma GrowOne(row: seq<Row>, changed: set<nat>, i: nat, r: Row)
    requires OnlyGrown(row, changed) && i < |row| && row[i].pivot <= r.pivot
    ensures OnlyGrown(row[i := r], changed + {i})
  {
  }

  /** Adding a row to one that has its pivot column clears that column there and never lowers a pivot. */
  lemma StepPivot(m: Matrix, cols: nat, i: nat, b: nat)
    requires Wf(m, cols) && i < |m.row| && b < |m.row| && i != b
    requires m.row[b].pivot < cols && m.row[b].pivot in m.Bits(i)
    ensures m.row[i].pivot <= m.row[b].pivot
    ensures var n := XorInto(m, cols, i, m.Bits(b));
      && n.row[i].index == m.row[i].index
      && m.row[b].pivot !in n.Bits(i)
      && (m.row[i].pivot == m.row[b].pivot ==> m.row[i].pivot < n.row[i].pivot)
      && (m.row[i].pivot < m.row[b].pivot ==> n.row[i] == m.row[i])
  {
    var n := XorInto(m, cols, i, m.Bits(b));
    var v := Xor(m.Bits(i), m.Bits(b));
    if m.row[i].pivot < m.row[b].pivot {
      PivotUnique(v, cols, m.row[i].pivot);
    }
  }

  /** A step leaves every other clean row clean. */
  lemma StepClean(m: Matrix, cols: nat, rhs: nat, i: nat, b: nat, r: Row)
    requires Wf(m, cols) && i < |m.row| && b < |m.row| && i != b
    requires m.row[b].pivot < cols && m.row[b].pivot in m.Bits(i)
    requires r in m.row && r.index != m.row[b].index && Clean(m.data, r, cols, rhs)
    ensures Clean(XorInto(m, cols, i, m.Bits(b)).data, r, cols, rhs)
  {
    if r.pivot < cols {
      var j :| 0 <= j < |m.row| && m.row[j] == r;
      assert r.pivot !in m.Bits(b);
      if r.index != m.row[i].index {
        assert r.pivot !in m.Bits(i);
      }
    }
  }

  // ---- elimination with a queue of rows ----

  /** Rows outside the queue are clean, and nothing that matters has changed since `m0`. */
  ghost predicate Queued(m0: Matrix, m: Matrix, cols: nat, rhs: nat, queue: set<nat>, touched: set<nat>) {
    && Wf(m, cols) && Within(m, rhs) && rhs < cols && |m.row| == |m0.row|
    && SameSolutions(m0, m, rhs) && KeepsEmptyColumns(m0, m)
    && (forall i :: i in queue ==> i < |m.row|)
    && OnlyGrown(m.row, touched)
    && forall i :: 0 <= i < |m.row| && i !in queue ==> Clean(m.data, m.row[i], cols, rhs)
  }

  /** As `Queued`, while the pivot column of row `b` is being cleared in the rows before `i`. */
  ghost predicate Clearing(m0: Matrix, m: Matrix, cols: nat, rhs: nat, queue: set<nat>, touched: set<nat>, b: nat, i: nat) {
    && Wf(m, cols) && Within(m, rhs) && rhs < cols && |m.row| == |m0.row|
    && SameSolutions(m0, m, rhs) && KeepsEmptyColumns(m0, m)
    && (forall j :: j in queue ==> j < |m.row|)
    && OnlyGrown(m.row, touched)
    && b < |m.row| && b !in queue && m.row[b].pivot < cols && m.row[b].pivot != rhs
    && (forall j :: 0 <= j < |m.row| && j !in queue && j != b ==> Clean(m.data, m.row[j], cols, rhs))
    && (forall j :: 0 <= j < i && j < |m.row| && j != b ==> m.row[b].pivot !in m.Bits(j))
  }

  lemma ClearStart(m0: Matrix, m: Matrix, cols: nat, rhs: nat, queue: set<nat>, touched: set<nat>, b: nat)
    requires Queued(m0, m, cols, rhs, queue, touched) && b in queue
    requires m.row[b].pivot != cols && m.row[b].pivot != rhs
    ensures Clearing(m0, m, cols, rhs, queue - {b}, touched, b, 0)
  {
    hide SameSolutions, KeepsEmptyColumns, OnlyGrown, Clean;
  }

  lemma SkipRow(m0: Matrix, m: Matrix, cols: nat, rhs: nat, queue: set<nat>, touched: set<nat>, b: nat)
    requires Queued(m0, m, cols, rhs, queue, touched) && b in queue && m.row[b].pivot == cols
    ensures Queued(m0, m, cols, rhs, queue - {b}, touched)
  {
    hide SameSolutions, KeepsEmptyColumns, OnlyGrown;
  }

  lemma ClearStep(m0: Matrix, m: Matrix, cols: nat, rhs: nat, queue: set<nat>, touched: set<nat>, b: nat, i: nat, s: set<nat>)
    requires Clearing(m0, m, cols, rhs, queue, touched, b, i) && i < |m.row| && i != b
    requires m.row[b].pivot in m.Bits(i)
    requires s == if m.row[b].pivot <= m.row[i].pivot then {i} else {}
    ensures Clearing(m0, XorInto(m, cols, i, m.Bits(b)), cols, rhs, queue + s, touched + s, b, i + 1)
    ensures s != {} ==> Slack(XorInto(m, cols, i, m.Bits(b)).row, cols) < Slack(m.row, cols)
    ensures s == {} ==> XorInto(m, cols, i, m.Bits(b)).row == m.row
    ensures XorInto(m, cols, i, m.Bits(b)).row[b] == m.row[b]
  {
    hide SameSolutions, KeepsEmptyColumns, OnlyGrown, Clean, PivotOf, Slack;
    var n := XorInto(m, cols, i, m.Bits(b));
    BitsWithin(m, cols, rhs, b);
    XorIntoWf(m, cols, i, m.Bits(b));
    WithinXor(m, cols, rhs, i, m.Bits(b));
    XorRows(m, cols, rhs, i, b);
    SameTrans(m0, m, n, rhs);
    KeepsTrans(m0, m, n);
    StepPivot(m, cols, i, b);
    GrowOne(m.row, touched, i, n.row[i]);
    if s != {} {
      PivotAtMost(n, cols, i);
      SlackDrops(m.row, cols, i, n.row[i]);
    } else {
      assert n.row == m.row;
      assert touched + s == touched;
    }
    forall j | 0 <= j < |n.row| && j !in queue + s && j != b ensures Clean(n.data, n.row[j], cols, rhs) {
      assert n.row[j] == m.row[j];
      DistinctAt(m, cols, j, b);
      StepClean(m, cols, rhs, i, b, m.row[j]);
    }
  }

  lemma ClearPass(m0: Matrix, m: Matrix, cols: nat, rhs: nat, queue: set<nat>, touched: set<nat>, b: nat, i: nat)
    requires Clearing(m0, m, cols, rhs, queue, touched, b, i) && i < |m.row|
    requires i == b || m.row[b].pivot !in m.Bits(i)
    ensures Clearing(m0, m, cols, rhs, queue, touched, b, i + 1)
  {
    hide SameSolutions, KeepsEmptyColumns, OnlyGrown, Clean;
  }

  lemma ClearPivot(m0: Matrix, m: Matrix, cols: nat, rhs: nat, queue: set<nat>, touched: set<nat>, b: nat)
    requires Clearing(m0, m, cols, rhs, queue, touched, b, 0)
    ensures b < |m.row| && m.row[b].pivot < cols
  {
  }

  lemma SameCount(m: Matrix, cols: nat)
    requires Wf(m, cols)
    ensures |m.row| == |m.data|
  {
  }

  lemma IndexAt(m: Matrix, cols: nat, i: nat)
    requires Wf(m, cols) && i < |m.row|
    ensures m.row[i].index < |m.data|
  {
  }

  lemma BitsWithin(m: Matrix, cols: nat, rhs: nat, b: nat)
    requires Wf(m, cols) && Within(m, rhs) && b < |m.row| && rhs < cols
    ensures forall c :: c in m.Bits(b) ==> c <= rhs && c < cols
  {
  }

  lemma PivotAtMost(m: Matrix, cols: nat, i: nat)
    requires Wf(m, cols) && i < |m.row|
    ensures m.row[i].pivot <= cols
  {
  }

  lemma DistinctAt(m: Matrix, cols: nat, i: nat, j: nat)
    requires Wf(m, cols) && i < |m.row| && j < |m.row| && i != j
    ensures m.row[i].index != m.row[j].index
  {
  }

  lemma SameTrans(a: Matrix, b: Matrix, c: Matrix, rhs: nat)
    requires SameSolutions(a, b, rhs) && SameSolutions(b, c, rhs)
    ensures SameSolutions(a, c, rhs)
  {
    forall x ensures Solves(a, rhs, x) <==> Solves(c, rhs, x) {
      assert Solves(a, rhs, x) <==> Solves(b, rhs, x);
    }
  }

  lemma KeepsTrans(a: Matrix, b: Matrix, c: Matrix)
    requires KeepsEmptyColumns(a, b) && KeepsEmptyColumns(b, c)
    ensures KeepsEmptyColumns(a, c)
  {
  }

  lemma ClearEnd(m0: Matrix, m: Matrix, cols: nat, rhs: nat, queue: set<nat>, touched: set<nat>, b: nat)
    requires Clearing(m0, m, cols, rhs, queue, touched, b, |m.row|)
    ensures Queued(m0, m, cols, rhs, queue, touched)
  {
    hide SameSolutions, KeepsEmptyColumns, OnlyGrown;
    forall p | 0 <= p < |m.data| && p != m.row[b].index ensures m.row[b].pivot !in m.data[p] {
      var j := RowOf(m.row, p);
      assert m.row[b].pivot !in m.Bits(j);
    }
  }

  /** Sorting the row list of a clean matrix reduces it. */
  lemma SortReduces(m: Matrix, cols: nat, rhs: nat, row: seq<Row>)
    requires Wf(m, cols) && AllClean(m, cols, rhs)
    requires Wf(Matrix(m.data, row), cols) && SortedByPivot(row)
    ensures Reduced(Matrix(m.data, row), cols, rhs)
    ensures forall x :: Solves(Matrix(m.data, row), rhs, x) <==> Solves(m, rhs, x)
  {
    forall i | 0 <= i < |row| ensures Clean(m.data, row[i], cols, rhs) {
      var j := RowOf(m.row, row[i].index);
      assert Clean(m.data, m.row[j], cols, rhs);
      assert m.row[j] == row[i];
    }
  }

  lemma QueuedContradiction(m0: Matrix, m: Matrix, cols: nat, rhs: nat, queue: set<nat>, touched: set<nat>, b: nat)
    requires Queued(m0, m, cols, rhs, queue, touched) && b < |m.row| && m.row[b].pivot == rhs
    ensures SameSolutions(m0, m, rhs) && KeepsEmptyColumns(m0, m) && forall x :: !Solves(m, rhs, x)
  {
    hide SameSolutions, KeepsEmptyColumns, OnlyGrown, Clean, Solves;
    NoSolution(m, cols, rhs, b);
  }

  lemma ClearingContradiction(m0: Matrix, m: Matrix, cols: nat, rhs: nat, queue: set<nat>, touched: set<nat>, b: nat, i: nat)
    requires Clearing(m0, m, cols, rhs, queue, touched, b, i) && 0 < i <= |m.row| && m.row[i - 1].pivot == rhs
    ensures SameSolutions(m0, m, rhs) && KeepsEmptyColumns(m0, m) && forall x :: !Solves(m, rhs, x)
  {
    hide SameSolutions, KeepsEmptyColumns, OnlyGrown, Clean, Solves;
    NoSolution(m, cols, rhs, i - 1);
  }

  lemma QueuedGrown(m0: Matrix, m: Matrix, cols: nat, rhs: nat, queue: set<nat>, touched: set<nat>)
    requires Queued(m0, m, cols, rhs, queue, touched)
    ensures OnlyGrown(m.row, touched) && Wf(m, cols)
  {
  }

  /** Nothing is queued any more: sorting finishes the reduction. */
  lemma QueueDone(m0: Matrix, m: Matrix, cols: nat, rhs: nat, touched: set<nat>, n: Matrix)
    requires Queued(m0, m, cols, rhs, {}, touched)
    requires n.data == m.data && Wf(n, cols) && SortedByPivot(n.row)
    ensures Reduced(n, cols, rhs) && SameSolutions(m0, n, rhs) && KeepsEmptyColumns(m0, n)
  {
    SortReduces(m, cols, rhs, n.row);
    assert n == Matrix(m.data, n.row);
    forall x ensures Solves(m0, rhs, x) <==> Solves(n, rhs, x) {
      assert Solves(m0, rhs, x) <==> Solves(m, rhs, x);
    }
    forall c | EmptyColumn(m0, c) ensures EmptyColumn(n, c) {
      assert EmptyColumn(m, c);
    }
  }
}
