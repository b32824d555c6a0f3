/** Adding an equation to a reduced matrix by substituting its first column away (src/linear_matrix.cpp). */
module Substitutions {
  import opened Gf2
  import opened BitMatrices
  import opened RowOrders
  import opened LinearSystems

  ghost predicate IsEquation(e: seq<nat>, rhs: nat) {
    e != [] && Ascending(e) && e[0] < rhs && e[|e| - 1] <= rhs
  }

  /** Columns outside `s` that were empty stay empty. */
  ghost predicate KeepsOutside(m: Matrix, n: Matrix, s: set<nat>) {
    forall c :: c !in s && EmptyColumn(m, c) ==> EmptyColumn(n, c)
  }

  ghost predicate OtherPivot(m: Matrix, b: nat, c: nat) {
    exists j :: 0 <= j < |m.row| && j != b && m.row[j].pivot == c
  }

  lemma EquationBounds(e: seq<nat>, rhs: nat)
    requires IsEquation(e, rhs)
    ensures forall c :: c in Columns(e) ==> e[0] <= c <= rhs
    ensures e[0] in Columns(e)
  {
  }

  // ---- the first column is the pivot of row b ----

  /** Row `b` has taken the equation in, and the pivots of other rows among the columns of `e` before `i` are
      cleared from it. Its own pivot may be out of order. */
  ghost predicate Substituting(m0: Matrix, m: Matrix, cols: nat, rhs: nat, e: seq<nat>, b: nat, i: nat) {
    && Wf(m, cols) && Within(m, rhs) && rhs < cols && IsEquation(e, rhs) && |m.row| == |m0.row| && b < |m.row|
    && Wf(m0, cols) && Reduced(m0, cols, rhs)
    && SameWith(m0, m, rhs, Columns(e)) && KeepsOutside(m0, m, Columns(e)) && EmptyColumn(m, e[0])
    && m0.row[b].pivot == e[0] < m.row[b].pivot && m.row[b].index == m0.row[b].index
    && (forall j :: 0 <= j < |m.row| && j != b ==> m.row[j] == m0.row[j] && m.Bits(j) == m0.Bits(j))
    && (forall t :: i <= t < |e| && OtherPivot(m0, b, e[t]) ==> e[t] in m.Bits(b))
    && (forall j :: 0 <= j < |m.row| && j != b && m.row[j].pivot < cols && m.row[j].pivot in m.Bits(b) ==>
          exists t :: i <= t < |e| && e[t] == m.row[j].pivot)
  }

  lemma CleanRow(m: Matrix, cols: nat, rhs: nat, i: nat, j: nat)
    requires Wf(m, cols) && Reduced(m, cols, rhs) && i < |m.row| && j < |m.row| && i != j && m.row[i].pivot < cols
    ensures m.row[i].pivot !in m.Bits(j)
  {
    assert Clean(m.data, m.row[i], cols, rhs);
    assert m.row[i].index != m.row[j].index;
  }

  lemma PivotIn(m: Matrix, cols: nat, i: nat)
    requires Wf(m, cols) && i < |m.row| && m.row[i].pivot < cols
    ensures m.row[i].pivot in m.Bits(i)
  {
  }

  lemma PivotLeast(m: Matrix, cols: nat, i: nat)
    requires Wf(m, cols) && i < |m.row|
    ensures forall c :: c in m.Bits(i) ==> m.row[i].pivot <= c < cols
    ensures m.row[i].pivot == cols || m.row[i].pivot in m.Bits(i)
  {
  }

  lemma SubstStart(m0: Matrix, cols: nat, rhs: nat, e: seq<nat>, b: nat)
    requires Wf(m0, cols) && Within(m0, rhs) && rhs < cols && Reduced(m0, cols, rhs)
    requires IsEquation(e, rhs) && b < |m0.row| && m0.row[b].pivot == e[0]
    ensures Substituting(m0, XorInto(m0, cols, b, Columns(e)), cols, rhs, e, b, 1)
  {
    hide Reduced, PivotOf;
    var s := Columns(e);
    var m := XorInto(m0, cols, b, s);
    EquationBounds(e, rhs);
    XorIntoWf(m0, cols, b, s);
    WithinXor(m0, cols, rhs, b, s);
    XorEquation(m0, cols, rhs, b, s);
    PivotLeast(m0, cols, b);
    PivotLeast(m, cols, b);
    assert EmptyColumn(m, e[0]) by {
      forall p | 0 <= p < |m.data| ensures e[0] !in m.data[p] {
        var j := RowOf(m.row, p);
        if j != b {
          CleanRow(m0, cols, rhs, b, j);
          assert m.Bits(j) == m0.Bits(j);
        }
      }
    }
    forall t | 1 <= t < |e| && OtherPivot(m0, b, e[t]) ensures e[t] in m.Bits(b) {
      var j :| 0 <= j < |m0.row| && j != b && m0.row[j].pivot == e[t];
      CleanRow(m0, cols, rhs, j, b);
      assert e[t] in s;
    }
    forall j | 0 <= j < |m.row| && j != b && m.row[j].pivot < cols && m.row[j].pivot in m.Bits(b)
      ensures exists t :: 1 <= t < |e| && e[t] == m.row[j].pivot
    {
      CleanRow(m0, cols, rhs, j, b);
      assert m.row[j].pivot in e;
      PivotIn(m0, cols, j);
      CleanRow(m0, cols, rhs, b, j);
      var t :| 0 <= t < |e| && e[t] == m.row[j].pivot;
    }
  }

  /** A lookup of a later column finds the other row with that pivot, although row `b` may be out of order:
      row `b` still has that column, so its pivot does not lie beyond it. */
  lemma LookupRight(m0: Matrix, m: Matrix, cols: nat, rhs: nat, e: seq<nat>, b: nat, i: nat, j: nat, bound: nat)
    requires Substituting(m0, m, cols, rhs, e, b, i) && 0 < i < |e|
    requires j < |m.row| && j != b && m.row[j].pivot == e[i]
    requires SplitAt(m.row, e[i]) ==> forall k :: 0 <= k < |m.row| ==> (m.row[k].pivot <= e[i] <==> k < bound)
    requires bound <= |m.row|
    ensures bound == j + 1
  {
    hide PivotOf, SameWith, KeepsOutside, Within, AllClean;
    assert m0.row[j].pivot == e[i];
    assert OtherPivot(m0, b, e[i]);
    PivotLeast(m, cols, b);
    assert m.row[b].pivot <= e[i];
    assert SortedByPivot(m0.row);
    assert e[0] < e[i];
    forall k, l | 0 <= k < l < |m.row| && m.row[l].pivot <= e[i] ensures m.row[k].pivot <= e[i] {
      assert m0.row[k].pivot <= m0.row[l].pivot;
    }
    assert SplitAt(m.row, e[i]);
    if bound > j + 1 {
      var k := bound - 1;
      assert m.row[k].pivot <= e[i];
      assert m0.row[j].pivot <= m0.row[k].pivot;
      SamePivot(m0, cols, rhs, j, k);
    }
  }

  lemma SamePivot(m: Matrix, cols: nat, rhs: nat, i: nat, j: nat)
    requires Wf(m, cols) && Reduced(m, cols, rhs) && i < |m.row| && j < |m.row|
    requires m.row[i].pivot == m.row[j].pivot < cols
    ensures i == j
  {
    if i != j {
      PivotIn(m, cols, j);
      CleanRow(m, cols, rhs, i, j);
    }
  }

  lemma PivotsDiffer(m: Matrix, cols: nat, rhs: nat, i: nat, j: nat)
    requires Wf(m, cols) && Reduced(m, cols, rhs) && i < |m.row| && j < |m.row|
    ensures i != j && m.row[i].pivot < cols ==> m.row[i].pivot != m.row[j].pivot
  {
    if m.row[i].pivot == m.row[j].pivot < cols {
      SamePivot(m, cols, rhs, i, j);
    }
  }

  lemma SubstStep(m0: Matrix, m: Matrix, cols: nat, rhs: nat, e: seq<nat>, b: nat, i: nat, r: nat)
    requires Substituting(m0, m, cols, rhs, e, b, i) && 0 < i < |e|
    requires r < |m.row| && r != b && m.row[r].pivot == e[i]
    ensures Substituting(m0, XorInto(m, cols, b, m.Bits(r)), cols, rhs, e, b, i + 1)
  {
    hide Reduced, PivotOf, SameWith, KeepsOutside, EmptyColumn;
    var n := XorInto(m, cols, b, m.Bits(r));
    BitsWithin(m, cols, rhs, r);
    XorIntoWf(m, cols, b, m.Bits(r));
    WithinXor(m, cols, rhs, b, m.Bits(r));
    XorRows(m, cols, rhs, b, r);
    SameWithMore(m0, m, n, cols, rhs, Columns(e));
    KeepsOutsideMore(m0, m, n, Columns(e), e[0]);
    PivotLeast(m, cols, b);
    PivotLeast(m, cols, r);
    PivotLeast(n, cols, b);
    assert e[0] < e[i];
    assert OtherPivot(m0, b, e[i]);
    forall t | i + 1 <= t < |e| && OtherPivot(m0, b, e[t]) ensures e[t] in n.Bits(b) {
      var j :| 0 <= j < |m0.row| && j != b && m0.row[j].pivot == e[t];
      assert e[i] < e[t];
      CleanRow(m0, cols, rhs, j, r);
    }
    forall j | 0 <= j < |n.row| && j != b && n.row[j].pivot < cols && n.row[j].pivot in n.Bits(b)
      ensures exists t :: i + 1 <= t < |e| && e[t] == n.row[j].pivot
    {
      if j != r {
        CleanRow(m0, cols, rhs, j, r);
      }
      PivotsDiffer(m0, cols, rhs, j, r);
      var t :| i <= t < |e| && e[t] == m.row[j].pivot;
      assert t != i;
    }
  }

  lemma SameWithMore(m0: Matrix, m: Matrix, n: Matrix, cols: nat, rhs: nat, s: set<nat>)
    requires SameWith(m0, m, rhs, s) && SameSolutions(m, n, rhs)
    ensures SameWith(m0, n, rhs, s)
  {
    forall x | !Value(s, x) ensures Solves(m0, rhs, x) <==> Solves(n, rhs, x) {
      assert Solves(m, rhs, x) <==> Solves(n, rhs, x);
    }
  }

  lemma KeepsOutsideMore(m0: Matrix, m: Matrix, n: Matrix, s: set<nat>, c: nat)
    requires KeepsOutside(m0, m, s) && KeepsEmptyColumns(m, n) && EmptyColumn(m, c)
    ensures KeepsOutside(m0, n, s) && EmptyColumn(n, c)
  {
  }

  lemma SubstPass(m0: Matrix, m: Matrix, cols: nat, rhs: nat, e: seq<nat>, b: nat, i: nat)
    requires Substituting(m0, m, cols, rhs, e, b, i) && 0 < i < |e| && !OtherPivot(m0, b, e[i])
    ensures Substituting(m0, m, cols, rhs, e, b, i + 1)
  {
  }

  lemma SubstDone(m0: Matrix, m: Matrix, cols: nat, rhs: nat, e: seq<nat>, b: nat)
    requires Substituting(m0, m, cols, rhs, e, b, |e|)
    ensures Queued(m, m, cols, rhs, {b}, {b})
  {
    hide PivotOf, SameWith, KeepsOutside, EmptyColumn, Within;
    assert SortedByPivot(m0.row);
    GrownFromSorted(m0.row, m.row, {b});
    forall j | 0 <= j < |m.row| && j !in {b} ensures Clean(m.data, m.row[j], cols, rhs) {
      assert Clean(m0.data, m0.row[j], cols, rhs);
      forall p | 0 <= p < |m.data| && p != m.row[j].index && m.row[j].pivot < cols ensures m.row[j].pivot !in m.data[p] {
        var k := RowOf(m.row, p);
        if k != b {
          assert m.Bits(k) == m0.Bits(k);
        }
      }
    }
    SameRefl(m, rhs);
  }

  lemma SameRefl(m: Matrix, rhs: nat)
    ensures SameSolutions(m, m, rhs) && KeepsEmptyColumns(m, m)
  {
  }

  // ---- the first column is no pivot ----

  /** The equation has been added to the rows before `r` that have its first column. */
  ghost predicate Adding(m0: Matrix, m: Matrix, cols: nat, rhs: nat, e: seq<nat>, r: nat) {
    && Wf(m, cols) && Within(m, rhs) && rhs < cols && IsEquation(e, rhs)
    && Wf(m0, cols) && Reduced(m0, cols, rhs) && m.row == m0.row && r <= |m.row|
    && !OtherPivot(m0, |m0.row|, e[0])
    && SameWith(m0, m, rhs, Columns(e)) && KeepsOutside(m0, m, Columns(e))
    && (forall j :: 0 <= j < |m.row| ==>
          m.Bits(j) == if j < r && e[0] in m0.Bits(j) then Xor(m0.Bits(j), Columns(e)) else m0.Bits(j))
  }

  lemma AddStart(m0: Matrix, cols: nat, rhs: nat, e: seq<nat>)
    requires Wf(m0, cols) && Within(m0, rhs) && rhs < cols && Reduced(m0, cols, rhs)
    requires IsEquation(e, rhs) && !OtherPivot(m0, |m0.row|, e[0])
    ensures Adding(m0, m0, cols, rhs, e, 0)
  {
  }

  lemma AddStep(m0: Matrix, m: Matrix, cols: nat, rhs: nat, e: seq<nat>, r: nat)
    requires Adding(m0, m, cols, rhs, e, r) && r < |m.row| && e[0] in m.Bits(r)
    ensures Adding(m0, XorInto(m, cols, r, Columns(e)), cols, rhs, e, r + 1)
  {
    hide Reduced, PivotOf, SameWith, KeepsOutside, EmptyColumn;
    var s := Columns(e);
    var n := XorInto(m, cols, r, s);
    EquationBounds(e, rhs);
    XorIntoWf(m, cols, r, s);
    WithinXor(m, cols, rhs, r, s);
    XorEquation(m, cols, rhs, r, s);
    SameWithTrans(m0, m, n, rhs, s);
    KeepsXor(m0, m, cols, r, s);
    PivotLeast(m, cols, r);
    assert m.row[r].pivot != e[0];
    PivotUnique(Xor(m.Bits(r), s), cols, m.row[r].pivot);
    assert n.row == m.row;
  }

  lemma SameWithTrans(m0: Matrix, m: Matrix, n: Matrix, rhs: nat, s: set<nat>)
    requires SameWith(m0, m, rhs, s) && SameWith(m, n, rhs, s)
    ensures SameWith(m0, n, rhs, s)
  {
    forall x | !Value(s, x) ensures Solves(m0, rhs, x) <==> Solves(n, rhs, x) {
      assert Solves(m, rhs, x) <==> Solves(n, rhs, x);
    }
  }

  lemma KeepsXor(m0: Matrix, m: Matrix, cols: nat, i: nat, s: set<nat>)
    requires Wf(m, cols) && i < |m.row| && KeepsOutside(m0, m, s)
    ensures KeepsOutside(m0, XorInto(m, cols, i, s), s)
  {
    forall c | c !in s && EmptyColumn(m0, c) ensures EmptyColumn(XorInto(m, cols, i, s), c) {
      assert EmptyColumn(m, c);
    }
  }

  lemma AddPass(m0: Matrix, m: Matrix, cols: nat, rhs: nat, e: seq<nat>, r: nat)
    requires Adding(m0, m, cols, rhs, e, r) && r < |m.row| && e[0] !in m.Bits(r)
    ensures Adding(m0, m, cols, rhs, e, r + 1)
  {
    hide Reduced, PivotOf, SameWith, KeepsOutside, EmptyColumn;
  }

  /** Rows from the upper bound of the first column on cannot have that column. */
  lemma AddDone(m0: Matrix, m: Matrix, cols: nat, rhs: nat, e: seq<nat>, r: nat)
    requires Adding(m0, m, cols, rhs, e, r)
    requires forall j :: r <= j < |m.row| ==> e[0] < m.row[j].pivot
    ensures EmptyColumn(m, e[0])
  {
    hide Reduced, PivotOf, SameWith, KeepsOutside;
    forall p | 0 <= p < |m.data| ensures e[0] !in m.data[p] {
      var j := RowOf(m.row, p);
      PivotLeast(m, cols, j);
      assert e[0] in Columns(e);
      assert p == m.row[j].index;
    }
  }

  /** Rows whose pivot is among the later columns of the equation are the ones to eliminate with again. */
  lemma AddQueue(m0: Matrix, m: Matrix, cols: nat, rhs: nat, e: seq<nat>, r: nat, queue: set<nat>)
    requires Adding(m0, m, cols, rhs, e, r)
    requires forall j :: j in queue ==> j < |m.row|
    requires forall j :: 0 <= j < |m.row| && m.row[j].pivot in e[1..] ==> j in queue
    ensures Queued(m, m, cols, rhs, queue, {})
  {
    hide PivotOf, SameWith, KeepsOutside, EmptyColumn, Within;
    SameRefl(m, rhs);
    assert e == [e[0]] + e[1..];
    forall j | 0 <= j < |m.row| && j !in queue ensures Clean(m.data, m.row[j], cols, rhs) {
      assert Clean(m0.data, m0.row[j], cols, rhs);
      assert m.row[j].pivot !in Columns(e);
      forall p | 0 <= p < |m.data| && p != m.row[j].index && m.row[j].pivot < cols ensures m.row[j].pivot !in m.data[p] {
        var k := RowOf(m.row, p);
        CleanRow(m0, cols, rhs, j, k);
        assert m.Bits(k) == m.data[p];
      }
    }
  }

  lemma NothingQueued(m: Matrix, cols: nat, rhs: nat)
    requires Queued(m, m, cols, rhs, {}, {})
    ensures Reduced(m, cols, rhs)
  {
  }

  // ---- the verdict ----

  /** When the first column has been substituted away, it can be chosen to meet the equation. */
  lemma Completed(m0: Matrix, m: Matrix, cols: nat, rhs: nat, e: seq<nat>)
    requires Wf(m, cols) && Reduced(m, cols, rhs) && rhs < cols && IsEquation(e, rhs)
    requires EmptyColumn(m, e[0]) && SameWith(m0, m, rhs, Columns(e))
    ensures exists x :: Solves(m0, rhs, x) && !Value(Columns(e), x)
  {
    hide PivotOf;
    CleanSolvable(m, cols, rhs);
    var x := Canonical(m, cols, rhs);
    if Value(Columns(e), x) {
      var y := Xor(x, {e[0]});
      ValueFlip(Columns(e), x, e[0]);
      forall p | 0 <= p < |m.data| ensures !Value(m.data[p], y) {
        ValueFlip(m.data[p], x, e[0]);
      }
      assert Solves(m, rhs, y);
      assert Solves(m0, rhs, y) && !Value(Columns(e), y);
    } else {
      assert Solves(m0, rhs, x);
    }
  }

  lemma Refuted(m0: Matrix, m: Matrix, rhs: nat, s: set<nat>)
    requires SameWith(m0, m, rhs, s) && forall x :: !Solves(m, rhs, x)
    ensures forall x :: Solves(m0, rhs, x) ==> Value(s, x)
  {
  }

  /** The columns of an equation whose right-hand side is `c`. */
  function WithRhs(equation: seq<nat>, c: bool, rhs: nat): set<nat> {
    Columns(equation) + if c then {rhs} else {}
  }

  lemma AppendRhs(equation: seq<nat>, c: bool, rhs: nat, e: seq<nat>)
    requires equation != [] && Ascending(equation) && equation[|equation| - 1] < rhs
    requires e == if c then equation + [rhs] else equation
    ensures IsEquation(e, rhs) && e[0] == equation[0] && Columns(e) == WithRhs(equation, c, rhs)
  {
    assert equation[0] <= equation[|equation| - 1];
    forall i, j | 0 <= i < j < |e| ensures e[i] < e[j] {
      if j == |equation| {
        assert i == |equation| - 1 || equation[i] < equation[|equation| - 1];
      }
    }
  }

  // ---- facts handed to the loops ----

  lemma SubstSizes(m0: Matrix, m: Matrix, cols: nat, rhs: nat, e: seq<nat>, b: nat, i: nat)
    requires Substituting(m0, m, cols, rhs, e, b, i)
    ensures b < |m.row| && IsEquation(e, rhs)
  {
  }

  lemma SubstLookup(m0: Matrix, m: Matrix, cols: nat, rhs: nat, e: seq<nat>, b: nat, i: nat, bound: nat)
    requires Substituting(m0, m, cols, rhs, e, b, i) && 0 < i < |e| && bound <= |m.row|
    requires SplitAt(m.row, e[i]) ==> forall k :: 0 <= k < |m.row| ==> (m.row[k].pivot <= e[i] <==> k < bound)
    ensures OtherPivot(m0, b, e[i]) <==> bound > 0 && bound - 1 != b && m.row[bound - 1].pivot == e[i]
  {
    hide PivotOf, SameWith, KeepsOutside, Within, Reduced, SplitAt, Wf, EmptyColumn, IsEquation;
    if OtherPivot(m0, b, e[i]) {
      var j :| 0 <= j < |m0.row| && j != b && m0.row[j].pivot == e[i];
      LookupRight(m0, m, cols, rhs, e, b, i, j, bound);
    } else if bound > 0 && bound - 1 != b {
      assert m0.row[bound - 1].pivot != e[i];
    }
  }

  lemma SubstParts(m0: Matrix, m: Matrix, cols: nat, rhs: nat, e: seq<nat>, b: nat)
    requires Substituting(m0, m, cols, rhs, e, b, |e|)
    ensures SameWith(m0, m, rhs, Columns(e)) && KeepsOutside(m0, m, Columns(e)) && EmptyColumn(m, e[0])
  {
  }

  lemma AddSizes(m0: Matrix, m: Matrix, cols: nat, rhs: nat, e: seq<nat>, r: nat)
    requires Adding(m0, m, cols, rhs, e, r)
    ensures r <= |m.row| && IsEquation(e, rhs)
  {
  }

  lemma AddParts(m0: Matrix, m: Matrix, cols: nat, rhs: nat, e: seq<nat>, r: nat)
    requires Adding(m0, m, cols, rhs, e, r)
    requires forall j :: r <= j < |m0.row| ==> e[0] < m0.row[j].pivot
    ensures SameWith(m0, m, rhs, Columns(e)) && KeepsOutside(m0, m, Columns(e)) && EmptyColumn(m, e[0])
    ensures SortedByPivot(m.row) && e != []
    ensures forall j, k :: 0 <= j < k < |m.row| && m.row[j].pivot in e ==> m.row[j].pivot != m.row[k].pivot
  {
    hide PivotOf, SameWith, KeepsOutside, Within;
    AddDone(m0, m, cols, rhs, e, r);
    assert SortedByPivot(m0.row);
    forall j, k | 0 <= j < k < |m.row| && m.row[j].pivot in e ensures m.row[j].pivot != m.row[k].pivot {
      EquationBounds(e, rhs);
      assert m.row[j].pivot in Columns(e);
      PivotsDiffer(m0, cols, rhs, j, k);
    }
  }

  lemma LookupFirst(m0: Matrix, cols: nat, rhs: nat, col: nat, bound: nat)
    requires Wf(m0, cols) && Reduced(m0, cols, rhs) && bound <= |m0.row|
    requires SplitAt(m0.row, col) ==> forall k :: 0 <= k < |m0.row| ==> (m0.row[k].pivot <= col <==> k < bound)
    ensures forall j :: bound <= j < |m0.row| ==> col < m0.row[j].pivot
    ensures bound == 0 || m0.row[bound - 1].pivot != col ==> !OtherPivot(m0, |m0.row|, col)
  {
    hide PivotOf, Wf, AllClean;
    assert SortedByPivot(m0.row);
    assert SplitAt(m0.row, col);
    if OtherPivot(m0, |m0.row|, col) {
      var j :| 0 <= j < |m0.row| && m0.row[j].pivot == col;
      assert m0.row[j].pivot <= m0.row[bound - 1].pivot;
    }
  }

  lemma AfterGauss(m0: Matrix, m: Matrix, n: Matrix, rhs: nat, s: set<nat>, c: nat)
    requires SameWith(m0, m, rhs, s) && KeepsOutside(m0, m, s) && EmptyColumn(m, c)
    requires SameSolutions(m, n, rhs) && KeepsEmptyColumns(m, n)
    ensures SameWith(m0, n, rhs, s) && KeepsOutside(m0, n, s) && EmptyColumn(n, c)
  {
    forall x | !Value(s, x) ensures Solves(m0, rhs, x) <==> Solves(n, rhs, x) {
      assert Solves(m, rhs, x) <==> Solves(n, rhs, x);
    }
  }

  lemma SameWithUse(m0: Matrix, n: Matrix, rhs: nat, s: set<nat>)
    requires SameWith(m0, n, rhs, s)
    ensures forall x :: !Value(s, x) ==> (Solves(n, rhs, x) <==> Solves(m0, rhs, x))
  {
  }
}
