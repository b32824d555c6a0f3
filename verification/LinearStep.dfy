/** A step with a linear function: conditions become equations, and the probability of the step is read off the
    rank (src/linear_step.h). */
module LinearSteps {
  import opened Gf2
  import opened Counting
  import opened BitMatrices
  import opened RowOrders
  import opened LinearSystems
  import opened Substitutions
  import opened LinearFunctions
  import opened PairReadings
  import opened LinearConditionsModule

  // ---- the equations of all conditions ----

  ghost function PairEqs(c: Cond, b: nat, rhs: nat): seq<set<nat>> {
    seq(|Equations(c)|, i requires 0 <= i < |Equations(c)| =>
      WithRhs(PairColumns(Equations(c)[i], b), Equations(c)[i].rhs, rhs))
  }

  ghost function PairLeads(c: Cond, b: nat): seq<nat> {
    seq(|Equations(c)|, i requires 0 <= i < |Equations(c)| => Lead(Equations(c)[i], b))
  }

  /** Equations of the conditions at positions `lo` up to `hi`. */
  ghost function CondEqs(conds: seq<Cond>, lo: nat, hi: nat, rhs: nat): seq<set<nat>>
    requires lo <= hi <= |conds|
  {
    if lo == hi then [] else CondEqs(conds, lo, hi - 1, rhs) + PairEqs(conds[hi - 1], hi - 1, rhs)
  }

  ghost function CondLeads(conds: seq<Cond>, lo: nat, hi: nat): seq<nat>
    requires lo <= hi <= |conds|
  {
    if lo == hi then [] else CondLeads(conds, lo, hi - 1) + PairLeads(conds[hi - 1], hi - 1)
  }

  ghost function NumEqs(conds: seq<Cond>, lo: nat, hi: nat): nat
    requires lo <= hi <= |conds|
  {
    if lo == hi then 0 else NumEqs(conds, lo, hi - 1) + |Equations(conds[hi - 1])|
  }

  ghost predicate AllMet(conds: seq<Cond>, lo: nat, hi: nat, x: set<nat>)
    requires lo <= hi <= |conds|
  {
    forall b :: lo <= b < hi ==> Meets(conds[b], b, x)
  }

  ghost predicate AllLinear(conds: seq<Cond>) {
    forall b :: 0 <= b < |conds| ==> Linear4(conds[b])
  }

  lemma {:induction false} CondSizes(conds: seq<Cond>, lo: nat, hi: nat, rhs: nat)
    requires lo <= hi <= |conds|
    ensures |CondEqs(conds, lo, hi, rhs)| == |CondLeads(conds, lo, hi)| == NumEqs(conds, lo, hi)
    decreases hi
  {
    hide Equations;
    if lo < hi {
      CondSizes(conds, lo, hi - 1, rhs);
    }
  }

  lemma TriangularAppend(columns: set<nat>, a: seq<set<nat>>, la: seq<nat>, b: seq<set<nat>>, lb: seq<nat>)
    requires Triangular(columns, a, la) && Triangular(columns, b, lb)
    requires forall l, e :: l in lb && e in a ==> l !in e
    ensures Triangular(columns, a + b, la + lb)
  {
    var eqs, leads := a + b, la + lb;
    forall i, j | 0 <= j < i < |eqs| ensures leads[i] !in eqs[j] {
      if j < |a| <= i {
        assert lb[i - |a|] in lb && a[j] in a;
      }
    }
  }

  lemma PairTriangular(columns: set<nat>, c: Cond, b: nat, rhs: nat)
    requires 2 * b + 1 < rhs && 2 * b in columns && 2 * b + 1 in columns
    ensures Triangular(columns, PairEqs(c, b, rhs), PairLeads(c, b))
    ensures forall e :: e in PairEqs(c, b, rhs) ==> e <= {2 * b, 2 * b + 1, rhs}
    ensures forall l :: l in PairLeads(c, b) ==> l == 2 * b || l == 2 * b + 1
  {
    EquationForms(c);
    hide Equations;
    forall i | 0 <= i < |Equations(c)|
      ensures PairLeads(c, b)[i] in PairEqs(c, b, rhs)[i] && PairEqs(c, b, rhs)[i] <= {2 * b, 2 * b + 1, rhs}
    {
      assert Equations(c)[i] in Equations(c);
      PairSet(Equations(c)[i], b, rhs);
    }
    if |Equations(c)| == 2 {
      assert Equations(c)[0] in Equations(c);
      PairSet(Equations(c)[0], b, rhs);
    }
  }

  lemma {:induction false} CondTriangular(columns: set<nat>, conds: seq<Cond>, lo: nat, hi: nat, rhs: nat)
    requires lo <= hi <= |conds| && 2 * hi <= rhs
    requires forall c :: 2 * lo <= c < 2 * hi ==> c in columns
    ensures Triangular(columns, CondEqs(conds, lo, hi, rhs), CondLeads(conds, lo, hi))
    ensures forall e, c :: e in CondEqs(conds, lo, hi, rhs) && c in e ==> c < 2 * hi || c == rhs
    ensures forall l :: l in CondLeads(conds, lo, hi) ==> 2 * lo <= l < 2 * hi
    decreases hi
  {
    hide Triangular, PairEqs, PairLeads;
    if lo < hi {
      CondTriangular(columns, conds, lo, hi - 1, rhs);
      PairTriangular(columns, conds[hi - 1], hi - 1, rhs);
      TriangularAppend(columns, CondEqs(conds, lo, hi - 1, rhs), CondLeads(conds, lo, hi - 1),
                       PairEqs(conds[hi - 1], hi - 1, rhs), PairLeads(conds[hi - 1], hi - 1));
    } else {
      NoneTriangular(columns);
    }
  }

  lemma NoneTriangular(columns: set<nat>)
    ensures Triangular(columns, [], [])
  {
  }

  ghost predicate AllZero(eqs: seq<set<nat>>, x: set<nat>) {
    forall i :: 0 <= i < |eqs| ==> !Value(eqs[i], x)
  }

  lemma ZeroAppend(a: seq<set<nat>>, b: seq<set<nat>>, x: set<nat>)
    ensures AllZero(a + b, x) <==> AllZero(a, x) && AllZero(b, x)
  {
    if AllZero(a + b, x) {
      forall i | 0 <= i < |a| ensures !Value(a[i], x) {
        assert (a + b)[i] == a[i];
      }
      forall i | 0 <= i < |b| ensures !Value(b[i], x) {
        assert (a + b)[|a| + i] == b[i];
      }
    }
  }

  lemma PairZero(c: Cond, b: nat, rhs: nat, x: set<nat>)
    requires 2 * b + 1 < rhs && rhs in x && Linear4(c)
    ensures AllZero(PairEqs(c, b, rhs), x) <==> Meets(c, b, x)
  {
    CodeParts(x, b);
    EquationForms(c);
    EquationsMean(c, Code(x, b));
    hide Equations, Table, Value;
    forall i | 0 <= i < |Equations(c)|
      ensures !Value(PairEqs(c, b, rhs)[i], x) <==>
        Code(x, b) in Table(Equations(c)[i].first, Equations(c)[i].second, Equations(c)[i].rhs)
    {
      assert Equations(c)[i] in Equations(c);
      EquationMeans(Equations(c)[i], b, rhs, x);
    }
  }

  /** The equations of linear conditions hold exactly when the conditions are met. */
  lemma {:induction false} CondZero(conds: seq<Cond>, lo: nat, hi: nat, rhs: nat, x: set<nat>)
    requires lo <= hi <= |conds| && 2 * hi <= rhs && rhs in x && AllLinear(conds)
    ensures AllZero(CondEqs(conds, lo, hi, rhs), x) <==> AllMet(conds, lo, hi, x)
    decreases hi
  {
    hide AllZero, PairEqs, Meets, Equations;
    if lo < hi {
      CondZero(conds, lo, hi - 1, rhs, x);
      PairZero(conds[hi - 1], hi - 1, rhs, x);
      ZeroAppend(CondEqs(conds, lo, hi - 1, rhs), PairEqs(conds[hi - 1], hi - 1, rhs), x);
    } else {
      assert AllZero([], x) by {
        NoneZero(x);
      }
    }
  }

  lemma NoneZero(x: set<nat>)
    ensures AllZero([], x)
  {
  }

  // ---- the equations of a reduced matrix ----

  ghost function RowEqs(m: Matrix, cols: nat, n: nat): seq<set<nat>>
    requires n <= |m.row| && Indexed(m)
  {
    if n == 0 then []
    else RowEqs(m, cols, n - 1) + if m.row[n - 1].pivot < cols then [m.Bits(n - 1)] else []
  }

  ghost function RowLeads(m: Matrix, cols: nat, n: nat): seq<nat>
    requires n <= |m.row|
  {
    if n == 0 then []
    else RowLeads(m, cols, n - 1) + if m.row[n - 1].pivot < cols then [m.row[n - 1].pivot] else []
  }

  lemma {:induction false} RowsTriangular(m: Matrix, cols: nat, rhs: nat, columns: set<nat>, n: nat)
    requires Wf(m, cols) && Reduced(m, cols, rhs) && rhs < cols && Indexed(m) && n <= |m.row|
    requires forall i :: 0 <= i < |m.row| && m.row[i].pivot < cols ==> m.row[i].pivot in columns
    ensures Triangular(columns, RowEqs(m, cols, n), RowLeads(m, cols, n))
    ensures |RowEqs(m, cols, n)| == PivotRows(m.row, cols, n)
    ensures forall e :: e in RowEqs(m, cols, n) ==> exists i :: 0 <= i < n && e == m.Bits(i)
  {
    hide PivotOf, Triangular, Reduced, Wf;
    if n > 0 {
      RowsTriangular(m, cols, rhs, columns, n - 1);
      if m.row[n - 1].pivot < cols {
        var p := m.row[n - 1].pivot;
        PivotIn(m, cols, n - 1);
        OneTriangular(columns, m.Bits(n - 1), p);
        forall l, e | l in [p] && e in RowEqs(m, cols, n - 1) ensures l !in e {
          var i :| 0 <= i < n - 1 && e == m.Bits(i);
          CleanRow(m, cols, rhs, n - 1, i);
        }
        TriangularAppend(columns, RowEqs(m, cols, n - 1), RowLeads(m, cols, n - 1), [m.Bits(n - 1)], [p]);
      } else {
        assert RowEqs(m, cols, n) == RowEqs(m, cols, n - 1) && RowLeads(m, cols, n) == RowLeads(m, cols, n - 1);
      }
      forall e | e in RowEqs(m, cols, n) ensures exists i :: 0 <= i < n && e == m.Bits(i) {
        if e in RowEqs(m, cols, n - 1) {
          var i :| 0 <= i < n - 1 && e == m.Bits(i);
        } else {
          assert e == m.Bits(n - 1);
        }
      }
    } else {
      NoneTriangular(columns);
    }
  }

  lemma OneTriangular(columns: set<nat>, e: set<nat>, l: nat)
    requires l in e && l in columns
    ensures Triangular(columns, [e], [l])
  {
  }

  lemma NextRowZero(m: Matrix, cols: nat, n: nat, x: set<nat>)
    requires Wf(m, cols) && Indexed(m) && 0 < n <= |m.row|
    ensures AllZero(RowEqs(m, cols, n), x) <==> AllZero(RowEqs(m, cols, n - 1), x) && !Value(m.Bits(n - 1), x)
  {
    var b, last := m.Bits(n - 1), m.row[n - 1].pivot < cols;
    PivotLeast(m, cols, n - 1);
    assert RowEqs(m, cols, n) == RowEqs(m, cols, n - 1) + if last then [b] else [];
    hide AllZero, Value, PivotOf, Wf, Indexed, RowEqs;
    if last {
      ZeroAppend(RowEqs(m, cols, n - 1), [b], x);
      OneZero(b, x);
    } else {
      assert b == {};
      EmptyValue(x);
      assert RowEqs(m, cols, n - 1) + [] == RowEqs(m, cols, n - 1);
    }
  }

  lemma {:induction false} RowsZero(m: Matrix, cols: nat, n: nat, x: set<nat>)
    requires Wf(m, cols) && Indexed(m) && n <= |m.row|
    ensures AllZero(RowEqs(m, cols, n), x) <==> forall i :: 0 <= i < n ==> !Value(m.Bits(i), x)
  {
    hide AllZero, Value, PivotOf;
    if n > 0 {
      RowsZero(m, cols, n - 1, x);
      NextRowZero(m, cols, n, x);
    } else {
      NoneZero(x);
    }
  }

  lemma OneZero(e: set<nat>, x: set<nat>)
    ensures AllZero([e], x) <==> !Value(e, x)
  {
    assert [e][0] == e;
  }

  lemma RowsSolve(m: Matrix, cols: nat, rhs: nat, x: set<nat>)
    requires Wf(m, cols) && Indexed(m) && rhs in x
    ensures AllZero(RowEqs(m, cols, |m.row|), x) <==> Solves(m, rhs, x)
  {
    hide AllZero, Value, PivotOf;
    RowsZero(m, cols, |m.row|, x);
    if forall i :: 0 <= i < |m.row| ==> !Value(m.Bits(i), x) {
      forall p | 0 <= p < |m.data| ensures !Value(m.data[p], x) {
        var i := RowOf(m.row, p);
        assert !Value(m.Bits(i), x);
      }
    }
  }

  // ---- counting input pairs ----

  /** Columns below `n`. */
  ghost function ColumnsBelow(n: nat): set<nat> {
    Below(n)
  }

  ghost function InputColumns(s: Shape): set<nat> {
    Below(2 * s.Positions()) - Below(2 * s.OutCount())
  }

  /** Input pairs that meet the input conditions. */
  ghost function InputPairs(s: Shape, conds: seq<Cond>): set<set<nat>>
    requires |conds| == s.Positions() && s.OutCount() <= s.Positions()
  {
    set u: set<nat> | u <= InputColumns(s) && AllMet(conds, s.OutCount(), s.Positions(), u)
  }

  /** The inputs with the outputs of the function for both messages. */
  ghost function Complete(s: Shape, f: set<Bit> -> set<Bit>, u: set<nat>): set<nat> {
    u + (set o | o in s.OutBits() && o in f(Inputs(s, u, 0)) :: OutCol(s, o, 0))
      + (set o | o in s.OutBits() && o in f(Inputs(s, u, 1)) :: OutCol(s, o, 1))
  }

  function OutCol(s: Shape, o: Bit, t: nat): nat {
    if o.word < s.outs && o.bit < s.size then 2 * s.OutPos(o) + t else 0
  }

  /** Input pairs that meet the input conditions and whose outputs meet the output conditions. */
  ghost function GoodPairs(s: Shape, f: set<Bit> -> set<Bit>, conds: seq<Cond>): set<set<nat>>
    requires |conds| == s.Positions() && s.OutCount() <= s.Positions()
  {
    set u | u in InputPairs(s, conds) && AllMet(conds, 0, s.OutCount(), Complete(s, f, u))
  }

  /** Pairs of function graphs that meet all conditions. */
  ghost function GraphPairs(s: Shape, f: set<Bit> -> set<Bit>, conds: seq<Cond>): set<set<nat>>
    requires |conds| == s.Positions() && s.OutCount() <= s.Positions()
  {
    set x: set<nat> | x <= ColumnsBelow(2 * s.Positions()) && IsGraph(s, f, x) && AllMet(conds, 0, s.Positions(), x)
  }

  lemma MeetsSame(c: Cond, b: nat, x: set<nat>, y: set<nat>)
    requires (2 * b in x <==> 2 * b in y) && (2 * b + 1 in x <==> 2 * b + 1 in y)
    ensures Meets(c, b, x) <==> Meets(c, b, y)
  {
  }

  lemma AllMetSame(conds: seq<Cond>, lo: nat, hi: nat, x: set<nat>, y: set<nat>)
    requires lo <= hi <= |conds|
    requires forall c: nat :: 2 * lo <= c < 2 * hi ==> (c in x <==> c in y)
    ensures AllMet(conds, lo, hi, x) <==> AllMet(conds, lo, hi, y)
  {
    forall b | lo <= b < hi ensures Meets(conds[b], b, x) <==> Meets(conds[b], b, y) {
      MeetsSame(conds[b], b, x, y);
    }
  }

  lemma InColBounds(s: Shape, b: Bit, t: nat)
    requires b in s.InBits() && t < 2
    ensures 2 * s.OutCount() <= s.InCol(b, t) < 2 * s.Positions()
  {
    PosBounds(s, b, b);
  }

  lemma OutColBounds(s: Shape, o: Bit, t: nat)
    requires o in s.OutBits() && t < 2
    ensures OutCol(s, o, t) == 2 * s.OutPos(o) + t < 2 * s.OutCount()
    ensures OutCol(s, o, t) / 2 == s.OutPos(o) && OutCol(s, o, t) % 2 == t
  {
    PosBounds(s, o, o);
  }

  lemma InputsSame(s: Shape, x: set<nat>, y: set<nat>, t: nat)
    requires t < 2
    requires forall c: nat :: 2 * s.OutCount() <= c < 2 * s.Positions() ==> (c in x <==> c in y)
    ensures Inputs(s, x, t) == Inputs(s, y, t)
  {
    forall b | b in s.InBits() ensures s.InCol(b, t) in x <==> s.InCol(b, t) in y {
      InColBounds(s, b, t);
    }
  }

  lemma OutputsSame(s: Shape, x: set<nat>, y: set<nat>, t: nat)
    requires t < 2
    requires forall c: nat :: c < 2 * s.OutCount() ==> (c in x <==> c in y)
    ensures Outputs(s, x, t) == Outputs(s, y, t)
  {
    forall o | o in s.OutBits() ensures 2 * s.OutPos(o) + t in x <==> 2 * s.OutPos(o) + t in y {
      OutColBounds(s, o, t);
    }
  }

  lemma GraphSame(s: Shape, f: set<Bit> -> set<Bit>, x: set<nat>, y: set<nat>)
    requires s.OutCount() <= s.Positions()
    requires forall c: nat :: c < 2 * s.Positions() ==> (c in x <==> c in y)
    ensures IsGraph(s, f, x) <==> IsGraph(s, f, y)
  {
    InputsSame(s, x, y, 0);
    InputsSame(s, x, y, 1);
    OutputsSame(s, x, y, 0);
    OutputsSame(s, x, y, 1);
    forall t, o | 0 <= t < 2 && o in s.OutBits()
      ensures (o in Outputs(s, x, t) <==> o in f(Inputs(s, x, t))) <==> (o in Outputs(s, y, t) <==> o in f(Inputs(s, y, t)))
    {
      assert t == 0 || t == 1;
    }
  }

  /** Where the completed inputs have ones. */
  lemma CompleteAt(s: Shape, f: set<Bit> -> set<Bit>, u: set<nat>, c: nat)
    requires s.OutCount() <= s.Positions() && u <= InputColumns(s)
    ensures c >= 2 * s.OutCount() ==> (c in Complete(s, f, u) <==> c in u)
    ensures c < 2 * s.OutCount() ==>
      (s.size > 0 && (c in Complete(s, f, u) <==> s.OutBit(c / 2) in f(Inputs(s, u, c % 2))))
    ensures c in Complete(s, f, u) ==> c < 2 * s.Positions()
  {
    forall o, t | o in s.OutBits() && 0 <= t < 2
      ensures OutCol(s, o, t) < 2 * s.OutCount() && (OutCol(s, o, t) == c ==> s.size > 0 && o == s.OutBit(c / 2) && t == c % 2)
    {
      OutColBounds(s, o, t);
      PosBounds(s, o, o);
    }
    if c < 2 * s.OutCount() {
      PositiveSize(s);
      var o := s.OutBit(c / 2);
      OutBitOf(s, c / 2);
      OutColBounds(s, o, c % 2);
      assert OutCol(s, o, c % 2) == c;
      assert c % 2 == 0 || c % 2 == 1;
    }
  }

  lemma CompleteColumns(s: Shape, f: set<Bit> -> set<Bit>, u: set<nat>)
    requires s.OutCount() <= s.Positions() && u <= InputColumns(s)
    ensures Complete(s, f, u) <= ColumnsBelow(2 * s.Positions())
    ensures Complete(s, f, u) * InputColumns(s) == u
  {
    forall c: nat
      ensures c in Complete(s, f, u) ==> c < 2 * s.Positions()
      ensures c >= 2 * s.OutCount() ==> (c in Complete(s, f, u) <==> c in u)
    {
      CompleteAt(s, f, u, c);
    }
    hide Complete;
  }

  lemma CompleteGraph(s: Shape, f: set<Bit> -> set<Bit>, u: set<nat>)
    requires s.OutCount() <= s.Positions() && u <= InputColumns(s)
    ensures IsGraph(s, f, Complete(s, f, u))
    ensures Complete(s, f, u) <= ColumnsBelow(2 * s.Positions())
    ensures Complete(s, f, u) * InputColumns(s) == u
  {
    CompleteColumns(s, f, u);
    hide Complete, InputColumns, ColumnsBelow;
    forall t, o | 0 <= t < 2 && o in s.OutBits()
      ensures o in Outputs(s, Complete(s, f, u), t) <==> o in f(Inputs(s, Complete(s, f, u), t))
    {
      CompleteBit(s, f, u, o, t);
    }
  }

  lemma CompleteBit(s: Shape, f: set<Bit> -> set<Bit>, u: set<nat>, o: Bit, t: nat)
    requires s.OutCount() <= s.Positions() && u <= InputColumns(s) && t < 2 && o in s.OutBits()
    ensures o in Outputs(s, Complete(s, f, u), t) <==> o in f(Inputs(s, Complete(s, f, u), t))
  {
    hide Complete, InputColumns;
    var x := Complete(s, f, u);
    forall c: nat | 2 * s.OutCount() <= c < 2 * s.Positions() ensures c in x <==> c in u {
      CompleteAt(s, f, u, c);
    }
    InputsSame(s, x, u, t);
    OutColBounds(s, o, t);
    PosBounds(s, o, o);
    var c := OutCol(s, o, t);
    CompleteAt(s, f, u, c);
    assert s.OutBit(c / 2) == o;
    hide Inputs, Shape.OutBit, Shape.OutCount, Shape.Positions;
  }

  lemma GraphComplete(s: Shape, f: set<Bit> -> set<Bit>, x: set<nat>)
    requires s.OutCount() <= s.Positions() && x <= ColumnsBelow(2 * s.Positions()) && IsGraph(s, f, x)
    ensures Complete(s, f, x * InputColumns(s)) == x
  {
    var u := x * InputColumns(s);
    forall c: nat ensures c in Complete(s, f, u) <==> c in x {
      GraphCompleteAt(s, f, x, c);
    }
  }

  lemma GraphCompleteAt(s: Shape, f: set<Bit> -> set<Bit>, x: set<nat>, c: nat)
    requires s.OutCount() <= s.Positions() && x <= ColumnsBelow(2 * s.Positions()) && IsGraph(s, f, x)
    ensures c in Complete(s, f, x * InputColumns(s)) <==> c in x
  {
    var u := x * InputColumns(s);
    CompleteAt(s, f, u, c);
    if c < 2 * s.OutCount() {
      GraphOutput(s, f, x, c);
    }
  }

  lemma InputsKept(s: Shape, x: set<nat>, t: nat)
    requires t < 2
    ensures Inputs(s, x * InputColumns(s), t) == Inputs(s, x, t)
  {
    hide Inputs;
    InputsSame(s, x * InputColumns(s), x, t);
  }

  /** The bit of an output column is the function of the input columns. */
  lemma GraphOutput(s: Shape, f: set<Bit> -> set<Bit>, x: set<nat>, c: nat)
    requires IsGraph(s, f, x) && c < 2 * s.OutCount() && s.size > 0
    ensures c in x <==> s.OutBit(c / 2) in f(Inputs(s, x * InputColumns(s), c % 2))
  {
    OutBitOf(s, c / 2);
    InputsKept(s, x, c % 2);
    hide Inputs, InputColumns, Shape.OutBits, Shape.OutCount;
    var o := s.OutBit(c / 2);
    assert o in Outputs(s, x, c % 2) <==> 2 * s.OutPos(o) + c % 2 in x;
  }

  /** Good input pairs and graph pairs that meet the conditions correspond one to one. */
  lemma GoodCount(s: Shape, f: set<Bit> -> set<Bit>, conds: seq<Cond>)
    requires |conds| == s.Positions() && s.OutCount() <= s.Positions()
    ensures |GoodPairs(s, f, conds)| == |GraphPairs(s, f, conds)|
  {
    var g := (u: set<nat>) => Complete(s, f, u);
    var h := (x: set<nat>) => x * InputColumns(s);
    forall u | u in GoodPairs(s, f, conds) ensures g(u) in GraphPairs(s, f, conds) && h(g(u)) == u {
      CompleteGraph(s, f, u);
      AllMetSame(conds, s.OutCount(), s.Positions(), u, g(u));
      MetSplit(conds, s.OutCount(), g(u));
    }
    forall x | x in GraphPairs(s, f, conds) ensures h(x) in GoodPairs(s, f, conds) && g(h(x)) == x {
      GraphComplete(s, f, x);
      AllMetSame(conds, s.OutCount(), s.Positions(), x, h(x));
      MetSplit(conds, s.OutCount(), x);
    }
    ImageSize(GoodPairs(s, f, conds), GraphPairs(s, f, conds), g, h);
  }

  lemma MetSplit(conds: seq<Cond>, mid: nat, x: set<nat>)
    requires mid <= |conds|
    ensures AllMet(conds, 0, |conds|, x) <==> AllMet(conds, 0, mid, x) && AllMet(conds, mid, |conds|, x)
  {
    hide Meets;
    if AllMet(conds, 0, mid, x) && AllMet(conds, mid, |conds|, x) {
      forall b | 0 <= b < |conds| ensures Meets(conds[b], b, x) {
        assert b < mid || mid <= b;
      }
    }
  }

  /** Each equation of an input condition halves the number of input pairs. */
  lemma InputCount(s: Shape, conds: seq<Cond>, rhs: nat)
    requires |conds| == s.Positions() && s.OutCount() <= s.Positions() && AllLinear(conds) && 2 * s.Positions() <= rhs
    ensures |InputPairs(s, conds)| * Pow2(NumEqs(conds, s.OutCount(), s.Positions()))
      == Pow2(2 * (s.Positions() - s.OutCount()))
  {
    hide AllZero, AllMet, CondEqs, CondLeads, NumEqs, Triangular, AllLinear, Below, Pow2;
    var lo, hi, columns := s.OutCount(), s.Positions(), InputColumns(s);
    var eqs := CondEqs(conds, lo, hi, rhs);
    CondTriangular(columns, conds, lo, hi, rhs);
    CondSizes(conds, lo, hi, rhs);
    TriangularCount(columns, eqs, CondLeads(conds, lo, hi), rhs);
    forall x | x <= columns ensures x in Sat(columns, eqs, rhs) <==> x in InputPairs(s, conds) {
      SatZero(columns, eqs, rhs, x);
      CondZero(conds, lo, hi, rhs, x + {rhs});
      AllMetSame(conds, lo, hi, x, x + {rhs});
    }
    assert Sat(columns, eqs, rhs) == InputPairs(s, conds);
    assert |columns| == 2 * hi - 2 * lo by {
      assert Below(2 * lo) <= Below(2 * hi);
      assert Below(2 * hi) == columns + Below(2 * lo);
    }
  }

  lemma SatZero(columns: set<nat>, eqs: seq<set<nat>>, rhs: nat, x: set<nat>)
    requires x <= columns
    ensures x in Sat(columns, eqs, rhs) <==> AllZero(eqs, x + {rhs})
  {
  }

  /** The rows of the matrix and the equations of all conditions each halve the number of graph pairs. */
  lemma GraphCount(s: Shape, f: set<Bit> -> set<Bit>, conds: seq<Cond>, m: Matrix, cols: nat, rhs: nat)
    requires |conds| == s.Positions() && s.OutCount() <= s.Positions() && AllLinear(conds)
    requires 2 * s.Positions() <= rhs < cols && Wf(m, cols) && Reduced(m, cols, rhs)
    requires Represents(s, f, conds, m, rhs)
    ensures |GraphPairs(s, f, conds)| * Pow2(PivotRows(m.row, cols, |m.row|) + NumEqs(conds, 0, s.Positions()))
      == Pow2(2 * s.Positions())
  {
    hide AllZero, AllMet, CondEqs, CondLeads, NumEqs, Triangular, AllLinear, Below, Pow2, RowEqs, RowLeads, Solves, PivotOf, IsGraph;
    var hi, columns := s.Positions(), ColumnsBelow(2 * s.Positions());
    AllIndices(m, cols);
    PivotsInside(s, f, conds, m, cols, rhs);
    RowsTriangular(m, cols, rhs, columns, |m.row|);
    CondTriangular(columns, conds, 0, hi, rhs);
    CondSizes(conds, 0, hi, rhs);
    var a, b := RowEqs(m, cols, |m.row|), CondEqs(conds, 0, hi, rhs);
    LeadsNotInRows(s, f, conds, m, cols, rhs, a);
    TriangularAppend(columns, a, RowLeads(m, cols, |m.row|), b, CondLeads(conds, 0, hi));
    TriangularCount(columns, a + b, RowLeads(m, cols, |m.row|) + CondLeads(conds, 0, hi), rhs);
    forall x | x <= columns ensures x in Sat(columns, a + b, rhs) <==> x in GraphPairs(s, f, conds) {
      SatZero(columns, a + b, rhs, x);
      ZeroAppend(a, b, x + {rhs});
      RowsSolve(m, cols, rhs, x + {rhs});
      CondZero(conds, 0, hi, rhs, x + {rhs});
      AllMetSame(conds, 0, hi, x, x + {rhs});
      GraphSame(s, f, x, x + {rhs});
    }
    assert Sat(columns, a + b, rhs) == GraphPairs(s, f, conds);
  }

  // ---- what the matrix of a step means ----

  /** Together with the conditions, the matrix has the solutions of the function; the columns substituted away by
      their equations are empty, and so are the columns between the last input and the right-hand side. */
  ghost predicate Represents(s: Shape, f: set<Bit> -> set<Bit>, conds: seq<Cond>, m: Matrix, rhs: nat)
    requires |conds| == s.Positions()
  {
    && (forall x :: rhs in x && AllMet(conds, 0, |conds|, x) ==> (Solves(m, rhs, x) <==> IsGraph(s, f, x)))
    && (forall b :: 0 <= b < |conds| ==> LeadsGone(m, conds[b], b))
    && (forall c: nat :: 2 * s.Positions() <= c < rhs ==> EmptyColumn(m, c))
    && Within(m, rhs)
  }

  lemma PivotsInside(s: Shape, f: set<Bit> -> set<Bit>, conds: seq<Cond>, m: Matrix, cols: nat, rhs: nat)
    requires |conds| == s.Positions() && 2 * s.Positions() <= rhs < cols && Wf(m, cols) && Reduced(m, cols, rhs)
    requires Represents(s, f, conds, m, rhs)
    ensures forall i :: 0 <= i < |m.row| && m.row[i].pivot < cols ==> m.row[i].pivot in ColumnsBelow(2 * s.Positions())
  {
    hide Solves, PivotOf, IsGraph, AllMet;
    forall i | 0 <= i < |m.row| && m.row[i].pivot < cols ensures m.row[i].pivot < 2 * s.Positions() {
      PivotIn(m, cols, i);
      NoContradiction(m, cols, rhs, i);
      assert m.row[i].pivot >= 2 * s.Positions() ==> EmptyColumn(m, m.row[i].pivot);
    }
  }

  lemma LeadsNotInRows(s: Shape, f: set<Bit> -> set<Bit>, conds: seq<Cond>, m: Matrix, cols: nat, rhs: nat, rows: seq<set<nat>>)
    requires |conds| == s.Positions() && Wf(m, cols) && Represents(s, f, conds, m, rhs)
    requires Indexed(m) && forall e :: e in rows ==> exists i :: 0 <= i < |m.row| && e == m.Bits(i)
    ensures forall l, e :: l in CondLeads(conds, 0, |conds|) && e in rows ==> l !in e
  {
    hide Solves, PivotOf, IsGraph, AllMet, CondLeads, Equations, LeadsGone;
    forall l, e | l in CondLeads(conds, 0, |conds|) && e in rows ensures l !in e {
      var b, q := LeadOf(conds, 0, |conds|, l);
      GoneLead(m, conds[b], b, q);
      var i :| 0 <= i < |m.row| && e == m.Bits(i);
    }
  }

  lemma GoneLead(m: Matrix, c: Cond, b: nat, q: PairEquation)
    requires LeadsGone(m, c, b) && q in Equations(c)
    ensures EmptyColumn(m, Lead(q, b))
  {
  }

  lemma {:induction false} LeadOf(conds: seq<Cond>, lo: nat, hi: nat, l: nat) returns (b: nat, q: PairEquation)
    requires lo <= hi <= |conds| && l in CondLeads(conds, lo, hi)
    ensures lo <= b < hi && q in Equations(conds[b]) && l == Lead(q, b)
    decreases hi
  {
    hide Equations, PairLeads, Lead;
    if l in CondLeads(conds, lo, hi - 1) {
      b, q := LeadOf(conds, lo, hi - 1, l);
    } else {
      assert l in PairLeads(conds[hi - 1], hi - 1);
      b := hi - 1;
      q := PairLeadOf(conds[b], b, l);
    }
  }

  lemma PairLeadOf(c: Cond, b: nat, l: nat) returns (q: PairEquation)
    requires l in PairLeads(c, b)
    ensures q in Equations(c) && l == Lead(q, b)
  {
    hide Equations, Lead;
    var i :| 0 <= i < |PairLeads(c, b)| && l == PairLeads(c, b)[i];
    q := Equations(c)[i];
  }

  lemma {:induction false} NumEqsSplit(conds: seq<Cond>, lo: nat, mid: nat, hi: nat)
    requires lo <= mid <= hi <= |conds|
    ensures NumEqs(conds, lo, hi) == NumEqs(conds, lo, mid) + NumEqs(conds, mid, hi)
    decreases hi
  {
    hide Equations;
    if mid < hi {
      NumEqsSplit(conds, lo, mid, hi - 1);
    }
  }

  /** The fraction of input pairs that meet the input conditions whose outputs meet the output conditions is two to
      the number of output bits of both messages minus the rank of what is left of the matrix minus the number of
      output equations. */
  lemma ProbabilityExact(s: Shape, f: set<Bit> -> set<Bit>, conds: seq<Cond>, m: Matrix, cols: nat, rhs: nat)
    requires |conds| == s.Positions() && s.OutCount() <= s.Positions() && AllLinear(conds)
    requires 2 * s.Positions() <= rhs < cols && Wf(m, cols) && Reduced(m, cols, rhs)
    requires Represents(s, f, conds, m, rhs)
    ensures var down := PivotRows(m.row, cols, |m.row|) + NumEqs(conds, 0, s.OutCount()) - 2 * s.OutCount();
      down >= 0 && |GoodPairs(s, f, conds)| * Pow2(down) == |InputPairs(s, conds)|
  {
    hide NumEqs, PivotRows, Represents, Reduced, Wf, GoodPairs, InputPairs, GraphPairs, AllLinear, Pow2;
    var p, ei, eo := PivotRows(m.row, cols, |m.row|), NumEqs(conds, s.OutCount(), s.Positions()), NumEqs(conds, 0, s.OutCount());
    GraphCount(s, f, conds, m, cols, rhs);
    GoodCount(s, f, conds);
    InputCount(s, conds, rhs);
    NumEqsSplit(conds, 0, s.OutCount(), s.Positions());
    GoodAreInputs(s, f, conds);
    Ratio(|GoodPairs(s, f, conds)|, |InputPairs(s, conds)|, p + eo, ei, 2 * s.OutCount(), 2 * (s.Positions() - s.OutCount()));
  }

  lemma GoodAreInputs(s: Shape, f: set<Bit> -> set<Bit>, conds: seq<Cond>)
    requires |conds| == s.Positions() && s.OutCount() <= s.Positions()
    ensures |GoodPairs(s, f, conds)| <= |InputPairs(s, conds)|
  {
    SubsetSize(GoodPairs(s, f, conds), InputPairs(s, conds));
  }

  lemma Ratio(good: nat, all: nat, r: nat, e: nat, f: nat, n: nat)
    requires good <= all
    requires good * Pow2(r + e) == Pow2(f + n) && all * Pow2(e) == Pow2(n)
    ensures r >= f && good * Pow2(r - f) == all
  {
    hide Pow2;
    Pow2Sum(r, e);
    Pow2Sum(f, n);
    Regroup(good, all, Pow2(r), Pow2(e), Pow2(f), Pow2(n));
    Positive(all, Pow2(e), Pow2(n));
    if r < f {
      Pow2Sum(r, f - r);
      Cancel3(good, all, Pow2(f - r), Pow2(r));
      AtLeastTwo(f - r);
      Double(all, Pow2(f - r));
    } else {
      Pow2Sum(f, r - f);
      Cancel3(all, good, Pow2(r - f), Pow2(f));
    }
  }

  lemma Regroup(good: nat, all: nat, r: nat, e: nat, f: nat, n: nat)
    requires good * (r * e) == f * n && all * e == n && e > 0
    ensures good * r == all * f
  {
    MulAssoc(good, r, e);
    MulAssoc(f, all, e);
    Cancel(good * r, f * all, e);
  }

  lemma MulAssoc(a: nat, b: nat, c: nat)
    ensures (a * b) * c == a * (b * c)
  {
  }

  lemma Cancel3(a: nat, b: nat, c: nat, d: nat)
    requires d > 0 && a * d == b * (d * c)
    ensures a == b * c
  {
    MulAssoc(b, c, d);
    Cancel(a, b * c, d);
  }

  lemma Positive(a: nat, b: nat, c: nat)
    requires a * b == c > 0
    ensures a > 0
  {
  }

  lemma AtLeastTwo(n: nat)
    requires n > 0
    ensures Pow2(n) >= 2
  {
  }

  lemma Cancel(a: nat, b: nat, d: nat)
    requires d > 0 && a * d == b * d
    ensures a == b
  {
  }

  lemma Double(a: nat, k: nat)
    requires k >= 2
    ensures a * k >= 2 * a
  {
  }

  // ---- the step ----

  datatype Probability = MinusInfinity | Log2(exponent: int)

  /** Number of equations of a condition; minus one for the contradiction. */
  function NumEq(c: Cond): int {
    if c == {} then -1 else |Equations(c)|
  }

  ghost function SumEq(conds: seq<Cond>, lo: nat, hi: nat): int
    requires lo <= hi <= |conds|
  {
    if lo == hi then 0 else SumEq(conds, lo, hi - 1) + NumEq(conds[hi - 1])
  }

  lemma {:induction false} SumSplit(conds: seq<Cond>, lo: nat, mid: nat, hi: nat)
    requires lo <= mid <= hi <= |conds|
    ensures SumEq(conds, lo, hi) == SumEq(conds, lo, mid) + SumEq(conds, mid, hi)
    decreases hi
  {
    hide NumEq;
    if mid < hi {
      SumSplit(conds, lo, mid, hi - 1);
    }
  }

  lemma {:induction false} SumStated(conds: seq<Cond>, lo: nat, hi: nat)
    requires lo <= hi <= |conds| && forall b :: 0 <= b < |conds| ==> {} != conds[b] <= ANY
    ensures SumEq(conds, lo, hi) == NumEqs(StatedAll(conds), lo, hi)
    decreases hi
  {
    hide Equations, Stated;
    if lo < hi {
      SumStated(conds, lo, hi - 1);
      StatedEquations(conds[hi - 1]);
    }
  }

  lemma NoEquations()
    ensures Equations({}) == []
  {
  }

  /** What the equations of all conditions say. */
  function StatedAll(conds: seq<Cond>): (said: seq<Cond>)
    ensures |said| == |conds| && forall b :: 0 <= b < |said| ==> said[b] == Stated(conds[b])
  {
    seq(|conds|, b requires 0 <= b < |conds| => Stated(conds[b]))
  }

  lemma StatedLinear(conds: seq<Cond>)
    requires forall b :: 0 <= b < |conds| ==> conds[b] <= ANY
    ensures AllLinear(StatedAll(conds)) && (AllLinear(conds) ==> StatedAll(conds) == conds)
    ensures AllLinear(conds) ==> forall b :: 0 <= b < |conds| ==> conds[b] != {}
  {
    hide Equations, Stated;
    forall b | 0 <= b < |conds| ensures Linear4(Stated(conds[b])) && (Linear4(conds[b]) ==> Stated(conds[b]) == conds[b]) {
      StatedEquations(conds[b]);
    }
    NoEquations();
  }

  /** A condition with at most two values is linear, so that what is stated shrinks with a condition. */
  lemma StatedNarrow(c: Cond, d: Cond)
    requires c != {} && c <= d <= ANY
    ensures Stated(c) <= Stated(d)
  {
    if Stated(d) != ANY {
      TwoValues(d);
      TwoValues(c);
    }
  }

  /** The linear conditions are those with one or two values, and the one with all four. */
  lemma TwoValues(c: Cond)
    requires c != {} && c <= ANY
    ensures Equations(c) == [] <==> exists v :: v in ANY && ANY - {v} <= c
  {
    if v :| v in ANY && ANY - {v} <= c {
      ThreeOrMore(c, v);
    } else {
      var a :| a in c;
      var b := if c == {a} then a else var b :| b in c && b != a; b;
      hide Equations;
      forall w | w in c ensures w == a || w == b {
        ThirdValue(c, a, b, w);
      }
      assert c == {a, b};
      PairStated(a, b);
    }
  }

  lemma ThirdValue(c: Cond, a: nat, b: nat, w: nat)
    requires c <= ANY && a in c && b in c && w in c && (a == b ==> c == {a})
    ensures w == a || w == b || exists v :: v in ANY && ANY - {v} <= c
  {
    if w != a && w != b {
      var v := 6 - a - b - w;
      assert v in ANY && ANY - {v} <= c;
    }
  }

  lemma PairStated(a: nat, b: nat)
    requires a < 4 && b < 4
    ensures Equations({a, b}) != []
  {
    assert {b, a} == {a, b} && {a, a} == {a};
    match a
    case 0 =>
    case 1 =>
    case 2 =>
    case _ =>
  }

  lemma ThreeOrMore(c: Cond, v: nat)
    requires c <= ANY && v < 4 && ANY - {v} <= c
    ensures Equations(c) == []
  {
    assert v != 0 ==> 0 in c;
    assert v != 1 ==> 1 in c;
    assert v != 2 ==> 2 in c;
    assert v != 3 ==> 3 in c;
    assert forall d: Cond, k: nat :: k in c && k !in d ==> c != d;
  }

  /** Narrowing one condition and adding its equations keeps what the matrix means. */
  lemma NarrowRepresents(s: Shape, f: set<Bit> -> set<Bit>, conds: seq<Cond>, m: Matrix, n: Matrix, rhs: nat, pos: nat, c: Cond)
    requires |conds| == s.Positions() && 2 * s.Positions() <= rhs && pos < |conds| && c <= conds[pos]
    requires Represents(s, f, conds, m, rhs) && Within(n, rhs)
    requires LeadsGone(n, c, pos) && KeepsOutside(m, n, {2 * pos, 2 * pos + 1, rhs})
    requires SameMeeting(m, n, rhs, c, pos)
    ensures Represents(s, f, conds[pos := c], n, rhs)
  {
    hide Solves, IsGraph, EmptyColumn, Equations, Within, LeadsGone;
    var more := conds[pos := c];
    forall x | rhs in x && AllMet(more, 0, |more|, x) ensures Solves(n, rhs, x) <==> IsGraph(s, f, x) {
      MetNarrow(conds, pos, c, x);
      assert Meets(more[pos], pos, x);
    }
    forall b | 0 <= b < |more| ensures LeadsGone(n, more[b], b) {
      if b != pos {
        LeadsElsewhere(m, n, conds[b], b, pos, rhs);
      }
    }
    forall a: nat | 2 * s.Positions() <= a < rhs ensures EmptyColumn(n, a) {
      assert EmptyColumn(m, a);
    }
  }

  lemma MetNarrow(conds: seq<Cond>, pos: nat, c: Cond, x: set<nat>)
    requires pos < |conds| && c <= conds[pos] && AllMet(conds[pos := c], 0, |conds|, x)
    ensures AllMet(conds, 0, |conds|, x)
  {
    forall b | 0 <= b < |conds| ensures Meets(conds[b], b, x) {
      assert Meets(conds[pos := c][b], b, x);
    }
  }

  lemma LeadsElsewhere(m: Matrix, n: Matrix, c: Cond, b: nat, pos: nat, rhs: nat)
    requires b != pos && 2 * b + 1 < rhs && LeadsGone(m, c, b) && KeepsOutside(m, n, {2 * pos, 2 * pos + 1, rhs})
    ensures LeadsGone(n, c, b)
  {
    hide Equations, EmptyColumn;
    forall q | q in Equations(c) ensures EmptyColumn(n, Lead(q, b)) {
      assert EmptyColumn(m, Lead(q, b));
    }
  }

  /** Adds up the equations of one word, whose positions start at `start`. */
  method CountWord(conds: seq<Cond>, start: nat, size: nat) returns (refuted: bool, eq: int)
    requires start + size <= |conds|
    ensures refuted <==> exists b :: start <= b < start + size && conds[b] == {}
    ensures eq == SumEq(conds, start, start + size)
  {
    hide NumEq;
    refuted, eq := false, 0;
    for j := 0 to size
      invariant eq == SumEq(conds, start, start + j)
      invariant refuted <==> exists b :: start <= b < start + j && conds[b] == {}
    {
      NumEqSign(conds[start + j]);
      var n := NumEq(conds[start + j]);
      if n == -1 {
        refuted := true;
      }
      eq := eq + n;
    }
  }

  /** Number of bits of `words` words. */
  function Span(words: nat, size: nat): nat { words * size }

  lemma SpanNext(words: nat, size: nat)
    requires words > 0
    ensures Span(words, size) == Span(words - 1, size) + size
  {
  }

  lemma {:induction false} SpanUp(a: nat, b: nat, size: nat)
    requires a <= b
    ensures Span(a, size) <= Span(b, size)
  {
    if a < b {
      SpanNext(b, size);
      SpanUp(a, b - 1, size);
    }
  }

  /** The words are visited from the last to the first. */
  method CountWords(conds: seq<Cond>, base: nat, words: nat, size: nat) returns (refuted: bool, eq: int)
    requires base + words * size <= |conds|
    ensures refuted <==> exists b :: base <= b < base + words * size && conds[b] == {}
    ensures eq == SumEq(conds, base, base + words * size)
  {
    hide SumEq;
    refuted, eq := false, 0;
    var start := base + words * size;
    ghost var end := base + Span(words, size);
    assert Span(0, size) == 0;
    hide Span;
    SumNone(conds, start);
    for i := 0 to words
      invariant base <= start == base + Span(words - i, size) <= end
      invariant eq == SumEq(conds, start, end)
      invariant refuted <==> exists b :: start <= b < end && conds[b] == {}
    {
      SpanNext(words - i, size);
      start := start - size;
      var r, n := CountWord(conds, start, size);
      SumSplit(conds, start, start + size, end);
      refuted, eq := refuted || r, eq + n;
    }
    assert start == base;
  }

  lemma SumNone(conds: seq<Cond>, n: nat)
    requires n <= |conds|
    ensures SumEq(conds, n, n) == 0
  {
  }

  class LinearStep {
    const shape: Shape
    const f: set<Bit> -> set<Bit>
    const data: LinearConditions
    /** The condition at each position whose equations have been added last. */
    ghost var added: seq<Cond>

    ghost predicate Valid()
      reads this, data, data.matrix, data.matrix.matrix
    {
      && data.matrix.IsReduced() && data.matrix.matrix.rows == data.initialFCount == 2 * shape.OutCount()
      && |added| == shape.Positions() && 2 * shape.Positions() <= data.matrix.RHS
      && (forall b :: 0 <= b < |added| ==> added[b] <= ANY)
      && Represents(shape, f, StatedAll(added), data.matrix.View(), data.matrix.RHS)
    }

    /** The step's own data, with the matrix of the function and no conditions. */
    constructor (s: Shape, f: set<Bit> -> set<Bit>)
      requires Linear(s, f)
      ensures Valid() && fresh(data) && fresh(data.matrix) && fresh(data.matrix.matrix)
      ensures shape == s && this.f == f && forall b :: 0 <= b < |added| ==> added[b] == ANY
    {
      shape, this.f := s, f;
      data := new LinearConditions(s.OutCount(), s.Positions());
      added := seq(s.Positions(), (b: nat) => ANY);
      new;
      data.InitLinearFunction(s, f);
      assert Stated(ANY) == ANY;
      StartRepresents(s, f, StatedAll(added), data.matrix.View(), data.matrix.RHS);
    }

    /** Adds the condition at `pos` to the matrix. */
    method Update(conds: seq<Cond>, pos: nat, backtrack: bool) returns (ok: bool)
      requires Valid() && |conds| == shape.Positions() && pos < |conds| && {} != conds[pos] <= added[pos]
      modifies this`added, data.matrix, data.matrix.matrix
      ensures ok ==> Valid() && added == old(added)[pos := conds[pos]]
      ensures !ok ==> data.matrix.Valid() && forall x :: data.matrix.RHS in x && IsGraph(shape, f, x) ==>
        !AllMet(StatedAll(old(added)[pos := conds[pos]]), 0, |conds|, x)
      ensures backtrack && old(data.matrix.LogOk()) ==> data.matrix.LogOk()
    {
      hide Represents, Solves, IsGraph, LeadsGone, KeepsOutside, Equations, Meets, AllMet, Wf, Reduced, Linear4, Stated,
        Meetable, SameMeeting;
      ghost var m, rhs, said, c := data.matrix.View(), data.matrix.RHS, StatedAll(added), Stated(conds[pos]);
      StatedNarrow(conds[pos], added[pos]);
      assert StatedAll(added[pos := conds[pos]]) == said[pos := c];
      ok := data.AddLinearConditions(conds[pos], pos, backtrack);
      if ok {
        NarrowRepresents(shape, f, said, m, data.matrix.View(), rhs, pos, c);
        added := added[pos := conds[pos]];
      } else {
        NoGraphMeets(shape, f, said, m, rhs, pos, c);
      }
    }

    /** The logarithm of the probability of the step, once all conditions have been added: exact for what their equations
        say, and hence for the conditions themselves if all are linear. */
    method GetProbability(conds: seq<Cond>) returns (p: Probability)
      requires Valid() && |conds| == shape.Positions()
      ensures p == MinusInfinity <==> exists b :: shape.OutCount() <= b < shape.Positions() && conds[b] == {}
      ensures conds == added && (forall b :: 0 <= b < |conds| ==> conds[b] != {}) ==>
        p.Log2? && p.exponent <= 0 &&
        |GoodPairs(shape, f, StatedAll(conds))| * Pow2(-p.exponent) == |InputPairs(shape, StatedAll(conds))|
      ensures conds == added && AllLinear(conds) ==>
        StatedAll(conds) == conds && forall b :: 0 <= b < |conds| ==> conds[b] != {}
    {
      hide Represents, AllLinear, GoodPairs, InputPairs, Pow2, Reduced, Wf, NumEq, Equations, NumEqs, SumEq, PivotRows, Within,
        Stated;
      var s := shape;
      assert s.Positions() == s.OutCount() + s.ins * s.size;
      if conds == added {
        StatedLinear(conds);
      }
      var refuted, eqIn := CountWords(conds, s.OutCount(), s.ins, s.size);
      if refuted {
        return MinusInfinity;
      }
      var _, eqOut := CountWords(conds, 0, s.outs, s.size);
      var pivots := data.matrix.matrix.GetPivotRowCount();
      p := Log2((data.initialFCount + eqIn) - (pivots + eqIn + eqOut));
      if conds == added && forall b :: 0 <= b < |conds| ==> conds[b] != {} {
        SumStated(conds, 0, s.OutCount());
        ProbabilityExact(s, f, StatedAll(conds), data.matrix.View(), data.matrix.matrix.NOPIVOT, data.matrix.RHS);
      }
    }
  }

  /** No pair of graphs meets all that is stated when no solution meets the condition added last. */
  lemma NoGraphMeets(s: Shape, f: set<Bit> -> set<Bit>, said: seq<Cond>, m: Matrix, rhs: nat, pos: nat, c: Cond)
    requires |said| == s.Positions() && Represents(s, f, said, m, rhs) && pos < |said| && c <= said[pos]
    requires !Meetable(m, rhs, c, pos)
    ensures forall x :: rhs in x && IsGraph(s, f, x) ==> !AllMet(said[pos := c], 0, |said|, x)
  {
    hide Represents, Solves, IsGraph, Meets, AllMet;
    forall x | rhs in x && IsGraph(s, f, x) ensures !AllMet(said[pos := c], 0, |said|, x) {
      if AllMet(said[pos := c], 0, |said|, x) {
        MetNarrow(said, pos, c, x);
        GraphSolves(s, f, said, m, rhs, x);
        MetAt(said[pos := c], pos, x);
      }
    }
  }

  lemma NumEqSign(c: Cond)
    ensures NumEq(c) == -1 <==> c == {}
  {
  }

  lemma MetAt(conds: seq<Cond>, pos: nat, x: set<nat>)
    requires pos < |conds| && AllMet(conds, 0, |conds|, x)
    ensures Meets(conds[pos], pos, x)
  {
  }

  lemma GraphSolves(s: Shape, f: set<Bit> -> set<Bit>, conds: seq<Cond>, m: Matrix, rhs: nat, x: set<nat>)
    requires |conds| == s.Positions() && Represents(s, f, conds, m, rhs)
    requires rhs in x && AllMet(conds, 0, |conds|, x) && IsGraph(s, f, x)
    ensures Solves(m, rhs, x)
  {
  }

  lemma StartRepresents(s: Shape, f: set<Bit> -> set<Bit>, conds: seq<Cond>, m: Matrix, rhs: nat)
    requires |conds| == s.Positions() && forall b :: 0 <= b < |conds| ==> conds[b] == ANY
    requires forall x :: Solves(m, rhs, x) <==> rhs in x && IsGraph(s, f, x)
    requires forall c: nat :: 2 * s.Positions() <= c < rhs ==> EmptyColumn(m, c)
    requires Within(m, rhs)
    ensures Represents(s, f, conds, m, rhs)
  {
    hide Solves, IsGraph;
  }
}
