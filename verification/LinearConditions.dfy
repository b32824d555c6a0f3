/** Linear conditions on bit pairs, kept in a matrix (src/linear_conditions.h, src/linear_conditions.cpp). */
module LinearConditionsModule {
  import opened Gf2
  import opened RowOrders
  import opened LinearSystems
  import opened Substitutions
  import opened Changes
  import opened LinearMatrices
  import opened LinearFunctions
  import opened PairReadings
  import opened RowReadings

  // ---- conditions and their equations ----

  /** An equation on a bit pair: which of its bits it mentions, and its right-hand side. */
  datatype PairEquation = PairEquation(first: bool, second: bool, rhs: bool)

  /** The equations of a linear condition; none for `?` and for the nonlinear conditions 7, B, D and E. */
  function Equations(c: Cond): seq<PairEquation> {
    if c == {0} then [PairEquation(true, false, false), PairEquation(false, true, false)]
    else if c == {3} then [PairEquation(true, false, true), PairEquation(false, true, true)]
    else if c == {2} then [PairEquation(true, false, false), PairEquation(false, true, true)]
    else if c == {1} then [PairEquation(true, false, true), PairEquation(false, true, false)]
    else if c == {0, 3} then [PairEquation(true, true, false)]
    else if c == {1, 2} then [PairEquation(true, true, true)]
    else if c == {0, 1} then [PairEquation(false, true, false)]
    else if c == {0, 2} then [PairEquation(true, false, false)]
    else if c == {1, 3} then [PairEquation(true, false, true)]
    else if c == {2, 3} then [PairEquation(false, true, true)]
    else []
  }

  /** The columns of an equation on pair `b`, first bit first. */
  function PairColumns(q: PairEquation, b: nat): seq<nat> {
    (if q.first then [2 * b] else []) + if q.second then [2 * b + 1] else []
  }

  /** The column that the equation substitutes away. */
  function Lead(q: PairEquation, b: nat): nat {
    if q.first then 2 * b else 2 * b + 1
  }

  ghost predicate Linear4(c: Cond) {
    c == ANY || Equations(c) != []
  }

  /** What the equations of a condition say: nothing if there are none. */
  function Stated(c: Cond): Cond {
    if Equations(c) == [] then ANY else c
  }

  lemma StatedEquations(c: Cond)
    requires c <= ANY
    ensures c <= Stated(c) <= ANY && Linear4(Stated(c)) && Equations(Stated(c)) == Equations(c)
    ensures Linear4(c) ==> Stated(c) == c
  {
  }

  ghost predicate Meets(c: Cond, b: nat, x: set<nat>) {
    Code(x, b) in c
  }

  /** Some solution meets the condition. */
  ghost predicate Meetable(m: Matrix, rhs: nat, c: Cond, b: nat) {
    exists x :: Solves(m, rhs, x) && Meets(c, b, x)
  }

  lemma EquationMeans(q: PairEquation, b: nat, rhs: nat, x: set<nat>)
    requires 2 * b + 1 < rhs && rhs in x && (q.first || q.second)
    ensures !Value(WithRhs(PairColumns(q, b), q.rhs, rhs), x) <==> Code(x, b) in Table(q.first, q.second, q.rhs)
  {
    hide Value, Table;
    PairSet(q, b, rhs);
    ReadMeans(WithRhs(PairColumns(q, b), q.rhs, rhs), b, rhs, x);
  }

  lemma PairSet(q: PairEquation, b: nat, rhs: nat)
    requires 2 * b + 1 < rhs && (q.first || q.second)
    ensures var e := WithRhs(PairColumns(q, b), q.rhs, rhs);
      && e <= {2 * b, 2 * b + 1, rhs}
      && (2 * b in e <==> q.first) && (2 * b + 1 in e <==> q.second) && (rhs in e <==> q.rhs)
    ensures var cs := PairColumns(q, b); cs != [] && Ascending(cs) && cs[|cs| - 1] < rhs && cs[0] == Lead(q, b)
  {
  }

  /** Its equations say all there is to a linear condition. */
  lemma EquationsMean(c: Cond, v: nat)
    requires Linear4(c) && v < 4
    ensures v in c <==> forall q :: q in Equations(c) ==> v in Table(q.first, q.second, q.rhs)
  {
  }

  /** Every condition that is not empty implies its equations. */
  lemma EquationsImplied(c: Cond, v: nat)
    requires c <= ANY && v in c
    ensures forall q :: q in Equations(c) ==> v in Table(q.first, q.second, q.rhs)
  {
  }

  // ---- solutions that meet a condition ----

  ghost predicate LeadsGone(m: Matrix, c: Cond, b: nat) {
    forall q :: q in Equations(c) ==> EmptyColumn(m, Lead(q, b))
  }

  lemma SameLeads(m: Matrix, c: Cond, d: Cond, b: nat)
    requires Equations(c) == Equations(d)
    ensures LeadsGone(m, c, b) <==> LeadsGone(m, d, b)
  {
  }

  lemma FlipLead(m: Matrix, rhs: nat, b: nat, q: PairEquation, x: set<nat>) returns (y: set<nat>)
    requires 2 * b + 1 < rhs && (q.first || q.second) && Solves(m, rhs, x) && EmptyColumn(m, Lead(q, b))
    ensures Solves(m, rhs, y) && Code(y, b) in Table(q.first, q.second, q.rhs)
    ensures forall c :: c != Lead(q, b) ==> (c in y <==> c in x)
  {
    var e := WithRhs(PairColumns(q, b), q.rhs, rhs);
    PairSet(q, b, rhs);
    assert Lead(q, b) < rhs && Lead(q, b) in e && rhs in x;
    hide Table, Value, EmptyColumn, Solves, Lead;
    y := x;
    if Value(e, x) {
      FlipSolves(m, rhs, x, Lead(q, b));
      y := Xor(x, {Lead(q, b)});
      ValueFlip(e, x, Lead(q, b));
    }
    assert rhs in y && !Value(e, y);
    EquationMeans(q, b, rhs, y);
  }

  /** A column that occurs in no row is free. */
  lemma FlipSolves(m: Matrix, rhs: nat, x: set<nat>, c: nat)
    requires Solves(m, rhs, x) && EmptyColumn(m, c) && c != rhs
    ensures Solves(m, rhs, Xor(x, {c}))
  {
    hide Value;
    forall p | 0 <= p < |m.data| ensures !Value(m.data[p], Xor(x, {c})) {
      ValueFlip(m.data[p], x, c);
    }
  }

  /** Once its equations are substituted away, a linear condition can be met. */
  lemma CanBeMet(m: Matrix, cols: nat, rhs: nat, c: Cond, b: nat)
    requires Wf(m, cols) && Reduced(m, cols, rhs) && 2 * b + 1 < rhs < cols
    requires Linear4(c) && LeadsGone(m, c, b)
    ensures exists x :: Solves(m, rhs, x) && Meets(c, b, x)
  {
    hide PivotOf, Table, Value;
    CleanSolvable(m, cols, rhs);
    var x := Canonical(m, cols, rhs);
    var qs := Equations(c);
    EquationForms(c);
    if |qs| > 0 {
      assert qs[0] in qs;
      x := FlipLead(m, rhs, b, qs[0], x);
      if |qs| > 1 {
        assert qs[1] in qs;
        var y := FlipLead(m, rhs, b, qs[1], x);
        SameFirst(qs[0], x, y, b);
        x := y;
      }
    }
    CodeParts(x, b);
    assert forall q :: q in qs ==> Code(x, b) in Table(q.first, q.second, q.rhs);
    EquationsMean(c, Code(x, b));
    assert Solves(m, rhs, x) && Meets(c, b, x);
  }

  lemma EquationForms(c: Cond)
    ensures |Equations(c)| <= 2
    ensures forall q :: q in Equations(c) ==> q.first || q.second
    ensures |Equations(c)| == 2 ==> (Equations(c)[0].first && !Equations(c)[0].second
      && !Equations(c)[1].first && Equations(c)[1].second)
    ensures forall q :: q in Equations(c) ==> |Equations(c)| > 0 && (q == Equations(c)[0] || (|Equations(c)| > 1 && q == Equations(c)[1]))
  {
  }

  lemma SameFirst(q: PairEquation, x: set<nat>, y: set<nat>, b: nat)
    requires q.first && !q.second && (2 * b in x <==> 2 * b in y)
    ensures Code(x, b) in Table(q.first, q.second, q.rhs) <==> Code(y, b) in Table(q.first, q.second, q.rhs)
  {
    TableMeans(q.first, q.second, q.rhs, Code(x, b));
    TableMeans(q.first, q.second, q.rhs, Code(y, b));
  }

  /** Both bits of the first pair are fixed, to value `v`. */
  function FixedPair(v: nat): Matrix {
    Matrix([if v % 2 == 1 then {0, 2} else {0}, if v >= 2 then {1, 2} else {1}], [Row(0, 0), Row(1, 1)])
  }

  /** For the conditions 7, B, D and E the answer is true although no solution meets the condition. */
  lemma NonlinearNotRefuted(v: nat, cols: nat)
    requires v < 4 && 2 < cols
    ensures Wf(FixedPair(v), cols) && Reduced(FixedPair(v), cols, 2) && Equations(ANY - {v}) == []
    ensures Meetable(FixedPair(v), 2, Stated(ANY - {v}), 0) && !Meetable(FixedPair(v), 2, ANY - {v}, 0)
  {
    FixedPairReduced(v, cols);
    CleanSolvable(FixedPair(v), cols, 2);
    var x := Canonical(FixedPair(v), cols, 2);
    ThreeValues(v);
    CodeParts(x, 0);
    hide Solves, Canonical, Equations, Code;
    assert Solves(FixedPair(v), 2, x) && Meets(ANY, 0, x);
    forall y | Solves(FixedPair(v), 2, y) ensures Code(y, 0) == v {
      FixedPairValue(v, y);
    }
  }

  lemma ThreeValues(v: nat)
    requires v < 4
    ensures Equations(ANY - {v}) == []
  {
    var c := ANY - {v};
    assert (v + 1) % 4 in c && (v + 2) % 4 in c && (v + 3) % 4 in c;
    assert forall d: Cond, k: nat :: k in c && k !in d ==> c != d;
  }

  lemma FixedPairReduced(v: nat, cols: nat)
    requires v < 4 && 2 < cols
    ensures Wf(FixedPair(v), cols) && Reduced(FixedPair(v), cols, 2) && AllClean(FixedPair(v), cols, 2)
  {
    var m := FixedPair(v);
    PivotUnique(m.data[0], cols, 0);
    PivotUnique(m.data[1], cols, 1);
    hide PivotOf;
    assert Clean(m.data, m.row[0], cols, 2) && Clean(m.data, m.row[1], cols, 2);
  }

  lemma FixedPairValue(v: nat, x: set<nat>)
    requires v < 4 && Solves(FixedPair(v), 2, x)
    ensures Code(x, 0) == v
  {
    var d := FixedPair(v).data;
    assert !Value(d[0], x) && !Value(d[1], x);
    hide Value;
    BitFixed(0, d[0], x);
    BitFixed(1, d[1], x);
  }

  lemma BitFixed(c: nat, row: set<nat>, x: set<nat>)
    requires c < 2 && 2 in x && !Value(row, x) && (row == {c} || row == {c, 2})
    ensures c in x <==> 2 in row
  {
    hide Value;
    ValueSingle(c, x);
    if 2 in row {
      assert row == Xor({c}, {2});
      ValueXor({c}, {2}, x);
      ValueSingle(2, x);
    }
  }

  // ---- adding the equations of a condition ----

  /** The same solutions among the assignments that meet a condition. */
  ghost predicate SameMeeting(m: Matrix, n: Matrix, rhs: nat, c: Cond, b: nat) {
    forall x :: Meets(c, b, x) ==> (Solves(n, rhs, x) <==> Solves(m, rhs, x))
  }

  /** The first `k` equations of `c` have been added for pair `b`. */
  ghost predicate Added(m0: Matrix, m: Matrix, rhs: nat, c: Cond, b: nat, k: nat) {
    && k <= |Equations(c)|
    && KeepsOutside(m0, m, {2 * b, 2 * b + 1, rhs})
    && SameMeeting(m0, m, rhs, c, b)
    && (forall i :: 0 <= i < k ==> EmptyColumn(m, Lead(Equations(c)[i], b)))
  }

  lemma AddOne(m0: Matrix, m: Matrix, n: Matrix, rhs: nat, c: Cond, b: nat, k: nat)
    requires c <= ANY && 2 * b + 1 < rhs && Added(m0, m, rhs, c, b, k) && k < |Equations(c)|
    requires var q := Equations(c)[k]; var e := WithRhs(PairColumns(q, b), q.rhs, rhs);
      && KeepsOutside(m, n, e)
      && (forall x :: !Value(e, x) ==> (Solves(n, rhs, x) <==> Solves(m, rhs, x)))
    ensures EmptyColumn(n, Lead(Equations(c)[k], b)) ==> Added(m0, n, rhs, c, b, k + 1)
    ensures KeepsOutside(m0, n, {2 * b, 2 * b + 1, rhs})
    ensures SameMeeting(m0, n, rhs, c, b)
    ensures var q := Equations(c)[k];
      forall x :: rhs in x && Meets(c, b, x) ==> !Value(WithRhs(PairColumns(q, b), q.rhs, rhs), x)
  {
    hide Value, Table;
    EquationForms(c);
    var q := Equations(c)[k];
    assert q in Equations(c);
    var e := WithRhs(PairColumns(q, b), q.rhs, rhs);
    PairSet(q, b, rhs);
    forall x | rhs in x && Meets(c, b, x) ensures !Value(e, x) {
      EquationsImplied(c, Code(x, b));
      EquationMeans(q, b, rhs, x);
    }
    forall x | Meets(c, b, x) ensures Solves(n, rhs, x) <==> Solves(m0, rhs, x) {
      if rhs in x {
        assert Solves(m, rhs, x) <==> Solves(m0, rhs, x);
      }
    }
    forall a | a !in {2 * b, 2 * b + 1, rhs} && EmptyColumn(m0, a) ensures EmptyColumn(n, a) {
      assert a !in e;
      assert EmptyColumn(m, a);
    }
    forall i | 0 <= i < k ensures EmptyColumn(n, Lead(Equations(c)[i], b)) {
      assert Lead(Equations(c)[i], b) !in e;
      assert EmptyColumn(m, Lead(Equations(c)[i], b));
    }
  }

  /** Rows before `n` hold just their own column, the others nothing. */
  ghost predicate OwnColumns(m: Matrix, n: nat) {
    forall p :: 0 <= p < |m.data| ==> m.data[p] == if p < n then {p} else {}
  }

  lemma OwnColumnsStep(m: Matrix, cols: nat, p: nat)
    requires InPlace(m) && |m.row| == |m.data| && p < |m.row| && OwnColumns(m, p)
    ensures InPlace(XorInto(m, cols, p, {p})) && OwnColumns(XorInto(m, cols, p, {p}), p + 1)
  {
    hide PivotOf;
  }

  lemma NoColumns(m: Matrix)
    requires forall p :: 0 <= p < |m.data| ==> m.data[p] == {}
    ensures OwnColumns(m, 0)
  {
  }

  lemma OwnColumnsStart(s: Shape, f: set<Bit> -> set<Bit>, m: Matrix)
    requires |m.data| == |m.row| == 2 * s.OutCount() && OwnColumns(m, 2 * s.OutCount())
    ensures FunctionMatrix(s, f, m, {})
  {
  }

  class LinearConditions {
    var matrix: LinearMatrix
    var initialFCount: nat

    /** `rows` output bits and `cols` bits in all, two columns to a bit. */
    constructor (rows: nat, cols: nat)
      ensures fresh(matrix) && fresh(matrix.matrix) && matrix.Settled() && matrix.LogOk() && matrix.AllListed()
      ensures initialFCount == 2 * rows
      ensures matrix.matrix.rows == 2 * rows && matrix.RHS == 2 * cols + 63
      ensures InPlace(matrix.View()) && forall p :: 0 <= p < 2 * rows ==> matrix.matrix.data[p] == {}
    {
      initialFCount := 2 * rows;
      matrix := new LinearMatrix(2 * rows, 2 * cols);
    }

    /** Enters the identity for the output bits. */
    method InitOutputs(s: Shape, ghost f: set<Bit> -> set<Bit>)
      requires matrix.Settled() && matrix.AllListed() && matrix.matrix.rows == 2 * s.OutCount() <= matrix.RHS
      requires InPlace(matrix.View()) && forall p :: 0 <= p < matrix.matrix.rows ==> matrix.matrix.data[p] == {}
      modifies matrix.matrix
      ensures matrix.Settled() && InPlace(matrix.View()) && FunctionMatrix(s, f, matrix.View(), {})
    {
      hide UnlistedRead, Wf, PivotOf, IsInverse, OwnColumns, InPlace, XorInto, Within;
      SameCount(matrix.View(), matrix.matrix.NOPIVOT);
      assert OwnColumns(matrix.View(), 0) by {
        NoColumns(matrix.View());
      }
      for i := 0 to s.outs
        invariant matrix.Settled() && InPlace(matrix.View())
        invariant OwnColumns(matrix.View(), 2 * (i * s.size))
      {
        MulNext(i, s.outs, s.size);
        assert (i + 1) * s.size == i * s.size + s.size;
        for j := 0 to s.size
          invariant matrix.Settled() && InPlace(matrix.View())
          invariant OwnColumns(matrix.View(), 2 * (i * s.size + j))
        {
          var pos := 2 * (i * s.size + j);
          SameCount(matrix.View(), matrix.matrix.NOPIVOT);
          OwnColumnsStep(matrix.View(), matrix.matrix.NOPIVOT, pos);
          matrix.InitBit(pos, pos);
          SameCount(matrix.View(), matrix.matrix.NOPIVOT);
          OwnColumnsStep(matrix.View(), matrix.matrix.NOPIVOT, pos + 1);
          matrix.InitBit(pos + 1, pos + 1);
        }
      }
      SameCount(matrix.View(), matrix.matrix.NOPIVOT);
      OwnColumnsStart(s, f, matrix.View());
    }

    /** Enters input bit `b` in the rows of the output bits that its unit vector sets. */
    method InitInput(s: Shape, f: set<Bit> -> set<Bit>, ghost done: set<Bit>, b: Bit)
      requires matrix.Settled() && matrix.AllListed() && matrix.matrix.rows == 2 * s.OutCount() && 2 * s.Positions() <= matrix.RHS
      requires done <= s.InBits() && b in s.InBits() && b !in done
      requires InPlace(matrix.View()) && FunctionMatrix(s, f, matrix.View(), done)
      modifies matrix.matrix
      ensures matrix.Settled() && InPlace(matrix.View()) && FunctionMatrix(s, f, matrix.View(), done + {b})
    {
      hide UnlistedRead, Wf, PivotOf, IsInverse, PartMatrix, FunctionMatrix, InPlace, XorInto, Within;
      PosBounds(s, b, b);
      var image := f({b});
      PartStart(s, f, matrix.View(), done, b);
      ghost var part: set<Bit> := {};
      for k := 0 to s.outs
        invariant matrix.Settled() && PartMatrix(s, f, matrix.View(), done, b, part)
        invariant forall o :: o in part <==> o in s.OutBits() && o.word < k
      {
        for l := 0 to s.size
          invariant matrix.Settled() && PartMatrix(s, f, matrix.View(), done, b, part)
          invariant forall o :: o in part <==> o in s.OutBits() && (o.word < k || (o.word == k && o.bit < l))
        {
          var o := Bit(k, l);
          if o in image {
            EnterBoth(s, f, matrix.View(), matrix.matrix.NOPIVOT, done, b, part, o);
            var outpos := 2 * s.OutPos(o);
            var inpos := 2 * s.InPos(b);
            matrix.InitBit(outpos, inpos);
            matrix.InitBit(outpos + 1, inpos + 1);
          } else {
            EnterNone(s, f, matrix.View(), done, b, part, o);
          }
          part := part + {o};
        }
      }
      assert part == s.OutBits();
      PartEnd(s, f, matrix.View(), done, b);
    }

    /** Sets the matrix of a linear function up from its values on unit vectors: sorted, reduced, and solved
        exactly by the pairs of graphs of the function. */
    method InitLinearFunction(s: Shape, f: set<Bit> -> set<Bit>)
      requires matrix.Settled() && matrix.AllListed() && matrix.matrix.rows == 2 * s.OutCount() && 2 * s.Positions() <= matrix.RHS
      requires InPlace(matrix.View()) && forall p :: 0 <= p < matrix.matrix.rows ==> matrix.matrix.data[p] == {}
      requires Linear(s, f)
      modifies matrix.matrix
      ensures matrix.IsReduced()
      ensures forall x :: Solves(matrix.View(), matrix.RHS, x) <==> matrix.RHS in x && IsGraph(s, f, x)
      ensures forall i :: 0 <= i < matrix.matrix.rows ==> matrix.matrix.row[i].pivot == i
      ensures forall c: nat :: 2 * s.Positions() <= c < matrix.RHS ==> EmptyColumn(matrix.View(), c)
    {
      hide UnlistedRead, Wf, PivotOf, IsInverse, FunctionMatrix, InPlace, Within, Linear, IsGraph;
      assert s.Positions() == s.OutCount() + s.ins * s.size;
      InitOutputs(s, f);
      ghost var done: set<Bit> := {};
      for i := 0 to s.ins
        invariant matrix.Settled() && InPlace(matrix.View())
        invariant forall b :: b in done <==> b in s.InBits() && b.word < i
        invariant FunctionMatrix(s, f, matrix.View(), done)
      {
        for j := 0 to s.size
          invariant matrix.Settled() && InPlace(matrix.View())
          invariant forall b :: b in done <==> b in s.InBits() && (b.word < i || (b.word == i && b.bit < j))
          invariant FunctionMatrix(s, f, matrix.View(), done)
        {
          InitInput(s, f, done, Bit(i, j));
          done := done + {Bit(i, j)};
        }
      }
      assert done == s.InBits();
      FunctionReduced(s, f, matrix.View(), matrix.matrix.NOPIVOT, matrix.RHS);
      FunctionColumns(s, f, matrix.View());
      forall x | matrix.RHS in x ensures Solves(matrix.View(), matrix.RHS, x) <==> IsGraph(s, f, x) {
        GraphMatrix(s, f, matrix.View(), matrix.RHS, x);
      }
    }

    /** Shares the matrix of `cp`; what is done to it from now on can be undone. */
    method ShallowCopy(cp: LinearConditions)
      requires cp.matrix.Valid()
      modifies this`matrix, cp.matrix`changes, cp.matrix`base
      ensures matrix == cp.matrix == old(cp.matrix)
      ensures matrix.Valid() && matrix.LogOk() && matrix.changes == [] && matrix.base == matrix.View() == old(cp.matrix.View())
    {
      matrix := cp.matrix;
      matrix.FixChanges();
    }

    /** Adds the equations of condition `c` on pair `pos`. For a linear condition the answer says whether the
        matrix has a solution that meets it. */
    method AddLinearConditions(c: Cond, pos: nat, backtrack: bool) returns (ok: bool)
      requires matrix.IsReduced() && c <= ANY && 2 * pos + 1 < matrix.RHS
      modifies matrix, matrix.matrix
      ensures matrix.Valid() && matrix.base == old(matrix.base) && matrix.stash == old(matrix.stash)
      ensures matrix.lastRead == old(matrix.lastRead)
      ensures ok ==> matrix.IsReduced() && LeadsGone(matrix.View(), c, pos) && LeadsGone(matrix.View(), Stated(c), pos)
      ensures KeepsOutside(old(matrix.View()), matrix.View(), {2 * pos, 2 * pos + 1, matrix.RHS})
      ensures SameMeeting(old(matrix.View()), matrix.View(), matrix.RHS, Stated(c), pos)
      ensures !ok ==> forall x :: Solves(old(matrix.View()), matrix.RHS, x) ==> !Meets(c, pos, x)
      ensures ok <==> Meetable(old(matrix.View()), matrix.RHS, Stated(c), pos)
      ensures c <= Stated(c) && (Linear4(c) ==> Stated(c) == c)
      ensures backtrack && old(matrix.LogOk()) ==> matrix.LogOk()
    {
      StatedEquations(c);
      hide UnlistedRead, Wf, Reduced, Solves, KeepsOutside, Value, EmptyColumn, Equations, LeadsGone, Within, Stated, Linear4,
        Meets, Meetable, Added, SameMeeting;
      ghost var m0, said := matrix.View(), Stated(c);
      var rhs := matrix.RHS;
      var qs := Equations(c);
      EquationForms(c);
      NoneAdded(m0, rhs, said, pos);
      for k := 0 to |qs|
        invariant matrix.IsReduced() && Added(m0, matrix.View(), rhs, said, pos, k)
        invariant matrix.base == old(matrix.base) && matrix.stash == old(matrix.stash)
        invariant matrix.lastRead == old(matrix.lastRead)
        invariant backtrack && old(matrix.LogOk()) ==> matrix.LogOk()
      {
        ghost var m := matrix.View();
        assert qs[k] in qs;
        PairSet(qs[k], pos, rhs);
        ok := matrix.AddEquation(PairColumns(qs[k], pos), qs[k].rhs, backtrack);
        AddOne(m0, m, matrix.View(), rhs, said, pos, k);
        if !ok {
          NoneMeets(m0, m, rhs, c, said, pos, k, WithRhs(PairColumns(qs[k], pos), qs[k].rhs, rhs));
          return;
        }
      }
      ok := true;
      AllAdded(m0, matrix.View(), matrix.matrix.NOPIVOT, rhs, said, pos);
      SameLeads(matrix.View(), c, said, pos);
    }

    /** What row `i` says about the pair of its pivot: nothing unless it has no column outside the pair, and otherwise
        exactly that the row holds. */
    method GetBitConditionFromRow(i: nat) returns (c: Cond)
      requires matrix.Valid() && i < matrix.matrix.rows && Indexed(matrix.View())
      ensures c == Read(matrix.View().Bits(i), matrix.matrix.row[i].pivot / 2, matrix.RHS)
      ensures Says(matrix.View().Bits(i), matrix.matrix.row[i].pivot / 2, matrix.RHS, c)
      ensures 2 * (matrix.matrix.row[i].pivot / 2) + 1 < matrix.RHS ==>
        forall x :: Solves(matrix.View(), matrix.RHS, x) ==> Code(x, matrix.matrix.row[i].pivot / 2) in c
    {
      c := Read(matrix.matrix.data[matrix.matrix.row[i].index], matrix.matrix.row[i].pivot / 2, matrix.RHS);
      ReadSays(matrix.View().Bits(i), matrix.matrix.row[i].pivot / 2, matrix.RHS);
      RowSays(matrix.View(), i, matrix.RHS, matrix.matrix.row[i].pivot / 2);
    }

    /** What the sum of two rows says, if their pivots belong to the same pair. */
    method GetBitConditionFromRows(a: int, b: int) returns (c: Cond)
      requires matrix.Valid() && Indexed(matrix.View())
      ensures c == ReadSum(matrix.View(), a, b, matrix.RHS)
      ensures if 0 <= a < matrix.matrix.rows && 0 <= b < matrix.matrix.rows &&
                matrix.matrix.row[a].pivot / 2 == matrix.matrix.row[b].pivot / 2
              then Says(Xor(matrix.View().Bits(a), matrix.View().Bits(b)), matrix.matrix.row[a].pivot / 2, matrix.RHS, c)
              else c == ANY
      ensures 0 <= a < matrix.matrix.rows && 2 * (matrix.matrix.row[a].pivot / 2) + 1 < matrix.RHS ==>
        forall x :: Solves(matrix.View(), matrix.RHS, x) ==> Code(x, matrix.matrix.row[a].pivot / 2) in c
    {
      if 0 <= a < matrix.matrix.rows {
        SumSays(matrix.View(), a, b, matrix.RHS, matrix.matrix.row[a].pivot / 2);
      }
      if a < 0 || b < 0 || a >= matrix.matrix.rows || b >= matrix.matrix.rows {
        return ANY;
      }
      if matrix.matrix.GetPivot(a) / 2 != matrix.matrix.GetPivot(b) / 2 {
        return ANY;
      }
      ReadSays(Xor(matrix.View().Bits(a), matrix.View().Bits(b)), matrix.matrix.row[a].pivot / 2, matrix.RHS);
      c := Read(Xor(matrix.matrix.data[matrix.matrix.row[a].index], matrix.matrix.data[matrix.matrix.row[b].index]),
                matrix.matrix.GetPivot(a) / 2, matrix.RHS);
    }

    /** Reads one row, and its sum with the row that may hold the other pivot of the pair unless it is that of the row
        read before; stops when a condition becomes empty. */
    method ReadListedRow(row: nat, row2: int, out: seq<Cond>, ghost conds: seq<Cond>)
      returns (ok: bool, next: seq<Cond>, next2: int)
      requires matrix.IsReduced() && RowReadable(matrix.View(), matrix.matrix.NOPIVOT, row, |out|)
      requires Between(matrix.View(), matrix.RHS, conds, out)
      ensures Indexed(matrix.View()) && Between(matrix.View(), matrix.RHS, conds, next) && |next| == |out|
      ensures ok ==> next == ReadRow(matrix.View(), matrix.matrix.NOPIVOT, matrix.RHS, row, row2, out)
      ensures ok ==> next2 == NextPartner(matrix.View(), matrix.matrix.NOPIVOT, row, row2)
      ensures !ok ==> exists b :: 0 <= b < |out| && next[b] == {} && out[b] != {}
    {
      hide UnlistedRead, Wf, IsInverse, Reduced, Read, ReadSum, Allows, Within, PivotOf, Says, Between;
      ghost var m := matrix.View();
      var rhs := matrix.RHS;
      next, next2 := out, row2;
      if matrix.IsContradiction(row) {
        NoContradiction(m, matrix.matrix.NOPIVOT, rhs, row);
      }
      if matrix.matrix.GetPivot(row) == matrix.matrix.NOPIVOT {
        return true, next, next2;
      }
      var b := matrix.matrix.GetPivot(row) / 2;
      var even := matrix.matrix.GetPivot(row) % 2 == 0;
      var c := GetBitConditionFromRow(row);
      RowAllows(m, rhs, row, row + 1);
      RowAllows(m, rhs, row, row - 1);
      Narrow(m, rhs, conds, next, b, c);
      next := next[b := c * next[b]];
      if next[b] == {} && out[b] != {} {
        return false, next, next2;
      }
      if row == row2 && !even {
        return true, next, next2;
      }
      next2 := if even then row + 1 else row - 1;
      var d := GetBitConditionFromRows(row, next2);
      Narrow(m, rhs, conds, next, b, d);
      next := next[b := d * next[b]];
      ok := next[b] != {} || out[b] == {};
    }

    /** Reads the listed rows into the conditions of their pairs. No value that some solution takes is lost. When the
        conditions had been read off the other rows before, exactly the values that solutions take are left if and
        only if the sums that are skipped rule out no more; this is so in particular when all rows are listed. */
    method PropagateConditions(conds: seq<Cond>) returns (ok: bool, out: seq<Cond>)
      requires matrix.IsReduced() && 2 * |conds| <= matrix.RHS
      requires forall i :: 0 <= i < matrix.matrix.rows && matrix.matrix.row[i].pivot < matrix.RHS ==>
        matrix.matrix.row[i].pivot / 2 < |conds|
      requires forall b :: 0 <= b < |conds| ==> conds[b] <= ANY
      modifies matrix`rowsToExtract, matrix`lastRead
      ensures matrix.IsReduced() && |out| == |conds|
      ensures forall b, v :: 0 <= b < |conds| && v in out[b] ==> v in conds[b]
      ensures forall b, v :: 0 <= b < |conds| && v in conds[b] && Takes(matrix.View(), b, matrix.RHS, v) ==> v in out[b]
      ensures ok ==> AreRead(matrix.View(), matrix.matrix.NOPIVOT, matrix.RHS,
                             RowsOf(matrix.matrix.rowinv, old(matrix.rowsToExtract)), conds, out)
      ensures ok && ReadOff(matrix.matrix.data, old(matrix.rowsToExtract), matrix.matrix.NOPIVOT, matrix.RHS, conds) ==>
        (Exact(matrix.View(), matrix.RHS, out) <==>
          SumsImplied(matrix.View(), matrix.matrix.NOPIVOT, matrix.RHS,
                      RowsOf(matrix.matrix.rowinv, old(matrix.rowsToExtract)), conds))
      ensures ok && old(matrix.AllListed()) ==> Exact(matrix.View(), matrix.RHS, out)
      ensures ok && Exact(matrix.View(), matrix.RHS, out) ==>
        ReadOff(matrix.lastRead, [], matrix.matrix.NOPIVOT, matrix.RHS, out)
      ensures ok ==> matrix.rowsToExtract == [] && matrix.lastRead == matrix.matrix.data
      ensures !ok ==> exists b :: 0 <= b < |conds| && out[b] == {}
    {
      hide UnlistedRead, Wf, IsInverse, Reduced, Read, ReadSum, Allows, Within, PivotOf, ReadOff, Exact, Skipped, Stands,
        SumsImplied, Between, ReadRow, NextPartner, RowReadable, NoneTwice;
      ghost var m := matrix.View();
      var rhs := matrix.RHS;
      ghost var cols := matrix.matrix.NOPIVOT;
      AllIndices(m, cols);
      SameCount(m, cols);
      var row2: int := -1;
      var dirty := matrix.rowsToExtract;
      ghost var rows := RowsOf(matrix.matrix.rowinv, dirty);
      ListedRows(|conds|);
      out := conds;
      BetweenStart(m, rhs, conds);
      for t := 0 to |dirty|
        invariant matrix.rowsToExtract == dirty && matrix.lastRead == old(matrix.lastRead) && Between(m, rhs, conds, out)
        invariant out == ReadTo(m, cols, rhs, rows, t, conds) && row2 == Partner(m, cols, rows, t)
      {
        assert matrix.matrix.rowinv[dirty[t]] == rows[t] && RowReadable(m, cols, rows[t], |conds|);
        ok, out, row2 := ReadListedRow(matrix.matrix.rowinv[dirty[t]], row2, out, conds);
        if !ok {
          Handed(m, cols, rhs, conds, out);
          return;
        }
      }
      matrix.rowsToExtract, matrix.lastRead := [], matrix.matrix.data;
      UnlistedNone(matrix.matrix.data);
      NoneTwiceNone();
      Handed(m, cols, rhs, conds, out);
      ReadingResult(m, cols, rhs, dirty, rows, conds);
      ok := true;
    }

    /** The rows to be read. */
    lemma ListedRows(n: nat)
      requires matrix.IsReduced()
      requires forall i :: 0 <= i < matrix.matrix.rows && matrix.matrix.row[i].pivot < matrix.RHS ==>
        matrix.matrix.row[i].pivot / 2 < n
      ensures var rows := RowsOf(matrix.matrix.rowinv, matrix.rowsToExtract);
        && Stands(matrix.View(), matrix.rowsToExtract, rows) && Readable(matrix.View(), matrix.matrix.NOPIVOT, rows, n)
        && |matrix.matrix.rowinv| == matrix.matrix.rows && NoneTwice(rows)
        && forall k :: 0 <= k < |rows| ==> matrix.rowsToExtract[k] < matrix.matrix.rows
    {
      var m, cols, rows := matrix.View(), matrix.matrix.NOPIVOT, RowsOf(matrix.matrix.rowinv, matrix.rowsToExtract);
      AllIndices(m, cols);
      RowsInverse();
      hide Wf, Reduced, UnlistedRead, Within, IsInverse;
      forall k | 0 <= k < |rows|
        ensures matrix.rowsToExtract[k] < matrix.matrix.rows && rows[k] < |m.row| &&
                m.row[rows[k]].index == matrix.rowsToExtract[k] && RowReadable(m, cols, rows[k], n)
      {
        assert matrix.rowsToExtract[k] in matrix.rowsToExtract;
        var i := RowOf(matrix.matrix.row, matrix.rowsToExtract[k]);
        if m.row[i].pivot != cols {
          PivotBelow(m, cols, matrix.RHS, i);
        }
      }
    }

    /** What exact conditions had been read off all rows is still read off all rows that are not listed, whatever has
        been done to the matrix since, and although the conditions may have become smaller. */
    lemma ReadSince(conds: seq<Cond>, now: seq<Cond>)
      requires matrix.Valid() && Narrower(now, conds)
      requires ReadOff(matrix.lastRead, [], matrix.matrix.NOPIVOT, matrix.RHS, conds)
      ensures ReadOff(matrix.matrix.data, matrix.rowsToExtract, matrix.matrix.NOPIVOT, matrix.RHS, now)
    {
      ReadOffLater(matrix.lastRead, matrix.matrix.data, matrix.rowsToExtract, matrix.matrix.NOPIVOT, matrix.RHS, conds, now);
    }

    lemma RowsInverse()
      requires matrix.Valid()
      ensures |matrix.matrix.rowinv| == |matrix.matrix.row| == matrix.matrix.rows
      ensures forall i :: 0 <= i < matrix.matrix.rows ==>
        matrix.matrix.row[i].index < matrix.matrix.rows && matrix.matrix.rowinv[matrix.matrix.row[i].index] == i
      ensures forall p :: 0 <= p < matrix.matrix.rows ==> matrix.matrix.rowinv[p] < matrix.matrix.rows
    {
      forall p | 0 <= p < matrix.matrix.rows ensures matrix.matrix.rowinv[p] < matrix.matrix.rows {
        var i := RowOf(matrix.matrix.row, p);
      }
    }
  }

  lemma BetweenStart(m: Matrix, rhs: nat, conds: seq<Cond>)
    requires Indexed(m) && forall b :: 0 <= b < |conds| ==> conds[b] <= ANY
    ensures Between(m, rhs, conds, conds)
  {
  }

  lemma NoContradiction(m: Matrix, cols: nat, rhs: nat, i: nat)
    requires Reduced(m, cols, rhs) && rhs < cols && i < |m.row|
    ensures m.row[i].pivot != rhs
  {
    assert Clean(m.data, m.row[i], cols, rhs);
  }

  lemma PivotBelow(m: Matrix, cols: nat, rhs: nat, i: nat)
    requires Wf(m, cols) && Reduced(m, cols, rhs) && Within(m, rhs) && rhs < cols && i < |m.row|
    requires m.row[i].pivot != cols
    ensures m.row[i].pivot < rhs
  {
    NoContradiction(m, cols, rhs, i);
    assert m.row[i].pivot in m.Bits(i);
  }

  lemma Handed(m: Matrix, cols: nat, rhs: nat, conds: seq<Cond>, out: seq<Cond>)
    requires Wf(m, cols) && Reduced(m, cols, rhs) && rhs < cols && Indexed(m) && Between(m, rhs, conds, out)
    requires 2 * |conds| <= rhs
    ensures forall b, v :: 0 <= b < |conds| && v in out[b] ==> v in conds[b] && v < 4
    ensures forall b, v :: 0 <= b < |conds| && v in conds[b] && Takes(m, b, rhs, v) ==> v in out[b]
  {
    forall b, v | 0 <= b < |conds| && v in conds[b] && Takes(m, b, rhs, v) ensures v in out[b] {
      hide PivotOf, Wf, Reduced, Takes, Read, Value;
      ReadingExact(m, cols, b, rhs, v);
    }
  }

  lemma RhsIn(m: Matrix, rhs: nat, x: set<nat>)
    requires Solves(m, rhs, x)
    ensures rhs in x
  {
  }

  lemma NoneAdded(m: Matrix, rhs: nat, c: Cond, b: nat)
    ensures Added(m, m, rhs, c, b, 0)
  {
  }

  /** An equation that a condition implies and no solution meets refutes it. */
  lemma NoneMeets(m0: Matrix, m: Matrix, rhs: nat, c: Cond, said: Cond, b: nat, k: nat, e: set<nat>)
    requires c <= said && Added(m0, m, rhs, said, b, k)
    requires forall x :: Solves(m, rhs, x) ==> Value(e, x)
    requires forall x :: rhs in x && Meets(said, b, x) ==> !Value(e, x)
    ensures !Meetable(m0, rhs, said, b) && forall x :: Solves(m0, rhs, x) ==> !Meets(c, b, x)
  {
    forall x | Solves(m0, rhs, x) ensures !Meets(said, b, x) {
      RhsIn(m0, rhs, x);
      hide Solves, Value, Code;
      assert Meets(said, b, x) ==> (Solves(m, rhs, x) <==> Solves(m0, rhs, x));
    }
  }

  lemma AllAdded(m0: Matrix, m: Matrix, cols: nat, rhs: nat, c: Cond, b: nat)
    requires Wf(m, cols) && Reduced(m, cols, rhs) && 2 * b + 1 < rhs < cols
    requires Added(m0, m, rhs, c, b, |Equations(c)|)
    ensures LeadsGone(m, c, b) && KeepsOutside(m0, m, {2 * b, 2 * b + 1, rhs})
    ensures SameMeeting(m0, m, rhs, c, b)
    ensures Linear4(c) ==> Meetable(m0, rhs, c, b)
  {
    hide Reduced, PivotOf, Solves, Equations, Meets, Wf, Linear4;
    if Linear4(c) {
      CanBeMet(m, cols, rhs, c, b);
      var x :| Solves(m, rhs, x) && Meets(c, b, x);
      assert Solves(m0, rhs, x);
    }
  }
}