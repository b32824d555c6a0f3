/** The matrix of a linear function, built from its values on unit vectors, for both messages at once
    (src/linear_conditions.h). */
module LinearFunctions {
  import opened Gf2
  import opened RowOrders
  import opened LinearSystems

  /** One bit of an array of words. An array of words is the set of its bits that are one. */
  datatype Bit = Bit(word: nat, bit: nat)

  /** Number of input words, of output words, and of bits in a word. */
  datatype Shape = Shape(ins: nat, outs: nat, size: nat) {
    function InBits(): set<Bit> {
      set i, j | 0 <= i < ins && 0 <= j < size :: Bit(i, j)
    }

    function OutBits(): set<Bit> {
      set k, l | 0 <= k < outs && 0 <= l < size :: Bit(k, l)
    }

    /** Number of bits of all outputs. */
    function OutCount(): nat { outs * size }

    /** Number of bits of all outputs and inputs. */
    function Positions(): nat { (outs + ins) * size }

    function OutPos(o: Bit): nat
      requires o.word < outs && o.bit < size
    {
      Place(outs - 1 - o.word, o.bit)
    }

    function InPos(b: Bit): nat
      requires b.word < ins && b.bit < size
    {
      OutCount() + Place(ins - 1 - b.word, b.bit)
    }

    function Place(word: nat, bit: nat): nat { word * size + bit }

    /** The output bit with a given position. */
    function OutBit(pos: nat): Bit
      requires pos < OutCount() && size > 0
    {
      DivSmall(pos, size, outs);
      Bit(outs - 1 - pos / size, pos % size)
    }

    /** Column of input bit `b` of message `t`. */
    function InCol(b: Bit, t: nat): nat
      requires b.word < ins && b.bit < size
    {
      2 * InPos(b) + t
    }
  }

  lemma DivSmall(n: nat, d: nat, k: nat)
    requires d > 0 && n < k * d
    ensures n / d < k
  {
    if n / d >= k {
      MulUp(k, n / d, d);
    }
  }

  lemma MulUp(a: nat, b: nat, d: nat)
    requires a <= b
    ensures a * d <= b * d
  {
  }

  lemma PlaceParts(a: nat, l: nat, d: nat)
    requires l < d
    ensures (a * d + l) / d == a && (a * d + l) % d == l
  {
    var n := a * d + l;
    var q := n / d;
    assert n == q * d + n % d;
    if q < a {
      MulNext(q, a, d);
    } else if q > a {
      MulNext(a, q, d);
    }
  }

  lemma MulNext(a: nat, b: nat, d: nat)
    requires a < b
    ensures a * d + d <= b * d
  {
    MulUp(a + 1, b, d);
    assert (a + 1) * d == a * d + d;
  }

  lemma PlaceBound(a: nat, l: nat, d: nat, n: nat)
    requires a < n && l < d
    ensures a * d + l < n * d
  {
    MulNext(a, n, d);
  }

  lemma PosBounds(s: Shape, o: Bit, b: Bit)
    ensures o in s.OutBits() ==> o.word < s.outs && o.bit < s.size && s.OutPos(o) < s.OutCount()
    ensures b in s.InBits() ==> b.word < s.ins && b.bit < s.size && s.OutCount() <= s.InPos(b) < s.Positions()
    ensures o in s.OutBits() ==> s.OutBit(s.OutPos(o)) == o
  {
    if o in s.OutBits() {
      OutPosBounds(s, o);
    }
    if b in s.InBits() {
      InPosBounds(s, b);
    }
  }

  lemma OutPosBounds(s: Shape, o: Bit)
    requires o in s.OutBits()
    ensures o.word < s.outs && o.bit < s.size && s.OutPos(o) < s.OutCount() && s.OutBit(s.OutPos(o)) == o
  {
    PlaceBound(s.outs - 1 - o.word, o.bit, s.size, s.outs);
    PlaceParts(s.outs - 1 - o.word, o.bit, s.size);
    var pos := s.OutPos(o);
    assert pos / s.size == s.outs - 1 - o.word && pos % s.size == o.bit;
  }

  lemma InPosBounds(s: Shape, b: Bit)
    requires b in s.InBits()
    ensures b.word < s.ins && b.bit < s.size && s.OutCount() <= s.InPos(b) < s.Positions()
  {
    PlaceBound(s.ins - 1 - b.word, b.bit, s.size, s.ins);
    Distribute(s.outs, s.ins, s.size);
  }

  lemma Distribute(a: nat, b: nat, d: nat)
    ensures (a + b) * d == a * d + b * d
  {
  }

  /** The position of bit `bit` of the k-th parameter of a step: the inputs are its first parameters, the outputs follow,
      and the last parameter comes first. */
  function ParamPos(s: Shape, k: nat, bit: nat): nat
    requires k < s.ins + s.outs
  {
    (s.ins + s.outs - 1 - k) * s.size + bit
  }

  /** The positions of the matrix are those at which the step is told of its parameters, and the parameter and the bit
      can be read off a position. */
  lemma ParamPositions(s: Shape, k: nat, bit: nat)
    requires k < s.ins + s.outs && bit < s.size
    ensures k < s.ins ==> s.InPos(Bit(k, bit)) == ParamPos(s, k, bit)
    ensures k >= s.ins ==> s.OutPos(Bit(k - s.ins, bit)) == ParamPos(s, k, bit)
    ensures s.ins + s.outs - 1 - ParamPos(s, k, bit) / s.size == k && ParamPos(s, k, bit) % s.size == bit
  {
    PlaceParts(s.ins + s.outs - 1 - k, bit, s.size);
    if k < s.ins {
      Distribute(s.outs, s.ins - 1 - k, s.size);
    }
  }

  lemma OutBitOf(s: Shape, pos: nat)
    requires s.size > 0 && pos < s.OutCount()
    ensures s.OutBit(pos) in s.OutBits() && s.OutPos(s.OutBit(pos)) == pos
  {
    DivSmall(pos, s.size, s.outs);
    assert pos == (pos / s.size) * s.size + pos % s.size;
  }

  lemma InColDiffers(s: Shape, a: Bit, b: Bit, t: nat)
    requires a in s.InBits() && b in s.InBits() && a != b
    ensures s.InCol(a, t) != s.InCol(b, t)
  {
    PlaceParts(s.ins - 1 - a.word, a.bit, s.size);
    PlaceParts(s.ins - 1 - b.word, b.bit, s.size);
  }

  // ---- linear functions ----

  function XorBits(u: set<Bit>, v: set<Bit>): set<Bit> {
    (u - v) + (v - u)
  }

  ghost predicate Linear(s: Shape, f: set<Bit> -> set<Bit>) {
    forall u: set<Bit>, v: set<Bit> :: u <= s.InBits() && v <= s.InBits() ==>
      forall o :: o in f(XorBits(u, v)) <==> (o in f(u)) != (o in f(v))
  }

  /** The input bits in `u` whose unit vector sets output bit `o`. */
  ghost function Sources(f: set<Bit> -> set<Bit>, u: set<Bit>, o: Bit): set<Bit> {
    set b | b in u && o in f({b})
  }

  /** A linear function is the sum of its values on unit vectors. */
  lemma {:induction false} LinearSum(s: Shape, f: set<Bit> -> set<Bit>, u: set<Bit>, o: Bit)
    requires Linear(s, f) && u <= s.InBits()
    ensures o in f(u) <==> |Sources(f, u, o)| % 2 == 1
  {
    if u == {} {
      assert XorBits(u, u) == u;
      assert Sources(f, u, o) == {};
    } else {
      hide Linear, Sources;
      var b :| b in u;
      var v := u - {b};
      LinearSum(s, f, v, o);
      LinearFlip(s, f, v, b, o);
      OneSource(f, v, b, o);
      assert u == v + {b};
    }
  }

  lemma LinearFlip(s: Shape, f: set<Bit> -> set<Bit>, v: set<Bit>, b: Bit, o: Bit)
    requires Linear(s, f) && v + {b} <= s.InBits() && b !in v
    ensures o in f(v + {b}) <==> (o in f(v)) != (o in f({b}))
  {
    assert XorBits(v, {b}) == v + {b};
  }

  lemma OneSource(f: set<Bit> -> set<Bit>, v: set<Bit>, b: Bit, o: Bit)
    requires b !in v
    ensures |Sources(f, v + {b}, o)| == |Sources(f, v, o)| + if o in f({b}) then 1 else 0
  {
    if o in f({b}) {
      assert Sources(f, v + {b}, o) == Sources(f, v, o) + {b};
    } else {
      assert Sources(f, v + {b}, o) == Sources(f, v, o);
    }
  }

  // ---- the matrix ----

  /** Input columns of message `t` that feed output bit `o`, for the inputs in `done`. */
  ghost function Feeds(s: Shape, f: set<Bit> -> set<Bit>, o: Bit, t: nat, done: set<Bit>): set<nat>
    requires done <= s.InBits()
  {
    set b | b in done && o in f({b}) :: s.InCol(b, t)
  }

  /** The row of the matrix for output bit `o` and message `t`, once the inputs in `done` are entered. */
  ghost function FunctionRow(s: Shape, f: set<Bit> -> set<Bit>, r: nat, done: set<Bit>): set<nat>
    requires done <= s.InBits() && s.size > 0 && r < 2 * s.OutCount()
  {
    {r} + Feeds(s, f, s.OutBit(r / 2), r % 2, done)
  }

  ghost predicate FunctionMatrix(s: Shape, f: set<Bit> -> set<Bit>, m: Matrix, done: set<Bit>)
    requires done <= s.InBits()
  {
    && |m.data| == |m.row| == 2 * s.OutCount()
    && (s.size > 0 ==> forall r :: 0 <= r < |m.data| ==> m.data[r] == FunctionRow(s, f, r, done))
  }

  /** The words of message `t` in an assignment. */
  ghost function Inputs(s: Shape, x: set<nat>, t: nat): set<Bit> {
    set b | b in s.InBits() && s.InCol(b, t) in x
  }

  ghost function Outputs(s: Shape, x: set<nat>, t: nat): set<Bit> {
    set o | o in s.OutBits() && 2 * s.OutPos(o) + t in x
  }

  /** For both messages, the outputs are the function of the inputs. */
  ghost predicate IsGraph(s: Shape, f: set<Bit> -> set<Bit>, x: set<nat>) {
    forall t, o :: 0 <= t < 2 && o in s.OutBits() ==> (o in Outputs(s, x, t) <==> o in f(Inputs(s, x, t)))
  }

  lemma {:induction false} FeedsValue(s: Shape, f: set<Bit> -> set<Bit>, o: Bit, t: nat, done: set<Bit>, x: set<nat>)
    requires done <= s.InBits()
    ensures Value(Feeds(s, f, o, t, done), x) <==> |Sources(f, done * Inputs(s, x, t), o)| % 2 == 1
  {
    if done == {} {
      FeedsNone(s, f, o, t, done, x);
    } else {
      hide Value, Feeds, Inputs, Sources;
      var b :| b in done;
      var rest := done - {b};
      assert done == rest + {b};
      FeedsValue(s, f, o, t, rest, x);
      SourcesMore(f, rest, b, Inputs(s, x, t), o);
      FeedsFlip(s, f, o, t, rest, b, x);
      OddNext(|Sources(f, rest * Inputs(s, x, t), o)|);
    }
  }

  lemma FeedsNone(s: Shape, f: set<Bit> -> set<Bit>, o: Bit, t: nat, done: set<Bit>, x: set<nat>)
    requires done == {}
    ensures !Value(Feeds(s, f, o, t, done), x) && Sources(f, done * Inputs(s, x, t), o) == {}
  {
    assert Feeds(s, f, o, t, done) * x == {};
  }

  lemma OddNext(n: nat)
    ensures (n + 1) % 2 == 1 <==> n % 2 != 1
  {
  }

  lemma SourcesMore(f: set<Bit> -> set<Bit>, done: set<Bit>, b: Bit, ins: set<Bit>, o: Bit)
    requires b !in done
    ensures |Sources(f, (done + {b}) * ins, o)| ==
      |Sources(f, done * ins, o)| + if b in ins && o in f({b}) then 1 else 0
  {
    if b in ins && o in f({b}) {
      assert Sources(f, (done + {b}) * ins, o) == Sources(f, done * ins, o) + {b};
    } else {
      assert Sources(f, (done + {b}) * ins, o) == Sources(f, done * ins, o);
    }
  }

  lemma FeedsFlip(s: Shape, f: set<Bit> -> set<Bit>, o: Bit, t: nat, rest: set<Bit>, b: Bit, x: set<nat>)
    requires rest <= s.InBits() && b in s.InBits() && b !in rest
    ensures Value(Feeds(s, f, o, t, rest + {b}), x) <==>
      (Value(Feeds(s, f, o, t, rest), x) != (o in f({b}) && b in Inputs(s, x, t)))
  {
    FeedsMore(s, f, o, t, rest, b);
    ValueXor(Feeds(s, f, o, t, rest), {s.InCol(b, t)}, x);
    ValueSingle(s.InCol(b, t), x);
  }

  lemma FeedsMore(s: Shape, f: set<Bit> -> set<Bit>, o: Bit, t: nat, done: set<Bit>, b: Bit)
    requires done <= s.InBits() && b in s.InBits() && b !in done
    ensures s.InCol(b, t) !in Feeds(s, f, o, t, done)
    ensures Feeds(s, f, o, t, done + {b}) ==
      if o in f({b}) then Xor(Feeds(s, f, o, t, done), {s.InCol(b, t)}) else Feeds(s, f, o, t, done)
  {
    forall a | a in done ensures s.InCol(a, t) != s.InCol(b, t) {
      InColDiffers(s, a, b, t);
    }
    assert Feeds(s, f, o, t, done + {b}) == Feeds(s, f, o, t, done) + if o in f({b}) then {s.InCol(b, t)} else {};
  }

  /** The solutions of the matrix are exactly the pairs of function graphs. */
  lemma GraphMatrix(s: Shape, f: set<Bit> -> set<Bit>, m: Matrix, rhs: nat, x: set<nat>)
    requires Linear(s, f) && FunctionMatrix(s, f, m, s.InBits()) && rhs in x
    ensures Solves(m, rhs, x) <==> IsGraph(s, f, x)
  {
    hide Linear, FunctionMatrix, GraphRowMeans;
    if IsGraph(s, f, x) {
      forall r | 0 <= r < |m.data| ensures !Value(m.data[r], x) {
        GraphRowHolds(s, f, m, x, r);
      }
    }
    if Solves(m, rhs, x) {
      forall t, o | 0 <= t < 2 && o in s.OutBits() ensures o in Outputs(s, x, t) <==> o in f(Inputs(s, x, t)) {
        SolvedOutput(s, f, m, x, t, o);
      }
    }
  }

  /** Row `r` holds exactly when its output bit is the function of the inputs. */
  ghost predicate GraphRowMeans(s: Shape, f: set<Bit> -> set<Bit>, m: Matrix, x: set<nat>, r: nat)
    requires r < |m.data| == 2 * s.OutCount() && s.size > 0
  {
    !Value(m.data[r], x) <==> (s.OutBit(r / 2) in Outputs(s, x, r % 2) <==> s.OutBit(r / 2) in f(Inputs(s, x, r % 2)))
  }

  lemma GraphRowMeaning(s: Shape, f: set<Bit> -> set<Bit>, m: Matrix, x: set<nat>, r: nat)
    requires Linear(s, f) && FunctionMatrix(s, f, m, s.InBits()) && r < |m.data|
    ensures |m.data| == 2 * s.OutCount() && s.size > 0 && GraphRowMeans(s, f, m, x, r)
  {
    PositiveSize(s);
    GraphRow(s, f, r, x);
    hide Linear, Value;
  }

  lemma GraphRowHolds(s: Shape, f: set<Bit> -> set<Bit>, m: Matrix, x: set<nat>, r: nat)
    requires Linear(s, f) && FunctionMatrix(s, f, m, s.InBits()) && r < |m.data| && IsGraph(s, f, x)
    ensures !Value(m.data[r], x)
  {
    GraphRowMeaning(s, f, m, x, r);
    OutBitOf(s, r / 2);
    hide Linear, FunctionMatrix, Value;
  }

  lemma SolvedOutput(s: Shape, f: set<Bit> -> set<Bit>, m: Matrix, x: set<nat>, t: nat, o: Bit)
    requires Linear(s, f) && FunctionMatrix(s, f, m, s.InBits()) && t < 2 && o in s.OutBits()
    requires forall r :: 0 <= r < |m.data| ==> !Value(m.data[r], x)
    ensures o in Outputs(s, x, t) <==> o in f(Inputs(s, x, t))
  {
    PosBounds(s, o, o);
    var r := 2 * s.OutPos(o) + t;
    assert r < |m.data|;
    GraphRowMeaning(s, f, m, x, r);
    hide Linear, FunctionMatrix, Value;
    assert r / 2 == s.OutPos(o) && r % 2 == t;
  }

  lemma PositiveSize(s: Shape)
    requires s.OutCount() > 0
    ensures s.size > 0
  {
  }

  lemma GraphRow(s: Shape, f: set<Bit> -> set<Bit>, r: nat, x: set<nat>)
    requires Linear(s, f) && s.size > 0 && r < 2 * s.OutCount()
    ensures Value(FunctionRow(s, f, r, s.InBits()), x) <==>
      ((s.OutBit(r / 2) in Outputs(s, x, r % 2)) != (s.OutBit(r / 2) in f(Inputs(s, x, r % 2))))
  {
    hide Value, Linear;
    var o, t := s.OutBit(r / 2), r % 2;
    OutBitOf(s, r / 2);
    var feeds := Feeds(s, f, o, t, s.InBits());
    forall c | c in feeds ensures c != r {
      var b :| b in s.InBits() && c == s.InCol(b, t);
      PosBounds(s, o, b);
    }
    assert FunctionRow(s, f, r, s.InBits()) == Xor(feeds, {r});
    ValueXor(feeds, {r}, x);
    FeedsValue(s, f, o, t, s.InBits(), x);
    assert s.InBits() * Inputs(s, x, t) == Inputs(s, x, t);
    LinearSum(s, f, Inputs(s, x, t), o);
    ValueSingle(r, x);
    assert r == 2 * s.OutPos(o) + t;
  }

  // ---- setting the matrix up ----

  ghost predicate InPlace(m: Matrix) {
    forall r :: 0 <= r < |m.row| ==> m.row[r].index == r
  }

  /** Input bit `b` is entered in the rows of the output bits in `part`, those in `done` in all rows. */
  ghost predicate PartMatrix(s: Shape, f: set<Bit> -> set<Bit>, m: Matrix, done: set<Bit>, b: Bit, part: set<Bit>)
    requires done <= s.InBits() && b in s.InBits()
  {
    && InPlace(m) && |m.data| == |m.row| == 2 * s.OutCount() && s.size > 0
    && forall r :: 0 <= r < |m.data| ==>
         m.data[r] == FunctionRow(s, f, r, if s.OutBit(r / 2) in part then done + {b} else done)
  }

  lemma EnterNone(s: Shape, f: set<Bit> -> set<Bit>, m: Matrix, done: set<Bit>, b: Bit, part: set<Bit>, o: Bit)
    requires done <= s.InBits() && b in s.InBits() && b !in done && o in s.OutBits() && o !in f({b})
    requires PartMatrix(s, f, m, done, b, part)
    ensures PartMatrix(s, f, m, done, b, part + {o})
  {
    forall r | 0 <= r < |m.data|
      ensures m.data[r] == FunctionRow(s, f, r, if s.OutBit(r / 2) in part + {o} then done + {b} else done)
    {
      if s.OutBit(r / 2) == o {
        FeedsMore(s, f, o, r % 2, done, b);
      }
    }
  }

  /** A further input bit in the row of an output bit. */
  lemma FedRow(s: Shape, f: set<Bit> -> set<Bit>, r: nat, o: Bit, done: set<Bit>, b: Bit)
    requires s.size > 0 && r / 2 < s.OutCount() && s.OutBit(r / 2) == o
    requires done <= s.InBits() && b in s.InBits() && b !in done && o in f({b})
    ensures Xor(FunctionRow(s, f, r, done), {s.InCol(b, r % 2)}) == FunctionRow(s, f, r, done + {b})
  {
    PosBounds(s, o, b);
    FeedsMore(s, f, o, r % 2, done, b);
    hide Feeds;
    assert s.InCol(b, r % 2) != r;
    assert Xor({r} + Feeds(s, f, o, r % 2, done), {s.InCol(b, r % 2)})
        == {r} + Xor(Feeds(s, f, o, r % 2, done), {s.InCol(b, r % 2)});
  }

  lemma EnterBoth(s: Shape, f: set<Bit> -> set<Bit>, m: Matrix, cols: nat, done: set<Bit>, b: Bit, part: set<Bit>, o: Bit)
    requires done <= s.InBits() && b in s.InBits() && b !in done && o in s.OutBits() && o in f({b}) && o !in part
    requires PartMatrix(s, f, m, done, b, part)
    ensures 2 * s.OutPos(o) + 1 < |m.row|
    ensures var n := XorInto(m, cols, 2 * s.OutPos(o), {s.InCol(b, 0)});
      2 * s.OutPos(o) + 1 < |n.row| && n.row[2 * s.OutPos(o) + 1].index < |n.data| &&
      PartMatrix(s, f, XorInto(n, cols, 2 * s.OutPos(o) + 1, {s.InCol(b, 1)}), done, b, part + {o})
  {
    hide PivotOf, Feeds;
    PosBounds(s, o, b);
    var p := 2 * s.OutPos(o);
    var n := XorInto(m, cols, p, {s.InCol(b, 0)});
    var q := XorInto(n, cols, p + 1, {s.InCol(b, 1)});
    assert forall r :: 0 <= r < |q.data| ==>
      q.data[r] == if r == p || r == p + 1 then Xor(m.data[r], {s.InCol(b, r - p)}) else m.data[r];
    hide XorInto, Xor, FunctionRow, Shape.OutBits, Shape.InBits, Shape.InCol;
    forall r | 0 <= r < |q.data|
      ensures q.data[r] == FunctionRow(s, f, r, if s.OutBit(r / 2) in part + {o} then done + {b} else done)
    {
      OutBitOf(s, r / 2);
      if s.OutBit(r / 2) == o {
        assert r == p + r % 2;
        FedRow(s, f, r, o, done, b);
      } else {
        assert r != p && r != p + 1;
      }
    }
  }

  lemma PartStart(s: Shape, f: set<Bit> -> set<Bit>, m: Matrix, done: set<Bit>, b: Bit)
    requires done <= s.InBits() && b in s.InBits() && InPlace(m) && FunctionMatrix(s, f, m, done)
    ensures PartMatrix(s, f, m, done, b, {})
  {
  }

  lemma PartEnd(s: Shape, f: set<Bit> -> set<Bit>, m: Matrix, done: set<Bit>, b: Bit)
    requires done <= s.InBits() && b in s.InBits() && PartMatrix(s, f, m, done, b, s.OutBits())
    ensures FunctionMatrix(s, f, m, done + {b}) && InPlace(m)
  {
    forall r | 0 <= r < |m.data| ensures s.OutBit(r / 2) in s.OutBits() {
      OutBitOf(s, r / 2);
    }
  }

  /** The finished matrix is sorted and reduced, with the output columns as pivots. */
  lemma FunctionReduced(s: Shape, f: set<Bit> -> set<Bit>, m: Matrix, cols: nat, rhs: nat)
    requires Wf(m, cols) && InPlace(m) && FunctionMatrix(s, f, m, s.InBits())
    requires 2 * s.Positions() <= rhs < cols
    ensures Reduced(m, cols, rhs)
    ensures forall r :: 0 <= r < |m.row| ==> m.row[r].pivot == r
  {
    forall r | 0 <= r < |m.row| ensures r in m.data[r] && forall c :: c in m.data[r] ==> c == r || c >= |m.row| {
      PositiveSize(s);
      forall c | c in m.data[r] && c != r ensures c >= |m.row| {
        var b :| b in s.InBits() && c == s.InCol(b, r % 2);
        PosBounds(s, s.OutBit(r / 2), b);
      }
    }
    forall r | 0 <= r < |m.row| ensures m.row[r].pivot == r && Clean(m.data, m.row[r], cols, rhs) {
      PivotUnique(m.data[r], cols, r);
      assert s.Positions() == s.OutCount() + s.ins * s.size;
    }
  }

  /** No column lies beyond the inputs. */
  lemma FunctionColumns(s: Shape, f: set<Bit> -> set<Bit>, m: Matrix)
    requires FunctionMatrix(s, f, m, s.InBits())
    ensures forall c: nat :: 2 * s.Positions() <= c ==> EmptyColumn(m, c)
  {
    forall c: nat, r | 2 * s.Positions() <= c && 0 <= r < |m.data| ensures c !in m.data[r] {
      PositiveSize(s);
      assert s.Positions() == s.OutCount() + s.ins * s.size;
      forall b | b in s.InBits() ensures s.InCol(b, r % 2) != c {
        PosBounds(s, b, b);
      }
    }
  }
}
