/** What the rows of a reduced matrix say about one bit pair (src/linear_conditions.cpp). */
module PairReadings {
  import opened Gf2
  import opened RowOrders
  import opened LinearSystems
  import opened Substitutions

  /** A condition on a bit pair is the set of its allowed values; value v is first bit + 2 * second bit. */
  type Cond = set<nat>

  const ANY: Cond := {0, 1, 2, 3}

  /** The value that pair `b` takes under an assignment. */
  function Code(x: set<nat>, b: nat): nat {
    (if 2 * b in x then 1 else 0) + if 2 * b + 1 in x then 2 else 0
  }

  /** The condition stated by an equation with the given columns of the pair and right-hand side. */
  function Table(first: bool, second: bool, rhs: bool): Cond {
    match (first, second, rhs)
    case (false, false, false) => ANY
    case (false, false, true) => {}
    case (true, false, false) => {0, 2}
    case (true, false, true) => {1, 3}
    case (false, true, false) => {0, 1}
    case (false, true, true) => {2, 3}
    case (true, true, false) => {0, 3}
    case (true, true, true) => {1, 2}
  }

  lemma TableMeans(first: bool, second: bool, rhs: bool, v: nat)
    ensures v in Table(first, second, rhs) <==>
      v < 4 && (((first && v % 2 == 1) != (second && v >= 2)) == rhs)
  {
  }

  /** What a single equation says about pair `b`: nothing unless it mentions no other column. */
  function Read(e: set<nat>, b: nat, rhs: nat): Cond {
    if e <= {2 * b, 2 * b + 1, rhs} then Table(2 * b in e, 2 * b + 1 in e, rhs in e) else ANY
  }

  lemma ReadMeans(e: set<nat>, b: nat, rhs: nat, x: set<nat>)
    requires e <= {2 * b, 2 * b + 1, rhs} && 2 * b + 1 < rhs && rhs in x
    ensures Code(x, b) in Read(e, b, rhs) <==> !Value(e, x)
  {
    TableMeans(2 * b in e, 2 * b + 1 in e, rhs in e, Code(x, b));
    hide Table, Value;
    PairValue(e, b, rhs, x);
    CodeParts(x, b);
  }

  lemma CodeParts(x: set<nat>, b: nat)
    ensures Code(x, b) < 4
    ensures Code(x, b) % 2 == 1 <==> 2 * b in x
    ensures Code(x, b) >= 2 <==> 2 * b + 1 in x
  {
  }

  lemma PairValue(e: set<nat>, b: nat, rhs: nat, x: set<nat>)
    requires e <= {2 * b, 2 * b + 1, rhs} && 2 * b + 1 < rhs
    ensures Value(e, x) <==>
      (((2 * b in e && 2 * b in x) != (2 * b + 1 in e && 2 * b + 1 in x)) != (rhs in e && rhs in x))
  {
    hide Value;
    var e0, e1, e2 := e * {2 * b}, e * {2 * b + 1}, e * {rhs};
    assert Xor(e0, e1) == e0 + e1;
    assert Xor(e0 + e1, e2) == e;
    ValueXor(e0 + e1, e2, x);
    ValueXor(e0, e1, x);
    PartValue(e, 2 * b, x);
    PartValue(e, 2 * b + 1, x);
    PartValue(e, rhs, x);
  }

  lemma PartValue(e: set<nat>, c: nat, x: set<nat>)
    ensures Value(e * {c}, x) <==> c in e && c in x
  {
    if c in e {
      assert e * {c} == {c};
      ValueSingle(c, x);
    } else {
      assert e * {c} * x == {};
    }
  }

  lemma ReadSound(e: set<nat>, b: nat, rhs: nat, x: set<nat>)
    requires 2 * b + 1 < rhs && rhs in x && !Value(e, x)
    ensures Code(x, b) in Read(e, b, rhs)
  {
    if e <= {2 * b, 2 * b + 1, rhs} {
      ReadMeans(e, b, rhs, x);
    }
  }

  /** `c` says nothing if the equation mentions a column outside pair `b`, and otherwise exactly that it holds. */
  ghost predicate Says(e: set<nat>, b: nat, rhs: nat, c: Cond) {
    2 * b + 1 < rhs ==>
      if e <= {2 * b, 2 * b + 1, rhs} then forall x :: rhs in x ==> (Code(x, b) in c <==> !Value(e, x)) else c == ANY
  }

  lemma ReadSays(e: set<nat>, b: nat, rhs: nat)
    ensures Says(e, b, rhs, Read(e, b, rhs))
  {
    if 2 * b + 1 < rhs && e <= {2 * b, 2 * b + 1, rhs} {
      forall x: set<nat> | rhs in x ensures Code(x, b) in Read(e, b, rhs) <==> !Value(e, x) {
        ReadMeans(e, b, rhs, x);
      }
    }
  }

  ghost predicate InPair(m: Matrix, i: int, b: nat) {
    0 <= i < |m.row| && m.row[i].pivot / 2 == b
  }

  /** The values of pair `b` that the rows with a pivot there, and their sums, allow. */
  ghost predicate Allows(m: Matrix, b: nat, rhs: nat, v: nat)
    requires forall i :: 0 <= i < |m.row| ==> m.row[i].index < |m.data|
  {
    && v < 4
    && (forall i :: InPair(m, i, b) ==> v in Read(m.Bits(i), b, rhs))
    && (forall i, j :: InPair(m, i, b) && InPair(m, j, b) && i != j ==> v in Read(Xor(m.Bits(i), m.Bits(j)), b, rhs))
  }

  // ---- assignments from the free columns ----

  ghost predicate IsPivot(m: Matrix, c: nat) {
    exists i :: 0 <= i < |m.row| && m.row[i].pivot == c
  }

  /** The assignment with the given free columns set and the pivots following. */
  ghost function Extend(m: Matrix, cols: nat, rhs: nat, free: set<nat>): set<nat>
    requires forall i :: 0 <= i < |m.row| ==> m.row[i].index < |m.data|
  {
    free + {rhs} + set i | 0 <= i < |m.row| && m.row[i].pivot < cols &&
      Value(m.Bits(i) - {m.row[i].pivot}, free + {rhs}) :: m.row[i].pivot
  }

  lemma ExtendAt(m: Matrix, cols: nat, rhs: nat, free: set<nat>, i: nat)
    requires Wf(m, cols) && Reduced(m, cols, rhs) && i < |m.row| && m.row[i].pivot < cols
    requires forall c :: c in free ==> !IsPivot(m, c)
    ensures m.row[i].pivot in Extend(m, cols, rhs, free) <==> Value(m.Bits(i) - {m.row[i].pivot}, free + {rhs})
  {
    hide PivotOf;
    var p := m.row[i].pivot;
    assert IsPivot(m, p);
    assert Clean(m.data, m.row[i], cols, rhs);
    if p in Extend(m, cols, rhs, free) {
      var j :| 0 <= j < |m.row| && m.row[j].pivot < cols &&
        Value(m.Bits(j) - {m.row[j].pivot}, free + {rhs}) && m.row[j].pivot == p;
      SamePivot(m, cols, rhs, i, j);
    }
  }

  lemma ExtendFree(m: Matrix, cols: nat, rhs: nat, free: set<nat>, c: nat)
    requires Wf(m, cols) && Reduced(m, cols, rhs) && !IsPivot(m, c) && c != rhs
    ensures c in Extend(m, cols, rhs, free) <==> c in free
  {
  }

  lemma ExtendSolves(m: Matrix, cols: nat, rhs: nat, free: set<nat>)
    requires Wf(m, cols) && Reduced(m, cols, rhs) && rhs < cols
    requires forall c :: c in free ==> !IsPivot(m, c)
    ensures Solves(m, rhs, Extend(m, cols, rhs, free))
  {
    hide PivotOf;
    var x := Extend(m, cols, rhs, free);
    forall p | 0 <= p < |m.data| ensures !Value(m.data[p], x) {
      var i := RowOf(m.row, p);
      ExtendRow(m, cols, rhs, free, i);
    }
  }

  lemma ExtendRow(m: Matrix, cols: nat, rhs: nat, free: set<nat>, i: nat)
    requires Wf(m, cols) && Reduced(m, cols, rhs) && rhs < cols && i < |m.row|
    requires forall c :: c in free ==> !IsPivot(m, c)
    ensures !Value(m.Bits(i), Extend(m, cols, rhs, free))
  {
    var x, p, e := Extend(m, cols, rhs, free), m.row[i].pivot, m.Bits(i);
    PivotLeast(m, cols, i);
    if p == cols {
      hide PivotOf, Value, Extend, Reduced;
      assert e == {};
      EmptyValue(x);
    } else {
      ExtendAt(m, cols, rhs, free, i);
      ExtendOthers(m, cols, rhs, free, i);
      assert p !in {rhs} by { assert Clean(m.data, m.row[i], cols, rhs); }
      hide PivotOf, Value, Extend, Reduced, Wf;
      PivotValue(e, p, x, free + {rhs});
    }
  }

  /** Away from its pivot a row sees only the free columns. */
  lemma ExtendOthers(m: Matrix, cols: nat, rhs: nat, free: set<nat>, i: nat)
    requires Wf(m, cols) && Reduced(m, cols, rhs) && i < |m.row|
    requires forall c :: c in free ==> !IsPivot(m, c)
    ensures forall c :: c in m.Bits(i) - {m.row[i].pivot} ==> (c in Extend(m, cols, rhs, free) <==> c in free + {rhs})
  {
    forall c | c in m.Bits(i) - {m.row[i].pivot} ensures c in Extend(m, cols, rhs, free) <==> c in free + {rhs} {
      if c == rhs {
        assert c in Extend(m, cols, rhs, free);
      } else {
        NotOther(m, cols, rhs, i, c);
        ExtendFree(m, cols, rhs, free, c);
      }
    }
  }

  /** A row holds when its pivot has the value of the rest of the row. */
  lemma PivotValue(e: set<nat>, p: nat, x: set<nat>, y: set<nat>)
    requires p in e && (forall c :: c in e - {p} ==> (c in x <==> c in y)) && (p in x <==> Value(e - {p}, y))
    ensures !Value(e, x)
  {
    ValueAgree(e - {p}, x, y);
    assert e == Xor(e - {p}, {p});
    ValueXor(e - {p}, {p}, x);
    ValueSingle(p, x);
    hide Value, Xor;
  }

  lemma EmptyValue(x: set<nat>)
    ensures !Value({}, x)
  {
    assert {} * x == {};
  }

  /** A non-pivot column of a row is no pivot at all. */
  lemma NotOther(m: Matrix, cols: nat, rhs: nat, i: nat, c: nat)
    requires Wf(m, cols) && Reduced(m, cols, rhs) && i < |m.row| && c in m.Bits(i) && c != m.row[i].pivot
    ensures !IsPivot(m, c)
  {
    forall j | 0 <= j < |m.row| ensures m.row[j].pivot != c {
      if m.row[j].pivot == c && j != i {
        PivotLeast(m, cols, i);
        CleanRow(m, cols, rhs, j, i);
      }
    }
  }

  // ---- steering the values of two rows ----

  /** Chooses free columns so that two equations take wanted values, unless their columns tie them down. */
  lemma Steer(d: set<nat>, e: set<nat>, rhs: nat, v: bool, w: bool) returns (free: set<nat>)
    requires d <= {rhs} ==> v == (rhs in d)
    requires e <= {rhs} ==> w == (rhs in e)
    requires d - {rhs} == e - {rhs} ==> ((v != w) <==> (rhs in d) != (rhs in e))
    ensures free <= (d + e) - {rhs}
    ensures Value(d, free + {rhs}) == v && Value(e, free + {rhs}) == w
  {
    hide Value;
    free := {};
    StartValue(d, rhs);
    StartValue(e, rhs);
    assert {} + {rhs} == {rhs};
    if d - {rhs} == e - {rhs} {
      if v != (rhs in d) {
        var c := Other(d, rhs);
        assert c in d - {rhs};
        free := Flip(d, e, rhs, free, c);
      }
    } else if exists c :: c in d - {rhs} && c !in e {
      var c :| c in d - {rhs} && c !in e;
      if w != (rhs in e) {
        var k := Other(e, rhs);
        free := Flip(d, e, rhs, free, k);
      }
      if v != Value(d, free + {rhs}) {
        free := Flip(d, e, rhs, free, c);
      }
    } else {
      var c := Extra(d, e, rhs);
      if v != (rhs in d) {
        var k := Other(d, rhs);
        free := Flip(d, e, rhs, free, k);
      }
      if w != Value(e, free + {rhs}) {
        free := Flip(d, e, rhs, free, c);
      }
    }
  }

  lemma Other(d: set<nat>, rhs: nat) returns (c: nat)
    requires !(d <= {rhs})
    ensures c in d && c != rhs
  {
    c :| c in d && c !in {rhs};
  }

  lemma Extra(d: set<nat>, e: set<nat>, rhs: nat) returns (c: nat)
    requires d - {rhs} != e - {rhs} && d - {rhs} <= e
    ensures c in e && c != rhs && c !in d
  {
    assert d - {rhs} < e - {rhs};
    c :| c in e - {rhs} && c !in d - {rhs};
  }

  lemma StartValue(d: set<nat>, rhs: nat)
    ensures Value(d, {rhs}) <==> rhs in d
  {
    ValueSymmetric(d, {rhs});
    ValueSingle(rhs, d);
  }

  lemma Flip(d: set<nat>, e: set<nat>, rhs: nat, free: set<nat>, c: nat) returns (more: set<nat>)
    requires free <= (d + e) - {rhs} && c in (d + e) - {rhs}
    ensures more <= (d + e) - {rhs}
    ensures Value(d, more + {rhs}) == (Value(d, free + {rhs}) != (c in d))
    ensures Value(e, more + {rhs}) == (Value(e, free + {rhs}) != (c in e))
  {
    more := Xor(free, {c});
    assert more + {rhs} == Xor(free + {rhs}, {c});
    assert more <= (d + e) - {rhs};
    hide Value, Xor;
    ValueFlip(d, free + {rhs}, c);
    ValueFlip(e, free + {rhs}, c);
  }

  // ---- the reading is exact ----

  ghost predicate Takes(m: Matrix, b: nat, rhs: nat, v: nat) {
    exists x :: Solves(m, rhs, x) && Code(x, b) == v
  }

  lemma AllowsSound(m: Matrix, cols: nat, b: nat, rhs: nat, x: set<nat>)
    requires Wf(m, cols) && 2 * b + 1 < rhs && Solves(m, rhs, x)
    ensures Allows(m, b, rhs, Code(x, b))
  {
    hide PivotOf, Value, Read;
    forall i | InPair(m, i, b) ensures Code(x, b) in Read(m.Bits(i), b, rhs) {
      ReadSound(m.Bits(i), b, rhs, x);
    }
    forall i, j | InPair(m, i, b) && InPair(m, j, b) && i != j
      ensures Code(x, b) in Read(Xor(m.Bits(i), m.Bits(j)), b, rhs)
    {
      ValueXor(m.Bits(i), m.Bits(j), x);
      ReadSound(Xor(m.Bits(i), m.Bits(j)), b, rhs, x);
    }
  }

  /** The columns of row `i` other than its pivot. */
  ghost function Tail(m: Matrix, i: nat): set<nat>
    requires i < |m.row| && m.row[i].index < |m.data|
  {
    m.Bits(i) - {m.row[i].pivot}
  }

  lemma Choose(m: Matrix, cols: nat, b: nat, rhs: nat, free: set<nat>, v: nat)
    requires Wf(m, cols) && Reduced(m, cols, rhs) && 2 * b + 1 < rhs < cols && v < 4
    requires forall c :: c in free ==> !IsPivot(m, c)
    requires Code(Extend(m, cols, rhs, free), b) == v
    ensures Takes(m, b, rhs, v)
  {
    ExtendSolves(m, cols, rhs, free);
  }

  /** No pivot in the pair: every value is taken. */
  lemma TakesFree(m: Matrix, cols: nat, b: nat, rhs: nat, v: nat)
    requires Wf(m, cols) && Reduced(m, cols, rhs) && 2 * b + 1 < rhs < cols && v < 4
    requires !IsPivot(m, 2 * b) && !IsPivot(m, 2 * b + 1)
    ensures Takes(m, b, rhs, v)
  {
    hide PivotOf, Value, Reduced, Wf, IsPivot;
    AllIndices(m, cols);
    var free := (if v % 2 == 1 then {2 * b} else {}) + if v >= 2 then {2 * b + 1} else {};
    ExtendFree(m, cols, rhs, free, 2 * b);
    ExtendFree(m, cols, rhs, free, 2 * b + 1);
    CodeParts(Extend(m, cols, rhs, free), b);
    Choose(m, cols, b, rhs, free, v);
  }

  /** One pivot in the pair, in row `i`; `c` is the other column. */
  lemma TakesOne(m: Matrix, cols: nat, b: nat, rhs: nat, v: nat, i: nat, c: nat)
    requires Wf(m, cols) && Reduced(m, cols, rhs) && 2 * b + 1 < rhs < cols
    requires i < |m.row| && {m.row[i].pivot, c} == {2 * b, 2 * b + 1} && c != m.row[i].pivot && !IsPivot(m, c)
    requires v < 4 && v in Read(m.Bits(i), b, rhs)
    ensures Takes(m, b, rhs, v)
  {
    hide PivotOf, Value, Reduced, Wf, Table;
    AllIndices(m, cols);
    var p, d := m.row[i].pivot, Tail(m, i);
    var vc := if c == 2 * b then v % 2 == 1 else v >= 2;
    var vp := if p == 2 * b then v % 2 == 1 else v >= 2;
    var free := if vc then {c} else {};
    PivotIn(m, cols, i);
    if Value(d, free + {rhs}) != vp {
      assert !(d <= {c, rhs}) by {
        if d <= {c, rhs} {
          TiedOne(m, cols, b, rhs, v, i, c);
        }
      }
      var k :| k in d && k !in {c, rhs};
      NotOther(m, cols, rhs, i, k);
      ValueFlip(d, free + {rhs}, k);
      assert Xor(free + {rhs}, {k}) == (free + {k}) + {rhs};
      free := free + {k};
    }
    ExtendAt(m, cols, rhs, free, i);
    ExtendFree(m, cols, rhs, free, c);
    CodeParts(Extend(m, cols, rhs, free), b);
    Choose(m, cols, b, rhs, free, v);
  }

  /** A row with no column outside the pair ties its pivot to the other column. */
  lemma TiedOne(m: Matrix, cols: nat, b: nat, rhs: nat, v: nat, i: nat, c: nat)
    requires Wf(m, cols) && Reduced(m, cols, rhs) && 2 * b + 1 < rhs < cols
    requires i < |m.row| && {m.row[i].pivot, c} == {2 * b, 2 * b + 1} && c != m.row[i].pivot
    requires v < 4 && v in Read(m.Bits(i), b, rhs) && Tail(m, i) <= {c, rhs}
    ensures Value(Tail(m, i), (if (if c == 2 * b then v % 2 == 1 else v >= 2) then {c} else {}) + {rhs})
      == if m.row[i].pivot == 2 * b then v % 2 == 1 else v >= 2
  {
    hide PivotOf, Value, Reduced, Table;
    var p, d, e := m.row[i].pivot, Tail(m, i), m.Bits(i);
    PivotIn(m, cols, i);
    var x := (if (if c == 2 * b then v % 2 == 1 else v >= 2) then {c} else {}) + {rhs};
    TableMeans(2 * b in e, 2 * b + 1 in e, rhs in e, v);
    PairValue(d, b, rhs, x);
  }

  /** Both columns are pivots, of rows `i` and `j`. */
  lemma TakesBoth(m: Matrix, cols: nat, b: nat, rhs: nat, v: nat, i: nat, j: nat)
    requires Wf(m, cols) && Reduced(m, cols, rhs) && 2 * b + 1 < rhs < cols
    requires i < |m.row| && j < |m.row| && m.row[i].pivot == 2 * b && m.row[j].pivot == 2 * b + 1
    requires v < 4 && v in Read(m.Bits(i), b, rhs) && v in Read(m.Bits(j), b, rhs)
    requires v in Read(Xor(m.Bits(i), m.Bits(j)), b, rhs)
    ensures Takes(m, b, rhs, v)
  {
    hide PivotOf, Value, Reduced, Table;
    var d, e := Tail(m, i), Tail(m, j);
    PivotIn(m, cols, i);
    PivotIn(m, cols, j);
    CleanRow(m, cols, rhs, i, j);
    CleanRow(m, cols, rhs, j, i);
    TiedBoth(m.Bits(i), m.Bits(j), b, rhs, v);
    var free := Steer(d, e, rhs, v % 2 == 1, v >= 2);
    forall c | c in free ensures !IsPivot(m, c) {
      if c in d {
        NotOther(m, cols, rhs, i, c);
      } else {
        NotOther(m, cols, rhs, j, c);
      }
    }
    ExtendAt(m, cols, rhs, free, i);
    ExtendAt(m, cols, rhs, free, j);
    CodeParts(Extend(m, cols, rhs, free), b);
    Choose(m, cols, b, rhs, free, v);
  }

  lemma TiedBoth(d: set<nat>, e: set<nat>, b: nat, rhs: nat, v: nat)
    requires 2 * b + 1 < rhs && v < 4
    requires 2 * b in d && 2 * b + 1 !in d && 2 * b + 1 in e && 2 * b !in e
    requires v in Read(d, b, rhs) && v in Read(e, b, rhs) && v in Read(Xor(d, e), b, rhs)
    ensures d - {2 * b} <= {rhs} ==> (v % 2 == 1) == (rhs in d)
    ensures e - {2 * b + 1} <= {rhs} ==> (v >= 2) == (rhs in e)
    ensures d - {2 * b} - {rhs} == e - {2 * b + 1} - {rhs} ==> (((v % 2 == 1) != (v >= 2)) <==> (rhs in d) != (rhs in e))
  {
    hide Table;
    TableMeans(true, false, rhs in d, v);
    TableMeans(false, true, rhs in e, v);
    TableMeans(true, true, (rhs in d) != (rhs in e), v);
    assert forall c :: c in d ==> c == 2 * b || c in d - {2 * b};
    assert forall c :: c in e ==> c == 2 * b + 1 || c in e - {2 * b + 1};
    if d - {2 * b} - {rhs} == e - {2 * b + 1} - {rhs} {
      assert forall c :: c in d && c != 2 * b && c != rhs ==> c in d - {2 * b} - {rhs};
      assert forall c :: c in e && c != 2 * b + 1 && c != rhs ==> c in e - {2 * b + 1} - {rhs};
      assert Xor(d, e) <= {2 * b, 2 * b + 1, rhs};
    }
  }

  /** The values allowed by the rows of the pair and their sums are exactly the values that the pair takes over
      all solutions. */
  lemma ReadingExact(m: Matrix, cols: nat, b: nat, rhs: nat, v: nat)
    requires Wf(m, cols) && Reduced(m, cols, rhs) && 2 * b + 1 < rhs < cols
    ensures Allows(m, b, rhs, v) <==> Takes(m, b, rhs, v)
  {
    hide PivotOf, Value, Reduced, Read, Wf;
    AllIndices(m, cols);
    if Takes(m, b, rhs, v) {
      var x :| Solves(m, rhs, x) && Code(x, b) == v;
      AllowsSound(m, cols, b, rhs, x);
    }
    if Allows(m, b, rhs, v) {
      if IsPivot(m, 2 * b) {
        var i :| 0 <= i < |m.row| && m.row[i].pivot == 2 * b;
        assert InPair(m, i, b);
        if IsPivot(m, 2 * b + 1) {
          var j :| 0 <= j < |m.row| && m.row[j].pivot == 2 * b + 1;
          assert InPair(m, j, b);
          TakesBoth(m, cols, b, rhs, v, i, j);
        } else {
          TakesOne(m, cols, b, rhs, v, i, 2 * b + 1);
        }
      } else if IsPivot(m, 2 * b + 1) {
        var j :| 0 <= j < |m.row| && m.row[j].pivot == 2 * b + 1;
        assert InPair(m, j, b);
        TakesOne(m, cols, b, rhs, v, j, 2 * b);
      } else {
        TakesFree(m, cols, b, rhs, v);
      }
    }
  }

  lemma AllIndices(m: Matrix, cols: nat)
    requires Wf(m, cols)
    ensures forall i :: 0 <= i < |m.row| ==> m.row[i].index < |m.data|
  {
  }

  // ---- reading all rows ----

  /** What the sum of two rows says; nothing unless their pivots belong to the same pair. */
  ghost function ReadSum(m: Matrix, i: int, j: int, rhs: nat): Cond
    requires forall k :: 0 <= k < |m.row| ==> m.row[k].index < |m.data|
  {
    if 0 <= i < |m.row| && 0 <= j < |m.row| && m.row[i].pivot / 2 == m.row[j].pivot / 2
    then Read(Xor(m.Bits(i), m.Bits(j)), m.row[i].pivot / 2, rhs) else ANY
  }

  /** What a row, or the sum of two rows, says of a pair holds for all solutions. */
  lemma RowSays(m: Matrix, i: nat, rhs: nat, b: nat)
    requires Indexed(m) && i < |m.row|
    ensures 2 * b + 1 < rhs ==> forall x :: Solves(m, rhs, x) ==> Code(x, b) in Read(m.Bits(i), b, rhs)
  {
    if 2 * b + 1 < rhs {
      forall x | Solves(m, rhs, x) ensures Code(x, b) in Read(m.Bits(i), b, rhs) {
        ReadSound(m.Bits(i), b, rhs, x);
      }
    }
  }

  lemma SumSays(m: Matrix, i: nat, j: int, rhs: nat, b: nat)
    requires Indexed(m) && i < |m.row| && m.row[i].pivot / 2 == b
    ensures 2 * b + 1 < rhs ==> forall x :: Solves(m, rhs, x) ==> Code(x, b) in ReadSum(m, i, j, rhs)
  {
    if 2 * b + 1 < rhs {
      forall x | Solves(m, rhs, x) ensures Code(x, b) in ReadSum(m, i, j, rhs) {
        CodeParts(x, b);
        if 0 <= j < |m.row| && m.row[j].pivot / 2 == b {
          ValueXor(m.Bits(i), m.Bits(j), x);
          ReadSound(Xor(m.Bits(i), m.Bits(j)), b, rhs, x);
        }
      }
    }
  }

  ghost predicate Indexed(m: Matrix) {
    forall k :: 0 <= k < |m.row| ==> m.row[k].index < |m.data|
  }

  /** `out` is below `conds` and has lost nothing that the matrix allows. */
  ghost predicate Between(m: Matrix, rhs: nat, conds: seq<Cond>, out: seq<Cond>)
    requires Indexed(m)
  {
    && |out| == |conds|
    && forall b :: 0 <= b < |conds| ==> out[b] <= conds[b] <= ANY && forall v :: v in conds[b] && Allows(m, b, rhs, v) ==> v in out[b]
  }

  lemma Narrow(m: Matrix, rhs: nat, conds: seq<Cond>, out: seq<Cond>, b: nat, c: Cond)
    requires Indexed(m) && Between(m, rhs, conds, out) && b < |out|
    requires forall v :: Allows(m, b, rhs, v) ==> v in c
    ensures Between(m, rhs, conds, out[b := c * out[b]])
  {
  }

  lemma RowAllows(m: Matrix, rhs: nat, i: nat, j: int)
    requires Indexed(m) && i < |m.row| && i != j
    ensures forall v :: Allows(m, m.row[i].pivot / 2, rhs, v) ==> v in Read(m.Bits(i), m.row[i].pivot / 2, rhs)
    ensures forall v :: Allows(m, m.row[i].pivot / 2, rhs, v) ==> v in ReadSum(m, i, j, rhs)
  {
    var b := m.row[i].pivot / 2;
    assert InPair(m, i, b);
    forall v | Allows(m, b, rhs, v) ensures v in ReadSum(m, i, j, rhs) {
      if 0 <= j < |m.row| && m.row[j].pivot / 2 == b {
        assert InPair(m, j, b);
      }
    }
  }

  /** Two rows with their pivots in the same pair are neighbours, the even pivot first. */
  lemma Adjacent(m: Matrix, cols: nat, rhs: nat, b: nat, k: nat, l: nat)
    requires Wf(m, cols) && Reduced(m, cols, rhs) && 2 * b + 1 < cols
    requires k < l < |m.row| && InPair(m, k, b) && InPair(m, l, b)
    ensures l == k + 1 && m.row[k].pivot == 2 * b && m.row[l].pivot == 2 * b + 1
  {
    hide PivotOf, AllClean, Wf;
    assert SortedByPivot(m.row);
    assert m.row[k].pivot <= m.row[k + 1].pivot <= m.row[l].pivot;
    PivotsDiffer(m, cols, rhs, k, l);
    PivotsDiffer(m, cols, rhs, k, k + 1);
    PivotsDiffer(m, cols, rhs, k + 1, l);
  }
}
