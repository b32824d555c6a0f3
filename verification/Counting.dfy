/** How many assignments a triangular system of equations has. */
module Counting {
  import opened Gf2

  function Pow2(n: nat): (p: nat)
    ensures p > 0
  {
    if n == 0 then 1 else 2 * Pow2(n - 1)
  }

  lemma {:induction false} Pow2Sum(a: nat, b: nat)
    ensures Pow2(a + b) == Pow2(a) * Pow2(b)
  {
    if b > 0 {
      Pow2Sum(a, b - 1);
    }
  }

  /** The sets of columns that solve the equations. */
  ghost function Sat(columns: set<nat>, eqs: seq<set<nat>>, rhs: nat): set<set<nat>> {
    set x: set<nat> | x <= columns && forall i :: 0 <= i < |eqs| ==> !Value(eqs[i], x + {rhs})
  }

  /** Each equation has a column of its own that no earlier equation mentions. */
  ghost predicate Triangular(columns: set<nat>, eqs: seq<set<nat>>, leads: seq<nat>) {
    && |leads| == |eqs|
    && (forall i :: 0 <= i < |eqs| ==> leads[i] in eqs[i] && leads[i] in columns)
    && (forall i, j :: 0 <= j < i < |eqs| ==> leads[i] !in eqs[j])
  }

  ghost function Flipped(s: set<set<nat>>, c: nat): set<set<nat>> {
    set x | x in s :: Xor(x, {c})
  }

  lemma XorInjective(x: set<nat>, y: set<nat>, c: nat)
    requires Xor(x, {c}) == Xor(y, {c})
    ensures x == y
  {
    XorTwice(x, {c});
    XorTwice(y, {c});
  }

  lemma {:induction false} FlippedSize(s: set<set<nat>>, c: nat)
    ensures |Flipped(s, c)| == |s|
  {
    if s != {} {
      var x :| x in s;
      var r := s - {x};
      FlippedSize(r, c);
      assert Flipped(s, c) == Flipped(r, c) + {Xor(x, {c})};
      if Xor(x, {c}) in Flipped(r, c) {
        var y :| y in r && Xor(y, {c}) == Xor(x, {c});
        XorInjective(x, y, c);
      }
    }
  }

  ghost function Subsets(c: set<nat>): set<set<nat>> {
    set x: set<nat> | x <= c
  }

  lemma {:induction false} SubsetsSize(c: set<nat>)
    ensures |Subsets(c)| == Pow2(|c|)
  {
    if c == {} {
      OnlyEmpty();
    } else {
      hide Subsets, Flipped;
      var a :| a in c;
      var r := c - {a};
      SubsetsSize(r);
      FlippedSize(Subsets(r), a);
      SubsetsSplit(c, a);
    }
  }

  lemma OnlyEmpty()
    ensures |Subsets({})| == 1
  {
    assert {} in Subsets({});
    forall x | x in Subsets({}) ensures x == {} {
    }
    assert Subsets({}) == {{}};
  }

  lemma SubsetsSplit(c: set<nat>, a: nat)
    requires a in c
    ensures Subsets(c) == Subsets(c - {a}) + Flipped(Subsets(c - {a}), a)
    ensures Subsets(c - {a}) !! Flipped(Subsets(c - {a}), a)
  {
    var r := c - {a};
    forall x | x in Subsets(c) ensures x in Subsets(r) || x in Flipped(Subsets(r), a) {
      if a in x {
        assert x - {a} in Subsets(r);
        assert Xor(x - {a}, {a}) == x;
      }
    }
    forall x | x in Flipped(Subsets(r), a) ensures x in Subsets(c) && x !in Subsets(r) {
      var y :| y in Subsets(r) && Xor(y, {a}) == x;
    }
  }

  /** An equation with a column of its own is met by half of the assignments. */
  lemma Halved(columns: set<nat>, eqs: seq<set<nat>>, rhs: nat, e: set<nat>, lead: nat)
    requires lead in e && lead in columns && lead != rhs
    requires forall i :: 0 <= i < |eqs| ==> lead !in eqs[i]
    ensures |Sat(columns, eqs, rhs)| == 2 * |Sat(columns, eqs + [e], rhs)|
  {
    hide Sat, Flipped;
    var s, t := Sat(columns, eqs, rhs), Sat(columns, eqs + [e], rhs);
    OtherHalf(columns, eqs, rhs, e, lead);
    FlippedSize(t, lead);
    SatFewer(columns, eqs, rhs, e);
    assert s == t + (s - t);
  }

  lemma SatFewer(columns: set<nat>, eqs: seq<set<nat>>, rhs: nat, e: set<nat>)
    ensures Sat(columns, eqs + [e], rhs) <= Sat(columns, eqs, rhs)
  {
    SatMore(columns, eqs, rhs, e);
  }

  lemma OtherHalf(columns: set<nat>, eqs: seq<set<nat>>, rhs: nat, e: set<nat>, lead: nat)
    requires lead in e && lead in columns && lead != rhs
    requires forall i :: 0 <= i < |eqs| ==> lead !in eqs[i]
    ensures Flipped(Sat(columns, eqs + [e], rhs), lead) == Sat(columns, eqs, rhs) - Sat(columns, eqs + [e], rhs)
  {
    hide Sat;
    var s, t := Sat(columns, eqs, rhs), Sat(columns, eqs + [e], rhs);
    SatFewer(columns, eqs, rhs, e);
    forall x | x in s - t ensures x in Flipped(t, lead) {
      FlipSat(columns, eqs, rhs, e, lead, x);
      XorTwice(x, {lead});
    }
    forall x | x in Flipped(t, lead) ensures x in s - t {
      var y :| y in t && Xor(y, {lead}) == x;
      FlipSat(columns, eqs, rhs, e, lead, y);
    }
  }

  lemma SatMore(columns: set<nat>, eqs: seq<set<nat>>, rhs: nat, e: set<nat>)
    ensures forall x :: x in Sat(columns, eqs + [e], rhs) <==> x in Sat(columns, eqs, rhs) && !Value(e, x + {rhs})
  {
    forall x | x in Sat(columns, eqs, rhs) && !Value(e, x + {rhs}) ensures x in Sat(columns, eqs + [e], rhs) {
      assert forall i :: 0 <= i < |eqs| ==> (eqs + [e])[i] == eqs[i];
    }
    forall x | x in Sat(columns, eqs + [e], rhs) ensures x in Sat(columns, eqs, rhs) && !Value(e, x + {rhs}) {
      assert (eqs + [e])[|eqs|] == e;
      forall i | 0 <= i < |eqs| ensures !Value(eqs[i], x + {rhs}) {
        assert (eqs + [e])[i] == eqs[i];
      }
    }
  }

  lemma FlipSat(columns: set<nat>, eqs: seq<set<nat>>, rhs: nat, e: set<nat>, lead: nat, x: set<nat>)
    requires lead in e && lead in columns && lead != rhs
    requires forall i :: 0 <= i < |eqs| ==> lead !in eqs[i]
    requires x in Sat(columns, eqs, rhs)
    ensures Xor(x, {lead}) in Sat(columns, eqs, rhs)
    ensures Xor(x, {lead}) in Sat(columns, eqs + [e], rhs) <==> x !in Sat(columns, eqs + [e], rhs)
  {
    hide Value;
    assert Xor(x, {lead}) + {rhs} == Xor(x + {rhs}, {lead});
    forall i | 0 <= i < |eqs| ensures !Value(eqs[i], Xor(x, {lead}) + {rhs}) {
      ValueFlip(eqs[i], x + {rhs}, lead);
    }
    ValueFlip(e, x + {rhs}, lead);
    SatMore(columns, eqs, rhs, e);
  }

  /** Each equation of a triangular system halves the number of solutions. */
  lemma {:induction false} TriangularCount(columns: set<nat>, eqs: seq<set<nat>>, leads: seq<nat>, rhs: nat)
    requires Triangular(columns, eqs, leads) && rhs !in columns
    ensures |Sat(columns, eqs, rhs)| * Pow2(|eqs|) == Pow2(|columns|)
    decreases |eqs|
  {
    if eqs == [] {
      SubsetsSize(columns);
      assert Sat(columns, eqs, rhs) == Subsets(columns);
    } else {
      var k := |eqs| - 1;
      TriangularCount(columns, eqs[..k], leads[..k], rhs);
      Halved(columns, eqs[..k], rhs, eqs[k], leads[k]);
      assert eqs[..k] + [eqs[k]] == eqs;
    }
  }

  /** A map that can be undone keeps the size of a set. */
  lemma {:induction false} ImageSize(s: set<set<nat>>, t: set<set<nat>>, g: set<nat> -> set<nat>, h: set<nat> -> set<nat>)
    requires forall x :: x in s ==> g(x) in t && h(g(x)) == x
    requires forall y :: y in t ==> h(y) in s && g(h(y)) == y
    ensures |s| == |t|
  {
    if s == {} {
      assert forall y :: y !in t;
      assert t == {};
    } else {
      var x :| x in s;
      ImageSize(s - {x}, t - {g(x)}, g, h);
    }
  }
}
