/** Linear algebra over GF(2). A row or an equation is the finite set of its columns; an assignment is the
    set of columns whose variable is one. The right-hand side is one more column, which is in every
    assignment considered. */
module Gf2 {

  /** Sum of two rows. */
  function Xor(a: set<nat>, b: set<nat>): set<nat> {
    (a - b) + (b - a)
  }

  /** The sum of the variables of `e` under `x`; the equation `e = 0` holds when it is false. */
  predicate Value(e: set<nat>, x: set<nat>) {
    |e * x| % 2 == 1
  }

  lemma XorCardinality(a: set<nat>, b: set<nat>)
    ensures |Xor(a, b)| == |a| + |b| - 2 * |a * b|
  {
    assert |a - b| + |a * b| == |a| by { assert a == (a - b) + (a * b); }
    assert |b - a| + |a * b| == |b| by { assert b == (b - a) + (a * b); }
    assert |Xor(a, b)| == |a - b| + |b - a|;
  }

  lemma ValueXor(a: set<nat>, b: set<nat>, x: set<nat>)
    ensures Value(Xor(a, b), x) <==> (Value(a, x) != Value(b, x))
  {
    assert Xor(a, b) * x == Xor(a * x, b * x);
    XorCardinality(a * x, b * x);
    hide Xor;
    ParitySum(|a * x|, |b * x|, |(a * x) * (b * x)|, |Xor(a * x, b * x)|);
  }

  lemma ParitySum(m: nat, n: nat, k: nat, sum: nat)
    requires sum == m + n - 2 * k
    ensures sum % 2 == 1 <==> (m % 2 == 1) != (n % 2 == 1)
  {
  }

  /** Flipping one variable changes exactly the equations that contain it. */
  lemma ValueFlip(e: set<nat>, x: set<nat>, c: nat)
    ensures Value(e, Xor(x, {c})) <==> (Value(e, x) != (c in e))
  {
    hide Value, Xor;
    ValueSymmetric(e, x);
    ValueSymmetric(e, Xor(x, {c}));
    ValueXor(x, {c}, e);
    ValueSingle(c, e);
  }

  lemma ValueSymmetric(e: set<nat>, x: set<nat>)
    ensures Value(e, x) == Value(x, e)
  {
    assert e * x == x * e;
  }

  lemma ValueSingle(c: nat, x: set<nat>)
    ensures Value({c}, x) <==> c in x
  {
    if c in x {
      assert {c} * x == {c};
    } else {
      assert {c} * x == {};
    }
  }

  lemma XorTwice(a: set<nat>, b: set<nat>)
    ensures Xor(Xor(a, b), b) == a
  {
  }

  lemma XorNone(a: set<nat>)
    ensures Xor(a, {}) == a
  {
  }

  lemma XorNext(a: set<nat>, b: set<nat>, c: set<nat>)
    ensures Xor(a, Xor(b, c)) == Xor(Xor(a, b), c)
  {
  }

  lemma ValueAgree(e: set<nat>, x: set<nat>, y: set<nat>)
    requires forall c :: c in e ==> (c in x <==> c in y)
    ensures Value(e, x) == Value(e, y)
  {
    assert e * x == e * y;
  }

  // ---- pivots ----

  /** First column of `s` at or after `k`, or `n`. */
  function FirstFrom(s: set<nat>, k: nat, n: nat): (p: nat)
    requires k <= n
    ensures k <= p <= n
    ensures p < n ==> p in s
    ensures forall c :: c in s && k <= c < n ==> p <= c
    decreases n - k
  {
    if k == n then n else if k in s then k else FirstFrom(s, k + 1, n)
  }

  /** The pivot of a row: its least column, or the column count `n` when the row is empty. */
  function PivotOf(s: set<nat>, n: nat): (p: nat)
    ensures p <= n
    ensures p < n ==> p in s
    ensures forall c :: c in s && c < n ==> p <= c
  {
    FirstFrom(s, 0, n)
  }

  lemma PivotUnique(s: set<nat>, n: nat, p: nat)
    requires forall c :: c in s ==> c < n && p <= c
    requires p == n || p in s
    requires p <= n
    ensures PivotOf(s, n) == p
  {
  }

  // ---- sequences of columns ----

  predicate Ascending(s: seq<nat>) {
    forall i, j :: 0 <= i < j < |s| ==> s[i] < s[j]
  }

  function Columns(s: seq<nat>): set<nat> {
    set c | c in s
  }

  /** The columns that change when the columns of `s` are flipped one after the other. */
  function Toggled(s: seq<nat>): set<nat> {
    if s == [] then {} else Xor(Toggled(s[..|s| - 1]), {s[|s| - 1]})
  }

  predicate NonDescending(s: seq<nat>) {
    forall i, j :: 0 <= i < j < |s| ==> s[i] <= s[j]
  }

  /** Columns that occur an even number of times cancel out. */
  lemma {:induction false} ToggledOdd(s: seq<nat>, c: nat)
    ensures c in Toggled(s) <==> multiset(s)[c] % 2 == 1
  {
    if s != [] {
      var n := |s| - 1;
      ToggledOdd(s[..n], c);
      assert s == s[..n] + [s[n]];
    }
  }

  lemma {:induction false} ToggledOnce(s: seq<nat>)
    requires Ascending(s)
    ensures Toggled(s) == Columns(s) && NonDescending(s)
  {
    if s != [] {
      var n := |s| - 1;
      ToggledOnce(s[..n]);
      assert s == s[..n] + [s[n]] && s[n] !in s[..n];
      assert Columns(s) == Columns(s[..n]) + {s[n]};
    }
  }

  lemma ToggledInside(s: seq<nat>)
    requires NonDescending(s)
    ensures forall c :: c in Toggled(s) ==> s != [] && s[0] <= c <= s[|s| - 1]
  {
    forall c | c in Toggled(s) ensures c in s {
      ToggledOdd(s, c);
    }
  }

  /** The elements of a set below `n`, smallest first: the order in which `std::set` is walked. */
  function InOrder(s: set<nat>, n: nat): seq<nat> {
    if n == 0 then []
    else if n - 1 in s then InOrder(s, n - 1) + [n - 1]
    else InOrder(s, n - 1)
  }

  /** `f` lists `s`, smallest first. */
  ghost predicate Lists(f: seq<nat>, s: set<nat>) {
    Ascending(f) && forall c :: c in s <==> c in f
  }

  lemma {:induction false} InOrderBelow(s: set<nat>, n: nat)
    ensures Ascending(InOrder(s, n))
    ensures forall c: nat :: c in InOrder(s, n) <==> c in s && c < n
  {
    if n > 0 {
      InOrderBelow(s, n - 1);
      var t := InOrder(s, n - 1);
      assert forall i :: 0 <= i < |t| ==> t[i] in t;
    }
  }

  lemma InOrderLists(s: set<nat>, n: nat)
    requires forall c :: c in s ==> c < n
    ensures Lists(InOrder(s, n), s)
  {
    InOrderBelow(s, n);
  }

  lemma Listed(f: seq<nat>, s: set<nat>)
    requires Lists(f, s)
    ensures Ascending(f) && (f == [] <==> s == {})
    ensures forall i :: 0 <= i < |f| ==> f[i] in s
  {
    assert forall i :: 0 <= i < |f| ==> f[i] in f;
    if s != {} {
      var c :| c in s;
      assert c in f;
    }
    if f != [] {
      assert f[0] in s;
    }
  }

  lemma NotListed(f: seq<nat>, s: set<nat>, c: nat)
    requires Lists(f, s)
    requires forall i :: 0 <= i < |f| ==> f[i] != c
    ensures c !in s
  {
  }

  lemma ListIndex(f: seq<nat>, s: set<nat>, c: nat) returns (i: nat)
    requires Lists(f, s) && c in s
    ensures i < |f| && f[i] == c
  {
    i :| 0 <= i < |f| && f[i] == c;
  }

  lemma AscendingGap(s: seq<nat>, i: nat, j: nat)
    requires Ascending(s) && i <= j < |s|
    ensures s[i] + (j - i) <= s[j]
  {
    if i < j {
      AscendingGap(s, i, j - 1);
    }
  }

  // ---- counting ----

  function Below(n: nat): (r: set<nat>)
    ensures forall c: nat :: c in r <==> c < n
    ensures |r| == n
  {
    if n == 0 then {} else Below(n - 1) + {n - 1}
  }

  /** Distinct numbers below `k` are at most `k` many. */
  lemma {:induction false} Pigeonhole(s: seq<nat>, k: nat)
    requires forall i :: 0 <= i < |s| ==> s[i] < k
    requires forall i, j :: 0 <= i < j < |s| ==> s[i] != s[j]
    ensures |s| <= k
    ensures |s| == k ==> forall c: nat :: c < k ==> c in s
  {
    DistinctSize(s);
    assert Columns(s) <= Below(k);
    SubsetSize(Columns(s), Below(k));
    if |s| == k {
      assert Columns(s) == Below(k);
      forall c: nat | c < k ensures c in s {
        assert c in Columns(s);
      }
    }
  }

  lemma {:induction false} DistinctSize(s: seq<nat>)
    requires forall i, j :: 0 <= i < j < |s| ==> s[i] != s[j]
    ensures |Columns(s)| == |s|
  {
    if s == [] {
      assert Columns(s) == {};
    } else {
      var t := s[..|s| - 1];
      DistinctSize(t);
      assert s == t + [s[|s| - 1]];
      assert Columns(s) == Columns(t) + {s[|s| - 1]};
    }
  }

  lemma SubsetSize<T>(a: set<T>, b: set<T>)
    requires a <= b
    ensures |a| <= |b|
    ensures |a| == |b| ==> a == b
  {
    assert b == a + (b - a);
    assert |b| == |a| + |b - a|;
  }
}
