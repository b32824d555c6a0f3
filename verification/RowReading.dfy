/** Reading the listed rows of a reduced matrix one after the other: what is read, which sums of rows are skipped,
    and when the conditions are exact although only some rows are listed (src/linear_conditions.cpp). */
module RowReadings {
  import opened Gf2
  import opened RowOrders
  import opened LinearSystems
  import opened PairReadings
  import opened Changes

  // ---- what is read ----

  /** Row `r` can be read into `n` conditions. */
  ghost predicate RowReadable(m: Matrix, cols: nat, r: nat, n: nat) {
    Indexed(m) && r < |m.row| && (m.row[r].pivot == cols || m.row[r].pivot / 2 < n)
  }

  ghost predicate Readable(m: Matrix, cols: nat, rows: seq<nat>, n: nat) {
    Indexed(m) && forall k :: 0 <= k < |rows| ==> rows[k] < |m.row| && RowReadable(m, cols, rows[k], n)
  }

  /** The row whose sum is skipped next, after row `r` was read and `row2` was to be skipped. */
  ghost function NextPartner(m: Matrix, cols: nat, r: nat, row2: int): int
    requires r < |m.row|
  {
    var p := m.row[r].pivot;
    if p == cols || (r == row2 && p % 2 == 1) then row2 else if p % 2 == 0 then r + 1 else r - 1
  }

  /** The row whose sum is skipped after the first `t` rows. */
  ghost function Partner(m: Matrix, cols: nat, rows: seq<nat>, t: nat): int
    requires t <= |rows| && forall k :: 0 <= k < |rows| ==> rows[k] < |m.row|
  {
    if t == 0 then -1 else NextPartner(m, cols, rows[t - 1], Partner(m, cols, rows, t - 1))
  }

  /** The conditions after row `r`: met with what it says, and with what its sum with its partner says. */
  ghost function ReadRow(m: Matrix, cols: nat, rhs: nat, r: nat, row2: int, out: seq<Cond>): (next: seq<Cond>)
    requires RowReadable(m, cols, r, |out|)
    ensures |next| == |out|
  {
    var p := m.row[r].pivot;
    if p == cols then out
    else
      var own := out[p / 2 := Read(m.Bits(r), p / 2, rhs) * out[p / 2]];
      if r == row2 && p % 2 == 1 then own
      else own[p / 2 := ReadSum(m, r, NextPartner(m, cols, r, row2), rhs) * own[p / 2]]
  }

  /** The conditions after the first `t` rows. */
  ghost function ReadTo(m: Matrix, cols: nat, rhs: nat, rows: seq<nat>, t: nat, conds: seq<Cond>): (out: seq<Cond>)
    requires Readable(m, cols, rows, |conds|) && t <= |rows|
    ensures |out| == |conds|
  {
    if t == 0 then conds
    else
      ReadRow(m, cols, rhs, rows[t - 1], Partner(m, cols, rows, t - 1), ReadTo(m, cols, rhs, rows, t - 1, conds))
  }

  // ---- what has been read afterwards ----

  ghost predicate Narrower(a: seq<Cond>, b: seq<Cond>) {
    |a| == |b| && forall k :: 0 <= k < |a| ==> a[k] <= b[k]
  }

  /** The conditions are below what row `r` says, and unless `skipped` below what its sum with its partner says. */
  ghost predicate Heard(m: Matrix, cols: nat, rhs: nat, r: nat, skipped: bool, out: seq<Cond>)
    requires Indexed(m) && r < |m.row|
  {
    var p := m.row[r].pivot;
    p != cols ==>
      && p / 2 < |out| && out[p / 2] <= Read(m.Bits(r), p / 2, rhs)
      && (!skipped || p % 2 == 0 ==> out[p / 2] <= ReadSum(m, r, if p % 2 == 0 then r + 1 else r - 1, rhs))
  }

  lemma NarrowerTransitive(a: seq<Cond>, b: seq<Cond>, c: seq<Cond>)
    requires Narrower(a, b) && Narrower(b, c)
    ensures Narrower(a, c)
  {
  }

  lemma NarrowerAny(a: seq<Cond>, b: seq<Cond>, k: nat, v: nat)
    requires Narrower(a, b) && k < |a| && b[k] <= ANY && v in a[k]
    ensures v < 4
  {
    assert v in b[k];
  }

  lemma HeardNarrower(m: Matrix, cols: nat, rhs: nat, r: nat, skipped: bool, out: seq<Cond>, next: seq<Cond>)
    requires Indexed(m) && r < |m.row| && Heard(m, cols, rhs, r, skipped, out) && Narrower(next, out)
    ensures Heard(m, cols, rhs, r, skipped, next)
  {
    hide Read, ReadSum;
  }

  lemma ReadRowHears(m: Matrix, cols: nat, rhs: nat, r: nat, row2: int, out: seq<Cond>)
    requires RowReadable(m, cols, r, |out|)
    ensures Narrower(ReadRow(m, cols, rhs, r, row2, out), out)
    ensures Heard(m, cols, rhs, r, r == row2, ReadRow(m, cols, rhs, r, row2, out))
  {
    hide Read, ReadSum;
  }

  /** The first `t` rows have been heard, their sums, too, unless the row was the partner of an earlier one. */
  ghost predicate HeardTo(m: Matrix, cols: nat, rhs: nat, rows: seq<nat>, t: nat, out: seq<Cond>)
    requires Indexed(m) && t <= |rows| && forall k :: 0 <= k < |rows| ==> rows[k] < |m.row|
  {
    forall k :: 0 <= k < t ==> Heard(m, cols, rhs, rows[k], rows[k] == Partner(m, cols, rows, k), out)
  }

  lemma HeardNext(m: Matrix, cols: nat, rhs: nat, rows: seq<nat>, t: nat, out: seq<Cond>, next: seq<Cond>)
    requires Indexed(m) && t < |rows| && (forall k :: 0 <= k < |rows| ==> rows[k] < |m.row|)
    requires Narrower(next, out) && HeardTo(m, cols, rhs, rows, t, out)
    requires Heard(m, cols, rhs, rows[t], rows[t] == Partner(m, cols, rows, t), next)
    ensures HeardTo(m, cols, rhs, rows, t + 1, next)
  {
    hide Heard, Partner, Narrower, Indexed;
    forall k | 0 <= k < t ensures Heard(m, cols, rhs, rows[k], rows[k] == Partner(m, cols, rows, k), next) {
      HeardNarrower(m, cols, rhs, rows[k], rows[k] == Partner(m, cols, rows, k), out, next);
    }
  }

  lemma NoneHeard(m: Matrix, cols: nat, rhs: nat, rows: seq<nat>, conds: seq<Cond>)
    requires Indexed(m) && forall k :: 0 <= k < |rows| ==> rows[k] < |m.row|
    ensures Narrower(conds, conds) && HeardTo(m, cols, rhs, rows, 0, conds)
  {
  }

  lemma {:induction false} ReadToHears(m: Matrix, cols: nat, rhs: nat, rows: seq<nat>, t: nat, conds: seq<Cond>)
    requires Readable(m, cols, rows, |conds|) && t <= |rows|
    ensures Narrower(ReadTo(m, cols, rhs, rows, t, conds), conds)
    ensures HeardTo(m, cols, rhs, rows, t, ReadTo(m, cols, rhs, rows, t, conds))
  {
    hide HeardTo, Narrower, Partner, ReadRow, RowReadable, Indexed;
    if t == 0 {
      NoneHeard(m, cols, rhs, rows, conds);
    } else {
      var out, row2 := ReadTo(m, cols, rhs, rows, t - 1, conds), Partner(m, cols, rows, t - 1);
      ReadToHears(m, cols, rhs, rows, t - 1, conds);
      ReadRowHears(m, cols, rhs, rows[t - 1], row2, out);
      HeardNext(m, cols, rhs, rows, t - 1, out, ReadTo(m, cols, rhs, rows, t, conds));
      NarrowerTransitive(ReadTo(m, cols, rhs, rows, t, conds), out, conds);
    }
  }

  // ---- rows that are not listed ----

  /** Conditions are below what the rows outside `list` say, alone and in sums of two rows of one pair. */
  ghost predicate ReadOff(data: seq<set<nat>>, list: seq<nat>, cols: nat, rhs: nat, conds: seq<Cond>) {
    && (forall p :: 0 <= p < |data| && p !in list ==> RowOff(data[p], cols, rhs, conds))
    && (forall p, q :: 0 <= p < |data| && 0 <= q < |data| && p != q && p !in list && q !in list ==>
          SumOff(data[p], data[q], cols, rhs, conds))
  }

  ghost predicate RowOff(row: set<nat>, cols: nat, rhs: nat, conds: seq<Cond>) {
    var p := PivotOf(row, cols);
    p < cols && p / 2 < |conds| ==> conds[p / 2] <= Read(row, p / 2, rhs)
  }

  ghost predicate SumOff(a: set<nat>, b: set<nat>, cols: nat, rhs: nat, conds: seq<Cond>) {
    var p, q := PivotOf(a, cols), PivotOf(b, cols);
    p < cols && q < cols && p / 2 == q / 2 < |conds| ==> conds[p / 2] <= Read(Xor(a, b), p / 2, rhs)
  }

  /** What was read off all rows is still read off the rows that are not listed, although listed rows changed and
      conditions became smaller. */
  lemma ReadOffLater(read: seq<set<nat>>, data: seq<set<nat>>, list: seq<nat>, cols: nat, rhs: nat, conds: seq<Cond>,
                     now: seq<Cond>)
    requires UnlistedRead(read, data, list) && ReadOff(read, [], cols, rhs, conds) && Narrower(now, conds)
    ensures ReadOff(data, list, cols, rhs, now)
  {
    hide Read, PivotOf, Xor;
    forall p | 0 <= p < |data| && p !in list ensures RowOff(data[p], cols, rhs, now) {
      assert RowOff(read[p], cols, rhs, conds);
    }
    forall p, q | 0 <= p < |data| && 0 <= q < |data| && p != q && p !in list && q !in list
      ensures SumOff(data[p], data[q], cols, rhs, now)
    {
      assert SumOff(read[p], read[q], cols, rhs, conds);
    }
  }

  /** No value is left that no solution takes. */
  ghost predicate Exact(m: Matrix, rhs: nat, out: seq<Cond>) {
    forall b, v :: 0 <= b < |out| && v in out[b] ==> Takes(m, b, rhs, v)
  }

  /** Exact conditions are read off all rows. */
  lemma ExactReadOff(m: Matrix, cols: nat, rhs: nat, out: seq<Cond>)
    requires Wf(m, cols) && Reduced(m, cols, rhs) && rhs < cols && 2 * |out| <= rhs && Exact(m, rhs, out)
    ensures ReadOff(m.data, [], cols, rhs, out)
  {
    hide PivotOf, AllClean, Read, Xor, Exact;
    forall p | 0 <= p < |m.data| ensures RowOff(m.data[p], cols, rhs, out) {
      var i := RowOf(m.row, p);
      if m.row[i].pivot / 2 < |out| {
        ExactBelow(m, cols, rhs, out, i, i);
      }
    }
    forall p, q | 0 <= p < |m.data| && 0 <= q < |m.data| && p != q ensures SumOff(m.data[p], m.data[q], cols, rhs, out) {
      var i := RowOf(m.row, p);
      var j := RowOf(m.row, q);
      if m.row[i].pivot / 2 == m.row[j].pivot / 2 < |out| {
        ExactBelow(m, cols, rhs, out, i, j);
      }
    }
  }

  lemma ExactBelow(m: Matrix, cols: nat, rhs: nat, out: seq<Cond>, i: nat, j: nat)
    requires Wf(m, cols) && Reduced(m, cols, rhs) && rhs < cols && 2 * |out| <= rhs && Exact(m, rhs, out) && Indexed(m)
    requires i < |m.row| && j < |m.row| && m.row[i].pivot / 2 == m.row[j].pivot / 2 < |out|
    ensures out[m.row[i].pivot / 2] <= Read(m.Bits(i), m.row[i].pivot / 2, rhs)
    ensures i != j ==> out[m.row[i].pivot / 2] <= Read(Xor(m.Bits(i), m.Bits(j)), m.row[i].pivot / 2, rhs)
  {
    var b := m.row[i].pivot / 2;
    hide PivotOf, AllClean, Read, Xor;
    forall v | v in out[b] ensures Allows(m, b, rhs, v) {
      ReadingExact(m, cols, b, rhs, v);
    }
    assert InPair(m, i, b) && InPair(m, j, b);
  }

  // ---- sums that are skipped ----

  /** The sum of the k-th row with the one below it is never read: the row is the partner of a row read before, and
      the row with the other pivot of its pair is not listed. */
  ghost predicate Skipped(m: Matrix, cols: nat, rows: seq<nat>, k: nat)
    requires forall i :: 0 <= i < |rows| ==> rows[i] < |m.row|
  {
    && k < |rows| && rows[k] > 0 && m.row[rows[k]].pivot < cols && m.row[rows[k]].pivot % 2 == 1
    && m.row[rows[k] - 1].pivot == m.row[rows[k]].pivot - 1
    && rows[k] == Partner(m, cols, rows, k) && rows[k] - 1 !in rows
  }

  /** A sum can only be skipped when, apart from empty rows, the row listed just before is the next one of the matrix
      and has an odd pivot, too. */
  lemma {:induction false} SkippedAfter(m: Matrix, cols: nat, rows: seq<nat>, k: nat, t: nat) returns (j: nat)
    requires forall i :: 0 <= i < |rows| ==> rows[i] < |m.row|
    requires Skipped(m, cols, rows, k) && t <= k && Partner(m, cols, rows, t) == rows[k]
    ensures j < t && rows[j] == rows[k] + 1 && m.row[rows[j]].pivot % 2 == 1 && m.row[rows[j]].pivot != cols
    ensures forall i :: j < i < t ==> m.row[rows[i]].pivot == cols || rows[i] == rows[k]
    decreases t
  {
    var r, row2 := rows[t - 1], Partner(m, cols, rows, t - 1);
    if m.row[r].pivot == cols || (r == row2 && m.row[r].pivot % 2 == 1) {
      j := SkippedAfter(m, cols, rows, k, t - 1);
    } else {
      assert rows[t - 1] in rows;
      j := t - 1;
    }
  }

  ghost predicate SkippedSumsHold(m: Matrix, cols: nat, rhs: nat, rows: seq<nat>, out: seq<Cond>)
    requires Readable(m, cols, rows, |out|)
  {
    forall k :: 0 <= k < |rows| && Skipped(m, cols, rows, k) ==>
      m.row[rows[k]].pivot / 2 < |out| && out[m.row[rows[k]].pivot / 2] <= ReadSum(m, rows[k], rows[k] - 1, rhs)
  }

  /** The rows of the matrix that stand for the listed ones. */
  ghost predicate Stands(m: Matrix, list: seq<nat>, rows: seq<nat>) {
    |rows| == |list| && forall k :: 0 <= k < |rows| ==> rows[k] < |m.row| && m.row[rows[k]].index == list[k]
  }

  lemma ListedRow(m: Matrix, cols: nat, list: seq<nat>, rows: seq<nat>, i: nat) returns (k: nat)
    requires Wf(m, cols) && Stands(m, list, rows) && i < |m.row| && m.row[i].index in list
    ensures k < |rows| && rows[k] == i
  {
    k :| 0 <= k < |list| && list[k] == m.row[i].index;
    if rows[k] != i {
      DistinctAt(m, cols, rows[k], i);
      assert false;
    }
  }

  /** Everything about a row and its sum is heard when the row is read or was read off before. */
  lemma RowHeard(m: Matrix, cols: nat, rhs: nat, list: seq<nat>, rows: seq<nat>, conds: seq<Cond>, i: nat)
    requires Wf(m, cols) && Stands(m, list, rows) && Readable(m, cols, rows, |conds|) && i < |m.row|
    requires ReadOff(m.data, list, cols, rhs, conds) && m.row[i].pivot < cols && m.row[i].pivot / 2 < |conds|
    ensures m.row[i].index < |m.data|
    ensures ReadTo(m, cols, rhs, rows, |rows|, conds)[m.row[i].pivot / 2] <= Read(m.Bits(i), m.row[i].pivot / 2, rhs)
  {
    ReadToHears(m, cols, rhs, rows, |rows|, conds);
    if m.row[i].index in list {
      var k := ListedRow(m, cols, list, rows, i);
      assert Heard(m, cols, rhs, rows[k], rows[k] == Partner(m, cols, rows, k), ReadTo(m, cols, rhs, rows, |rows|, conds));
    } else {
      assert RowOff(m.data[m.row[i].index], cols, rhs, conds);
    }
  }

  lemma SumSymmetric(m: Matrix, i: int, j: int, rhs: nat)
    requires Indexed(m)
    ensures ReadSum(m, i, j, rhs) == ReadSum(m, j, i, rhs)
  {
    if 0 <= i < |m.row| && 0 <= j < |m.row| {
      assert Xor(m.Bits(i), m.Bits(j)) == Xor(m.Bits(j), m.Bits(i));
    }
  }

  /** The same for the sum of the two rows of pair `b`, unless it was skipped. */
  lemma SumHeard(m: Matrix, cols: nat, rhs: nat, list: seq<nat>, rows: seq<nat>, conds: seq<Cond>, b: nat, i: nat)
    requires Wf(m, cols) && Stands(m, list, rows) && Readable(m, cols, rows, |conds|) && i + 1 < |m.row| && b < |conds|
    requires ReadOff(m.data, list, cols, rhs, conds) && m.row[i].pivot == 2 * b && m.row[i + 1].pivot == 2 * b + 1 < cols
    requires SkippedSumsHold(m, cols, rhs, rows, ReadTo(m, cols, rhs, rows, |rows|, conds))
    ensures ReadTo(m, cols, rhs, rows, |rows|, conds)[b] <= ReadSum(m, i, i + 1, rhs)
  {
    var out := ReadTo(m, cols, rhs, rows, |rows|, conds);
    ReadToHears(m, cols, rhs, rows, |rows|, conds);
    assert Indexed(m) && m.row[i].index < |m.data| && m.row[i + 1].index < |m.data|;
    hide ReadTo, HeardTo, ReadOff, SkippedSumsHold, ReadSum, Stands, Wf, Narrower, Readable, Indexed;
    if m.row[i].index in list {
      EvenListed(m, cols, rhs, list, rows, out, b, i);
    } else if m.row[i + 1].index in list {
      OddListed(m, cols, rhs, list, rows, out, b, i);
    } else {
      SumReadOff(m, cols, rhs, list, conds, out, b, i);
    }
  }

  lemma EvenListed(m: Matrix, cols: nat, rhs: nat, list: seq<nat>, rows: seq<nat>, out: seq<Cond>, b: nat, i: nat)
    requires Wf(m, cols) && Stands(m, list, rows) && Readable(m, cols, rows, |out|) && i < |m.row| && b < |out|
    requires HeardTo(m, cols, rhs, rows, |rows|, out) && m.row[i].pivot == 2 * b < cols && m.row[i].index in list
    ensures out[b] <= ReadSum(m, i, i + 1, rhs)
  {
    hide HeardTo, ReadSum, Stands, Wf, RowReadable;
    var k := ListedRow(m, cols, list, rows, i);
    EvenSumHeard(m, cols, rhs, rows, out, b, k);
  }

  lemma OddListed(m: Matrix, cols: nat, rhs: nat, list: seq<nat>, rows: seq<nat>, out: seq<Cond>, b: nat, i: nat)
    requires Wf(m, cols) && Stands(m, list, rows) && Readable(m, cols, rows, |out|) && i + 1 < |m.row| && b < |out|
    requires HeardTo(m, cols, rhs, rows, |rows|, out) && SkippedSumsHold(m, cols, rhs, rows, out)
    requires m.row[i].pivot == 2 * b && m.row[i + 1].pivot == 2 * b + 1 < cols
    requires m.row[i].index !in list && m.row[i + 1].index in list
    ensures out[b] <= ReadSum(m, i, i + 1, rhs)
  {
    hide HeardTo, ReadSum, Stands, Wf, SkippedSumsHold, RowReadable;
    var k := ListedRow(m, cols, list, rows, i + 1);
    OddSumHeard(m, cols, rhs, list, rows, out, b, k);
    SumSymmetric(m, i, i + 1, rhs);
  }

  lemma EvenSumHeard(m: Matrix, cols: nat, rhs: nat, rows: seq<nat>, out: seq<Cond>, b: nat, k: nat)
    requires Readable(m, cols, rows, |out|) && k < |rows| && HeardTo(m, cols, rhs, rows, |rows|, out)
    requires m.row[rows[k]].pivot == 2 * b < cols && b < |out|
    ensures out[b] <= ReadSum(m, rows[k], rows[k] + 1, rhs)
  {
    hide ReadSum, Read, Partner;
    assert Heard(m, cols, rhs, rows[k], rows[k] == Partner(m, cols, rows, k), out);
  }

  lemma SumReadOff(m: Matrix, cols: nat, rhs: nat, list: seq<nat>, conds: seq<Cond>, out: seq<Cond>, b: nat, i: nat)
    requires Wf(m, cols) && Indexed(m) && i + 1 < |m.row| && ReadOff(m.data, list, cols, rhs, conds) && Narrower(out, conds)
    requires m.row[i].pivot == 2 * b && m.row[i + 1].pivot == 2 * b + 1 < cols && b < |out|
    requires m.row[i].index !in list && m.row[i + 1].index !in list
    ensures out[b] <= ReadSum(m, i, i + 1, rhs)
  {
    hide Read, PivotOf, Xor;
    DistinctAt(m, cols, i, i + 1);
    assert SumOff(m.data[m.row[i].index], m.data[m.row[i + 1].index], cols, rhs, conds);
  }

  lemma NotListedRow(m: Matrix, list: seq<nat>, rows: seq<nat>, r: nat)
    requires Stands(m, list, rows) && r < |m.row| && m.row[r].index !in list
    ensures r !in rows
  {
    forall t | 0 <= t < |rows| ensures rows[t] != r {
      assert list[t] in list;
    }
  }

  lemma OddSumHeard(m: Matrix, cols: nat, rhs: nat, list: seq<nat>, rows: seq<nat>, out: seq<Cond>, b: nat, k: nat)
    requires Stands(m, list, rows) && Readable(m, cols, rows, |out|) && k < |rows| && rows[k] > 0 && b < |out|
    requires m.row[rows[k]].pivot == 2 * b + 1 < cols && m.row[rows[k] - 1].pivot == 2 * b
    requires m.row[rows[k] - 1].index !in list
    requires SkippedSumsHold(m, cols, rhs, rows, out) && HeardTo(m, cols, rhs, rows, |rows|, out)
    ensures out[b] <= ReadSum(m, rows[k], rows[k] - 1, rhs)
  {
    var r := rows[k];
    NotListedRow(m, list, rows, r - 1);
    hide Read, ReadSum, Stands, RowReadable, Heard;
    var skipped := r == Partner(m, cols, rows, k);
    assert Heard(m, cols, rhs, r, skipped, out);
    if skipped {
      SkippedHeard(m, cols, rhs, rows, out, b, k);
    } else {
      hide HeardTo, SkippedSumsHold, Partner;
      HeardOdd(m, cols, rhs, r, out, b);
    }
  }

  lemma SkippedHeard(m: Matrix, cols: nat, rhs: nat, rows: seq<nat>, out: seq<Cond>, b: nat, k: nat)
    requires Readable(m, cols, rows, |out|) && SkippedSumsHold(m, cols, rhs, rows, out) && k < |rows| && rows[k] > 0
    requires m.row[rows[k]].pivot == 2 * b + 1 < cols && m.row[rows[k] - 1].pivot == 2 * b && b < |out|
    requires rows[k] == Partner(m, cols, rows, k) && rows[k] - 1 !in rows
    ensures out[b] <= ReadSum(m, rows[k], rows[k] - 1, rhs)
  {
    assert m.row[rows[k]].pivot % 2 == 1 && m.row[rows[k]].pivot / 2 == b;
    hide Partner, ReadSum, RowReadable;
    assert Skipped(m, cols, rows, k);
  }

  lemma HeardOdd(m: Matrix, cols: nat, rhs: nat, r: nat, out: seq<Cond>, b: nat)
    requires Indexed(m) && r < |m.row| && Heard(m, cols, rhs, r, false, out)
    requires m.row[r].pivot == 2 * b + 1 < cols
    ensures b < |out| && out[b] <= ReadSum(m, r, r - 1, rhs)
  {
    hide Read, ReadSum;
  }

  /** With everything read off the rows that are not listed, the conditions are exact afterwards if and only if they
      are below what the skipped sums say. */
  lemma ExactBySums(m: Matrix, cols: nat, rhs: nat, list: seq<nat>, rows: seq<nat>, conds: seq<Cond>)
    requires Wf(m, cols) && Reduced(m, cols, rhs) && rhs < cols && 2 * |conds| <= rhs
    requires Stands(m, list, rows) && Readable(m, cols, rows, |conds|) && ReadOff(m.data, list, cols, rhs, conds)
    requires forall b :: 0 <= b < |conds| ==> conds[b] <= ANY
    ensures var out := ReadTo(m, cols, rhs, rows, |rows|, conds);
      Exact(m, rhs, out) <==> SkippedSumsHold(m, cols, rhs, rows, out)
  {
    var out := ReadTo(m, cols, rhs, rows, |rows|, conds);
    ReadToHears(m, cols, rhs, rows, |rows|, conds);
    hide ReadTo, Wf, Reduced, ReadOff, Stands, Skipped, ReadSum, HeardTo, Narrower, Allows;
    if SkippedSumsHold(m, cols, rhs, rows, out) {
      hide SkippedSumsHold, Readable;
      forall b, v | 0 <= b < |out| && v in out[b] ensures Takes(m, b, rhs, v) {
        NarrowerAny(out, conds, b, v);
        AllowsLeft(m, cols, rhs, list, rows, conds, b, v);
        ReadingExact(m, cols, b, rhs, v);
      }
    }
    if Exact(m, rhs, out) {
      hide Exact;
      forall k | 0 <= k < |rows| && Skipped(m, cols, rows, k)
        ensures m.row[rows[k]].pivot / 2 < |out| && out[m.row[rows[k]].pivot / 2] <= ReadSum(m, rows[k], rows[k] - 1, rhs)
      {
        SkippedBelow(m, cols, rhs, rows, out, k);
      }
    }
  }

  /** What each skipped row leaves of its condition is below what the skipped sum says. */
  ghost predicate SumsImplied(m: Matrix, cols: nat, rhs: nat, rows: seq<nat>, conds: seq<Cond>)
    requires Indexed(m) && forall k :: 0 <= k < |rows| ==> rows[k] < |m.row|
  {
    forall k :: 0 <= k < |rows| && Skipped(m, cols, rows, k) ==> SumImplied(m, rhs, rows[k], conds)
  }

  ghost predicate SumImplied(m: Matrix, rhs: nat, r: nat, conds: seq<Cond>)
    requires Indexed(m) && r < |m.row|
  {
    var b := m.row[r].pivot / 2;
    b < |conds| && conds[b] * Read(m.Bits(r), b, rhs) <= ReadSum(m, r, r - 1, rhs)
  }

  /** No other listed row has its pivot in the pair of a skipped row. */
  lemma OnlyOfPair(m: Matrix, cols: nat, rhs: nat, rows: seq<nat>, k: nat, t: nat)
    requires Wf(m, cols) && Reduced(m, cols, rhs) && NoneTwice(rows) && forall i :: 0 <= i < |rows| ==> rows[i] < |m.row|
    requires Skipped(m, cols, rows, k) && t < |rows| && t != k
    ensures m.row[rows[t]].pivot != cols ==> m.row[rows[t]].pivot / 2 != m.row[rows[k]].pivot / 2
  {
    hide Wf, Reduced, Partner;
    var b, r, o := m.row[rows[k]].pivot / 2, rows[k], rows[t];
    assert r != o && o in rows;
    if m.row[o].pivot / 2 == b {
      assert InPair(m, r, b) && InPair(m, o, b);
      if r < o {
        Adjacent(m, cols, rhs, b, r, o);
      } else {
        Adjacent(m, cols, rhs, b, o, r);
      }
    }
  }

  /** A listed row changes at most the condition of its own pair. */
  lemma ReadRowElsewhere(m: Matrix, cols: nat, rhs: nat, r: nat, row2: int, out: seq<Cond>, b: nat)
    requires RowReadable(m, cols, r, |out|) && b < |out| && (m.row[r].pivot != cols ==> m.row[r].pivot / 2 != b)
    ensures ReadRow(m, cols, rhs, r, row2, out)[b] == out[b]
  {
    hide Read, ReadSum;
  }

  lemma ReadRowSkipped(m: Matrix, cols: nat, rhs: nat, r: nat, out: seq<Cond>)
    requires RowReadable(m, cols, r, |out|) && m.row[r].pivot < cols && m.row[r].pivot % 2 == 1
    ensures var b := m.row[r].pivot / 2; ReadRow(m, cols, rhs, r, r, out)[b] == out[b] * Read(m.Bits(r), b, rhs)
  {
    hide Read, ReadSum;
    var b := m.row[r].pivot / 2;
    assert Read(m.Bits(r), b, rhs) * out[b] == out[b] * Read(m.Bits(r), b, rhs);
  }

  lemma ReadToStep(m: Matrix, cols: nat, rhs: nat, rows: seq<nat>, t: nat, conds: seq<Cond>, k: nat, b: nat)
    requires Wf(m, cols) && Reduced(m, cols, rhs) && Readable(m, cols, rows, |conds|) && NoneTwice(rows)
    requires t < |rows| && Skipped(m, cols, rows, k) && b == m.row[rows[k]].pivot / 2 < |conds|
    ensures var out := ReadTo(m, cols, rhs, rows, t, conds);
      ReadTo(m, cols, rhs, rows, t + 1, conds)[b] == if t == k then out[b] * Read(m.Bits(rows[k]), b, rhs) else out[b]
  {
    SkippedFacts(m, cols, rows, |conds|, k);
    hide Read, ReadRow, Partner, Wf, Reduced, RowReadable, NoneTwice, Skipped;
    var out := ReadTo(m, cols, rhs, rows, t, conds);
    if t == k {
      ReadRowSkipped(m, cols, rhs, rows[k], out);
    } else {
      OnlyOfPair(m, cols, rhs, rows, k, t);
      ReadRowElsewhere(m, cols, rhs, rows[t], Partner(m, cols, rows, t), out, b);
    }
  }

  /** Of all the listed rows only the skipped one itself changes the condition of its pair. */
  lemma {:induction false} ReadToSkipped(m: Matrix, cols: nat, rhs: nat, rows: seq<nat>, t: nat, conds: seq<Cond>, k: nat,
                                         b: nat)
    requires Wf(m, cols) && Reduced(m, cols, rhs) && Readable(m, cols, rows, |conds|) && NoneTwice(rows)
    requires t <= |rows| && Skipped(m, cols, rows, k) && b == m.row[rows[k]].pivot / 2 < |conds|
    ensures ReadTo(m, cols, rhs, rows, t, conds)[b] == if t <= k then conds[b] else conds[b] * Read(m.Bits(rows[k]), b, rhs)
  {
    hide Read, ReadRow, Partner, Wf, Reduced, RowReadable, NoneTwice, Skipped;
    if t > 0 {
      ReadToSkipped(m, cols, rhs, rows, t - 1, conds, k, b);
      ReadToStep(m, cols, rhs, rows, t - 1, conds, k, b);
      hide ReadTo;
    }
  }

  lemma SkippedFacts(m: Matrix, cols: nat, rows: seq<nat>, n: nat, k: nat)
    requires Readable(m, cols, rows, n) && Skipped(m, cols, rows, k)
    ensures k < |rows| && m.row[rows[k]].pivot < cols && m.row[rows[k]].pivot % 2 == 1 && m.row[rows[k]].pivot / 2 < n
    ensures rows[k] == Partner(m, cols, rows, k)
  {
    assert RowReadable(m, cols, rows[k], n);
  }

  /** With everything read off the rows that are not listed, reading the listed ones makes the conditions exact if and
      only if what each skipped row leaves of its condition implies the skipped sum. */
  lemma IncrementalExact(m: Matrix, cols: nat, rhs: nat, list: seq<nat>, rows: seq<nat>, conds: seq<Cond>)
    requires Wf(m, cols) && Reduced(m, cols, rhs) && rhs < cols && 2 * |conds| <= rhs && NoneTwice(rows)
    requires Stands(m, list, rows) && Readable(m, cols, rows, |conds|) && ReadOff(m.data, list, cols, rhs, conds)
    requires forall b :: 0 <= b < |conds| ==> conds[b] <= ANY
    ensures Exact(m, rhs, ReadTo(m, cols, rhs, rows, |rows|, conds)) <==> SumsImplied(m, cols, rhs, rows, conds)
  {
    ExactBySums(m, cols, rhs, list, rows, conds);
    hide ReadTo, Wf, Reduced, ReadOff, Stands, Skipped, Read, ReadSum, Exact, NoneTwice, RowReadable;
    forall k | 0 <= k < |rows| && Skipped(m, cols, rows, k)
      ensures var b := m.row[rows[k]].pivot / 2;
        && b < |conds|
        && ReadTo(m, cols, rhs, rows, |rows|, conds)[b] == conds[b] * Read(m.Bits(rows[k]), b, rhs)
    {
      SkippedFacts(m, cols, rows, |conds|, k);
      ReadToSkipped(m, cols, rhs, rows, |rows|, conds, k, m.row[rows[k]].pivot / 2);
    }
  }

  lemma SkippedBelow(m: Matrix, cols: nat, rhs: nat, rows: seq<nat>, out: seq<Cond>, k: nat)
    requires Wf(m, cols) && Reduced(m, cols, rhs) && rhs < cols && 2 * |out| <= rhs && Exact(m, rhs, out)
    requires Readable(m, cols, rows, |out|) && k < |rows| && Skipped(m, cols, rows, k)
    ensures m.row[rows[k]].pivot / 2 < |out| && out[m.row[rows[k]].pivot / 2] <= ReadSum(m, rows[k], rows[k] - 1, rhs)
  {
    hide Wf, Reduced, Exact, Partner, Read;
    ExactBelow(m, cols, rhs, out, rows[k], rows[k] - 1);
  }

  lemma AllowsLeft(m: Matrix, cols: nat, rhs: nat, list: seq<nat>, rows: seq<nat>, conds: seq<Cond>, b: nat, v: nat)
    requires Wf(m, cols) && Reduced(m, cols, rhs) && rhs < cols && 2 * |conds| <= rhs
    requires Stands(m, list, rows) && Readable(m, cols, rows, |conds|) && ReadOff(m.data, list, cols, rhs, conds)
    requires b < |conds| && v in ReadTo(m, cols, rhs, rows, |rows|, conds)[b] && v < 4
    requires SkippedSumsHold(m, cols, rhs, rows, ReadTo(m, cols, rhs, rows, |rows|, conds))
    ensures Indexed(m) && Allows(m, b, rhs, v)
  {
    hide ReadTo, Read, SkippedSumsHold, ReadOff, Stands, Wf, Reduced, Xor, RowReadable;
    forall i | InPair(m, i, b) ensures v in Read(m.Bits(i), b, rhs) {
      RowHeard(m, cols, rhs, list, rows, conds, i);
    }
    forall i, j | InPair(m, i, b) && InPair(m, j, b) && i != j
      ensures v in Read(Xor(m.Bits(i), m.Bits(j)), b, rhs)
    {
      if i < j {
        PairHeard(m, cols, rhs, list, rows, conds, b, i, j);
      } else {
        PairHeard(m, cols, rhs, list, rows, conds, b, j, i);
        SumSymmetric(m, i, j, rhs);
      }
    }
  }

  lemma PairHeard(m: Matrix, cols: nat, rhs: nat, list: seq<nat>, rows: seq<nat>, conds: seq<Cond>, b: nat, k: nat, l: nat)
    requires Wf(m, cols) && Reduced(m, cols, rhs) && rhs < cols && 2 * |conds| <= rhs
    requires Stands(m, list, rows) && Readable(m, cols, rows, |conds|) && ReadOff(m.data, list, cols, rhs, conds)
    requires SkippedSumsHold(m, cols, rhs, rows, ReadTo(m, cols, rhs, rows, |rows|, conds))
    requires k < l < |m.row| && b < |conds| && InPair(m, k, b) && InPair(m, l, b)
    ensures ReadTo(m, cols, rhs, rows, |rows|, conds)[b] <= ReadSum(m, k, l, rhs)
  {
    hide ReadTo, ReadSum, SkippedSumsHold, ReadOff, Stands, Wf, Reduced;
    Adjacent(m, cols, rhs, b, k, l);
    SumHeard(m, cols, rhs, list, rows, conds, b, k);
  }

  // ---- the result of reading ----

  /** The listed rows of the matrix. */
  function RowsOf(rowinv: seq<nat>, list: seq<nat>): (rows: seq<nat>)
    ensures |rows| == |list| && forall k :: 0 <= k < |rows| && list[k] < |rowinv| ==> rows[k] == rowinv[list[k]]
  {
    seq(|list|, k requires 0 <= k < |list| => if list[k] < |rowinv| then rowinv[list[k]] else 0)
  }

  /** The conditions after reading all the rows. */
  ghost predicate AreRead(m: Matrix, cols: nat, rhs: nat, rows: seq<nat>, conds: seq<Cond>, out: seq<Cond>) {
    Readable(m, cols, rows, |conds|) && out == ReadTo(m, cols, rhs, rows, |rows|, conds)
  }

  /** With all rows listed no sum is skipped. */
  lemma AllListedExact(m: Matrix, cols: nat, rhs: nat, list: seq<nat>, rows: seq<nat>, conds: seq<Cond>)
    requires Wf(m, cols) && Reduced(m, cols, rhs) && rhs < cols && 2 * |conds| <= rhs
    requires Stands(m, list, rows) && Readable(m, cols, rows, |conds|) && forall p :: 0 <= p < |m.data| ==> p in list
    requires forall b :: 0 <= b < |conds| ==> conds[b] <= ANY
    ensures Exact(m, rhs, ReadTo(m, cols, rhs, rows, |rows|, conds))
  {
    assert ReadOff(m.data, list, cols, rhs, conds);
    hide ReadTo, Reduced, Exact, Wf, ReadOff, Skipped, RowReadable;
    forall k | 0 <= k < |rows| ensures !Skipped(m, cols, rows, k) {
      NoneSkipped(m, cols, list, rows, k);
    }
    ExactBySums(m, cols, rhs, list, rows, conds);
  }

  lemma NoneSkipped(m: Matrix, cols: nat, list: seq<nat>, rows: seq<nat>, k: nat)
    requires Wf(m, cols) && Stands(m, list, rows) && (forall p :: 0 <= p < |m.data| ==> p in list) && k < |rows|
    ensures !Skipped(m, cols, rows, k)
  {
    if rows[k] > 0 {
      hide Partner;
      IndexAt(m, cols, rows[k] - 1);
      var t := ListedRow(m, cols, list, rows, rows[k] - 1);
      assert rows[t] in rows;
    }
  }

  /** The k-th row and the j-th before it, with at most empty rows between them: the next row of the matrix; both have
      odd pivots, and the row with the other pivot of the pair of the k-th is not listed. */
  ghost predicate Shadowed(m: Matrix, cols: nat, rows: seq<nat>, j: nat, k: nat)
    requires forall i :: 0 <= i < |rows| ==> rows[i] < |m.row|
  {
    && j < k < |rows| && rows[k] > 0 && rows[j] == rows[k] + 1
    && m.row[rows[j]].pivot % 2 == 1 && m.row[rows[k]].pivot % 2 == 1 && m.row[rows[j]].pivot != cols
    && m.row[rows[k] - 1].pivot == m.row[rows[k]].pivot - 1 && rows[k] - 1 !in rows
    && forall i :: j < i < k ==> m.row[rows[i]].pivot == cols || rows[i] == rows[k]
  }

  lemma SkippedShadowed(m: Matrix, cols: nat, rows: seq<nat>, k: nat)
    requires (forall i :: 0 <= i < |rows| ==> rows[i] < |m.row|) && Skipped(m, cols, rows, k)
    ensures exists j :: Shadowed(m, cols, rows, j, k)
  {
    var j := SkippedAfter(m, cols, rows, k, k);
    assert Shadowed(m, cols, rows, j, k);
  }

  /** A guard on the list alone under which the conditions become exact. */
  lemma ExactUnlessShadowed(m: Matrix, cols: nat, rhs: nat, list: seq<nat>, rows: seq<nat>, conds: seq<Cond>)
    requires Wf(m, cols) && Reduced(m, cols, rhs) && rhs < cols && 2 * |conds| <= rhs
    requires Stands(m, list, rows) && Readable(m, cols, rows, |conds|) && ReadOff(m.data, list, cols, rhs, conds)
    requires forall b :: 0 <= b < |conds| ==> conds[b] <= ANY
    requires forall j, k :: !Shadowed(m, cols, rows, j, k)
    ensures Exact(m, rhs, ReadTo(m, cols, rhs, rows, |rows|, conds))
  {
    hide ReadSum, ReadTo, Reduced, Wf, Exact, ReadOff, Stands;
    forall k: nat ensures Skipped(m, cols, rows, k) ==> exists j :: Shadowed(m, cols, rows, j, k) {
      if Skipped(m, cols, rows, k) {
        SkippedShadowed(m, cols, rows, k);
      }
    }
    hide Skipped, Shadowed;
    ExactBySums(m, cols, rhs, list, rows, conds);
  }

  lemma ReadingResult(m: Matrix, cols: nat, rhs: nat, list: seq<nat>, rows: seq<nat>, conds: seq<Cond>)
    requires Wf(m, cols) && Reduced(m, cols, rhs) && rhs < cols && 2 * |conds| <= rhs
    requires Stands(m, list, rows) && Readable(m, cols, rows, |conds|) && NoneTwice(rows)
    requires forall b :: 0 <= b < |conds| ==> conds[b] <= ANY
    ensures var out := ReadTo(m, cols, rhs, rows, |rows|, conds);
      && (ReadOff(m.data, list, cols, rhs, conds) ==> (Exact(m, rhs, out) <==> SumsImplied(m, cols, rhs, rows, conds)))
      && ((forall p :: 0 <= p < |m.data| ==> p in list) ==> Exact(m, rhs, out))
      && (Exact(m, rhs, out) ==> ReadOff(m.data, [], cols, rhs, out))
  {
    hide Wf, Reduced, ReadOff, Exact, SumsImplied, Stands, RowReadable, ReadTo, NoneTwice;
    if ReadOff(m.data, list, cols, rhs, conds) {
      IncrementalExact(m, cols, rhs, list, rows, conds);
    }
    if forall p :: 0 <= p < |m.data| ==> p in list {
      AllListedExact(m, cols, rhs, list, rows, conds);
    }
    var out := ReadTo(m, cols, rhs, rows, |rows|, conds);
    if Exact(m, rhs, out) {
      ExactReadOff(m, cols, rhs, out);
    }
  }

  // ---- a sum that is lost ----

  /** The outputs are a + c and a + d, the inputs d, a, c, of one bit each (pairs 2, 3 and 4). The conditions `5` on the
      second output, `-` on c and `5` on a have been added and read; this made `5` of the condition on d, whose equation
      emptied the row of column 4. */
  const DATA_BEFORE: seq<set<nat>> := [{0, 9}, {1, 7, 9}, {}, {3, 5, 7}]
  const CONDS_BEFORE: seq<Cond> := [ANY, {0, 2}, {0, 2}, {0, 2}, {0, 3}]

  /** After `3` on d and `0` on a: the equations of column 5 and column 7 are added to the rows that have them. */
  const DATA_AFTER: seq<set<nat>> := [{0, 9}, {1, 9}, {}, {3}]
  const CONDS_AFTER: seq<Cond> := [ANY, {0, 2}, {0}, {0}, {0, 3}]

  function LostRows(cols: nat): seq<Row> {
    [Row(0, 0), Row(1, 1), Row(3, 3), Row(2, cols)]
  }

  function LostBefore(cols: nat): Matrix {
    Matrix(DATA_BEFORE, LostRows(cols))
  }

  function LostAfter(cols: nat): Matrix {
    Matrix(DATA_AFTER, LostRows(cols))
  }

  lemma LostPivots(cols: nat)
    requires cols > 10
    ensures forall i :: 0 <= i < 4 ==> LostRows(cols)[i].pivot == PivotOf(DATA_AFTER[LostRows(cols)[i].index], cols)
  {
    PivotUnique({0, 9}, cols, 0);
    PivotUnique({1, 9}, cols, 1);
    PivotUnique({3}, cols, 3);
    PivotUnique({}, cols, cols);
  }

  lemma LostReduced(cols: nat, rhs: nat)
    requires 10 <= rhs < cols
    ensures Wf(LostAfter(cols), cols) && Reduced(LostAfter(cols), cols, rhs) && Indexed(LostAfter(cols))
  {
    LostPivots(cols);
    hide PivotOf;
    assert Clean(DATA_AFTER, LostRows(cols)[0], cols, rhs) && Clean(DATA_AFTER, LostRows(cols)[1], cols, rhs);
    assert Clean(DATA_AFTER, LostRows(cols)[2], cols, rhs) && Clean(DATA_AFTER, LostRows(cols)[3], cols, rhs);
    hide Clean;
    assert AllClean(LostAfter(cols), cols, rhs);
  }

  lemma LostReducedBefore(cols: nat, rhs: nat)
    requires 10 <= rhs < cols
    ensures Wf(LostBefore(cols), cols) && Reduced(LostBefore(cols), cols, rhs)
  {
    forall p | 0 <= p < 4 ensures PivotOf(DATA_BEFORE[p], cols) == PivotBefore(p, cols) {
      LostPivotBefore(cols, p);
    }
    hide PivotOf;
    assert Clean(DATA_BEFORE, LostRows(cols)[0], cols, rhs) && Clean(DATA_BEFORE, LostRows(cols)[1], cols, rhs);
    assert Clean(DATA_BEFORE, LostRows(cols)[2], cols, rhs) && Clean(DATA_BEFORE, LostRows(cols)[3], cols, rhs);
    hide Clean;
    assert AllClean(LostBefore(cols), cols, rhs);
  }

  lemma LostChanges(cols: nat)
    requires cols > 10
    ensures var a := XorInto(LostBefore(cols), cols, 2, {5});
      a == Matrix([{0, 9}, {1, 7, 9}, {}, {3, 7}], LostRows(cols)) &&
      var b := XorInto(a, cols, 1, {7});
      b == Matrix([{0, 9}, {1, 9}, {}, {3, 7}], LostRows(cols)) && XorInto(b, cols, 2, {7}) == LostAfter(cols)
  {
    assert Xor({3, 5, 7}, {5}) == {3, 7} && Xor({1, 7, 9}, {7}) == {1, 9} && Xor({3, 7}, {7}) == {3};
    PivotUnique({3, 7}, cols, 3);
    PivotUnique({1, 9}, cols, 1);
    PivotUnique({3}, cols, 3);
    hide PivotOf, Xor;
  }

  lemma LostReadBefore(cols: nat, rhs: nat)
    requires 10 <= rhs < cols
    ensures ReadOff(DATA_BEFORE, [], cols, rhs, CONDS_BEFORE)
  {
    forall p | 0 <= p < 4 ensures RowOff(DATA_BEFORE[p], cols, rhs, CONDS_BEFORE) {
      LostPivotBefore(cols, p);
      LostRowBefore(cols, rhs, p);
    }
    forall p, q | 0 <= p < 4 && 0 <= q < 4 && p != q
      ensures SumOff(DATA_BEFORE[p], DATA_BEFORE[q], cols, rhs, CONDS_BEFORE)
    {
      LostPivotBefore(cols, p);
      LostPivotBefore(cols, q);
      LostSumBefore(cols, rhs, p, q);
    }
    hide RowOff, SumOff;
  }

  function PivotBefore(p: nat, cols: nat): nat {
    if p == 0 then 0 else if p == 1 then 1 else if p == 2 then cols else 3
  }

  lemma LostPivotBefore(cols: nat, p: nat)
    requires cols > 10 && p < 4
    ensures PivotOf(DATA_BEFORE[p], cols) == PivotBefore(p, cols)
  {
    var d := DATA_BEFORE[p];
    assert (p != 2 ==> PivotBefore(p, cols) in d) && forall c :: c in d ==> c < cols && PivotBefore(p, cols) <= c;
    PivotUnique(d, cols, PivotBefore(p, cols));
  }

  /** Only the sum of the first two rows concerns one pair, and it mentions the column 7. */
  lemma LostSumBefore(cols: nat, rhs: nat, p: nat, q: nat)
    requires 10 <= rhs < cols && p < 4 && q < 4 && p != q
    requires PivotOf(DATA_BEFORE[p], cols) == PivotBefore(p, cols) && PivotOf(DATA_BEFORE[q], cols) == PivotBefore(q, cols)
    ensures SumOff(DATA_BEFORE[p], DATA_BEFORE[q], cols, rhs, CONDS_BEFORE)
  {
    hide PivotOf;
    if p + q == 1 {
      var d := DATA_BEFORE;
      assert (d[p] == d[0] && d[q] == d[1]) || (d[p] == d[1] && d[q] == d[0]);
      assert 7 in d[1] && 7 !in d[0];
      assert 7 in Xor(d[p], d[q]);
    }
  }

  lemma LostRowBefore(cols: nat, rhs: nat, p: nat)
    requires 10 <= rhs < cols && p < 4
    requires PivotOf(DATA_BEFORE[p], cols) == PivotBefore(p, cols)
    ensures RowOff(DATA_BEFORE[p], cols, rhs, CONDS_BEFORE)
  {
    hide PivotOf;
    var d := DATA_BEFORE[p];
    if p != 2 {
      assert (if p == 0 then 9 else 7) in d;
    }
  }

  /** The row of column 3 and the row of column 1 are listed, in this order. */
  lemma LostPartner(cols: nat)
    requires cols > 10
    ensures Partner(LostAfter(cols), cols, [2, 1], 1) == 1 && Skipped(LostAfter(cols), cols, [2, 1], 1)
  {
    assert Partner(LostAfter(cols), cols, [2, 1], 0) == -1;
  }

  /** Nothing is read into the first output: the row of column 1 mentions c, and its sum with the row of column 0 is
      skipped. */
  lemma LostReading(cols: nat, rhs: nat)
    requires 10 <= rhs < cols && Readable(LostAfter(cols), cols, [2, 1], 5)
    ensures ReadTo(LostAfter(cols), cols, rhs, [2, 1], 2, CONDS_AFTER)[0] == ANY
  {
    var m, rows := LostAfter(cols), [2, 1];
    LostPartner(cols);
    assert rows[0] == 2 && rows[1] == 1;
    assert ReadTo(m, cols, rhs, rows, 0, CONDS_AFTER) == CONDS_AFTER;
    var one := ReadTo(m, cols, rhs, rows, 1, CONDS_AFTER);
    assert one == ReadRow(m, cols, rhs, rows[0], Partner(m, cols, rows, 0), CONDS_AFTER);
    assert one[0] == ANY;
    var two := ReadTo(m, cols, rhs, rows, 2, CONDS_AFTER);
    assert two == ReadRow(m, cols, rhs, rows[1], 1, one);
    assert 9 in m.Bits(1);
  }

  /** In every solution both bits of the first output are the second bit of c. */
  lemma LostSolutions(cols: nat, rhs: nat)
    requires 10 <= rhs
    ensures !Takes(LostAfter(cols), 0, rhs, 1)
  {
    forall x | Solves(LostAfter(cols), rhs, x) ensures Code(x, 0) != 1 {
      var d := DATA_AFTER;
      assert !Value(d[0], x) && !Value(d[1], x);
      assert d[0] == Xor({0}, {9}) && d[1] == Xor({1}, {9});
      ValueXor({0}, {9}, x);
      ValueXor({1}, {9}, x);
      ValueSingle(0, x);
      ValueSingle(1, x);
    }
  }

  /** A run after which the conditions are not exact although they were before: everything had been read, two rows
      have changed and are listed, and their sum with the unlisted row between them is skipped. */
  lemma SumLost(cols: nat, rhs: nat)
    requires 10 <= rhs < cols
    ensures Wf(LostBefore(cols), cols) && Reduced(LostBefore(cols), cols, rhs)
    ensures Wf(LostAfter(cols), cols) && Reduced(LostAfter(cols), cols, rhs) && Narrower(CONDS_AFTER, CONDS_BEFORE)
    ensures ReadOff(DATA_BEFORE, [], cols, rhs, CONDS_BEFORE)
    ensures UnlistedRead(DATA_BEFORE, DATA_AFTER, [3, 1])
    ensures ReadOff(DATA_AFTER, [3, 1], cols, rhs, CONDS_AFTER)
    ensures Stands(LostAfter(cols), [3, 1], [2, 1]) && Readable(LostAfter(cols), cols, [2, 1], 5)
    ensures Skipped(LostAfter(cols), cols, [2, 1], 1)
    ensures 1 in ReadTo(LostAfter(cols), cols, rhs, [2, 1], 2, CONDS_AFTER)[0] && !Takes(LostAfter(cols), 0, rhs, 1)
  {
    LostReducedBefore(cols, rhs);
    LostReduced(cols, rhs);
    LostReadBefore(cols, rhs);
    hide Wf, Reduced, ReadOff, Skipped, Takes, ReadTo;
    assert Narrower(CONDS_AFTER, CONDS_BEFORE);
    ReadOffLater(DATA_BEFORE, DATA_AFTER, [3, 1], cols, rhs, CONDS_BEFORE, CONDS_AFTER);
    LostPartner(cols);
    LostReading(cols, rhs);
    LostSolutions(cols, rhs);
  }
}
