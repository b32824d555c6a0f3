/** The merge pass that puts changed rows back into the sorted row order (src/bit_matrix.cpp). */
module MergePasses {
  import opened Gf2
  import opened RowOrders

  // ---- rows on the move: every written row is a different row of the list before ----

  /** Rows at the keys of `src` are written, the rows of `was` at `pending` wait to be put back, and those at
      `unread` are still in place. No row is in two of these groups. */
  ghost predicate Tracked(was: seq<Row>, pending: set<nat>, unread: set<nat>,
                          row: seq<Row>, rowinv: seq<nat>, src: map<nat, nat>) {
    && |row| == |was| == |rowinv|
    && DistinctIndices(was)
    && (forall i :: 0 <= i < |was| ==> was[i].index < |was|)
    && pending !! unread
    && (forall x :: x in pending ==> x < |was|)
    && (forall x :: x in unread ==> x < |was| && row[x] == was[x] && rowinv[was[x].index] == x)
    && (forall i :: i in src ==> Written(was, row, rowinv, i, src[i]) && src[i] !in pending && src[i] !in unread)
    && (forall i, j :: i in src && j in src && i != j ==> src[i] != src[j])
  }

  ghost predicate Written(was: seq<Row>, row: seq<Row>, rowinv: seq<nat>, i: nat, x: nat)
    requires |row| == |was| == |rowinv|
    requires forall i :: 0 <= i < |was| ==> was[i].index < |was|
  {
    i < |row| && x < |was| && row[i] == was[x] && rowinv[was[x].index] == i
  }

  /** Writing row `x` at `w`. */
  lemma PutRow(was: seq<Row>, pending: set<nat>, unread: set<nat>,
               row: seq<Row>, rowinv: seq<nat>, src: map<nat, nat>, w: nat, x: nat)
    requires Tracked(was, pending, unread, row, rowinv, src)
    requires w < |row| && w !in src && x in pending + unread && w !in unread - {x}
    ensures Tracked(was, pending - {x}, unread - {x}, row[w := was[x]], rowinv[was[x].index := w], src[w := x])
  {
  }

  /** Leaving rows where they are. */
  lemma KeepRows(was: seq<Row>, pending: set<nat>, unread: set<nat>,
                 row: seq<Row>, rowinv: seq<nat>, src: map<nat, nat>, kept: set<nat>)
    requires Tracked(was, pending, unread, row, rowinv, src)
    requires kept <= unread && kept !! src.Keys
    ensures Tracked(was, pending, unread - kept, row, rowinv, src + Identity(kept))
  {
  }

  /** When everything is written, the result is a reordering with its inverse. */
  lemma AllWritten(was: seq<Row>, row: seq<Row>, rowinv: seq<nat>, src: map<nat, nat>)
    requires Tracked(was, {}, {}, row, rowinv, src)
    requires Upto(src, |row|)
    ensures DistinctIndices(row) && IsInverse(rowinv, row)
    ensures Among(row, was)
  {
    forall i | 0 <= i < |row|
      ensures Written(was, row, rowinv, i, src[i]) && row[i] in was
    {
      assert i in src;
    }
    forall i, j | 0 <= i < j < |row| ensures row[i].index != row[j].index {
      assert src[i] != src[j];
    }
  }

  /** Positions at or after `r` that are not in `out`. */
  ghost function From(r: nat, n: nat, out: set<nat>): set<nat> {
    set j: nat | r <= j < n && j !in out
  }

  ghost function Identity(s: set<nat>): map<nat, nat> {
    map i | i in s :: i
  }

  ghost predicate Upto(src: map<nat, nat>, w: nat) {
    forall i: nat :: i in src <==> i < w
  }

  /** Where the rows of `l` were. */
  ghost function Origins(wasinv: seq<nat>, l: seq<Row>): set<nat>
    requires forall i :: 0 <= i < |l| ==> l[i].index < |wasinv|
  {
    set i | 0 <= i < |l| :: wasinv[l[i].index]
  }

  // ---- one merge pass: `w` is written next, `r` read next, `k` rows are taken out, `q` put back ----

  ghost predicate Counted(f: seq<nat>, n: nat, w: nat, r: nat, k: nat, q: nat) {
    && q <= k <= |f| && w + (k - q) == r <= n
    && (forall i :: 0 <= i < |f| ==> f[i] < n)
    && (forall i :: 0 <= i < k ==> f[i] < r)
    && (forall i :: k <= i < |f| ==> r <= f[i])
  }

  lemma Room(f: seq<nat>, n: nat, w: nat, r: nat, k: nat, q: nat)
    requires Counted(f, n, w, r, k, q)
    ensures k < |f| ==> r < n
  {
    if k < |f| {
      assert f[k] < n;
    }
  }

  /** The rows written so far are sorted and below all rows still to come. */
  ghost predicate MergeSorted(was: seq<Row>, out: set<nat>, toRow: seq<Row>, row: seq<Row>, w: nat, r: nat, q: nat)
    requires w <= |row|
  {
    && SortedByPivot(row[..w])
    && (forall i, t :: 0 <= i < w && q <= t < |toRow| ==> row[i].pivot <= toRow[t].pivot)
    && (forall i, j :: 0 <= i < w && r <= j < |was| && j !in out ==> row[i].pivot <= was[j].pivot)
  }

  /** Rows of the list before `was` at the places `f`, and the same rows sorted. */
  ghost predicate Extracted(was: seq<Row>, wasinv: seq<nat>, out: set<nat>,
                            f: seq<nat>, fromRows: seq<Row>, toRow: seq<Row>, p: seq<nat>) {
    && DistinctIndices(was) && IsInverse(wasinv, was)
    && f != [] && Lists(f, out)
    && |fromRows| == |f| && (forall i :: 0 <= i < |f| ==> f[i] < |was| && fromRows[i] == was[f[i]])
    && SortedByPivot(toRow) && PermutedBy(toRow, fromRows, p)
  }

  lemma MergeSkip(was: seq<Row>, out: set<nat>, f: seq<nat>, fromRows: seq<Row>, toRow: seq<Row>, p: seq<nat>,
                  row: seq<Row>, r: nat, k: nat)
    requires |row| == |was| && r <= |was| && OnlyGrown(was, out)
    requires Lists(f, out) && k < |f| && r <= f[k] < |was|
    requires forall i :: 0 <= i < k ==> f[i] < r
    requires |fromRows| == |f| && forall i :: 0 <= i < |f| ==> f[i] < |was| && fromRows[i] == was[f[i]]
    requires SortedByPivot(toRow) && PermutedBy(toRow, fromRows, p)
    requires forall j :: r <= j < f[k] ==> row[j] == was[j]
    requires MergeSorted(was, out, toRow, row, r, r, k)
    ensures forall j :: r <= j < f[k] ==> j !in out
    ensures MergeSorted(was, out, toRow, row, f[k], f[k], k)
  {
    hide Lists;
    Listed(f, out);
    forall j | r <= j < f[k] ensures j !in out {
      NotListed(f, out, j);
    }
    forall i, t | 0 <= i < f[k] && k <= t < |toRow| ensures row[i].pivot <= toRow[t].pivot {
      if r <= i {
        SortedTail(toRow, fromRows, p, k, was[i].pivot);
      }
    }
    forall i, j | 0 <= i < j < f[k] ensures row[i].pivot <= row[j].pivot {
      if j < r {
        assert row[..r][i].pivot <= row[..r][j].pivot;
      }
    }
  }

  lemma MergePut(was: seq<Row>, out: set<nat>, toRow: seq<Row>, row: seq<Row>, w: nat, r: nat, q: nat)
    requires w < |row| && r <= |was| && q < |toRow| && OnlyGrown(was, out) && SortedByPivot(toRow)
    requires MergeSorted(was, out, toRow, row, w, r, q)
    requires r == |was| || (r !in out && toRow[q].pivot <= was[r].pivot)
    ensures MergeSorted(was, out, toRow, row[w := toRow[q]], w + 1, r, q + 1)
  {
    assert row[w := toRow[q]][..w + 1] == row[..w] + [toRow[q]];
    assert forall i :: 0 <= i < w ==> row[..w][i] == row[i];
  }

  lemma MergeMove(was: seq<Row>, out: set<nat>, toRow: seq<Row>, row: seq<Row>, w: nat, r: nat, q: nat)
    requires w < |row| && r < |was| && q < |toRow| && OnlyGrown(was, out) && SortedByPivot(toRow)
    requires MergeSorted(was, out, toRow, row, w, r, q)
    requires r !in out && was[r].pivot < toRow[q].pivot
    ensures MergeSorted(was, out, toRow, row[w := was[r]], w + 1, r + 1, q)
  {
    assert row[w := was[r]][..w + 1] == row[..w] + [was[r]];
    assert forall i :: 0 <= i < w ==> row[..w][i] == row[i];
  }

  /** What has been put back so far, and that the rows written around it are the rows read, in order. */
  ghost predicate Logged(was: seq<Row>, out: set<nat>, f: seq<nat>, toRow: seq<Row>, to: seq<Place>,
                         row: seq<Row>, w: nat, r: nat, q: nat)
    requires w <= |row| && r <= |was| && q <= |toRow| == |f|
  {
    && |to| == q && AscendingKeys(to)
    && (forall t :: 0 <= t < q ==> f[t] <= to[t].at < w && row[to[t].at] == to[t].row && to[t].row == toRow[t])
    && Rest(row, Keys(to), 0, w) == Rest(was, out, 0, r)
  }

  lemma LogSkip(was: seq<Row>, out: set<nat>, f: seq<nat>, toRow: seq<Row>, to: seq<Place>,
                row: seq<Row>, r: nat, q: nat, g: nat)
    requires r <= g <= |row| == |was| && q <= |toRow| == |f|
    requires Logged(was, out, f, toRow, to, row, r, r, q)
    requires forall j :: r <= j < g ==> row[j] == was[j] && j !in out
    ensures Logged(was, out, f, toRow, to, row, g, g, q)
  {
    RestSplit(row, Keys(to), 0, r, g);
    RestSplit(was, out, 0, r, g);
    RestSame(row, Keys(to), was, out, r, g);
  }

  lemma LogPut(was: seq<Row>, out: set<nat>, f: seq<nat>, toRow: seq<Row>, to: seq<Place>,
               row: seq<Row>, w: nat, r: nat, q: nat)
    requires w < |row| && r <= |was| && q < |toRow| == |f| && f[q] <= w
    requires Logged(was, out, f, toRow, to, row, w, r, q)
    ensures Logged(was, out, f, toRow, to + [Place(w, toRow[q])], row[w := toRow[q]], w + 1, r, q + 1)
  {
    var to' := to + [Place(w, toRow[q])];
    assert Keys(to') == Keys(to) + {w} by {
      forall c | c in Keys(to) ensures c in Keys(to') {
        var i :| 0 <= i < |to| && to[i].at == c;
        assert to'[i].at == c;
      }
      assert to'[q].at == w;
    }
    RestSame(row, Keys(to), row[w := toRow[q]], Keys(to'), 0, w);
  }

  lemma LogDone(was: seq<Row>, out: set<nat>, f: seq<nat>, toRow: seq<Row>, to: seq<Place>,
                row: seq<Row>, w: nat, q: nat)
    requires w <= |row| && w <= |was| && q <= |toRow| == |f|
    requires Logged(was, out, f, toRow, to, row, w, w, q)
    ensures |to| == q && AscendingKeys(to)
    ensures forall t :: 0 <= t < q ==> f[t] <= to[t].at < w && row[to[t].at] == to[t].row && to[t].row == toRow[t]
    ensures Rest(row, Keys(to), 0, w) == Rest(was, out, 0, w)
  {
  }

  lemma MergeDone(was: seq<Row>, out: set<nat>, toRow: seq<Row>, row: seq<Row>, r: nat, q: nat)
    requires r <= |row| == |was| && OnlyGrown(was, out)
    requires MergeSorted(was, out, toRow, row, r, r, q)
    requires forall j :: r <= j < |was| ==> j !in out && row[j] == was[j]
    ensures SortedByPivot(row)
  {
    forall i, j | 0 <= i < j < |row| ensures row[i].pivot <= row[j].pivot {
      if j < r {
        assert row[..r][i].pivot <= row[..r][j].pivot;
      }
    }
  }

  lemma LogMove(was: seq<Row>, out: set<nat>, f: seq<nat>, toRow: seq<Row>, to: seq<Place>,
                row: seq<Row>, w: nat, r: nat, q: nat)
    requires w < |row| && r < |was| && q <= |toRow| == |f| && r !in out
    requires Logged(was, out, f, toRow, to, row, w, r, q)
    ensures Logged(was, out, f, toRow, to, row[w := was[r]], w + 1, r + 1, q)
  {
    RestSame(row, Keys(to), row[w := was[r]], Keys(to), 0, w);
  }

  lemma OriginsTail(wasinv: seq<nat>, l: seq<Row>, q: nat)
    requires q < |l|
    requires forall i :: 0 <= i < |l| ==> l[i].index < |wasinv|
    requires forall i, j :: 0 <= i < j < |l| ==> wasinv[l[i].index] != wasinv[l[j].index]
    ensures Origins(wasinv, l[q + 1..]) == Origins(wasinv, l[q..]) - {wasinv[l[q].index]}
    ensures wasinv[l[q].index] in Origins(wasinv, l[q..])
  {
    assert l[q..][0] == l[q];
    forall x | x in Origins(wasinv, l[q + 1..]) ensures x in Origins(wasinv, l[q..]) && x != wasinv[l[q].index] {
      var i :| 0 <= i < |l[q + 1..]| && x == wasinv[l[q + 1..][i].index];
      assert l[q..][i + 1] == l[q + 1..][i] == l[q + 1 + i];
    }
    forall x | x in Origins(wasinv, l[q..]) && x != wasinv[l[q].index] ensures x in Origins(wasinv, l[q + 1..]) {
      var i :| 0 <= i < |l[q..]| && x == wasinv[l[q..][i].index];
      assert i > 0 && l[q..][i] == l[q + 1..][i - 1];
    }
  }

  /** The constants of one merge pass. */
  ghost predicate PassOver(pass: Pass) {
    Extracted(pass.was, pass.wasinv, pass.out, pass.f, pass.fromRows, pass.toRow, pass.p) && OnlyGrown(pass.was, pass.out)
  }

  datatype Pass = Pass(was: seq<Row>, wasinv: seq<nat>, out: set<nat>,
                       f: seq<nat>, fromRows: seq<Row>, toRow: seq<Row>, p: seq<nat>)
  {
    ghost predicate Merging(row: seq<Row>, rowinv: seq<nat>, src: map<nat, nat>, to: seq<Place>,
                            w: nat, r: nat, k: nat, q: nat) {
      && PassOver(this)
      && |row| == |rowinv| == |was|
      && Counted(f, |was|, w, r, k, q)
      && MergeSorted(was, out, toRow, row, w, r, q)
      && Logged(was, out, f, toRow, to, row, w, r, q)
      && (forall i :: 0 <= i < |toRow| ==> toRow[i].index < |was|)
      && Upto(src, w)
      && Tracked(was, Origins(wasinv, toRow[q..]), From(r, |was|, out), row, rowinv, src)
    }

    lemma ToRows()
      requires PassOver(this)
      ensures forall i :: 0 <= i < |toRow| ==>
        toRow[i].index < |was| && wasinv[toRow[i].index] in out && was[wasinv[toRow[i].index]] == toRow[i]
      ensures forall i, j :: 0 <= i < j < |toRow| ==> wasinv[toRow[i].index] != wasinv[toRow[j].index]
    {
      hide Lists;
      Listed(f, out);
      forall i | 0 <= i < |toRow|
        ensures toRow[i].index < |was| && wasinv[toRow[i].index] == f[p[i]] && f[p[i]] in out
      {
      }
    }

    lemma Start()
      requires PassOver(this)
      ensures Counted(f, |was|, f[0], f[0], 0, 0)
      ensures Merging(was, wasinv, Identity(From(0, f[0], {})), [], f[0], f[0], 0, 0)
    {
      hide Lists;
      Listed(f, out);
      ToRows();
      StartSorted();
      StartLogged();
      StartTracked();
      hide PassOver, MergeSorted, Logged, Tracked;
    }

    lemma BeforeFirst()
      requires PassOver(this)
      ensures 0 < |f| == |toRow| && f[0] < |was| && forall j :: 0 <= j < f[0] ==> j !in out
    {
      hide Lists;
      Listed(f, out);
      forall j | 0 <= j < f[0] ensures j !in out {
        NotListed(f, out, j);
      }
    }

    lemma StartSorted()
      requires PassOver(this)
      ensures 0 < |f| && f[0] < |was| && MergeSorted(was, out, toRow, was, f[0], f[0], 0)
    {
      hide Lists;
      Listed(f, out);
      BeforeFirst();
      forall i, t | 0 <= i < f[0] && 0 <= t < |toRow| ensures was[i].pivot <= toRow[t].pivot {
        assert toRow[t] == was[f[p[t]]];
      }
    }

    lemma StartLogged()
      requires PassOver(this)
      ensures 0 < |f| == |toRow| && f[0] < |was| && Logged(was, out, f, toRow, [], was, f[0], f[0], 0)
    {
      BeforeFirst();
      hide PassOver;
      RestSame(was, Keys([]), was, out, 0, f[0]);
    }

    lemma StartTracked()
      requires PassOver(this)
      ensures 0 < |f| && (forall i :: 0 <= i < |toRow| ==> toRow[i].index < |wasinv|)
      ensures Tracked(was, Origins(wasinv, toRow[0..]), From(f[0], |was|, out), was, wasinv, Identity(From(0, f[0], {})))
    {
      BeforeFirst();
      ToRows();
      assert toRow[0..] == toRow;
      assert forall x :: x in Origins(wasinv, toRow) ==> x in out;
    }

    /** Unread rows that stay are still in place. */
    lemma Unread(row: seq<Row>, rowinv: seq<nat>, src: map<nat, nat>, to: seq<Place>, w: nat, r: nat, k: nat, q: nat)
      requires Merging(row, rowinv, src, to, w, r, k, q)
      ensures forall j :: r <= j < |was| && j !in out ==> j in From(r, |was|, out) && row[j] == was[j]
      ensures From(r, |was|, out) !! out && Origins(wasinv, toRow[q..]) <= out
    {
      ToRows();
    }

    lemma Skip(row: seq<Row>, rowinv: seq<nat>, src: map<nat, nat>, to: seq<Place>, r: nat, k: nat, q: nat)
      requires Merging(row, rowinv, src, to, r, r, k, q) && k < |f|
      ensures Counted(f, |was|, f[k], f[k], k, q)
      ensures Merging(row, rowinv, src + Identity(From(r, f[k], out)), to, f[k], f[k], k, q)
    {
      hide MergeSorted, Logged, Tracked, Lists, DistinctIndices, IsInverse, OnlyGrown, PermutedBy, SortedByPivot, Among;
      Parts();
      Listed(f, out);
      Unread(row, rowinv, src, to, r, r, k, q);
      forall j | r <= j < f[k] ensures j !in out && j in From(r, |was|, out) && row[j] == was[j] {
        NotListed(f, out, j);
      }
      var kept := From(r, f[k], out);
      assert MergeSorted(was, out, toRow, row, f[k], f[k], q) by {
        MergeSkip(was, out, f, fromRows, toRow, p, row, r, k);
      }
      assert Logged(was, out, f, toRow, to, row, f[k], f[k], q) by {
        LogSkip(was, out, f, toRow, to, row, r, q, f[k]);
      }
      var src' := src + Identity(kept);
      assert Upto(src', f[k]);
      assert Tracked(was, Origins(wasinv, toRow[q..]), From(f[k], |was|, out), row, rowinv, src') by {
        KeepRows(was, Origins(wasinv, toRow[q..]), From(r, |was|, out), row, rowinv, src, kept);
        assert From(r, |was|, out) - kept == From(f[k], |was|, out);
      }
    }

    lemma TakeOut(row: seq<Row>, rowinv: seq<nat>, src: map<nat, nat>, to: seq<Place>, w: nat, r: nat, k: nat, q: nat)
      requires Merging(row, rowinv, src, to, w, r, k, q) && k < |f| && r == f[k]
      ensures Counted(f, |was|, w, r + 1, k + 1, q)
      ensures Merging(row, rowinv, src, to, w, r + 1, k + 1, q)
    {
      hide Lists, PassOver, Tracked, MergeSorted, Logged;
      OutAt(k);
      assert From(r, |was|, out) == From(r + 1, |was|, out);
      TakeSorted(row, w, r, q);
      TakeLogged(row, to, w, r, q);
    }

    lemma OutAt(k: nat)
      requires PassOver(this) && k < |f|
      ensures f[k] in out && f[k] < |was| && |toRow| == |f| && forall i :: k < i < |f| ==> f[k] < f[i]
    {
      hide Lists;
      Listed(f, out);
    }

    lemma TakeSorted(row: seq<Row>, w: nat, r: nat, q: nat)
      requires w <= |row| && q <= |toRow| && r < |was|
      requires MergeSorted(was, out, toRow, row, w, r, q) && r in out
      ensures MergeSorted(was, out, toRow, row, w, r + 1, q)
    {
    }

    lemma TakeLogged(row: seq<Row>, to: seq<Place>, w: nat, r: nat, q: nat)
      requires w <= |row| && q <= |toRow| == |f| && r < |was|
      requires Logged(was, out, f, toRow, to, row, w, r, q) && r in out
      ensures Logged(was, out, f, toRow, to, row, w, r + 1, q)
    {
      RestSplit(was, out, 0, r, r + 1);
    }

    lemma PutBack(row: seq<Row>, rowinv: seq<nat>, src: map<nat, nat>, to: seq<Place>, w: nat, r: nat, k: nat, q: nat)
      requires Merging(row, rowinv, src, to, w, r, k, q) && q < k
      requires r == |was| || ((k < |f| ==> r < f[k]) && toRow[q].pivot <= row[r].pivot)
      ensures Counted(f, |was|, w + 1, r, k, q + 1)
      ensures Merging(row[w := toRow[q]], rowinv[toRow[q].index := w], src[w := wasinv[toRow[q].index]],
                      to + [Place(w, toRow[q])], w + 1, r, k, q + 1)
    {
      hide MergeSorted, Logged, Tracked, Extracted;
      Parts();
      var x := wasinv[toRow[q].index];
      NextKept(row, rowinv, src, to, w, r, k, q);
      Unread(row, rowinv, src, to, w, r, k, q);
      ToRows();
      assert MergeSorted(was, out, toRow, row[w := toRow[q]], w + 1, r, q + 1) by {
        MergePut(was, out, toRow, row, w, r, q);
      }
      assert Logged(was, out, f, toRow, to + [Place(w, toRow[q])], row[w := toRow[q]], w + 1, r, q + 1) by {
        AscendingGap(f, q, k - 1);
        LogPut(was, out, f, toRow, to, row, w, r, q);
      }
      assert Tracked(was, Origins(wasinv, toRow[q + 1..]), From(r, |was|, out),
                     row[w := toRow[q]], rowinv[toRow[q].index := w], src[w := x]) by {
        OriginsTail(wasinv, toRow, q);
        PutRow(was, Origins(wasinv, toRow[q..]), From(r, |was|, out), row, rowinv, src, w, x);
        assert From(r, |was|, out) - {x} == From(r, |was|, out);
      }
    }

    lemma MoveUp(row: seq<Row>, rowinv: seq<nat>, src: map<nat, nat>, to: seq<Place>, w: nat, r: nat, k: nat, q: nat)
      requires Merging(row, rowinv, src, to, w, r, k, q) && q < k
      requires r < |was| && (k < |f| ==> r < f[k]) && toRow[q].pivot > row[r].pivot
      ensures Counted(f, |was|, w + 1, r + 1, k, q) && row[r].index < |was|
      ensures Merging(row[w := row[r]], rowinv[row[r].index := w], src[w := r], to, w + 1, r + 1, k, q)
    {
      hide MergeSorted, Logged, Tracked, Extracted;
      NextKept(row, rowinv, src, to, w, r, k, q);
      Unread(row, rowinv, src, to, w, r, k, q);
      Parts();
      assert MergeSorted(was, out, toRow, row[w := was[r]], w + 1, r + 1, q) by {
        MergeMove(was, out, toRow, row, w, r, q);
      }
      assert Logged(was, out, f, toRow, to, row[w := was[r]], w + 1, r + 1, q) by {
        LogMove(was, out, f, toRow, to, row, w, r, q);
      }
      assert Tracked(was, Origins(wasinv, toRow[q..]), From(r + 1, |was|, out),
                     row[w := was[r]], rowinv[was[r].index := w], src[w := r]) by {
        var pending := Origins(wasinv, toRow[q..]);
        PutRow(was, pending, From(r, |was|, out), row, rowinv, src, w, r);
        assert From(r, |was|, out) - {r} == From(r + 1, |was|, out);
        assert pending - {r} == pending;
      }
    }

    /** The row at the read position stays in the list. */
    lemma NextKept(row: seq<Row>, rowinv: seq<nat>, src: map<nat, nat>, to: seq<Place>, w: nat, r: nat, k: nat, q: nat)
      requires Merging(row, rowinv, src, to, w, r, k, q)
      ensures r < |was| && (k < |f| ==> r < f[k]) ==> r !in out && r in From(r, |was|, out) && row[r] == was[r]
    {
      hide Lists;
      Listed(f, out);
      if r < |was| && (k < |f| ==> r < f[k]) {
        NotListed(f, out, r);
      }
    }

    lemma Parts()
      requires PassOver(this)
      ensures Ascending(f) && |toRow| == |f| == |fromRows| && SortedByPivot(toRow)
      ensures DistinctIndices(was) && |wasinv| == |was| && OnlyGrown(was, out) && PermutedBy(toRow, fromRows, p)
      ensures forall i :: 0 <= i < |was| ==> was[i].index < |was|
      ensures forall i :: 0 <= i < |toRow| ==> toRow[i].index < |was|
    {
    }

    ghost predicate Merged(row: seq<Row>, rowinv: seq<nat>, to: seq<Place>, w: nat) {
      && DistinctIndices(row) && IsInverse(rowinv, row) && SortedByPivot(row)
      && |row| == |was|
      && Among(row, was)
      && |to| == |toRow| == |f| && AscendingKeys(to)
      && (forall t :: 0 <= t < |f| ==> f[t] <= to[t].at < |was| && to[t].at < w && w <= |was| && row[to[t].at] == to[t].row && to[t].row == toRow[t])
      && Rest(row, Keys(to), 0, |row|) == Rest(was, out, 0, |was|)
    }

    lemma Finish(row: seq<Row>, rowinv: seq<nat>, src: map<nat, nat>, to: seq<Place>, w: nat, r: nat, k: nat, q: nat)
      requires Merging(row, rowinv, src, to, w, r, k, q) && (w == |was| || q == |f|)
      ensures Merged(row, rowinv, to, w)
    {
      hide MergeSorted, Logged, Tracked, Lists, DistinctIndices, IsInverse, OnlyGrown, PermutedBy, SortedByPivot, Among;
      Parts();
      Listed(f, out);
      var n := |was|;
      Unread(row, rowinv, src, to, w, r, k, q);
      Room(f, n, w, r, k, q);
      assert k == |f| && q == |f| && w == r;
      var left := From(r, n, out);
      forall j | r <= j < n ensures j !in out && j in left && row[j] == was[j] {
        NotListed(f, out, j);
      }
      var src' := src + Identity(left);
      assert toRow[q..] == [];
      assert Origins(wasinv, toRow[q..]) == {};
      assert Tracked(was, {}, {}, row, rowinv, src') by {
        KeepRows(was, {}, left, row, rowinv, src, left);
        assert left - left == {};
      }
      assert Upto(src', n);
      AllWritten(was, row, rowinv, src');
      LogSkip(was, out, f, toRow, to, row, r, q, n);
      LogDone(was, out, f, toRow, to, row, n, q);
      MergeDone(was, out, toRow, row, r, q);
    }

    lemma TakenRows(from: seq<Place>, to: seq<Place>)
      requires PassOver(this) && |from| == |to| == |f|
      requires forall i :: 0 <= i < |f| ==> from[i].row == was[f[i]] && to[i].row == toRow[i]
      ensures HasRowsOf(from, to)
    {
      hide Lists;
      forall t | 0 <= t < |to| ensures HasRow(from, to[t].row) {
        assert from[p[t]].row == to[t].row;
      }
    }

    lemma PutRows(from: seq<Place>, to: seq<Place>)
      requires PassOver(this) && |from| == |to| == |f|
      requires forall i :: 0 <= i < |f| ==> from[i].row == was[f[i]] && to[i].row == toRow[i]
      ensures HasRowsOf(to, from)
    {
      hide Lists;
      forall i | 0 <= i < |from| ensures HasRow(to, from[i].row) {
        var j := PermutedOnto(toRow, fromRows, p, i);
        assert to[j].row == from[i].row;
      }
    }

    lemma Result(from: seq<Place>, to: seq<Place>, row: seq<Row>, rowinv: seq<nat>, w: nat)
      requires PassOver(this) && Merged(row, rowinv, to, w)
      requires |from| == |f| && forall i :: 0 <= i < |f| ==> from[i] == Place(f[i], was[f[i]])
      ensures Recorded(was, Permutation(f[0], w, from, to))
      ensures row == PermuteRows(was, from, to)
      ensures |row| == |was| && DistinctIndices(row) && IsInverse(rowinv, row) && SortedByPivot(row) && Among(row, was)
    {
      hide Lists, HasRowsOf, Among, IsInverse, SortedByPivot, PermutedBy, DistinctIndices, OnlyGrown;
      TakenRows(from, to);
      PutRows(from, to);
      DistinctTo(to);
      DistinctFrom(from);
      KeysOfList(f, out, from);
      Listed(f, out);
      IsPermuted(was, row, from, to);
    }

    lemma DistinctTo(to: seq<Place>)
      requires PassOver(this) && |to| == |f|
      requires forall i :: 0 <= i < |f| ==> to[i].row == toRow[i]
      ensures DistinctRows(to)
    {
      ToRows();
    }

    lemma DistinctFrom(from: seq<Place>)
      requires PassOver(this) && |from| == |f|
      requires forall i :: 0 <= i < |f| ==> from[i].row == was[f[i]]
      ensures DistinctRows(from)
    {
      hide Lists, PermutedBy;
      Listed(f, out);
    }
  }

  lemma KeysOfList(f: seq<nat>, out: set<nat>, from: seq<Place>)
    requires Lists(f, out) && |from| == |f|
    requires forall i :: 0 <= i < |f| ==> from[i].at == f[i]
    ensures Keys(from) == out
  {
    hide Lists;
    Listed(f, out);
    forall c | c in out ensures c in Keys(from) {
      var i := ListIndex(f, out, c);
      assert from[i].at == c;
    }
  }
}
