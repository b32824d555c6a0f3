/** Replaying a recorded permutation of the row order in either direction (src/bit_matrix.cpp). */
module Replays {
  import opened RowOrders

  // ---- replaying a permutation ----

  /** `at` splits the places into the first `q`, before `w`, and the others, from `w` on. */
  ghost predicate Split(l: seq<Place>, w: int, q: int) {
    && 0 <= q <= |l|
    && (forall i :: 0 <= i < q ==> l[i].at < w)
    && (forall i :: q <= i < |l| ==> w <= l[i].at)
  }

  /** With `w` and `r` between the same number of places, row `r` moves to `w`. */
  lemma MovesTo(was: seq<Row>, from: seq<Place>, to: seq<Place>, w: nat, r: nat, k: nat, q: nat)
    requires Moves(was, from, to) && w < |was| && r < |was|
    requires Split(from, r, k) && (k < |from| ==> from[k].at != r)
    requires Split(to, w, q) && (q < |to| ==> to[q].at != w)
    requires w - q == r - k
    ensures |PermuteRows(was, from, to)| == |was|
    ensures PermuteRows(was, from, to)[w] == was[r]
  {
    CountPlaces(from, r, k);
    CountPlaces(to, w, q);
    NotKey(from, r, k);
    NotKey(to, w, q);
    SamePlace(was, from, to, w, r);
  }

  lemma NotKey(l: seq<Place>, w: nat, q: nat)
    requires AscendingKeys(l) && Split(l, w, q) && (q < |l| ==> l[q].at != w)
    ensures w !in Keys(l)
  {
    forall i | 0 <= i < |l| ensures l[i].at != w {
      if i > q {
        assert l[q].at < l[i].at;
      }
    }
  }

  /** The rows at `done` are final, and the inverse map is final there and wherever nothing changes. */
  ghost predicate Settled(was: seq<Row>, target: seq<Row>, row: seq<Row>, rowinv: seq<nat>, lo: int, hi: int)
  {
    && |row| == |rowinv| == |target| == |was|
    && DistinctIndices(target) && (forall i :: 0 <= i < |target| ==> target[i].index < |target|)
    && (forall j :: lo <= j < hi && 0 <= j < |row| ==> row[j] == target[j])
    && (forall j :: 0 <= j < |row| && (lo <= j < hi || was[j] == target[j]) ==> rowinv[target[j].index] == j)
  }

  /** Between two places rows stay where they are. */
  lemma StayPut(was: seq<Row>, from: seq<Place>, to: seq<Place>, lo: nat, hi: nat, k: nat)
    requires Moves(was, from, to) && lo <= hi <= |was|
    requires Split(from, lo, k) && Split(to, lo, k)
    requires k < |from| ==> hi <= from[k].at && hi <= to[k].at
    ensures |PermuteRows(was, from, to)| == |was|
    ensures forall j :: lo <= j < hi ==> PermuteRows(was, from, to)[j] == was[j]
  {
    hide HasRowsOf, PermuteRows;
    PermuteParts(was, from, to);
    forall j | lo <= j < hi ensures PermuteRows(was, from, to)[j] == was[j] {
      assert forall i :: k <= i < |from| ==> from[k].at <= from[i].at && to[k].at <= to[i].at;
      MovesTo(was, from, to, j, j, k, k);
    }
  }

  lemma SettleMore(was: seq<Row>, target: seq<Row>, row: seq<Row>, rowinv: seq<nat>, lo: int, hi: int, lo': int, hi': int)
    requires Settled(was, target, row, rowinv, lo, hi) && lo' <= lo && hi <= hi'
    requires forall j :: (lo' <= j < lo || hi <= j < hi') && 0 <= j < |row| ==> row[j] == was[j] == target[j]
    ensures Settled(was, target, row, rowinv, lo', hi')
  {
  }

  /** Once all rows are final, so is the inverse map. */
  lemma AllSettled(was: seq<Row>, target: seq<Row>, row: seq<Row>, rowinv: seq<nat>)
    requires Settled(was, target, row, rowinv, 0, |was|)
    ensures row == target && IsInverse(rowinv, row)
  {
  }

  /** Some row is left to move up as long as a place is left to fill. */
  lemma RoomAbove(from: seq<Place>, to: seq<Place>, n: nat, w: nat, r: nat, k: nat, q: nat)
    requires |from| == |to| && AscendingKeys(to) && q < |to| && w + (k - q) == r <= n
    requires forall i :: 0 <= i < |from| ==> from[i].at < n && to[i].at < n
    requires Split(from, r, k) && Split(to, w, q) && to[q].at != w
    ensures r < n
  {
    if r == n {
      NoneLeft(from, n, k);
      PlacesGap(to, q, |to| - 1);
    }
  }

  lemma PlacesOf(row: seq<Row>, from: seq<Place>, to: seq<Place>)
    requires Moves(row, from, to)
    ensures |from| == |to| && AscendingKeys(from) && AscendingKeys(to)
    ensures forall i :: 0 <= i < |from| ==> from[i].at < |row| && to[i].at < |row|
  {
  }

  lemma NoneLeft(l: seq<Place>, n: nat, k: nat)
    requires Split(l, n, k)
    requires l != [] ==> l[|l| - 1].at < n
    ensures k == |l|
  {
  }

  lemma NoneLeftBelow(l: seq<Place>, w: int, q: int)
    requires Split(l, w + 1, q)
    requires l != [] ==> w < l[0].at
    ensures q == 0
  {
  }

  lemma RoomBelow(from: seq<Place>, to: seq<Place>, w: int, r: int, k: nat, q: nat)
    requires AscendingKeys(from) && 0 < q <= |from| && w - (q - k) == r >= -1
    requires Split(to, r + 1, k) && Split(from, w + 1, q) && from[q - 1].at != w
    ensures r >= 0
  {
    PlacesGap(from, 0, q - 1);
    if r == -1 && k > 0 {
      assert to[0].at < r + 1;
    }
  }

  lemma {:induction false} PlacesGap(l: seq<Place>, i: nat, j: nat)
    requires AscendingKeys(l) && i <= j < |l|
    ensures l[i].at + (j - i) <= l[j].at
  {
    if i < j {
      PlacesGap(l, i, j - 1);
    }
  }

  lemma SettleUp(was: seq<Row>, target: seq<Row>, row: seq<Row>, rowinv: seq<nat>, w: nat)
    requires w < |was| && Settled(was, target, row, rowinv, 0, w)
    ensures target[w].index < |rowinv|
    ensures Settled(was, target, row[w := target[w]], rowinv[target[w].index := w], 0, w + 1)
  {
  }

  lemma SettleDown(was: seq<Row>, target: seq<Row>, row: seq<Row>, rowinv: seq<nat>, w: nat)
    requires w < |was| && Settled(was, target, row, rowinv, w + 1, |was|)
    ensures target[w].index < |rowinv|
    ensures Settled(was, target, row[w := target[w]], rowinv[target[w].index := w], w, |was|)
  {
  }

  lemma SettleStart(was: seq<Row>, wasinv: seq<nat>, from: seq<Place>, to: seq<Place>)
    requires Moves(was, from, to) && DistinctIndices(was) && IsInverse(wasinv, was)
    ensures Settled(was, PermuteRows(was, from, to), was, wasinv, 0, 0)
    ensures Settled(was, PermuteRows(was, from, to), was, wasinv, |was|, |was|)
  {
    PermuteKeeps(was, from, to);
    var target := PermuteRows(was, from, to);
    forall i | 0 <= i < |target| ensures target[i].index < |target| {
      assert target[i] in was;
    }
  }

  /** The way forward: rows before `w` are final, rows from `r` on are unread. */
  ghost predicate GoingUp(was: seq<Row>, from: seq<Place>, to: seq<Place>, row: seq<Row>, rowinv: seq<nat>,
                          w: int, r: int, k: int, q: int) {
    && Moves(was, from, to) && Later(from, to)
    && |row| == |rowinv| == |was|
    && 0 <= w && 0 <= q <= k <= |from| && w + (k - q) == r <= |was|
    && Split(from, r, k) && Split(to, w, q)
    && (forall j :: r <= j < |was| ==> row[j] == was[j])
    && Settled(was, PermuteRows(was, from, to), row, rowinv, 0, w)
  }

  lemma UpStart(was: seq<Row>, wasinv: seq<nat>, from: seq<Place>, to: seq<Place>)
    requires Moves(was, from, to) && Later(from, to) && from != []
    requires DistinctIndices(was) && IsInverse(wasinv, was)
    ensures GoingUp(was, from, to, was, wasinv, from[0].at, from[0].at, 0, 0)
  {
    hide Moves, Settled, PermuteRows, DistinctIndices;
    PlacesOf(was, from, to);
    SettleStart(was, wasinv, from, to);
    StayPut(was, from, to, 0, from[0].at, 0);
    SettleMore(was, PermuteRows(was, from, to), was, wasinv, 0, 0, 0, from[0].at);
  }

  lemma UpSkip(was: seq<Row>, from: seq<Place>, to: seq<Place>, row: seq<Row>, rowinv: seq<nat>, r: nat, k: nat)
    requires GoingUp(was, from, to, row, rowinv, r, r, k, k) && k < |from|
    ensures GoingUp(was, from, to, row, rowinv, from[k].at, from[k].at, k, k)
  {
    hide Moves, Settled, PermuteRows;
    PlacesOf(was, from, to);
    StayPut(was, from, to, r, from[k].at, k);
    SettleMore(was, PermuteRows(was, from, to), row, rowinv, 0, r, 0, from[k].at);
  }

  lemma UpTake(was: seq<Row>, from: seq<Place>, to: seq<Place>, row: seq<Row>, rowinv: seq<nat>,
               w: nat, r: nat, k: nat, q: nat)
    requires GoingUp(was, from, to, row, rowinv, w, r, k, q) && k < |from| && r == from[k].at
    ensures GoingUp(was, from, to, row, rowinv, w, r + 1, k + 1, q)
  {
    hide HasRowsOf, Settled, PermuteRows;
  }

  lemma UpPut(was: seq<Row>, from: seq<Place>, to: seq<Place>, row: seq<Row>, rowinv: seq<nat>,
              w: nat, r: nat, k: nat, q: nat)
    requires GoingUp(was, from, to, row, rowinv, w, r, k, q) && q < k && w == to[q].at
    ensures to[q].row.index < |was|
    ensures GoingUp(was, from, to, row[w := to[q].row], rowinv[to[q].row.index := w], w + 1, r, k, q + 1)
  {
    hide HasRowsOf, Settled, PermuteRows;
    PermuteParts(was, from, to);
    SettleUp(was, PermuteRows(was, from, to), row, rowinv, w);
  }

  lemma UpMove(was: seq<Row>, from: seq<Place>, to: seq<Place>, row: seq<Row>, rowinv: seq<nat>,
               w: nat, r: nat, k: nat, q: nat)
    requires GoingUp(was, from, to, row, rowinv, w, r, k, q) && q < k && w != to[q].at
    requires k < |from| ==> r != from[k].at
    ensures r < |was| && row[r].index < |was|
    ensures GoingUp(was, from, to, row[w := row[r]], rowinv[row[r].index := w], w + 1, r + 1, k, q)
  {
    hide Moves, Settled, PermuteRows;
    PlacesOf(was, from, to);
    RoomAbove(from, to, |was|, w, r, k, q);
    MovesTo(was, from, to, w, r, k, q);
    SettleUp(was, PermuteRows(was, from, to), row, rowinv, w);
  }

  lemma UpFacts(was: seq<Row>, from: seq<Place>, to: seq<Place>, row: seq<Row>, rowinv: seq<nat>,
                w: nat, r: nat, k: nat, q: nat)
    requires GoingUp(was, from, to, row, rowinv, w, r, k, q)
    ensures |row| == |rowinv| == |was| && |from| == |to| && w + (k - q) == r && q <= k <= |from|
    ensures Split(to, w, q)
    ensures q < |to| ==> w <= to[q].at < |was|
    ensures q > 0 ==> to[q - 1].at < w
    ensures k < |from| ==> from[k].at <= to[k].at && r <= from[k].at
  {
  }

  lemma UpDone(was: seq<Row>, from: seq<Place>, to: seq<Place>, row: seq<Row>, rowinv: seq<nat>, w: nat, r: nat, k: nat)
    requires GoingUp(was, from, to, row, rowinv, w, r, k, |to|)
    ensures row == PermuteRows(was, from, to) && IsInverse(rowinv, row)
  {
    hide Moves, Settled, PermuteRows;
    PlacesOf(was, from, to);
    StayPut(was, from, to, w, |was|, k);
    SettleMore(was, PermuteRows(was, from, to), row, rowinv, 0, w, 0, |was|);
    AllSettled(was, PermuteRows(was, from, to), row, rowinv);
  }

  /** The way back: rows after `w` are final, rows up to `r` are unread. */
  ghost predicate GoingDown(was: seq<Row>, from: seq<Place>, to: seq<Place>, row: seq<Row>, rowinv: seq<nat>,
                            w: int, r: int, k: int, q: int) {
    && Moves(was, to, from) && Later(from, to)
    && |row| == |rowinv| == |was|
    && w < |was| && 0 <= k <= q <= |from| && w - (q - k) == r >= -1
    && Split(to, r + 1, k) && Split(from, w + 1, q)
    && (forall j :: 0 <= j <= r ==> row[j] == was[j])
    && Settled(was, PermuteRows(was, to, from), row, rowinv, w + 1, |was|)
  }

  lemma DownStart(was: seq<Row>, wasinv: seq<nat>, from: seq<Place>, to: seq<Place>)
    requires Moves(was, to, from) && Later(from, to) && from != []
    requires DistinctIndices(was) && IsInverse(wasinv, was)
    ensures GoingDown(was, from, to, was, wasinv, to[|to| - 1].at, to[|to| - 1].at, |to|, |to|)
  {
    hide Moves, Settled, PermuteRows, DistinctIndices;
    PlacesOf(was, to, from);
    SettleStart(was, wasinv, to, from);
    var w := to[|to| - 1].at;
    AllBefore(from, to, |to|, w + 1);
    StayPut(was, to, from, w + 1, |was|, |to|);
    SettleMore(was, PermuteRows(was, to, from), was, wasinv, |was|, |was|, w + 1, |was|);
  }

  lemma AllBefore(from: seq<Place>, to: seq<Place>, k: nat, w: nat)
    requires AscendingKeys(from) && AscendingKeys(to) && Later(from, to) && k <= |to|
    requires k > 0 ==> to[k - 1].at < w
    ensures forall i :: 0 <= i < k ==> from[i].at < w && to[i].at < w
  {
    forall i | 0 <= i < k ensures from[i].at < w && to[i].at < w {
      if i < k - 1 {
        assert to[i].at < to[k - 1].at;
      }
    }
  }

  lemma DownSkip(was: seq<Row>, from: seq<Place>, to: seq<Place>, row: seq<Row>, rowinv: seq<nat>, r: int, k: int)
    requires GoingDown(was, from, to, row, rowinv, r, r, k, k) && k > 0
    ensures GoingDown(was, from, to, row, rowinv, to[k - 1].at, to[k - 1].at, k, k)
  {
    hide Moves, Settled, PermuteRows;
    PlacesOf(was, to, from);
    AllBefore(from, to, k, to[k - 1].at + 1);
    StayPut(was, to, from, to[k - 1].at + 1, r + 1, k);
    SettleMore(was, PermuteRows(was, to, from), row, rowinv, r + 1, |was|, to[k - 1].at + 1, |was|);
  }

  lemma DownTake(was: seq<Row>, from: seq<Place>, to: seq<Place>, row: seq<Row>, rowinv: seq<nat>,
                 w: int, r: int, k: int, q: int)
    requires GoingDown(was, from, to, row, rowinv, w, r, k, q) && k > 0 && r == to[k - 1].at
    ensures GoingDown(was, from, to, row, rowinv, w, r - 1, k - 1, q)
  {
    hide Moves, Settled, PermuteRows;
    PlacesOf(was, to, from);
  }

  lemma DownPut(was: seq<Row>, from: seq<Place>, to: seq<Place>, row: seq<Row>, rowinv: seq<nat>,
                w: int, r: int, k: int, q: int)
    requires GoingDown(was, from, to, row, rowinv, w, r, k, q) && k < q && w == from[q - 1].at
    ensures from[q - 1].row.index < |was|
    ensures GoingDown(was, from, to, row[w := from[q - 1].row], rowinv[from[q - 1].row.index := w], w - 1, r, k, q - 1)
  {
    hide Moves, Settled, PermuteRows;
    PlacesOf(was, to, from);
    PermuteParts(was, to, from);
    SettleDown(was, PermuteRows(was, to, from), row, rowinv, w);
  }

  lemma DownMove(was: seq<Row>, from: seq<Place>, to: seq<Place>, row: seq<Row>, rowinv: seq<nat>,
                 w: int, r: int, k: int, q: int)
    requires GoingDown(was, from, to, row, rowinv, w, r, k, q) && k < q && w != from[q - 1].at
    requires k > 0 ==> r != to[k - 1].at
    ensures 0 <= r < w && row[r].index < |was|
    ensures GoingDown(was, from, to, row[w := row[r]], rowinv[row[r].index := w], w - 1, r - 1, k, q)
  {
    hide Moves, Settled, PermuteRows;
    PlacesOf(was, to, from);
    RoomBelow(from, to, w, r, k, q);
    SplitBefore(to, r, k);
    SplitBefore(from, w, q);
    MovesTo(was, to, from, w, r, k, q);
    SettleDown(was, PermuteRows(was, to, from), row, rowinv, w);
  }

  lemma SplitBefore(l: seq<Place>, w: int, q: int)
    requires Split(l, w + 1, q) && AscendingKeys(l) && (q > 0 ==> l[q - 1].at != w)
    ensures Split(l, w, q) && (q < |l| ==> l[q].at != w)
  {
    forall i | 0 <= i < q ensures l[i].at < w {
      if i < q - 1 {
        assert l[i].at < l[q - 1].at;
      }
    }
  }

  lemma DownFacts(was: seq<Row>, from: seq<Place>, to: seq<Place>, row: seq<Row>, rowinv: seq<nat>,
                  w: int, r: int, k: int, q: int)
    requires GoingDown(was, from, to, row, rowinv, w, r, k, q)
    ensures |row| == |rowinv| == |was| && |from| == |to| && w - (q - k) == r >= -1 && 0 <= k <= q <= |from| && w < |was|
    ensures Split(from, w + 1, q)
    ensures q > 0 ==> from[q - 1].at <= w
    ensures k > 0 ==> to[k - 1].at <= r
  {
  }

  lemma DownDone(was: seq<Row>, from: seq<Place>, to: seq<Place>, row: seq<Row>, rowinv: seq<nat>, w: int, r: int)
    requires GoingDown(was, from, to, row, rowinv, w, r, 0, 0)
    ensures row == PermuteRows(was, to, from) && IsInverse(rowinv, row)
  {
    hide Moves, Settled, PermuteRows;
    PlacesOf(was, to, from);
    StayPut(was, to, from, 0, w + 1, 0);
    SettleMore(was, PermuteRows(was, to, from), row, rowinv, w + 1, |was|, 0, |was|);
    AllSettled(was, PermuteRows(was, to, from), row, rowinv);
  }

  /** The backward replay ends below the first place, or when everything is written. */
  lemma DownEnd(was: seq<Row>, from: seq<Place>, to: seq<Place>, row: seq<Row>, rowinv: seq<nat>,
                w: int, r: int, k: int, q: int, start: int)
    requires GoingDown(was, from, to, row, rowinv, w, r, k, q) && (w == start - 1 || q == 0)
    requires from != [] ==> start <= from[0].at
    requires DistinctIndices(was)
    ensures row == PermuteRows(was, to, from) && |row| == |was| && IsInverse(rowinv, row)
    ensures DistinctIndices(row) && Among(row, was)
  {
    hide Moves, Settled, PermuteRows, DistinctIndices, Among, Later;
    if w == start - 1 {
      NoneLeftBelow(from, w, q);
    }
    DownDone(was, from, to, row, rowinv, w, r);
    PermuteKeeps(was, to, from);
  }
}
