/**
 * What `durationTransformation.Process` produces, stated as functions of the
 * input table: the column checks in the order the code makes them, and the
 * builder's columns once every row has been read.
 */
module DurationOutput {
  import opened Basics
  import opened Tables
  import opened DurationSpec

  function Abs(x: int): nat
  {
    if x < 0 then -x else x
  }

  /**
   * The quotient of `a` by `u` rounded toward zero: the effect of dividing as
   * floats and converting back with `int64(...)`.
   */
  function TruncDiv(a: int, u: int): (q: int)
    requires u != 0
    ensures (a >= 0) == (u > 0) ==> q >= 0
    ensures (a >= 0) != (u > 0) ==> q <= 0
  {
    // On naturals Dafny's division already rounds toward zero.
    var m: int := Abs(a) / Abs(u);
    if (a >= 0) == (u > 0) then m else -m
  }

  /** The quotient is the largest whole number of units that fits in `a`,
      with the sign of `a / u`. */
  lemma TruncDivBounds(a: int, u: int)
    requires u != 0
    ensures Abs(TruncDiv(a, u)) * Abs(u) <= Abs(a) < (Abs(TruncDiv(a, u)) + 1) * Abs(u)
  {
    var x, y := Abs(a), Abs(u);
    assert Abs(TruncDiv(a, u)) == x / y;
    assert x == (x / y) * y + x % y && 0 <= x % y < y;
    assert (x / y + 1) * y == (x / y) * y + y;
  }

  /** Values of column `j` of `rows`, top to bottom. */
  function Column(rows: seq<Row>, j: nat): (c: seq<Value>)
    requires forall i :: 0 <= i < |rows| ==> j < |rows[i]|
    ensures |c| == |rows| && forall i :: 0 <= i < |rows| ==> c[i] == rows[i][j]
  {
    seq(|rows|, i requires 0 <= i < |rows| => rows[i][j])
  }

  /** Rows whose column `j` holds a time. */
  predicate TimesAt(rows: seq<Row>, j: nat)
  {
    forall i :: 0 <= i < |rows| ==> j < |rows[i]| && rows[i][j].VTime?
  }

  /** The times in column `j` of `rows` (`ColReader.Times`). */
  function TimesOf(rows: seq<Row>, j: nat): (ts: seq<int>)
    requires TimesAt(rows, j)
    ensures |ts| == |rows| && forall i :: 0 <= i < |rows| ==> rows[i][j] == VTime(ts[i])
  {
    seq(|rows|, i requires 0 <= i < |rows| => rows[i][j].t)
  }

  function Ints(xs: seq<int>): (vs: seq<Value>)
    ensures |vs| == |xs| && forall k :: 0 <= k < |xs| ==> vs[k] == VInt(xs[k])
  {
    seq(|xs|, k requires 0 <= k < |xs| => VInt(xs[k]))
  }

  /** The durations known once the rows with times `ts` have been read: one
      per pair of consecutive rows, each appended as the later row is read. */
  function Gaps(ts: seq<int>, unit: int): (g: seq<int>)
    requires unit != 0
    ensures |g| == if |ts| == 0 then 0 else |ts| - 1
  {
    if |ts| <= 1 then []
    else Gaps(ts[..|ts| - 1], unit) + [TruncDiv(ts[|ts| - 1] - ts[|ts| - 2], unit)]
  }

  /** The duration column: the gaps, then the time from the last row to
      `stop`, appended once no row is left. */
  function Durations(ts: seq<int>, stop: int, unit: int): (d: seq<int>)
    requires unit != 0
    ensures |d| == |ts|
  {
    if |ts| == 0 then [] else Gaps(ts, unit) + [TruncDiv(stop - ts[|ts| - 1], unit)]
  }

  /** Each gap measures a row against the next one. */
  lemma {:induction false} GapsAt(ts: seq<int>, unit: int)
    requires unit != 0
    ensures forall k :: 0 <= k < |ts| - 1 ==> Gaps(ts, unit)[k] == TruncDiv(ts[k + 1] - ts[k], unit)
    decreases |ts|
  {
    if |ts| > 1 {
      var front := ts[..|ts| - 1];
      GapsAt(front, unit);
      forall k | 0 <= k < |ts| - 2 ensures Gaps(ts, unit)[k] == TruncDiv(ts[k + 1] - ts[k], unit) {
        assert front[k + 1] == ts[k + 1] && front[k] == ts[k];
      }
    }
  }

  /** The reference description of the duration column, row by row: the
      time to the next row, or to `stop` for the last row, in units. */
  lemma DurationsAt(ts: seq<int>, stop: int, unit: int)
    requires unit != 0
    ensures forall k :: 0 <= k < |ts| ==>
              Durations(ts, stop, unit)[k] == TruncDiv((if k + 1 < |ts| then ts[k + 1] else stop) - ts[k], unit)
  {
    if |ts| > 0 {
      GapsAt(ts, unit);
    }
  }

  /** Reading one more row adds the gap between it and the previous row. */
  lemma GapsSnoc(ts: seq<int>, t: int, unit: int)
    requires unit != 0
    ensures |ts| == 0 ==> Gaps(ts + [t], unit) == []
    ensures |ts| > 0 ==> Gaps(ts + [t], unit) == Gaps(ts, unit) + [TruncDiv(t - ts[|ts| - 1], unit)]
  {
    assert (ts + [t])[..|ts|] == ts;
  }

  lemma ColumnSnoc(rows: seq<Row>, row: Row, j: nat)
    requires forall i :: 0 <= i < |rows| ==> j < |rows[i]|
    requires j < |row|
    ensures Column(rows + [row], j) == Column(rows, j) + [row[j]]
  {
    var rs := rows + [row];
    assert forall i :: 0 <= i < |rows| ==> rs[i] == rows[i];
  }

  lemma TimesSnoc(rows: seq<Row>, row: Row, j: nat)
    requires TimesAt(rows, j) && j < |row| && row[j].VTime?
    ensures TimesAt(rows + [row], j)
    ensures TimesOf(rows + [row], j) == TimesOf(rows, j) + [row[j].t]
  {
    var rs := rows + [row];
    assert forall i :: 0 <= i < |rows| ==> rs[i] == rows[i];
    assert rs[|rows|] == [row][0];
  }

  lemma IntsSnoc(xs: seq<int>, x: int)
    ensures Ints(xs + [x]) == Ints(xs) + [VInt(x)]
  {
  }

  /**
   * The checks `Process` makes before reading any row, in its order: the
   * builder refuses a repeated column name of the table, then the time
   * column must exist, then (without an explicit stop) the stop column must
   * exist and hold times, and last the builder refuses the new column's
   * name if the table already has it.
   */
  function CheckColumns(cols: seq<ColMeta>, timeColumn: string, columnName: string,
                        stopColumn: string, isStop: bool): (r: Option<Error>)
    ensures r.None? <==>
              && Distinct(cols)
              && HasLabel(cols, timeColumn)
              && (!isStop ==> HasLabel(cols, stopColumn) && cols[ColIdx(stopColumn, cols)].ty == TTime)
              && !HasLabel(cols, columnName)
    ensures r.Some? ==> CodeOf(r.value) == FailedPrecondition || r.value.BuilderFailed?
  {
    if !Distinct(cols) then Some(BuilderFailed(DuplicateColumn(cols[FirstRepeat(cols)].name)))
    else if !HasLabel(cols, timeColumn) then Some(MissingColumn(timeColumn))
    else if !isStop && !HasLabel(cols, stopColumn) then Some(MissingColumn(stopColumn))
    else if !isStop && cols[ColIdx(stopColumn, cols)].ty != TTime then
      Some(StopColumnNotTime(stopColumn, cols[ColIdx(stopColumn, cols)].ty))
    else if HasLabel(cols, columnName) then Some(BuilderFailed(DuplicateColumn(columnName)))
    else None
  }

  /** With an explicit stop the stop column is never consulted. */
  lemma StopColumnIgnored(cols: seq<ColMeta>, timeColumn: string, columnName: string, s1: string, s2: string)
    ensures CheckColumns(cols, timeColumn, columnName, s1, true) == CheckColumns(cols, timeColumn, columnName, s2, true)
  {
  }

  /** A missing time column is reported before anything about the stop column. */
  lemma MissingTimeFirst(cols: seq<ColMeta>, timeColumn: string, columnName: string, stopColumn: string, isStop: bool)
    requires Distinct(cols) && !HasLabel(cols, timeColumn)
    ensures CheckColumns(cols, timeColumn, columnName, stopColumn, isStop) == Some(MissingColumn(timeColumn))
  {
  }

  /** The columns of the output: the table's, then the integer duration column. */
  function OutputCols(cols: seq<ColMeta>, columnName: string): (out: seq<ColMeta>)
    ensures |out| == |cols| + 1 && out[..|cols|] == cols && out[|cols|] == ColMeta(columnName, TInt)
  {
    cols + [ColMeta(columnName, TInt)]
  }

  /** The stop time of the last row: `stop` when given, otherwise the stop
      column's value in the last row of the last buffer. */
  function StopTime(tbl: Table, isStop: bool, stop: int, stopColumn: string): (r: int)
    requires WellFormed(tbl)
    requires !isStop ==> HasLabel(tbl.cols, stopColumn) && tbl.cols[ColIdx(stopColumn, tbl.cols)].ty == TTime
    requires !isStop ==> forall b :: 0 <= b < |tbl.buffers| ==> |tbl.buffers[b]| > 0
    ensures isStop ==> r == stop
    ensures !isStop && |tbl.buffers| > 0 ==>
              var rows := Flatten(tbl.buffers);
              |rows| > 0 && RowFits(rows[|rows| - 1], tbl.cols) &&
              rows[|rows| - 1][ColIdx(stopColumn, tbl.cols)] == VTime(r)
  {
    if isStop then stop
    else if |tbl.buffers| == 0 then 0
    else
      FlattenLast(tbl.buffers);
      var last: seq<Row> := tbl.buffers[|tbl.buffers| - 1];
      var v: Value := last[|last| - 1][ColIdx(stopColumn, tbl.cols)];
      v.t
  }

  /**
   * The builder's columns after a successful `Process`: each of the table's
   * columns with every row's value in reading order, and the duration column.
   */
  function OutputColumns(tbl: Table, timeIdx: nat, stopTime: int, unit: int): (out: seq<seq<Value>>)
    requires WellFormed(tbl) && unit != 0
    requires timeIdx < |tbl.cols| && tbl.cols[timeIdx].ty == TTime
    ensures |out| == |tbl.cols| + 1
  {
    var rows := Flatten(tbl.buffers);
    FlattenFits(tbl);
    seq(|tbl.cols|, j requires 0 <= j < |tbl.cols| => Column(rows, j)) +
    [Ints(Durations(TimesOf(rows, timeIdx), stopTime, unit))]
  }

  /** The columns of `OutputColumns` one by one. */
  lemma OutputColumnsAt(tbl: Table, timeIdx: nat, stopTime: int, unit: int)
    requires WellFormed(tbl) && unit != 0
    requires timeIdx < |tbl.cols| && tbl.cols[timeIdx].ty == TTime
    ensures forall i :: 0 <= i < |Flatten(tbl.buffers)| ==> |Flatten(tbl.buffers)[i]| == |tbl.cols|
    ensures TimesAt(Flatten(tbl.buffers), timeIdx)
    ensures forall j :: 0 <= j < |tbl.cols| ==>
              OutputColumns(tbl, timeIdx, stopTime, unit)[j] == Column(Flatten(tbl.buffers), j)
    ensures OutputColumns(tbl, timeIdx, stopTime, unit)[|tbl.cols|] ==
            Ints(Durations(TimesOf(Flatten(tbl.buffers), timeIdx), stopTime, unit))
  {
    FlattenFits(tbl);
  }

  // ----- Properties of the duration column -----

  function Sum(xs: seq<int>): int
  {
    if |xs| == 0 then 0 else Sum(xs[..|xs| - 1]) + xs[|xs| - 1]
  }

  lemma TruncDivByOne(a: int)
    ensures TruncDiv(a, 1) == a
  {
  }

  /** With a unit of one nanosecond the gaps add up to the time from the
      first row to the last. */
  lemma {:induction false} GapsTelescope(ts: seq<int>)
    requires |ts| > 0
    ensures Sum(Gaps(ts, 1)) == ts[|ts| - 1] - ts[0]
    decreases |ts|
  {
    if |ts| > 1 {
      var front := ts[..|ts| - 1];
      GapsTelescope(front);
      var g := Gaps(ts, 1);
      assert g[..|g| - 1] == Gaps(front, 1);
      TruncDivByOne(ts[|ts| - 1] - ts[|ts| - 2]);
    }
  }

  /** With a unit of one nanosecond the durations add up to the time from
      the first row to the stop time. */
  lemma DurationsTelescope(ts: seq<int>, stop: int)
    requires |ts| > 0
    ensures Sum(Durations(ts, stop, 1)) == stop - ts[0]
  {
    GapsTelescope(ts);
    var d := Durations(ts, stop, 1);
    assert d[..|d| - 1] == Gaps(ts, 1);
    TruncDivByOne(stop - ts[|ts| - 1]);
  }

  /** Rows in time order, ending no later than the stop time, give no
      negative duration for a positive unit. */
  lemma DurationsNonNegative(ts: seq<int>, stop: int, unit: int)
    requires unit > 0
    requires forall k :: 0 <= k < |ts| - 1 ==> ts[k] <= ts[k + 1]
    requires |ts| > 0 ==> ts[|ts| - 1] <= stop
    ensures forall k :: 0 <= k < |ts| ==> Durations(ts, stop, unit)[k] >= 0
  {
    DurationsAt(ts, stop, unit);
    forall k | 0 <= k < |ts| ensures Durations(ts, stop, unit)[k] >= 0 {
      var next := if k + 1 < |ts| then ts[k + 1] else stop;
      assert next - ts[k] >= 0;
      assert Durations(ts, stop, unit)[k] == TruncDiv(next - ts[k], unit);
    }
  }

  /** The first row of a buffer is measured against the last row of the
      buffer before it. */
  lemma AcrossBuffers(buffers: seq<seq<Row>>, j: nat, stopTime: int, unit: int, b: nat)
    requires unit != 0 && TimesAt(Flatten(buffers), j)
    requires 0 < b < |buffers| && |buffers[b - 1]| > 0 && |buffers[b]| > 0
    requires TimesAt(buffers[b - 1], j) && TimesAt(buffers[b], j)
    ensures var prev := buffers[b - 1];
            var p := |Flatten(buffers[..b])| - 1;
            0 <= p < |Flatten(buffers)| &&
            Durations(TimesOf(Flatten(buffers), j), stopTime, unit)[p] ==
              TruncDiv(TimesOf(buffers[b], j)[0] - TimesOf(prev, j)[|prev| - 1], unit)
  {
    var prev := buffers[b - 1];
    var rows := Flatten(buffers);
    var p := |Flatten(buffers[..b])| - 1;
    BufferSeam(buffers, b);
    var ts := TimesOf(rows, j);
    assert rows[p][j] == VTime(ts[p]) && prev[|prev| - 1][j] == VTime(TimesOf(prev, j)[|prev| - 1]);
    assert rows[p + 1][j] == VTime(ts[p + 1]) && buffers[b][0][j] == VTime(TimesOf(buffers[b], j)[0]);
    DurationBeforeNext(ts, stopTime, unit, p);
  }

  /** Where two neighbouring buffers meet in the flattened rows: the last row
      of buffer `b - 1` is followed by the first row of buffer `b`. */
  lemma BufferSeam(buffers: seq<seq<Row>>, b: nat)
    requires 0 < b < |buffers| && |buffers[b - 1]| > 0 && |buffers[b]| > 0
    ensures var p := |Flatten(buffers[..b])| - 1;
            0 <= p && p + 1 < |Flatten(buffers)| &&
            Flatten(buffers)[p] == buffers[b - 1][|buffers[b - 1]| - 1] &&
            Flatten(buffers)[p + 1] == buffers[b][0]
  {
    var prev := buffers[b - 1];
    FlattenAt(buffers, b, 0);
    FlattenAt(buffers, b - 1, |prev| - 1);
    FlattenSnoc(buffers, b - 1);
  }

  /** Duration `k` of a row that has a successor is the gap to it. */
  lemma DurationBeforeNext(ts: seq<int>, stop: int, unit: int, k: nat)
    requires unit != 0 && k + 1 < |ts|
    ensures Durations(ts, stop, unit)[k] == TruncDiv(ts[k + 1] - ts[k], unit)
  {
    DurationsAt(ts, stop, unit);
  }

  /** A table without rows gets an empty duration column. */
  lemma NoRowsNoDurations(tbl: Table, timeIdx: nat, stopTime: int, unit: int)
    requires WellFormed(tbl) && unit != 0
    requires timeIdx < |tbl.cols| && tbl.cols[timeIdx].ty == TTime
    requires forall b :: 0 <= b < |tbl.buffers| ==> |tbl.buffers[b]| == 0
    ensures OutputColumns(tbl, timeIdx, stopTime, unit)[|tbl.cols|] == []
  {
    NoRowsFlatten(tbl.buffers);
  }

  lemma {:induction false} NoRowsFlatten(buffers: seq<seq<Row>>)
    requires forall b :: 0 <= b < |buffers| ==> |buffers[b]| == 0
    ensures Flatten(buffers) == []
    decreases |buffers|
  {
    if |buffers| > 0 {
      NoRowsFlatten(buffers[..|buffers| - 1]);
    }
  }
}
