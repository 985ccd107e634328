/**
 * The running `events.duration` transformation: for each incoming table it
 * claims a builder for the table's group key, copies the table's columns,
 * and appends to each row the time until the next row (or until the stop
 * time for the last row), in units.
 */
module DurationProcess {
  import opened Basics
  import opened Tables
  import opened DurationSpec
  import opened DurationOutput

  /** `durationTransformation`; the dataset it forwards to is not modelled. */
  class DurationTransformation {
    const cache: TableBuilderCache
    const unit: int
    const timeColumn: string
    const columnName: string
    const stopColumn: string
    const stop: int
    const isStop: bool

    /** The fields carry those of `s`; the stop time is its absolute part. */
    predicate FromSpec(s: DurationProcedureSpec)
    {
      unit == s.unit && timeColumn == s.timeColumn && columnName == s.columnName &&
      stopColumn == s.stopColumn && stop == s.stop.absolute && isStop == s.isStop
    }

    /** `NewDurationTransformation`. */
    constructor(cache: TableBuilderCache, s: DurationProcedureSpec)
      ensures this.cache == cache && FromSpec(s)
    {
      this.cache := cache;
      unit := s.unit;
      timeColumn := s.timeColumn;
      columnName := s.columnName;
      stopColumn := s.stopColumn;
      stop := s.stop.absolute;
      isStop := s.isStop;
    }

    /**
     * `Process`. A group key seen before is refused and nothing changes;
     * otherwise the key gets a new builder, the column checks are made in
     * order, and on success the builder holds the table's columns with all
     * rows in reading order plus the duration column.
     */
    method Process(tbl: Table) returns (r: Option<Error>)
      requires unit != 0
      requires WellFormed(tbl)
      requires HasLabel(tbl.cols, timeColumn) ==> tbl.cols[ColIdx(timeColumn, tbl.cols)].ty == TTime
      requires !isStop ==> forall b :: 0 <= b < |tbl.buffers| ==> |tbl.buffers[b]| > 0
      modifies cache
      ensures tbl.key in old(cache.builders) ==>
                r == Some(DuplicateTable(tbl.key)) && cache.builders == old(cache.builders)
      ensures tbl.key !in old(cache.builders) ==>
                && tbl.key in cache.builders
                && fresh(cache.builders[tbl.key])
                && cache.builders == old(cache.builders)[tbl.key := cache.builders[tbl.key]]
                && r == CheckColumns(tbl.cols, timeColumn, columnName, stopColumn, isStop)
      ensures tbl.key !in old(cache.builders) && r.None? ==>
                && cache.builders[tbl.key].cols == OutputCols(tbl.cols, columnName)
                && cache.builders[tbl.key].columns ==
                   OutputColumns(tbl, ColIdx(timeColumn, tbl.cols), StopTime(tbl, isStop, stop, stopColumn), unit)
    {
      var builder, created := cache.TableBuilder(tbl.key);
      if !created {
        return Some(DuplicateTable(tbl.key));
      }
      var cols := tbl.cols;
      var n := |cols|;

      var added := AddTableCols(cols, builder);
      if added.Some? {
        return Some(BuilderFailed(added.value));
      }

      var timeIdx := ColIdx(timeColumn, cols);
      if timeIdx < 0 {
        return Some(MissingColumn(timeColumn));
      }

      var stopIdx := 0;
      if !isStop {
        stopIdx := ColIdx(stopColumn, cols);
        if stopIdx < 0 {
          return Some(MissingColumn(stopColumn));
        } else if cols[stopIdx].ty != TTime {
          return Some(StopColumnNotTime(cols[stopIdx].name, cols[stopIdx].ty));
        }
      }

      // The time column holds times, so the duration column is always added.
      var numColResult := builder.AddCol(ColMeta(columnName, TInt));
      if numColResult.Err? {
        return Some(BuilderFailed(numColResult.error));
      }
      var numCol := numColResult.value;

      var colMap := ColMap(builder.cols, cols);
      ColMapAfterAddCol(cols, ColMeta(columnName, TInt));
      Fill(builder, tbl, timeIdx, stopIdx, numCol, colMap);
      r := None;
    }

    /**
     * The rest of `Process` once the builder has its columns: walk the
     * buffers, then measure the last row read against the stop time.
     */
    method Fill(builder: TableBuilder, tbl: Table, timeIdx: nat, stopIdx: nat, numCol: nat, colMap: seq<int>)
      requires unit != 0 && WellFormed(tbl) && builder.Valid()
      requires colMap == SelfThenUnmapped(|tbl.cols|)
      requires timeIdx < |tbl.cols| && tbl.cols[timeIdx].ty == TTime
      requires numCol == |tbl.cols| && builder.cols == OutputCols(tbl.cols, columnName)
      requires builder.columns == seq(|tbl.cols|, _ => []) + [[]]
      requires !isStop ==> HasLabel(tbl.cols, stopColumn) && stopIdx == ColIdx(stopColumn, tbl.cols)
      requires !isStop ==> tbl.cols[stopIdx].ty == TTime
      requires !isStop ==> forall b :: 0 <= b < |tbl.buffers| ==> |tbl.buffers[b]| > 0
      modifies builder
      ensures builder.Valid() && builder.cols == old(builder.cols)
      ensures builder.columns == OutputColumns(tbl, timeIdx, StopTime(tbl, isStop, stop, stopColumn), unit)
    {
      var cTime, cTimeValid, sTime := ReadAll(builder, tbl, timeIdx, stopIdx, numCol, colMap);
      ghost var walked := builder.columns;
      ghost var stopTime := StopTime(tbl, isStop, stop, stopColumn);
      // The last row is measured against the stop time.
      if cTimeValid {
        builder.AppendInt(numCol, TruncDiv(sTime - cTime, unit));
        FinishColumns(tbl, walked, builder.columns, timeIdx, unit, cTime, true, stopTime);
      } else {
        FinishColumns(tbl, walked, builder.columns, timeIdx, unit, cTime, false, stopTime);
      }
    }

    /**
     * `tbl.Do`: hand each buffer in turn to the row walk. Afterwards every
     * row has been read and, if any was, the stop time is at hand.
     */
    method ReadAll(builder: TableBuilder, tbl: Table, timeIdx: nat, stopIdx: nat, numCol: nat, colMap: seq<int>)
      returns (cTime: int, cTimeValid: bool, sTime: int)
      requires unit != 0 && WellFormed(tbl) && builder.Valid()
      requires colMap == SelfThenUnmapped(|tbl.cols|)
      requires timeIdx < |tbl.cols| && tbl.cols[timeIdx].ty == TTime
      requires numCol == |tbl.cols| && builder.cols == OutputCols(tbl.cols, columnName)
      requires builder.columns == seq(|tbl.cols|, _ => []) + [[]]
      requires !isStop ==> HasLabel(tbl.cols, stopColumn) && stopIdx == ColIdx(stopColumn, tbl.cols)
      requires !isStop ==> tbl.cols[stopIdx].ty == TTime
      requires !isStop ==> forall b :: 0 <= b < |tbl.buffers| ==> |tbl.buffers[b]| > 0
      modifies builder
      ensures builder.Valid() && builder.cols == old(builder.cols)
      ensures Walked(builder.columns, tbl.cols, timeIdx, unit, Flatten(tbl.buffers), cTime, cTimeValid)
      ensures cTimeValid ==> sTime == StopTime(tbl, isStop, stop, stopColumn)
    {
      var cols := tbl.cols;
      cTime, cTimeValid, sTime := 0, false, 0;
      if isStop {
        sTime := stop;
      }

      WalkStart(builder.columns, cols, timeIdx, unit);
      for b := 0 to |tbl.buffers|
        invariant builder.Valid() && builder.cols == old(builder.cols)
        invariant Walked(builder.columns, cols, timeIdx, unit, Flatten(tbl.buffers[..b]), cTime, cTimeValid)
        invariant isStop ==> sTime == stop
        invariant !isStop && b > 0 ==> sTime == LastStop(tbl.buffers[b - 1], stopIdx)
      {
        cTime, cTimeValid, sTime := ReadNext(builder, tbl, b, timeIdx, stopIdx, numCol, colMap,
                                             cTime, cTimeValid, sTime);
      }
      assert tbl.buffers[..|tbl.buffers|] == tbl.buffers;
      if cTimeValid && !isStop {
        NonEmptyHasBuffers(tbl.buffers);
      }
    }

    /** One turn of `tbl.Do`: buffer `b` is handed to the row walk, which then
        covers every row of the first `b + 1` buffers. */
    method ReadNext(builder: TableBuilder, tbl: Table, b: nat, timeIdx: nat, stopIdx: nat, numCol: nat,
                    colMap: seq<int>, cTime: int, cTimeValid: bool, sTime: int)
      returns (cTime': int, cTimeValid': bool, sTime': int)
      requires b < |tbl.buffers| && WellFormed(tbl) && builder.Valid()
      requires colMap == SelfThenUnmapped(|tbl.cols|)
      requires numCol == |tbl.cols| && builder.cols == OutputCols(tbl.cols, columnName)
      requires Walked(builder.columns, tbl.cols, timeIdx, unit, Flatten(tbl.buffers[..b]), cTime, cTimeValid)
      requires !isStop ==> |tbl.buffers[b]| > 0 && stopIdx < |tbl.cols| && tbl.cols[stopIdx].ty == TTime
      modifies builder
      ensures builder.Valid() && builder.cols == old(builder.cols)
      ensures Walked(builder.columns, tbl.cols, timeIdx, unit, Flatten(tbl.buffers[..b + 1]), cTime', cTimeValid')
      ensures isStop ==> sTime' == sTime
      ensures !isStop ==> RowFits(tbl.buffers[b][|tbl.buffers[b]| - 1], tbl.cols) &&
                          sTime' == LastStop(tbl.buffers[b], stopIdx)
    {
      var rows := tbl.buffers[b];
      ghost var done := Flatten(tbl.buffers[..b]);
      FlattenSnoc(tbl.buffers, b);
      cTime', cTimeValid', sTime' := ReadBuffer(builder, rows, tbl.cols, timeIdx, stopIdx, numCol, colMap,
                                                cTime, cTimeValid, sTime, done);
    }

    /**
     * The function `Process` passes to `tbl.Do`: walk one buffer's rows,
     * appending each row's values and, from the second row read on, the
     * duration of the row before; then (without an explicit stop) remember
     * the buffer's last stop time.
     */
    method ReadBuffer(builder: TableBuilder, rows: seq<Row>, cols: seq<ColMeta>, timeIdx: nat, stopIdx: nat,
                      numCol: nat, colMap: seq<int>, cTime: int, cTimeValid: bool, sTime: int, ghost done: seq<Row>)
      returns (cTime': int, cTimeValid': bool, sTime': int)
      requires builder.Valid() && numCol == |cols| && builder.cols == OutputCols(cols, columnName)
      requires colMap == SelfThenUnmapped(|cols|)
      requires Walked(builder.columns, cols, timeIdx, unit, done, cTime, cTimeValid)
      requires forall i :: 0 <= i < |rows| ==> RowFits(rows[i], cols)
      requires !isStop ==> |rows| > 0 && stopIdx < |cols| && cols[stopIdx].ty == TTime
      modifies builder
      ensures builder.Valid() && builder.cols == old(builder.cols)
      ensures Walked(builder.columns, cols, timeIdx, unit, done + rows, cTime', cTimeValid')
      ensures sTime' == if isStop then sTime else LastStop(rows, stopIdx)
    {
      cTime', cTimeValid' := cTime, cTimeValid;
      ghost var read := done;
      for i := 0 to |rows|
        invariant builder.Valid() && builder.cols == old(builder.cols)
        invariant read == done + rows[..i]
        invariant Walked(builder.columns, cols, timeIdx, unit, read, cTime', cTimeValid')
      {
        cTime', cTimeValid' := ReadRow(builder, rows[i], cols, timeIdx, numCol, colMap, cTime', cTimeValid', read);
        read := read + [rows[i]];
        TakeSnoc(rows, i);
      }
      assert rows[..|rows|] == rows;
      sTime' := sTime;
      if !isStop {
        sTime' := rows[|rows| - 1][stopIdx].t;
      }
    }

    /** One row of the walk: the duration of the row before, when there
        is one, then the row's own values. */
    method ReadRow(builder: TableBuilder, row: Row, cols: seq<ColMeta>, timeIdx: nat, numCol: nat,
                   colMap: seq<int>, cTime: int, cTimeValid: bool, ghost read: seq<Row>)
      returns (cTime': int, cTimeValid': bool)
      requires builder.Valid() && numCol == |cols| && builder.cols == OutputCols(cols, columnName)
      requires colMap == SelfThenUnmapped(|cols|)
      requires Walked(builder.columns, cols, timeIdx, unit, read, cTime, cTimeValid)
      requires RowFits(row, cols)
      modifies builder
      ensures builder.Valid() && builder.cols == old(builder.cols)
      ensures Walked(builder.columns, cols, timeIdx, unit, read + [row], cTime', cTimeValid')
    {
      var nTime := row[timeIdx].t;
      ghost var before := builder.columns;
      if cTimeValid {
        builder.AppendInt(numCol, TruncDiv(nTime - cTime, unit));
      }
      AppendMappedRecord(builder, row, colMap);
      WalkStep(before, builder.columns, cols, timeIdx, unit, read, cTime, cTimeValid, row);
      cTime', cTimeValid' := nTime, true;
    }

    /** The stop-column value in the last row of a buffer. */
    static function LastStop(rows: seq<Row>, stopIdx: nat): int
      requires |rows| > 0 && stopIdx < |rows[|rows| - 1]| && rows[|rows| - 1][stopIdx].VTime?
    {
      rows[|rows| - 1][stopIdx].t
    }
  }

  /**
   * The state of the row walk once the rows `done` have been read: the
   * builder has the table's columns plus the integer duration column, each
   * table column holds its values from `done`, the duration column holds
   * the gaps between consecutive rows, and the last time read is at hand.
   */
  ghost predicate Walked(columns: seq<seq<Value>>, cols: seq<ColMeta>, timeIdx: nat, unit: int,
                         done: seq<Row>, cTime: int, cTimeValid: bool)
  {
    && unit != 0
    && |columns| == |cols| + 1
    && timeIdx < |cols| && cols[timeIdx].ty == TTime
    && (forall k :: 0 <= k < |done| ==> |done[k]| == |cols| && RowFits(done[k], cols))
    && TimesAt(done, timeIdx)
    && (cTimeValid <==> |done| > 0)
    && (cTimeValid ==> cTime == TimesOf(done, timeIdx)[|done| - 1])
    && (forall j :: 0 <= j < |cols| ==> columns[j] == Column(done, j))
    && columns[|cols|] == Ints(Gaps(TimesOf(done, timeIdx), unit))
  }

  /** Before any row is read, every column is empty. */
  lemma WalkStart(columns: seq<seq<Value>>, cols: seq<ColMeta>, timeIdx: nat, unit: int)
    requires unit != 0 && timeIdx < |cols| && cols[timeIdx].ty == TTime
    requires columns == seq(|cols|, _ => []) + [[]]
    ensures Walked(columns, cols, timeIdx, unit, Flatten([]), 0, false)
  {
    assert Gaps(TimesOf([], timeIdx), unit) == [];
  }

  /** Reading one row appends its values to the table's columns and, when
      a row was read before, the gap from it to the duration column. */
  lemma WalkStep(columns: seq<seq<Value>>, next: seq<seq<Value>>, cols: seq<ColMeta>, timeIdx: nat, unit: int,
                 done: seq<Row>, cTime: int, cTimeValid: bool, row: Row)
    requires Walked(columns, cols, timeIdx, unit, done, cTime, cTimeValid)
    requires RowFits(row, cols) && |next| == |columns|
    requires forall j :: 0 <= j < |cols| ==> next[j] == columns[j] + [row[j]]
    requires next[|cols|] == if cTimeValid then columns[|cols|] + [VInt(TruncDiv(row[timeIdx].t - cTime, unit))]
                             else columns[|cols|]
    ensures Walked(next, cols, timeIdx, unit, done + [row], row[timeIdx].t, true)
  {
    RowStepColumns(done, row, cols);
    RowStepTimes(done, row, timeIdx, unit);
  }

  /** Once every buffer has been walked, the final duration (to the stop
      time, when any row was read) completes the expected output. */
  lemma FinishColumns(tbl: Table, walked: seq<seq<Value>>, final: seq<seq<Value>>, timeIdx: nat, unit: int,
                      cTime: int, cTimeValid: bool, stopTime: int)
    requires WellFormed(tbl)
    requires Walked(walked, tbl.cols, timeIdx, unit, Flatten(tbl.buffers), cTime, cTimeValid)
    requires final == if cTimeValid then walked[|tbl.cols| := walked[|tbl.cols|] + [VInt(TruncDiv(stopTime - cTime, unit))]]
                      else walked
    ensures final == OutputColumns(tbl, timeIdx, stopTime, unit)
  {
    var n := |tbl.cols|;
    var rows := Flatten(tbl.buffers);
    var ts := TimesOf(rows, timeIdx);
    OutputColumnsAt(tbl, timeIdx, stopTime, unit);
    LastDuration(ts, stopTime, unit);
    forall j | 0 <= j < n + 1 ensures final[j] == OutputColumns(tbl, timeIdx, stopTime, unit)[j] {
    }
  }

  /** The duration column is the gaps between rows followed by the last
      row's distance to the stop time. */
  lemma LastDuration(ts: seq<int>, stopTime: int, unit: int)
    requires unit != 0
    ensures |ts| == 0 ==> Ints(Durations(ts, stopTime, unit)) == Ints(Gaps(ts, unit)) == []
    ensures |ts| > 0 ==>
              Ints(Durations(ts, stopTime, unit)) ==
              Ints(Gaps(ts, unit)) + [VInt(TruncDiv(stopTime - ts[|ts| - 1], unit))]
  {
    if |ts| > 0 {
      IntsSnoc(Gaps(ts, unit), TruncDiv(stopTime - ts[|ts| - 1], unit));
    }
  }

  /** Rows read mean some buffer was read. */
  lemma NonEmptyHasBuffers(buffers: seq<seq<Row>>)
    requires |Flatten(buffers)| > 0
    ensures |buffers| > 0
  {
  }

  /** One row read: each of the table's columns grows by the row's value. */
  lemma RowStepColumns(done: seq<Row>, row: Row, cols: seq<ColMeta>)
    requires forall k :: 0 <= k < |done| ==> |done[k]| == |cols| && RowFits(done[k], cols)
    requires RowFits(row, cols)
    ensures forall k :: 0 <= k < |done| + 1 ==> |(done + [row])[k]| == |cols| && RowFits((done + [row])[k], cols)
    ensures forall j :: 0 <= j < |cols| ==> Column(done + [row], j) == Column(done, j) + [row[j]]
  {
    forall j | 0 <= j < |cols| ensures Column(done + [row], j) == Column(done, j) + [row[j]] {
      ColumnSnoc(done, row, j);
    }
  }

  /** One row read: its time joins the times read, and the duration column
      grows by the gap from the previous row, if there is one. */
  lemma RowStepTimes(done: seq<Row>, row: Row, timeIdx: nat, unit: int)
    requires unit != 0 && TimesAt(done, timeIdx) && timeIdx < |row| && row[timeIdx].VTime?
    ensures TimesAt(done + [row], timeIdx)
    ensures TimesOf(done + [row], timeIdx) == TimesOf(done, timeIdx) + [row[timeIdx].t]
    ensures |done| == 0 ==> Ints(Gaps(TimesOf(done + [row], timeIdx), unit)) == []
    ensures |done| > 0 ==>
              Ints(Gaps(TimesOf(done + [row], timeIdx), unit)) ==
              Ints(Gaps(TimesOf(done, timeIdx), unit)) +
              [VInt(TruncDiv(row[timeIdx].t - TimesOf(done, timeIdx)[|done| - 1], unit))]
  {
    TimesSnoc(done, row, timeIdx);
    var ts := TimesOf(done, timeIdx);
    GapsSnoc(ts, row[timeIdx].t, unit);
    if |done| > 0 {
      IntsSnoc(Gaps(ts, unit), TruncDiv(row[timeIdx].t - ts[|ts| - 1], unit));
    }
  }

  /** `createDurationTransformation`: a duration procedure gets a
      transformation with a new, empty builder cache. */
  method CreateDurationTransformation(spec: ProcedureSpec) returns (r: Result<DurationTransformation, Error>)
    ensures spec.OtherProc? ==> r == Err(InvalidSpecType(spec.procKind))
    ensures spec.DurationProc? ==>
              r.Ok? && fresh(r.value) && fresh(r.value.cache) && r.value.cache.builders == map[] &&
              r.value.FromSpec(spec.proc)
  {
    match spec
    case OtherProc(kind) =>
      return Err(InvalidSpecType(kind));
    case DurationProc(s) =>
      var cache := new TableBuilderCache();
      var t := new DurationTransformation(cache, s);
      return Ok(t);
  }
}
