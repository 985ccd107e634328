/**
 * The slice of flux's table model that the duration transformation uses:
 * column metadata, rows of values grouped into buffers, and the column-list
 * table builder with its per-group-key cache.
 */
module Tables {
  import opened Basics

  datatype ColType = TBool | TInt | TUInt | TFloat | TString | TTime

  datatype ColMeta = ColMeta(name: string, ty: ColType)

  /** A cell; times are nanoseconds since the Unix epoch. */
  datatype Value = VBool(b: bool) | VInt(i: int) | VUInt(u: nat) | VFloat(f: real) | VString(s: string) | VTime(t: int)

  type Row = seq<Value>

  /** A group key: the key columns and their values. */
  datatype GroupKey = GroupKey(cols: seq<ColMeta>, values: seq<Value>)

  /** A table is read buffer by buffer (`Table.Do`); each buffer holds rows. */
  datatype Table = Table(key: GroupKey, cols: seq<ColMeta>, buffers: seq<seq<Row>>)

  /** The failure of `TableBuilder.AddCol`: the name is already taken. */
  datatype BuilderError = DuplicateColumn(name: string)

  predicate HasType(v: Value, ty: ColType)
  {
    match ty
    case TBool => v.VBool?
    case TInt => v.VInt?
    case TUInt => v.VUInt?
    case TFloat => v.VFloat?
    case TString => v.VString?
    case TTime => v.VTime?
  }

  predicate RowFits(row: Row, cols: seq<ColMeta>)
  {
    |row| == |cols| && forall j :: 0 <= j < |row| ==> HasType(row[j], cols[j].ty)
  }

  /** Every row of every buffer has one value of the right type per column. */
  predicate WellFormed(tbl: Table)
  {
    forall b, i :: 0 <= b < |tbl.buffers| && 0 <= i < |tbl.buffers[b]| ==> RowFits(tbl.buffers[b][i], tbl.cols)
  }

  predicate HasLabel(cols: seq<ColMeta>, name: string)
  {
    exists j :: 0 <= j < |cols| && cols[j].name == name
  }

  /** No two columns share a name. */
  predicate Distinct(cols: seq<ColMeta>)
  {
    forall i, j :: 0 <= i < j < |cols| ==> cols[i].name != cols[j].name
  }

  /** The first column whose name an earlier column already has. */
  function FirstRepeat(cols: seq<ColMeta>): (i: nat)
    requires !Distinct(cols)
    ensures i < |cols| && Distinct(cols[..i]) && HasLabel(cols[..i], cols[i].name)
  {
    var n := |cols| - 1;
    if !Distinct(cols[..n]) then
      var i := FirstRepeat(cols[..n]);
      assert cols[..n][..i] == cols[..i];
      i
    else
      var i, j :| 0 <= i < j < |cols| && cols[i].name == cols[j].name;
      assert j == n;
      assert cols[..n][i] == cols[i];
      n
  }

  /** Only one column can be the first repeat. */
  lemma FirstRepeatUnique(cols: seq<ColMeta>, i: nat)
    requires i < |cols| && Distinct(cols[..i]) && HasLabel(cols[..i], cols[i].name)
    ensures !Distinct(cols) && FirstRepeat(cols) == i
  {
    var k :| 0 <= k < i && cols[..i][k].name == cols[i].name;
    assert cols[k].name == cols[i].name;
    var f := FirstRepeat(cols);
    NoRepeatInDistinctPrefix(cols, i);
    NoRepeatInDistinctPrefix(cols, f);
  }

  /** Within a prefix of distinct names no column repeats an earlier one. */
  lemma NoRepeatInDistinctPrefix(cols: seq<ColMeta>, n: nat)
    requires n <= |cols| && Distinct(cols[..n])
    ensures forall j :: 0 <= j < n ==> !HasLabel(cols[..j], cols[j].name)
  {
    forall j | 0 <= j < n ensures !HasLabel(cols[..j], cols[j].name) {
      forall h | 0 <= h < j ensures cols[..j][h].name != cols[j].name {
        assert cols[..n][h] == cols[h] && cols[..n][j] == cols[j];
      }
    }
  }

  /** `execute.ColIdx`: the index of the first column labelled `name`, or -1. */
  function ColIdx(name: string, cols: seq<ColMeta>): (r: int)
    ensures -1 <= r < |cols|
    ensures r == -1 <==> !HasLabel(cols, name)
    ensures r >= 0 ==> cols[r].name == name && forall j :: 0 <= j < r ==> cols[j].name != name
  {
    if |cols| == 0 then -1
    else if cols[0].name == name then 0
    else
      var k := ColIdx(name, cols[1..]);
      assert forall j :: 1 <= j < |cols| ==> cols[j] == cols[1..][j - 1];
      if k < 0 then -1 else k + 1
  }

  /** The number of rows in all buffers, counted from the first buffer. */
  function RowCount(buffers: seq<seq<Row>>): nat
  {
    if |buffers| == 0 then 0 else |buffers[0]| + RowCount(buffers[1..])
  }

  /** Counting one more buffer adds its rows. */
  lemma {:induction false} RowCountSnoc(buffers: seq<seq<Row>>, last: seq<Row>)
    ensures RowCount(buffers + [last]) == RowCount(buffers) + |last|
  {
    if |buffers| > 0 {
      assert (buffers + [last])[1..] == buffers[1..] + [last];
      RowCountSnoc(buffers[1..], last);
    } else {
      assert (buffers + [last])[1..] == [];
    }
  }

  /** The rows of all buffers, in reading order (`Table.Do` hands the buffers
      over one after another). */
  function Flatten(buffers: seq<seq<Row>>): (rows: seq<Row>)
    ensures |rows| == RowCount(buffers)
  {
    if |buffers| == 0 then []
    else
      var n := |buffers| - 1;
      assert buffers == buffers[..n] + [buffers[n]];
      RowCountSnoc(buffers[..n], buffers[n]);
      Flatten(buffers[..n]) + buffers[n]
  }

  /** Reading one more buffer appends its rows. */
  lemma FlattenSnoc(buffers: seq<seq<Row>>, b: nat)
    requires b < |buffers|
    ensures Flatten(buffers[..b + 1]) == Flatten(buffers[..b]) + buffers[b]
  {
    assert buffers[..b + 1][..b] == buffers[..b];
  }

  /** One more element taken from a sequence. */
  lemma TakeSnoc<T>(s: seq<T>, i: nat)
    requires i < |s|
    ensures s[..i + 1] == s[..i] + [s[i]]
  {
  }

  /** Reading buffers one after another reads their concatenation. */
  lemma {:induction false} FlattenAppend(xs: seq<seq<Row>>, ys: seq<seq<Row>>)
    ensures Flatten(xs + ys) == Flatten(xs) + Flatten(ys)
    decreases |ys|
  {
    if |ys| > 0 {
      var last := |ys| - 1;
      assert (xs + ys)[..|xs + ys| - 1] == xs + ys[..last];
      assert (xs + ys)[|xs + ys| - 1] == ys[last];
      FlattenAppend(xs, ys[..last]);
    } else {
      assert xs + ys == xs;
    }
  }

  /** The rows of `buffers[b]` sit in the flattened sequence right after
      those of the buffers before it. */
  lemma FlattenAt(buffers: seq<seq<Row>>, b: nat, i: nat)
    requires b < |buffers| && i < |buffers[b]|
    ensures |Flatten(buffers[..b])| + i < |Flatten(buffers)|
    ensures Flatten(buffers)[|Flatten(buffers[..b])| + i] == buffers[b][i]
  {
    assert buffers == buffers[..b] + [buffers[b]] + buffers[b + 1..];
    FlattenAppend(buffers[..b] + [buffers[b]], buffers[b + 1..]);
    FlattenAppend(buffers[..b], [buffers[b]]);
    assert Flatten([buffers[b]]) == buffers[b] by {
      assert [buffers[b]][..0] == [];
    }
  }

  /** Every row of a well-formed table, flattened, fits the columns. */
  lemma FlattenFits(tbl: Table)
    requires WellFormed(tbl)
    ensures forall i :: 0 <= i < |Flatten(tbl.buffers)| ==> RowFits(Flatten(tbl.buffers)[i], tbl.cols)
  {
    FlattenFitsUpTo(tbl, |tbl.buffers|);
    assert tbl.buffers[..|tbl.buffers|] == tbl.buffers;
  }

  lemma {:induction false} FlattenFitsUpTo(tbl: Table, n: nat)
    requires WellFormed(tbl) && n <= |tbl.buffers|
    ensures forall i :: 0 <= i < |Flatten(tbl.buffers[..n])| ==> RowFits(Flatten(tbl.buffers[..n])[i], tbl.cols)
  {
    if n > 0 {
      FlattenFitsUpTo(tbl, n - 1);
      assert tbl.buffers[..n][..n - 1] == tbl.buffers[..n - 1];
      var front := Flatten(tbl.buffers[..n - 1]);
      var last := tbl.buffers[n - 1];
      var all := Flatten(tbl.buffers[..n]);
      assert all == front + last;
      forall i | 0 <= i < |all| ensures RowFits(all[i], tbl.cols) {
        if i < |front| {
          assert all[i] == front[i];
        } else {
          assert all[i] == last[i - |front|];
        }
      }
    }
  }

  /** With no empty buffer, the last row read is the last row of the last buffer. */
  lemma FlattenLast(buffers: seq<seq<Row>>)
    requires |buffers| > 0 && |buffers[|buffers| - 1]| > 0
    ensures |Flatten(buffers)| > 0
    ensures Flatten(buffers)[|Flatten(buffers)| - 1] == buffers[|buffers| - 1][|buffers[|buffers| - 1]| - 1]
  {
  }

  /**
   * `execute.ColListTableBuilder`: the columns added so far and, for each,
   * the values appended to it.
   */
  class TableBuilder {
    const key: GroupKey
    var cols: seq<ColMeta>
    var columns: seq<seq<Value>>

    predicate Valid()
      reads this
    {
      |columns| == |cols|
    }

    constructor(key: GroupKey)
      ensures this.key == key && cols == [] && columns == []
      ensures Valid()
    {
      this.key := key;
      cols := [];
      columns := [];
    }

    /** `AddCol`: a new, empty column at the end, unless the name is taken. */
    method AddCol(c: ColMeta) returns (r: Result<nat, BuilderError>)
      requires Valid()
      modifies this
      ensures Valid()
      ensures HasLabel(old(cols), c.name) ==>
                r == Err(DuplicateColumn(c.name)) && cols == old(cols) && columns == old(columns)
      ensures !HasLabel(old(cols), c.name) ==>
                r == Ok(|old(cols)|) && cols == old(cols) + [c] && columns == old(columns) + [[]]
    {
      if ColIdx(c.name, cols) >= 0 {
        return Err(DuplicateColumn(c.name));
      }
      cols := cols + [c];
      columns := columns + [[]];
      return Ok(|cols| - 1);
    }

    /** `AppendInt`: one more value at the end of integer column `j`. */
    method AppendInt(j: nat, v: int)
      requires Valid() && j < |cols| && cols[j].ty == TInt
      modifies this
      ensures Valid()
      ensures cols == old(cols) && columns == old(columns)[j := old(columns)[j] + [VInt(v)]]
    {
      columns := columns[j := columns[j] + [VInt(v)]];
    }

    /** `AppendValue`: one more value at the end of column `j`. */
    method AppendValue(j: nat, v: Value)
      requires Valid() && j < |cols|
      modifies this
      ensures Valid()
      ensures cols == old(cols) && columns == old(columns)[j := old(columns)[j] + [v]]
    {
      columns := columns[j := columns[j] + [v]];
    }
  }

  /**
   * `execute.AddTableCols`: add the table's columns to the builder one by
   * one, stopping at the first name the builder already has.
   */
  method AddTableCols(cols: seq<ColMeta>, b: TableBuilder) returns (r: Option<BuilderError>)
    requires b.Valid() && b.cols == []
    modifies b
    ensures b.Valid()
    ensures r.None? <==> Distinct(cols)
    ensures r.None? ==> b.cols == cols && b.columns == seq(|cols|, _ => [])
    ensures r.Some? ==> r.value == DuplicateColumn(cols[FirstRepeat(cols)].name)
  {
    for i := 0 to |cols|
      invariant b.Valid()
      invariant b.cols == cols[..i] && b.columns == seq(i, _ => [])
      invariant Distinct(cols[..i])
    {
      var added := b.AddCol(cols[i]);
      if added.Err? {
        FirstRepeatUnique(cols, i);
        return Some(added.error);
      }
      assert cols[..i + 1] == cols[..i] + [cols[i]];
    }
    assert cols[..|cols|] == cols;
    return None;
  }

  /** `execute.ColMap`: for each builder column, the index of the table
      column with its name, or -1 when the table has none. */
  function ColMap(builderCols: seq<ColMeta>, cols: seq<ColMeta>): (m: seq<int>)
    ensures |m| == |builderCols|
    ensures forall j :: 0 <= j < |m| ==> m[j] == ColIdx(builderCols[j].name, cols)
  {
    seq(|builderCols|, j requires 0 <= j < |builderCols| => ColIdx(builderCols[j].name, cols))
  }

  /** The map that sends each of the first `n` builder columns to the table
      column at the same position and leaves the last one unmapped. */
  function SelfThenUnmapped(n: nat): (m: seq<int>)
    ensures |m| == n + 1 && m[n] == -1
    ensures forall j :: 0 <= j < n ==> m[j] == j
  {
    seq(n, j => j) + [-1]
  }

  /** After the table's distinct columns and one new column with a fresh name,
      `ColMap` sends each table column to itself and the new column nowhere. */
  lemma ColMapAfterAddCol(cols: seq<ColMeta>, extra: ColMeta)
    requires Distinct(cols) && !HasLabel(cols, extra.name)
    ensures ColMap(cols + [extra], cols) == SelfThenUnmapped(|cols|)
  {
    var m := ColMap(cols + [extra], cols);
    forall j | 0 <= j < |cols|
      ensures m[j] == j
    {
      assert (cols + [extra])[j] == cols[j];
      var k := ColIdx(cols[j].name, cols);
      assert k >= 0 && cols[k].name == cols[j].name;
    }
    assert (cols + [extra])[|cols|] == extra;
  }

  /**
   * `execute.AppendMappedRecordExplicit`: builder column `j` receives the
   * row's value at `colMap[j]`; a builder column that `colMap` leaves
   * unmapped (-1) receives nothing.
   */
  method AppendMappedRecord(b: TableBuilder, row: Row, colMap: seq<int>)
    requires b.Valid() && |colMap| == |b.cols|
    requires forall j :: 0 <= j < |colMap| ==> colMap[j] < |row|
    modifies b
    ensures b.Valid() && b.cols == old(b.cols)
    ensures |b.columns| == |old(b.columns)|
    ensures forall j :: 0 <= j < |b.columns| && colMap[j] >= 0 ==> b.columns[j] == old(b.columns)[j] + [row[colMap[j]]]
    ensures forall j :: 0 <= j < |b.columns| && colMap[j] < 0 ==> b.columns[j] == old(b.columns)[j]
  {
    for j := 0 to |colMap|
      invariant b.Valid() && b.cols == old(b.cols) && |b.columns| == |old(b.columns)|
      invariant forall k :: 0 <= k < j && colMap[k] >= 0 ==> b.columns[k] == old(b.columns)[k] + [row[colMap[k]]]
      invariant forall k :: 0 <= k < j && colMap[k] < 0 ==> b.columns[k] == old(b.columns)[k]
      invariant forall k :: j <= k < |b.columns| ==> b.columns[k] == old(b.columns)[k]
    {
      if colMap[j] >= 0 {
        b.AppendValue(j, row[colMap[j]]);
      }
    }
  }

  /** `execute.TableBuilderCache`: one builder per group key. */
  class TableBuilderCache {
    var builders: map<GroupKey, TableBuilder>

    constructor()
      ensures builders == map[]
    {
      builders := map[];
    }

    /** `TableBuilder`: the builder for `key`, creating an empty one (and
        reporting so) when the key is new. */
    method TableBuilder(key: GroupKey) returns (b: TableBuilder, created: bool)
      modifies this
      ensures created <==> key !in old(builders)
      ensures !created ==> b == old(builders)[key] && builders == old(builders)
      ensures created ==> fresh(b) && b.key == key && b.cols == [] && b.columns == [] &&
                          builders == old(builders)[key := b]
    {
      if key in builders {
        return builders[key], false;
      }
      b := new TableBuilder(key);
      builders := builders[key := b];
      created := true;
    }
  }
}
