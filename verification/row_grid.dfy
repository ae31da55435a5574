/**
 The row aggregator of the modular inventory table (`createRows`).

 Columns are folded, in order, into a row-major grid. The row count is taken
 from the synchronous columns only; an asynchronous column that is not ready
 adds one placeholder to each of those rows, and every other column adds its
 data by index, without padding.
 */
module RowGrid {

  /** A column as the aggregator observes it. A column without an `isAsync`
      method has `isAsync == false`. `reportsReady` says whether the column
      has an `isReady` method, and `ready` is what that method answers; a
      column without one reads as never ready. `observable` says whether the
      column has an `observeReady` method; the aggregator ignores it, the
      hook subscribes only through it. `data` is what `getColumnData`
      returns at aggregation time. */
  datatype Col<T> = Col(isAsync: bool, observable: bool, reportsReady: bool, ready: bool, data: seq<T>)

  /** A grid cell: the loading skeleton of a pending column, or a data value. */
  datatype Cell<T> = Placeholder | Value(value: T)

  type Row<T> = seq<Cell<T>>
  type Grid<T> = seq<Row<T>>

  function Max(a: nat, b: nat): nat {
    if a < b then b else a
  }

  /** An asynchronous column whose data has not arrived yet. */
  predicate Pending<T>(c: Col<T>) {
    c.isAsync && !c.ready
  }

  /** What one column measures towards the row count: its data length if it
      is synchronous, nothing if it is asynchronous (ready or not). */
  function Measure<T>(c: Col<T>): nat {
    if !c.isAsync then |c.data| else 0
  }

  /** The row count: a max-fold, starting from 0, over the synchronous
      columns' data lengths. */
  function RowNumber<T>(cols: seq<Col<T>>): (n: nat)
    ensures forall j :: 0 <= j < |cols| && !cols[j].isAsync ==> |cols[j].data| <= n
    ensures n == 0 || exists j :: 0 <= j < |cols| && !cols[j].isAsync && |cols[j].data| == n
  {
    if |cols| == 0 then 0
    else
      var prefix := cols[..|cols| - 1];
      var n0 := RowNumber(prefix);
      assert forall j :: 0 <= j < |prefix| ==> prefix[j] == cols[j];
      Max(n0, Measure(cols[|cols| - 1]))
  }

  /** The cells one column adds to the grid when the row count is `n`: `n`
      placeholders for a pending column (its data is not read), otherwise one
      value per element of its data. */
  function Contribution<T>(c: Col<T>, n: nat): Row<T> {
    if Pending(c) then seq(n, _ => Placeholder)
    else seq(|c.data|, i requires 0 <= i < |c.data| => Value(c.data[i]))
  }

  /** Row `i` of `g`, or the empty row that `acc[i] ??= []` would create. */
  function RowAt<T>(g: Grid<T>, i: nat): Row<T> {
    if i < |g| then g[i] else []
  }

  /** The inner loop of the fold from index `i` on: append `cells[k]` to row
      `k` of the accumulator, creating the row first when it does not exist. */
  function PushFrom<T>(acc: Grid<T>, cells: Row<T>, i: nat): (r: Grid<T>)
    requires i <= |cells| && i <= |acc|
    ensures |r| == Max(|acc|, |cells|)
    ensures forall k :: 0 <= k < |r| ==>
      r[k] == RowAt(acc, k) + (if i <= k < |cells| then [cells[k]] else [])
    decreases |cells| - i
  {
    if i == |cells| then acc
    else if i < |acc| then PushFrom(acc[i := acc[i] + [cells[i]]], cells, i + 1)
    else PushFrom(acc + [[cells[i]]], cells, i + 1)
  }

  /** One column's step of the fold: after it, row `k` has gained exactly
      `cells[k]` when `k < |cells|` and nothing otherwise, and the grid has
      grown to cover every index of `cells`. */
  function Push<T>(acc: Grid<T>, cells: Row<T>): (r: Grid<T>)
    ensures |r| == Max(|acc|, |cells|)
    ensures forall k :: 0 <= k < |r| ==>
      r[k] == RowAt(acc, k) + (if k < |cells| then [cells[k]] else [])
  {
    PushFrom(acc, cells, 0)
  }

  /** Reference shape: the number of rows any column reaches, i.e. the longest
      contribution. */
  function RowsSpanned<T>(cols: seq<Col<T>>, n: nat): (h: nat)
    ensures forall j :: 0 <= j < |cols| ==> |Contribution(cols[j], n)| <= h
    ensures h == 0 || exists j :: 0 <= j < |cols| && |Contribution(cols[j], n)| == h
  {
    if |cols| == 0 then 0
    else
      var prefix := cols[..|cols| - 1];
      assert forall j :: 0 <= j < |prefix| ==> prefix[j] == cols[j];
      Max(RowsSpanned(prefix, n), |Contribution(cols[|cols| - 1], n)|)
  }

  /** Reference content: row `i` read across the columns, i.e. the `i`-th
      contributed cell of every column that reaches row `i`, in column order.
      */
  function CellsAt<T>(cols: seq<Col<T>>, n: nat, i: nat): (row: Row<T>)
    ensures |row| <= |cols|
  {
    if |cols| == 0 then []
    else
      var c := Contribution(cols[|cols| - 1], n);
      CellsAt(cols[..|cols| - 1], n, i) + (if i < |c| then [c[i]] else [])
  }

  /** Rows are dense: row `i` has a cell exactly when some column reaches it. */
  lemma {:induction false} CellsAtDense<T>(cols: seq<Col<T>>, n: nat, i: nat)
    ensures CellsAt(cols, n, i) != [] <==> i < RowsSpanned(cols, n)
  {
    if |cols| > 0 {
      CellsAtDense(cols[..|cols| - 1], n, i);
    }
  }

  /** The column fold of `createRows` for a fixed row count `n`: the grid is
      exactly as long as the longest contribution, and every row holds the
      cells the columns contribute to it, in column order. */
  function AllData<T>(cols: seq<Col<T>>, n: nat): (g: Grid<T>)
    ensures |g| == RowsSpanned(cols, n)
    ensures forall i :: 0 <= i < |g| ==> g[i] == CellsAt(cols, n, i)
  {
    if |cols| == 0 then []
    else
      var prefix := cols[..|cols| - 1];
      var g0 := AllData(prefix, n);
      var c := Contribution(cols[|cols| - 1], n);
      var g := Push(g0, c);
      assert forall i :: 0 <= i < |g| ==> RowAt(g0, i) == CellsAt(prefix, n, i) by {
        forall i | |g0| <= i < |g| {
          CellsAtDense(prefix, n, i);
        }
      }
      g
  }

  /** `createRows`: the row count from the synchronous columns, then the fold.
      The grid never has fewer rows than the row count. */
  function CreateRows<T>(cols: seq<Col<T>>): (g: Grid<T>)
    ensures |g| == RowsSpanned(cols, RowNumber(cols))
    ensures forall i :: 0 <= i < |g| ==> g[i] == CellsAt(cols, RowNumber(cols), i)
    ensures |g| >= RowNumber(cols)
  {
    var n := RowNumber(cols);
    var g := AllData(cols, n);
    assert n > 0 ==> exists j :: 0 <= j < |cols| && |Contribution(cols[j], n)| == n;
    g
  }

  /** Asynchronous columns never influence the row count, whether pending or
      ready and whatever their data: two column lists that agree on which
      columns are asynchronous and on the synchronous columns' data have the
      same row count. */
  lemma {:induction false} RowNumberIgnoresAsync<T>(cols: seq<Col<T>>, cols': seq<Col<T>>)
    requires |cols| == |cols'|
    requires forall j :: 0 <= j < |cols| ==> cols[j].isAsync == cols'[j].isAsync
    requires forall j :: 0 <= j < |cols| && !cols[j].isAsync ==> cols[j].data == cols'[j].data
    ensures RowNumber(cols) == RowNumber(cols')
  {
    if |cols| > 0 {
      var k := |cols| - 1;
      RowNumberIgnoresAsync(cols[..k], cols'[..k]);
      assert Measure(cols[k]) == Measure(cols'[k]);
    }
  }

  /** A pending column appends exactly one placeholder to each of rows
      `0..n-1`, creating the rows that do not exist yet, and touches no other
      row. */
  lemma PendingColumnStep<T>(prefix: seq<Col<T>>, c: Col<T>, n: nat)
    requires Pending(c)
    ensures |AllData(prefix + [c], n)| == Max(|AllData(prefix, n)|, n)
    ensures forall i :: 0 <= i < |AllData(prefix + [c], n)| ==>
      AllData(prefix + [c], n)[i] == RowAt(AllData(prefix, n), i) + (if i < n then [Placeholder] else [])
  {
    assert (prefix + [c])[..|prefix|] == prefix;
  }

  /** A synchronous or ready column appends `data[i]` to row `i` for every
      index of its data and nothing to any other row: a shorter column leaves
      later rows without a cell, a longer one creates new rows. */
  lemma ValueColumnStep<T>(prefix: seq<Col<T>>, c: Col<T>, n: nat)
    requires !Pending(c)
    ensures |AllData(prefix + [c], n)| == Max(|AllData(prefix, n)|, |c.data|)
    ensures forall i :: 0 <= i < |AllData(prefix + [c], n)| ==>
      AllData(prefix + [c], n)[i] == RowAt(AllData(prefix, n), i) + (if i < |c.data| then [Value(c.data[i])] else [])
  {
    assert (prefix + [c])[..|prefix|] == prefix;
  }

  /** The fold depends on each column only through its contribution. */
  lemma {:induction false} AllDataByContribution<T>(cols: seq<Col<T>>, cols': seq<Col<T>>, n: nat)
    requires |cols| == |cols'|
    requires forall j :: 0 <= j < |cols| ==> Contribution(cols[j], n) == Contribution(cols'[j], n)
    ensures AllData(cols, n) == AllData(cols', n)
  {
    if |cols| > 0 {
      var k := |cols| - 1;
      AllDataByContribution(cols[..k], cols'[..k], n);
    }
  }

  /** The data of a pending column is never consulted: replacing it changes
      nothing in the grid. */
  lemma PendingDataIgnored<T>(cols: seq<Col<T>>, j: nat, d: seq<T>)
    requires j < |cols| && Pending(cols[j])
    ensures CreateRows(cols[j := cols[j].(data := d)]) == CreateRows(cols)
  {
    var cols' := cols[j := cols[j].(data := d)];
    RowNumberIgnoresAsync(cols, cols');
    AllDataByContribution(cols, cols', RowNumber(cols));
  }

  /** When every column reaches row `i`, the row holds one cell per column,
      cell `j` being column `j`'s `i`-th contribution. */
  lemma {:induction false} CellsAtFull<T>(cols: seq<Col<T>>, n: nat, i: nat)
    requires forall j :: 0 <= j < |cols| ==> i < |Contribution(cols[j], n)|
    ensures |CellsAt(cols, n, i)| == |cols|
    ensures forall j :: 0 <= j < |cols| ==> CellsAt(cols, n, i)[j] == Contribution(cols[j], n)[i]
  {
    if |cols| > 0 {
      var k := |cols| - 1;
      var prefix := cols[..k];
      assert forall j :: 0 <= j < k ==> prefix[j] == cols[j];
      CellsAtFull(prefix, n, i);
      var c := Contribution(cols[k], n);
      var row0 := CellsAt(prefix, n, i);
      var row := CellsAt(cols, n, i);
      assert row == row0 + [c[i]];
      forall j | 0 <= j < |cols|
        ensures row[j] == Contribution(cols[j], n)[i]
      {
        if j < k {
          assert row[j] == row0[j] == Contribution(prefix[j], n)[i];
        }
      }
    }
  }

  /** A column that does not reach row `i` leaves that row short of a cell. */
  lemma {:induction false} CellsAtShort<T>(cols: seq<Col<T>>, n: nat, i: nat, j: nat)
    requires j < |cols| && |Contribution(cols[j], n)| <= i
    ensures |CellsAt(cols, n, i)| < |cols|
  {
    var k := |cols| - 1;
    if j < k {
      assert cols[..k][j] == cols[j];
      CellsAtShort(cols[..k], n, i, j);
    }
  }

  /** No padding: a synchronous or ready column shorter than the grid leaves
      every row past its data one cell short. */
  lemma ShortColumnLeavesGap<T>(cols: seq<Col<T>>, j: nat, i: nat)
    requires j < |cols| && !Pending(cols[j])
    requires |cols[j].data| <= i < |CreateRows(cols)|
    ensures |CreateRows(cols)[i]| < |cols|
  {
    CellsAtShort(cols, RowNumber(cols), i, j);
  }

  /** A ready asynchronous column longer than the row count creates extra
      rows: the grid reaches the end of its data. */
  lemma LongReadyColumnAddsRows<T>(cols: seq<Col<T>>, j: nat)
    requires j < |cols| && cols[j].isAsync && cols[j].ready
    requires |cols[j].data| > RowNumber(cols)
    ensures |CreateRows(cols)| >= |cols[j].data| > RowNumber(cols)
  {
  }

  /** When every column that is not pending has exactly `RowNumber` values,
      the grid is a rectangle: `RowNumber` rows of one cell per column, cell
      `(i, j)` being a placeholder when column `j` is pending and its `i`-th
      value otherwise. */
  lemma Rectangular<T>(cols: seq<Col<T>>)
    requires forall j :: 0 <= j < |cols| && !Pending(cols[j]) ==> |cols[j].data| == RowNumber(cols)
    ensures |CreateRows(cols)| == RowNumber(cols)
    ensures forall i :: 0 <= i < RowNumber(cols) ==> |CreateRows(cols)[i]| == |cols|
    ensures forall i, j :: 0 <= i < RowNumber(cols) && 0 <= j < |cols| ==>
      CreateRows(cols)[i][j] == (if Pending(cols[j]) then Placeholder else Value(cols[j].data[i]))
  {
    var n := RowNumber(cols);
    var g := CreateRows(cols);
    assert forall j :: 0 <= j < |cols| ==> |Contribution(cols[j], n)| == n;
    forall i | 0 <= i < n
      ensures |g[i]| == |cols|
      ensures forall j :: 0 <= j < |cols| ==>
        g[i][j] == (if Pending(cols[j]) then Placeholder else Value(cols[j].data[i]))
    {
      CellsAtFull(cols, n, i);
    }
  }

  /** Every cell of row `i` comes from a column that reaches row `i`; in
      particular a placeholder comes from a pending column. */
  lemma {:induction false} PlaceholderFromPending<T>(cols: seq<Col<T>>, n: nat, i: nat)
    requires Placeholder in CellsAt(cols, n, i)
    ensures exists j :: 0 <= j < |cols| && Pending(cols[j])
  {
    var k := |cols| - 1;
    var c := Contribution(cols[k], n);
    if Placeholder in CellsAt(cols[..k], n, i) {
      PlaceholderFromPending(cols[..k], n, i);
      var j :| 0 <= j < k && Pending(cols[..k][j]);
      assert cols[j] == cols[..k][j];
    } else {
      assert i < |c| && c[i] == Placeholder;
      assert Pending(cols[k]);
    }
  }

  /** Without asynchronous columns no placeholder ever appears. */
  lemma NoAsyncNoPlaceholder<T>(cols: seq<Col<T>>)
    requires forall j :: 0 <= j < |cols| ==> !cols[j].isAsync
    ensures forall i :: 0 <= i < |CreateRows(cols)| ==> Placeholder !in CreateRows(cols)[i]
  {
    forall i | 0 <= i < |CreateRows(cols)|
      ensures Placeholder !in CreateRows(cols)[i]
    {
      if Placeholder in CreateRows(cols)[i] {
        PlaceholderFromPending(cols, RowNumber(cols), i);
      }
    }
  }
}
