/** Filling a CursorWindow from a query (nativeExecuteForCursorWindow), and the collation registered
    beside it. The window's capacity is not part of the source: it is a parameter. */
module CursorWindow {
  import opened Bytes
  import opened Records

  datatype Value = Null | Integer(i: int) | Float(r: real) | Text(t: Str) | Blob(b: Str)

  type Row = seq<Value>

  /** When the window refuses: a number of columns (after so many clearings), a new row, a cell of the last row. */
  datatype Capacity = Capacity(
    columns: (nat, nat) -> bool, alloc: seq<Row> -> bool, put: (seq<Row>, nat, Value) -> bool)

  function Blank(n: nat): Row { seq(n, _ => Null) }

  /** The last row of `rows` takes the values of row from column i on. */
  predicate PutsFit(cap: Capacity, rows: seq<Row>, row: Row, i: nat)
    requires i <= |row|
    decreases |row| - i
  {
    i == |row| || (cap.put(rows + [row[..i] + Blank(|row| - i)], i, row[i]) && PutsFit(cap, rows, row, i + 1))
  }

  /** The row can be added to a window holding rows. */
  predicate Fits(cap: Capacity, rows: seq<Row>, row: Row)
  {
    cap.alloc(rows) && PutsFit(cap, rows, row, 0)
  }

  /** copyRowToWindow answers that the row, to be put at position iRow, is stored. */
  predicate Takes(cap: Capacity, rows: seq<Row>, iRow: int, row: Row)
  {
    Fits(cap, rows, row) && (iRow == |rows| || |row| == 0)
  }

  class Window {
    const cap: Capacity
    var clearings: nat
    var numColumns: nat
    var rows: seq<Row>

    constructor (cap: Capacity)
      ensures this.cap == cap && rows == []
    {
      this.cap := cap;
      clearings := 0;
      numColumns := 0;
      rows := [];
    }

    method Clear()
      modifies this
      ensures rows == [] && numColumns == old(numColumns) && clearings == old(clearings) + 1
    {
      rows := [];
      clearings := clearings + 1;
    }

    method SetNumColumns(n: nat) returns (ok: bool)
      modifies this
      ensures ok == cap.columns(n, clearings) && clearings == old(clearings)
      ensures rows == old(rows) && numColumns == if ok then n else old(numColumns)
    {
      ok := cap.columns(n, clearings);
      if ok { numColumns := n; }
    }

    method AllocRow() returns (ok: bool)
      modifies this
      ensures ok == cap.alloc(old(rows)) && numColumns == old(numColumns)
      ensures rows == if ok then old(rows) + [Blank(numColumns)] else old(rows)
    {
      ok := cap.alloc(rows);
      if ok { rows := rows + [Blank(numColumns)]; }
    }

    method FreeLastRow()
      requires |rows| > 0
      modifies this
      ensures rows == old(rows)[..|old(rows)| - 1] && numColumns == old(numColumns)
    {
      rows := rows[..|rows| - 1];
    }

    /** putNull, putLong, putDouble, putString and putBlob; a row that is not there is refused. */
    method Put(v: Value, row: nat, column: nat) returns (ok: bool)
      requires row < |rows| ==> column < |rows[row]|
      modifies this
      ensures ok == (row < old(|rows|) && cap.put(old(rows), column, v)) && numColumns == old(numColumns)
      ensures rows == if ok then old(rows)[row := old(rows)[row][column := v]] else old(rows)
    {
      ok := row < |rows| && cap.put(rows, column, v);
      if ok { rows := rows[row := rows[row][column := v]]; }
    }
  }

  /** setWindowNumColumns */
  method SetWindowNumColumns(win: Window, nCol: nat) returns (ok: bool)
    modifies win
    ensures win.rows == [] && ok == win.cap.columns(nCol, win.clearings) && (ok ==> win.numColumns == nCol)
  {
    win.Clear();
    ok := win.SetNumColumns(nCol);
  }

  /** copyRowToWindow: a row that does not fit leaves the window as it was, and so does one with cells
      that is to be put behind the row added for it. */
  method CopyRowToWindow(win: Window, iRow: nat, row: Row) returns (bOk: bool)
    requires |win.rows| <= iRow && |row| == win.numColumns
    modifies win
    ensures win.numColumns == old(win.numColumns)
    ensures bOk == Takes(win.cap, old(win.rows), iRow, row)
    ensures win.rows == if bOk then old(win.rows) + [row] else old(win.rows)
  {
    ghost var rows := win.rows;
    bOk := win.AllocRow();
    assert row[..0] + Blank(|row|) == Blank(|row|);
    var i := 0;
    while bOk && i < |row|
      invariant i <= |row| && win.numColumns == old(win.numColumns)
      invariant bOk ==> win.rows == rows + [row[..i] + Blank(|row| - i)]
      invariant bOk ==> Fits(win.cap, rows, row) == PutsFit(win.cap, rows, row, i) && (i > 0 ==> iRow == |rows|)
      invariant !bOk ==> win.rows == rows && !Takes(win.cap, rows, iRow, row)
      decreases |row| - i, bOk
    {
      ghost var part := row[..i] + Blank(|row| - i);
      assert part[i := row[i]] == row[..i + 1] + Blank(|row| - (i + 1));
      bOk := win.Put(row[i], iRow, i);
      if bOk {
        i := i + 1;
      } else {
        win.FreeLastRow();
      }
    }
    if bOk { assert row[..i] + Blank(|row| - i) == row; }
  }

  // ---- what is copied

  /** One past the last row that fits when the rows from `start` on are put into an empty window. */
  function Fill(cap: Capacity, query: seq<Row>, start: nat, n: nat): (end: nat)
    requires start + n <= |query|
    ensures start + n <= end <= |query|
    decreases |query| - start - n
  {
    if start + n < |query| && Fits(cap, query[start..start + n], query[start + n]) then Fill(cap, query, start, n + 1)
    else start + n
  }

  /** Blocks of as many rows as fit follow each other until one holds the required row. */
  function StartFor(cap: Capacity, query: seq<Row>, start: nat, required: int): (iStart: nat)
    ensures iStart >= start
    decreases |query| - start
  {
    if start >= |query| then start
    else
      var end := Fill(cap, query, start, 0);
      if end == |query| || end > required || end == start then start else StartFor(cap, query, end, required)
  }

  /** Rows `from` to `to` fit one window one after the other, and the row behind them does not fit with them. */
  ghost predicate Filled(cap: Capacity, query: seq<Row>, from: nat, to: nat)
  {
    && from < to < |query| && !Fits(cap, query[from..to], query[to])
    && forall n | from <= n < to :: Fits(cap, query[from..n], query[n])
  }

  lemma {:induction false} FillIs(cap: Capacity, query: seq<Row>, start: nat, n: nat)
    requires start + n <= |query|
    ensures
      var end := Fill(cap, query, start, n);
      && (forall m | start + n <= m < end :: Fits(cap, query[start..m], query[m]))
      && (end < |query| ==> !Fits(cap, query[start..end], query[end]))
    decreases |query| - start - n
  {
    hide Fits;
    if start + n < |query| && Fits(cap, query[start..start + n], query[start + n]) {
      FillIs(cap, query, start, n + 1);
    }
  }

  /** Each of these starts is where the block from the one before it ended, not past the required row. */
  ghost predicate Chained(cap: Capacity, query: seq<Row>, starts: seq<nat>, required: int)
  {
    |starts| > 1 ==>
      Filled(cap, query, starts[0], starts[1]) && starts[1] <= required && Chained(cap, query, starts[1..], required)
  }

  /** How the window comes to its start: block after block, each as full as can be and ended before the required
      row was passed, until one is not, or holds nothing. */
  lemma {:induction false} StartForChain(cap: Capacity, query: seq<Row>, start: nat, required: int)
    returns (starts: seq<nat>)
    ensures |starts| > 0 && starts[0] == start && starts[|starts| - 1] == StartFor(cap, query, start, required)
    ensures Chained(cap, query, starts, required)
    ensures forall end: nat | Filled(cap, query, StartFor(cap, query, start, required), end) :: end > required
    decreases |query| - start
  {
    hide Fits;
    starts := [start];
    if start < |query| {
      var end := Fill(cap, query, start, 0);
      FillIs(cap, query, start, 0);
      assert forall e: nat | Filled(cap, query, start, e) :: e == end;
      if !(end == |query| || end > required || end == start) {
        var rest := StartForChain(cap, query, end, required);
        starts := [start] + rest;
        assert starts[1..] == rest;
      }
    }
  }

  /** The rows a window filled from iStart holds. */
  function Block(cap: Capacity, query: seq<Row>, iStart: nat): seq<Row>
  {
    if iStart > |query| then [] else query[iStart..Fill(cap, query, iStart, 0)]
  }

  /** One past the last row copied; past the query's end there is nothing to copy. */
  function BlockEnd(cap: Capacity, query: seq<Row>, iStart: nat): nat
  {
    if iStart > |query| then |query| else Fill(cap, query, iStart, 0)
  }

  ghost predicate Rectangular(query: seq<Row>, nCol: nat) { forall i | 0 <= i < |query| :: |query[i]| == nCol }

  /** The loop has copied rows iStart to nRow and not been refused since. */
  ghost predicate Copying(
    cap: Capacity, query: seq<Row>, startPos: nat, required: int, iStart: nat, nRow: nat, rows: seq<Row>)
  {
    && StartFor(cap, query, startPos, required) == StartFor(cap, query, iStart, required)
    && if nRow < iStart then rows == []
       else
         && nRow <= |query| && rows == query[iStart..nRow]
         && Fill(cap, query, iStart, 0) == Fill(cap, query, iStart, nRow - iStart)
  }

  /** The loop has been refused for good. */
  ghost predicate Full(cap: Capacity, query: seq<Row>, startPos: nat, required: int, iStart: nat, rows: seq<Row>)
  {
    && iStart <= |query| && iStart == StartFor(cap, query, startPos, required)
    && rows == query[iStart..Fill(cap, query, iStart, 0)]
  }

  lemma CopyingNext(
    cap: Capacity, query: seq<Row>, startPos: nat, required: int, iStart: nat, nRow: nat, rows: seq<Row>)
    requires iStart <= nRow < |query| && Copying(cap, query, startPos, required, iStart, nRow, rows)
    ensures Fits(cap, rows, query[nRow]) ==>
      Copying(cap, query, startPos, required, iStart, nRow + 1, rows + [query[nRow]])
    ensures !Fits(cap, rows, query[nRow]) ==> Fill(cap, query, iStart, 0) == nRow
    ensures !Fits(cap, rows, query[nRow]) && nRow > required ==> Full(cap, query, startPos, required, iStart, rows)
    ensures !Fits(cap, rows, query[nRow]) && nRow <= required ==>
      StartFor(cap, query, startPos, required) == StartFor(cap, query, nRow, required)
  {
    hide Fits;
    assert query[iStart..nRow + 1] == query[iStart..nRow] + [query[nRow]];
  }

  lemma Restarted(cap: Capacity, query: seq<Row>, startPos: nat, required: int, nRow: nat)
    requires nRow < |query| && StartFor(cap, query, startPos, required) == StartFor(cap, query, nRow, required)
    ensures Fits(cap, [], query[nRow]) ==> Copying(cap, query, startPos, required, nRow, nRow + 1, [query[nRow]])
    ensures !Fits(cap, [], query[nRow]) ==>
      Full(cap, query, startPos, required, nRow, []) && Fill(cap, query, nRow, 0) == nRow
  {
    hide Fits;
    assert query[nRow..nRow] == [] && query[nRow..nRow + 1] == [query[nRow]];
  }

  lemma CopiedAll(cap: Capacity, query: seq<Row>, startPos: nat, required: int, iStart: nat, rows: seq<Row>)
    requires Copying(cap, query, startPos, required, iStart, |query|, rows)
    ensures iStart == StartFor(cap, query, startPos, required) && rows == Block(cap, query, iStart)
    ensures BlockEnd(cap, query, iStart) == |query|
  {}

  lemma CopyingStart(cap: Capacity, query: seq<Row>, startPos: nat, required: int)
    ensures Copying(cap, query, startPos, required, startPos, 0, [])
  {}

  lemma CopyingBefore(
    cap: Capacity, query: seq<Row>, startPos: nat, required: int, iStart: nat, nRow: nat, rows: seq<Row>)
    requires nRow < iStart && nRow < |query| && Copying(cap, query, startPos, required, iStart, nRow, rows)
    ensures Copying(cap, query, startPos, required, iStart, nRow + 1, rows)
  {}

  lemma FullBlock(cap: Capacity, query: seq<Row>, startPos: nat, required: int, iStart: nat, rows: seq<Row>)
    requires Full(cap, query, startPos, required, iStart, rows)
    ensures iStart == StartFor(cap, query, startPos, required) && rows == Block(cap, query, iStart)
    ensures iStart <= |query| && BlockEnd(cap, query, iStart) == Fill(cap, query, iStart, 0)
  {}

  // ---- a negative start position

  /** The first row is put behind the row added for it: if it has cells, they are refused. */
  predicate Misplaced(cap: Capacity, query: seq<Row>, startPos: int)
  {
    startPos < 0 && |query| > 0 && !(Fits(cap, [], query[0]) && |query[0]| == 0)
  }

  /** ... and no row was required that would have started the window again. */
  predicate GivenUp(cap: Capacity, query: seq<Row>, startPos: int, required: int)
  {
    Misplaced(cap, query, startPos) && required < 0
  }

  function Clip(startPos: int): nat { if startPos < 0 then 0 else startPos }

  /** The rows the window ends with. */
  function Copied(cap: Capacity, query: seq<Row>, startPos: int, required: int): seq<Row>
  {
    if GivenUp(cap, query, startPos, required) then []
    else Block(cap, query, StartFor(cap, query, Clip(startPos), required))
  }

  /** iStart at the end: a negative startPos stays unless the window was started again. */
  function ReportedStart(cap: Capacity, query: seq<Row>, startPos: int, required: int): int
  {
    var start := StartFor(cap, query, Clip(startPos), required);
    if GivenUp(cap, query, startPos, required) then startPos
    else if startPos < 0 && start == 0 && !Misplaced(cap, query, startPos) then startPos
    else start
  }

  /** One past the last row copied. */
  function ReportedEnd(cap: Capacity, query: seq<Row>, startPos: int, required: int): nat
  {
    if GivenUp(cap, query, startPos, required) then 0
    else BlockEnd(cap, query, StartFor(cap, query, Clip(startPos), required))
  }

  /** What iStart has to do with the row the block begins at. */
  ghost predicate StartIs(cap: Capacity, query: seq<Row>, startPos: int, nRow: nat, iStart: int)
  {
    && (nRow == 0 ==> iStart == startPos)
    && if startPos < 0 then
         && (iStart < 0 ==> iStart == startPos && (nRow > 0 ==> !Misplaced(cap, query, startPos)))
         && (iStart == 0 ==> Misplaced(cap, query, startPos))
       else iStart >= 0
  }

  /** The loop so far, not refused for good. */
  ghost predicate Running(
    cap: Capacity, query: seq<Row>, startPos: int, required: int, iStart: int, nRow: nat, rows: seq<Row>)
  {
    && StartIs(cap, query, startPos, nRow, iStart) && (nRow > 0 ==> !GivenUp(cap, query, startPos, required))
    && Copying(cap, query, Clip(startPos), required, Clip(iStart), nRow, rows)
  }

  /** The loop once nothing more is copied. */
  ghost predicate Over(cap: Capacity, query: seq<Row>, startPos: int, required: int, iStart: int, rows: seq<Row>)
  {
    if GivenUp(cap, query, startPos, required) then iStart == startPos && rows == []
    else StartIs(cap, query, startPos, 1, iStart) && Full(cap, query, Clip(startPos), required, Clip(iStart), rows)
  }

  /** A row with no cells goes wherever a row can be added; later rows of a negative start have none. */
  lemma TakesFits(
    cap: Capacity, query: seq<Row>, nCol: nat, startPos: int, required: int, iStart: int, nRow: nat, rows: seq<Row>)
    requires Rectangular(query, nCol) && iStart <= nRow < |query|
    requires Running(cap, query, startPos, required, iStart, nRow, rows)
    ensures nRow - iStart >= |rows|
    ensures iStart >= 0 || nRow > 0 ==>
      Takes(cap, rows, nRow - iStart, query[nRow]) == Fits(cap, rows, query[nRow])
    ensures iStart < 0 && nRow == 0 ==>
      rows == [] && Takes(cap, rows, nRow - iStart, query[nRow]) == !Misplaced(cap, query, startPos)
  {
    hide Fits, StartFor, Fill;
    assert |query[0]| == nCol && |query[nRow]| == nCol;
  }

  lemma RowTaken(
    cap: Capacity, query: seq<Row>, nCol: nat, startPos: int, required: int, iStart: int, nRow: nat, rows: seq<Row>)
    requires Rectangular(query, nCol) && iStart <= nRow < |query|
    requires Running(cap, query, startPos, required, iStart, nRow, rows)
    requires Takes(cap, rows, nRow - iStart, query[nRow])
    ensures Running(cap, query, startPos, required, iStart, nRow + 1, rows + [query[nRow]])
  {
    hide Fits, Copying, Full, Rectangular;
    TakesFits(cap, query, nCol, startPos, required, iStart, nRow, rows);
    CopyingNext(cap, query, Clip(startPos), required, Clip(iStart), nRow, rows);
  }

  lemma RowRefused(
    cap: Capacity, query: seq<Row>, nCol: nat, startPos: int, required: int, iStart: int, nRow: nat, rows: seq<Row>)
    requires Rectangular(query, nCol) && iStart <= nRow < |query|
    requires Running(cap, query, startPos, required, iStart, nRow, rows)
    requires !Takes(cap, rows, nRow - iStart, query[nRow])
    ensures nRow > required ==>
      Over(cap, query, startPos, required, iStart, rows) && ReportedEnd(cap, query, startPos, required) == nRow
    ensures nRow <= required ==>
      StartIs(cap, query, startPos, nRow + 1, nRow) && !GivenUp(cap, query, startPos, required)
      && StartFor(cap, query, Clip(startPos), required) == StartFor(cap, query, nRow, required)
  {
    hide Fits, Copying, Full, Rectangular, BlockEnd, Takes, StartFor;
    TakesFits(cap, query, nCol, startPos, required, iStart, nRow, rows);
    CopyingNext(cap, query, Clip(startPos), required, Clip(iStart), nRow, rows);
    if nRow > required && !Fits(cap, rows, query[nRow]) {
      FullBlock(cap, query, Clip(startPos), required, Clip(iStart), rows);
    }
  }

  lemma RowRetried(cap: Capacity, query: seq<Row>, startPos: int, required: int, nRow: nat)
    requires nRow < |query| && !GivenUp(cap, query, startPos, required)
    requires StartIs(cap, query, startPos, nRow + 1, nRow)
    requires StartFor(cap, query, Clip(startPos), required) == StartFor(cap, query, nRow, required)
    ensures Takes(cap, [], 0, query[nRow]) ==>
      Running(cap, query, startPos, required, nRow, nRow + 1, [query[nRow]])
    ensures !Takes(cap, [], 0, query[nRow]) ==>
      Over(cap, query, startPos, required, nRow, []) && ReportedEnd(cap, query, startPos, required) == nRow
  {
    hide Fits, Copying, Full, BlockEnd, StartFor, Misplaced, GivenUp;
    Restarted(cap, query, Clip(startPos), required, nRow);
    if !Fits(cap, [], query[nRow]) { FullBlock(cap, query, Clip(startPos), required, nRow, []); }
  }

  lemma RowBefore(
    cap: Capacity, query: seq<Row>, startPos: int, required: int, iStart: int, nRow: nat, rows: seq<Row>)
    requires nRow < iStart && nRow < |query| && Running(cap, query, startPos, required, iStart, nRow, rows)
    ensures Running(cap, query, startPos, required, iStart, nRow + 1, rows)
  {
    hide Fits, Copying, StartFor;
    CopyingBefore(cap, query, Clip(startPos), required, Clip(iStart), nRow, rows);
  }

  /** What the function answers, once all is copied or nothing more can be. */
  lemma RunReports(cap: Capacity, query: seq<Row>, startPos: int, required: int, iStart: int, rows: seq<Row>)
    requires Running(cap, query, startPos, required, iStart, |query|, rows)
    ensures iStart == ReportedStart(cap, query, startPos, required) && rows == Copied(cap, query, startPos, required)
    ensures ReportedEnd(cap, query, startPos, required) == |query|
  {
    hide Fits, Copying, StartFor, Block, BlockEnd;
    CopiedAll(cap, query, Clip(startPos), required, Clip(iStart), rows);
  }

  lemma OverReports(cap: Capacity, query: seq<Row>, startPos: int, required: int, iStart: int, rows: seq<Row>)
    requires Over(cap, query, startPos, required, iStart, rows)
    ensures iStart == ReportedStart(cap, query, startPos, required) && rows == Copied(cap, query, startPos, required)
  {
    hide Fits, Full, StartFor, Block, BlockEnd;
    if !GivenUp(cap, query, startPos, required) {
      FullBlock(cap, query, Clip(startPos), required, Clip(iStart), rows);
    }
  }

  lemma RunStarts(cap: Capacity, query: seq<Row>, startPos: int, required: int)
    ensures Running(cap, query, startPos, required, startPos, 0, [])
  {
    hide Copying;
    CopyingStart(cap, query, Clip(startPos), required);
  }

  lemma WidthAt(query: seq<Row>, nCol: nat, i: nat)
    requires Rectangular(query, nCol) && i < |query|
    ensures |query[i]| == nCol
  {}

  /** nativeExecuteForCursorWindow; None is a window that refuses its columns, or an exception. */
  method ExecuteForCursorWindow(
    win: Window, query: seq<Row>, nCol: nat, finished: bool, startPos: int, iRowRequired: int, countAllRows: bool)
    returns (lRet: Option<int>)
    requires Rectangular(query, nCol) && |query| < 0x8000_0000 && -0x8000_0000 <= startPos < 0x8000_0000
    modifies win
    ensures lRet.None? ==> !finished || exists k: nat :: !win.cap.columns(nCol, k)
    ensures lRet.Some? ==>
      && win.rows == Copied(win.cap, query, startPos, iRowRequired)
      && lRet.value == ReportedStart(win.cap, query, startPos, iRowRequired) * 0x1_0000_0000
                       + if countAllRows then |query| else ReportedEnd(win.cap, query, startPos, iRowRequired)
  {
    hide Fits, StartFor, Running, Over, Rectangular, Copied, ReportedStart, ReportedEnd, GivenUp, StartIs;
    var bOk := SetWindowNumColumns(win, nCol);
    if !bOk { return None; }
    var nRow: nat, iStart: int := 0, startPos;
    RunStarts(win.cap, query, startPos, iRowRequired);
    while nRow < |query|
      invariant nRow <= |query| && win.numColumns == nCol
      invariant bOk ==> Running(win.cap, query, startPos, iRowRequired, iStart, nRow, win.rows)
      invariant !bOk ==> Over(win.cap, query, startPos, iRowRequired, iStart, win.rows) && countAllRows
    {
      WidthAt(query, nCol, nRow);
      if nRow >= iStart && bOk {
        ghost var rows := win.rows;
        TakesFits(win.cap, query, nCol, startPos, iRowRequired, iStart, nRow, rows);
        bOk := CopyRowToWindow(win, nRow - iStart, query[nRow]);
        if bOk {
          RowTaken(win.cap, query, nCol, startPos, iRowRequired, iStart, nRow, rows);
        } else {
          RowRefused(win.cap, query, nCol, startPos, iRowRequired, iStart, nRow, rows);
          if nRow <= iRowRequired {
            bOk := SetWindowNumColumns(win, nCol);
            if !bOk { return None; }
            iStart := nRow;
            bOk := CopyRowToWindow(win, nRow - iStart, query[nRow]);
            RowRetried(win.cap, query, startPos, iRowRequired, nRow);
            assert [] + [query[nRow]] == [query[nRow]];
          }
          if !bOk && !countAllRows {
            OverReports(win.cap, query, startPos, iRowRequired, iStart, win.rows);
            return Some(iStart * 0x1_0000_0000 + nRow);
          }
        }
      } else if bOk {
        RowBefore(win.cap, query, startPos, iRowRequired, iStart, nRow, win.rows);
      }
      nRow := nRow + 1;
    }
    if !finished { return None; }
    if bOk {
      RunReports(win.cap, query, startPos, iRowRequired, iStart, win.rows);
    } else {
      OverReports(win.cap, query, startPos, iRowRequired, iStart, win.rows);
    }
    return Some(iStart * 0x1_0000_0000 + nRow);
  }

  // ---- what the caller is promised

  /** Every row from `from` up to `to`, by itself, fits an empty window. */
  ghost predicate RowsFit(cap: Capacity, query: seq<Row>, from: nat, to: nat)
    requires to <= |query|
  {
    forall i | from <= i < to :: Fits(cap, [], query[i])
  }

  lemma FillMoves(cap: Capacity, query: seq<Row>, start: nat)
    requires start < |query|
    ensures Fill(cap, query, start, 0) > start <==> Fits(cap, [], query[start])
  {
    assert query[start..start] == [];
  }

  /** If every row from startPos to the required one by itself fits an empty window, the block copied is
      of the query's rows in a row, begins at or after startPos, and holds the required row; after
      it comes the query's end or a row that did not fit. */
  lemma {:induction false} RequiredRowCopied(cap: Capacity, query: seq<Row>, startPos: nat, required: nat)
    requires startPos <= required < |query| && RowsFit(cap, query, startPos, required + 1)
    ensures
      var iStart := StartFor(cap, query, startPos, required);
      var end := BlockEnd(cap, query, iStart);
      && startPos <= iStart <= required < end <= |query|
      && Block(cap, query, iStart) == query[iStart..end]
      && (end < |query| ==> !Fits(cap, query[iStart..end], query[end]))
    decreases |query| - startPos
  {
    hide Fits;
    FillMoves(cap, query, startPos);
    FillStops(cap, query, startPos, 0);
    var end := Fill(cap, query, startPos, 0);
    if end <= required {
      RequiredRowCopied(cap, query, end, required);
    }
  }

  lemma {:induction false} FillStops(cap: Capacity, query: seq<Row>, start: nat, n: nat)
    requires start + n <= |query|
    ensures var end := Fill(cap, query, start, n); end < |query| ==> !Fits(cap, query[start..end], query[end])
    decreases |query| - start - n
  {
    hide Fits;
    if start + n < |query| && Fits(cap, query[start..start + n], query[start + n]) {
      FillStops(cap, query, start, n + 1);
    }
  }

  /** An empty window takes whatever a fuller one does. */
  ghost predicate Monotone(cap: Capacity)
  {
    forall rows, row :: Fits(cap, rows, row) ==> Fits(cap, [], row)
  }

  /** No block runs over a row that does not fit an empty window. */
  lemma {:induction false} FillBeforeMisfit(cap: Capacity, query: seq<Row>, start: nat, n: nat, misfit: nat)
    requires Monotone(cap) && start + n <= misfit < |query| && !Fits(cap, [], query[misfit])
    ensures Fill(cap, query, start, n) <= misfit
    decreases |query| - start - n
  {
    hide Fits;
    if Fits(cap, query[start..start + n], query[start + n]) {
      FillBeforeMisfit(cap, query, start, n + 1, misfit);
    }
  }

  /** The first row from startPos to the required one that does not fit an empty window leaves it
      empty: it is started again for that row, and the row is refused again. */
  lemma {:induction false} NoRoomNoRow(cap: Capacity, query: seq<Row>, startPos: nat, required: nat, misfit: nat)
    requires Monotone(cap) && startPos <= misfit <= required < |query|
    requires RowsFit(cap, query, startPos, misfit) && !Fits(cap, [], query[misfit])
    ensures StartFor(cap, query, startPos, required) == misfit == BlockEnd(cap, query, misfit)
    ensures Block(cap, query, misfit) == []
    decreases |query| - startPos
  {
    hide Fits;
    FillMoves(cap, query, startPos);
    FillBeforeMisfit(cap, query, startPos, 0, misfit);
    FillMoves(cap, query, misfit);
    if startPos < misfit {
      NoRoomNoRow(cap, query, Fill(cap, query, startPos, 0), required, misfit);
    }
  }

  lemma {:induction false} FirstMisfit(cap: Capacity, query: seq<Row>, from: nat, to: nat) returns (misfit: nat)
    requires to <= |query| && !RowsFit(cap, query, from, to)
    ensures from <= misfit < to && RowsFit(cap, query, from, misfit) && !Fits(cap, [], query[misfit])
    decreases |query| - from
  {
    hide Fits;
    if Fits(cap, [], query[from]) {
      misfit := FirstMisfit(cap, query, from + 1, to);
    } else {
      misfit := from;
    }
  }

  /** The required row is copied exactly when it and every row from startPos to it fit an empty window. */
  lemma RequiredRowIff(cap: Capacity, query: seq<Row>, startPos: nat, required: nat)
    requires Monotone(cap) && startPos <= required < |query|
    ensures
      var iStart := StartFor(cap, query, startPos, required);
      iStart <= required < BlockEnd(cap, query, iStart) <==> RowsFit(cap, query, startPos, required + 1)
  {
    hide RowsFit, Monotone, BlockEnd, StartFor;
    if RowsFit(cap, query, startPos, required + 1) {
      RequiredRowCopied(cap, query, startPos, required);
    } else {
      var misfit := FirstMisfit(cap, query, startPos, required + 1);
      NoRoomNoRow(cap, query, startPos, required, misfit);
    }
  }

  /** What is reported from a start position of the query: the rows copied, by the place of the first one and of the
      one behind the last; past the query's end, no row and their number. */
  lemma ReportsRows(cap: Capacity, query: seq<Row>, startPos: nat, required: int)
    ensures
      var start, end := ReportedStart(cap, query, startPos, required), ReportedEnd(cap, query, startPos, required);
      && startPos <= start && end <= |query|
      && (startPos > |query| ==> start == startPos && end == |query| && Copied(cap, query, startPos, required) == [])
      && (startPos <= |query| ==>
            start <= end && Copied(cap, query, startPos, required) == query[start..end])
  {
    hide Fits;
    if startPos <= |query| { StartInside(cap, query, Clip(startPos), required); }
  }

  lemma {:induction false} StartInside(cap: Capacity, query: seq<Row>, start: nat, required: int)
    requires start <= |query|
    ensures StartFor(cap, query, start, required) <= |query|
    decreases |query| - start
  {
    hide Fits;
    if start < |query| && start < Fill(cap, query, start, 0) < |query| {
      StartInside(cap, query, Fill(cap, query, start, 0), required);
    }
  }

  /** A negative start position, in a query with rows and columns, leaves nothing copied and everything as it was if
      no row is required; with a required row it is as good as 0. */
  lemma NegativeStart(cap: Capacity, query: seq<Row>, startPos: int, required: int)
    requires startPos < 0 && |query| > 0 && |query[0]| > 0
    ensures required < 0 ==>
      && Copied(cap, query, startPos, required) == [] && ReportedStart(cap, query, startPos, required) == startPos
      && ReportedEnd(cap, query, startPos, required) == 0
    ensures required >= 0 ==>
      && Copied(cap, query, startPos, required) == Copied(cap, query, 0, required)
      && ReportedStart(cap, query, startPos, required) == ReportedStart(cap, query, 0, required)
      && ReportedEnd(cap, query, startPos, required) == ReportedEnd(cap, query, 0, required)
  {
    hide Fits, StartFor, Block, BlockEnd;
  }

  // ---- the collation

  /** memcmp of the first n bytes; only its sign is defined. */
  function MemCmp(a: Str, b: Str, i: nat, n: nat): int
    requires i <= n <= |a| && n <= |b|
    decreases n - i
  {
    if i == n then 0
    else if a[i] != b[i] then (a[i] as int) - (b[i] as int)
    else MemCmp(a, b, i + 1, n)
  }

  /** coll_localized */
  function Collate(a: Str, b: Str): int
  {
    var n := if |a| < |b| then |a| else |b|;
    var rc := MemCmp(a, b, 0, n);
    if rc == 0 then |a| - |b| else rc
  }

  /** Where two strings part: the first byte that differs, or the end of the shorter. */
  lemma {:induction false} MemCmpParts(a: Str, b: Str, i: nat, n: nat) returns (k: nat)
    requires i <= n <= |a| && n <= |b|
    ensures i <= k <= n && forall j | i <= j < k :: a[j] == b[j]
    ensures if k == n then MemCmp(a, b, i, n) == 0
            else a[k] != b[k] && MemCmp(a, b, i, n) == (a[k] as int) - (b[k] as int)
    decreases n - i
  {
    if i == n || a[i] != b[i] {
      k := i;
    } else {
      k := MemCmpParts(a, b, i + 1, n);
    }
  }

  /** a and b agree below k; there one ends or they differ, and that decides. */
  ghost predicate PartAt(a: Str, b: Str, k: nat, c: int)
  {
    && k <= |a| && k <= |b| && (forall j | 0 <= j < k :: a[j] == b[j])
    && if k == |a| || k == |b| then c == |a| - |b|
       else a[k] != b[k] && c == (a[k] as int) - (b[k] as int)
  }

  lemma CollateParts(a: Str, b: Str) returns (k: nat)
    ensures PartAt(a, b, k, Collate(a, b))
  {
    k := MemCmpParts(a, b, 0, if |a| < |b| then |a| else |b|);
  }

  /** a comes before b where dictionaries put it: the first byte that differs is smaller, as an unsigned number, or
      a is the beginning of b. */
  ghost predicate Precedes(a: Str, b: Str)
  {
    a < b || exists k :: 0 <= k < |a| && k < |b| && a[..k] == b[..k] && a[k] < b[k]
  }

  lemma CollateIff(a: Str, b: Str)
    ensures Collate(a, b) < 0 <==> Precedes(a, b)
    ensures Collate(a, b) > 0 <==> Precedes(b, a)
  {
    var k := CollateParts(a, b);
    assert a[..k] == b[..k];
    PartedOnce(a, b, k);
    PartedOnce(b, a, k);
  }

  /** Where two strings part decides which precedes. */
  lemma PartedOnce(a: Str, b: Str, k: nat)
    requires k <= |a| && k <= |b| && a[..k] == b[..k] && (k == |a| || k == |b| || a[k] != b[k])
    ensures Precedes(a, b) <==> if k == |a| || k == |b| then |a| < |b| else a[k] < b[k]
  {
    if k == |a| && |a| < |b| { assert a == a[..k] && b[..k] <= b; }
    if k < |a| && k < |b| { assert a[k] < b[k] ==> Precedes(a, b); }
    if Precedes(a, b) {
      if a < b {
        assert forall j | 0 <= j < |a| :: a[j] == b[j];
      } else {
        var j :| 0 <= j < |a| && j < |b| && a[..j] == b[..j] && a[j] < b[j];
      }
    }
  }

  /** Zero means equal byte strings, and only that. */
  lemma CollateZero(a: Str, b: Str)
    ensures Collate(a, b) == 0 <==> a == b
  {
    var k := CollateParts(a, b);
  }

  lemma PartsMeet(a: Str, b: Str, k: nat, c: int, l: nat, d: int)
    requires PartAt(a, b, k, c) && PartAt(b, a, l, d)
    ensures k == l && (c < 0 <==> d > 0)
  {}

  lemma CollateAntisymmetric(a: Str, b: Str)
    ensures Collate(a, b) < 0 <==> Collate(b, a) > 0
  {
    var k := CollateParts(a, b);
    var l := CollateParts(b, a);
    PartsMeet(a, b, k, Collate(a, b), l, Collate(b, a));
  }

  lemma PartsChain(a: Str, b: Str, c: Str, k: nat, x: int, l: nat, y: int, m: nat, z: int)
    requires PartAt(a, b, k, x) && PartAt(b, c, l, y) && PartAt(a, c, m, z)
    requires x < 0 && y < 0
    ensures z < 0
  {
    if k < l {
      assert k < |b| ==> b[k] == c[k];
      assert m == k;
    } else if l < k {
      assert a[l] == b[l];
      assert m == l;
    } else {
      assert m == k;
    }
  }

  /** The ordering laws SQLite asks of a collating function, for strings of any length. */
  lemma CollateTransitive(a: Str, b: Str, c: Str)
    requires Collate(a, b) < 0 && Collate(b, c) < 0
    ensures Collate(a, c) < 0
  {
    var k := CollateParts(a, b);
    var l := CollateParts(b, c);
    var m := CollateParts(a, c);
    PartsChain(a, b, c, k, Collate(a, b), l, Collate(b, c), m, Collate(a, c));
  }
}
