/** The table document and its workbook adapter. The document's shared
    sequence of cell markers is the field `cells` (one string per marker,
    its "value" property) and the "stride" counter of its root map is the
    field `stride`. The external formula engine (the adapter's base class)
    is represented by what it is handed: the grid given to its init, and
    the log of setCellText calls it receives. */
module Table {
  import GridIndex
  import MarkerSequence
  import opened Calc

  /** A setCellText call received by the formula engine. */
  datatype CellWrite = CellWrite(row: int, col: int, value: Primitive, isExternal: bool)

  /** An "op" event the document re-emits to its own listeners. The op's
      contents are opaque to this model. */
  datatype OpEvent = OpEvent(op: string, local: bool)

  /** The two corner positions createRange adds to the interval collection
      named `name`. */
  datatype Interval = Interval(name: string, start: int, end: int)

  /** The dimensions create() lays out. */
  const InitialRows: nat := 7
  const InitialCols: nat := 8

  /** The row-major two-dimensional view of the first numRows * numCols
      markers: row r holds the markers at positions [r * numCols, (r + 1) * numCols). */
  function GridRows(cells: seq<string>, numRows: nat, numCols: int): (g: seq<seq<string>>)
    requires numCols > 0 && numRows * numCols <= |cells|
    ensures |g| == numRows
    decreases numRows
  {
    if numRows == 0 then []
    else
      GridIndex.MulMonotone(numRows - 1, numRows, numCols);
      GridRows(cells, numRows - 1, numCols) + [cells[(numRows - 1) * numCols .. numRows * numCols]]
  }

  /** One more row of the view is the next numCols markers. */
  lemma GridRowsStep(cells: seq<string>, numRows: nat, numCols: int)
    requires numCols > 0 && (numRows + 1) * numCols <= |cells|
    ensures 0 <= numRows * numCols <= numRows * numCols + numCols == (numRows + 1) * numCols
    ensures GridRows(cells, numRows + 1, numCols) ==
      GridRows(cells, numRows, numCols) + [cells[numRows * numCols .. numRows * numCols + numCols]]
  {
  }

  /** Each row of the view has numCols entries, and entry (row, col) is the
      marker at position rowColToPosition(row, col). */
  lemma {:induction false} GridRowsAt(cells: seq<string>, numRows: nat, numCols: int, row: int, col: int)
    requires numCols > 0 && numRows * numCols <= |cells|
    requires 0 <= row < numRows && 0 <= col < numCols
    ensures |GridRows(cells, numRows, numCols)[row]| == numCols
    ensures GridRows(cells, numRows, numCols)[row][col] == cells[GridIndex.RowColToPosition(row, col, numCols)]
  {
    GridIndex.MulMonotone(numRows - 1, numRows, numCols);
    if row < numRows - 1 {
      GridRowsAt(cells, numRows - 1, numCols, row, col);
    }
  }

  /** The first `count` pushes of the full-grid walk: the k-th push carries
      the coordinate of position k, the text of the marker at position k, and
      isExternal = true. */
  function ExternalPushes(cells: seq<string>, count: nat, numCols: int): (w: seq<CellWrite>)
    requires numCols > 0 && count <= |cells|
    ensures |w| == count
  {
    seq(count, k requires 0 <= k < count =>
      var rc := GridIndex.PositionToRowCol(k, numCols);
      CellWrite(rc.row, rc.col, Str(cells[k]), true))
  }

  /** One more step of the walk appends the push for the next position. */
  lemma ExternalPushesStep(cells: seq<string>, count: nat, numCols: int, row: int, col: int)
    requires numCols > 0 && count < |cells| && 0 <= col < numCols
    requires count == GridIndex.RowColToPosition(row, col, numCols)
    ensures ExternalPushes(cells, count + 1, numCols) ==
      ExternalPushes(cells, count, numCols) + [CellWrite(row, col, Str(cells[count]), true)]
  {
    GridIndex.RowColRoundTrip(row, col, numCols);
    assert ExternalPushes(cells, count + 1, numCols)[..count] == ExternalPushes(cells, count, numCols);
  }

  /** The full walk over a numRows x numCols grid pushes every cell of the
      grid exactly at its own position, only cells of the grid, and in
      row-major order. */
  lemma ExternalPushesRowMajor(cells: seq<string>, numRows: nat, numCols: int)
    requires numCols > 0 && numRows * numCols <= |cells|
    ensures var w := ExternalPushes(cells, numRows * numCols, numCols);
      |w| == numRows * numCols &&
      (forall row, col :: 0 <= row < numRows && 0 <= col < numCols ==>
        0 <= GridIndex.RowColToPosition(row, col, numCols) < |w| &&
        w[GridIndex.RowColToPosition(row, col, numCols)] ==
          CellWrite(row, col, Str(cells[GridIndex.RowColToPosition(row, col, numCols)]), true)) &&
      (forall k :: 0 <= k < |w| ==>
        0 <= w[k].row < numRows && 0 <= w[k].col < numCols && w[k].isExternal) &&
      (forall i, j :: 0 <= i < j < |w| ==>
        w[i].row < w[j].row || (w[i].row == w[j].row && w[i].col < w[j].col))
  {
    var w := ExternalPushes(cells, numRows * numCols, numCols);
    forall row, col | 0 <= row < numRows && 0 <= col < numCols
      ensures 0 <= GridIndex.RowColToPosition(row, col, numCols) < |w|
      ensures w[GridIndex.RowColToPosition(row, col, numCols)] ==
        CellWrite(row, col, Str(cells[GridIndex.RowColToPosition(row, col, numCols)]), true)
    {
      GridIndex.InGridIff(row, col, numRows, numCols);
      GridIndex.RowColRoundTrip(row, col, numCols);
    }
    forall k | 0 <= k < |w|
      ensures 0 <= w[k].row < numRows && 0 <= w[k].col < numCols && w[k].isExternal
    {
      var rc := GridIndex.PositionToRowCol(k, numCols);
      GridIndex.InGridIff(rc.row, rc.col, numRows, numCols);
    }
    forall i, j | 0 <= i < j < |w|
      ensures w[i].row < w[j].row || (w[i].row == w[j].row && w[i].col < w[j].col)
    {
      var a, b := GridIndex.PositionToRowCol(i, numCols), GridIndex.PositionToRowCol(j, numCols);
      GridIndex.PositionOrderIsRowMajor(a.row, a.col, b.row, b.col, numCols);
    }
  }

  /** The inner loop of the adapter's constructor: the cells of one row of
      the document's grid, loaded column by column. */
  method LoadRow(doc: TableDocument, row: int) returns (rowArray: seq<string>)
    requires doc.Valid() && 0 <= row < doc.NumRows()
    ensures 0 <= row * doc.NumCols() && (row + 1) * doc.NumCols() <= |doc.cells|
    ensures rowArray == doc.cells[row * doc.NumCols() .. (row + 1) * doc.NumCols()]
  {
    var numRows, numCols := doc.NumRows(), doc.NumCols();
    GridIndex.MulMonotone(row + 1, numRows, numCols);
    ghost var first := row * numCols;
    assert (row + 1) * numCols == first + numCols;
    rowArray := [];
    var col := 0;
    while col < doc.NumCols()
      invariant 0 <= col <= numCols
      invariant 0 <= first && first + numCols <= |doc.cells|
      invariant rowArray == doc.cells[first .. first + col]
    {
      assert GridIndex.RowColToPosition(row, col, numCols) == first + col;
      rowArray := rowArray + [doc.LoadCellText(row, col)];
      col := col + 1;
    }
  }

  /** The nested loops of the adapter's constructor: every cell of the
      document's grid is loaded, row by row and within a row column by column,
      into the array of rows handed to the engine's init. */
  method LoadInitGrid(doc: TableDocument) returns (init: seq<seq<string>>)
    requires doc.Valid()
    ensures init == GridRows(doc.cells, doc.NumRows(), doc.NumCols())
  {
    var numRows, numCols := doc.NumRows(), doc.NumCols();
    init := [];
    var row := 0;
    while row < doc.NumRows()
      invariant 0 <= row <= numRows
      invariant row * numCols <= |doc.cells|
      invariant init == GridRows(doc.cells, row, numCols)
    {
      var rowArray := LoadRow(doc, row);
      GridRowsStep(doc.cells, row, numCols);
      init := init + [rowArray];
      row := row + 1;
    }
  }

  /** What the adapter loads for a cell of the grid is what init was handed
      for that cell, as long as the document's markers are those the grid
      was loaded from (as the adapter's constructor leaves them). */
  lemma AdapterLoadIsInitGrid(wb: WorkbookAdapter, row: int, col: int)
    requires wb.doc.Valid()
    requires wb.initGrid == GridRows(wb.doc.cells, wb.doc.NumRows(), wb.doc.NumCols())
    requires 0 <= row < wb.doc.NumRows() && 0 <= col < wb.doc.NumCols()
    ensures wb.doc.HoldsPosition(row, col)
    ensures |wb.initGrid[row]| == wb.doc.NumCols()
    ensures wb.LoadCellText(row, col) == wb.initGrid[row][col]
  {
    GridIndex.InGridIff(row, col, wb.doc.NumRows(), wb.doc.NumCols());
    GridRowsAt(wb.doc.cells, wb.doc.NumRows(), wb.doc.NumCols(), row, col);
  }

  class TableDocument {
    /** The value of each marker of the shared sequence, in sequence order. */
    var cells: seq<string>
    /** The "stride" counter. */
    var stride: int
    /** The workbook adapter, once the document is opened. */
    var workbook: WorkbookAdapter?
    /** The "op" events re-emitted so far. */
    var emitted: seq<OpEvent>

    /** A positive stride over a non-empty sequence: numCols and numRows are
        then defined. */
    ghost predicate Valid()
      reads this
    {
      stride > 0 && |cells| > 0
    }

    /** The marker that (row, col) addresses exists. */
    ghost predicate HoldsPosition(row: int, col: int)
      reads this
    {
      0 <= GridIndex.RowColToPosition(row, col, NumCols()) < |cells|
    }

    function NumCols(): int
      reads this
    {
      GridIndex.NumCols(stride, |cells|)
    }

    function NumRows(): nat
      reads this
      requires Valid()
    {
      GridIndex.NumRows(stride, |cells|)
    }

    /** create(): a fresh sequence of 7 * 8 markers holding "", each inserted
        at position 0, and the stride counter set to 8. */
    constructor Create()
      ensures cells == seq(InitialRows * InitialCols, _ => "")
      ensures stride == InitialCols
      ensures Valid() && NumCols() == 8 && NumRows() == 7 && |cells| == 56
      ensures workbook == null && emitted == []
    {
      var numRows, numCols := InitialRows, InitialCols;
      stride := numCols;
      var text: seq<string> := [];
      var i := numRows * numCols;
      while i > 0
        invariant 0 <= i <= numRows * numCols
        invariant |text| == numRows * numCols - i
        invariant forall k :: 0 <= k < |text| ==> text[k] == ""
      {
        text := MarkerSequence.InsertMarker(text, 0, "");
        i := i - 1;
      }
      cells := text;
      workbook := null;
      emitted := [];
    }

    /** A document whose sequence and stride counter are found already in the
        collaborative state when it is loaded. */
    constructor Load(text: seq<string>, stride: int)
      ensures cells == text && this.stride == stride
      ensures workbook == null && emitted == []
    {
      cells := text;
      this.stride := stride;
      workbook := null;
      emitted := [];
    }

    /** loadCellText: the value of the marker at rowColToPosition(row, col). */
    function LoadCellText(row: int, col: int): string
      reads this
      requires Valid() && HoldsPosition(row, col)
    {
      cells[GridIndex.RowColToPosition(row, col, NumCols())]
    }

    /** storeCellText: removes the marker at rowColToPosition(row, col) and
        inserts a fresh one holding value.toString() at the same position. */
    method StoreCellText(row: int, col: int, value: Primitive)
      requires Valid() && HoldsPosition(row, col)
      modifies this`cells
      ensures |cells| == old(|cells|)
      ensures cells == old(cells)[GridIndex.RowColToPosition(row, col, NumCols()) := ToText(value)]
      ensures Valid() && NumCols() == old(NumCols()) && NumRows() == old(NumRows())
      ensures HoldsPosition(row, col) && LoadCellText(row, col) == ToText(value)
    {
      var position := GridIndex.RowColToPosition(row, col, NumCols());
      ghost var before := cells;
      cells := MarkerSequence.RemoveText(cells, position, position + 1);
      cells := MarkerSequence.InsertMarker(cells, position, ToText(value));
      MarkerSequence.ReplaceIsUpdate(before, position, ToText(value));
    }

    /** createRange: the positions of the two corners. A corner whose column
        lies inside the stride maps back to its own coordinate, and the
        start precedes the end exactly when the first corner comes first in
        row-major order. */
    function CreateRange(name: string, minRow: int, minCol: int, maxRow: int, maxCol: int): (r: Interval)
      reads this
      requires Valid()
      ensures r.name == name
      ensures 0 <= minCol < NumCols() ==>
        GridIndex.PositionToRowCol(r.start, NumCols()) == GridIndex.RowCol(minRow, minCol)
      ensures 0 <= maxCol < NumCols() ==>
        GridIndex.PositionToRowCol(r.end, NumCols()) == GridIndex.RowCol(maxRow, maxCol)
      ensures 0 <= minCol < NumCols() && 0 <= maxCol < NumCols() ==>
        (r.start <= r.end <==> minRow < maxRow || (minRow == maxRow && minCol <= maxCol))
    {
      var numCols := NumCols();
      var r := Interval(name, GridIndex.RowColToPosition(minRow, minCol, numCols),
        GridIndex.RowColToPosition(maxRow, maxCol, numCols));
      if 0 <= minCol < numCols && 0 <= maxCol < numCols then
        GridIndex.RowColRoundTrip(minRow, minCol, numCols);
        GridIndex.RowColRoundTrip(maxRow, maxCol, numCols);
        GridIndex.PositionOrderIsRowMajor(maxRow, maxCol, minRow, minCol, numCols);
        r
      else if 0 <= minCol < numCols then
        GridIndex.RowColRoundTrip(minRow, minCol, numCols);
        r
      else if 0 <= maxCol < numCols then
        GridIndex.RowColRoundTrip(maxRow, maxCol, numCols);
        r
      else
        r
    }

    /** The rest of opened(): the workbook adapter is constructed over this
        document (and the "op" handler, OnOp, is in place). initStores are
        the stores the engine's init issues back through storeCellText. */
    method Open(initStores: seq<CellWrite>)
      requires Valid()
      modifies this
      ensures workbook != null && fresh(workbook) && workbook.doc == this
      ensures cells == old(cells) && stride == old(stride) && emitted == old(emitted)
      ensures !workbook.isInitializing && workbook.received == []
      ensures workbook.initGrid == GridRows(cells, NumRows(), NumCols())
    {
      var adapter := new WorkbookAdapter(this, initStores);
      workbook := adapter;
    }

    /** The "op" handler: for an op that is not local, every cell of the grid
        is pushed into the workbook, row by row, with its current text and
        isExternal = true; a local op pushes nothing. Either way the op is
        re-emitted once. */
    method OnOp(op: string, local: bool)
      requires Valid() && workbook != null
      modifies this`emitted, workbook`received
      ensures cells == old(cells) && stride == old(stride)
      ensures workbook.received == old(workbook.received) +
        (if local then [] else ExternalPushes(cells, NumRows() * NumCols(), NumCols()))
      ensures emitted == old(emitted) + [OpEvent(op, local)]
    {
      if !local {
        var numRows, numCols := NumRows(), NumCols();
        ghost var done := 0;
        var row := 0;
        while row < NumRows()
          invariant 0 <= row <= numRows
          invariant done == row * numCols && done <= |cells|
          invariant emitted == old(emitted)
          invariant workbook.received == old(workbook.received) + ExternalPushes(cells, done, numCols)
        {
          GridIndex.MulMonotone(row + 1, numRows, numCols);
          var col := 0;
          while col < NumCols()
            invariant 0 <= col <= numCols
            invariant done == row * numCols + col && done <= (row + 1) * numCols
            invariant emitted == old(emitted)
            invariant workbook.received == old(workbook.received) + ExternalPushes(cells, done, numCols)
          {
            var text := LoadCellText(row, col);
            workbook.SetCellText(row, col, Str(text), true);
            ExternalPushesStep(cells, done, numCols, row, col);
            done := done + 1;
            col := col + 1;
          }
          row := row + 1;
        }
      }
      emitted := emitted + [OpEvent(op, local)];
    }
  }

  class WorkbookAdapter {
    const doc: TableDocument
    /** True while the constructor runs: stores are swallowed. */
    var isInitializing: bool
    /** The grid of cell texts handed to the engine's init. */
    var initGrid: seq<seq<string>>
    /** The setCellText calls the engine has received. */
    var received: seq<CellWrite>

    /** Loads every cell of the document's grid, row by row, into the grid
        handed to init; the stores init issues (initStores) reach
        storeCellText while isInitializing holds, so none touches the
        document. Afterwards isInitializing is false. */
    constructor (doc: TableDocument, initStores: seq<CellWrite>)
      requires doc.Valid()
      modifies doc`cells
      ensures this.doc == doc && !isInitializing && received == []
      ensures doc.cells == old(doc.cells)
      ensures initGrid == GridRows(doc.cells, doc.NumRows(), doc.NumCols())
    {
      this.doc := doc;
      isInitializing := true;
      var init := LoadInitGrid(doc);
      initGrid := init;
      received := [];
      new;
      // this.init(init): the engine stores back every cell it is handed
      var i := 0;
      while i < |initStores|
        invariant 0 <= i <= |initStores|
        invariant isInitializing && this.doc == doc
        invariant doc.cells == old(doc.cells)
        invariant initGrid == init && received == []
      {
        var w := initStores[i];
        StoreCellText(w.row, w.col, w.value);
        i := i + 1;
      }
      isInitializing := false;
    }

    /** loadCellText: forwards to the document. */
    function LoadCellText(row: int, col: int): (text: string)
      reads this, doc
      requires doc.Valid() && doc.HoldsPosition(row, col)
      ensures text == doc.LoadCellText(row, col)
    {
      doc.LoadCellText(row, col)
    }

    /** storeCellText: swallowed while isInitializing; otherwise forwarded to
        the document, which replaces the addressed marker. */
    method StoreCellText(row: int, col: int, value: Primitive)
      requires !isInitializing ==> doc.Valid() && doc.HoldsPosition(row, col)
      modifies doc`cells
      ensures |doc.cells| == old(|doc.cells|)
      ensures isInitializing ==> doc.cells == old(doc.cells)
      ensures !isInitializing ==>
        doc.cells == old(doc.cells)[GridIndex.RowColToPosition(row, col, old(doc.NumCols())) := ToText(value)]
      ensures !isInitializing ==>
        doc.Valid() && doc.HoldsPosition(row, col) && doc.LoadCellText(row, col) == ToText(value)
    {
      if isInitializing {
        return;
      }
      doc.StoreCellText(row, col, value);
    }

    /** The engine's setCellText, as far as this model sees it: the call is
        recorded. */
    method SetCellText(row: int, col: int, value: Primitive, isExternal: bool)
      modifies this`received
      ensures received == old(received) + [CellWrite(row, col, value, isExternal)]
    {
      received := received + [CellWrite(row, col, value, isExternal)];
    }
  }
}
