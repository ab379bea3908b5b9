# Table document: a grid over a marker sequence

This project models the core of the table document of the routerlicious
`table-document` package. A rows × columns table of cell text is stored as
one flat, collaboratively edited sequence of markers, each holding a
`value` string, plus a "stride" counter in the document's root map. On top
of that sequence the document:

- maps a (row, col) coordinate to a sequence position and back
  (`rowColToPosition`, `positionToRowCol`);
- derives `numCols` (the stride capped by the sequence length) and
  `numRows` (the whole rows that fit);
- reads a cell by looking up its marker (`loadCellText`) and writes one by
  removing the marker and inserting a fresh one at the same position
  (`storeCellText`);
- lays out a fresh document of 7 × 8 empty markers with stride 8 (`create`);
- turns the corners of a named range into two positions (`createRange`);
- bridges to a formula engine through a `WorkbookAdapter` that loads the
  whole grid for the engine's `init` and swallows the stores the engine
  issues during that pass;
- on every remote op re-pushes every cell of the grid into the engine, and
  re-emits every op;
- normalises the engine's tagged evaluation result into one value
  (`parseResult`).

Files:

- `GridIndex.dfy` (module `GridIndex`): dimensions and coordinate mapping,
  pure functions of the stride and the sequence length, with the round-trip,
  in-grid and row-major-order lemmas.
- `MarkerSequence.dfy` (module `MarkerSequence`): the two sequence edits the
  document makes (remove a range, insert one marker) on the sequence's value,
  and the fact that remove-then-insert at one position is an in-place update.
- `Calc.dfy` (module `Calc`): the engine's values and results, the text
  `toString()` gives a stored value, and `parseResult`.
- `Table.dfy` (module `Table`): the classes `TableDocument` (fields: the
  marker values `cells`, the `stride` counter, the `workbook`, the log of
  re-emitted ops) and `WorkbookAdapter` (fields: `isInitializing`, the grid
  handed to `init`, the log of `setCellText` calls the engine receives),
  with the row-major walks both classes perform.

Modelling choices:

- The shared sequence is a `seq<string>` field that the store method
  reassigns; the merge tree's `removeText`/`insertMarker`/`getContainingSegment`
  are modelled by their effect on that value, with one client and no
  concurrent edits.
- Positions and counts are unbounded integers. Dafny's division by a
  positive number rounds down, as `Math.floor` does, so `positionToRowCol`
  is modelled for negative positions too.
- The document's functions need a positive stride over a non-empty sequence
  (`TableDocument.Valid`): with an empty sequence `numCols` is 0 and the
  source divides by zero.
- Neither `loadCellText` nor `storeCellText` checks that the column lies
  inside the stride (a column past the last one addresses a cell of the
  next row); the model does the same. It does require the addressed marker
  to exist (`TableDocument.HoldsPosition`): that requirement excludes the
  source's error path for a missing marker (see "Left out").
- The formula engine (the adapter's base class `Workbook`) is external. The
  stores its `init` issues back through `storeCellText` are a parameter of
  the adapter's constructor (`initStores`); its `setCellText` is recorded in
  a log; `serialiseValue` is a parameter of `ParseResult`.
- The nested loops of the adapter's constructor are the methods
  `LoadInitGrid` (rows) and `LoadRow` (the cells of one row), which the
  constructor calls; the result is the same array of rows.
- On an empty sequence the code divides by zero (index.ts:140);
  `createRange` adds an interval to the label's collection (index.ts:202-203)
  rather than replacing an earlier one; neither `loadCellText` nor
  `storeCellText` checks bounds. The model follows the code.
- An evaluation result is a success, a failure carrying a reason (a plain
  failure reason or one of `NotImplemented`, `NotFormulaString`,
  `IllFormedFormula`), or a paused evaluation (index.ts:40).

## Model

| member | source | states |
|---|---|---|
| `GridIndex.NumCols` | routerlicious/packages/table-document/src/index.ts:139 | numCols is the smaller of the stride and the sequence length: at most each, and equal to one of them |
| `GridIndex.NumRows` | routerlicious/packages/table-document/src/index.ts:138-140 | for a positive stride and a non-empty sequence numCols > 0, numRows >= 1 and numRows * numCols <= length < (numRows + 1) * numCols |
| `GridIndex.PositionToRowCol` | routerlicious/packages/table-document/src/index.ts:173-177 | the column lies in [0, numCols), rowColToPosition of the result gives back the position, and the row is non-negative exactly when the position is |
| `GridIndex.RowColRoundTrip` | routerlicious/packages/table-document/src/index.ts:169-177 | for a column inside the stride and any row, positionToRowCol(rowColToPosition(row, col)) == (row, col) |
| `GridIndex.InGridIff` | routerlicious/packages/table-document/src/index.ts:169-171 | for a column inside the stride, the row lies in [0, numRows) exactly when the position lies in [0, numRows * numCols) |
| `GridIndex.PositionOrderIsRowMajor` | routerlicious/packages/table-document/src/index.ts:169-171 | for columns inside the stride, one position is smaller than another exactly when its coordinate comes first in row-major order |
| `GridIndex.WholeRowsCoverSequence` | routerlicious/packages/table-document/src/index.ts:138-140 | when the stride divides the length, numRows * numCols == length: the grid covers every marker |
| `MarkerSequence.RemoveText` | routerlicious/packages/table-document/src/index.ts:195 | removing [start, end) shortens the sequence by end - start, keeps the markers before start and shifts the rest left |
| `MarkerSequence.InsertMarker` | routerlicious/packages/table-document/src/index.ts:196 | inserting at pos lengthens the sequence by one, puts the value at pos, keeps the markers before it and shifts the rest right |
| `MarkerSequence.ReplaceIsUpdate` | routerlicious/packages/table-document/src/index.ts:193-197 | removing the one marker at a position and inserting a fresh one there equals updating that position: length and every other marker unchanged |
| `Calc.Digits` | routerlicious/packages/table-document/src/index.ts:196 | the decimal digits of a natural number: non-empty, only digits, no leading zero, one digit exactly below ten |
| `Calc.DigitsRoundTrip` | routerlicious/packages/table-document/src/index.ts:196 | reading back the digits of n gives n |
| `Calc.Decimal` | routerlicious/packages/table-document/src/index.ts:196 | the text of an integer is non-empty and starts with '-' exactly when the integer is negative |
| `Calc.DecimalInjective` | routerlicious/packages/table-document/src/index.ts:196 | two integers with the same text are equal |
| `Calc.ToText` | routerlicious/packages/table-document/src/index.ts:196 | value.toString(): a string is stored as itself, a boolean as "true"/"false", a number as its decimal text |
| `Calc.ParseResult` | routerlicious/packages/table-document/src/index.ts:142-158 | a string, number or boolean success comes back unchanged, any other success value through the serialiser, a failure (whatever the kind of its reason) or a paused evaluation as the text of its reason; a non-string result only ever comes from a primitive success |
| `Table.GridRowsAt` | routerlicious/packages/table-document/src/index.ts:52-59 | the row-major grid view has numCols entries in each of its numRows rows, and entry (row, col) is the marker at rowColToPosition(row, col), which is what loadCellText(row, col) reads |
| `Table.LoadRow` | routerlicious/packages/table-document/src/index.ts:54-58 | loading the cells of one row column by column yields exactly the numCols markers from row * numCols on |
| `Table.LoadInitGrid` | routerlicious/packages/table-document/src/index.ts:52-59 | the array of rows handed to init is the row-major grid view of numRows × numCols loaded cells |
| `Table.ExternalPushesRowMajor` | routerlicious/packages/table-document/src/index.ts:117-127 | the full-grid walk pushes every cell (row, col) of the grid, at index rowColToPosition(row, col), with that cell's text and isExternal = true; it pushes only cells of the grid; and it pushes them in strictly row-major order |
| `Table.TableDocument.Create` | routerlicious/packages/table-document/src/index.ts:96-107 | create() leaves 56 markers holding "" and stride 8, so numCols == 8 and numRows == 7 |
| `Table.TableDocument.Load` | routerlicious/packages/table-document/src/index.ts:110-113 | a document opened on a sequence and stride counter that already exist holds exactly those |
| `Table.TableDocument.StoreCellText` | routerlicious/packages/table-document/src/index.ts:179-197 | the marker at rowColToPosition(row, col) now holds value.toString() and every other marker is unchanged; length, numCols and numRows are unchanged; a following loadCellText(row, col) returns that text |
| `Table.TableDocument.CreateRange` | routerlicious/packages/table-document/src/index.ts:199-203 | each corner whose column lies inside the stride maps back to its own coordinate, and start <= end exactly when the first corner comes no later in row-major order |
| `Table.TableDocument.Open` | routerlicious/packages/table-document/src/index.ts:117-129 | opening builds a fresh adapter over this document whose init grid is the document's grid; the document's markers, stride and emitted ops are unchanged and the adapter has left its initialising state |
| `Table.TableDocument.OnOp` | routerlicious/packages/table-document/src/index.ts:117-127 | a non-local op appends the full-grid walk to the engine's received calls, a local op appends nothing; the op is re-emitted exactly once; the markers are untouched |
| `Table.WorkbookAdapter.constructor` | routerlicious/packages/table-document/src/index.ts:45-63 | the grid handed to init is the row-major grid of numRows × numCols loaded cells; every store init issues is swallowed so the document's markers are unchanged; afterwards isInitializing is false |
| `Table.AdapterLoadIsInitGrid` | routerlicious/packages/table-document/src/index.ts:52-67 | while the document's markers are those the init grid was loaded from, the adapter's loadCellText(row, col) for every cell of the numRows × numCols grid returns exactly the entry (row, col) handed to init |
| `Table.WorkbookAdapter.StoreCellText` | routerlicious/packages/table-document/src/index.ts:69-75 | while isInitializing the document's markers are unchanged; otherwise the addressed marker holds value.toString(), nothing else changes, and a following load returns that text |
| `Table.WorkbookAdapter.SetCellText` | routerlicious/packages/table-document/src/index.ts:121 | each setCellText call the engine receives is appended to its log |

## Left out

- The collaborative merge engine: concurrent edits, sequence numbers, client ids, how local references and intervals adjust their positions across edits, and snapshots. The sequence is one local value.
- `getRange` and `CellRange` (index.ts:206-210): an opaque lookup in the merge engine's interval collection; `createRange` is modelled only as the two positions it adds.
- `getCellText`, `setCellText`, `evaluateCell` and `evaluateFormula` (index.ts:161-191): each only delegates to the formula engine (the last two through `parseResult`, which is modelled); the engine's own cell cache, recalculation and formula evaluation are external.
- `Table.WorkbookAdapter.SetCellText`: only records the call; what the engine does with a pushed cell is not modelled.
- The engine's `init` and `serialiseValue`: taken as inputs (the stores `init` issues, and a serialiser function).
- `Calc.ToText`: numbers are integers; JavaScript's formatting of fractional, very large or non-finite numbers is not modelled.
- The stride as a JavaScript number: fractional strides are excluded by the `int` type of `stride`; zero and negative strides (division by zero, negative row counts) are excluded by `TableDocument.Valid`.
- `Table.TableDocument.LoadCellText`, `Table.TableDocument.StoreCellText`, `Table.WorkbookAdapter.StoreCellText`: require the marker at rowColToPosition(row, col) to exist (`HoldsPosition`). For a position with no marker the source's loadCellText (index.ts:179-182) gets an undefined segment and throws a TypeError reading its `properties`, and what `removeText`/`insertMarker` do with an out-of-range position is up to the merge tree, which the source does not show; neither error path is modelled.
- Event emission mechanics, `async`/`await`, `this.connected`, `console.log`, the component registry set-up in the constructor, and the `TableDocumentComponent` host class with `instantiateComponent` (index.ts:224-284): runtime plumbing with no logic of the grid.
- The `table-view` package: DOM attachment and data-store plumbing.
- The empty-sequence case: `numRows` divides by zero there in the source; the model requires a non-empty sequence.
