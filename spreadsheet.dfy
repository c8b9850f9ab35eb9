/**
 * The spreadsheet the predicates read. Its class is an external collaborator
 * of the predicate tree: only the two operations the tree calls are modelled,
 * column lookup by name (`get_column_by_name`) and cell access (`cell_data`).
 * The sheet is a value, so nothing that reads it can change it.
 */
module Spreadsheet {
  import opened Wrappers

  /** The errors a lookup or a cell access can report. */
  datatype Error =
    | ColumnNotFound(name: string)
    | RowOutOfRange(row: int)
    | ColumnOutOfRange(column: int)

  /** Named columns and rows of cell text; row `r` has cells `data[r]`. */
  datatype Sheet = Sheet(columnNames: seq<string>, data: seq<seq<string>>)

  /** Every row has exactly one cell per named column. */
  predicate Rectangular(sheet: Sheet) {
    forall r :: 0 <= r < |sheet.data| ==> |sheet.data[r]| == |sheet.columnNames|
  }

  /** The cell at (`row`, `column`) exists. */
  predicate InRange(sheet: Sheet, row: int, column: int) {
    0 <= row < |sheet.data| && 0 <= column < |sheet.data[row]|
  }

  /** Index of the first column called `name` at or after `from`. */
  function ColumnFrom(names: seq<string>, name: string, from: nat): (r: Result<int, Error>)
    requires from <= |names|
    ensures r.Ok? ==> from <= r.value < |names| && names[r.value] == name
    ensures r.Ok? ==> forall j :: from <= j < r.value ==> names[j] != name
    ensures r.Err? ==> r.error == ColumnNotFound(name) && name !in names[from..]
    decreases |names| - from
  {
    if from == |names| then Err(ColumnNotFound(name))
    else if names[from] == name then Ok(from)
    else ColumnFrom(names, name, from + 1)
  }

  /**
   * `get_column_by_name`: the index of the first column called `name`, or
   * `ColumnNotFound` when the sheet has no such column.
   */
  function ColumnByName(sheet: Sheet, name: string): (r: Result<int, Error>)
    ensures r.Ok? <==> name in sheet.columnNames
    ensures r.Ok? ==> 0 <= r.value < |sheet.columnNames| && sheet.columnNames[r.value] == name
    ensures r.Ok? ==> forall j :: 0 <= j < r.value ==> sheet.columnNames[j] != name
    ensures r.Err? ==> r.error == ColumnNotFound(name)
  {
    ColumnFrom(sheet.columnNames, name, 0)
  }

  /**
   * `cell_data`: the text of the cell at (`row`, `column`). The accessor is
   * partial: a row or a column outside the sheet is reported as an error.
   */
  function CellData(sheet: Sheet, row: int, column: int): (r: Result<string, Error>)
    ensures r.Ok? <==> InRange(sheet, row, column)
    ensures r.Ok? ==> r.value == sheet.data[row][column]
    ensures !(0 <= row < |sheet.data|) ==> r == Err(RowOutOfRange(row))
    ensures 0 <= row < |sheet.data| && !InRange(sheet, row, column) ==> r == Err(ColumnOutOfRange(column))
  {
    if !(0 <= row < |sheet.data|) then Err(RowOutOfRange(row))
    else if !(0 <= column < |sheet.data[row]|) then Err(ColumnOutOfRange(column))
    else Ok(sheet.data[row][column])
  }
}
