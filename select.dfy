/**
 * The row-selection predicates of a spreadsheet: a leaf that tests the text of
 * one column, and the combinators And, Or and Not. A C++ class hierarchy
 * (`Select`, `Select_Column`, `Select_Contains`, `Select_And`, `Select_Or`,
 * `Select_Not`) becomes one datatype, and virtual dispatch on `select`
 * becomes a match in `Eval`.
 *
 * In the C++ source the combinators declare `select(sheet, row)` without the
 * `const` qualifier that the abstract `Select::select` carries, so they hide
 * the base method instead of overriding it. That is taken as an oversight:
 * here every node answers the same read-only `select(sheet, row)`.
 */
module Selection {
  import opened Wrappers
  import opened Text
  import opened Spreadsheet

  /** The text tests a column predicate can make (`Select_Column::select(const string&)`). */
  datatype TextSelect = Contains(data: string)

  /**
   * A predicate tree. `Column` is a `Select_Column`: a column index resolved
   * once when the node is built, and the text test applied to that column's
   * cell. Each combinator owns its children outright.
   */
  datatype Select =
    | Column(column: int, text: TextSelect)
    | And(first: Select, second: Select)
    | Or(first: Select, second: Select)
    | Not(argument: Select)

  /** `Select_Contains::select(const string&)`: `s.find(data) != npos`. */
  function SelectText(t: TextSelect, s: string): (r: bool)
    ensures r <==> TextHolds(t, s)
  {
    match t
    case Contains(data) => Find(s, data) != None
  }

  /**
   * The `Select_Column` constructor: resolve the column name once. A name the
   * sheet does not have yields `ColumnNotFound` and no predicate.
   */
  function MakeColumn(sheet: Sheet, name: string, text: TextSelect): (r: Result<Select, Error>)
    ensures r.Ok? <==> name in sheet.columnNames
    ensures r.Err? ==> r.error == ColumnNotFound(name)
    ensures r.Ok? ==> r.value.Column? && r.value.text == text
    ensures r.Ok? ==> 0 <= r.value.column < |sheet.columnNames|
    ensures r.Ok? ==> sheet.columnNames[r.value.column] == name
  {
    var column :- ColumnByName(sheet, name);
    Ok(Column(column, text))
  }

  /** The `Select_Contains` constructor: a column predicate testing for `item`. */
  function MakeContains(sheet: Sheet, columnName: string, item: string): (r: Result<Select, Error>)
    ensures r.Ok? <==> columnName in sheet.columnNames
    ensures r.Err? ==> r.error == ColumnNotFound(columnName)
    ensures r.Ok? ==> r.value.Column? && r.value.text == Contains(item)
    ensures r.Ok? ==> 0 <= r.value.column < |sheet.columnNames|
    ensures r.Ok? ==> sheet.columnNames[r.value.column] == columnName
  {
    MakeColumn(sheet, columnName, Contains(item))
  }

  /**
   * `Select_Column::select(sheet, row)`: apply the text test to the cell at
   * the stored column of `row`; a cell outside the sheet is an error.
   */
  function SelectColumn(column: int, text: TextSelect, sheet: Sheet, row: int): (r: Result<bool, Error>)
    ensures r.Ok? <==> InRange(sheet, row, column)
    ensures r.Ok? ==> (r.value <==> TextHolds(text, sheet.data[row][column]))
    ensures r.Err? ==> r.error.RowOutOfRange? || r.error.ColumnOutOfRange?
  {
    var s :- CellData(sheet, row, column);
    Ok(SelectText(text, s))
  }

  /**
   * `select(sheet, row)` on any node. And and Or short-circuit as C++ `&&`
   * and `||` do: the second child is evaluated only when the first does not
   * decide the result. A failing child makes its parent fail.
   */
  function Eval(p: Select, sheet: Sheet, row: int): (r: Result<bool, Error>)
    ensures r.Err? ==> r.error.RowOutOfRange? || r.error.ColumnOutOfRange?
  {
    match p
    case Column(column, text) => SelectColumn(column, text, sheet, row)
    case And(first, second) =>
      var a :- Eval(first, sheet, row);
      if a then Eval(second, sheet, row) else Ok(false)
    case Or(first, second) =>
      var a :- Eval(first, sheet, row);
      if a then Ok(true) else Eval(second, sheet, row)
    case Not(argument) =>
      var a :- Eval(argument, sheet, row);
      Ok(!a)
  }

  /** The columns the leaves of `p` read. */
  function Columns(p: Select): set<int> {
    match p
    case Column(column, _) => {column}
    case And(first, second) => Columns(first) + Columns(second)
    case Or(first, second) => Columns(first) + Columns(second)
    case Not(argument) => Columns(argument)
  }

  /** Every cell that `p` can read in `row` exists. */
  predicate Defined(p: Select, sheet: Sheet, row: int) {
    forall c :: c in Columns(p) ==> InRange(sheet, row, c)
  }

  /** Reference meaning of a text test: the needle occurs in the cell text. */
  ghost predicate TextHolds(t: TextSelect, s: string) {
    match t
    case Contains(data) => IsSubstring(data, s)
  }

  /**
   * Reference meaning of a predicate on a row whose cells all exist: plain
   * boolean logic over substring containment, with no evaluation order.
   */
  ghost predicate Denote(p: Select, sheet: Sheet, row: int)
    requires Defined(p, sheet, row)
  {
    match p
    case Column(column, text) =>
      assert column in Columns(p);
      TextHolds(text, sheet.data[row][column])
    case And(first, second) => Denote(first, sheet, row) && Denote(second, sheet, row)
    case Or(first, second) => Denote(first, sheet, row) || Denote(second, sheet, row)
    case Not(argument) => !Denote(argument, sheet, row)
  }
}
