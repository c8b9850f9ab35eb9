# Row-selection predicates over a spreadsheet

This project models the row-selection predicates of a small spreadsheet tool
(`select.hpp`). A predicate answers "should this row be selected?". The leaf
predicate `Select_Contains` tests whether a given string occurs in one
column's cell. `Select_Column` fixes that column's index once, when the
predicate is built. `Select_And`, `Select_Or` and `Select_Not` combine
predicates into a tree. In C++, And and Or short-circuit (`&&` and `||`), so
the second child is only evaluated when the first does not decide the result.

The model is a set of values:

- `Selection.Select` is the tree:
  `Column(column, text) | And(first, second) | Or(first, second) | Not(argument)`.
  `Column` plays the part of `Select_Column`. Its `text` is the text test, and
  the only test is `Contains(data)`, which plays the part of `Select_Contains`.
  Virtual dispatch on `select` becomes a `match` in `Selection.Eval`.
- The sheet is the value `Spreadsheet.Sheet(columnNames, data)`. A value
  cannot change, so evaluation is read-only by construction.
- `cell_data` is modelled as a partial accessor, `Spreadsheet.CellData`. It
  returns `RowOutOfRange` or `ColumnOutOfRange` instead of a string for a cell
  the sheet does not have. Because of this, `Eval` returns `Result<bool, Error>`,
  and short-circuiting becomes observable: an And whose first child is false
  returns `Ok(false)` even when its second child would fail.
- `std::string::find` is modelled by `Text.Find`. It returns the first start
  position, or `None` in place of `npos`.
- `Selection.Denote` is a reference meaning in plain boolean logic, with no
  evaluation order. `SelectionLaws.EvalTotal` proves that `Eval` agrees with it
  on every row where all the cells the tree reads exist.

The combinators' `select` overrides (select.hpp:56, 107, 136) lack the `const`
qualifier that the pure virtual `Select::select` (select.hpp:12) has. As
written, they hide the base method instead of overriding it. The model gives
every node the evident intended behaviour: one read-only `select(sheet, row)`.

The `Select_Column` constructor (select.hpp:27-30) stores whatever
`get_column_by_name` returns, without any check. The model treats a missing
column name as an error at construction time: `MakeColumn` returns
`ColumnNotFound`. How the real `get_column_by_name` reports a missing name is
not shown. `Column` still accepts any `int` index, so an index outside the
sheet surfaces at evaluation time as `ColumnOutOfRange`.

## Model

| member | source | states |
|---|---|---|
| Text.FindFrom | select.hpp:82 | the result is the first position at or after `from` where the needle occurs; `None` means it occurs at no such position |
| Text.Find | select.hpp:82 | `find` succeeds iff the needle is a contiguous substring, at its first occurrence; an empty needle is found at 0 |
| Spreadsheet.ColumnByName | select.hpp:29 | the lookup succeeds iff the name is a column name, giving the first column with that name; otherwise it fails with ColumnNotFound |
| Spreadsheet.CellData | select.hpp:34 | the accessor succeeds iff the row and the column are inside the sheet, giving that cell; otherwise it fails with RowOutOfRange or ColumnOutOfRange |
| Selection.SelectText | select.hpp:80-90 | the text test is true iff the stored data occurs as a substring of the text |
| Selection.MakeColumn | select.hpp:27-30 | construction succeeds iff the name exists; the node keeps the index of a column with that name; a missing name is ColumnNotFound |
| Selection.MakeContains | select.hpp:74-77 | a Contains leaf keeps the resolved column and the item, or fails with ColumnNotFound |
| Selection.SelectColumn | select.hpp:32-35 | a column predicate succeeds iff its cell exists, and it is true iff the text test holds of that cell |
| Selection.Eval | select.hpp:32-146 | evaluating a tree fails only with a cell-range error, never with ColumnNotFound |
| SelectionLaws.EvalTotal | select.hpp:32-146 | on a row where every cell the tree reads exists, evaluation never fails and equals the plain boolean meaning of the tree |
| SelectionLaws.RowOutOfRangeFails | select.hpp:32-146 | every tree reports a row outside the sheet as RowOutOfRange, never as not selected |
| SelectionLaws.BuiltTreeTotal | select.hpp:27-35 | a tree whose leaves name columns of a rectangular sheet yields a boolean on every row of it |
| SelectionLaws.EvalReadsOnlyItsColumns | select.hpp:25-35 | evaluation depends only on the row's cells in the columns fixed at construction |
| SelectionLaws.ContainsSelectsIffSubstring | select.hpp:80-90 | on any row whose cell in the named column exists, a Contains leaf selects the row iff its item is a substring of that cell |
| SelectionLaws.EmptyItemSelectsEveryRow | select.hpp:82 | a Contains leaf with an empty item selects every row whose cell in the named column exists |
| SelectionLaws.InfixIsSelected | select.hpp:82 | any text of the form before + item + after is selected |
| SelectionLaws.SelectedTextSplits | select.hpp:82 | a selected text is its prefix, then the item, then its suffix, split at the first occurrence |
| SelectionLaws.MissingColumnIsNotFound | select.hpp:27-30 | building a leaf on a column name the sheet does not have fails with ColumnNotFound |
| SelectionLaws.AndIffBoth | select.hpp:56-66 | And is true iff both children are true; it is false iff the first is false, or the first is true and the second false |
| SelectionLaws.AndShortCircuits | select.hpp:58 | if the first child is false, And is false whatever the second child does, failure included |
| SelectionLaws.OrIffEither | select.hpp:136-146 | Or is true iff the first child is true, or the first is false and the second true; it is false iff both are false |
| SelectionLaws.OrShortCircuits | select.hpp:138 | if the first child is true, Or is true whatever the second child does, failure included |
| SelectionLaws.NotNegates | select.hpp:107-117 | Not succeeds iff its argument does, with the negated value; it passes on its argument's failure |
| SelectionLaws.DoubleNegation | select.hpp:107-117 | Not(Not(p)) evaluates exactly as p on every row, failures included |
| SelectionLaws.DeMorgan | select.hpp:41-147 | Not(And(p, q)) evaluates as Or(Not p, Not q), and Not(Or(p, q)) as And(Not p, Not q), failures included |
| SelectionLaws.CommuteWhereDefined | select.hpp:56-146 | And and Or give the same result with the children swapped, on rows where all their cells exist |
| SelectionLaws.ShortCircuitHidesFailure | select.hpp:58 | And(false leaf, failing leaf) is false, while And(failing leaf, false leaf) fails |
| SelectionExamples.SmithSelectsSmithAndSmithson | select.hpp:69-92 | "Smith" in column Name selects the rows "Smith" and "Smithson", and not "Jones" |
| SelectionExamples.SmithOutsideBoston | select.hpp:41-118 | And(Name contains Smith, Not(City contains Boston)) selects the Denver row and not the Boston row |

## Left out

- The `Spreadsheet` class (not shown), its storage and its parsing are not modelled. Only the two calls the predicates make are modelled. `get_column_by_name` becomes a first-match lookup that reports ColumnNotFound. `cell_data` becomes an accessor that reports out-of-range cells as errors. The original's behaviour for these cases is not shown.
- Destructors and the `delete` cascades (select.hpp:51-55, 78-79, 102-105, 130-134) are not modelled. A datatype owns its subtrees, so the tree is freed as one unit.
- The const/non-const mismatch in the combinators' `select` is not reproduced. The intended overriding semantics is modelled.
- No lemma states that evaluation is read-only. The sheet is an immutable value, so this holds by construction.
- Row and column indexes are unbounded integers. The source uses `int`, but the predicates do no arithmetic on them, so width does not matter.
- Cells are modelled as sequences of Unicode characters, not bytes, so `Text.Find` returns a character index where `std::string::find` returns a byte offset. Text that is not valid UTF-8 is not modelled. The predicates only test whether `find` returns `npos`, and for valid UTF-8 text that answer is the same.
- No front end that builds predicate trees from text is modelled. The source has none.
