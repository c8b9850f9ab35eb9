/**
 * What evaluation of a predicate tree guarantees: agreement with plain boolean
 * logic where every cell exists, short-circuiting of And and Or, the laws of
 * negation, and which cells a predicate reads.
 */
module SelectionLaws {
  import opened Wrappers
  import opened Text
  import opened Spreadsheet
  import opened Selection

  /**
   * On a row where every cell the tree reads exists, evaluation never fails
   * and yields the reference boolean meaning of the tree.
   */
  lemma {:induction false} EvalTotal(p: Select, sheet: Sheet, row: int)
    requires Defined(p, sheet, row)
    ensures Eval(p, sheet, row) == Ok(Denote(p, sheet, row))
    decreases p
  {
    match p
    case Column(column, text) =>
      assert column in Columns(p);
    case And(first, second) =>
      EvalTotal(first, sheet, row);
      EvalTotal(second, sheet, row);
    case Or(first, second) =>
      EvalTotal(first, sheet, row);
      EvalTotal(second, sheet, row);
    case Not(argument) =>
      EvalTotal(argument, sheet, row);
  }

  /**
   * A tree built against a rectangular sheet, whose leaves all name columns of
   * that sheet, yields a boolean on every row of it.
   */
  lemma BuiltTreeTotal(p: Select, sheet: Sheet, row: int)
    requires Rectangular(sheet) && 0 <= row < |sheet.data|
    requires forall c :: c in Columns(p) ==> 0 <= c < |sheet.columnNames|
    ensures Eval(p, sheet, row).Ok?
  {
    EvalTotal(p, sheet, row);
  }

  /**
   * A row outside the sheet is reported as an error by every tree, never read
   * as "not selected".
   */
  lemma {:induction false} RowOutOfRangeFails(p: Select, sheet: Sheet, row: int)
    requires !(0 <= row < |sheet.data|)
    ensures Eval(p, sheet, row) == Err(RowOutOfRange(row))
    decreases p
  {
    match p
    case Column(_, _) =>
    case And(first, _) =>
      RowOutOfRangeFails(first, sheet, row);
    case Or(first, _) =>
      RowOutOfRangeFails(first, sheet, row);
    case Not(argument) =>
      RowOutOfRangeFails(argument, sheet, row);
  }

  /**
   * Evaluation reads only the cells of `row` in the columns fixed in the
   * leaves: two sheets that agree on those cells give the same result.
   */
  lemma {:induction false} EvalReadsOnlyItsColumns(p: Select, s1: Sheet, s2: Sheet, row: int)
    requires forall c :: c in Columns(p) ==> CellData(s1, row, c) == CellData(s2, row, c)
    ensures Eval(p, s1, row) == Eval(p, s2, row)
    decreases p
  {
    match p
    case Column(column, text) =>
      assert column in Columns(p);
    case And(first, second) =>
      EvalReadsOnlyItsColumns(first, s1, s2, row);
      EvalReadsOnlyItsColumns(second, s1, s2, row);
    case Or(first, second) =>
      EvalReadsOnlyItsColumns(first, s1, s2, row);
      EvalReadsOnlyItsColumns(second, s1, s2, row);
    case Not(argument) =>
      EvalReadsOnlyItsColumns(argument, s1, s2, row);
  }

  /**
   * A `Select_Contains` built on `sheet` selects a row exactly when its item
   * occurs as a contiguous substring of the row's cell in the named column.
   */
  lemma ContainsSelectsIffSubstring(sheet: Sheet, columnName: string, item: string, row: int)
    requires columnName in sheet.columnNames
    requires InRange(sheet, row, MakeContains(sheet, columnName, item).value.column)
    ensures MakeContains(sheet, columnName, item).Ok?
    ensures var c := MakeContains(sheet, columnName, item).value.column;
      Eval(MakeContains(sheet, columnName, item).value, sheet, row)
        == Ok(IsSubstring(item, sheet.data[row][c]))
  {
  }

  /** An empty item selects every row: `find("")` is 0, never npos. */
  lemma EmptyItemSelectsEveryRow(sheet: Sheet, columnName: string, row: int)
    requires columnName in sheet.columnNames
    requires InRange(sheet, row, MakeContains(sheet, columnName, "").value.column)
    ensures Eval(MakeContains(sheet, columnName, "").value, sheet, row) == Ok(true)
  {
  }

  /** Any text that has `item` in it somewhere is selected by Contains(item). */
  lemma InfixIsSelected(before: string, item: string, after: string)
    ensures SelectText(Contains(item), before + item + after)
  {
    var s := before + item + after;
    assert s[|before|..|before| + |item|] == item;
    assert OccursAt(s, item, |before|);
  }

  /** Conversely, a selected text splits around the first occurrence of the item. */
  lemma SelectedTextSplits(item: string, s: string)
    requires SelectText(Contains(item), s)
    ensures Find(s, item).Some?
    ensures var i := Find(s, item).value;
      i + |item| <= |s| && s == s[..i] + item + s[i + |item|..]
  {
  }

  /** Building a leaf on a column the sheet does not have fails with ColumnNotFound. */
  lemma MissingColumnIsNotFound(sheet: Sheet, columnName: string, item: string)
    requires columnName !in sheet.columnNames
    ensures MakeContains(sheet, columnName, item) == Err(ColumnNotFound(columnName))
  {
  }

  /** And selects a row iff both children select it; otherwise, it fails only if a child it evaluated failed. */
  lemma AndIffBoth(p: Select, q: Select, sheet: Sheet, row: int)
    ensures Eval(And(p, q), sheet, row) == Ok(true)
      <==> Eval(p, sheet, row) == Ok(true) && Eval(q, sheet, row) == Ok(true)
    ensures Eval(And(p, q), sheet, row) == Ok(false)
      <==> Eval(p, sheet, row) == Ok(false) || (Eval(p, sheet, row) == Ok(true) && Eval(q, sheet, row) == Ok(false))
  {
  }

  /** When the first child of And rejects the row, the second is never consulted. */
  lemma AndShortCircuits(p: Select, q: Select, sheet: Sheet, row: int)
    requires Eval(p, sheet, row) == Ok(false)
    ensures Eval(And(p, q), sheet, row) == Ok(false)
  {
  }

  /** Or selects a row iff at least one child selects it, the second being consulted only when the first rejects. */
  lemma OrIffEither(p: Select, q: Select, sheet: Sheet, row: int)
    ensures Eval(Or(p, q), sheet, row) == Ok(true)
      <==> Eval(p, sheet, row) == Ok(true) || (Eval(p, sheet, row) == Ok(false) && Eval(q, sheet, row) == Ok(true))
    ensures Eval(Or(p, q), sheet, row) == Ok(false)
      <==> Eval(p, sheet, row) == Ok(false) && Eval(q, sheet, row) == Ok(false)
  {
  }

  /** When the first child of Or selects the row, the second is never consulted. */
  lemma OrShortCircuits(p: Select, q: Select, sheet: Sheet, row: int)
    requires Eval(p, sheet, row) == Ok(true)
    ensures Eval(Or(p, q), sheet, row) == Ok(true)
  {
  }

  /** Not negates its argument and fails exactly when its argument fails. */
  lemma NotNegates(p: Select, sheet: Sheet, row: int)
    ensures Eval(Not(p), sheet, row).Ok? <==> Eval(p, sheet, row).Ok?
    ensures Eval(p, sheet, row).Ok? ==> Eval(Not(p), sheet, row) == Ok(!Eval(p, sheet, row).value)
    ensures Eval(p, sheet, row).Err? ==> Eval(Not(p), sheet, row) == Eval(p, sheet, row)
  {
  }

  /** Double negation evaluates exactly as the predicate itself, failures included. */
  lemma DoubleNegation(p: Select, sheet: Sheet, row: int)
    ensures Eval(Not(Not(p)), sheet, row) == Eval(p, sheet, row)
  {
  }

  /** De Morgan's laws hold of evaluation exactly, short-circuiting and failures included. */
  lemma DeMorgan(p: Select, q: Select, sheet: Sheet, row: int)
    ensures Eval(Not(And(p, q)), sheet, row) == Eval(Or(Not(p), Not(q)), sheet, row)
    ensures Eval(Not(Or(p, q)), sheet, row) == Eval(And(Not(p), Not(q)), sheet, row)
  {
  }

  /**
   * And and Or commute on rows where every cell both children read exists.
   * (Where a cell is missing, the order of the children decides whether the
   * failure surfaces: see ShortCircuitHidesFailure.)
   */
  lemma CommuteWhereDefined(p: Select, q: Select, sheet: Sheet, row: int)
    requires Defined(p, sheet, row) && Defined(q, sheet, row)
    ensures Eval(And(p, q), sheet, row) == Eval(And(q, p), sheet, row)
    ensures Eval(Or(p, q), sheet, row) == Eval(Or(q, p), sheet, row)
  {
    EvalTotal(p, sheet, row);
    EvalTotal(q, sheet, row);
  }

  /**
   * And(false leaf, failing leaf) yields false, not the failure, because the
   * failing leaf is never evaluated; with the children swapped the failure
   * surfaces.
   */
  lemma ShortCircuitHidesFailure()
    ensures var sheet := Sheet(["Name"], [["Smith"]]);
      var rejecting := Column(0, Contains("Jones"));
      var failing := Column(1, Contains("Boston"));
      && Eval(rejecting, sheet, 0) == Ok(false)
      && Eval(failing, sheet, 0) == Err(ColumnOutOfRange(1))
      && Eval(And(rejecting, failing), sheet, 0) == Ok(false)
      && Eval(And(failing, rejecting), sheet, 0) == Err(ColumnOutOfRange(1))
  {
    var s := "Smith";
    assert s[0..5][0] != "Jones"[0];
    assert Find(s, "Jones") == None;
  }
}
