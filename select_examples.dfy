/** Worked selections on small concrete sheets. */
module SelectionExamples {
  import opened Wrappers
  import opened Text
  import opened Spreadsheet
  import opened Selection

  /** A leaf on column "Name" testing for "Smith" selects rows 0 and 1, not row 2. */
  lemma SmithSelectsSmithAndSmithson()
    ensures var sheet := Sheet(["Name"], [["Smith"], ["Smithson"], ["Jones"]]);
      var p := MakeContains(sheet, "Name", "Smith");
      && p.Ok?
      && Eval(p.value, sheet, 0) == Ok(true)
      && Eval(p.value, sheet, 1) == Ok(true)
      && Eval(p.value, sheet, 2) == Ok(false)
  {
    assert OccursAt("Smith", "Smith", 0);
    assert OccursAt("Smithson", "Smith", 0);
    assert "Jones"[0..5][0] != "Smith"[0];
    assert Find("Jones", "Smith") == None;
  }

  /** And(Name contains "Smith", Not(City contains "Boston")) selects only the Denver row. */
  lemma SmithOutsideBoston()
    ensures var sheet := Sheet(["Name", "City"], [["Smith", "Boston"], ["Smith", "Denver"]]);
      var name := MakeContains(sheet, "Name", "Smith");
      var city := MakeContains(sheet, "City", "Boston");
      && name.Ok? && city.Ok?
      && Eval(And(name.value, Not(city.value)), sheet, 0) == Ok(false)
      && Eval(And(name.value, Not(city.value)), sheet, 1) == Ok(true)
  {
    var sheet := Sheet(["Name", "City"], [["Smith", "Boston"], ["Smith", "Denver"]]);
    assert sheet.columnNames[1] == "City";
    assert OccursAt("Smith", "Smith", 0);
    assert OccursAt("Boston", "Boston", 0);
    assert "Denver"[0..6][0] != "Boston"[0];
    assert Find("Denver", "Boston") == None;
  }
}
