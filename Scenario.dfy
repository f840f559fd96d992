/**
 * An end-to-end run: a sheet whose only cell is the "name" label in A1;
 * Alice is registered, then logged twice on the same day.
 */
module Scenario {
  import opened Grid
  import opened Text
  import opened Registration
  import opened Logging

  const Date := "2024-01-01"
  const Time := "09:05:00 AM"
  const Later := "10:00:00 AM"

  /** Registering Alice puts her in A2. */
  lemma RegisterAlice()
    ensures Register([["name"]], Some("Alice")) == ([["name"], ["Alice"]], Registered("Alice"))
  {
    var g0: Grid := [["name"]];
    assert FormName(Some("Alice")) == "Alice";
    StripWord();
    assert ColumnAt(g0, 0) == ["name"];
    assert NameColumn(g0) == ["name"];
    RegisterNew(g0, Some("Alice"));
    AppendAlice();
  }

  /** A name that strips to a non-empty string not yet in column A is appended. */
  lemma RegisterNew(g: Grid, field: Option<string>)
    requires Strip(FormName(field)) != [] && Strip(FormName(field)) !in NameColumn(g)
    ensures Register(g, field) == (AppendRow(g, Strip(FormName(field))), Registered(Strip(FormName(field))))
  {
  }

  /** The new row goes below A1, the last non-empty cell of column A. */
  lemma AppendAlice()
    ensures AppendRow([["name"]], "Alice") == [["name"], ["Alice"]]
  {
    var g0: Grid := [["name"]];
    assert ColumnAt(g0, 0) == ["name"];
    assert NameColumn(g0) == ["name"];
    assert InsertRow(g0, 1, ["Alice"]) == [["name"], ["Alice"]];
  }

  /** A word without surrounding whitespace is its own strip(). */
  lemma StripWord()
    ensures Strip("Alice") == "Alice"
  {
    assert !IsSpace('A') && !IsSpace('e');
    assert StripLeading("Alice") == "Alice";
  }

  /** The first visit on 2024-01-01 adds the date in B1 and the time in B2. */
  lemma FirstLog()
    ensures LogAttendance([["name"], ["Alice"]], "Alice", Date, Time)
      == ([["name", Date], ["Alice", Time]], Logged)
  {
    var g1: Grid := [["name"], ["Alice"]];
    var g2: Grid := [["name", Date], ["Alice"]];
    assert HeaderRow(g1) == ["name"];
    assert InsertColumn(g1, 1) == g1;
    assert seq(0, _ => "") == [];
    assert SetInRow(["name"], 1, Date) == ["name", Date];
    assert WriteCell(g1, 0, 1, Date) == g2;
    assert EnsureDateColumn(g1, Date) == g2;
    assert HeaderRow(g2) == ["name", Date];
    assert ColumnAt(g2, 0) == ["name", "Alice"];
    assert NameColumn(g2) == ["name", "Alice"];
    assert IndexOf(["name", "Alice"], "Alice") == 1;
    assert IndexOf(["name", Date], Date) == 1;
    assert CellAt(g2, 1, 1) == "";
    assert SetInRow(["Alice"], 1, Time) == ["Alice", Time];
    assert WriteCell(g2, 1, 1, Time) == [["name", Date], ["Alice", Time]];
  }

  /** A later visit the same day reports the first time and writes nothing. */
  lemma SecondLog()
    ensures LogAttendance([["name", Date], ["Alice", Time]], "Alice", Date, Later)
      == ([["name", Date], ["Alice", Time]], AlreadyLogged(Time))
  {
    var g3: Grid := [["name", Date], ["Alice", Time]];
    assert HeaderRow(g3) == ["name", Date];
    assert EnsureDateColumn(g3, Date) == g3;
    assert ColumnAt(g3, 0) == ["name", "Alice"];
    assert NameColumn(g3) == ["name", "Alice"];
    assert IndexOf(["name", "Alice"], "Alice") == 1;
    assert IndexOf(["name", Date], Date) == 1;
    assert CellAt(g3, 1, 1) == Time;
    assert !IsSpace(Time[0]);
  }
}
