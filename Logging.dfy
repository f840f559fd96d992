/**
 * The attendance logging flow, update_cell: make sure today's date has a
 * column, find the user's row in column A, and write the time into the
 * cell where they meet only if that cell is blank. The date and time
 * strings are inputs (the clock and time zone are not modelled).
 */
module Logging {
  import opened Grid
  import opened Text
  import opened ColumnCodec
  import opened Gateway

  /** The message update_cell renders, by the branch that chose it. */
  datatype LogOutcome =
    | InsertRejected                   // the column insertion is rejected: the request ends in an error
    | NotFound                         // the user is not in column A
    | AlreadyLogged(existing: string)  // the target cell already holds existing
    | Logged                           // the time was written

  /** Inserting a blank column after the headers and writing date into its header cell. */
  lemma DateColumnInserted(g: Grid, date: string)
    requires date != "" && date !in HeaderRow(g)
    ensures var L := |HeaderRow(g)|;
      HeaderRow(WriteCell(InsertColumn(g, L), 0, L, date)) == HeaderRow(g) + [date]
  {
    var headers := HeaderRow(g);
    var L := |headers|;
    var h := WriteCell(InsertColumn(g, L), 0, L, date);
    var row := h[0];
    var t := headers + [date];
    forall j | 0 <= j < |row|
      ensures row[j] == if j < L then headers[j] else if j == L then date else ""
    {
      assert row[j] == CellAt(h, 0, j);
      if j < L {
        HeaderRowCell(g, j);
      }
    }
    assert row[..|t|] == t;
    DropTrailingBlanksIs(row, t);
  }

  /**
   * The date-column step of update_cell when the service accepts it, that
   * is when row 1 is not empty (an empty row 1 puts the insertion at
   * index 0, which the service rejects). When date is already a header
   * nothing changes. Otherwise one blank column is inserted at 0-based
   * position len(headers), its header cell becomes date, columns before it
   * keep their cells and the cells from it on move one column right.
   * Either way date is a header afterwards.
   */
  function EnsureDateColumn(g: Grid, date: string): (h: Grid)
    requires date != "" && HeaderRow(g) != []
    ensures date in HeaderRow(h)
    ensures date in HeaderRow(g) ==> h == g
    ensures date !in HeaderRow(g) ==> HeaderRow(h) == HeaderRow(g) + [date]
    ensures |h| == |g|
    ensures date !in HeaderRow(g) ==> forall r: nat, c: nat :: (CellAt(h, r, c) ==
      if r == 0 && c == |HeaderRow(g)| then date else ShiftedRight(g, |HeaderRow(g)|, r, c))
  {
    var headers := HeaderRow(g);
    if date in headers then g
    else
      DateColumnInserted(g, date);
      WriteCell(InsertColumn(g, |headers|), 0, |headers|, date)
  }

  /**
   * The last step of update_cell on the cell at 0-based (row, col): a
   * cell that is not blank after strip is reported; a blank one becomes time.
   */
  function LogIntoCell(g: Grid, row: nat, col: nat, time: string): (r: (Grid, LogOutcome))
  {
    var existing := CellAt(g, row, col);
    if !AllSpace(existing) then (g, AlreadyLogged(existing))
    else (WriteCell(g, row, col, time), Logged)
  }

  /**
   * The rest of update_cell once date is a header: find username in
   * column A and log into the cell where its row meets the date's column.
   */
  function LogInColumn(g1: Grid, username: string, date: string, time: string): (r: (Grid, LogOutcome))
    requires date in HeaderRow(g1)
  {
    var names := NameColumn(g1);
    if username !in names then (g1, NotFound)
    else LogIntoCell(g1, IndexOf(names, username), IndexOf(HeaderRow(g1), date), time)
  }

  /**
   * update_cell as a function of the sheet before the request: the sheet
   * after it and the outcome. With row 1 empty the date is not a header
   * and the column insertion at index 0 is rejected before anything is
   * written.
   */
  function LogAttendance(g: Grid, username: string, date: string, time: string): (r: (Grid, LogOutcome))
    requires date != ""
  {
    if HeaderRow(g) == [] then (g, InsertRejected)
    else LogInColumn(EnsureDateColumn(g, date), username, date, time)
  }

  /**
   * What each outcome means. InsertRejected exactly when row 1 is empty,
   * and then the sheet is unchanged. Otherwise the target cell is the one
   * in the column of the first header equal to date and the row of the
   * first entry of column A equal to username. NotFound exactly when
   * username is not in column A; AlreadyLogged with the cell's value
   * exactly when that cell is not blank after strip; Logged otherwise.
   * Except for Logged the sheet is what the date-column step left; for
   * Logged exactly the target cell becomes time and every other cell reads
   * as before.
   */
  lemma LogAttendanceOutcome(g: Grid, username: string, date: string, time: string)
    requires date != ""
    ensures var r := LogAttendance(g, username, date, time);
      && (r.1 == InsertRejected <==> HeaderRow(g) == [])
      && (r.1 == InsertRejected ==> r.0 == g)
    ensures HeaderRow(g) != [] ==>
      var g1 := EnsureDateColumn(g, date);
      var names := NameColumn(g1);
      var r := LogAttendance(g, username, date, time);
      && (r.1 == NotFound <==> username !in names)
      && (r.1 != Logged ==> r.0 == g1)
      && (username in names ==>
            var row := IndexOf(names, username);
            var col := IndexOf(HeaderRow(g1), date);
            && row < |g1|
            && (r.1.AlreadyLogged? <==> !AllSpace(CellAt(g1, row, col)))
            && (r.1.AlreadyLogged? ==> r.1.existing == CellAt(g1, row, col))
            && (r.1 == Logged ==>
                  && |r.0| == |g1|
                  && forall i: nat, j: nat :: CellAt(r.0, i, j) ==
                       if i == row && j == col then time else CellAt(g1, i, j)))
  {
    if HeaderRow(g) != [] {
      var g1 := EnsureDateColumn(g, date);
      var names := NameColumn(g1);
      if username in names {
        NameColumnCell(g1, IndexOf(names, username));
      }
    }
  }

  /**
   * Logging a second time on the same date changes nothing: the first
   * time stays in place and is reported back, and a rejected, not-found
   * or already-logged outcome repeats. The date and the time must each
   * have a non-space character. So must the user name when A1 holds the
   * date: the date's column is then column A, the target cell is the name
   * cell itself, and a blank name matches a blank cell of column A that
   * the first log fills with the time, so the second log finds no user.
   */
  lemma {:induction false} LogAgainChangesNothing(g: Grid, username: string, date: string, time: string, later: string)
    requires !AllSpace(date) && !AllSpace(time)
    requires !AllSpace(username) || CellAt(g, 0, 0) != date
    ensures date != ""
    ensures var first := LogAttendance(g, username, date, time);
      LogAttendance(first.0, username, date, later)
        == (first.0, if first.1 == Logged then AlreadyLogged(time) else first.1)
  {
    if HeaderRow(g) == [] {
      return;
    }
    var g1 := EnsureDateColumn(g, date);
    var first := LogAttendance(g, username, date, time);
    assert first == LogInColumn(g1, username, date, time);
    assert CellAt(g1, 0, 0) == CellAt(g, 0, 0);
    LogInColumnAgain(g1, username, date, time, later);
    assert HeaderRow(first.0) != [] && EnsureDateColumn(first.0, date) == first.0;
  }

  /** The step of LogAgainChangesNothing once the date column is in place. */
  lemma LogInColumnAgain(g1: Grid, username: string, date: string, time: string, later: string)
    requires date in HeaderRow(g1) && !AllSpace(date) && !AllSpace(time)
    requires !AllSpace(username) || CellAt(g1, 0, 0) != date
    ensures var first := LogInColumn(g1, username, date, time);
      && HeaderRow(first.0) == HeaderRow(g1)
      && LogInColumn(first.0, username, date, later)
           == (first.0, if first.1 == Logged then AlreadyLogged(time) else first.1)
  {
    var first := LogInColumn(g1, username, date, time);
    var col := IndexOf(HeaderRow(g1), date);
    var names := NameColumn(g1);
    if first.1 == Logged {
      var row := IndexOf(names, username);
      HeaderRowCell(g1, col);
      NameColumnCell(g1, row);
      assert row != 0 && col != 0;
      assert first.0 == WriteCell(g1, row, col, time);
      WriteCellKeepsHeaderRow(g1, row, col, time);
      WriteCellKeepsNameColumn(g1, row, col, time);
      assert CellAt(first.0, row, col) == time;
    }
  }


  /**
   * Column A is read from row 1, so a user name equal to the label in A1
   * is found in row 1: its target cell is the date's own header cell,
   * which is never blank, and the outcome is always AlreadyLogged(date).
   */
  lemma HeaderLabelAsUser(g: Grid, username: string, date: string, time: string)
    requires !AllSpace(date) && username != "" && CellAt(g, 0, 0) == username
    ensures date != "" && HeaderRow(g) != []
    ensures LogAttendance(g, username, date, time) == (EnsureDateColumn(g, date), AlreadyLogged(date))
  {
    assert RowAt(g, 0)[0] == username;
    var g1 := EnsureDateColumn(g, date);
    assert CellAt(g1, 0, 0) == username;
    var names := NameColumn(g1);
    var col := ColumnAt(g1, 0);
    assert col[0] == username;
    assert names != [] && names[0] == username;
    assert IndexOf(names, username) == 0;
    HeaderRowCell(g1, IndexOf(HeaderRow(g1), date));
  }

  /**
   * The date-column step of update_cell, step by step: read the headers;
   * when date is not among them insert a column at len(headers),
   * inheriting from the column before, write date into row 1 of that
   * column and read the headers again. accepted is false when the service
   * rejects the insertion.
   */
  method AddDateColumn(sheet: Sheet, date: string) returns (headers: seq<string>, accepted: bool)
    requires date != ""
    modifies sheet
    ensures accepted <==> HeaderRow(old(sheet.rows)) != []
    ensures accepted ==> sheet.rows == EnsureDateColumn(old(sheet.rows), date)
    ensures !accepted ==> sheet.rows == old(sheet.rows)
    ensures headers == HeaderRow(sheet.rows)
  {
    headers := sheet.GetHeaders();
    accepted := true;
    if date !in headers {
      var insertAt := |headers|;
      accepted := sheet.InsertColumnAt(insertAt, true);
      if !accepted {
        return;
      }
      var newCol := GetColumnLetter(insertAt + 1);
      sheet.UpdateValue(newCol, 1, date);
      headers := sheet.GetHeaders();
    }
  }

  /**
   * The last step of update_cell: read the target cell; when it is not
   * blank after strip report its value, otherwise write time into it.
   */
  method LogIfBlank(sheet: Sheet, colLetter: string, rowIdx: nat, time: string) returns (outcome: LogOutcome)
    requires IsColumnName(colLetter) && rowIdx >= 1
    modifies sheet
    ensures sheet.rows == LogIntoCell(old(sheet.rows), rowIdx - 1, ColumnNumber(colLetter) - 1, time).0
    ensures outcome == LogIntoCell(old(sheet.rows), rowIdx - 1, ColumnNumber(colLetter) - 1, time).1
  {
    var existing := sheet.GetValue(colLetter, rowIdx);
    var blank := StripsToEmpty(existing);
    if !blank {
      return AlreadyLogged(existing);
    }
    sheet.UpdateValue(colLetter, rowIdx, time);
    return Logged;
  }

  /**
   * The rest of update_cell, step by step, once date is among the headers
   * as read: the 1-based column index is one more than the position of the
   * first header equal to date, the 1-based row index one more than the
   * position of the first entry of column A equal to username; cells are
   * addressed by the letters GetColumnLetter gives for the column index.
   */
  method LogUser(sheet: Sheet, headers: seq<string>, username: string, date: string, time: string)
    returns (outcome: LogOutcome)
    requires headers == HeaderRow(sheet.rows) && date in headers
    modifies sheet
    ensures sheet.rows == LogInColumn(old(sheet.rows), username, date, time).0
    ensures outcome == LogInColumn(old(sheet.rows), username, date, time).1
  {
    ghost var g1 := sheet.rows;
    var colIdx := IndexOf(headers, date) + 1;
    var colLetter := GetColumnLetter(colIdx);
    var names := sheet.GetNames();
    if username !in names {
      return NotFound;
    }
    var rowIdx := IndexOf(names, username) + 1;
    assert LogInColumn(g1, username, date, time)
      == LogIntoCell(g1, rowIdx - 1, ColumnNumber(colLetter) - 1, time);
    outcome := LogIfBlank(sheet, colLetter, rowIdx, time);
  }

  /**
   * update_cell, step by step against the sheet: the date-column step,
   * which ends the request with InsertRejected when the service rejects
   * the column insertion, then the lookup and the conditional write.
   */
  method UpdateCell(sheet: Sheet, username: string, date: string, time: string) returns (outcome: LogOutcome)
    requires date != ""
    modifies sheet
    ensures sheet.rows == LogAttendance(old(sheet.rows), username, date, time).0
    ensures outcome == LogAttendance(old(sheet.rows), username, date, time).1
  {
    var headers, accepted := AddDateColumn(sheet, date);
    if !accepted {
      return InsertRejected;
    }
    outcome := LogUser(sheet, headers, username, date, time);
  }
}
