# Attendance logger over a spreadsheet: a verified model

This project models the core of a small attendance-logging web
application whose only datastore is one sheet of a spreadsheet. The sheet
has a header row (row 1) and a name column (column A). Row 1 holds one
date per column. Column A holds one registered user per row. The cell
where a user's row meets a date's column holds the time that user was
logged on that day.

Three pieces are modelled:

- **The column-index codec** (`ColumnCodec`). `get_column_letter` is a
  loop, so it is modelled as the method `GetColumnLetter`. It is proved
  equal to a recursive encoder, `ColumnLetters`. Beside them is a decoder,
  `ColumnNumber`, which reads letters as bijective base 26. The lemmas
  prove both round trips and injectivity.
- **The sheet** (`Grid`, `Gateway`). A sheet is a value: a sequence of
  rows of strings, which may differ in length. A cell that was never
  written reads as `""`. The spreadsheet service's value reads drop
  trailing empty cells, and `HeaderRow` and `NameColumn` do the same. The
  class `Gateway.Sheet` holds that value in its field `rows`, and it has
  one method per service call the flows make: read row 1, read column A,
  read one cell, write one cell, insert one column, append one row. These
  methods address cells the way the application's ranges do, by column
  letters and a 1-based row number.
- **The two flows** (`Registration`, `Logging`). `create_new_user` and
  `update_cell` are methods that call the sheet step by step. Each is
  proved equal to a pure function of the sheet before the request
  (`Register`, `LogAttendance`). The lemmas about those functions state
  what the flows promise: which cells change and which do not, what each
  outcome means, and that logging twice on one day writes nothing the
  second time.

`Text.Strip` models Python's `str.strip()`, with Python's set of
whitespace characters.

Two consequences of how the code addresses the sheet are stated as
lemmas:

- The new date column goes at 0-based position `len(headers)`, and the
  insertion asks to inherit formatting from the column before it. When
  row 1 is empty that position is 0. The Google Sheets API v4 reference
  for InsertDimensionRequest requires a start index greater than 0 when
  `inheritFromBefore` is true, so according to that reference the
  service rejects this insertion. The request then ends in an error before
  anything is written. The model has this as the outcome `InsertRejected`
  with the sheet unchanged (`Logging.LogAttendanceOutcome`). So on a sheet
  without a header row no user can ever be logged.
- The name column is read from row 1 down, so row 1 takes part in lookups.
  A name equal to the A1 label is refused at registration
  (`Registration.HeaderLabelRefused`). Logging that name always reports "already
  logged" with the date as its value (`Logging.HeaderLabelAsUser`).

## Model

| member | source | states |
|---|---|---|
| `ColumnCodec.ColumnLetters` | app.py:21-28 | Encoder: the result is `""` for an index below 1. For an index of 1 or more it is non-empty and every character is in 'A'..'Z'. |
| `ColumnCodec.GetColumnLetter` | app.py:21-28 | The divmod loop returns exactly `ColumnLetters(idx)`. It returns `""` below 1. From 1 up it returns a column name that decodes back to `idx`. |
| `ColumnCodec.ColumnNumber` | app.py:24-27 | Decoder (digit value = letter − 'A' + 1, most significant digit first): the result is 0 exactly for the empty string. |
| `ColumnCodec.DecodeEncode` | app.py:24-28 | For every index of 1 or more, decoding its letters gives the index back. |
| `ColumnCodec.EncodeDecode` | app.py:24-28 | Every non-empty string of 'A'..'Z' decodes to an index of 1 or more, and encoding that index gives the string back. So the codec is a bijection between indices ≥ 1 and column names. |
| `ColumnCodec.ColumnLettersInjective` | app.py:21-28 | Two indices of 1 or more with the same letters are equal. |
| `ColumnCodec.ColumnLettersExamples` | app.py:21-28 | 1 → A, 26 → Z, 27 → AA, 52 → AZ, 703 → AAA, 0 → "", −5 → "". |
| `Text.Strip` | app.py:73 | `str.strip()`: the result is empty exactly when the input is all whitespace. Otherwise it starts and ends with a non-whitespace character. |
| `Text.StripIsSlice` | app.py:73 | The result of `str.strip()` is a contiguous slice of the input with only whitespace before it and only whitespace after it. With `Text.Strip` this pins the result down: it is the input between its leading and its trailing whitespace. |
| `Text.StripLeading` | app.py:73 | The result is a suffix of the input, everything before it is whitespace, and it starts with a non-whitespace character or is empty. |
| `Text.StripTrailing` | app.py:73 | The result is a prefix of the input, everything after it is whitespace, and it ends with a non-whitespace character or is empty. |
| `Text.StripsToEmpty` | app.py:164 | The truth test on the stripped cell value: it is true exactly when the value is all whitespace. |
| `Text.StripExample` | app.py:73 | `" Alice\t"` strips to `"Alice"`. |
| `Grid.DropTrailingBlanks` | app.py:30-35 | A value read keeps the shortest prefix after which only empty cells follow, and that prefix ends with a non-empty cell or is empty. |
| `Grid.DropTrailingBlanksIs` | app.py:30-35 | Any prefix with those properties is the read's result, so the read is unique. |
| `Grid.HeaderRow` | app.py:30-35 | `get_headers`: row 1 as the service's value read returns it, trailing empty cells dropped, `[]` when row 1 is empty. It has no `ensures` of its own; `Grid.DropTrailingBlanks` and `Grid.HeaderRowCell` state its meaning. |
| `Grid.NameColumn` | app.py:77-81 | The read of column A by columns, from row 1 down, trailing empty cells dropped. It has no `ensures` of its own; `Grid.DropTrailingBlanks` and `Grid.NameColumnCell` state its meaning. |
| `Grid.HeaderRowCell` | app.py:30-35 | Entry c of the header list is the cell at row 1, column c + 1. |
| `Grid.NameColumnCell` | app.py:143-147 | Entry r of the name list is the cell at column A, row r + 1, and that row exists. |
| `Grid.InsertColumn` | app.py:117-131 | Column insertion at `at`: cells left of `at` stay, the new column is blank, cells at or right of `at` move one column right, and the number of rows is unchanged. |
| `Grid.WriteCell` | app.py:172-177 | A single-cell update: that cell reads the new value afterwards. Every other cell reads as before, and every other existing row is untouched. |
| `Grid.InsertRow` | app.py:85-91 | Row insertion at `at`: rows above stay, the new row is at `at`, and rows from `at` on move one row down. |
| `Grid.IndexOf` | app.py:141 | The list index lookup returns a position holding the value, and no earlier position holds it. |
| `Grid.AppendRow` | app.py:85-91 | The append adds one row. The insertion point is the length of column A as read. Rows above it are unchanged, the name's row is at it, and every row from it on moves down one with its cells unchanged. |
| `Grid.AppendRowNameColumn` | app.py:85-91 | Appending a non-empty name makes column A read as before with the name added last. |
| `Grid.AppendRowKeepsHeaderRow` | app.py:85-91 | When column A is not empty, appending a name leaves row 1 as it was. |
| `Grid.WriteCellKeepsHeaderRow` | app.py:172-177 | A write below row 1 leaves the header list unchanged. |
| `Grid.WriteCellKeepsNameColumn` | app.py:172-177 | A write outside column A, in an existing row, leaves the name list unchanged. |
| `Gateway.Sheet.GetHeaders` | app.py:30-35 | Returns the cells of row 1 up to the last non-empty one. Every cell after them is empty. |
| `Gateway.Sheet.GetNames` | app.py:143-147 | Returns the cells of column A, from row 1 down to the last non-empty one. Every cell below them is empty. |
| `Gateway.Sheet.GetValue` | app.py:158-162 | Reads the cell addressed by column letters and a 1-based row. An empty cell reads as `""`. |
| `Gateway.Sheet.UpdateValue` | app.py:172-177 | Writes exactly the addressed cell (the new state is `WriteCell` of the old). |
| `Gateway.Sheet.InsertColumnAt` | app.py:117-131 | The service accepts the request exactly when it does not both inherit from before and start at index 0. If accepted, the new state is the old sheet with one blank column inserted at `startIndex`. If rejected, the sheet is unchanged. |
| `Gateway.Sheet.AppendName` | app.py:85-91 | The new state is the old sheet with a row `[name]` inserted just below the last non-empty cell of column A. |
| `Registration.Register` | app.py:72-91 | `EmptyName` exactly when the submitted name is all whitespace. `AlreadyExists` exactly when the stripped name is already in column A. In both cases the sheet is unchanged. Otherwise the outcome is `Registered` with the stripped name, and column A grows by exactly that name at the end. The rows above the new row stay as they were, and rows from the insertion point on move down one row with their cells (including logged times) intact. Row 1 is unchanged when column A was not empty; when it was empty the new row is row 1. |
| `Registration.FormName` | app.py:73 | The submitted name field, with `""` when the form has none (the default of `request.form.get`). It has no `ensures` of its own; `Registration.Register` states its meaning. |
| `Registration.HeaderLabelRefused` | app.py:77-84 | A non-blank stripped name equal to the A1 cell is refused as already existing, because column A is read from row 1. |
| `Registration.RegisterTwice` | app.py:82-84 | Submitting the same name after it was registered gives `AlreadyExists` and leaves the sheet unchanged. |
| `Registration.CreateNewUser` | app.py:72-91 | The step-by-step flow ends in the sheet and outcome that `Register` gives for the old sheet. |
| `Logging.EnsureDateColumn` | app.py:106-139 | The step when the service accepts it, that is when row 1 is not empty. If the date is already a header, nothing changes. Otherwise one column is inserted at 0-based `len(headers)` and its row-1 cell is the date. The header list becomes the old one plus the date, columns before it keep their cells, and cells from it on move one column right. The number of rows is unchanged. Either way the date is a header afterwards. |
| `Logging.DateColumnInserted` | app.py:117-139 | Inserting the column and writing the date into its header cell makes the header list the old list plus the date. |
| `Logging.AddDateColumn` | app.py:106-139 | The step-by-step date-column step (read, insert, write header, read again) reports the insertion rejected exactly when row 1 is empty, and then leaves the sheet unchanged. Otherwise it ends in `EnsureDateColumn` of the old sheet. It returns the header list of the resulting sheet. |
| `Logging.LogIntoCell` | app.py:157-177 | The last step of `update_cell` on one cell: report a cell that is not blank after strip, otherwise write the time. It has no `ensures` of its own; `Logging.LogAttendanceOutcome` and `Logging.LogAgainChangesNothing` state its meaning. |
| `Logging.LogInColumn` | app.py:141-177 | `update_cell` once the date is a header: look the user up in column A and log into the target cell. It has no `ensures` of its own; `Logging.LogAttendanceOutcome` and `Logging.LogInColumnAgain` state its meaning. |
| `Logging.LogAttendance` | app.py:100-184 | `update_cell` as a function of the sheet before the request: the rejected insertion, the date-column step, then `LogInColumn`. It has no `ensures` of its own; `Logging.LogAttendanceOutcome` and `Logging.LogAgainChangesNothing` state its meaning. |
| `Logging.LogAttendanceOutcome` | app.py:106-177 | `InsertRejected` exactly when row 1 is empty, and then the sheet is unchanged. Otherwise the target cell is at the first header equal to the date and the first column-A entry equal to the user. `NotFound` exactly when the user is not in column A. `AlreadyLogged(cell)` exactly when that cell is not blank after strip. In both cases only the date-column step changed the sheet. `Logged` writes the time into the target cell, and every other cell reads as before. |
| `Logging.LogAgainChangesNothing` | app.py:157-170 | A second log on the same date leaves the sheet as the first left it. After `Logged` it reports `AlreadyLogged` with the first time. Otherwise it repeats the first outcome (rejected, not found or already logged). This needs the date and the time each to contain a non-whitespace character. The user name must too when A1 holds the date: the date's column is then column A, and a blank user name matches a blank name cell that the first log fills with the time. |
| `Logging.LogInColumnAgain` | app.py:141-177 | The same, once the date column exists: a log into that column keeps the header row, and logging again reports the first time and writes nothing. |
| `Logging.HeaderLabelAsUser` | app.py:143-162 | When A1 holds the user name, the name is found in row 1, and logging it gives `AlreadyLogged(date)` without a write. |
| `Logging.LogIfBlank` | app.py:157-177 | The cell step ends in the sheet and outcome that `LogIntoCell` gives: it reports a non-blank cell and otherwise writes the time. |
| `Logging.LogUser` | app.py:141-177 | The lookup and conditional write, step by step, end in the sheet and outcome that `LogInColumn` gives for the sheet once the date is a header. |
| `Logging.UpdateCell` | app.py:100-184 | The step-by-step flow, including the rejected insertion, ends in the sheet and outcome that `LogAttendance` gives for the old sheet. |
| `Scenario.RegisterAlice` | app.py:72-91 | On a sheet holding only "name" in A1, registering "Alice" puts her in A2. |
| `Scenario.FirstLog` | app.py:106-177 | Logging Alice on 2024-01-01 at 09:05:00 AM writes the date into B1 and the time into B2, and gives `Logged`. |
| `Scenario.SecondLog` | app.py:157-170 | Logging her again that day at 10:00:00 AM gives `AlreadyLogged("09:05:00 AM")`, the first time, and no change. |

## Left out

- Flask routing, the login guard, login and logout, cookie sessions and page rendering: these are framework glue. A GET on the registration route only renders the form.
- Building the service client and its credentials, and the sheet-id lookup before column insertion: these are remote metadata calls. The model has one sheet and no lookup failure.
- The QR code, the PNG buffer, base64 and the logging URL built for the success page: these are library calls. `Registered(name)` stands for the success page.
- The clock and time zone (`datetime.now`, `ZoneInfo`, `strftime`): the date and time strings are inputs. `UpdateCell` requires a non-empty date, which the date format always produces.
- Remote failures (network, permissions, quota) end the request with an unhandled error and are not modelled. Every service call succeeds, except the column insertion that the service's rule for inheriting from the column before rejects. The error page that rejection produces is represented only by the outcome `InsertRejected`.
- Concurrent requests: each request is one sequential operation, with no races between a read and the write after it.
- Sheet limits (the maximum number of rows and columns) are not modelled. The grid is unbounded, and writes past the last row or cell pad with empty cells.
- Interpretation of values written with USER_ENTERED is not modelled: both the appended name and the logged time are stored as the string written. The service may parse them instead. A name such as "007" or "=A1" may be stored as a number or a formula and read back differently, and then the duplicate check and the user lookup on the real service can miss it. The service may also store a logged time such as "09:05:00 AM" as a time value and read it back formatted differently. `Registration.Register`, `Registration.RegisterTwice`, `Logging.LogAttendanceOutcome`, `Logging.LogAgainChangesNothing` and `Scenario.SecondLog` hold for the strings as written.
- The formatting inherited by an inserted column is not modelled.
- `Gateway.Sheet.AppendName`: the service's table detection for an append to column A is abstracted. The new row goes just below the last non-empty cell of column A and shifts the rows below it down. When column A is entirely empty, that is row 1.
- config.py is not part of this model. It only reads environment settings.
