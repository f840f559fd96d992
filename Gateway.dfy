/**
 * The spreadsheet gateway: the calls app.py makes on the spreadsheet
 * service, against one sheet held in memory. Cells are addressed the way
 * the A1 ranges in app.py address them, by column letters and a 1-based
 * row number; the sheet decodes the letters with ColumnNumber.
 */
module Gateway {
  import opened Grid
  import opened ColumnCodec

  /** The one sheet of the workbook the application writes to. */
  class Sheet {
    var rows: Grid

    constructor (initial: Grid)
      ensures rows == initial
    {
      rows := initial;
    }

    /**
     * get_headers, range 1:1: the cells of row 1 up to its last non-empty
     * cell, and no further.
     */
    method GetHeaders() returns (headers: seq<string>)
      ensures headers == HeaderRow(rows)
      ensures forall c :: 0 <= c < |headers| ==> headers[c] == CellAt(rows, 0, c)
      ensures forall c: nat :: c >= |headers| ==> CellAt(rows, 0, c) == ""
      ensures headers == [] || headers[|headers| - 1] != ""
    {
      headers := HeaderRow(rows);
    }

    /**
     * The read of range A:A by columns: column A from row 1 down to its
     * last non-empty cell, and no further.
     */
    method GetNames() returns (names: seq<string>)
      ensures names == NameColumn(rows)
      ensures forall r :: 0 <= r < |names| ==> names[r] == CellAt(rows, r, 0)
      ensures forall r: nat :: r >= |names| ==> CellAt(rows, r, 0) == ""
      ensures names == [] || names[|names| - 1] != ""
    {
      names := NameColumn(rows);
      forall r: nat | r >= |names| ensures CellAt(rows, r, 0) == "" {
        if r < |rows| {
          assert CellAt(rows, r, 0) == ColumnAt(rows, 0)[r];
        }
      }
    }

    /** The read of the single cell column row; "" when the cell is empty. */
    method GetValue(column: string, row: nat) returns (value: string)
      requires IsColumnName(column) && row >= 1
      ensures value == CellAt(rows, row - 1, ColumnNumber(column) - 1)
    {
      value := CellAt(rows, row - 1, ColumnNumber(column) - 1);
    }

    /** The update of the single cell column row to value; no other cell changes. */
    method UpdateValue(column: string, row: nat, value: string)
      requires IsColumnName(column) && row >= 1
      modifies this
      ensures rows == WriteCell(old(rows), row - 1, ColumnNumber(column) - 1, value)
    {
      rows := WriteCell(rows, row - 1, ColumnNumber(column) - 1, value);
    }

    /**
     * The insertDimension request for columns [startIndex, startIndex + 1).
     * A request that inherits formatting from the column before needs one
     * there: with startIndex 0 the service rejects it and the sheet stays
     * as it was.
     */
    method InsertColumnAt(startIndex: nat, inheritFromBefore: bool) returns (accepted: bool)
      modifies this
      ensures accepted <==> !(inheritFromBefore && startIndex == 0)
      ensures accepted ==> rows == InsertColumn(old(rows), startIndex)
      ensures !accepted ==> rows == old(rows)
    {
      accepted := !(inheritFromBefore && startIndex == 0);
      if accepted {
        rows := InsertColumn(rows, startIndex);
      }
    }

    /** The append of [[name]] to range A:A with INSERT_ROWS. */
    method AppendName(name: string)
      modifies this
      ensures rows == AppendRow(old(rows), name)
    {
      rows := AppendRow(rows, name);
    }
  }
}
