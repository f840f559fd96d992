/**
 * The sheet as a value: a sequence of rows, each a sequence of cell
 * strings, indexed from 0 (row 0 is the sheet's row 1, column 0 its
 * column A). Rows may have different lengths; a cell outside a row reads
 * as the empty string, as an unpopulated spreadsheet cell does. The
 * spreadsheet service's value reads leave out trailing empty cells, which
 * is what HeaderRow and NameColumn return.
 */
module Grid {

  type Row = seq<string>
  type Grid = seq<Row>

  /** The raw row r (empty past the last row). */
  function RowAt(g: Grid, r: nat): Row {
    if r < |g| then g[r] else []
  }

  /** The cell at 0-based row r and column c, "" when never written. */
  function CellAt(g: Grid, r: nat, c: nat): string {
    if r < |g| && c < |g[r]| then g[r][c] else ""
  }

  /** Column c, top to bottom, one entry per row of the grid. */
  function ColumnAt(g: Grid, c: nat): seq<string> {
    seq(|g|, r requires 0 <= r < |g| => CellAt(g, r, c))
  }

  /**
   * A line of cells as the values API returns it: trailing empty cells
   * are dropped. The result is the shortest prefix after which only empty
   * cells follow.
   */
  function DropTrailingBlanks(s: seq<string>): (t: seq<string>)
    ensures |t| <= |s| && t == s[..|t|]
    ensures forall i :: |t| <= i < |s| ==> s[i] == ""
    ensures t == [] || t[|t| - 1] != ""
  {
    if s == [] || s[|s| - 1] != "" then s
    else DropTrailingBlanks(s[..|s| - 1])
  }

  /** A prefix followed only by empty cells, ending in a non-empty one, is what is returned. */
  lemma DropTrailingBlanksIs(s: seq<string>, t: seq<string>)
    requires |t| <= |s| && t == s[..|t|]
    requires forall i :: |t| <= i < |s| ==> s[i] == ""
    requires t == [] || t[|t| - 1] != ""
    ensures DropTrailingBlanks(s) == t
  {
    var u := DropTrailingBlanks(s);
    assert |t| > 0 ==> s[|t| - 1] == t[|t| - 1];
    assert |u| > 0 ==> s[|u| - 1] == u[|u| - 1];
  }

  /** Row 1 as get_headers reads it (range 1:1). */
  function HeaderRow(g: Grid): seq<string> {
    DropTrailingBlanks(RowAt(g, 0))
  }

  /** Column A as the flows read it (range A:A, major dimension COLUMNS), row 1 included. */
  function NameColumn(g: Grid): seq<string> {
    DropTrailingBlanks(ColumnAt(g, 0))
  }

  /** Entry i of a view of the grid is the cell it was read from. */
  lemma HeaderRowCell(g: Grid, c: nat)
    requires c < |HeaderRow(g)|
    ensures HeaderRow(g)[c] == CellAt(g, 0, c)
  {
  }

  lemma NameColumnCell(g: Grid, r: nat)
    requires r < |NameColumn(g)|
    ensures r < |g| && NameColumn(g)[r] == CellAt(g, r, 0)
  {
  }

  /** One row with an empty cell inserted before column at (nothing to shift if the row is shorter). */
  function InsertBlank(row: Row, at: nat): (r: Row)
    ensures |r| == if at < |row| then |row| + 1 else |row|
    ensures forall c :: 0 <= c < |r| ==>
      r[c] == (if c < at then row[c] else if c == at then "" else row[c - 1])
  {
    if at < |row| then row[..at] + [""] + row[at..] else row
  }

  /** What cell (r, c) reads after a blank column is inserted at column at. */
  function ShiftedRight(g: Grid, at: nat, r: nat, c: nat): string {
    if c < at then CellAt(g, r, c)
    else if c == at then ""
    else CellAt(g, r, c - 1)
  }

  /**
   * insertDimension on columns [at, at + 1): a blank column appears at
   * 0-based column at; cells left of it stay, cells at or right of it move
   * one column to the right, and no row is added or removed.
   */
  function InsertColumn(g: Grid, at: nat): (h: Grid)
    ensures |h| == |g|
    ensures forall r: nat, c: nat :: CellAt(h, r, c) == ShiftedRight(g, at, r, c)
  {
    var h := seq(|g|, r requires 0 <= r < |g| => InsertBlank(g[r], at));
    assert forall r: nat, c: nat :: CellAt(h, r, c) == ShiftedRight(g, at, r, c) by {
      forall r: nat, c: nat ensures CellAt(h, r, c) == ShiftedRight(g, at, r, c) {
        if r < |g| {
          assert h[r] == InsertBlank(g[r], at);
        }
      }
    }
    h
  }

  /** One row with cell c set to v, padded with empty cells when shorter. */
  function SetInRow(row: Row, c: nat, v: string): (r: Row)
    ensures |r| == if c < |row| then |row| else c + 1
    ensures forall j :: 0 <= j < |r| ==> r[j] == if j == c then v else if j < |row| then row[j] else ""
  {
    if c < |row| then row[c := v] else row + seq(c - |row|, _ => "") + [v]
  }

  /**
   * A single-cell values update at 0-based (r, c): that cell becomes v,
   * every other cell reads as before, and rows before r are untouched.
   */
  function WriteCell(g: Grid, r: nat, c: nat, v: string): (h: Grid)
    ensures |h| == if r < |g| then |g| else r + 1
    ensures forall i: nat, j: nat :: CellAt(h, i, j) == if i == r && j == c then v else CellAt(g, i, j)
    ensures forall i :: 0 <= i < |g| && i != r ==> h[i] == g[i]
  {
    var padded := if r < |g| then g else g + seq(r + 1 - |g|, _ => []);
    assert forall i: nat, j: nat :: CellAt(padded, i, j) == CellAt(g, i, j);
    padded[r := SetInRow(padded[r], c, v)]
  }

  /** What cell (i, j) reads after row is inserted at row at. */
  function ShiftedDown(g: Grid, at: nat, row: Row, i: nat, j: nat): string {
    if i < at then CellAt(g, i, j)
    else if i == at then (if j < |row| then row[j] else "")
    else CellAt(g, i - 1, j)
  }

  /**
   * A row inserted before 0-based row at: rows above stay, the new row
   * takes index at, rows from at on move one down.
   */
  function InsertRow(g: Grid, at: nat, row: Row): (h: Grid)
    requires at <= |g|
    ensures |h| == |g| + 1
    ensures forall i: nat, j: nat :: CellAt(h, i, j) == ShiftedDown(g, at, row, i, j)
  {
    var h := g[..at] + [row] + g[at..];
    assert forall i :: 0 <= i < |h| ==> h[i] == if i < at then g[i] else if i == at then row else g[i - 1];
    assert forall i: nat, j: nat :: CellAt(h, i, j) == ShiftedDown(g, at, row, i, j) by {
      forall i: nat, j: nat ensures CellAt(h, i, j) == ShiftedDown(g, at, row, i, j) {
        if i < |h| {
          assert CellAt(h, i, j) == if j < |h[i]| then h[i][j] else "";
        }
      }
    }
    h
  }

  /** Python's list index lookup: the first position holding x. */
  function IndexOf(s: seq<string>, x: string): (i: nat)
    requires x in s
    ensures i < |s| && s[i] == x
    ensures forall j :: 0 <= j < i ==> s[j] != x
  {
    if s[0] == x then 0
    else
      assert s == [s[0]] + s[1..];
      1 + IndexOf(s[1..], x)
  }

  /**
   * values.append on range A:A with INSERT_ROWS: a new row holding name in
   * column A is inserted right below the last non-empty cell of column A.
   */
  function AppendRow(g: Grid, name: string): (h: Grid)
    ensures |h| == |g| + 1
    ensures var k := |NameColumn(g)|;
      && k <= |g| && h[..k] == g[..k]
      && forall i: nat, j: nat :: CellAt(h, i, j) == ShiftedDown(g, k, [name], i, j)
  {
    InsertRow(g, |NameColumn(g)|, [name])
  }

  /** Appending a non-empty name makes column A read as before with the name added last. */
  lemma AppendRowNameColumn(g: Grid, name: string)
    requires name != ""
    ensures NameColumn(AppendRow(g, name)) == NameColumn(g) + [name]
  {
    var names := NameColumn(g);
    var k := |names|;
    var h := AppendRow(g, name);
    var col := ColumnAt(h, 0);
    var t := names + [name];
    forall i | 0 <= i < |col|
      ensures col[i] == if i < k then names[i] else if i == k then name else ""
    {
      assert col[i] == ShiftedDown(g, k, [name], i, 0);
      if i < k {
        assert CellAt(g, i, 0) == ColumnAt(g, 0)[i];
      } else if i > k {
        assert CellAt(g, i - 1, 0) == ColumnAt(g, 0)[i - 1];
      }
    }
    assert col[..|t|] == t;
    DropTrailingBlanksIs(col, t);
  }

  /** Once column A has a non-empty cell, appending a name leaves row 1 as it was. */
  lemma AppendRowKeepsHeaderRow(g: Grid, name: string)
    ensures NameColumn(g) != [] ==> HeaderRow(AppendRow(g, name)) == HeaderRow(g)
  {
    var h := AppendRow(g, name);
    if NameColumn(g) != [] {
      assert h[0] == g[0];
    }
  }

  /** A write below row 1 leaves the header row as it was. */
  lemma WriteCellKeepsHeaderRow(g: Grid, r: nat, c: nat, v: string)
    requires 0 < r && 0 < |g|
    ensures HeaderRow(WriteCell(g, r, c, v)) == HeaderRow(g)
  {
    assert WriteCell(g, r, c, v)[0] == g[0];
  }

  /** A write outside column A, within the existing rows, leaves column A as it was. */
  lemma WriteCellKeepsNameColumn(g: Grid, r: nat, c: nat, v: string)
    requires 0 < c && r < |g|
    ensures NameColumn(WriteCell(g, r, c, v)) == NameColumn(g)
  {
    assert ColumnAt(WriteCell(g, r, c, v), 0) == ColumnAt(g, 0);
  }
}
