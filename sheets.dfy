/** Worksheet cells as the model sees them: a sheet is a sequence of rows of optional text cells. */
module Sheets {
  import opened Wrappers

  /** An openpyxl cell value: `None` or text. */
  type Cell = Option<string>
  type Row = seq<Cell>
  /** Row 1 of the worksheet is index 0; rows hold as many cells as were ever set. */
  type Sheet = seq<Row>
  /** A loaded workbook: sheet title to sheet. */
  type Book = map<string, Sheet>

  /** Cell in column `c` (0 = column A); cells beyond the stored ones are empty. */
  function CellAt(row: Row, c: nat): Cell {
    if c < |row| then row[c] else None
  }

  /** Cell at 0-based row `r` and column `c` of a sheet. */
  function CellOf(sheet: Sheet, r: nat, c: nat): Cell {
    if r < |sheet| then CellAt(sheet[r], c) else None
  }

  /** Python truthiness of a cell value: present and not the empty string. */
  predicate Truthy(c: Cell) {
    c.Some? && c.value != ""
  }

  /** `cell.value = v` on one row; the row grows with empty cells when needed. */
  function SetCell(row: Row, c: nat, v: Cell): (r: Row)
    ensures CellAt(r, c) == v
    ensures forall k :: k != c ==> CellAt(r, k) == CellAt(row, k)
    ensures |r| == if c < |row| then |row| else c + 1
  {
    if c < |row| then row[c := v]
    else row + seq(c - |row|, _ => None) + [v]
  }
}
