/** Worksheet contents as openpyxl's `iter_rows(values_only=True)` yields them. */
module Cells {
  import Text

  /** One cell value. Values other than strings carry the text `str()` gives
      for them, so that `str(cell)` needs no further modelling. */
  datatype Cell =
    | Empty                               // None
    | Str(text: string)                   // a str
    | Stamp(year: int, shown: string)     // a datetime or date: has a `.year`
    | Other(shown: string)                // a number, bool or time: no `.year`

  /** A row may be shorter than the header row. */
  type Row = seq<Cell>

  /** The rows of the active worksheet, top to bottom. */
  type Sheet = seq<Row>

  /** `str(c)`; note that an empty cell shows as "None". */
  function Show(c: Cell): string
  {
    match c
    case Empty => "None"
    case Str(t) => t
    case Stamp(_, s) => s
    case Other(s) => s
  }

  /** A cell holds a value: it is neither empty nor the empty string. */
  predicate IsFilled(c: Cell)
  {
    c != Empty && c != Str("")
  }

  /** The text a header cell names: its shown text, and "" for an empty cell. */
  function HeaderText(c: Cell): string
  {
    if c == Empty then "" else Show(c)
  }

  /** The stripped text of the cell at column `i`, or "" when the row is too
      short or the cell is empty. */
  function CellText(row: Row, i: nat): (r: string)
    ensures Text.IsTrimmed(r)
    ensures (i >= |row| || row[i] == Empty) ==> r == ""
  {
    if i < |row| && row[i] != Empty then Text.Strip(Show(row[i])) else ""
  }
}
