/** The parsed upload as the cleaning code sees it: an ordered list of column
    names and rows that map a column name to a cell. A cell that pandas reads as
    NaN is `Missing`; every other cell is kept as its text, never interpreted. */
module Tables {

  datatype Cell = Missing | Value(text: string)

  type Row = map<string, Cell>

  datatype Table = Table(columns: seq<string>, rows: seq<Row>)

  const ORGANISM := "Organism"
  const GENE := "Gene"
  const ENTRY_NAME := "Entry Name"

  /** `row[column]`; a column the row lacks reads as a missing cell. */
  function Lookup(row: Row, column: string): Cell {
    if column in row then row[column] else Missing
  }

  /** How an f-string renders a cell: its text, or `nan` for a missing one. */
  function CellText(cell: Cell): string {
    match cell
    case Missing => "nan"
    case Value(text) => text
  }
}
