/**
  The table the engine starts from: the header labels and the data lines as
  the CSV reader hands them over, before the line after the header is skipped.
*/
module Frame {

  /**
    A parsed cell: its text as Python's `str()` renders it under the dtype the
    reader gave its column, or NaN for a field the reader read as missing
    (an empty field or one of the reader's NA tokens such as "NA" or "null").
  */
  datatype Cell = Text(text: string) | NaN

  /** `str(cell)`: NaN renders as "nan", so a row with no identifier keeps one. */
  function StrForm(c: Cell): (s: string)
    ensures c.Text? ==> s == c.text
    ensures c.NaN? ==> s == "nan"
  {
    match c
    case Text(t) => t
    case NaN => "nan"
  }

  /** The cell of `row` in column `j`; a short line is padded with NaN by the reader. */
  function CellAt(row: seq<Cell>, j: nat): Cell {
    if j < |row| then row[j] else NaN
  }

  /**
    `read_csv(file, skiprows=[1])`: `lines` are the lines after the header, and
    the first of them is dropped, whatever it holds.
  */
  function DataRows(lines: seq<seq<Cell>>): (rows: seq<seq<Cell>>)
    ensures |rows| == if lines == [] then 0 else |lines| - 1
    ensures forall i :: 0 <= i < |rows| ==> rows[i] == lines[i + 1]
  {
    if lines == [] then [] else lines[1..]
  }
}
