/**
 * The grid a table extractor produces, as the cleaners read it with
 * `pd.read_excel(..., header=None)`: a rectangular frame of cells, each missing
 * (`NaN`), a text or a number.
 */
module Cells {
  import opened Strings

  datatype Cell = Missing | Text(text: string) | Num(value: int)

  type Row = seq<Cell>

  /** `str(cell)`: a missing cell prints as "nan", a number as its decimal digits. */
  function Str(c: Cell): string {
    match c
    case Missing => "nan"
    case Text(s) => s
    case Num(n) => IntToString(n)
  }

  /** A frame before the rectangularity check: `width` is `df.shape[1]`. */
  datatype Grid = Grid(width: nat, rows: seq<Row>)

  /** Every row has `width` cells. */
  predicate AllWidth(rows: seq<Row>, width: nat) {
    forall i :: 0 <= i < |rows| ==> |rows[i]| == width
  }

  lemma SuffixKeepsWidth(rows: seq<Row>, tail: seq<Row>, width: nat)
    requires AllWidth(rows, width) && |tail| <= |rows| && tail == rows[|rows| - |tail|..]
    ensures AllWidth(tail, width)
  {
    forall i | 0 <= i < |tail| ensures |tail[i]| == width {
      assert tail[i] == rows[|rows| - |tail| + i];
    }
  }

  predicate Rectangular(g: Grid) {
    AllWidth(g.rows, g.width)
  }

  /** A data frame: every row has `width` cells, even when there are no rows at all. */
  type Frame = g: Grid | Rectangular(g) witness Grid(0, [])

  /** A cleaned table: one label per column, then the data rows. */
  datatype Table = Table(header: seq<string>, rows: seq<Row>)

  /** Every data row has exactly one cell per header label. */
  predicate Shaped(t: Table) {
    forall i :: 0 <= i < |t.rows| ==> |t.rows[i]| == |t.header|
  }
}
