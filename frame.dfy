/**
 * Cell values of the `clientes` table as pandas hands them to the
 * application after `pd.read_sql`, and one row of that table.
 */
module Frame {

  /**
   * One cell of a text column: a SQL NULL read back as Python `None`, a float
   * NaN, pandas' missing-value marker `pd.NA`, or a string.
   */
  datatype Cell = Null | NaN | NA | Text(s: string)

  /** Python's `str(value)` (and pandas' `astype(str)`) for one cell. */
  function Str(c: Cell): (r: string)
    ensures c.Text? ==> r == c.s
    ensures !c.Text? ==> r in {"None", "nan", "<NA>"}
  {
    match c
    case Null => "None"
    case NaN => "nan"
    case NA => "<NA>"
    case Text(s) => s
  }

  /** A row of `clientes`, with the columns the table declares. */
  datatype Customer = Customer(
    id: int,
    usuario: Cell,
    servicio: Cell,
    vencimiento: Cell,
    whatsapp: Cell,
    observaciones: Cell)
}
