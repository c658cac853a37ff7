/**
 * The clean-up `load_data` applies to the `Observaciones` (notes) column:
 * every cell is turned into text, and the texts that spell a missing value
 * become the empty string.
 */
module Notes {
  import opened Frame

  /** The texts the clean-up treats as "no note". */
  const Sentinels: set<string> := {"None", "nan", "nan ", "<NA>"}

  /** The note that one cell becomes: its text, or `""` when that text is a sentinel. */
  function CleanNote(c: Cell): (r: string)
    ensures r == "" <==> Str(c) in Sentinels || Str(c) == ""
    ensures r != "" ==> r == Str(c)
  {
    var s := Str(c);
    if s in Sentinels then "" else s
  }

  /** The row with its notes cell cleaned and every other column as it was. */
  function CleanRow(row: Customer): Customer
  {
    row.(observaciones := Text(CleanNote(row.observaciones)))
  }

  /**
   * The table after the clean-up: the same rows in the same order, only the
   * notes column replaced.
   */
  function NormalizeNotes(rows: seq<Customer>): (r: seq<Customer>)
    ensures |r| == |rows|
    ensures forall i :: 0 <= i < |rows| ==>
              r[i].id == rows[i].id && r[i].usuario == rows[i].usuario
              && r[i].servicio == rows[i].servicio && r[i].vencimiento == rows[i].vencimiento
              && r[i].whatsapp == rows[i].whatsapp
              && r[i].observaciones.Text?
              && (r[i].observaciones.s == "" <==> Str(rows[i].observaciones) in Sentinels + {""})
              && (r[i].observaciones.s != "" ==> r[i].observaciones.s == Str(rows[i].observaciones))
  {
    if rows == [] then [] else [CleanRow(rows[0])] + NormalizeNotes(rows[1..])
  }

  /** Missing values of every kind come out as the empty note. */
  lemma MissingBecomesEmpty(rows: seq<Customer>, i: int)
    requires 0 <= i < |rows| && !rows[i].observaciones.Text?
    ensures NormalizeNotes(rows)[i].observaciones == Text("")
  {
  }

  /** Cleaning the notes a second time changes nothing. */
  lemma {:induction false} NormalizeNotesIdempotent(rows: seq<Customer>)
    ensures NormalizeNotes(NormalizeNotes(rows)) == NormalizeNotes(rows)
  {
    var once := NormalizeNotes(rows);
    var twice := NormalizeNotes(once);
    forall i | 0 <= i < |rows| ensures twice[i] == once[i] {
    }
  }
}
