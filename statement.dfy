/**
 * The German Activity Statement layout both versions read: a section whose
 * rows start with the cell `Transaktionen`, a discriminator in column 1
 * (`Data`, `SubTotal`, `Total`), and the trade code in column 13, where `C`
 * marks a closing trade.
 */
module Statement {
  import opened Js
  import opened Order

  const Marker := "Transaktionen"

  function FirstCell(r: Row): Cell {
    CellAt(r, 0)
  }

  /** The section scan stops at this row: a non-empty first cell other than the marker. */
  predicate EndsSection(r: Row) {
    Truthy(FirstCell(r)) && FirstCell(r).value != Marker
  }

  /**
   * The index at which a scan that starts at `i` stops: the first row at or
   * after `i` that ends the section, or the number of rows.
   */
  function SectionEnd(rows: seq<Row>, i: nat): (e: nat)
    requires i <= |rows|
    ensures i <= e <= |rows|
    ensures e < |rows| ==> EndsSection(rows[e])
    decreases |rows| - i
  {
    if i == |rows| then i
    else if EndsSection(rows[i]) then i
    else SectionEnd(rows, i + 1)
  }

  /** No row the scan passes over ends the section. */
  lemma {:induction false} SectionEndFirst(rows: seq<Row>, i: nat, j: nat)
    requires i <= j < |rows| && j < SectionEnd(rows, i)
    ensures !EndsSection(rows[j])
    decreases |rows| - i
  {
    if j > i {
      SectionEndFirst(rows, i + 1, j);
    }
  }

  /** Passing over a row that does not end the section keeps the same end. */
  lemma SectionEndStep(rows: seq<Row>, i: nat)
    requires i < |rows| && !EndsSection(rows[i])
    ensures SectionEnd(rows, i + 1) == SectionEnd(rows, i)
  {
  }

  /**
   * The loop both versions run over a section: starting after the row
   * `start`, stop at the first row whose first cell is non-empty and not the
   * marker (`break`), and otherwise push what `keep` makes of the row. Rows
   * the source skips with `continue` are those for which `keep` gives nothing.
   */
  method ScanSection<B>(rows: seq<Row>, start: nat, keep: Row -> Option<B>) returns (out: seq<B>)
    requires start < |rows|
    ensures out == Collect(rows, start + 1, SectionEnd(rows, start + 1), keep)
  {
    ghost var end := SectionEnd(rows, start + 1);
    out := [];
    var i := start + 1;
    while i < |rows|
      invariant start + 1 <= i <= end
      invariant SectionEnd(rows, i) == end
      invariant out == Collect(rows, start + 1, i, keep)
    {
      var r := rows[i];
      if Truthy(CellAt(r, 0)) && CellAt(r, 0).value != Marker {
        break;
      }
      SectionEndStep(rows, i);
      out := out + Opt(keep(r));
      i := i + 1;
    }
  }

  /** A trade row: discriminator `Data` and a code (`r[13] || ''`) containing `C`. */
  predicate IsClosedDataRow(r: Row) {
    CellAt(r, 1) == Some("Data") && 'C' in OrElse(CellAt(r, 13), "")
  }
}
