/**
 * The nutrient rows that the CSV parser produces from the nutrient table,
 * and removeUnnecessaryFieldsFromNutrientJson (crawl_food_data.js), which
 * deletes the "Data points" and "Std" columns from every row in place.
 *
 * A row is a JavaScript object whose keys are the table's column headers and
 * whose values are the cells; it is modelled as a map from header to cell.
 */
module NutrientRows {
  type Row = map<string, string>

  const DataPoints: string := "Data points"
  const Std: string := "Std"

  /** A row holds neither of the two noise columns. */
  predicate Clean(row: Row) {
    DataPoints !in row && Std !in row
  }

  /**
   * One row after the two guarded deletes: each key goes only if the row has
   * it. The result has exactly the row's other keys, with their values.
   */
  function Pruned(row: Row): (r: Row)
    ensures Clean(r)
    ensures forall k :: k in r <==> k in row && k != DataPoints && k != Std
    ensures forall k :: k in r ==> r[k] == row[k]
  {
    var afterDataPoints := if DataPoints in row then row - {DataPoints} else row;
    if Std in afterDataPoints then afterDataPoints - {Std} else afterDataPoints
  }

  /** Every row pruned, in the same order. */
  function PrunedRows(rows: seq<Row>): (r: seq<Row>)
    ensures |r| == |rows|
    ensures forall i :: 0 <= i < |r| ==> r[i] == Pruned(rows[i])
  {
    seq(|rows|, i requires 0 <= i < |rows| => Pruned(rows[i]))
  }

  /** A row without the noise columns is left as it is. */
  lemma PrunedKeepsClean(row: Row)
    requires Clean(row)
    ensures Pruned(row) == row
  {
    assert Pruned(row).Keys == row.Keys;
  }

  /** Pruning a second time changes nothing. */
  lemma PrunedIdempotent(row: Row)
    ensures Pruned(Pruned(row)) == Pruned(row)
  {
    PrunedKeepsClean(Pruned(row));
  }

  /** Pruning the rows a second time changes nothing. */
  lemma PrunedRowsIdempotent(rows: seq<Row>)
    ensures PrunedRows(PrunedRows(rows)) == PrunedRows(rows)
  {
    forall i | 0 <= i < |rows| ensures PrunedRows(PrunedRows(rows))[i] == PrunedRows(rows)[i] {
      PrunedIdempotent(rows[i]);
    }
  }

  /**
   * removeUnnecessaryFieldsFromNutrientJson: the loop over the rows that
   * deletes each noise key the row has. It hands back the array it was given,
   * whose rows are now the pruned rows, in the same order.
   */
  method RemoveUnnecessaryFields(rows: array<Row>) returns (clean: array<Row>)
    modifies rows
    ensures clean == rows
    ensures rows[..] == PrunedRows(old(rows[..]))
  {
    clean := rows;
    for i := 0 to clean.Length
      invariant forall k :: 0 <= k < i ==> clean[k] == Pruned(old(clean[k]))
      invariant forall k :: i <= k < clean.Length ==> clean[k] == old(clean[k])
    {
      if DataPoints in clean[i] {
        clean[i] := clean[i] - {DataPoints};
      }
      if Std in clean[i] {
        clean[i] := clean[i] - {Std};
      }
    }
  }
}
