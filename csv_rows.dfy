/** The keying loop of `read_csv` in sdf-csv-join.py: every row the CSV
    reader yields is filed under the value of its ID column, and a later row
    with the same ID replaces an earlier one. A row is a dictionary from
    column name to cell. */
module CsvRows {
  import opened Outcomes

  type CsvRow = map<string, string>

  /** `row[id_prop]` raised KeyError on the row at this position. */
  datatype CsvError = MissingId(index: nat)

  predicate AllHaveId(rows: seq<CsvRow>, idProp: string) {
    forall i :: 0 <= i < |rows| ==> idProp in rows[i]
  }

  /** The dictionary the loop leaves behind: the rows filed one after the
      other, each under its ID. */
  function KeyedBy(rows: seq<CsvRow>, idProp: string): map<string, CsvRow>
    requires AllHaveId(rows, idProp)
  {
    if rows == [] then map[]
    else
      var last := rows[|rows| - 1];
      KeyedBy(rows[..|rows| - 1], idProp)[last[idProp] := last]
  }

  /** The loop `for row in reader: result[row[id_prop]] = row`. It stops at
      the first row without the ID column; otherwise it returns the rows
      keyed by ID. */
  method KeyRows(rows: seq<CsvRow>, idProp: string) returns (r: Result<map<string, CsvRow>, CsvError>)
    ensures r.Success? <==> AllHaveId(rows, idProp)
    ensures r.Success? ==> r.value == KeyedBy(rows, idProp)
    ensures r.Failure? ==> r.error.index < |rows| && idProp !in rows[r.error.index]
    ensures r.Failure? ==> r.error.index <= |rows| && AllHaveId(rows[..r.error.index], idProp)
  {
    var result: map<string, CsvRow> := map[];
    var i := 0;
    while i < |rows|
      invariant 0 <= i <= |rows|
      invariant AllHaveId(rows[..i], idProp)
      invariant result == KeyedBy(rows[..i], idProp)
    {
      if idProp !in rows[i] {
        return Failure(MissingId(i));
      }
      assert rows[..i + 1][..i] == rows[..i];
      result := result[rows[i][idProp] := rows[i]];
      i := i + 1;
    }
    assert rows[..i] == rows;
    return Success(result);
  }

  /** The keys are exactly the IDs that occur. */
  lemma {:induction false} KeyedByKeys(rows: seq<CsvRow>, idProp: string)
    requires AllHaveId(rows, idProp)
    ensures KeyedBy(rows, idProp).Keys == set i | 0 <= i < |rows| :: rows[i][idProp]
  {
    if rows != [] {
      var init := rows[..|rows| - 1];
      KeyedByKeys(init, idProp);
      assert forall i :: 0 <= i < |init| ==> init[i] == rows[i];
    }
  }

  /** Every row is filed under its own ID. */
  lemma {:induction false} KeyedByOwnId(rows: seq<CsvRow>, idProp: string, mol: string)
    requires AllHaveId(rows, idProp)
    requires mol in KeyedBy(rows, idProp)
    ensures idProp in KeyedBy(rows, idProp)[mol]
    ensures KeyedBy(rows, idProp)[mol][idProp] == mol
    ensures KeyedBy(rows, idProp)[mol] in rows
  {
    if rows != [] {
      var init := rows[..|rows| - 1];
      if mol != rows[|rows| - 1][idProp] {
        KeyedByOwnId(init, idProp, mol);
      }
    }
  }

  /** The last row carrying an ID is the one kept for it. */
  lemma {:induction false} LastRowWins(rows: seq<CsvRow>, idProp: string, i: nat)
    requires AllHaveId(rows, idProp)
    requires i < |rows|
    requires forall j :: i < j < |rows| ==> rows[j][idProp] != rows[i][idProp]
    ensures rows[i][idProp] in KeyedBy(rows, idProp)
    ensures KeyedBy(rows, idProp)[rows[i][idProp]] == rows[i]
  {
    var init := rows[..|rows| - 1];
    if i < |rows| - 1 {
      assert forall j :: 0 <= j < |init| ==> init[j] == rows[j];
      LastRowWins(init, idProp, i);
    }
  }
}
