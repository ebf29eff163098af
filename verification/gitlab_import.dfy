/** Reading the results of the import into Gitlab
    (`read_gitlab_import_results`, scripts/util/parse.py): the rows are
    folded into a map keyed by GitHub id. A row with status `Success` is never
    replaced by a later row without it; otherwise the later row wins. */
module GitlabImport {
  import opened Text
  import opened Wrappers
  import Csv

  const IdColumn := "id"
  const StatusColumn := "clone_status"
  const UrlColumn := "clone_project_url"
  const PathColumn := "clone_project_path"

  /** The columns the fold reads with `row[...]`. */
  const ImportColumns: set<string> := {IdColumn, StatusColumn, UrlColumn}

  predicate WellFormedRows(rows: seq<Csv.Row>) {
    forall i :: 0 <= i < |rows| ==> Csv.HasColumns(rows[i], ImportColumns)
  }

  predicate IsSuccess(row: Csv.Row)
    requires StatusColumn in row
  {
    row[StatusColumn] == "Success"
  }

  /** The row as stored: the clone URL replaced by the last component of its
      path (`os.path.basename`). */
  function WithPath(row: Csv.Row): (r: Csv.Row)
    requires UrlColumn in row
    ensures r.Keys == row.Keys - {UrlColumn} + {PathColumn}
    ensures r[PathColumn] == Basename(row[UrlColumn])
    ensures forall k :: k in row && k != UrlColumn && k != PathColumn ==> r[k] == row[k]
  {
    (row - {UrlColumn})[PathColumn := Basename(row[UrlColumn])]
  }

  /** `read_gitlab_import_results` over the rows of the file, in file order. */
  function ReadImport(rows: seq<Csv.Row>): (r: map<string, Csv.Row>)
    requires WellFormedRows(rows)
    ensures forall id :: id in r ==> UrlColumn !in r[id] && PathColumn in r[id]
    ensures forall id :: id in r ==> StatusColumn in r[id] && IdColumn in r[id] && r[id][IdColumn] == id
  {
    if rows == [] then map[]
    else
      var stored := ReadImport(rows[..|rows| - 1]);
      var row := rows[|rows| - 1];
      var id := row[IdColumn];
      var r := if !IsSuccess(row) && id in stored && IsSuccess(stored[id]) then stored
               else stored[id := WithPath(row)];
      r
  }

  /** The fold raises `KeyError`: some row that is not skipped finds a row
      stored for its id, and the comparison `existing[key]` meets a column
      the stored row lacks. */
  predicate ImportRaises(rows: seq<Csv.Row>)
    requires WellFormedRows(rows)
    decreases |rows|
  {
    && rows != []
    && var init, row := rows[..|rows| - 1], rows[|rows| - 1];
       assert forall i :: 0 <= i < |init| ==> init[i] == rows[i];
       || ImportRaises(init)
       || var stored, id := ReadImport(init), row[IdColumn];
          && id in stored
          && !(!IsSuccess(row) && IsSuccess(stored[id]))
          && !(WithPath(row).Keys <= stored[id].Keys)
  }

  /** `read_gitlab_import_results`, failing where the fold raises. */
  function ReadGitlabImport(rows: seq<Csv.Row>): (r: Result<map<string, Csv.Row>, string>)
    requires WellFormedRows(rows)
    ensures r.Failure? <==> ImportRaises(rows)
    ensures r.Success? ==> r.value == ReadImport(rows) && r.value.Keys == Ids(rows)
  {
    ReadImportKeys(rows);
    if ImportRaises(rows) then Failure("KeyError") else Success(ReadImport(rows))
  }

  /** All rows have the same columns. */
  predicate SameColumns(rows: seq<Csv.Row>) {
    forall i, j :: 0 <= i < |rows| && 0 <= j < |rows| ==> rows[i].Keys == rows[j].Keys
  }

  /** Rows with the same columns, as `csv.DictReader` gives them for a file
      whose lines all have as many fields as the header, never raise. */
  lemma {:induction false} SameColumnsNeverRaise(rows: seq<Csv.Row>)
    requires WellFormedRows(rows) && SameColumns(rows)
    ensures !ImportRaises(rows)
    decreases |rows|
  {
    if rows != [] {
      var init, row := rows[..|rows| - 1], rows[|rows| - 1];
      LastRow(rows);
      assert forall i :: 0 <= i < |init| ==> init[i] == rows[i];
      SameColumnsNeverRaise(init);
      var id := row[IdColumn];
      if id in ReadImport(init) {
        ReadImportChosen(init, id);
        var i :| Chosen(init, id, i) && ReadImport(init)[id] == WithPath(init[i]);
        assert init[i].Keys == row.Keys;
      }
    }
  }

  /** A second row for an id that brings a column the first lacks raises. */
  lemma ExtraColumnRaises()
    ensures var first := map[IdColumn := "1", StatusColumn := "Failed", UrlColumn := "a/b"];
            var second := first["extra" := ""];
            ImportRaises([first, second])
  {
    var first := map[IdColumn := "1", StatusColumn := "Failed", UrlColumn := "a/b"];
    var second := first["extra" := ""];
    var rows := [first, second];
    assert rows[..1] == [first];
    assert [first][..0] == [];
    assert "extra" in WithPath(second) && "extra" !in WithPath(first);
  }

  /** The ids of the rows. */
  function Ids(rows: seq<Csv.Row>): set<string>
    requires WellFormedRows(rows)
  {
    set i | 0 <= i < |rows| :: rows[i][IdColumn]
  }

  lemma IdsSnoc(prefix: seq<Csv.Row>, row: Csv.Row)
    requires WellFormedRows(prefix) && Csv.HasColumns(row, ImportColumns)
    ensures WellFormedRows(prefix + [row])
    ensures Ids(prefix + [row]) == Ids(prefix) + {row[IdColumn]}
  {
    var rows := prefix + [row];
    assert forall i :: 0 <= i < |prefix| ==> rows[i] == prefix[i];
    forall id | id in Ids(rows) ensures id in Ids(prefix) + {row[IdColumn]} {
      var i :| 0 <= i < |rows| && rows[i][IdColumn] == id;
      if i < |prefix| {
        assert prefix[i][IdColumn] == id;
      }
    }
    assert rows[|prefix|][IdColumn] == row[IdColumn];
  }

  /** Exactly the ids of the rows are stored. */
  lemma {:induction false} ReadImportKeys(rows: seq<Csv.Row>)
    requires WellFormedRows(rows)
    ensures ReadImport(rows).Keys == Ids(rows)
    decreases |rows|
  {
    if rows != [] {
      var n := |rows| - 1;
      var prefix := rows[..n];
      assert rows == prefix + [rows[n]];
      assert WellFormedRows(prefix) by {
        assert forall i :: 0 <= i < n ==> prefix[i] == rows[i];
      }
      ReadImportKeys(prefix);
      IdsSnoc(prefix, rows[n]);
    }
  }

  /** Some row for `id` has status `Success`. */
  predicate HasSuccess(rows: seq<Csv.Row>, id: string)
    requires WellFormedRows(rows)
  {
    exists j :: 0 <= j < |rows| && rows[j][IdColumn] == id && IsSuccess(rows[j])
  }

  /** Row `i` is the one kept for `id`: the last `Success` row for it if
      there is one, otherwise the last row for it. */
  predicate Chosen(rows: seq<Csv.Row>, id: string, i: int)
    requires WellFormedRows(rows)
  {
    && 0 <= i < |rows| && rows[i][IdColumn] == id
    && if HasSuccess(rows, id) then
         IsSuccess(rows[i]) && forall j :: i < j < |rows| && rows[j][IdColumn] == id ==> !IsSuccess(rows[j])
       else
         forall j :: i < j < |rows| ==> rows[j][IdColumn] != id
  }

  /** At most one row is the chosen one. */
  lemma ChosenUnique(rows: seq<Csv.Row>, id: string, i: int, i': int)
    requires WellFormedRows(rows)
    requires Chosen(rows, id, i) && Chosen(rows, id, i')
    ensures i == i'
  {
  }

  /** One more row for another id leaves the stored row for `id` alone. */
  lemma SnocOther(prefix: seq<Csv.Row>, row: Csv.Row, id: string)
    requires WellFormedRows(prefix) && Csv.HasColumns(row, ImportColumns)
    requires row[IdColumn] != id && id in ReadImport(prefix)
    ensures WellFormedRows(prefix + [row])
    ensures id in ReadImport(prefix + [row]) && ReadImport(prefix + [row])[id] == ReadImport(prefix)[id]
  {
    var rows := prefix + [row];
    assert forall j :: 0 <= j < |prefix| ==> rows[j] == prefix[j];
    assert rows[..|prefix|] == prefix;
  }

  /** A row without `Success` after a stored `Success` row changes nothing. */
  lemma SnocKept(prefix: seq<Csv.Row>, row: Csv.Row)
    requires WellFormedRows(prefix) && Csv.HasColumns(row, ImportColumns)
    requires var stored := ReadImport(prefix);
             !IsSuccess(row) && row[IdColumn] in stored && IsSuccess(stored[row[IdColumn]])
    ensures WellFormedRows(prefix + [row])
    ensures ReadImport(prefix + [row]) == ReadImport(prefix)
  {
    var rows := prefix + [row];
    assert forall j :: 0 <= j < |prefix| ==> rows[j] == prefix[j];
    assert rows[..|prefix|] == prefix;
  }

  /** Otherwise the new row is stored, with its path derived. */
  lemma SnocReplaced(prefix: seq<Csv.Row>, row: Csv.Row)
    requires WellFormedRows(prefix) && Csv.HasColumns(row, ImportColumns)
    requires var stored := ReadImport(prefix);
             !(!IsSuccess(row) && row[IdColumn] in stored && IsSuccess(stored[row[IdColumn]]))
    ensures WellFormedRows(prefix + [row])
    ensures row[IdColumn] in ReadImport(prefix + [row]) && ReadImport(prefix + [row])[row[IdColumn]] == WithPath(row)
  {
    var rows := prefix + [row];
    assert forall j :: 0 <= j < |prefix| ==> rows[j] == prefix[j];
    assert rows[..|prefix|] == prefix;
  }

  /** One more row has `Success` for `id` exactly when it is such a row or an
      earlier one was. */
  lemma HasSuccessSnoc(prefix: seq<Csv.Row>, row: Csv.Row, id: string)
    requires WellFormedRows(prefix) && Csv.HasColumns(row, ImportColumns)
    ensures WellFormedRows(prefix + [row])
    ensures HasSuccess(prefix + [row], id) <==> HasSuccess(prefix, id) || (row[IdColumn] == id && IsSuccess(row))
  {
    var rows := prefix + [row];
    assert forall j :: 0 <= j < |prefix| ==> rows[j] == prefix[j];
    assert rows[|prefix|] == row;
    if HasSuccess(rows, id) && !(row[IdColumn] == id && IsSuccess(row)) {
      var j :| 0 <= j < |rows| && rows[j][IdColumn] == id && IsSuccess(rows[j]);
      assert j < |prefix| && prefix[j][IdColumn] == id && IsSuccess(prefix[j]);
    }
  }

  /** A row for another id leaves the choice for `id` alone. */
  lemma ChosenOtherRow(prefix: seq<Csv.Row>, row: Csv.Row, id: string, i: int)
    requires WellFormedRows(prefix) && Csv.HasColumns(row, ImportColumns)
    requires row[IdColumn] != id && Chosen(prefix, id, i)
    ensures WellFormedRows(prefix + [row]) && Chosen(prefix + [row], id, i)
  {
    var rows := prefix + [row];
    assert forall j :: 0 <= j < |prefix| ==> rows[j] == prefix[j];
    HasSuccessSnoc(prefix, row, id);
  }

  /** A row without `Success` leaves a chosen `Success` row chosen. */
  lemma ChosenAfterFailure(prefix: seq<Csv.Row>, row: Csv.Row, id: string, i: int)
    requires WellFormedRows(prefix) && Csv.HasColumns(row, ImportColumns)
    requires row[IdColumn] == id && !IsSuccess(row)
    requires Chosen(prefix, id, i) && IsSuccess(prefix[i])
    ensures WellFormedRows(prefix + [row]) && Chosen(prefix + [row], id, i)
  {
    var rows := prefix + [row];
    assert forall j :: 0 <= j < |prefix| ==> rows[j] == prefix[j];
    assert rows[i][IdColumn] == id && IsSuccess(rows[i]);
  }

  /** A new row is chosen when it succeeds or when no earlier row did. */
  lemma ChosenLast(prefix: seq<Csv.Row>, row: Csv.Row)
    requires WellFormedRows(prefix) && Csv.HasColumns(row, ImportColumns)
    requires IsSuccess(row) || !HasSuccess(prefix, row[IdColumn])
    ensures WellFormedRows(prefix + [row]) && Chosen(prefix + [row], row[IdColumn], |prefix|)
  {
    var rows := prefix + [row];
    assert rows[|prefix|] == row;
    HasSuccessSnoc(prefix, row, row[IdColumn]);
  }

  /** A non-empty file is its rows before the last, then the last. */
  lemma LastRow(rows: seq<Csv.Row>)
    requires WellFormedRows(rows) && rows != []
    ensures rows == rows[..|rows| - 1] + [rows[|rows| - 1]]
    ensures WellFormedRows(rows[..|rows| - 1]) && Csv.HasColumns(rows[|rows| - 1], ImportColumns)
  {
    var n := |rows| - 1;
    assert forall j :: 0 <= j < n ==> rows[..n][j] == rows[j];
  }

  /** The stored row for each id is the chosen row, with its path derived. */
  lemma ReadImportChosen(rows: seq<Csv.Row>, id: string)
    requires WellFormedRows(rows)
    requires id in ReadImport(rows)
    ensures exists i :: Chosen(rows, id, i) && ReadImport(rows)[id] == WithPath(rows[i])
  {
    var k := ChosenIndex(rows, id);
    assert Chosen(rows, id, k) && ReadImport(rows)[id] == WithPath(rows[k]);
  }

  /** The index `ReadImportChosen` promises, found by induction on the rows. */
  lemma {:induction false} ChosenIndex(rows: seq<Csv.Row>, id: string) returns (k: int)
    requires WellFormedRows(rows)
    requires id in ReadImport(rows)
    ensures StoredChosen(rows, id, k)
    decreases |rows|, 1
  {
    var prefix, row := rows[..|rows| - 1], rows[|rows| - 1];
    LastRow(rows);
    if id in ReadImport(prefix) {
      k := ReadImportChosenKept(prefix, row, id);
    } else {
      k := ChosenNew(prefix, row, id);
    }
  }

  /** The step of `ChosenIndex` for an id already stored: the chosen row
      stays, or the new row takes its place. */
  lemma ReadImportChosenKept(prefix: seq<Csv.Row>, row: Csv.Row, id: string) returns (k: int)
    requires WellFormedRows(prefix) && Csv.HasColumns(row, ImportColumns)
    requires id in ReadImport(prefix)
    ensures WellFormedRows(prefix + [row]) && StoredChosen(prefix + [row], id, k)
    decreases |prefix| + 1, 0
  {
    var i := ChosenIndex(prefix, id);
    if row[IdColumn] != id {
      KeptOther(prefix, row, id, i);
      k := i;
    } else if !IsSuccess(row) && IsSuccess(prefix[i]) {
      KeptAfterFailure(prefix, row, id, i);
      k := i;
    } else {
      KeptReplaced(prefix, row, id, i);
      k := |prefix|;
    }
  }

  /** The chosen row for `id` in `prefix`, stored as the fold stores it. */
  predicate StoredChosen(prefix: seq<Csv.Row>, id: string, i: int)
    requires WellFormedRows(prefix)
  {
    Chosen(prefix, id, i) && id in ReadImport(prefix) && ReadImport(prefix)[id] == WithPath(prefix[i])
  }

  lemma KeptOther(prefix: seq<Csv.Row>, row: Csv.Row, id: string, i: int)
    requires WellFormedRows(prefix) && Csv.HasColumns(row, ImportColumns)
    requires StoredChosen(prefix, id, i) && row[IdColumn] != id
    ensures WellFormedRows(prefix + [row]) && StoredChosen(prefix + [row], id, i)
  {
    ChosenOtherRow(prefix, row, id, i);
    SnocOther(prefix, row, id);
    assert (prefix + [row])[i] == prefix[i];
  }

  lemma KeptAfterFailure(prefix: seq<Csv.Row>, row: Csv.Row, id: string, i: int)
    requires WellFormedRows(prefix) && Csv.HasColumns(row, ImportColumns)
    requires StoredChosen(prefix, id, i) && row[IdColumn] == id && !IsSuccess(row) && IsSuccess(prefix[i])
    ensures WellFormedRows(prefix + [row]) && StoredChosen(prefix + [row], id, i)
  {
    ChosenAfterFailure(prefix, row, id, i);
    assert ReadImport(prefix)[id][StatusColumn] == prefix[i][StatusColumn];
    SnocKept(prefix, row);
    assert (prefix + [row])[i] == prefix[i];
  }

  lemma KeptReplaced(prefix: seq<Csv.Row>, row: Csv.Row, id: string, i: int)
    requires WellFormedRows(prefix) && Csv.HasColumns(row, ImportColumns)
    requires StoredChosen(prefix, id, i) && row[IdColumn] == id && !(!IsSuccess(row) && IsSuccess(prefix[i]))
    ensures WellFormedRows(prefix + [row]) && StoredChosen(prefix + [row], id, |prefix|)
  {
    ChosenLast(prefix, row);
    assert ReadImport(prefix)[id][StatusColumn] == prefix[i][StatusColumn];
    SnocReplaced(prefix, row);
    assert (prefix + [row])[|prefix|] == row;
  }

  /** The step of `ChosenIndex` for an id the new row stores first. */
  lemma ChosenNew(prefix: seq<Csv.Row>, row: Csv.Row, id: string) returns (k: int)
    requires WellFormedRows(prefix) && Csv.HasColumns(row, ImportColumns)
    requires id !in ReadImport(prefix) && WellFormedRows(prefix + [row]) && id in ReadImport(prefix + [row])
    ensures StoredChosen(prefix + [row], id, k)
  {
    ReadImportKeys(prefix);
    ReadImportKeys(prefix + [row]);
    IdsSnoc(prefix, row);
    SnocReplaced(prefix, row);
    assert forall j :: 0 <= j < |prefix| ==> prefix[j][IdColumn] in Ids(prefix);
    ChosenLast(prefix, row);
    assert (prefix + [row])[|prefix|] == row;
    k := |prefix|;
  }

  /** Every column of the file except the URL survives into the stored rows. */
  lemma ReadImportHas(rows: seq<Csv.Row>, columns: set<string>)
    requires WellFormedRows(rows)
    requires forall i :: 0 <= i < |rows| ==> Csv.HasColumns(rows[i], columns)
    ensures forall id :: id in ReadImport(rows) ==> Csv.HasColumns(ReadImport(rows)[id], columns - {UrlColumn})
  {
    forall id | id in ReadImport(rows)
      ensures Csv.HasColumns(ReadImport(rows)[id], columns - {UrlColumn})
    {
      ReadImportChosen(rows, id);
    }
  }

  // Scenarios from the comments of `read_gitlab_import_results`.

  /** A duplicate without `Success` after a `Success` row is skipped. */
  lemma SuccessIsSticky(rows: seq<Csv.Row>, row: Csv.Row)
    requires WellFormedRows(rows) && Csv.HasColumns(row, ImportColumns)
    requires row[IdColumn] in ReadImport(rows) && IsSuccess(ReadImport(rows)[row[IdColumn]])
    requires !IsSuccess(row)
    ensures ReadImport(rows + [row]) == ReadImport(rows)
  {
    assert (rows + [row])[..|rows|] == rows;
  }

  /** Any later row replaces a stored row without `Success`. */
  lemma LaterRowWins(rows: seq<Csv.Row>, row: Csv.Row)
    requires WellFormedRows(rows) && Csv.HasColumns(row, ImportColumns)
    requires row[IdColumn] in ReadImport(rows) ==> !IsSuccess(ReadImport(rows)[row[IdColumn]]) || IsSuccess(row)
    ensures ReadImport(rows + [row]) == ReadImport(rows)[row[IdColumn] := WithPath(row)]
  {
    assert (rows + [row])[..|rows|] == rows;
  }
}
