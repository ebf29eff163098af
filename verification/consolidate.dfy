/** Consolidation of the repository data (`consolidate_data`,
    scripts/util/parse.py): the original export keyed by GitHub id, with the
    import columns laid over it, corrected from the mirror file, and joined
    with the packages known for any name of the repository. */
module Consolidate {
  import opened Wrappers
  import opened Text
  import Csv
  import RepoNames
  import GitlabImport

  const IdKey := "id"
  const NameKey := "clone_project_name"
  const CloneIdKey := "clone_project_id"
  const StatusKey := GitlabImport.StatusColumn
  const PathKey := GitlabImport.PathColumn
  const PackagesKey := "packages"
  const MirrorNameKey := "github_full_name"

  /** `GITLAB_KEYS`. */
  const GitlabKeys: seq<string> := [NameKey, CloneIdKey]

  /** The columns taken from the import: `GITLAB_KEYS + ['clone_status',
      'clone_project_path']`. */
  const ImportKeys: set<string> := {NameKey, CloneIdKey, StatusKey, PathKey}

  /** The columns taken from a mirror row: `GITLAB_KEYS +
      ['clone_project_path']`. */
  const MirrorKeys: set<string> := {NameKey, CloneIdKey, PathKey}

  // ---------------------------------------------------------------------
  // `{row[column]: row for row in csv.DictReader(...)}`

  /** A Python dict built from rows: the keys in insertion order and the
      row stored under each. */
  datatype Indexed = Indexed(keys: seq<string>, rows: map<string, Csv.Row>)

  predicate Distinct(xs: seq<string>) {
    forall i, j :: 0 <= i < j < |xs| ==> xs[i] != xs[j]
  }

  /** Every row has the column (the comprehension reads `row[column]`). */
  predicate Keyed(rows: seq<Csv.Row>, column: string) {
    forall i :: 0 <= i < |rows| ==> column in rows[i]
  }

  /** The values of `column`, row by row. */
  function Column(rows: seq<Csv.Row>, column: string): (r: seq<string>)
    requires Keyed(rows, column)
    ensures |r| == |rows| && forall i :: 0 <= i < |rows| ==> r[i] == rows[i][column]
  {
    seq(|rows|, i requires 0 <= i < |rows| && Keyed(rows, column) => rows[i][column])
  }

  /** The keys of a dict filled from `xs` in order: each value when first seen. */
  function FirstSeen(xs: seq<string>): (r: seq<string>)
    ensures Distinct(r)
    ensures forall x :: x in r <==> x in xs
  {
    if xs == [] then []
    else
      var prev := FirstSeen(xs[..|xs| - 1]);
      var x := xs[|xs| - 1];
      assert forall y :: y in xs <==> y in xs[..|xs| - 1] || y == x;
      if x in prev then prev else prev + [x]
  }

  /** The keys come in the order of their first occurrence: every
      occurrence of a later key comes after an occurrence of an earlier key. */
  lemma {:induction false} FirstSeenOrder(xs: seq<string>, a: int, b: int, j: int)
    requires 0 <= a < b < |FirstSeen(xs)|
    requires 0 <= j < |xs| && xs[j] == FirstSeen(xs)[b]
    ensures exists i :: 0 <= i < j && xs[i] == FirstSeen(xs)[a]
    decreases |xs|
  {
    var n := |xs| - 1;
    var prefix := xs[..n];
    var prev := FirstSeen(prefix);
    var keys := FirstSeen(xs);
    assert keys[a] == prev[a] && keys[a] in prefix;
    var i0 :| 0 <= i0 < n && prefix[i0] == keys[a];
    assert xs[i0] == prefix[i0];
    if j < n {
      assert xs[j] == prefix[j] && keys[b] in prefix;
      assert keys[b] == prev[b];
      FirstSeenOrder(prefix, a, b, j);
      var i :| 0 <= i < j && prefix[i] == keys[a];
      assert xs[i] == prefix[i];
    }
  }

  /** The rows stored by the comprehension: the last row with each key. */
  function LastRows(rows: seq<Csv.Row>, column: string): (r: map<string, Csv.Row>)
    requires Keyed(rows, column)
    ensures forall k :: k in r ==> column in r[k] && r[k][column] == k
  {
    if rows == [] then map[]
    else
      var n := |rows| - 1;
      LastRows(rows[..n], column)[rows[n][column] := rows[n]]
  }

  /** The dict comprehension keyed by `column`. */
  function IndexBy(rows: seq<Csv.Row>, column: string): Indexed
    requires Keyed(rows, column)
  {
    Indexed(FirstSeen(Column(rows, column)), LastRows(rows, column))
  }

  /** Appending a row stores it under its key. */
  lemma LastRowsSnoc(prefix: seq<Csv.Row>, row: Csv.Row, column: string)
    requires Keyed(prefix, column) && column in row
    ensures Keyed(prefix + [row], column)
    ensures LastRows(prefix + [row], column) == LastRows(prefix, column)[row[column] := row]
  {
    assert (prefix + [row])[..|prefix|] == prefix;
  }

  /** The keys stored are exactly the values of the column. */
  lemma {:induction false} LastRowsKeys(rows: seq<Csv.Row>, column: string)
    requires Keyed(rows, column)
    ensures forall k :: k in LastRows(rows, column) <==> k in Column(rows, column)
    decreases |rows|
  {
    if rows != [] {
      var n := |rows| - 1;
      var prefix, row := rows[..n], rows[n];
      assert rows == prefix + [row];
      assert Keyed(prefix, column) by {
        assert forall j :: 0 <= j < n ==> prefix[j] == rows[j];
      }
      LastRowsSnoc(prefix, row, column);
      LastRowsKeys(prefix, column);
      assert Column(rows, column) == Column(prefix, column) + [row[column]];
    }
  }

  /** The comprehension's keys and stored rows agree, and every key is
      stored under its own value. */
  lemma IndexByWellFormed(rows: seq<Csv.Row>, column: string)
    requires Keyed(rows, column)
    ensures Distinct(IndexBy(rows, column).keys)
    ensures forall k :: k in IndexBy(rows, column).keys <==> k in IndexBy(rows, column).rows
    ensures forall k :: k in IndexBy(rows, column).rows ==> IndexBy(rows, column).rows[k][column] == k
  {
    LastRowsKeys(rows, column);
  }

  /** Row `i` is the last row whose `column` is `k`. */
  predicate LastWith(rows: seq<Csv.Row>, column: string, k: string, i: int)
    requires Keyed(rows, column)
  {
    0 <= i < |rows| && rows[i][column] == k && forall j :: i < j < |rows| ==> rows[j][column] != k
  }

  /** A row with another key keeps the last row for `k` the last one. */
  lemma LastWithSnoc(prefix: seq<Csv.Row>, row: Csv.Row, column: string, k: string, i: int)
    requires Keyed(prefix, column) && column in row
    requires LastWith(prefix, column, k, i) && row[column] != k
    ensures Keyed(prefix + [row], column) && LastWith(prefix + [row], column, k, i)
  {
    var rows := prefix + [row];
    assert forall j :: 0 <= j < |prefix| ==> rows[j] == prefix[j];
  }

  /** The row stored under a key is the last row with that key. */
  lemma {:induction false} LastRowsLast(rows: seq<Csv.Row>, column: string, k: string)
    requires Keyed(rows, column)
    requires k in LastRows(rows, column)
    ensures exists i :: LastWith(rows, column, k, i) && LastRows(rows, column)[k] == rows[i]
    decreases |rows|
  {
    var n := |rows| - 1;
    var prefix, row := rows[..n], rows[n];
    assert rows == prefix + [row];
    assert Keyed(prefix, column) by {
      assert forall j :: 0 <= j < n ==> prefix[j] == rows[j];
    }
    LastRowsSnoc(prefix, row, column);
    if row[column] != k {
      LastRowsLast(prefix, column, k);
      var i :| LastWith(prefix, column, k, i) && LastRows(prefix, column)[k] == prefix[i];
      LastWithSnoc(prefix, row, column, k, i);
      assert rows[i] == prefix[i];
    } else {
      assert LastWith(rows, column, k, n);
    }
  }

  /** Columns every row has are in every stored row. */
  lemma LastRowsHas(rows: seq<Csv.Row>, column: string, columns: set<string>)
    requires Keyed(rows, column)
    requires forall i :: 0 <= i < |rows| ==> Csv.HasColumns(rows[i], columns)
    ensures forall k :: k in LastRows(rows, column) ==> Csv.HasColumns(LastRows(rows, column)[k], columns)
  {
    forall k | k in LastRows(rows, column)
      ensures Csv.HasColumns(LastRows(rows, column)[k], columns)
    {
      LastRowsLast(rows, column, k);
    }
  }

  // ---------------------------------------------------------------------
  // The overlay of the import (:437-452).

  /** `combined`: the original row with the import columns of its id laid
      over it, when the import has the id. */
  function Overlay(repoData: Csv.Row, imported: Option<Csv.Row>): (r: Csv.Row)
    requires imported.Some? ==> Csv.HasColumns(imported.value, ImportKeys)
    ensures imported.None? ==> r == repoData
    ensures imported.Some? ==> r.Keys == repoData.Keys + ImportKeys
    ensures imported.Some? ==> forall k :: k in ImportKeys ==> r[k] == imported.value[k]
    ensures forall k :: k in repoData && k !in ImportKeys ==> k in r && r[k] == repoData[k]
  {
    match imported
    case None => repoData
    case Some(row) =>
      map k | k in repoData.Keys + ImportKeys :: if k in ImportKeys then row[k] else repoData[k]
  }

  // ---------------------------------------------------------------------
  // The names of a repository, in the order the set yields them.

  /** The iteration order of `set(get_latest_repo_name(row))`. Python's set
      order depends on string hashes, which vary between runs, so whether the
      latest name comes first is a parameter. */
  function VisitOrder(original: string, latest: Option<string>, latestFirst: bool): (names: seq<Option<string>>)
    ensures forall n :: n in names <==> n == Some(original) || n == latest
    ensures |names| == 2 ==> names[0] != names[1]
    ensures 1 <= |names| <= 2
  {
    if latest == Some(original) then [latest]
    else if latestFirst then [latest, Some(original)]
    else [Some(original), latest]
  }

  // ---------------------------------------------------------------------
  // `_correct_gitlab_data` (:350-364).

  predicate MirrorRowsOk(mirrored: map<string, Csv.Row>) {
    forall n :: n in mirrored ==> Csv.HasColumns(mirrored[n], MirrorKeys)
  }

  /** The row after one matching mirror row was applied: its clone columns
      copied and the status forced to `Success`. */
  function MirrorOver(row: Csv.Row, mirror: Csv.Row): (r: Csv.Row)
    requires Csv.HasColumns(mirror, MirrorKeys)
    ensures r.Keys == row.Keys + MirrorKeys + {StatusKey}
    ensures forall k :: k in MirrorKeys ==> r[k] == mirror[k]
    ensures r[StatusKey] == "Success"
    ensures forall k :: k in row && k !in MirrorKeys && k != StatusKey ==> r[k] == row[k]
  {
    map k | k in row.Keys + MirrorKeys + {StatusKey} ::
      if k in MirrorKeys then mirror[k] else if k == StatusKey then "Success" else row[k]
  }

  /** A second mirror row replaces everything the first one wrote. */
  lemma MirrorOverTwice(row: Csv.Row, m1: Csv.Row, m2: Csv.Row)
    requires Csv.HasColumns(m1, MirrorKeys) && Csv.HasColumns(m2, MirrorKeys)
    ensures MirrorOver(MirrorOver(row, m1), m2) == MirrorOver(row, m2)
  {
  }

  /** The `if found and clone_id != row['clone_project_id']` guard: it reads
      the same column twice. */
  predicate ConflictGuard(row: Csv.Row, found: bool)
    requires found ==> CloneIdKey in row
  {
    found && Csv.Get(row, CloneIdKey) != Some(row[CloneIdKey])
  }

  /** The guard never fires, so no conflicting mirror row is ever skipped. */
  lemma ConflictGuardNeverFires(row: Csv.Row, found: bool)
    requires found ==> CloneIdKey in row
    ensures !ConflictGuard(row, found)
  {
  }

  /** `_correct_gitlab_data(row, repo_names)` as written, visiting the names
      in order; `found` records that a mirror row was applied already. */
  function CorrectGitlabData(row: Csv.Row, names: seq<Option<string>>, mirrored: map<string, Csv.Row>, found: bool): (r: Csv.Row)
    requires MirrorRowsOk(mirrored)
    requires found ==> CloneIdKey in row
    ensures row.Keys <= r.Keys
    ensures (forall i :: 0 <= i < |names| ==> names[i].None? || names[i].value !in mirrored) ==> r == row
    ensures (exists i :: 0 <= i < |names| && names[i].Some? && names[i].value in mirrored) ==> StatusKey in r && r[StatusKey] == "Success"
    decreases |names|
  {
    if names == [] then row
    else
      var name := names[0];
      var apply := name.Some? && name.value in mirrored && !ConflictGuard(row, found);
      var row' := if apply then MirrorOver(row, mirrored[name.value]) else row;
      CorrectGitlabData(row', names[1..], mirrored, found || apply)
  }

  /** The last name in visiting order that has a mirror row. */
  function LastMirrored(names: seq<Option<string>>, mirrored: map<string, Csv.Row>): (r: Option<string>)
    ensures r.Some? ==> Some(r.value) in names && r.value in mirrored
    ensures r.None? ==> forall i :: 0 <= i < |names| ==> names[i].None? || names[i].value !in mirrored
    ensures r.Some? ==> exists i :: 0 <= i < |names| && names[i] == r && NoMirroredAfter(names, i, mirrored)
  {
    if names == [] then None
    else
      var last := names[|names| - 1];
      if last.Some? && last.value in mirrored then last
      else
        var init := names[..|names| - 1];
        var r := LastMirrored(init, mirrored);
        assert forall i :: 0 <= i < |names| - 1 ==> init[i] == names[i];
        assert r.Some? ==> exists i :: 0 <= i < |names| && names[i] == r && NoMirroredAfter(names, i, mirrored) by {
          if r.Some? {
            var i :| 0 <= i < |init| && init[i] == r && NoMirroredAfter(init, i, mirrored);
            assert names[i] == r;
          }
        }
        r
  }

  /** No name after index `i` has a mirror row. */
  predicate NoMirroredAfter(names: seq<Option<string>>, i: int, mirrored: map<string, Csv.Row>) {
    forall j :: 0 <= j < |names| && i < j ==> names[j].None? || names[j].value !in mirrored
  }

  /** The last matching mirror row wins; without one the row is unchanged. */
  lemma {:induction false} CorrectGitlabDataLastWins(row: Csv.Row, names: seq<Option<string>>, mirrored: map<string, Csv.Row>, found: bool)
    requires MirrorRowsOk(mirrored)
    requires found ==> CloneIdKey in row
    ensures CorrectGitlabData(row, names, mirrored, found)
         == match LastMirrored(names, mirrored)
            case None => row
            case Some(n) => MirrorOver(row, mirrored[n])
    decreases |names|
  {
    if names != [] {
      var name, rest := names[0], names[1..];
      ConflictGuardNeverFires(row, found);
      assert names == [name] + rest;
      LastMirroredCons(name, rest, mirrored);
      if name.Some? && name.value in mirrored {
        var row' := MirrorOver(row, mirrored[name.value]);
        CorrectGitlabDataLastWins(row', rest, mirrored, true);
        match LastMirrored(rest, mirrored)
        case None =>
        case Some(n) => MirrorOverTwice(row, mirrored[name.value], mirrored[n]);
      } else {
        CorrectGitlabDataLastWins(row, rest, mirrored, found);
      }
    }
  }

  lemma {:induction false} LastMirroredCons(name: Option<string>, rest: seq<Option<string>>, mirrored: map<string, Csv.Row>)
    ensures LastMirrored([name] + rest, mirrored)
         == if LastMirrored(rest, mirrored).Some? then LastMirrored(rest, mirrored)
            else if name.Some? && name.value in mirrored then name
            else None
    decreases |rest|
  {
    var names := [name] + rest;
    if rest != [] {
      var last := rest[|rest| - 1];
      assert names[|names| - 1] == last;
      assert names[..|names| - 1] == [name] + rest[..|rest| - 1];
      LastMirroredCons(name, rest[..|rest| - 1], mirrored);
    } else {
      assert names[..|names| - 1] == [];
    }
  }

  /** The first name in visiting order that has a mirror row. */
  function FirstMirrored(names: seq<Option<string>>, mirrored: map<string, Csv.Row>): (r: Option<string>)
    ensures r.Some? ==> r.value in mirrored
    decreases |names|
  {
    if names == [] then None
    else if names[0].Some? && names[0].value in mirrored then names[0]
    else FirstMirrored(names[1..], mirrored)
  }

  /** `_correct_gitlab_data` with the guard the warning describes: once a
      mirror row was applied, a later one whose clone has another id is
      skipped. The first mirror row's clone id is kept; later rows for the
      same clone still refresh its name and path. */
  function CorrectGitlabDataIntended(row: Csv.Row, names: seq<Option<string>>, mirrored: map<string, Csv.Row>, found: bool): (r: Csv.Row)
    requires MirrorRowsOk(mirrored)
    requires found ==> CloneIdKey in row
    ensures row.Keys <= r.Keys
    ensures FirstMirrored(names, mirrored).None? ==> r == row
    ensures found ==> r[CloneIdKey] == row[CloneIdKey]
    ensures !found && FirstMirrored(names, mirrored).Some? ==>
              CloneIdKey in r && r[CloneIdKey] == mirrored[FirstMirrored(names, mirrored).value][CloneIdKey]
    decreases |names|
  {
    if names == [] then row
    else
      var name := names[0];
      var apply := name.Some? && name.value in mirrored && !(found && mirrored[name.value][CloneIdKey] != row[CloneIdKey]);
      var row' := if apply then MirrorOver(row, mirrored[name.value]) else row;
      CorrectGitlabDataIntended(row', names[1..], mirrored, found || apply)
  }

  /** Mirror rows that agree on the clone id give the same clone id either
      way; the two definitions part only where they disagree. */
  lemma {:induction false} IntendedAgreesOnOneClone(row: Csv.Row, names: seq<Option<string>>, mirrored: map<string, Csv.Row>)
    requires MirrorRowsOk(mirrored)
    requires forall m, n :: m in mirrored && n in mirrored ==> mirrored[m][CloneIdKey] == mirrored[n][CloneIdKey]
    ensures CorrectGitlabDataIntended(row, names, mirrored, false) == CorrectGitlabData(row, names, mirrored, false)
  {
    IntendedSameCloneStep(row, names, mirrored, false);
  }

  lemma {:induction false} IntendedSameCloneStep(row: Csv.Row, names: seq<Option<string>>, mirrored: map<string, Csv.Row>, found: bool)
    requires MirrorRowsOk(mirrored)
    requires forall m, n :: m in mirrored && n in mirrored ==> mirrored[m][CloneIdKey] == mirrored[n][CloneIdKey]
    requires found ==> CloneIdKey in row && forall n :: n in mirrored ==> mirrored[n][CloneIdKey] == row[CloneIdKey]
    ensures CorrectGitlabDataIntended(row, names, mirrored, found) == CorrectGitlabData(row, names, mirrored, found)
    decreases |names|
  {
    if names != [] {
      var name := names[0];
      ConflictGuardNeverFires(row, found);
      if name.Some? && name.value in mirrored {
        IntendedSameCloneStep(MirrorOver(row, mirrored[name.value]), names[1..], mirrored, true);
      } else {
        IntendedSameCloneStep(row, names[1..], mirrored, found);
      }
    }
  }

  /** Two mirror rows for the names of one repository with different clone
      ids: as written the last one's id is kept, as intended the first's. */
  lemma ConflictingMirrorsDiffer()
    ensures var a := map[NameKey := "a", CloneIdKey := "1", PathKey := "a"];
            var b := map[NameKey := "b", CloneIdKey := "2", PathKey := "b"];
            var mirrored := map["old" := a, "new" := b];
            var names := [Some("old"), Some("new")];
            && CorrectGitlabData(map[], names, mirrored, false)[CloneIdKey] == "2"
            && CorrectGitlabDataIntended(map[], names, mirrored, false)[CloneIdKey] == "1"
  {
    var a := map[NameKey := "a", CloneIdKey := "1", PathKey := "a"];
    var b := map[NameKey := "b", CloneIdKey := "2", PathKey := "b"];
    var mirrored := map["old" := a, "new" := b];
    var names := [Some("old"), Some("new")];
    assert names[1..] == [Some("new")] && names[1..][1..] == [];
    CorrectGitlabDataLastWins(map[], names, mirrored, false);
    assert LastMirrored(names[..1], mirrored) == Some("old");
  }

  /** With at most one mirrored name the visiting order does not matter. */
  lemma CorrectGitlabDataOrderFree(row: Csv.Row, original: string, latest: Option<string>, mirrored: map<string, Csv.Row>)
    requires MirrorRowsOk(mirrored)
    requires !(original in mirrored && latest.Some? && latest.value != original && latest.value in mirrored)
    ensures CorrectGitlabData(row, VisitOrder(original, latest, true), mirrored, false)
         == CorrectGitlabData(row, VisitOrder(original, latest, false), mirrored, false)
  {
    CorrectGitlabDataLastWins(row, VisitOrder(original, latest, true), mirrored, false);
    CorrectGitlabDataLastWins(row, VisitOrder(original, latest, false), mirrored, false);
  }

  // ---------------------------------------------------------------------
  // `_find_packages` (:370-391).

  /** `name` is a known repository name and `packages_by_repo` lists `p` for it. */
  predicate Provides(name: Option<string>, byRepo: map<string, set<string>>, p: string) {
    name.Some? && name.value in byRepo && p in byRepo[name.value]
  }

  /** The loop of `_find_packages`: the union of the packages of every name
      that has packages, and the names that contributed (`_used_repos`). */
  function CollectPackages(names: seq<Option<string>>, byRepo: map<string, set<string>>): (r: (set<string>, set<string>))
    ensures forall p :: p in r.0 <==> exists n :: n in names && Provides(n, byRepo, p)
    ensures forall repo :: repo in r.1 <==> Some(repo) in names && repo in byRepo
    decreases |names|
  {
    if names == [] then ({}, {})
    else
      var rest := CollectPackages(names[1..], byRepo);
      var name := names[0];
      assert forall n :: n in names <==> n == name || n in names[1..];
      if name.Some? && name.value in byRepo then (byRepo[name.value] + rest.0, {name.value} + rest.1)
      else rest
  }

  predicate RenamedOk(renamed: map<string, Csv.Row>) {
    forall id :: id in renamed ==> PackagesKey in renamed[id]
  }

  /** `_find_packages(github_id, repo_names)`: the packages of any of the
      names, or else the comma-separated list recorded for a renamed
      repository; with the names that contributed packages. */
  function FindPackages(githubId: string, names: seq<Option<string>>, byRepo: map<string, set<string>>,
                        renamed: map<string, Csv.Row>): (r: (set<string>, set<string>))
    requires RenamedOk(renamed)
    ensures r.1 == CollectPackages(names, byRepo).1
    ensures r.0 <= KnownPackages(byRepo) + RenamedPackages(renamed)
    ensures (exists n, p :: n in names && Provides(n, byRepo, p)) ==> r.0 == CollectPackages(names, byRepo).0
    ensures (forall n, p :: n in names ==> !Provides(n, byRepo, p)) ==>
              if githubId in renamed && renamed[githubId][PackagesKey] != "" then
                forall p :: p in r.0 <==> p in Split(renamed[githubId][PackagesKey], ',')
              else r.0 == {}
  {
    var (packages, used) := CollectPackages(names, byRepo);
    assert packages == {} ==> forall n, p :: n in names ==> !Provides(n, byRepo, p) by {
      forall n, p | n in names && Provides(n, byRepo, p) ensures p in packages {
      }
    }
    if packages == {} && githubId in renamed && renamed[githubId][PackagesKey] != "" then
      var listed := Split(renamed[githubId][PackagesKey], ',');
      ((set p | p in listed), used)
    else (packages, used)
  }

  /** Every package a renamed repository lists. */
  function RenamedPackages(renamed: map<string, Csv.Row>): (r: set<string>)
    requires RenamedOk(renamed)
    ensures forall id, p :: id in renamed && p in Split(renamed[id][PackagesKey], ',') ==> p in r
  {
    set id, p | id in renamed && p in Split(renamed[id][PackagesKey], ',') :: p
  }

  /** Only the set of names matters, not the order they are visited in. */
  lemma FindPackagesOrderFree(githubId: string, names: seq<Option<string>>, names': seq<Option<string>>,
                              byRepo: map<string, set<string>>, renamed: map<string, Csv.Row>)
    requires RenamedOk(renamed)
    requires forall n :: n in names <==> n in names'
    ensures FindPackages(githubId, names, byRepo, renamed) == FindPackages(githubId, names', byRepo, renamed)
  {
    var (a, u) := CollectPackages(names, byRepo);
    var (a', u') := CollectPackages(names', byRepo);
    assert a == a';
    assert u == u';
  }

  /** A list written by joining distinct non-empty package names is read
      back as exactly those names. */
  lemma RenamedPackagesRoundTrip(githubId: string, names: seq<Option<string>>, byRepo: map<string, set<string>>,
                                 renamed: map<string, Csv.Row>, listed: seq<string>)
    requires RenamedOk(renamed)
    requires forall n :: n in names ==> n.None? || n.value !in byRepo
    requires githubId in renamed && renamed[githubId][PackagesKey] == Join(listed, ',')
    requires |listed| >= 1 && forall i :: 0 <= i < |listed| ==> listed[i] != "" && ',' !in listed[i]
    ensures FindPackages(githubId, names, byRepo, renamed).0 == set p | p in listed
  {
    SplitJoin(listed, ',');
    JoinEmpty(listed, ',');
    assert listed != [""];
  }

  /** `','.join(packages)` is falsy. */
  predicate NoPackages(packages: set<string>) {
    packages == {} || packages == {""}
  }

  /** Whatever order the set is joined in, the joined string is empty
      exactly when there is no package or only the empty name. */
  lemma JoinedPackagesEmpty(packages: set<string>, order: seq<string>)
    requires Distinct(order) && forall p :: p in order <==> p in packages
    ensures Join(order, ',') == "" <==> NoPackages(packages)
  {
    JoinEmpty(order, ',');
    if order == [] {
      assert forall p :: p in packages ==> p in order;
      assert packages == {};
    } else if order == [""] {
      assert packages == {""};
    } else {
      assert order[0] in packages;
      if |order| >= 2 {
        assert order[0] != order[1] && order[1] in packages;
      } else {
        assert order == [order[0]] && order[0] != "";
      }
    }
  }

  // ---------------------------------------------------------------------
  // One row of the original file (:430-475).

  /** Everything a row is consolidated against: the import results, the
      mirror rows by name, the packages by repository, the renamed
      repositories by id, and, per id, whether iterating the set of names
      visits the latest name first. */
  datatype Sources = Sources(
    imported: map<string, Csv.Row>,
    mirrored: map<string, Csv.Row>,
    byRepo: map<string, set<string>>,
    renamed: map<string, Csv.Row>,
    latestFirst: string -> bool)

  predicate SourcesOk(src: Sources) {
    && (forall id :: id in src.imported ==> Csv.HasColumns(src.imported[id], ImportKeys))
    && MirrorRowsOk(src.mirrored)
    && RenamedOk(src.renamed)
  }

  /** What happens to a row: it is yielded with its columns and packages,
      skipped for want of packages or of a Gitlab id, or the generator raises
      `TypeError` on the `', '.join(repo_names)` of the log message because
      one of the names is `None`. */
  datatype Outcome = Yield(columns: Csv.Row, packages: set<string>) | NoPackage | NoCloneId | Crash

  /** The outcome of a row, with the packages and repositories it marks as
      used (they are marked before the outcome is decided). */
  datatype RowResult = RowResult(outcome: Outcome, packages: set<string>, usedRepos: set<string>)

  /** The names of the row in visiting order. */
  function Names(id: string, repoData: Csv.Row, src: Sources): (names: seq<Option<string>>)
    requires Csv.HasColumns(repoData, RepoNames.NameColumns)
    ensures forall n :: n in names <==> n in RepoNames.KnownNames(repoData)
  {
    var (original, latest) := RepoNames.LatestRepoName(repoData);
    VisitOrder(original, latest, src.latestFirst(id))
  }

  /** `combined` after the import overlay and the mirror correction. */
  function Corrected(id: string, repoData: Csv.Row, src: Sources): Csv.Row
    requires Csv.HasColumns(repoData, RepoNames.NameColumns) && SourcesOk(src)
  {
    var imported := if id in src.imported then Some(src.imported[id]) else None;
    CorrectGitlabData(Overlay(repoData, imported), Names(id, repoData, src), src.mirrored, false)
  }

  /** The body of the loop over `original.items()` for one row. */
  function ConsolidateRow(id: string, repoData: Csv.Row, src: Sources): (r: RowResult)
    requires Csv.HasColumns(repoData, RepoNames.NameColumns) && SourcesOk(src)
    ensures r.outcome == Crash ==> NoPackages(r.packages)
    ensures r.outcome.Yield? ==>
              && r.outcome.packages == r.packages && !NoPackages(r.packages)
              && PackagesKey !in r.outcome.columns
              && CloneIdKey in r.outcome.columns && r.outcome.columns[CloneIdKey] != ""
    ensures r.usedRepos <= src.byRepo.Keys
    ensures r.packages <= KnownPackages(src.byRepo) + RenamedPackages(src.renamed)
  {
    var names := Names(id, repoData, src);
    var corrected := Corrected(id, repoData, src);
    var (packages, used) := FindPackages(id, names, src.byRepo, src.renamed);
    var outcome :=
      if NoPackages(packages) then (if None in names then Crash else NoPackage)
      else if Csv.Get(corrected, CloneIdKey) == None || Csv.Get(corrected, CloneIdKey) == Some("") then NoCloneId
      else Yield(map k | k in corrected && k != PackagesKey :: corrected[k], packages);
    RowResult(outcome, packages, used)
  }

  /** The columns of the corrected row: the original's own columns outside
      the import columns are kept; the clone columns come from the last
      matching mirror row, if there is one, and from the import otherwise. */
  lemma CorrectedColumns(id: string, repoData: Csv.Row, src: Sources)
    requires Csv.HasColumns(repoData, RepoNames.NameColumns) && SourcesOk(src)
    ensures forall k :: k in repoData && k !in ImportKeys ==> k in Corrected(id, repoData, src) && Corrected(id, repoData, src)[k] == repoData[k]
    ensures match LastMirrored(Names(id, repoData, src), src.mirrored)
            case Some(n) =>
              && (forall k :: k in MirrorKeys ==> k in Corrected(id, repoData, src) && Corrected(id, repoData, src)[k] == src.mirrored[n][k])
              && StatusKey in Corrected(id, repoData, src) && Corrected(id, repoData, src)[StatusKey] == "Success"
            case None =>
              Corrected(id, repoData, src) == Overlay(repoData, if id in src.imported then Some(src.imported[id]) else None)
  {
    var imported := if id in src.imported then Some(src.imported[id]) else None;
    CorrectGitlabDataLastWins(Overlay(repoData, imported), Names(id, repoData, src), src.mirrored, false);
  }

  /** The generator raises exactly for a row without packages whose
      repository was not renamed and is marked as not found. */
  lemma RowCrashIff(id: string, repoData: Csv.Row, src: Sources)
    requires Csv.HasColumns(repoData, RepoNames.NameColumns) && SourcesOk(src)
    ensures ConsolidateRow(id, repoData, src).outcome == Crash
        <==> NoPackages(ConsolidateRow(id, repoData, src).packages)
             && repoData["renamed_to"] == "" && repoData["not_found"] == "TRUE"
  {
    assert None in Names(id, repoData, src) <==> None in RepoNames.KnownNames(repoData);
  }

  /** A row is yielded exactly when it has packages and a non-empty Gitlab
      id; it is yielded with its packages and every corrected column except
      `packages`, which holds the packages instead. */
  lemma RowYieldIff(id: string, repoData: Csv.Row, src: Sources)
    requires Csv.HasColumns(repoData, RepoNames.NameColumns) && SourcesOk(src)
    ensures ConsolidateRow(id, repoData, src).outcome.Yield?
        <==> !NoPackages(ConsolidateRow(id, repoData, src).packages)
             && CloneIdKey in Corrected(id, repoData, src) && Corrected(id, repoData, src)[CloneIdKey] != ""
    ensures ConsolidateRow(id, repoData, src).outcome.Yield? ==>
              var out := ConsolidateRow(id, repoData, src).outcome;
              && out.packages == ConsolidateRow(id, repoData, src).packages
              && out.columns.Keys == Corrected(id, repoData, src).Keys - {PackagesKey}
              && forall k :: k in out.columns ==> out.columns[k] == Corrected(id, repoData, src)[k]
  {
  }

  // ---------------------------------------------------------------------
  // The loop over `original.items()` and the reports after it.

  /** A yielded row: its GitHub id, columns and packages. */
  datatype Record = Record(id: string, columns: Csv.Row, packages: set<string>)

  /** A row of the original file with what the loop body makes of it. */
  datatype Step = Step(id: string, result: RowResult)

  /** The rows yielded, the id at which the generator raised if it did, and
      the repositories and packages marked as used. */
  datatype Run = Run(records: seq<Record>, crashedAt: Option<string>, usedRepos: set<string>, usedPackages: set<string>)

  predicate RowsOk(keys: seq<string>, rows: map<string, Csv.Row>) {
    forall k :: k in keys ==> k in rows && Csv.HasColumns(rows[k], RepoNames.NameColumns)
  }

  /** Whatever every step marks as used stays within the bounds. */
  lemma {:induction false} RunUsedWithin(steps: seq<Step>, repos: set<string>, packages: set<string>)
    requires forall j :: 0 <= j < |steps| ==> steps[j].result.usedRepos <= repos && steps[j].result.packages <= packages
    ensures RunSteps(steps).usedRepos <= repos && RunSteps(steps).usedPackages <= packages
    decreases |steps|
  {
    if steps != [] {
      var tail := steps[1..];
      assert forall j :: 0 <= j < |tail| ==> tail[j] == steps[j + 1];
      RunUsedWithin(tail, repos, packages);
    }
  }

  /** The loop marks as used only known repositories, and only packages
      that some repository provides or some renamed repository lists. */
  lemma StepsUsedWithin(keys: seq<string>, rows: map<string, Csv.Row>, src: Sources)
    requires RowsOk(keys, rows) && SourcesOk(src)
    ensures RunSteps(Steps(keys, rows, src)).usedRepos <= src.byRepo.Keys
    ensures RunSteps(Steps(keys, rows, src)).usedPackages <= KnownPackages(src.byRepo) + RenamedPackages(src.renamed)
  {
    var steps := Steps(keys, rows, src);
    var packages := KnownPackages(src.byRepo) + RenamedPackages(src.renamed);
    forall j | 0 <= j < |steps|
      ensures steps[j].result.usedRepos <= src.byRepo.Keys && steps[j].result.packages <= packages
    {
      var r := ConsolidateRow(keys[j], rows[keys[j]], src);
    }
    RunUsedWithin(steps, src.byRepo.Keys, packages);
  }

  /** The loop: the steps in order, up to and including the first that
      raises; nothing after it runs. */
  function RunSteps(steps: seq<Step>): (r: Run)
    ensures |r.records| <= |steps|
    decreases |steps|
  {
    if steps == [] then Run([], None, {}, {})
    else
      var step := steps[0];
      var result := step.result;
      if result.outcome == Crash then Run([], Some(step.id), result.usedRepos, result.packages)
      else
        var rest := RunSteps(steps[1..]);
        var records := if result.outcome.Yield? then [Record(step.id, result.outcome.columns, result.outcome.packages)] + rest.records
                       else rest.records;
        Run(records, rest.crashedAt, result.usedRepos + rest.usedRepos, result.packages + rest.usedPackages)
  }

  function StepIds(steps: seq<Step>): (ids: seq<string>)
    ensures |ids| == |steps| && forall i :: 0 <= i < |steps| ==> ids[i] == steps[i].id
  {
    seq(|steps|, i requires 0 <= i < |steps| => steps[i].id)
  }

  /** The ids of `records` are `ids` with some elements left out. */
  predicate InIdOrder(records: seq<Record>, ids: seq<string>)
    decreases |ids|
  {
    records == [] || (ids != [] && ((records[0].id == ids[0] && InIdOrder(records[1..], ids[1..])) || InIdOrder(records, ids[1..])))
  }

  /** Some step for `record`'s id yielded exactly that record. */
  predicate YieldedBy(record: Record, steps: seq<Step>) {
    exists j :: 0 <= j < |steps| && steps[j].id == record.id
                && steps[j].result.outcome == Yield(record.columns, record.packages)
  }

  /** The records come in the order of the steps, each one from a step that
      yields it. */
  lemma {:induction false} RunRecords(steps: seq<Step>)
    ensures InIdOrder(RunSteps(steps).records, StepIds(steps))
    ensures forall r :: r in RunSteps(steps).records ==> YieldedBy(r, steps)
    decreases |steps|
  {
    if steps != [] {
      var tail := steps[1..];
      RunRecords(tail);
      assert StepIds(steps)[1..] == StepIds(tail);
      forall r | YieldedBy(r, tail) ensures YieldedBy(r, steps) {
        var j :| 0 <= j < |tail| && tail[j].id == r.id && tail[j].result.outcome == Yield(r.columns, r.packages);
        assert steps[j + 1] == tail[j];
      }
      var result := steps[0].result;
      if result.outcome != Crash {
        var rest := RunSteps(tail);
        if result.outcome.Yield? {
          var records := [Record(steps[0].id, result.outcome.columns, result.outcome.packages)] + rest.records;
          assert records[1..] == rest.records;
          assert YieldedBy(records[0], steps);
        }
      }
    }
  }

  /** No step before index `j` raises. */
  predicate NoCrashBefore(steps: seq<Step>, j: int)
    requires j <= |steps|
  {
    forall c :: 0 <= c < j ==> steps[c].result.outcome != Crash
  }

  /** The generator raises at the first step that raises, and only there. */
  lemma {:induction false} RunCrashedAt(steps: seq<Step>)
    ensures RunSteps(steps).crashedAt.None? <==> NoCrashBefore(steps, |steps|)
    ensures RunSteps(steps).crashedAt.Some? ==>
              exists c :: 0 <= c < |steps| && steps[c].id == RunSteps(steps).crashedAt.value
                          && steps[c].result.outcome == Crash && NoCrashBefore(steps, c)
    decreases |steps|
  {
    if steps != [] {
      var tail := steps[1..];
      assert forall c :: 0 <= c < |tail| ==> tail[c] == steps[c + 1];
      RunCrashedAt(tail);
      if steps[0].result.outcome != Crash {
        var r := RunSteps(steps);
        if r.crashedAt.Some? {
          var c :| 0 <= c < |tail| && tail[c].id == r.crashedAt.value
                   && tail[c].result.outcome == Crash && NoCrashBefore(tail, c);
          assert NoCrashBefore(steps, c + 1);
        }
        if NoCrashBefore(steps, |steps|) {
          assert NoCrashBefore(tail, |tail|);
        }
      }
    }
  }

  /** Every step before the first that raises and that yields a row has its
      row among the records. */
  lemma {:induction false} RunComplete(steps: seq<Step>, j: int)
    requires 0 <= j < |steps| && NoCrashBefore(steps, j + 1)
    requires steps[j].result.outcome.Yield?
    ensures Record(steps[j].id, steps[j].result.outcome.columns, steps[j].result.outcome.packages) in RunSteps(steps).records
    decreases |steps|
  {
    if j > 0 {
      var tail := steps[1..];
      assert steps[0].result.outcome != Crash;
      assert tail[j - 1] == steps[j];
      assert NoCrashBefore(tail, j) by {
        assert forall c :: 0 <= c < j ==> tail[c] == steps[c + 1];
      }
      RunComplete(tail, j - 1);
    }
  }

  /** The loop body applied to every row of the original file, in order. */
  function Steps(keys: seq<string>, rows: map<string, Csv.Row>, src: Sources): (steps: seq<Step>)
    requires RowsOk(keys, rows) && SourcesOk(src)
    ensures |steps| == |keys|
    ensures forall j :: 0 <= j < |keys| ==> steps[j] == Step(keys[j], ConsolidateRow(keys[j], rows[keys[j]], src))
  {
    seq(|keys|, j requires 0 <= j < |keys| && RowsOk(keys, rows) && SourcesOk(src) =>
      Step(keys[j], ConsolidateRow(keys[j], rows[keys[j]], src)))
  }

  /** The loop body as intended: the log message for a row without packages
      is written whatever the names are, so such a row is skipped like any
      other row without packages and the generator goes on. */
  function ConsolidateRowIntended(id: string, repoData: Csv.Row, src: Sources): (r: RowResult)
    requires Csv.HasColumns(repoData, RepoNames.NameColumns) && SourcesOk(src)
    ensures r.outcome != Crash
    ensures r.outcome == NoPackage <==> NoPackages(r.packages)
    ensures ConsolidateRow(id, repoData, src).outcome != Crash ==> r == ConsolidateRow(id, repoData, src)
  {
    var written := ConsolidateRow(id, repoData, src);
    if written.outcome == Crash then written.(outcome := NoPackage) else written
  }

  /** The intended loop body applied to every row of the original file. */
  function StepsIntended(keys: seq<string>, rows: map<string, Csv.Row>, src: Sources): (steps: seq<Step>)
    requires RowsOk(keys, rows) && SourcesOk(src)
    ensures |steps| == |keys|
    ensures forall j :: 0 <= j < |keys| ==> steps[j] == Step(keys[j], ConsolidateRowIntended(keys[j], rows[keys[j]], src))
  {
    seq(|keys|, j requires 0 <= j < |keys| && RowsOk(keys, rows) && SourcesOk(src) =>
      Step(keys[j], ConsolidateRowIntended(keys[j], rows[keys[j]], src)))
  }

  /** As intended, the generator never raises and yields every row that has
      packages and a Gitlab id. */
  lemma IntendedRunComplete(keys: seq<string>, rows: map<string, Csv.Row>, src: Sources)
    requires RowsOk(keys, rows) && SourcesOk(src)
    ensures RunSteps(StepsIntended(keys, rows, src)).crashedAt.None?
    ensures forall j :: 0 <= j < |keys| && ConsolidateRow(keys[j], rows[keys[j]], src).outcome.Yield? ==>
              var out := ConsolidateRow(keys[j], rows[keys[j]], src).outcome;
              Record(keys[j], out.columns, out.packages) in RunSteps(StepsIntended(keys, rows, src)).records
  {
    var steps := StepsIntended(keys, rows, src);
    assert NoCrashBefore(steps, |steps|);
    RunCrashedAt(steps);
    forall j | 0 <= j < |keys| && ConsolidateRow(keys[j], rows[keys[j]], src).outcome.Yield?
      ensures var out := ConsolidateRow(keys[j], rows[keys[j]], src).outcome;
              Record(keys[j], out.columns, out.packages) in RunSteps(steps).records
    {
      RunComplete(steps, j);
    }
  }

  // ---------------------------------------------------------------------
  // `consolidate_data` as a whole.

  /** The consolidated rows, where the generator raised, the repositories
      and packages marked as used (`_used_repos`, `_used_packages`) and —
      only when it ran to the end — the repositories and packages logged as
      known but unused (`_log_unused_repos`, `_log_unused_packages`); each
      of these logs only when the known set is a proper superset of the used
      one, and `Some({})` stands for a report that logs nothing. */
  datatype Report = Report(records: seq<Record>, crashedAt: Option<string>,
                           usedRepos: set<string>, usedPackages: set<string>,
                           unusedRepos: Option<set<string>>, unusedPackages: Option<set<string>>)

  /** The columns an import row must have: those `read_gitlab_import_results`
      reads, the Gitlab columns copied into the result, and the name columns
      compared with the original file. */
  const ImportSourceColumns: set<string> :=
    GitlabImport.ImportColumns + {NameKey, CloneIdKey} + RepoNames.NameColumns

  /** `packages_by_repo` flattened to the set of known packages. */
  function KnownPackages(byRepo: map<string, set<string>>): (r: set<string>)
    ensures forall p :: p in r <==> exists repo :: repo in byRepo && p in byRepo[repo]
  {
    set repo, p | repo in byRepo && p in byRepo[repo] :: p
  }

  /** The original rows indexed by id, ready for the loop. */
  function OriginalIndex(original: seq<Csv.Row>): (r: Indexed)
    requires Keyed(original, IdKey)
    requires forall i :: 0 <= i < |original| ==> Csv.HasColumns(original[i], RepoNames.NameColumns)
    ensures RowsOk(r.keys, r.rows)
  {
    LastRowsKeys(original, IdKey);
    LastRowsHas(original, IdKey, RepoNames.NameColumns);
    IndexBy(original, IdKey)
  }

  /** The sources of the loop built from the three files. */
  function MakeSources(importRows: seq<Csv.Row>, mirrorRows: seq<Csv.Row>, renamed: map<string, Csv.Row>,
                       byRepo: map<string, set<string>>, latestFirst: string -> bool): (src: Sources)
    requires GitlabImport.WellFormedRows(importRows)
    requires forall i :: 0 <= i < |importRows| ==> Csv.HasColumns(importRows[i], ImportSourceColumns)
    requires Keyed(mirrorRows, MirrorNameKey)
    requires forall i :: 0 <= i < |mirrorRows| ==> Csv.HasColumns(mirrorRows[i], MirrorKeys)
    requires RenamedOk(renamed)
    ensures SourcesOk(src)
    ensures src.imported == GitlabImport.ReadImport(importRows)
    ensures src.mirrored == IndexBy(mirrorRows, MirrorNameKey).rows
    ensures src.byRepo == byRepo && src.renamed == renamed
  {
    GitlabImport.ReadImportHas(importRows, ImportSourceColumns);
    LastRowsHas(mirrorRows, MirrorNameKey, MirrorKeys);
    Sources(GitlabImport.ReadImport(importRows), IndexBy(mirrorRows, MirrorNameKey).rows, byRepo, renamed, latestFirst)
  }

  /** `consolidate_data`: the rows yielded, and the unused repositories and
      packages reported once all rows have been consumed; it fails before
      the first row where reading the import file raises. */
  function ConsolidateData(original: seq<Csv.Row>, importRows: seq<Csv.Row>, mirrorRows: seq<Csv.Row>,
                           renamed: map<string, Csv.Row>, byRepo: map<string, set<string>>,
                           latestFirst: string -> bool): (r: Result<Report, string>)
    requires Keyed(original, IdKey)
    requires forall i :: 0 <= i < |original| ==> Csv.HasColumns(original[i], RepoNames.NameColumns)
    requires GitlabImport.WellFormedRows(importRows)
    requires forall i :: 0 <= i < |importRows| ==> Csv.HasColumns(importRows[i], ImportSourceColumns)
    requires Keyed(mirrorRows, MirrorNameKey)
    requires forall i :: 0 <= i < |mirrorRows| ==> Csv.HasColumns(mirrorRows[i], MirrorKeys)
    requires RenamedOk(renamed)
    ensures r.Failure? <==> GitlabImport.ImportRaises(importRows)
    ensures r.Success? ==> (r.value.unusedRepos.Some? <==> r.value.crashedAt.None?)
    ensures r.Success? ==> (r.value.unusedPackages.Some? <==> r.value.crashedAt.None?)
    ensures r.Success? ==> r.value.usedRepos <= byRepo.Keys
    ensures r.Success? ==> r.value.usedPackages <= KnownPackages(byRepo) + RenamedPackages(renamed)
    ensures r.Success? && r.value.crashedAt.None? ==> r.value.unusedRepos == Some(byRepo.Keys - r.value.usedRepos)
    ensures r.Success? && r.value.crashedAt.None? ==>
              r.value.unusedPackages
              == Some(if r.value.usedPackages < KnownPackages(byRepo) then KnownPackages(byRepo) - r.value.usedPackages else {})
  {
    if GitlabImport.ImportRaises(importRows) then Failure("KeyError")
    else
      var index := OriginalIndex(original);
      var src := MakeSources(importRows, mirrorRows, renamed, byRepo, latestFirst);
      var steps := Steps(index.keys, index.rows, src);
      var run := RunSteps(steps);
      assert run.usedRepos <= byRepo.Keys && run.usedPackages <= KnownPackages(byRepo) + RenamedPackages(renamed) by {
        StepsUsedWithin(index.keys, index.rows, src);
      }
      var known := KnownPackages(byRepo);
      var repos := byRepo.Keys;
      var unusedRepos := if repos > run.usedRepos then repos - run.usedRepos else {};
      assert unusedRepos == repos - run.usedRepos by {
        if !(repos > run.usedRepos) {
          assert repos == run.usedRepos;
        }
      }
      var unusedPackages := if known > run.usedPackages then known - run.usedPackages else {};
      if run.crashedAt.Some? then Success(Report(run.records, run.crashedAt, run.usedRepos, run.usedPackages, None, None))
      else Success(Report(run.records, None, run.usedRepos, run.usedPackages, Some(unusedRepos), Some(unusedPackages)))
  }

  /** When every package a renamed repository lists is known, the unused
      packages are reported exactly as the known ones left unused; the
      proper-superset guard only silences the report when some renamed
      repository lists a package no repository provides. */
  lemma UnusedPackagesExact(original: seq<Csv.Row>, importRows: seq<Csv.Row>, mirrorRows: seq<Csv.Row>,
                            renamed: map<string, Csv.Row>, byRepo: map<string, set<string>>,
                            latestFirst: string -> bool)
    requires Keyed(original, IdKey)
    requires forall i :: 0 <= i < |original| ==> Csv.HasColumns(original[i], RepoNames.NameColumns)
    requires GitlabImport.WellFormedRows(importRows)
    requires forall i :: 0 <= i < |importRows| ==> Csv.HasColumns(importRows[i], ImportSourceColumns)
    requires Keyed(mirrorRows, MirrorNameKey)
    requires forall i :: 0 <= i < |mirrorRows| ==> Csv.HasColumns(mirrorRows[i], MirrorKeys)
    requires RenamedOk(renamed)
    requires RenamedPackages(renamed) <= KnownPackages(byRepo)
    ensures var r := ConsolidateData(original, importRows, mirrorRows, renamed, byRepo, latestFirst);
            r.Success? && r.value.crashedAt.None? ==>
              r.value.unusedPackages == Some(KnownPackages(byRepo) - r.value.usedPackages)
  {
    var r := ConsolidateData(original, importRows, mirrorRows, renamed, byRepo, latestFirst);
    if r.Success? && r.value.crashedAt.None? {
      var known, used := KnownPackages(byRepo), r.value.usedPackages;
      assert used <= known;
      assert !(used < known) ==> known - used == {};
    }
  }

  /** What every yielded row carries: packages, a Gitlab id, and no
      `packages` column of its own. */
  predicate ValidRecord(rec: Record) {
    && !NoPackages(rec.packages)
    && CloneIdKey in rec.columns && rec.columns[CloneIdKey] != ""
    && PackagesKey !in rec.columns
  }

  /** A step of the loop that yields a record yields a valid one. */
  lemma YieldedIsValid(id: string, repoData: Csv.Row, src: Sources, rec: Record)
    requires Csv.HasColumns(repoData, RepoNames.NameColumns) && SourcesOk(src)
    requires ConsolidateRow(id, repoData, src).outcome == Yield(rec.columns, rec.packages)
    ensures ValidRecord(rec)
  {
    RowYieldIff(id, repoData, src);
  }

  /** The yielded rows: valid, in the order their ids first appear in the
      original file; and the generator raises only at a repository that was
      neither renamed nor found. */
  lemma ConsolidateDataRecords(original: seq<Csv.Row>, importRows: seq<Csv.Row>, mirrorRows: seq<Csv.Row>,
                               renamed: map<string, Csv.Row>, byRepo: map<string, set<string>>,
                               latestFirst: string -> bool)
    requires Keyed(original, IdKey)
    requires forall i :: 0 <= i < |original| ==> Csv.HasColumns(original[i], RepoNames.NameColumns)
    requires GitlabImport.WellFormedRows(importRows)
    requires forall i :: 0 <= i < |importRows| ==> Csv.HasColumns(importRows[i], ImportSourceColumns)
    requires Keyed(mirrorRows, MirrorNameKey)
    requires forall i :: 0 <= i < |mirrorRows| ==> Csv.HasColumns(mirrorRows[i], MirrorKeys)
    requires RenamedOk(renamed)
    ensures var r := ConsolidateData(original, importRows, mirrorRows, renamed, byRepo, latestFirst);
            r.Success? ==>
              && (forall rec :: rec in r.value.records ==> ValidRecord(rec))
              && InIdOrder(r.value.records, FirstSeen(Column(original, IdKey)))
    ensures var r := ConsolidateData(original, importRows, mirrorRows, renamed, byRepo, latestFirst);
            r.Success? && r.value.crashedAt.Some? ==>
              exists i :: LastWith(original, IdKey, r.value.crashedAt.value, i)
                          && original[i]["renamed_to"] == "" && original[i]["not_found"] == "TRUE"
  {
    var index := OriginalIndex(original);
    var src := MakeSources(importRows, mirrorRows, renamed, byRepo, latestFirst);
    var steps := Steps(index.keys, index.rows, src);
    RunRecords(steps);
    assert StepIds(steps) == index.keys;
    forall rec | rec in RunSteps(steps).records ensures ValidRecord(rec) {
      var j :| 0 <= j < |steps| && steps[j].id == rec.id && steps[j].result.outcome == Yield(rec.columns, rec.packages);
      YieldedIsValid(index.keys[j], index.rows[index.keys[j]], src, rec);
    }
    RunCrashedAt(steps);
    if RunSteps(steps).crashedAt.Some? {
      var c :| 0 <= c < |steps| && steps[c].id == RunSteps(steps).crashedAt.value
               && steps[c].result.outcome == Crash && NoCrashBefore(steps, c);
      RowCrashIff(index.keys[c], index.rows[index.keys[c]], src);
      LastRowsLast(original, IdKey, index.keys[c]);
    }
  }
}
