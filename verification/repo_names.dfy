/** Repository names and the repository/package relation
    (scripts/util/parse.py: `get_latest_repo_name`, `invert_mapping`,
    `parse_repo_to_package_file`). */
module RepoNames {
  import opened Wrappers
  import Csv

  /** The columns `get_latest_repo_name` reads with `meta_data[...]`. */
  const NameColumns: set<string> := {"full_name", "renamed_to", "not_found"}

  /** `get_latest_repo_name(meta_data)`: the original name, and the latest
      known name — the new name after a rename, the original name while the
      repository is still found, and `None` for a repository that is gone. */
  function LatestRepoName(meta: Csv.Row): (r: (string, Option<string>))
    requires Csv.HasColumns(meta, NameColumns)
    ensures r.0 == meta["full_name"]
    ensures meta["renamed_to"] != "" ==> r.1 == Some(meta["renamed_to"])
    ensures meta["renamed_to"] == "" && meta["not_found"] != "TRUE" ==> r.1 == Some(meta["full_name"])
    ensures meta["renamed_to"] == "" && meta["not_found"] == "TRUE" ==> r.1 == None
  {
    var original := meta["full_name"];
    var renamedTo := meta["renamed_to"];
    var notFound := meta["not_found"] == "TRUE";
    if renamedTo != "" then (original, Some(renamedTo))
    else if !notFound then (original, Some(original))
    else (original, None)
  }

  /** The latest name is unknown exactly for a repository that was not renamed
      and is marked as not found; a known latest name is never empty unless
      the original name is. */
  lemma LatestUnknownIff(meta: Csv.Row)
    requires Csv.HasColumns(meta, NameColumns)
    ensures LatestRepoName(meta).1.None? <==> (meta["renamed_to"] == "" && meta["not_found"] == "TRUE")
    ensures LatestRepoName(meta).1 == Some("") ==> meta["full_name"] == ""
  {
  }

  /** The set `set(get_latest_repo_name(row))` of all known names of a
      repository; it holds `None` for a repository that is gone. */
  function KnownNames(meta: Csv.Row): (names: set<Option<string>>)
    requires Csv.HasColumns(meta, NameColumns)
    ensures Some(meta["full_name"]) in names
    ensures 1 <= |names| <= 2
    ensures None in names <==> (meta["renamed_to"] == "" && meta["not_found"] == "TRUE")
  {
    var (original, latest) := LatestRepoName(meta);
    {Some(original), latest}
  }

  /** `m` relates `repo` to `package`: `package in m[repo]`. */
  predicate Relates(m: map<string, set<string>>, repo: string, package: string) {
    repo in m && package in m[repo]
  }

  /** The inner loop of `invert_mapping`: `result.setdefault(repo,
      set()).add(package)` for each repository of `repos` in turn. */
  function AddPackage(result: map<string, set<string>>, package: string, repos: seq<string>): (r: map<string, set<string>>)
    ensures forall repo, q :: Relates(r, repo, q) <==> Relates(result, repo, q) || (q == package && repo in repos)
    ensures (forall repo :: repo in result ==> result[repo] != {}) ==> forall repo :: repo in r ==> r[repo] != {}
    decreases |repos|
  {
    if repos == [] then result
    else
      var repo := repos[0];
      assert forall x :: x in repos <==> x == repo || x in repos[1..];
      var existing := if repo in result then result[repo] else {};
      AddPackage(result[repo := existing + {package}], package, repos[1..])
  }

  /** `invert_mapping(packages)`: from package to repositories, into
      repository to the set of its packages. */
  method InvertMapping(packages: map<string, seq<string>>) returns (result: map<string, set<string>>)
    ensures forall repo, p :: Relates(result, repo, p) <==> p in packages && repo in packages[p]
    ensures forall repo :: repo in result ==> result[repo] != {}
  {
    result := map[];
    var todo := packages.Keys;
    var done: set<string> := {};
    while todo != {}
      invariant todo !! done && todo + done == packages.Keys
      invariant forall repo, p :: Relates(result, repo, p) <==> p in done && repo in packages[p]
      invariant forall repo :: repo in result ==> result[repo] != {}
      decreases |todo|
    {
      var p :| p in todo;
      result := AddPackage(result, p, packages[p]);
      done := done + {p};
      todo := todo - {p};
    }
  }

  /** `parse_repo_to_package_file(input_file)` over the (package, repository)
      pairs of the file's rows, in file order. */
  function RepoToPackages(pairs: seq<(string, string)>): (r: map<string, set<string>>)
    ensures forall repo, p :: Relates(r, repo, p) <==> (p, repo) in pairs
    ensures forall repo :: repo in r ==> r[repo] != {}
  {
    if pairs == [] then map[]
    else
      var rest := RepoToPackages(pairs[..|pairs| - 1]);
      var (p, repo) := pairs[|pairs| - 1];
      assert pairs == pairs[..|pairs| - 1] + [(p, repo)];
      rest[repo := (if repo in rest then rest[repo] else {}) + {p}]
  }

  /** `parse_repo_to_package_file(input_file)` over the rows `csv.reader`
      gives: `row[1]` raises `IndexError` on a row with fewer than two
      fields; fields after the second are ignored. */
  function ParseRepoToPackageFile(rows: seq<seq<string>>): (r: Result<map<string, set<string>>, string>)
    ensures r.Failure? <==> exists i :: 0 <= i < |rows| && |rows[i]| < 2
    ensures r.Success? ==>
              forall repo, p :: Relates(r.value, repo, p) <==> exists i :: 0 <= i < |rows| && rows[i][..2] == [p, repo]
  {
    if exists i :: 0 <= i < |rows| && |rows[i]| < 2 then Failure("IndexError")
    else
      var pairs := seq(|rows|, i requires 0 <= i < |rows| && |rows[i]| >= 2 => (rows[i][0], rows[i][1]));
      var r := RepoToPackages(pairs);
      assert forall repo, p :: (p, repo) in pairs <==> exists i :: 0 <= i < |rows| && rows[i][..2] == [p, repo] by {
        forall repo, p
          ensures (p, repo) in pairs <==> exists i :: 0 <= i < |rows| && rows[i][..2] == [p, repo]
        {
          if (p, repo) in pairs {
            var i :| 0 <= i < |pairs| && pairs[i] == (p, repo);
            assert rows[i][..2] == [p, repo];
          }
          if exists i :: 0 <= i < |rows| && rows[i][..2] == [p, repo] {
            var i :| 0 <= i < |rows| && rows[i][..2] == [p, repo];
            assert rows[i][0] == rows[i][..2][0] && rows[i][1] == rows[i][..2][1];
            assert pairs[i] == (p, repo);
          }
        }
      }
      Success(r)
  }

  /** The order of the rows does not matter. */
  lemma RepoToPackagesOrderFree(pairs: seq<(string, string)>, pairs': seq<(string, string)>)
    requires multiset(pairs) == multiset(pairs')
    ensures RepoToPackages(pairs) == RepoToPackages(pairs')
  {
    var r, r' := RepoToPackages(pairs), RepoToPackages(pairs');
    forall x ensures x in pairs <==> x in pairs' {
      assert x in pairs <==> x in multiset(pairs);
      assert x in pairs' <==> x in multiset(pairs');
    }
    forall repo ensures repo in r <==> repo in r' {
      if repo in r {
        var p :| p in r[repo];
        assert Relates(r, repo, p) && Relates(r', repo, p);
      }
      if repo in r' {
        var p :| p in r'[repo];
        assert Relates(r', repo, p) && Relates(r, repo, p);
      }
    }
    forall repo | repo in r ensures r[repo] == r'[repo] {
      forall p ensures p in r[repo] <==> p in r'[repo] {
        assert Relates(r, repo, p) <==> Relates(r', repo, p);
      }
    }
  }
}
