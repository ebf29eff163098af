/** The operations `add_app_data` issues for the packages of a repository
    (scripts/subcommands/store_in_neo4j.py:386-405), with the page node of
    `add_google_play_page_node` (:26-49). */
module AppData {
  import opened Wrappers
  import opened JsonValue
  import PlayStore
  import opened Operations


  /** The operations for one package: its page node when there is page data,
      then its App node. */
  function AppOps(package: string, page: Option<PlayStore.PlayPage>): (r: seq<Op>)
    ensures |r| == (if page.Some? then 2 else 1)
    ensures r[|r| - 1] == PublishApp(package)
    ensures page.Some? ==> r[0] == CreatePlayPage(page.value)
  {
    (if page.Some? then [CreatePlayPage(page.value)] else []) + [PublishApp(package)]
  }

  /** `parse_google_play_info` for each package: `files` stands for the two
      JSON files read for a package and `parseUploadDate` for
      `parse_upload_date`. */
  function PlayInfo(files: string -> PlayStore.PlayFiles, parseUploadDate: Object -> Option<int>): string -> Result<Option<PlayStore.PlayPage>, string> {
    package => PlayStore.ParseGooglePlayInfo(package, files(package), parseUploadDate)
  }

  /** The operations for the packages in order, given the page data of each
      package (`PlayInfo`); page data that cannot be parsed raises before
      anything is issued for its package. */
  function AppDataOps(packages: seq<string>, info: string -> Result<Option<PlayStore.PlayPage>, string>): (r: Issued)
    ensures r.raised <==> exists i :: 0 <= i < |packages| && info(packages[i]).Failure?
    decreases |packages|
  {
    if packages == [] then Issued([], false)
    else
      assert forall i :: 0 <= i < |packages| - 1 ==> packages[1..][i] == packages[i + 1];
      match info(packages[0])
      case Failure(_) => Issued([], true)
      case Success(page) =>
        var rest := AppDataOps(packages[1..], info);
        Issued(AppOps(packages[0], page) + rest.ops, rest.raised)
  }

  /** The packages whose App node the operations create, in order. */
  function Apps(ops: seq<Op>): seq<string> {
    if ops == [] then []
    else (if ops[0].PublishApp? then [ops[0].package] else []) + Apps(ops[1..])
  }

  lemma {:induction false} AppsAppend(a: seq<Op>, b: seq<Op>)
    ensures Apps(a + b) == Apps(a) + Apps(b)
    decreases |a|
  {
    if a == [] {
      assert a + b == b;
    } else {
      assert (a + b)[1..] == a[1..] + b;
      AppsAppend(a[1..], b);
    }
  }

  /** The operations for the first package come first, then those of the rest. */
  lemma AppDataOpsCons(packages: seq<string>, info: string -> Result<Option<PlayStore.PlayPage>, string>)
    requires packages != [] && info(packages[0]).Success?
    ensures AppDataOps(packages, info).ops == AppOps(packages[0], info(packages[0]).value) + AppDataOps(packages[1..], info).ops
    ensures AppDataOps(packages, info).raised == AppDataOps(packages[1..], info).raised
  {
  }

  /** Without an error, every package gets its App node, in the given order. */
  lemma {:induction false} EveryAppCreated(packages: seq<string>, info: string -> Result<Option<PlayStore.PlayPage>, string>)
    requires !AppDataOps(packages, info).raised
    ensures Apps(AppDataOps(packages, info).ops) == packages
    decreases |packages|
  {
    if packages != [] {
      var page := info(packages[0]).value;
      AppDataOpsCons(packages, info);
      EveryAppCreated(packages[1..], info);
      AppsAppend(AppOps(packages[0], page), AppDataOps(packages[1..], info).ops);
      AppsOfOne(packages[0], page);
    }
  }

  /** The one App node of a package's operations is the package's. */
  lemma AppsOfOne(package: string, page: Option<PlayStore.PlayPage>)
    ensures Apps(AppOps(package, page)) == [package]
  {
    var p := [PublishApp(package)];
    assert Apps(p) == [package] by {
      assert p[1..] == [];
    }
    if page.Some? {
      var q := [CreatePlayPage(page.value)];
      assert AppOps(package, page) == q + p;
      AppsAppend(q, p);
      assert q[1..] == [];
    } else {
      assert AppOps(package, page) == p;
    }
  }

  /** A page node is always followed by the App node of its package. */
  lemma {:induction false} PageThenApp(packages: seq<string>, info: string -> Result<Option<PlayStore.PlayPage>, string>)
    ensures var ops := AppDataOps(packages, info).ops;
            forall j :: 0 <= j < |ops| && ops[j].CreatePlayPage? ==>
              j + 1 < |ops| && ops[j + 1].PublishApp? && info(ops[j + 1].package) == Success(Some(ops[j].page))
    decreases |packages|
  {
    if packages != [] && info(packages[0]).Success? {
      var head := AppOps(packages[0], info(packages[0]).value);
      var rest := AppDataOps(packages[1..], info).ops;
      AppDataOpsCons(packages, info);
      PageThenApp(packages[1..], info);
      var ops := head + rest;
      forall j | 0 <= j < |ops| && ops[j].CreatePlayPage?
        ensures j + 1 < |ops| && ops[j + 1].PublishApp? && info(ops[j + 1].package) == Success(Some(ops[j].page))
      {
        if j >= |head| {
          assert ops[j] == rest[j - |head|] && ops[j + 1] == rest[j - |head| + 1];
        } else {
          assert j == 0 && ops[1] == PublishApp(packages[0]);
        }
      }
    }
  }

  /** An App node is preceded by its page node exactly when the package has
      page data. */
  lemma {:induction false} AppAfterPage(packages: seq<string>, info: string -> Result<Option<PlayStore.PlayPage>, string>)
    ensures var ops := AppDataOps(packages, info).ops;
            forall j :: 0 <= j < |ops| && ops[j].PublishApp? ==>
              info(ops[j].package).Success? &&
              match info(ops[j].package).value
              case Some(page) => j > 0 && ops[j - 1] == CreatePlayPage(page)
              case None => j == 0 || !ops[j - 1].CreatePlayPage?
    decreases |packages|
  {
    if packages != [] && info(packages[0]).Success? {
      var head := AppOps(packages[0], info(packages[0]).value);
      var rest := AppDataOps(packages[1..], info).ops;
      AppDataOpsCons(packages, info);
      AppAfterPage(packages[1..], info);
      var ops := head + rest;
      forall j | 0 <= j < |ops| && ops[j].PublishApp?
        ensures info(ops[j].package).Success? &&
                match info(ops[j].package).value
                case Some(page) => j > 0 && ops[j - 1] == CreatePlayPage(page)
                case None => j == 0 || !ops[j - 1].CreatePlayPage?
      {
        if j > |head| {
          assert ops[j] == rest[j - |head|] && ops[j - 1] == rest[j - |head| - 1];
        } else if j == |head| {
          assert ops[j] == rest[0] && ops[j - 1] == PublishApp(packages[0]);
        } else {
          assert ops[j] == PublishApp(packages[0]);
        }
      }
    }
  }
}
