/** The IMPLEMENTED_BY relations `add_implementation_properties` merges
    between the apps and a repository
    (scripts/subcommands/store_in_neo4j.py:293-325). */
module Implementation {
  import opened Wrappers
  import Csv
  import opened JsonValue
  import Graph
  import PlayStore
  import opened Operations
  import AppData


  predicate PathRowsOk(properties: seq<Csv.Row>) {
    forall i :: 0 <= i < |properties| ==> "package" in properties[i]
  }

  /** `{pp['package'] for pp in properties}`. */
  function PackagesOf(properties: seq<Csv.Row>): (r: set<string>)
    requires PathRowsOk(properties)
    ensures forall p :: p in r <==> exists i :: 0 <= i < |properties| && properties[i]["package"] == p
  {
    set i | 0 <= i < |properties| :: properties[i]["package"]
  }

  /** `set(packages)`. */
  function Expected(packages: seq<string>): (r: set<string>)
    ensures forall p :: p in r <==> p in packages
  {
    set i | 0 <= i < |packages| :: packages[i]
  }

  predicate Mismatch(properties: seq<Csv.Row>, packages: seq<string>)
    requires PathRowsOk(properties)
  {
    PackagesOf(properties) != Expected(packages)
  }

  /** The operations issued: on a mismatch, an empty relation for every
      expected package first; then one per path row, in order, with the
      `package` key removed. */
  function ImplementationOps(properties: seq<Csv.Row>, packages: seq<string>): (r: seq<Op>)
    requires PathRowsOk(properties)
    ensures |r| == |properties| + (if Mismatch(properties, packages) then |packages| else 0)
    ensures Mismatch(properties, packages) ==> forall i :: 0 <= i < |packages| ==> r[i] == ImplementedBy(packages[i], map[])
    ensures forall i :: 0 <= i < |properties| ==>
              var op := r[|r| - |properties| + i];
              op == ImplementedBy(properties[i]["package"], properties[i] - {"package"}) && "package" !in op.properties
  {
    var empty := if Mismatch(properties, packages) then seq(|packages|, i requires 0 <= i < |packages| => ImplementedBy(packages[i], map[])) else [];
    empty + seq(|properties|, i requires 0 <= i < |properties| => ImplementedBy(properties[i]["package"], properties[i] - {"package"}))
  }

  /** Every expected package gets a relation, whether or not the path rows
      match them. */
  lemma EveryPackageConnected(properties: seq<Csv.Row>, packages: seq<string>)
    requires PathRowsOk(properties)
    ensures var ops := ImplementationOps(properties, packages);
            forall p :: p in packages ==> exists i :: 0 <= i < |ops| && ops[i].package == p
  {
    var ops := ImplementationOps(properties, packages);
    var n := |ops| - |properties|;
    forall p | p in packages
      ensures exists i :: 0 <= i < |ops| && ops[i].package == p
    {
      var k :| 0 <= k < |packages| && packages[k] == p;
      if Mismatch(properties, packages) {
        assert ops[k].package == p;
      } else {
        assert p in Expected(packages);
        var j :| 0 <= j < |properties| && properties[j]["package"] == p;
        assert ops[n + j].package == p;
      }
    }
  }

  /** No relation is made for a package that is neither expected nor named
      by a path row. */
  lemma OnlyNamedPackages(properties: seq<Csv.Row>, packages: seq<string>)
    requires PathRowsOk(properties)
    ensures var ops := ImplementationOps(properties, packages);
            forall i :: 0 <= i < |ops| ==> ops[i].ImplementedBy? && (ops[i].package in packages || exists j :: 0 <= j < |properties| && properties[j]["package"] == ops[i].package)
  {
    var ops := ImplementationOps(properties, packages);
    var n := |ops| - |properties|;
    forall i | 0 <= i < |ops|
      ensures ops[i].ImplementedBy? && (ops[i].package in packages || exists j :: 0 <= j < |properties| && properties[j]["package"] == ops[i].package)
    {
      if i >= n {
        assert ops[n + (i - n)].package == properties[i - n]["package"];
      }
    }
  }

  /** A CSV cell as a relation property. */
  function CellValues(row: Csv.Row): Object {
    map k | k in row :: JStr(row[k])
  }

  /** The operations in order, keeping only those whose package has an App
      node: the query's `MATCH (a:App {id: ...})` finds nothing for any
      other package, and then nothing is merged. */
  function WithApp(ops: seq<Op>, apps: set<string>): (r: seq<Op>)
    ensures forall op :: op in r <==> op in ops && HasApp(op, apps)
    decreases |ops|
  {
    if ops == [] then []
    else
      assert forall op :: op in ops <==> op == ops[0] || op in ops[1..];
      (if HasApp(ops[0], apps) then [ops[0]] else []) + WithApp(ops[1..], apps)
  }

  /** A relation operation for a package that has an App node. */
  predicate HasApp(op: Op, apps: set<string>) {
    op.ImplementedBy? && op.package in apps
  }

  /** `MERGE (a)-[r:IMPLEMENTED_BY]->(repo) ON CREATE SET r = ... ON MATCH SET r += ...`,
      one relation per package that has an App node among `apps`. */
  function Relations(ops: seq<Op>, apps: set<string>): (r: Graph.Store)
    requires forall i :: 0 <= i < |ops| ==> ops[i].ImplementedBy?
    ensures forall op :: op in ops && HasApp(op, apps) ==> JStr(op.package) in r
    ensures forall key :: key in r ==> exists op :: op in ops && HasApp(op, apps) && key == JStr(op.package)
  {
    var kept := WithApp(ops, apps);
    assert forall i :: 0 <= i < |kept| ==> kept[i] in kept;
    var sightings := seq(|kept|, i requires 0 <= i < |kept| && kept[i].ImplementedBy? =>
      (JStr(kept[i].package), CellValues(kept[i].properties)));
    var r := Graph.MergeAll(map[], sightings);
    assert forall op :: op in ops && HasApp(op, apps) ==> JStr(op.package) in r by {
      Graph.MergeAllGrows(map[], sightings);
      forall op | op in ops && HasApp(op, apps)
        ensures JStr(op.package) in r
      {
        var i :| 0 <= i < |kept| && kept[i] == op;
        assert sightings[i].0 == JStr(op.package);
      }
    }
    assert forall key :: key in r ==> exists op :: op in ops && HasApp(op, apps) && key == JStr(op.package) by {
      forall key | key in r
        ensures exists op :: op in ops && HasApp(op, apps) && key == JStr(op.package)
      {
        Graph.MergeAllOnlySighted(map[], sightings, key);
        var j :| 0 <= j < |sightings| && sightings[j].0 == key;
        assert kept[j] in kept;
      }
    }
    r
  }

  /** After the operations every expected package that has an App node is
      related to the repository. */
  lemma EveryPackageRelated(properties: seq<Csv.Row>, packages: seq<string>, apps: set<string>)
    requires PathRowsOk(properties)
    requires forall p :: p in packages ==> p in apps
    ensures forall i :: 0 <= i < |ImplementationOps(properties, packages)| ==> ImplementationOps(properties, packages)[i].ImplementedBy?
    ensures forall p :: p in packages ==> JStr(p) in Relations(ImplementationOps(properties, packages), apps)
  {
    var ops := ImplementationOps(properties, packages);
    EveryPackageConnected(properties, packages);
    OnlyNamedPackages(properties, packages);
    forall p | p in packages
      ensures JStr(p) in Relations(ops, apps)
    {
      var i :| 0 <= i < |ops| && ops[i].package == p;
      assert ops[i] in ops;
    }
  }

  /** `add_app_data` runs on the same packages first; when it completes, the
      App nodes it creates give every package of the repository its
      relation. */
  lemma AppsThenRelated(properties: seq<Csv.Row>, packages: seq<string>,
                        info: string -> Result<Option<PlayStore.PlayPage>, string>)
    requires PathRowsOk(properties)
    requires !AppData.AppDataOps(packages, info).raised
    ensures forall i :: 0 <= i < |ImplementationOps(properties, packages)| ==> ImplementationOps(properties, packages)[i].ImplementedBy?
    ensures var apps := set p | p in AppData.Apps(AppData.AppDataOps(packages, info).ops);
            forall p :: p in packages ==> JStr(p) in Relations(ImplementationOps(properties, packages), apps)
  {
    AppData.EveryAppCreated(packages, info);
    EveryPackageRelated(properties, packages, set p | p in AppData.Apps(AppData.AppDataOps(packages, info).ops));
  }
}
