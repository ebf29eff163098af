/** The repository node (scripts/subcommands/store_in_neo4j.py): its
    properties as `format_repository_data` builds them from a row of the
    repository list and the repository's snapshot, and the FORKS edges
    between repository nodes. */
module Repository {
  import opened Wrappers
  import opened Text
  import Csv
  import opened JsonValue
  import Timestamp

  // ---------------------------------------------------------------------
  // `format_repository_data` (:52-82) and the snapshot it is given (:115).

  /** The columns of the repository list read with `meta_data[...]`. */
  const RepoColumns: set<string> := {
    "id", "owner_login", "name", "description", "created_at", "forks_count",
    "stargazers_count", "subscribers_count", "watchers_count", "network_count",
    "owner_type", "parent_id", "source_id"}

  /** The 15 properties of a repository node. */
  const RepoKeys: set<string> := {
    "id", "owner", "name", "snapshot", "snapshotTimestamp", "description", "createdAt",
    "forksCount", "stargazersCount", "subscribersCount", "watchersCount", "networkCount",
    "ownerType", "parentId", "sourceId"}

  /** The properties copied from a column of the repository list, and that column. */
  const CopiedColumns: map<string, string> := map[
    "id" := "id", "owner" := "owner_login", "name" := "name", "description" := "description",
    "createdAt" := "created_at", "forksCount" := "forks_count",
    "stargazersCount" := "stargazers_count", "subscribersCount" := "subscribers_count",
    "watchersCount" := "watchers_count", "networkCount" := "network_count",
    "ownerType" := "owner_type", "parentId" := "parent_id", "sourceId" := "source_id"]

  /** The returned dict, one field per property. */
  datatype Repository = Repository(
    id: string, owner: string, name: string, snapshot: Json, snapshotTimestamp: Json,
    description: string, createdAt: string, forksCount: string, stargazersCount: string,
    subscribersCount: string, watchersCount: string, networkCount: string,
    ownerType: string, parentId: string, sourceId: string)

  /** The repository as the node's property map. */
  function Properties(repo: Repository): Object {
    map[
      "id" := JStr(repo.id),
      "owner" := JStr(repo.owner),
      "name" := JStr(repo.name),
      "snapshot" := repo.snapshot,
      "snapshotTimestamp" := repo.snapshotTimestamp,
      "description" := JStr(repo.description),
      "createdAt" := JStr(repo.createdAt),
      "forksCount" := JStr(repo.forksCount),
      "stargazersCount" := JStr(repo.stargazersCount),
      "subscribersCount" := JStr(repo.subscribersCount),
      "watchersCount" := JStr(repo.watchersCount),
      "networkCount" := JStr(repo.networkCount),
      "ownerType" := JStr(repo.ownerType),
      "parentId" := JStr(repo.parentId),
      "sourceId" := JStr(repo.sourceId)
    ]
  }

  /** The node has exactly the 15 properties: the copied ones and the two
      taken from the snapshot. */
  lemma PropertiesKeys(repo: Repository)
    ensures Properties(repo).Keys == RepoKeys == CopiedColumns.Keys + {"snapshot", "snapshotTimestamp"}
  {
  }

  /** `snapshot.get('created_at')` as a truth value: missing and empty are falsy. */
  function CreatedAt(snapshot: Csv.Row): string {
    Csv.Get(snapshot, "created_at").GetOr("")
  }

  /** `format_repository_data(meta_data, snapshot)`; a creation time that
      `parse_iso8601` rejects raises. */
  function FormatRepositoryData(meta: Csv.Row, snapshot: Csv.Row): (r: Result<Repository, Timestamp.TimestampError>)
    requires Csv.HasColumns(meta, RepoColumns)
    ensures r.Failure? <==> CreatedAt(snapshot) != "" && Timestamp.ParseIso8601(CreatedAt(snapshot)).Failure?
    ensures r.Success? ==> r.value.snapshot == OptionalString(Csv.Get(snapshot, "web_url"))
    ensures r.Success? ==> (r.value.snapshotTimestamp == JNull <==> CreatedAt(snapshot) == "")
    ensures r.Success? && CreatedAt(snapshot) != "" ==>
              r.value.snapshotTimestamp == JInt(Timestamp.ParseIso8601(CreatedAt(snapshot)).value)
    ensures r.Success? ==> forall key :: key in CopiedColumns ==> Properties(r.value)[key] == JStr(meta[CopiedColumns[key]])
  {
    var timestamp :- if CreatedAt(snapshot) != "" then
                       var t :- Timestamp.ParseIso8601(CreatedAt(snapshot)); Success(JInt(t))
                     else Success(JNull);
    Success(Repository(
      meta["id"], meta["owner_login"], meta["name"],
      OptionalString(Csv.Get(snapshot, "web_url")), timestamp,
      meta["description"], meta["created_at"], meta["forks_count"], meta["stargazers_count"],
      meta["subscribers_count"], meta["watchers_count"], meta["network_count"],
      meta["owner_type"], meta["parent_id"], meta["source_id"]))
  }

  /** `snapshots[0] if snapshots else {}`. */
  function SelectSnapshot(snapshots: seq<Csv.Row>): Csv.Row {
    if snapshots != [] then snapshots[0] else map[]
  }

  /** The properties `add_repository_node` creates the repository node with. */
  function RepositoryNode(meta: Csv.Row, snapshots: seq<Csv.Row>): (r: Result<Repository, Timestamp.TimestampError>)
    requires Csv.HasColumns(meta, RepoColumns)
    ensures snapshots == [] ==> r.Success? && r.value.snapshot == JNull && r.value.snapshotTimestamp == JNull
    ensures snapshots != [] ==>
              && (r.Failure? <==> CreatedAt(snapshots[0]) != "" && Timestamp.ParseIso8601(CreatedAt(snapshots[0])).Failure?)
              && (r.Success? ==> r.value.snapshot == OptionalString(Csv.Get(snapshots[0], "web_url")))
  {
    FormatRepositoryData(meta, SelectSnapshot(snapshots))
  }

  /** Without a snapshot the node is created with neither a snapshot URL nor
      a snapshot timestamp, and creating it never raises. */
  lemma NoSnapshot(meta: Csv.Row)
    requires Csv.HasColumns(meta, RepoColumns)
    ensures RepositoryNode(meta, []).Success?
    ensures RepositoryNode(meta, []).value.snapshot == JNull
    ensures RepositoryNode(meta, []).value.snapshotTimestamp == JNull
  {
  }

  /** Only the first snapshot is used; any others are ignored. */
  lemma FirstSnapshotUsed(meta: Csv.Row, first: Csv.Row, others: seq<Csv.Row>)
    requires Csv.HasColumns(meta, RepoColumns)
    ensures RepositoryNode(meta, [first] + others) == RepositoryNode(meta, [first])
  {
  }

  /** A snapshot created at a time written as `parse_iso8601` expects is
      timestamped with the UTC seconds of that time. */
  lemma SnapshotTimestampReads(meta: Csv.Row, snapshot: Csv.Row, t: Timestamp.DateTime, fraction: string, z: Timestamp.Zone, rest: string)
    requires Csv.HasColumns(meta, RepoColumns)
    requires Timestamp.ValidDateTime(t) && Timestamp.ValidZone(z)
    requires fraction == [] || (fraction[0] == '.' && AllDigits(fraction[1..]))
    requires Timestamp.EndsMatch(if z.Zulu? then None else Some(Timestamp.Offset(Decimal(z.hours, 2), Decimal(z.minutes, 2))), rest)
    requires Csv.Get(snapshot, "created_at") == Some(Timestamp.Render(Timestamp.Formatted(t, fraction, z), rest))
    ensures FormatRepositoryData(meta, snapshot).Success?
    ensures FormatRepositoryData(meta, snapshot).value.snapshotTimestamp == JInt(Timestamp.UtcSeconds(t) - Timestamp.OffsetSeconds(z))
  {
    var text := Timestamp.Render(Timestamp.Formatted(t, fraction, z), rest);
    Timestamp.ParseFormatted(t, fraction, z, rest);
    if text == "" {
      Timestamp.NoLeadingDigitRejected(text);
    }
  }

  // ---------------------------------------------------------------------
  // `add_fork_relationships` (:85-96).

  /** `a.ka = b.kb` in the query: a property the node does not have reads as
      null, which equals nothing. */
  predicate SameValue(a: Object, ka: string, b: Object, kb: string) {
    ka in a && kb in b && a[ka] != JNull && a[ka] == b[kb]
  }

  /** `fork.parentId = parent.id OR fork.sourceId = parent.id`. */
  predicate Forks(fork: Object, parent: Object) {
    SameValue(fork, "parentId", parent, "id") || SameValue(fork, "sourceId", parent, "id")
  }

  /** The FORKS edges created, between the repository nodes by creation index. */
  function ForkEdges(nodes: seq<Object>): (r: set<(int, int)>)
    ensures forall i, j :: (i, j) in r <==> 0 <= i < |nodes| && 0 <= j < |nodes| && Forks(nodes[i], nodes[j])
  {
    set i, j | 0 <= i < |nodes| && 0 <= j < |nodes| && Forks(nodes[i], nodes[j]) :: (i, j)
  }

  /** The edges as pairs of (fork, parent) node properties. */
  function ForkPairs(nodes: seq<Object>): set<(Object, Object)> {
    set e | e in ForkEdges(nodes) :: (nodes[e.0], nodes[e.1])
  }

  /** The edges between nodes of equal properties are the same however often
      and wherever they appear: a fork edge exists exactly when its two
      nodes are among those created and the rule holds for them. */
  lemma ForkPairsIff(nodes: seq<Object>, fork: Object, parent: Object)
    ensures (fork, parent) in ForkPairs(nodes) <==> fork in nodes && parent in nodes && Forks(fork, parent)
  {
    if fork in nodes && parent in nodes && Forks(fork, parent) {
      var i :| 0 <= i < |nodes| && nodes[i] == fork;
      var j :| 0 <= j < |nodes| && nodes[j] == parent;
      assert (i, j) in ForkEdges(nodes);
    }
  }

  /** The edges do not depend on the order in which the repository nodes were
      created, nor on how often a node occurs: any two runs over the same
      nodes give the same edges. */
  lemma ForkPairsOrderFree(a: seq<Object>, b: seq<Object>)
    requires forall n :: n in a <==> n in b
    ensures ForkPairs(a) == ForkPairs(b)
  {
    forall pair: (Object, Object)
      ensures pair in ForkPairs(a) <==> pair in ForkPairs(b)
    {
      ForkPairsIff(a, pair.0, pair.1);
      ForkPairsIff(b, pair.0, pair.1);
    }
  }
}
