/** The operations `add_commit_nodes` issues for the commits of a
    repository (scripts/subcommands/store_in_neo4j.py:190-256). */
module Commits {
  import opened Text
  import Csv
  import opened JsonValue
  import Graph
  import opened Operations


  /** `commit.get(key)` as a parameter value. */
  function Field(row: Csv.Row, key: string): Json {
    OptionalString(Csv.Get(row, key))
  }

  const CommitKeys: set<string> := {"id", "short_id", "title", "message", "additions", "deletions", "total"}
  const ContributorKeys: set<string> := {"email", "name"}

  /** The properties of the commit node. */
  function CommitProperties(c: Csv.Row): (r: Object)
    ensures r.Keys == CommitKeys
    ensures r["id"] == Field(c, "id")
  {
    map[
      "id" := Field(c, "id"), "short_id" := Field(c, "short_id"), "title" := Field(c, "title"),
      "message" := Field(c, "message"), "additions" := Field(c, "additions"),
      "deletions" := Field(c, "deletions"), "total" := Field(c, "total")]
  }

  /** The properties of a contributor node, from the author or committer columns. */
  function Contributor(c: Csv.Row, role: string): (r: Object)
    ensures r.Keys == ContributorKeys
  {
    map["email" := Field(c, role + "_email"), "name" := Field(c, role + "_name")]
  }

  /** The parameters of the query merging a commit row: the commit, the
      author, the committer and the two dates. */
  datatype CommitParameters = CommitParameters(commit: Object, author: Object, committer: Object, authoredDate: Json, committedDate: Json)

  function Parameters(c: Csv.Row): (r: CommitParameters)
    ensures r.commit.Keys == CommitKeys && r.author.Keys == ContributorKeys && r.committer.Keys == ContributorKeys
  {
    CommitParameters(CommitProperties(c), Contributor(c, "author"), Contributor(c, "committer"),
                     Field(c, "authored_date"), Field(c, "committed_date"))
  }

  /** One PARENT link per piece of `parent_ids.split(',')`. */
  function ParentOps(c: Csv.Row): (r: seq<Op>)
    requires "parent_ids" in c
    ensures |r| == Count(c["parent_ids"], ',') + 1
    ensures forall i :: 0 <= i < |r| ==> r[i].LinkParent? && r[i].child == Field(c, "id") && ',' !in r[i].parent
  {
    SplitLength(c["parent_ids"], ',');
    var parents := Split(c["parent_ids"], ',');
    seq(|parents|, i requires 0 <= i < |parents| => LinkParent(Field(c, "id"), parents[i]))
  }

  /** The operations for one commit that has `parent_ids`. */
  function CommitHead(c: Csv.Row): seq<Op>
    requires "parent_ids" in c
  {
    [MergeCommit(c)] + ParentOps(c)
  }

  /** The operations of the loop over the commits, in order. A commit without
      `parent_ids` raises (`None.split`) after its own merge was issued. */
  function CommitOps(commits: seq<Csv.Row>): (r: Issued)
    ensures r.raised ==> r.ops != [] && r.ops[|r.ops| - 1].MergeCommit? && "parent_ids" !in r.ops[|r.ops| - 1].row
    ensures !r.raised ==> |r.ops| >= |commits|
    decreases |commits|
  {
    if commits == [] then Issued([], false)
    else
      var c := commits[0];
      if "parent_ids" !in c then Issued([MergeCommit(c)], true)
      else
        var rest := CommitOps(commits[1..]);
        Issued(CommitHead(c) + rest.ops, rest.raised)
  }

  /** The loop raises exactly when some commit lacks `parent_ids`. */
  lemma {:induction false} CommitOpsRaised(commits: seq<Csv.Row>)
    ensures CommitOps(commits).raised <==> exists i :: 0 <= i < |commits| && "parent_ids" !in commits[i]
    decreases |commits|
  {
    if commits != [] && "parent_ids" in commits[0] {
      CommitOpsRaised(commits[1..]);
      assert forall i :: 0 <= i < |commits| - 1 ==> commits[1..][i] == commits[i + 1];
    }
  }

  /** The parents linked are the comma-separated pieces of `parent_ids`: one
      more than its commas, rejoining to it, and a single link to `''` when it
      is empty. */
  lemma ParentLinks(c: Csv.Row)
    requires "parent_ids" in c
    ensures |ParentOps(c)| == Count(c["parent_ids"], ',') + 1
    ensures forall i :: 0 <= i < |ParentOps(c)| ==> ParentOps(c)[i].LinkParent? && ParentOps(c)[i].child == Field(c, "id")
    ensures Join(seq(|ParentOps(c)|, i requires 0 <= i < |ParentOps(c)| => ParentOps(c)[i].parent), ',') == c["parent_ids"]
    ensures c["parent_ids"] == "" ==> ParentOps(c) == [LinkParent(Field(c, "id"), "")]
  {
    var parents := Split(c["parent_ids"], ',');
    SplitLength(c["parent_ids"], ',');
    JoinSplit(c["parent_ids"], ',');
    assert seq(|ParentOps(c)|, i requires 0 <= i < |ParentOps(c)| => ParentOps(c)[i].parent) == parents;
  }

  /** The commits are processed one after another: the operations of a run
      that does not raise are followed by those of the next commits. */
  lemma {:induction false} CommitOpsAppend(a: seq<Csv.Row>, b: seq<Csv.Row>)
    requires !CommitOps(a).raised
    ensures CommitOps(a + b).ops == CommitOps(a).ops + CommitOps(b).ops
    ensures CommitOps(a + b).raised == CommitOps(b).raised
    decreases |a|
  {
    if a == [] {
      assert a + b == b;
    } else {
      assert "parent_ids" in a[0];
      CommitOpsAppend(a[1..], b);
      CommitOpsAppendStep(a, b);
    }
  }

  /** The inductive step of `CommitOpsAppend`: from the commits after the
      first to all of them. */
  lemma CommitOpsAppendStep(a: seq<Csv.Row>, b: seq<Csv.Row>)
    requires a != [] && "parent_ids" in a[0]
    requires CommitOps(a[1..] + b).ops == CommitOps(a[1..]).ops + CommitOps(b).ops
    requires CommitOps(a[1..] + b).raised == CommitOps(b).raised
    ensures CommitOps(a + b).ops == CommitOps(a).ops + CommitOps(b).ops
    ensures CommitOps(a + b).raised == CommitOps(b).raised
  {
    assert (a + b)[0] == a[0];
    assert (a + b)[1..] == a[1..] + b;
    var head, tail, rest := CommitHead(a[0]), CommitOps(a[1..]).ops, CommitOps(b).ops;
    assert (head + tail) + rest == head + (tail + rest);
  }

  /** The first commit without `parent_ids` is merged and then the loop stops. */
  lemma StopsAtMissingParents(commits: seq<Csv.Row>, k: int)
    requires 0 <= k < |commits| && "parent_ids" !in commits[k]
    requires forall i :: 0 <= i < k ==> "parent_ids" in commits[i]
    ensures CommitOps(commits).ops == CommitOps(commits[..k]).ops + [MergeCommit(commits[k])]
    ensures CommitOps(commits).raised
  {
    assert commits == commits[..k] + commits[k..];
    assert commits[k..][0] == commits[k];
    CommitOpsRaised(commits[..k]);
    CommitOpsAppend(commits[..k], commits[k..]);
  }

  /** The commit nodes after merging the rows: each commit id holds exactly
      the non-null values of the last row with that id. Nodes created before
      hold at most the commit properties (a parent link creates a node with
      only its `id`). */
  lemma CommitNodeIsLastRow(store: Graph.Store, commits: seq<Csv.Row>, i: int)
    requires Graph.Within(store, CommitKeys)
    requires 0 <= i < |commits|
    requires forall j :: i < j < |commits| ==> Field(commits[j], "id") != Field(commits[i], "id")
    ensures var nodes := Graph.MergeAll(store, CommitSightings(commits));
            Field(commits[i], "id") in nodes && nodes[Field(commits[i], "id")] == Graph.Assign(CommitProperties(commits[i]))
  {
    Graph.MergeAllLastSighting(store, CommitSightings(commits), CommitKeys, i);
  }

  /** `MERGE (commit:Commit {id: ...}) ON CREATE SET ... ON MATCH SET ...` per row. */
  function CommitSightings(commits: seq<Csv.Row>): seq<(Json, Object)> {
    seq(|commits|, j requires 0 <= j < |commits| => (Field(commits[j], "id"), CommitProperties(commits[j])))
  }
}
