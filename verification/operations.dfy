/** The graph operations the import issues for a repository
    (scripts/subcommands/store_in_neo4j.py), with the parameters it passes
    to them. The graph engine itself is not modelled: a list of these
    operations, in order, is what the script decides. */
module Operations {
  import Csv
  import opened JsonValue
  import PlayStore

  /** One graph operation, with the parameters the script passes to it. */
  datatype Op =
      /** Merge a commit and its author and committer (:230-246), with the
          parameters taken from this row of the commit list. */
    | MergeCommit(row: Csv.Row)
      /** Link a commit to one of its parents, creating the parent if needed (:248-254). */
    | LinkParent(child: Json, parent: string)
      /** Merge the IMPLEMENTED_BY relation of a package with these properties (:277-290). */
    | ImplementedBy(package: string, properties: Csv.Row)
      /** Create a Google Play page node (:44-49). */
    | CreatePlayPage(page: PlayStore.PlayPage)
      /** Create the App node of a package, published at the page node whose
          `docId` is the package (:402-405). */
    | PublishApp(package: string)

  /** The operations issued, in order, and whether the loop then raised. */
  datatype Issued = Issued(ops: seq<Op>, raised: bool)
}
