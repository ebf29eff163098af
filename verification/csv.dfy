/** A row read by `csv.DictReader`: column name to cell text. */
module Csv {
  import opened Wrappers

  type Row = map<string, string>

  /** The row has every one of the given columns, so `row[key]` does not
      raise `KeyError` for them. */
  predicate HasColumns(row: Row, columns: set<string>) {
    columns <= row.Keys
  }

  /** `row.get(key)`. */
  function Get(row: Row, key: string): Option<string> {
    if key in row then Some(row[key]) else None
  }
}
