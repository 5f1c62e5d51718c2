/** A case as the archive's `case.json` states it: rows by collection. */
module CaseRecord {
  import opened Wrappers

  /** One member of a list: an id, or something that is not a string. */
  datatype Item = Named(id: string) | NotAName

  datatype Value = Null | Text(text: string) | List(items: seq<Item>) | When(at: Time) | Other

  datatype Row = Row(id: Option<string>, fields: map<string, Value>)

  type Record = map<string, seq<Row>>

  /** The tables, in the order an import takes them. */
  const TABLES: seq<string> := [
    "methods", "systems", "accounts", "malware", "networkIndicators", "cloudApps", "evidence",
    "impact", "timeline", "actions", "casenotes", "reports", "reportBlocks"]

  function RowsOf(record: Record, collection: string): seq<Row> {
    if collection in record then record[collection] else []
  }

  function RowsInFirst(record: Record, n: nat): nat
    requires n <= |TABLES|
  {
    if n == 0 then 0 else RowsInFirst(record, n - 1) + |RowsOf(record, TABLES[n - 1])|
  }

  /** How many rows the record describes, across every table. */
  function RowsIn(record: Record): nat { RowsInFirst(record, |TABLES|) }

  /** The digest a row names, or nothing. */
  function HashOf(row: Row): string {
    if "hash" in row.fields && row.fields["hash"].Text? then row.fields["hash"].text else ""
  }

  function NameOf(row: Row): string {
    if "name" in row.fields && row.fields["name"].Text? then row.fields["name"].text else ""
  }

  /** Whether the row says its bytes are held. */
  predicate SaysStored(row: Row) {
    "storedAt" in row.fields &&
    var stored := row.fields["storedAt"];
    stored.When? || (stored.Text? && stored.text != "")
  }
}
