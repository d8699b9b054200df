/**
 * Rows as `csv.DictReader` yields them: a map from header name to cell. A header
 * the file lacks is an absent key; a row shorter than the header maps the
 * missing columns to `None` (the reader's `restval`).
 */
module Csv {
  import opened Wrappers

  type Row = map<string, Option<string>>

  /** The header name every downloader reads its URLs from. */
  const LinkColumn: string := "link"

  /** `row.get('link')`: `None` both for a missing column and for a missing cell. */
  function GetLink(row: Row): (r: Option<string>)
    ensures r.Some? <==> LinkColumn in row && row[LinkColumn].Some?
    ensures r.Some? ==> row[LinkColumn] == r
  {
    if LinkColumn in row then row[LinkColumn] else None
  }
}
