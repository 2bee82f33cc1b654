/** The parts of a CSL-JSON citation record that the renderer reads.
    Every key of the JSON object is optional, so every field is an Option. */
module Csl {
  import opened Results

  /** One entry of a record's "author" list: either a "literal" name or
      "given" and "family" parts. */
  datatype Author = Author(
    literal: Option<string>,
    given: Option<string>,
    family: Option<string>)

  /** The "issued" date object; "date-parts" is a list of [year, month, day]
      lists whose first list starts with the year. */
  datatype Issued = Issued(dateParts: Option<seq<seq<int>>>)

  /** One citation record; the field names follow the CSL-JSON keys
      "id", "title", "title-short", "author", "container-title", "type",
      "volume", "issue", "issued", "note", "DOI" and "URL". */
  datatype Record = Record(
    id: Option<string>,
    title: Option<string>,
    titleShort: Option<string>,
    author: Option<seq<Author>>,
    containerTitle: Option<string>,
    kind: Option<string>,
    volume: Option<string>,
    issue: Option<string>,
    issued: Option<Issued>,
    note: Option<string>,
    doi: Option<string>,
    url: Option<string>)

  /** Python's `item.get(key, '')`. */
  function OrEmpty(field: Option<string>): string {
    match field
    case Some(s) => s
    case None => ""
  }
}
