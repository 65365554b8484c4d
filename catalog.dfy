/**
 * The shape of what the external book catalog returns, after JSON parsing.
 * The HTTP request and the JSON parser are not modelled; a response is given
 * to the model as a value of these types. A field whose absence makes the
 * Java code throw (it dereferences `get(...)` without a check) is an
 * `Option`, with `None` for "absent".
 */
module Catalog {
  import opened Lang

  /** A scalar JSON value, as Jackson's `JsonNode` holds it. */
  datatype JsonScalar = JNull | JBool(b: bool) | JNumber(n: int)

  /** `JsonNode.asInt()`: null reads as 0, a boolean as 0 or 1, a number is narrowed. */
  function AsInt(v: JsonScalar): (r: int)
    ensures INT_MIN <= r <= INT_MAX
    ensures v.JNumber? && INT_MIN <= v.n <= INT_MAX ==> r == v.n
    ensures v.JNull? ==> r == 0
  {
    match v
    case JNull => 0
    case JBool(b) => if b then 1 else 0
    case JNumber(n) => ToInt(n)
  }

  /** A JSON node that either is an array (with its elements) or is not. */
  datatype Node<T> = NotArray | Array(items: seq<T>)

  /** One entry of a record's "authors" array. */
  datatype AuthorEntry = AuthorEntry(
    name: Option<string>,
    birthYear: Option<JsonScalar>,
    deathYear: Option<JsonScalar>)

  /** One element of the response's "results" array. */
  datatype CatalogRecord = CatalogRecord(
    title: string,
    downloadCount: Long,
    copyright: Option<JsonScalar>,
    subjects: Option<Node<string>>,
    authors: Option<Node<AuthorEntry>>,
    languages: Option<Node<string>>)

  /** The request the service sends: a free-text search or a topic filter. */
  datatype Query = Search(text: string) | Topic(topic: string)

  /**
   * The "results" node of a response; `None` when the request failed or the
   * response carries no "results" (in the source, an exception either way).
   */
  type Response = Option<Node<CatalogRecord>>

  /**
   * `node.has(f) ? node.get(f).asInt() : null` exactly as written in
   * BookService.java: a field that is present with the JSON value null
   * passes the `has` test and reads as 0.
   */
  function OptionalIntAsWritten(field: Option<JsonScalar>): (r: Option<int>)
    ensures field.None? <==> r.None?
  {
    match field
    case None => None
    case Some(v) => Some(AsInt(v))
  }

  /**
   * The evidently intended reading of an optional integer field: absent and
   * JSON null both give "unknown"; any other value is read with `asInt`.
   */
  function OptionalInt(field: Option<JsonScalar>): (r: Option<int>)
    ensures r.None? <==> (field.None? || field.value.JNull?)
    ensures r.Some? ==> r.value == AsInt(field.value)
  {
    match field
    case None => None
    case Some(JNull) => None
    case Some(v) => Some(AsInt(v))
  }

  /** The two readings differ exactly on a present JSON null, which the written one turns into 0. */
  lemma OptionalIntDiffersOnlyOnNull(field: Option<JsonScalar>)
    ensures OptionalIntAsWritten(field) != OptionalInt(field) <==> field == Some(JNull)
    ensures OptionalIntAsWritten(Some(JNull)) == Some(0)
  {
  }

  // ---------------------------------------------------------------------------
  // What `createBookFromJsonNode` reads from a record
  // ---------------------------------------------------------------------------

  /** The entry `authors.get(0)`, when "authors" is a non-empty array. */
  function FirstAuthor(rec: CatalogRecord): (r: Option<AuthorEntry>)
    ensures r.Some? <==> rec.authors.Some? && rec.authors.value.Array? && |rec.authors.value.items| > 0
    ensures r.Some? ==> r.value == rec.authors.value.items[0]
  {
    match rec.authors
    case Some(Array(items)) => if |items| > 0 then Some(items[0]) else None
    case _ => None
  }

  /**
   * The record gets as far as the author lookup: "subjects" and "authors"
   * are present, and the first author entry, if any, has a "name".
   */
  predicate ReachesAuthorLookup(rec: CatalogRecord)
  {
    && rec.subjects.Some?
    && rec.authors.Some?
    && (FirstAuthor(rec).Some? ==> FirstAuthor(rec).value.name.Some?)
  }

  /** The record is turned into a book without an exception. */
  predicate Complete(rec: CatalogRecord)
  {
    ReachesAuthorLookup(rec) && rec.languages.Some?
  }

  /** The language codes of a record, in response order, duplicates kept; none when not an array. */
  function LanguagesOf(rec: CatalogRecord): (r: seq<string>)
    requires rec.languages.Some?
    ensures rec.languages.value.NotArray? ==> r == []
    ensures rec.languages.value.Array? ==> r == rec.languages.value.items
  {
    match rec.languages.value
    case NotArray => []
    case Array(items) => items
  }
}
