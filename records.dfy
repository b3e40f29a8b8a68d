/**
 * The values the ingestion script and the chat app exchange through
 * `article_metadata.json`, and the decoded YAML of a document header.
 */
module Records {

  /**
   * A decoded YAML or JSON value. Numbers, booleans and dates are not
   * inspected by the pipeline; only whether Python treats them as true matters.
   */
  datatype Value =
    | Text(s: string)
    | Items(items: seq<Value>)
    | Mapping(fields: map<string, Value>)
    | Null
    | Scalar(truthy: bool)

  /** Python truthiness of a decoded value. */
  predicate Truthy(v: Value) {
    match v
    case Text(s) => s != []
    case Items(xs) => xs != []
    case Mapping(m) => m != map[]
    case Null => false
    case Scalar(t) => t
  }

  /** One entry of the article metadata store, keyed by the document stem. */
  datatype Record = Record(title: Value, url: Value, author: Value)

  /** The author recorded when a document names none. */
  const DefaultAuthor: string := "기록과 사회"
}
