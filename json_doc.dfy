/**
 * An already-parsed JSON document, as json-glib (C) and the `json` module
 * (Python) hand it to the language-name loader.
 */
module JsonDoc {
  /** One JSON node. Object members are keyed by name; a repeated key keeps its last value. */
  datatype Json =
    | JObject(members: map<string, Json>)
    | JArray(elements: seq<Json>)
    | JString(text: string)
    | JNumber(literal: string)
    | JBool(truth: bool)
    | JNull
  {
    /** json-glib's JSON_NODE_HOLDS_VALUE: a scalar node; `null` has a node type of its own. */
    predicate HoldsValue() {
      JString? || JNumber? || JBool?
    }
  }

  /**
   * What the loader finds at the data file's path: no file (the stat or
   * isfile check fails), a file the JSON parser rejects (an empty file
   * included), or a parsed document.
   */
  datatype Document = Missing | Unparsable | Parsed(root: Json)
}
