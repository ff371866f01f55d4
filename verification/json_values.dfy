/** JSON values as the schemas read and write them. */
module JsonValues {
  /**
   * A decoded JSON value. Numbers are integers only; an object is a map from
   * field names to values, so a name occurs at most once.
   */
  datatype Json =
    | JNull
    | JBool(b: bool)
    | JInt(i: int)
    | JStr(s: string)
    | JList(items: seq<Json>)
    | JObject(fields: map<string, Json>)
}
