/** The already-parsed JSON documents the environment spec is read from. */
module JsonValue {

  /** A JSON value. A string holds the characters between its quotes as they
      appear in the document: escape sequences are not interpreted. A number
      keeps its literal text, since no operation here looks at its value. An
      object maps each member name to its value (a document with a repeated
      member name is represented by the member that survives). */
  datatype Json =
    | JNull
    | JBool(b: bool)
    | JNum(literal: string)
    | JString(text: string)
    | JArray(items: seq<Json>)
    | JObject(members: map<string, Json>)
}
