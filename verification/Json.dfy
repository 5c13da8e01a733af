/** The JSON values exchanged between the Flask backend and the React frontend. */
module Json {

  /** A JSON string or a JSON object; object keys map to values. */
  datatype Value = Str(s: string) | Obj(fields: map<string, Value>)
}
