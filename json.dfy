/** Already-decoded JSON documents, as `json.loads` hands them to the notifier. */
module Json {

  /** A decoded JSON value. Numbers are modelled as integers only. */
  datatype Value =
    | JNull
    | JBool(b: bool)
    | JNumber(n: int)
    | JString(s: string)
    | JArray(items: seq<Value>)
    | JObject(fields: map<string, Value>)
}
