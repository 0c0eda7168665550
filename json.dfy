/** JSON documents, the values json.Marshal writes and json.Unmarshal reads (their text form is not modelled). */
module Json {

  datatype Json =
    | JNull
    | JBool(b: bool)
    | JNum(n: real)
    | JStr(s: string)
    | JArr(items: seq<Json>)
    | JObj(fields: map<string, Json>)
}
