/**
 * The structured header: the JSON value `{"kdf": ..., "cipher": ...}`
 * that `encrypt` serialises and `decrypt` parses, and the subscripting
 * `decrypt` does on it.
 */
module Header {
  import opened Wrappers

  /** A JSON value as json.loads returns it (numbers restricted to integers). */
  datatype Json =
    | JNull
    | JBool(b: bool)
    | JNumber(n: int)
    | JString(s: string)
    | JArray(items: seq<Json>)
    | JObject(fields: map<string, Json>)

  /**
   * `j[key]` for a string key: the member when `j` is an object holding it;
   * None where Python raises KeyError (missing key) or TypeError (not an object).
   */
  function Field(j: Json, key: string): (r: Option<Json>)
    ensures r.Some? <==> j.JObject? && key in j.fields
    ensures r.Some? ==> r.value == j.fields[key]
  {
    match j
    case JObject(fields) => if key in fields then Some(fields[key]) else None
    case _ => None
  }

  /** The header record `{"kdf": kdfRecord, "cipher": cipherRecord}` built by `encrypt`. */
  function HeaderRecord(kdfRecord: Json, cipherRecord: Json): (h: Json)
    ensures h.JObject? && h.fields.Keys == {"kdf", "cipher"}
    ensures Field(h, "kdf") == Some(kdfRecord)
    ensures Field(h, "cipher") == Some(cipherRecord)
  {
    JObject(map["kdf" := kdfRecord, "cipher" := cipherRecord])
  }
}
