/** The parsed request body: the value `request.json()` hands to the
    validator. Only the distinctions the validator observes are kept: a number
    is either an integer (`Number.isInteger` holds) or not. */
module Json {
  import opened Wrappers

  datatype Num = Integer(value: int) | NonInteger

  datatype Json =
    | JNull
    | JBool(b: bool)
    | JNumber(num: Num)
    | JString(s: string)
    | JArray(items: seq<Json>)
    | JObject(fields: map<string, Json>)

  /** `obj[name]`: `None` plays the role of `undefined`. */
  function Field(fields: map<string, Json>, name: string): (v: Option<Json>)
    ensures v.Some? <==> name in fields
    ensures v.Some? ==> v.value == fields[name]
  {
    Lookup(fields, name)
  }
}
