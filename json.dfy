/** A parsed JSON value, as `json.loads` hands it to the crawler, and the few
    Python operations the crawler applies to such values: `dict.get`,
    truthiness and `str()`. Floating-point numbers are not modelled. */
module Json {
  import opened Wrappers
  import opened Text

  datatype Json =
    | JNull
    | JBool(b: bool)
    | JInt(i: int)
    | JString(s: string)
    | JArray(items: seq<Json>)
    | JObject(fields: seq<Field>)

  /** One key of a JSON object. `json.loads` keeps one entry per key, so the
      fields of a parsed object have distinct keys. */
  datatype Field = Field(key: string, value: Json)

  /** `d.get(key)` on a parsed object: the value stored under `key`, if any. */
  function Get(fields: seq<Field>, key: string): (r: Option<Json>)
    ensures r.Some? <==> exists k :: 0 <= k < |fields| && fields[k].key == key
    ensures r.Some? ==> exists k :: 0 <= k < |fields| && fields[k] == Field(key, r.value)
  {
    if fields == [] then None
    else if fields[0].key == key then Some(fields[0].value)
    else Get(fields[1..], key)
  }

  /** `d.get(key, default)` where `d` is any value: `None` when `d` is not a
      dictionary, since the caller checks `isinstance(d, dict)` first. */
  function GetOr(fields: seq<Field>, key: string, default: Json): Json {
    Get(fields, key).GetOr(default)
  }

  /** Python truthiness of a JSON value (`if value:`). */
  predicate Truthy(j: Json) {
    match j
    case JNull => false
    case JBool(b) => b
    case JInt(i) => i != 0
    case JString(s) => s != ""
    case JArray(items) => items != []
    case JObject(fields) => fields != []
  }

  /** Python's `str()` of a JSON value. Strings are themselves; containers
      are rendered as Python renders lists and dictionaries, quoting strings
      inside them with single quotes (no escaping is modelled). */
  function Str(j: Json): string {
    match j
    case JString(s) => s
    case _ => Repr(j)
  }

  function Repr(j: Json): string
    decreases j, 1
  {
    match j
    case JNull => "None"
    case JBool(b) => if b then "True" else "False"
    case JInt(i) => IntString(i)
    case JString(s) => "'" + s + "'"
    case JArray(items) => "[" + ReprItems(items) + "]"
    case JObject(fields) => "{" + ReprFields(fields) + "}"
  }

  function ReprItems(items: seq<Json>): string
    decreases items, 0
  {
    if items == [] then ""
    else if |items| == 1 then Repr(items[0])
    else Repr(items[0]) + ", " + ReprItems(items[1..])
  }

  function ReprFields(fields: seq<Field>): string
    decreases fields, 0
  {
    if fields == [] then ""
    else
      var entry := "'" + fields[0].key + "': " + Repr(fields[0].value);
      if |fields| == 1 then entry else entry + ", " + ReprFields(fields[1..])
  }

  /** `str()` never renders a value as the empty string unless it is the
      empty string itself. */
  lemma StrEmptyOnlyForEmptyString(j: Json)
    ensures Str(j) == "" <==> j == JString("")
  {
  }
}
