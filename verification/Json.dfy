/** Parsed JSON values as the tool inspects them: objects keep their entries
    in order, numbers are integers (fractions and NaN are not modelled), and a
    missing property reads as None (`undefined`). */
module Json {
  import opened Wrappers
  import opened Strings
  import Records

  datatype Json =
    | JNull
    | JBool(b: bool)
    | JNum(n: int)
    | JStr(s: string)
    | JArr(items: seq<Json>)
    | JObj(fields: seq<(string, Json)>)

  /** JavaScript truthiness: `null`, `false`, `0` and `""` are falsy. */
  predicate Truthy(j: Json)
  {
    match j
    case JNull => false
    case JBool(b) => b
    case JNum(n) => n != 0
    case JStr(s) => s != ""
    case _ => true
  }

  /** `j[k]` for a property name: only objects have named properties here. */
  function Field(j: Json, k: string): (r: Option<Json>)
    ensures r.Some? ==> j.JObj?
  {
    if j.JObj? then Records.Get(j.fields, k) else None
  }

  function DigitChar(d: int): char
    requires 0 <= d < 10
  {
    "0123456789"[d]
  }

  function NatText(n: nat): (s: string)
    ensures |s| >= 1
    decreases n
  {
    if n < 10 then [DigitChar(n)] else NatText(n / 10) + [DigitChar(n % 10)]
  }

  /** `${j}`: the text a value becomes inside a template string. */
  function Text(j: Json): string
    decreases j, 1
  {
    match j
    case JNull => "null"
    case JBool(b) => if b then "true" else "false"
    case JNum(n) => if n < 0 then "-" + NatText(-n) else NatText(n)
    case JStr(s) => s
    case JArr(items) => ItemsText(items)
    case JObj(_) => "[object Object]"
  }

  /** `items.join(',')`, where `null` becomes the empty string. */
  function ItemsText(items: seq<Json>): string
    decreases items, 0
  {
    if |items| == 0 then ""
    else
      var first := if items[0].JNull? then "" else Text(items[0]);
      if |items| == 1 then first else first + "," + ItemsText(items[1..])
  }
}
