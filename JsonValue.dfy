/** The JavaScript values that flow from the database driver and from
    JSON.parse into the formatters: JSON data with numbers kept abstract. */
module JsonValue {
  import opened Text

  datatype Option<T> = None | Some(value: T)

  /** A JSON value. A number is carried as the text JavaScript's String()
      gives it; an object's fields are listed in Object.keys order. */
  datatype Json =
    | JNull
    | JBool(b: bool)
    | JNum(text: string)
    | JStr(s: string)
    | JArr(items: seq<Json>)
    | JObj(fields: seq<(string, Json)>)

  /** JSON.parse: a call outside the model, given as an oracle that yields
      None where the JavaScript call throws. */
  type Parser = string -> Option<Json>

  /** A database row (the Result record): column names with their values,
      in Object.keys order. */
  type Row = seq<(string, Json)>

  /** JavaScript truthiness: null, false, 0, NaN and "" are falsy;
      arrays and objects are always truthy. */
  predicate Truthy(v: Json) {
    match v
    case JNull => false
    case JBool(b) => b
    case JNum(t) => t != "0" && t != "NaN"
    case JStr(s) => s != ""
    case JArr(_) => true
    case JObj(_) => true
  }

  /** typeof v === "object" && v !== null. */
  predicate IsObjectLike(v: Json) {
    v.JArr? || v.JObj?
  }

  /** Object.keys(v) with the value under each key: the fields of an object,
      the index strings "0", "1", ... of an array. */
  function Entries(v: Json): (r: seq<(string, Json)>)
    requires IsObjectLike(v)
    ensures v.JObj? ==> r == v.fields
    ensures v.JArr? ==> |r| == |v.items|
    ensures v.JArr? ==> forall i :: 0 <= i < |r| ==> r[i] == (NatToString(i), v.items[i])
    ensures forall i :: 0 <= i < |r| ==> r[i].1 < v
  {
    match v
    case JObj(fields) => fields
    case JArr(items) => seq(|items|, i requires 0 <= i < |items| => (NatToString(i), items[i]))
  }

  /** String(v): the text JavaScript gives a value. Elements of an array are
      joined by "," with null shown as the empty string; an object shows as
      "[object Object]". */
  function JsString(v: Json): string
    decreases v
  {
    match v
    case JNull => "null"
    case JBool(b) => if b then "true" else "false"
    case JNum(t) => t
    case JStr(s) => s
    case JArr(items) =>
      Join(seq(|items|, i requires 0 <= i < |items| =>
                 if items[i].JNull? then "" else JsString(items[i])), ",")
    case JObj(_) => "[object Object]"
  }

  /** The value under key in a field list, or None (undefined) when absent. */
  function Lookup(fields: seq<(string, Json)>, key: string): (r: Option<Json>)
    ensures r.Some? <==> exists i :: 0 <= i < |fields| && fields[i].0 == key
    ensures r.Some? ==> exists i :: 0 <= i < |fields| && fields[i] == (key, r.value)
    decreases |fields|
  {
    if |fields| == 0 then None
    else if fields[0].0 == key then Some(fields[0].1)
    else
      var r := Lookup(fields[1..], key);
      assert forall i :: 0 < i < |fields| ==> fields[i] == fields[1..][i - 1];
      r
  }

  /** Property access v.key (optional chaining included): undefined unless
      v is an object holding the key. */
  function Member(v: Json, key: string): (r: Option<Json>)
    ensures !v.JObj? ==> r.None?
  {
    if v.JObj? then Lookup(v.fields, key) else None
  }

  /** `a || b` when a may be undefined. */
  function OrElse(a: Option<Json>, b: Json): (r: Json)
    ensures a.Some? && Truthy(a.value) ==> r == a.value
    ensures (a.None? || !Truthy(a.value)) ==> r == b
  {
    if a.Some? && Truthy(a.value) then a.value else b
  }
}
