/**
 * JSON values as `JSON.parse` produces them (RFC 8259), together with the three
 * JavaScript operations the model applies to them: property access, truthiness
 * and the `String(...)` coercion.
 */
module JsonValues {
  import opened Wrappers
  import Text

  /**
   * A parsed JSON value. Numbers are exact reals; a literal too large for a
   * double (which `JSON.parse` turns into an infinity) is the parser's
   * concern and never reaches this type.
   */
  datatype Json =
    | JNull
    | JBool(b: bool)
    | JNumber(n: real)
    | JString(s: string)
    | JArray(items: seq<Json>)
    | JObject(fields: seq<(string, Json)>)

  /**
   * The own property `key` of an object built by `JSON.parse`. When a name is
   * repeated in the text the last occurrence wins; an absent name is `undefined`.
   */
  function Member(fields: seq<(string, Json)>, key: string): (r: Option<Json>)
    ensures r.None? <==> forall i :: 0 <= i < |fields| ==> fields[i].0 != key
    ensures r.Some? ==>
      exists i :: 0 <= i < |fields| && fields[i] == (key, r.value) &&
        forall k :: i < k < |fields| ==> fields[k].0 != key
    decreases |fields|
  {
    if |fields| == 0 then None
    else if fields[|fields| - 1].0 == key then
      assert fields[|fields| - 1] == (key, fields[|fields| - 1].1);
      Some(fields[|fields| - 1].1)
    else
      var r := Member(fields[..|fields| - 1], key);
      assert forall i :: 0 <= i < |fields| - 1 ==> fields[..|fields| - 1][i] == fields[i];
      r
  }

  /**
   * `value.key` for a parsed value that is not `null`: only objects have own
   * properties named `userId`, `roles` or `message`; on strings, numbers,
   * booleans and arrays the access yields `undefined`.
   */
  function Property(value: Json, key: string): (r: Option<Json>)
    ensures !value.JObject? ==> r.None?
    ensures value.JObject? ==> r == Member(value.fields, key)
  {
    match value
    case JObject(fields) => Member(fields, key)
    case _ => None
  }

  /**
   * JavaScript truthiness of a possibly-undefined JSON value: the falsy
   * values a JSON value can be are `undefined`, `null`, `false`, `0` and "".
   */
  function Truthy(v: Option<Json>): (b: bool)
    ensures !b <==> v.None? || v == Some(JNull) || v == Some(JBool(false))
                    || v == Some(JNumber(0.0)) || v == Some(JString(""))
  {
    match v
    case None => false
    case Some(JNull) => false
    case Some(JBool(b)) => b
    case Some(JNumber(n)) => n != 0.0
    case Some(JString(s)) => s != ""
    case Some(JArray(_)) => true
    case Some(JObject(_)) => true
  }

  /** True when an object has an own property `key`. */
  predicate HasOwn(fields: seq<(string, Json)>, key: string) {
    exists i :: 0 <= i < |fields| && fields[i].0 == key
  }

  /**
   * `String(v)`; `None` when the coercion throws a TypeError. Formatting a
   * number is left to `numberText`. An object coerces to "[object Object]"
   * unless it has an own `toString` property: a parsed value is never
   * callable, so the inherited conversion is shadowed and no primitive is
   * found. An array is its elements joined with "," where `null` elements
   * contribute "".
   */
  function ToJsString(v: Json, numberText: real -> string): (r: Option<string>)
    ensures v.JNull? ==> r == Some("null")
    ensures v.JBool? ==> r == Some(if v.b then "true" else "false")
    ensures v.JNumber? ==> r == Some(numberText(v.n))
    ensures v.JString? ==> r == Some(v.s)
    ensures v.JObject? ==> (r.None? <==> HasOwn(v.fields, "toString"))
    ensures v.JObject? && r.Some? ==> r.value == "[object Object]"
    decreases v, 1
  {
    match v
    case JNull => Some("null")
    case JBool(b) => Some(if b then "true" else "false")
    case JNumber(n) => Some(numberText(n))
    case JString(s) => Some(s)
    case JArray(items) => JoinedText(items, v, numberText)
    case JObject(fields) => if HasOwn(fields, "toString") then None else Some("[object Object]")
  }

  /** `items.join(",")`, the text of an array; `parent` only bounds the recursion. */
  function JoinedText(items: seq<Json>, ghost parent: Json, numberText: real -> string): (r: Option<string>)
    requires forall i :: 0 <= i < |items| ==> items[i] < parent
    ensures |items| == 0 ==> r == Some("")
    decreases parent, 0, |items|
  {
    if |items| == 0 then Some("")
    else
      var first := if items[0].JNull? then Some("") else ToJsString(items[0], numberText);
      if |items| == 1 then first
      else
        match (first, JoinedText(items[1..], parent, numberText))
        case (Some(a), Some(b)) => Some(a + "," + b)
        case _ => None
  }

  /** The text an array element contributes to the join: "" for `null`, else `String(item)`. */
  function ElementText(item: Json, numberText: real -> string): Option<string> {
    if item.JNull? then Some("") else ToJsString(item, numberText)
  }

  /** The element texts of an array, in order; `None` when some element's coercion throws. */
  function ElementTexts(items: seq<Json>, numberText: real -> string): (r: Option<seq<string>>)
    ensures r.Some? <==> forall i :: 0 <= i < |items| ==> ElementText(items[i], numberText).Some?
    ensures r.Some? ==>
      && |r.value| == |items|
      && forall i :: 0 <= i < |items| ==> ElementText(items[i], numberText) == Some(r.value[i])
    decreases |items|
  {
    if |items| == 0 then Some([])
    else
      match (ElementText(items[0], numberText), ElementTexts(items[1..], numberText))
      case (Some(t), Some(ts)) => Some([t] + ts)
      case _ => None
  }

  /**
   * `String(array)` is `array.join(",")`: the element texts joined with
   * commas, `null` elements contributing "", and a TypeError when some
   * element's coercion throws.
   */
  lemma {:induction false} ArrayText(items: seq<Json>, numberText: real -> string)
    ensures ToJsString(JArray(items), numberText)
         == match ElementTexts(items, numberText)
            case None => None
            case Some(texts) => Some(Text.Join(texts, ','))
  {
    JoinedTextIsJoin(items, JArray(items), numberText);
  }

  /** `JoinedText` over any tail of an array is the comma join of the element texts. */
  lemma {:induction false} JoinedTextIsJoin(items: seq<Json>, parent: Json, numberText: real -> string)
    requires forall i :: 0 <= i < |items| ==> items[i] < parent
    ensures JoinedText(items, parent, numberText)
         == match ElementTexts(items, numberText)
            case None => None
            case Some(texts) => Some(Text.Join(texts, ','))
    decreases |items|
  {
    if |items| > 0 {
      JoinedTextIsJoin(items[1..], parent, numberText);
    }
  }
}
