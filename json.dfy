/**
  The already-parsed JSON value the validator inspects, and the bits of
  JavaScript value semantics the validator relies on: truthiness (used by
  the entry prefix), conversion to a string (template literals and
  `RegExp.prototype.test`) and the decimal rendering of an entry index.
 */
module JsValues {
  import opened Wrappers

  /** A JSON value. An object is the sequence of its own (key, value) pairs
      in the engine's key-enumeration order (the order `Object.keys` reports).
      Numbers are modelled by their integral value. */
  datatype Json =
    | JNull
    | JBool(b: bool)
    | JNumber(n: int)
    | JString(s: string)
    | JArray(items: seq<Json>)
    | JObject(fields: seq<(string, Json)>)

  /** `lodash.isObject`: true for objects and for arrays, false for null and primitives. */
  predicate IsObject(v: Json) {
    v.JArray? || v.JObject?
  }

  /** JavaScript truthiness of a property read; `None` is `undefined`. */
  predicate Truthy(v: Option<Json>) {
    match v
    case None => false
    case Some(j) =>
      match j
      case JNull => false
      case JBool(b) => b
      case JNumber(n) => n != 0
      case JString(s) => s != ""
      case JArray(_) => true
      case JObject(_) => true
  }

  /** The decimal digit for 0 <= d < 10. */
  function Digit(d: nat): (c: char)
    requires d < 10
    ensures '0' <= c <= '9'
  {
    "0123456789"[d]
  }

  predicate IsDigit(c: char) {
    '0' <= c <= '9'
  }

  /** Decimal rendering of a natural number, as a template literal prints it. */
  function NatToString(n: nat): (r: string)
    ensures |r| > 0
    decreases n
  {
    if n < 10 then [Digit(n)] else NatToString(n / 10) + [Digit(n % 10)]
  }

  /** The rendering consists of decimal digits only. */
  lemma {:induction false} NatToStringDigits(n: nat)
    ensures forall i | 0 <= i < |NatToString(n)| :: IsDigit(NatToString(n)[i])
    decreases n
  {
    if n >= 10 {
      NatToStringDigits(n / 10);
    }
  }

  function IntToString(n: int): (r: string)
    ensures |r| > 0
  {
    if n < 0 then "-" + NatToString(-n) else NatToString(n)
  }

  /** The keys of an object's own properties, in enumeration order. An array's
      own properties are its index keys and "length". Primitives have none.
      `Object.keys` of an array leaves out "length", but no array reaches the
      extraneous-key step: it lacks "id" (`ArrayEntryMissingId`). */
  function OwnKeys(v: Json): (r: seq<string>)
  {
    match v
    case JObject(fields) => seq(|fields|, i requires 0 <= i < |fields| => fields[i].0)
    case JArray(items) => seq(|items|, i requires 0 <= i < |items| => NatToString(i)) + ["length"]
    case _ => []
  }

  /** `hasOwnProperty`. */
  predicate HasOwn(v: Json, key: string) {
    key in OwnKeys(v)
  }

  /** `v[key]` for an object: the value of the first pair with that key, or
      `None` (undefined). It is applied only to the changelog field names,
      which no array, primitive or prototype carries. */
  function Property(v: Json, key: string): Option<Json> {
    match v
    case JObject(fields) => Lookup(fields, key)
    case _ => None
  }

  function Lookup(fields: seq<(string, Json)>, key: string): Option<Json> {
    if fields == [] then None
    else if fields[0].0 == key then Some(fields[0].1)
    else Lookup(fields[1..], key)
  }

  /** A lookup finds a value exactly when some pair has the key, and the
      value it finds belongs to such a pair. */
  lemma {:induction false} LookupMeaning(fields: seq<(string, Json)>, key: string)
    ensures Lookup(fields, key).Some? <==> exists i | 0 <= i < |fields| :: fields[i].0 == key
    ensures Lookup(fields, key).Some? ==> (key, Lookup(fields, key).value) in fields
  {
    if fields != [] && fields[0].0 != key {
      LookupMeaning(fields[1..], key);
      assert forall i | 1 <= i < |fields| :: fields[i] == fields[1..][i - 1];
    }
  }

  /** A lookup finds the value of the first pair with the key. */
  lemma {:induction false} LookupAt(fields: seq<(string, Json)>, key: string, i: nat)
    requires i < |fields| && fields[i].0 == key
    requires forall j | 0 <= j < i :: fields[j].0 != key
    ensures Lookup(fields, key) == Some(fields[i].1)
  {
    if i > 0 {
      LookupAt(fields[1..], key, i - 1);
    }
  }

  /** An object has a value for a property exactly when it owns that key. */
  lemma PropertyOfObject(v: Json, key: string)
    requires v.JObject?
    ensures Property(v, key).Some? <==> HasOwn(v, key)
  {
    LookupMeaning(v.fields, key);
    var keys := OwnKeys(v);
    assert |keys| == |v.fields| && forall i | 0 <= i < |keys| :: keys[i] == v.fields[i].0;
    if HasOwn(v, key) {
      var i :| 0 <= i < |keys| && keys[i] == key;
      assert v.fields[i].0 == key;
    }
  }

  /** `String(v)`, as used by template literals and `RegExp.prototype.test`.
      An array is joined with "," and its null elements print as "". */
  function ToJsString(v: Json): string
  {
    match v
    case JNull => "null"
    case JBool(b) => if b then "true" else "false"
    case JNumber(n) => IntToString(n)
    case JString(s) => s
    case JArray(items) => JoinElements(items)
    case JObject(_) => "[object Object]"
  }

  function JoinElements(items: seq<Json>): string
    decreases items
  {
    if items == [] then ""
    else
      var first := if items[0].JNull? then "" else ToJsString(items[0]);
      if |items| == 1 then first else first + "," + JoinElements(items[1..])
  }
}
