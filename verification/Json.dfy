/** JSON documents as json-c hands them to the server, and the strict getters of
    src/common/json-helpers.c. */
module Json {
  import opened Base

  /** Object members keep their insertion order.  Numbers with a fraction are reals. */
  datatype Json =
    | JNull
    | JBool(b: bool)
    | JInt(n: int)
    | JDouble(d: real)
    | JString(s: string)
    | JArray(items: seq<Json>)
    | JObject(fields: seq<Field>)

  datatype Field = Field(key: string, value: Json)

  datatype JsonType = TNull | TBoolean | TInt | TDouble | TString | TArray | TObject

  /** The value of the member named `key`. */
  function Find(ms: seq<Field>, key: string): Option<Json> {
    if ms == [] then None else if ms[0].key == key then Some(ms[0].value) else Find(ms[1..], key)
  }

  lemma {:induction false} FindIsMember(ms: seq<Field>, key: string)
    ensures Find(ms, key).Some? <==> exists i :: 0 <= i < |ms| && ms[i].key == key
    ensures Find(ms, key).Some? ==> exists i :: 0 <= i < |ms| && ms[i] == Field(key, Find(ms, key).value)
  {
    if ms != [] && ms[0].key != key {
      FindIsMember(ms[1..], key);
      assert forall i :: 0 < i < |ms| ==> ms[i] == ms[1..][i - 1];
    }
  }

  /** `json_object_object_get_ex`: anything but an object has no member. */
  function GetEx(j: Json, key: string): Option<Json> {
    if j.JObject? then Find(j.fields, key) else None
  }

  /** json-c objects are hash tables: no two members share a key. */
  ghost predicate UniqueKeys(ms: seq<Field>) {
    forall i, k :: 0 <= i < k < |ms| ==> ms[i].key != ms[k].key
  }

  /** A document json-c can hold. */
  ghost predicate WellFormed(j: Json) {
    match j
    case JArray(items) => forall i :: 0 <= i < |items| ==> WellFormed(items[i])
    case JObject(ms) => UniqueKeys(ms) && forall i :: 0 <= i < |ms| ==> WellFormed(ms[i].value)
    case _ => true
  }

  /** In a document json-c can hold, a key has a value exactly when the document is an
      object with that very member. */
  lemma GetExIff(j: Json, key: string, v: Json)
    requires WellFormed(j)
    ensures GetEx(j, key) == Some(v) <==> j.JObject? && Field(key, v) in j.fields
  {
    if j.JObject? {
      FindIsMember(j.fields, key);
    }
  }
}
