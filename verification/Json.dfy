/** JSON documents as trees, with Python's view of them. */
module Json {
  import opened Common

  datatype Json =
    | JNull
    | JBool(truth: bool)
    | JInt(n: int)
    | JFloat(x: real)
    | JStr(text: string)
    | JArr(items: seq<Json>)
    | JObj(fields: map<string, Json>)

  /** dict.get: a missing key reads as None, which is also what a JSON null reads as. */
  function Get(doc: Json, key: string): Json
    requires doc.JObj?
  {
    if key in doc.fields then doc.fields[key] else JNull
  }

  /** The number a value counts as in a Python comparison; a bool counts as 0 or 1. */
  function Numeric(j: Json): Option<real> {
    match j
    case JBool(b) => Some(if b then 1.0 else 0.0)
    case JInt(n) => Some(n as real)
    case JFloat(x) => Some(x)
    case _ => None
  }

  /** Python's == when at least one side is a scalar. */
  predicate PyEq(a: Json, b: Json) {
    if Numeric(a).Some? && Numeric(b).Some? then Numeric(a) == Numeric(b) else a == b
  }

  /** Python's == between two dicts whose values on one side are scalars. */
  predicate SameDict(a: map<string, Json>, b: map<string, Json>) {
    a.Keys == b.Keys && forall k :: k in a ==> PyEq(a[k], b[k])
  }

  /** Python's view by kinds: numbers compare by value, true and false among them as 1 and 0; anything
      else is equal only to itself; and a missing key reads as null. */
  lemma EqualityByKinds(n: int, x: real, b: bool, s: string, t: string, doc: Json, key: string)
    ensures PyEq(JInt(n), JFloat(x)) <==> n as real == x
    ensures PyEq(JBool(b), JInt(n)) <==> n == if b then 1 else 0
    ensures PyEq(JBool(b), JFloat(x)) <==> x == if b then 1.0 else 0.0
    ensures PyEq(JStr(s), JStr(t)) <==> s == t
    ensures !PyEq(JStr(s), JInt(n)) && !PyEq(JNull, JInt(n)) && !PyEq(JNull, JBool(b)) && PyEq(JNull, JNull)
    ensures doc.JObj? ==> Get(doc, key) == if key in doc.fields then doc.fields[key] else JNull
  {
  }
}
