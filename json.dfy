/** A decoded JSON document, as `json.Unmarshal` into an `interface{}` hands it
    to the tree builder: a closed variant of the six JSON kinds. */
module JsonValue {

  /** An object's members are listed in the order in which Go's map
      iteration happens to visit them; the decoder has already removed
      duplicate keys. A number carries the text that `%v` prints for it. */
  datatype JValue =
    | JObject(fields: seq<(string, JValue)>)
    | JArray(items: seq<JValue>)
    | JString(str: string)
    | JNumber(text: string)
    | JBool(b: bool)
    | JNull

  /** The `Type` field of a node. */
  datatype Kind = Object | Array | String | Number | Boolean | Null

  function KindOf(v: JValue): Kind
  {
    match v
    case JObject(_) => Object
    case JArray(_) => Array
    case JString(_) => String
    case JNumber(_) => Number
    case JBool(_) => Boolean
    case JNull => Null
  }

  /** The name the source stores in `Type`. */
  function KindName(k: Kind): (r: string)
    ensures |r| >= 4
  {
    match k
    case Object => "object"
    case Array => "array"
    case String => "string"
    case Number => "number"
    case Boolean => "boolean"
    case Null => "null"
  }

  /** The six kind names are pairwise different. */
  lemma KindNameInjective(k: Kind, l: Kind)
    ensures KindName(k) == KindName(l) ==> k == l
  {
  }

  predicate IsContainer(k: Kind)
  {
    k == Object || k == Array
  }

  /** The keys of an object, each appearing once, as a Go map guarantees. */
  predicate DistinctKeys(fields: seq<(string, JValue)>)
  {
    forall i, j :: 0 <= i < j < |fields| ==> fields[i].0 != fields[j].0
  }
}
