/**
 * Plain JavaScript objects as documents are handed to a `toJSON` transform,
 * and the JSON values a handler responds with. An ObjectId stays an `Id`
 * value until the response is written out as text.
 */
module Json {
  import opened Wrappers
  import opened ObjectIds

  datatype Value =
    | Null
    | Str(str: string)
    | Num(num: int)
    | Id(oid: ObjectId)
    | Arr(items: seq<Value>)
    | Obj(fields: Object)

  type Object = map<string, Value>

  /** Mongoose's test for a required String path: present and non-empty. */
  predicate Present(v: Option<string>)
  {
    v.Some? && v.value != ""
  }

  /** The response body `{ error: message }`. */
  function ErrorBody(message: string): (v: Value)
    ensures v.Obj? && v.fields.Keys == {"error"} && v.fields["error"] == Str(message)
  {
    Obj(map["error" := Str(message)])
  }

  /**
   * The shape both schemas give their `toJSON` transform: assign `id` the
   * string form of `_id`, then delete `_id`, `__v` and the keys in `hidden`.
   * Every other key keeps its value.
   */
  function IdTransform(obj: Object, hidden: set<string>): (r: Object)
    requires "_id" in obj && obj["_id"].Id?
    ensures r.Keys == (obj.Keys + {"id"}) - {"_id", "__v"} - hidden
    ensures "id" !in hidden ==> r["id"] == Str(ToHexString(obj["_id"].oid))
    ensures forall k :: k in obj && k !in hidden && k !in {"_id", "__v", "id"} ==> r[k] == obj[k]
  {
    obj["id" := Str(ToHexString(obj["_id"].oid))] - {"_id", "__v"} - hidden
  }
}
