/**
 The record the service persists and the JSON codec it goes through. The codec
 (Gson with a type adapter for states) and the record's validity check are not
 part of this model, so they are parameters: a `JsonCodec` bundles three
 functions, and the round-trip law is a predicate a caller may assume, never an
 axiom of the model.
 */
module Codec {
  import opened Wrappers
  import opened Types

  /** One persisted record: the key it was stored under, the state, and the store time. */
  datatype MapDbItem = MapDbItem(name: string, state: State, timestamp: int)

  /** The exception a parse throws on a payload that is not JSON of the record's shape. */
  datatype JsonError = JsonSyntaxError

  /**
   `toJson` is serialization. `fromJson` is parsing: `Success(None)` where the
   parser returns `null` (an empty or "null" payload), `Success(Some(r))` for a
   parsed record, and `Failure` where the parser throws. `isValid` is the
   record's own validity predicate.
   */
  datatype JsonCodec = JsonCodec(
    toJson: MapDbItem -> string,
    fromJson: string -> Result<Option<MapDbItem>, JsonError>,
    isValid: MapDbItem -> bool)

  /** The codec law: parsing the serialization of a valid record gives that record back. */
  ghost predicate RoundTrips(c: JsonCodec)
  {
    forall r :: c.isValid(r) ==> c.fromJson(c.toJson(r)) == Success(Some(r))
  }

  /**
   Parses a stored payload. A null parse or an invalid record becomes
   `Success(None)`; a parse exception is not caught and escapes as `Failure`.
   */
  function Deserialize(c: JsonCodec, json: string): (r: Result<Option<MapDbItem>, JsonError>)
    ensures r.Failure? <==> c.fromJson(json).Failure?
    ensures r.Success? && r.value.Some? ==> c.isValid(r.value.value) && c.fromJson(json) == r
    ensures r == Success(None) <==>
      (c.fromJson(json) == Success(None)
       || (c.fromJson(json).Success? && c.fromJson(json).value.Some? && !c.isValid(c.fromJson(json).value.value)))
  {
    match c.fromJson(json)
    case Failure(e) => Failure(e)
    case Success(None) => Success(None)
    case Success(Some(item)) => if c.isValid(item) then Success(Some(item)) else Success(None)
  }

  /** Under the codec law, deserializing a serialized valid record is the identity. */
  lemma DeserializeSerialize(c: JsonCodec, r: MapDbItem)
    requires RoundTrips(c)
    requires c.isValid(r)
    ensures Deserialize(c, c.toJson(r)) == Success(Some(r))
  {
  }
}
