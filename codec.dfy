/**
 * The bare-name JSON adapters for `Species` registered on Gson by
 * `BackendClient`: `SpeciesSerializer` writes a species as the JSON string
 * of its name, `SpeciesDeserializer` builds a new `Species` from a JSON
 * primitive. Gson's reflective (de)serialization of whole objects and the
 * date-time adapters are not modelled.
 */
module Codec {
  import opened JavaLang
  import opened SpeciesModel

  /** A Gson `JsonElement`. */
  datatype JsonElement =
    | JsonString(text: string)
    | JsonNumber(literal: string)
    | JsonBoolean(truth: bool)
    | JsonNull
    | JsonArray(elements: seq<JsonElement>)
    | JsonObject(members: seq<(string, JsonElement)>)

  /** The start of Gson's message; Gson appends the offending element, which is not modelled. */
  const NotPrimitiveMessage := "Not a JSON Primitive"

  /**
   * `getAsJsonPrimitive().getAsString()`: the text of a string, number or
   * boolean; any other element makes `getAsJsonPrimitive` throw an
   * `IllegalStateException`.
   */
  function PrimitiveAsString(j: JsonElement): (r: Result<string, string>)
    ensures r.Success? <==> j.JsonString? || j.JsonNumber? || j.JsonBoolean?
    ensures j.JsonString? ==> r == Success(j.text)
    ensures j.JsonNumber? ==> r == Success(j.literal)
    ensures j.JsonBoolean? ==> r == Success(if j.truth then "true" else "false")
    ensures r.Failure? ==> r.error == NotPrimitiveMessage
  {
    match j
    case JsonString(text) => Success(text)
    case JsonNumber(literal) => Success(literal)
    case JsonBoolean(truth) => Success(if truth then "true" else "false")
    case _ => Failure(NotPrimitiveMessage)
  }

  /** `SpeciesSerializer.serialize`: the species becomes a JSON string, which reads back as its name. */
  function SerializeSpecies(species: Species): (j: JsonElement)
    reads species
    ensures j.JsonString?
    ensures PrimitiveAsString(j) == Success(species.GetName())
  {
    JsonString(species.GetName())
  }

  /**
   * `SpeciesDeserializer.deserialize`: a new `Species` named by the
   * primitive's text. No check against the backend's species list is made.
   */
  method DeserializeSpecies(j: JsonElement) returns (r: Result<Species, string>)
    ensures r.Success? <==> PrimitiveAsString(j).Success?
    ensures r.Success? ==> fresh(r.value) && r.value.GetName() == PrimitiveAsString(j).value
    ensures r.Failure? ==> r.error == NotPrimitiveMessage
  {
    match PrimitiveAsString(j)
    case Success(name) =>
      var species := new Species(name);
      r := Success(species);
    case Failure(e) =>
      r := Failure(e);
  }

  /**
   * Writing a species and reading it back gives a new object that is equal
   * to the original: the name survives the round trip.
   */
  method SpeciesRoundTrip(species: Species) returns (back: Result<Species, string>)
    ensures back.Success?
    ensures back.value != species && back.value.Equals(species)
    ensures back.value.GetName() == species.GetName()
  {
    var j := SerializeSpecies(species);
    back := DeserializeSpecies(j);
  }
}
