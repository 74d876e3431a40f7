# Duck client backend core, modelled in Dafny

This project models the core of the duck-sighting Android client. It covers the
`BackendClient`, which fetches the species list and the sightings from the duck
backend and saves new sightings. It also covers the two model classes the client
works with, `Species` and `Sighting`.

The client has one piece of state: `allowedSpecies`. It starts empty and is
replaced wholesale by each successful species fetch. `saveSighting` consults it
before any background work starts. A save is refused when the list is empty.
It is also refused when no entry equals the sighting's species by name.

Modules, one per part of the program:

- `JavaLang`: the Java behaviour the core relies on.
  - Java `int` is a 32-bit newtype.
  - `null` is `Option`, and a thrown exception is `Result`.
  - `String.format("%d", …)` is `DecimalText`, with its inverse `ParseDecimal`.
  - `String.hashCode` keeps its 32-bit wrap-around.
- `SpeciesModel` (`model/Species.java`): class `Species`.
  - Its `name` is mutable.
  - `Equals` takes any object (`null` included).
  - `HashCode` is the name's hash code.
- `SightingModel` (`model/Sighting.java`): the immutable `Sighting` datatype.
  - `CountAndSpeciesText` builds the "count + species" text.
  - `ShortDescription` truncates the description.
- `Transport` (`getRawText` and `postData` in `BackendClient.java`).
  - It models `BufferedReader.readLine` and the read loop that joins the lines
    without separators.
  - It also has the test that a POST succeeded.
- `Codec` (`SpeciesSerializer` and `SpeciesDeserializer`): the bare-name JSON
  form of a species, over a small `JsonElement` type.
- `Backend` (`BackendClient.java`): class `BackendClient`.
  - It handles species and sightings responses.
  - It runs the save checks and the save.
  - It includes construction and the whitelist-history lemma.

Each asynchronous task is one sequential step. The network's answer and Gson's
decoding of it are parameters:
- `GetResponse` says whether the read failed or what the body decoded to.
- `PostOutcome` says whether the connection failed or what status code came back.

What the listener would be told is returned as a tagged value:
- `Delivery` for the two fetches;
- `Gate` for the synchronous save checks;
- `SaveResult` for `SightingSaveListener`'s two callbacks, `saveCompleted()` and `saveFailed(msg)`.

Behaviour of the code worth knowing:

- A JSON body that Gson cannot decode makes `fromJson` throw inside
  `onPostExecute`, and nothing catches it. The model returns `Thrown`: no
  listener is told, and the whitelist is not changed.
- `Sighting.id` is not left out of the POST body by the code.
  `@Expose(serialize = false)` only has an effect when
  `excludeFieldsWithoutExposeAnnotation` is called, and it is never called. So a
  non-null id would be sent. The model claims nothing about id omission.
- `getShortDescription` returns its input unchanged in two cases:
  - the description is shorter than 254 characters;
  - it is exactly 254 characters followed by "...".

  See `ShortDescriptionUnchangedIff`.

## Model

| member | source | states |
|---|---|---|
| `Backend.NewBackendClient` | app/src/main/java/net/markmakinen/duckclient/backend/BackendClient.java:57-61 | a null URI is refused with "Invalid backend URI!"; otherwise a new client with that URI and an empty species list |
| `Backend.BackendClient.constructor` | app/src/main/java/net/markmakinen/duckclient/backend/BackendClient.java:59-60 | the client keeps the URI and starts with no allowed species |
| `Backend.Deliver` | app/src/main/java/net/markmakinen/duckclient/backend/BackendClient.java:88-107 | the listener gets the decoded list exactly when the body decoded; it gets "Data getting failed!" exactly when the read failed |
| `Backend.WhitelistAfter` | app/src/main/java/net/markmakinen/duckclient/backend/BackendClient.java:92-105 | after a species fetch the whitelist is exactly the decoded list if decoding succeeded, and is unchanged otherwise |
| `Backend.BackendClient.OnSpeciesResponse` | app/src/main/java/net/markmakinen/duckclient/backend/BackendClient.java:87-108 | the whitelist is replaced by the decoded list before the listener is told; a failed read or a malformed body leaves it unchanged |
| `Backend.WhitelistIsLatestSuccessfulFetch` | app/src/main/java/net/markmakinen/duckclient/backend/BackendClient.java:103-105 | after any series of species fetches, the whitelist is the list from the latest successful one, or the initial list if none succeeded |
| `Backend.LatestSpeciesList` | app/src/main/java/net/markmakinen/duckclient/backend/BackendClient.java:103-105 | there is a latest successful fetch iff some fetch decoded; its list is the one decoded by a fetch after which no fetch decoded |
| `Backend.BackendClient.OnSightingsResponse` | app/src/main/java/net/markmakinen/duckclient/backend/BackendClient.java:139-158 | the listener gets the decoded sightings or "Data getting failed!"; the client's state is not touched |
| `Backend.BackendClient.CheckSave` | app/src/main/java/net/markmakinen/duckclient/backend/BackendClient.java:172-192 | the first-match search gives Proceed iff some whitelist entry equals the species; otherwise an empty list gives "Get species before saving a new sighting!" and a non-empty one gives `Backend does not support species "<name>"!` |
| `Backend.BackendClient.SaveSighting` | app/src/main/java/net/markmakinen/duckclient/backend/BackendClient.java:170-226 | a POST is made iff the checks pass; a refused save reports the check's message; an attempted save completes iff the server answered 200, and otherwise reports "Sighting save failed!" |
| `Backend.SaveResultAfterPost` | app/src/main/java/net/markmakinen/duckclient/backend/BackendClient.java:210-219 | exactly one of saveCompleted (POST succeeded) or saveFailed("Sighting save failed!") |
| `Backend.SupportsNeedsWhitelist` | app/src/main/java/net/markmakinen/duckclient/backend/BackendClient.java:181-189 | a supported species implies a non-empty whitelist; support is name equality with some entry |
| `Backend.SaveOfUnlistedSpeciesIsRefused` | app/src/main/java/net/markmakinen/duckclient/backend/BackendClient.java:180-192 | with only "Mallard" fetched, saving "Teal" fails with `Backend does not support species "Teal"!` and posts nothing |
| `Transport.ReadLine` | app/src/main/java/net/markmakinen/duckclient/backend/BackendClient.java:255 | a line never contains a line terminator, and each read consumes input |
| `Transport.ReadLineSplitsAtFirstTerminator` | app/src/main/java/net/markmakinen/duckclient/backend/BackendClient.java:255 | the line is the text before the first terminator; the rest is what follows exactly one "\n", "\r" (not followed by "\n") or "\r\n", or nothing at the end of the stream |
| `Transport.ReadBody` | app/src/main/java/net/markmakinen/duckclient/backend/BackendClient.java:250-263 | the body is the lines appended in order with no separator, which is the stream with every '\n' and '\r' removed |
| `Transport.ConcatLinesStrips` | app/src/main/java/net/markmakinen/duckclient/backend/BackendClient.java:253-257 | joining the lines read equals removing every line terminator from the response text |
| `Transport.SingleLineBodyUnchanged` | app/src/main/java/net/markmakinen/duckclient/backend/BackendClient.java:253-257 | a body without line terminators is read back exactly |
| `Transport.StatusIsSuccess` | app/src/main/java/net/markmakinen/duckclient/backend/BackendClient.java:298-301 | the status test passes iff the code is 200 (-1 and every other code fail) |
| `Transport.PostSucceeded` | app/src/main/java/net/markmakinen/duckclient/backend/BackendClient.java:279-304 | `postData` returns normally iff the server answered 200 |
| `Codec.PrimitiveAsString` | app/src/main/java/net/markmakinen/duckclient/backend/BackendClient.java:339 | a string gives its own text, a number its literal as written, a boolean "true" or "false"; any other element fails with "Not a JSON Primitive" |
| `Codec.DeserializeSpecies` | app/src/main/java/net/markmakinen/duckclient/backend/BackendClient.java:337-343 | a JSON primitive yields a new Species with that text as its name, with no whitelist check; other elements fail |
| `Codec.SpeciesRoundTrip` | app/src/main/java/net/markmakinen/duckclient/backend/BackendClient.java:328-342 | serializing then deserializing gives a different object that is equal to the original and has the same name |
| `Codec.SerializeSpecies` | app/src/main/java/net/markmakinen/duckclient/backend/BackendClient.java:328-332 | a species is written as a JSON string, which reads back as its name |
| `SpeciesModel.Species.constructor` | app/src/main/java/net/markmakinen/duckclient/model/Species.java:35-37 | the new species has the given name |
| `SpeciesModel.Species.GetName` | app/src/main/java/net/markmakinen/duckclient/model/Species.java:19-21 | returns the name given to the constructor or to the latest `setName` |
| `SpeciesModel.Species.HashCode` | app/src/main/java/net/markmakinen/duckclient/model/Species.java:39-42 | the name's hash code: its base-31 polynomial modulo 2^32 |
| `SpeciesModel.Species.SetName` | app/src/main/java/net/markmakinen/duckclient/model/Species.java:27-29 | afterwards the name is `n`, the hash is `n`'s hash, and equality with any other species is judged against `n` |
| `SpeciesModel.Species.Equals` | app/src/main/java/net/markmakinen/duckclient/model/Species.java:44-49 | true only for a non-null Species; always true for the object itself |
| `SpeciesModel.EqualsIsNameEquality` | app/src/main/java/net/markmakinen/duckclient/model/Species.java:48 | two species are equal iff their names are equal |
| `SpeciesModel.NotEqualToOtherObjects` | app/src/main/java/net/markmakinen/duckclient/model/Species.java:46 | null and non-Species objects are never equal to a species |
| `SpeciesModel.EqualsIsEquivalence` | app/src/main/java/net/markmakinen/duckclient/model/Species.java:44-49 | equality is reflexive, symmetric and transitive |
| `SpeciesModel.EqualsAgreesWithHashCode` | app/src/main/java/net/markmakinen/duckclient/model/Species.java:39-49 | equal species have equal hash codes |
| `SpeciesModel.EqualsIsCaseSensitive` | app/src/main/java/net/markmakinen/duckclient/model/Species.java:48 | "Mallard" and "mallard" are different species |
| `SightingModel.GettersReturnConstructorArguments` | app/src/main/java/net/markmakinen/duckclient/model/Sighting.java:17-112 | the `Sighting` datatype: its five fields are those of the class, and every getter returns the value passed to the constructor |
| `SightingModel.CountAndSpeciesText` | app/src/main/java/net/markmakinen/duckclient/model/Sighting.java:70-74 | the text is the count's digits, one space, the name, and one more character iff count > 1 |
| `SightingModel.CountAndSpeciesTextMeaning` | app/src/main/java/net/markmakinen/duckclient/model/Sighting.java:70-74 | the text is the count as `%d` writes it (no leading zero), which reads back as the count, then one space, then the name; the name gets "s" appended iff count > 1 |
| `SightingModel.ShortDescription` | app/src/main/java/net/markmakinen/duckclient/model/Sighting.java:90-96 | at most 257 characters; a description under 254 comes back as is; a longer one gives its first 254 characters then "..."; the result always begins with the description's kept prefix |
| `SightingModel.ShortDescriptionUnchangedIff` | app/src/main/java/net/markmakinen/duckclient/model/Sighting.java:93-94 | the description is unchanged iff it is shorter than 254, or is 254 characters then "..." |
| `SightingModel.ShortDescriptionIdempotent` | app/src/main/java/net/markmakinen/duckclient/model/Sighting.java:90-96 | shortening a short description changes nothing |
| `JavaLang.DecimalText` | app/src/main/java/net/markmakinen/duckclient/model/Sighting.java:73 | `%d` gives a non-empty text of digits, led by a minus sign exactly for negative numbers, with no leading zero ("0" alone for zero) |
| `JavaLang.DecimalTextRoundTrip` | app/src/main/java/net/markmakinen/duckclient/model/Sighting.java:73 | parsing the `%d` text gives the number back |
| `JavaLang.StringHashCode` | app/src/main/java/net/markmakinen/duckclient/model/Species.java:41 | `String.hashCode` computed as `h = 31 * h + c` in 32-bit arithmetic equals the documented polynomial sum of the characters modulo 2^32 |
| `JavaLang.DecimalTextInjective` | app/src/main/java/net/markmakinen/duckclient/model/Sighting.java:73 | different counts are written as different texts |

## Left out

- Threading: `AsyncTask`, and which thread runs each listener. `DataSaver` calls the listener from the background thread. Each operation is one sequential step.
- The `listener != null` checks. The model always returns what the listener would be told.
- `HttpURLConnection` work. This covers URI resolution, the 5000 ms connect timeout, request headers, writing the POST body, the error message of the `IOException`, and `disconnect`. The model keeps only the line reading and the status-code test.
- Gson's reflective decoding into `ArrayList<Species>` and `ArrayList<Sighting>`. It is the `Decoded` parameter: a list or a malformed body.
  - `getSpecies` uses a plain `Gson` without the bare-string `SpeciesDeserializer`. So a bare-string species list would be a malformed body there.
  - Gson returns `null` for an empty body. That case, and the `null` whitelist it would leave, are not modelled.
- Gson's encoding of a `Sighting` for the POST. The body the server receives is not modelled. Neither is whether `id` appears in it.
- Joda-Time: `DateTimeSerializer`, `DateTimeDeserializer`, `getDateTimeText`, time zones. `DateTime` is kept only as an instant in milliseconds.
- `String.format` with a locale whose digits are not ASCII. `DecimalText` writes ASCII digits.
- A `null` species in a `Sighting` (the Java code would throw `NullPointerException`). In the model a sighting always has a species.
- SightingModel.ShortDescription, JavaLang.StringHashCode, SpeciesModel.Species.HashCode and SightingModel.CountAndSpeciesText: a Dafny `string` is a sequence of Unicode scalar values, while Java's `length()`, `substring` and `hashCode()` work on UTF-16 code units. So the 254-character cut, the length bounds of the short description and of the count-and-species text, and the hash of a string (and so of a species) are computed over scalar values. They differ from Java on text with characters outside the Basic Multilingual Plane, such as emoji: Java counts each as two units, can cut a surrogate pair in half, and hashes the two surrogates.
- SpeciesModel.Species.Equals, Backend.BackendClient.CheckSave, Backend.BackendClient.SaveSighting and SightingModel.ShortDescription: Java `null` strings, list entries and arguments are not modelled. A species name can be `null` (after `setName(null)`, or when Gson decodes a species object without a `name` field), a whitelist entry can be `null` (a body such as `[null, ...]`), and a description can be `null`. In Java, `equals` on a null name, a null entry met before the match in the save check, and `getShortDescription` on a null description throw `NullPointerException`. A `null` sighting passed to `saveSighting` is refused with "Get species before saving a new sighting!" while the whitelist is empty, and otherwise makes `sighting.getSpecies()` throw `NullPointerException` before any listener is told; the model's `SaveSighting` and `CheckSave` always receive a sighting, so that path is absent. In the model names, entries, descriptions and sightings are never null.
- `MainActivity`, `SightingArrayAdapter` and `DuckClient` are not part of this model. They are UI, sorting for display, and Joda initialisation.
